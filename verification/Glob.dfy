/** Plugin model filters: the greedy wildcard matcher (src/plugin/lua_plugin.c:142-176), which tries the
    literal comparison before the star and only ever goes back to the last star. */
module Glob {
  import opened Options

  // ---------- What a pattern means ----------

  /** '*' stands for any characters, everything else for itself. */
  predicate Matches(p: string, s: string)
    decreases |p| + |s|
  {
    if p == "" then s == ""
    else if p[0] == '*' then Matches(p[1..], s) || (s != "" && Matches(p, s[1..]))
    else s != "" && s[0] == p[0] && Matches(p[1..], s[1..])
  }

  predicate AllStars(p: string) {
    forall i :: 0 <= i < |p| ==> p[i] == '*'
  }

  /** Where the matcher returns to: the pattern after the last star, and the text that star began at. */
  datatype Star = Star(q: string, m: string)

  ghost predicate BackOk(s: string, back: Option<Star>) {
    back.Some? ==> |s| <= |back.value.m|
  }

  /** What the loop computes from a given state. */
  ghost predicate Run(p: string, s: string, back: Option<Star>)
    requires BackOk(s, back)
    decreases if back.Some? then |back.value.m| else |s| + 1, |p| + |s|
  {
    if s == "" then AllStars(p)
    else if p != "" && p[0] == s[0] then Run(p[1..], s[1..], back)
    else if p != "" && p[0] == '*' then Run(p[1..], s, Some(Star(p[1..], s)))
    else if back.Some? then
      var next := Star(back.value.q, back.value.m[1..]);
      Run(next.q, next.m, Some(next))
    else false
  }

  /** The answer for a pattern and a subject. An empty pattern accepts everything. */
  ghost predicate Accepts(p: string, s: string) {
    p == "" || p == "*" || Run(p, s, None)
  }

  // ---------- Soundness ----------

  lemma {:induction false} MatchesEmpty(p: string)
    ensures Matches(p, "") <==> AllStars(p)
  {
    if p != "" {
      MatchesEmpty(p[1..]);
      assert forall i :: 1 <= i < |p| ==> p[i] == p[1..][i - 1];
    }
  }

  lemma {:induction false} StarTakesAll(s: string)
    ensures Matches("*", s)
  {
    if s != "" { StarTakesAll(s[1..]); }
  }

  /** A star that matches a suffix matches the whole. */
  lemma {:induction false} StarAbsorbs(r: string, s: string, t: string)
    requires Matches("*" + r, t)
    ensures Matches("*" + r, s + t)
  {
    if s == "" {
      assert s + t == t;
    } else {
      StarAbsorbs(r, s[1..], t);
      assert (s + t)[1..] == s[1..] + t;
    }
  }

  ghost predicate BackMatches(back: Option<Star>) {
    back.Some? && back.value.m != "" && Matches("*" + back.value.q, back.value.m[1..])
  }

  lemma {:induction false} RunIsSound(p: string, s: string, back: Option<Star>)
    requires BackOk(s, back) && Run(p, s, back)
    ensures Matches(p, s) || BackMatches(back)
    decreases if back.Some? then |back.value.m| else |s| + 1, |p| + |s|
  {
    if s == "" {
      MatchesEmpty(p);
    } else if p != "" && p[0] == s[0] {
      RunIsSound(p[1..], s[1..], back);
      if p[0] == '*' && Matches(p[1..], s[1..]) { assert Matches(p, s[1..]); }
    } else if p != "" && p[0] == '*' {
      RunIsSound(p[1..], s, Some(Star(p[1..], s)));
      assert p == "*" + p[1..];
    } else {
      var next := Star(back.value.q, back.value.m[1..]);
      RunIsSound(next.q, next.m, Some(next));
      var star := "*" + next.q;
      assert star[1..] == next.q;
    }
  }

  /** Whatever the subject, nothing is accepted that the pattern does not match. */
  lemma AcceptsOnlyMatches(p: string, s: string)
    requires p != "" && Accepts(p, s)
    ensures Matches(p, s)
  {
    if p == "*" { StarTakesAll(s); } else { RunIsSound(p, s, None); }
  }

  // ---------- Completeness ----------

  /** A subject with no star, except perhaps as its last character. */
  predicate PlainUntilLast(s: string) {
    forall i :: 0 <= i < |s| - 1 ==> s[i] != '*'
  }

  lemma {:induction false} MatchesNeedsLength(lit: string, p: string, s: string)
    requires Matches(lit + p, s) && '*' !in lit
    ensures |lit| <= |s| && s[..|lit|] == lit && Matches(p, s[|lit|..])
  {
    if lit == "" {
      assert lit + p == p && s[0..] == s;
    } else {
      assert (lit + p)[0] == lit[0] && lit[0] in lit;
      assert (lit + p)[1..] == lit[1..] + p;
      MatchesNeedsLength(lit[1..], p, s[1..]);
      assert s[1..][|lit| - 1..] == s[|lit|..];
    }
  }

  /** A match of "*" and more is a match of the rest at some suffix. */
  lemma {:induction false} StarSplits(r: string, s: string) returns (k: nat)
    requires Matches("*" + r, s)
    ensures k <= |s| && Matches(r, s[k..])
  {
    var p := "*" + r;
    assert p[1..] == r;
    if Matches(r, s) {
      k := 0;
      assert s[0..] == s;
    } else {
      k := StarSplits(r, s[1..]);
      assert s[1..][k..] == s[k + 1..];
      k := k + 1;
    }
  }

  /** Since the last star, the pattern and the text have run through the same literal characters. */
  ghost predicate InStep(p: string, s: string, back: Option<Star>, lit: string) {
    back.Some? ==> '*' !in lit && back.value.q == lit + p && back.value.m == lit + s
  }

  /** Going back to an earlier star can never help: what it could still match, the present star can. */
  lemma EarlierStarIsNoBetter(p: string, s: string, back: Option<Star>, lit: string)
    requires InStep(p, s, back, lit) && BackMatches(back)
    ensures s != "" && exists k :: 1 <= k <= |s| && Matches(p, s[k..])
  {
    var m := back.value.m[1..];
    var k := StarSplits(back.value.q, m);
    MatchesNeedsLength(lit, p, m[k..]);
    var n := k + 1;
    assert m[k..][|lit|..] == (lit + s)[|lit| + n..] == s[n..];
  }

  lemma {:induction false} RunIsComplete(p: string, s: string, back: Option<Star>, lit: string)
    requires BackOk(s, back) && InStep(p, s, back, lit) && PlainUntilLast(s)
    requires back.Some? ==> PlainUntilLast(back.value.m)
    requires Matches(p, s) || BackMatches(back)
    ensures Run(p, s, back)
    decreases if back.Some? then |back.value.m| else |s| + 1, |p| + |s|
  {
    MatchesEmpty(p);
    if BackMatches(back) { EarlierStarIsNoBetter(p, s, back, lit); }
    if s == "" {
    } else if p != "" && p[0] == '*' {
      CompleteAtStar(p, s, back, lit);
      if s[0] == '*' {
        StarAtTheEnd(p, s);
      } else {
        RunIsComplete(p[1..], s, Some(Star(p[1..], s)), "");
      }
    } else if p != "" && p[0] == s[0] {
      var lit' := lit + [p[0]];
      assert lit' + p[1..] == lit + p && lit' + s[1..] == lit + s;
      RunIsComplete(p[1..], s[1..], back, lit');
    } else {
      var next := Star(back.value.q, back.value.m[1..]);
      assert Matches("*" + next.q, next.m) && ("*" + next.q)[1..] == next.q;
      RunIsComplete(next.q, next.m, Some(next), "");
    }
  }

  /** At a star of the pattern, a match from an earlier star is a match from here. */
  lemma CompleteAtStar(p: string, s: string, back: Option<Star>, lit: string)
    requires p != "" && p[0] == '*' && InStep(p, s, back, lit)
    requires Matches(p, s) || BackMatches(back)
    ensures Matches(p, s)
    ensures s != "" ==> Matches(p[1..], s) || Matches("*" + p[1..], s[1..])
  {
    assert p == "*" + p[1..];
    if BackMatches(back) {
      EarlierStarIsNoBetter(p, s, back, lit);
      var k :| 1 <= k <= |s| && Matches(p, s[k..]);
      assert s[..k] + s[k..] == s;
      StarAbsorbs(p[1..], s[..k], s[k..]);
    }
  }

  /** A star that meets the subject's last character, a star too. */
  lemma StarAtTheEnd(p: string, s: string)
    requires p != "" && p[0] == '*' && s == "*" && Matches(p, s)
    ensures AllStars(p[1..])
  {
    MatchesStar(p);
  }

  lemma {:induction false} MatchesStar(p: string)
    requires Matches(p, "*")
    ensures AllStars(p)
  {
    MatchesEmpty(p);
    assert forall i :: 1 <= i < |p| ==> p[i] == p[1..][i - 1];
    var rest := "*"[1..];
    assert rest == "";
    if !Matches(p, "") { MatchesStar(p[1..]); }
  }

  // ---------- Exactly which subjects are matched correctly ----------

  /** No star inside, and after a star in front at most one character, or one character repeated and
      another star. */
  ghost predicate Tame(s: string) {
    && (forall i :: 0 < i < |s| - 1 ==> s[i] != '*')
    && (|s| > 2 && s[0] == '*' ==> Runs(s[1], s[1..]))
  }

  /** c repeated, then a star. */
  ghost predicate Runs(c: char, t: string) {
    t != "" && t[|t| - 1] == '*' && forall i :: 0 <= i < |t| - 1 ==> t[i] == c
  }

  /** A star in the subject is matched only by a star, which can leave it out. */
  lemma {:induction false} DropStar(r: string, w: string)
    requires Matches(r, "*" + w)
    ensures Matches(r, w)
  {
    var s := "*" + w;
    assert s[1..] == w;
    if Matches(r[1..], s) { DropStar(r[1..], w); }
  }

  lemma {:induction false} StarsMatchAll(r: string, w: string)
    requires r != "" && AllStars(r)
    ensures Matches(r, w)
  {
    if w == "" { MatchesEmpty(r); } else { StarsMatchAll(r, w[1..]); }
  }

  /** What matches some repetitions and a star matches one repetition more. */
  lemma {:induction false} OneMore(r: string, c: char, t: string)
    requires Runs(c, t) && Matches(r, t)
    ensures Matches(r, [c] + t)
  {
    assert ([c] + t)[1..] == t;
    if r[0] == '*' {
      assert r == "*" + r[1..];
      StarAbsorbs(r[1..], [c], t);
    } else {
      assert [c] + t[1..] == t;
      OneMore(r[1..], c, t[1..]);
    }
  }

  lemma {:induction false} Lengthen(r: string, c: char, w: string, k: nat)
    requires r != "" && Runs(c, w) && k <= |w| && Matches(r, w[k..])
    ensures Matches(r, w)
  {
    if k == 0 {
      assert w[0..] == w;
    } else if k == |w| {
      MatchesEmpty(r);
      StarsMatchAll(r, w);
    } else {
      OneMore(r, c, w[k..]);
      assert [c] + w[k..] == w[k - 1..];
      Lengthen(r, c, w, k - 1);
    }
  }

  /** A star in front of a tame subject can be left to the star of the pattern alone. */
  lemma RestMatches(r: string, s: string)
    requires r != "" && |s| >= 2 && s[0] == '*' && Tame(s) && Matches("*" + r, s)
    ensures Matches(r, s[1..])
  {
    var w := s[1..];
    assert s == "*" + w;
    var k := StarSplits(r, s);
    if k == 0 {
      assert s[0..] == s;
      DropStar(r, w);
    } else if |s| > 2 {
      assert s[k..] == w[k - 1..];
      Lengthen(r, s[1], w, k - 1);
    } else if k == 2 {
      MatchesEmpty(r);
      StarsMatchAll(r, w);
    }
  }

  lemma {:induction false} TameIsComplete(p: string, s: string)
    requires p != "" && Tame(s) && Matches(p, s)
    ensures Accepts(p, s)
  {
    if |s| < 2 || s[0] != '*' {
      RunIsComplete(p, s, None, "");
    } else if p != "*" {
      assert p[0] == '*' && p == "*" + p[1..];
      RestMatches(p[1..], s);
      RunIsComplete(p[1..], s[1..], None, "");
    }
  }

  lemma {:induction false} SameStart(lit: string, p: string, s: string)
    ensures Matches(p, s) ==> Matches(lit + p, lit + s)
    ensures Run(lit + p, lit + s, None) == Run(p, s, None)
  {
    if lit == "" {
      assert lit + p == p && lit + s == s;
    } else {
      SameStart(lit[1..], p, s);
      assert (lit + p)[1..] == lit[1..] + p && (lit + s)[1..] == lit[1..] + s;
    }
  }

  /** A pattern the matcher gets wrong on a subject that is not tame. */
  lemma WrongOn(s: string) returns (p: string)
    requires !Tame(s)
    ensures p != "" && Matches(p, s) && !Accepts(p, s)
  {
    if i :| 0 < i < |s| - 1 && s[i] == '*' {
      p := s[..i] + "*";
      assert s == s[..i] + s[i..] && |p| > 1;
      StarTakesAll(s[i..]);
      SameStart(s[..i], "*", s[i..]);
      assert "*"[1..] == "";
    } else {
      var n, last := |s| - 1, s[|s| - 1];
      var c, tail := last, "";
      if last == '*' {
        var i :| 1 <= i < n && s[i] != s[1];
        c, tail := s[i], "*";
        p := "*" + [c] + tail;
        StarTakesAll(s[i + 1..]);
        assert s == s[..i] + ([c] + s[i + 1..]);
        SameStart([c], "*", s[i + 1..]);
        var r := [c] + tail;
        StarSeesThrough(r, s, i);
        assert p == "*" + r && p[1..] == r;
        assert !Run(r, s[1..], None);
      } else {
        p := "*" + [last];
        var r := [last];
        assert s[n..] == r && Matches(r, r) by { assert r[1..] == ""; }
        StarSeesThrough(r, s, n);
        assert p == "*" + r && p[1..] == r && r[1..] == "";
        assert !Run(r, s[1..], None);
      }
    }
  }

  /** A match at a suffix is a match after a star. */
  lemma StarSeesThrough(r: string, s: string, k: nat)
    requires k <= |s| && Matches(r, s[k..])
    ensures Matches("*" + r, s)
  {
    assert ("*" + r)[1..] == r && s[..k] + s[k..] == s;
    StarAbsorbs(r, s[..k], s[k..]);
  }

  /** The matcher agrees with the meaning of every non-empty pattern exactly on the tame subjects. */
  lemma RightExactlyOnTame(s: string)
    ensures Tame(s) <==> forall p :: p != "" ==> (Accepts(p, s) <==> Matches(p, s))
  {
    if Tame(s) {
      forall p | p != "" ensures Accepts(p, s) <==> Matches(p, s) {
        if Accepts(p, s) { AcceptsOnlyMatches(p, s); }
        if Matches(p, s) { TameIsComplete(p, s); }
      }
    } else {
      var p := WrongOn(s);
      assert p != "" && !(Accepts(p, s) <==> Matches(p, s));
    }
  }

  /** On a subject without stars, the matcher is right about every non-empty pattern. */
  lemma RightWithoutStars(p: string, s: string)
    requires p != "" && '*' !in s
    ensures Accepts(p, s) <==> Matches(p, s)
  {
    RightExactlyOnTame(s);
  }

  /** A match that is missed: the pattern's star is spent on the subject's. */
  lemma MissedMatch()
    ensures Matches("*b", "*ab") && !Accepts("*b", "*ab")
  {
    var p, s := "*b", "*ab";
    assert p[1..] == "b" && s[1..] == "ab" && s[2..] == "b" && s[3..] == "";
    assert Matches("b", "b") by { assert "b"[1..] == ""; }
    StarSeesThrough("b", s, 2);
    assert p == "*" + "b";
  }

  // ---------- The loop ----------

  ghost function BackAt(pattern: string, str: string, starP: int, matchS: nat): Option<Star>
    requires starP < |pattern| && matchS <= |str|
  {
    if starP >= 0 then Some(Star(pattern[starP + 1..], str[matchS..])) else None
  }

  /** The loop's state, and what the matcher answers from it. */
  ghost predicate RunAt(pattern: string, str: string, p: nat, s: nat, starP: int, matchS: nat)
    requires p <= |pattern| && starP < |pattern| && matchS <= s <= |str|
  {
    Run(pattern[p..], str[s..], BackAt(pattern, str, starP, matchS))
  }

  lemma RunAtStep(pattern: string, str: string, p: nat, s: nat, starP: int, matchS: nat)
    requires p <= |pattern| && -1 <= starP < p && matchS <= s < |str|
    ensures RunAt(pattern, str, p, s, starP, matchS) <==>
      if p < |pattern| && pattern[p] == str[s] then RunAt(pattern, str, p + 1, s + 1, starP, matchS)
      else if p < |pattern| && pattern[p] == '*' then RunAt(pattern, str, p + 1, s, p, s)
      else if starP >= 0 then RunAt(pattern, str, starP + 1, matchS + 1, starP, matchS + 1)
      else false
  {
    assert p < |pattern| ==> pattern[p..][1..] == pattern[p + 1..];
    assert str[s..][1..] == str[s + 1..] && str[matchS..][1..] == str[matchS + 1..];
  }

  lemma RunAtStart(pattern: string, str: string)
    requires pattern != ""
    ensures RunAt(pattern, str, 0, 0, -1, 0) == Run(pattern, str, None)
  {
    assert pattern[0..] == pattern && str[0..] == str;
  }

  /** At the end of the subject, only stars may be left. */
  lemma RunAtEnd(pattern: string, str: string, q: nat, p: nat, starP: int, matchS: nat)
    requires q <= p <= |pattern| && starP < |pattern| && matchS <= |str|
    requires (forall i :: q <= i < p ==> pattern[i] == '*') && (p < |pattern| ==> pattern[p] != '*')
    ensures RunAt(pattern, str, q, |str|, starP, matchS) <==> p == |pattern|
  {
    assert str[|str|..] == "";
    assert p < |pattern| ==> pattern[q..][p - q] != '*';
    assert forall i :: 0 <= i < |pattern[q..]| ==> pattern[q..][i] == pattern[q + i];
  }

  /** wildcard_match; None is NULL. */
  method WildcardMatch(pattern: Option<string>, str: Option<string>) returns (r: bool)
    ensures pattern.None? ==> r
    ensures pattern.Some? && str.None? ==> (r <==> pattern.value == "" || pattern.value == "*")
    ensures pattern.Some? && str.Some? ==> (r <==> Accepts(pattern.value, str.value))
  {
    hide Run, RunAt;
    if pattern.None? || pattern.value == "" || pattern.value == "*" {
      return true;
    }
    if str.None? {
      return false;
    }
    var pat, text := pattern.value, str.value;
    RunAtStart(pat, text);
    var p, s := 0, 0;
    var starP, matchS := -1, 0;
    while s < |text|
      invariant 0 <= p <= |pat| && 0 <= s <= |text|
      invariant -1 <= starP < p && 0 <= matchS <= s
      invariant Run(pat, text, None) == RunAt(pat, text, p, s, starP, matchS)
      decreases if starP >= 0 then |text| - matchS else |text| - s + 1, |pat| - p + |text| - s
    {
      RunAtStep(pat, text, p, s, starP, matchS);
      if p < |pat| && pat[p] == text[s] {
        p := p + 1;
        s := s + 1;
      } else if p < |pat| && pat[p] == '*' {
        starP := p;
        p := p + 1;
        matchS := s;
      } else if starP != -1 {
        p := starP + 1;
        matchS := matchS + 1;
        s := matchS;
      } else {
        return false;
      }
    }
    var q := p;
    while p < |pat| && pat[p] == '*'
      invariant q <= p <= |pat|
      invariant forall i :: q <= i < p ==> pat[i] == '*'
    {
      p := p + 1;
    }
    RunAtEnd(pat, text, q, p, starP, matchS);
    return p == |pat|;
  }
}
