/** Which parts of a text the passes of the anonymiser replace (src/policy/guardrails.c:384-640, 651-771), round by
    round of the loop: in terms of the expression, the characters beside a match and the checksums. */
module PiiMatches {
  import opened Options
  import opened Decimal
  import opened Checksums
  import opened PiiTokens
  import opened PiiAnonymise

  /** One round of the loop: what it copies, the match it replaces behind that, if any, and by what. */
  datatype Round = Round(copied: string, taken: string, put: string)

  /** The text that the rounds read. */
  function Source(rs: seq<Round>): string {
    if rs == [] then "" else rs[0].copied + rs[0].taken + Source(rs[1..])
  }

  /** The text that they write. */
  function Result(rs: seq<Round>): string {
    if rs == [] then "" else rs[0].copied + rs[0].put + Result(rs[1..])
  }

  /** What stands for an original: its placeholder in the session, or the bare tag if a full session lacks it. */
  ghost predicate StandsFor(final: seq<PiiEntry>, t: PiiType, original: string, put: string) {
    || (exists e :: e in final && e.original == original && e.placeholder == put)
    || (put == "[" + Tag(t) + "]" && |final| == 64 && forall e :: e in final ==> e.original != original)
  }

  /** s[from..n] is all of the run of such characters that begins at from. */
  ghost predicate WholeRun(s: string, from: nat, n: nat, over: char -> bool) {
    from <= n <= |s| && (forall i :: from <= i < n ==> over(s[i])) && (n < |s| ==> !over(s[n]))
  }

  /** The round at the beginning of the text s. A match is replaced exactly when it is shorter than 128 characters,
      has no digit beside it where that matters, and passes the check of its type. Otherwise the text is copied up to
      the end of the match and of the digits behind it; past a match too long, one character of it. */
  ghost predicate RoundOk(p: Pattern, final: seq<PiiEntry>, s: string, r: Round)
    requires FindOk(p.find)
  {
    match p.find(s)
    case None => r == Round(s, "", "")
    case Some((so, eo)) =>
      var m := s[so..eo];
      var beside := p.boundary && ((so > 0 && '0' <= s[so - 1] <= '9') || (eo < |s| && '0' <= s[eo] <= '9'));
      var sound := (p.typ == IdCard ==> Mod11Ok(m)) && (p.typ == BankCard ==> LuhnOk(m))
                   && (p.typ == IpAddress ==> p.ipOk(m));
      if |m| < 128 && !beside && sound
      then r.copied == s[..so] && r.taken == m && StandsFor(final, p.typ, m, r.put)
      else
        && r.taken == "" && r.put == "" && r.copied <= s
        && if beside then WholeRun(s, eo, |r.copied|, c => '0' <= c <= '9')
           else if |m| >= 128 then |r.copied| == so + 1
           else if p.typ == IdCard then WholeRun(s, eo, |r.copied|, c => '0' <= c <= '9' || c == 'X' || c == 'x')
           else if p.typ == BankCard then WholeRun(s, eo, |r.copied|, c => '0' <= c <= '9')
           else |r.copied| == eo
  }

  /** Each round is the one at the place where the rounds before it end; together they read all of s. */
  ghost predicate Rounds(p: Pattern, final: seq<PiiEntry>, s: string, rs: seq<Round>)
    requires FindOk(p.find)
    decreases |rs|
  {
    if rs == [] then s == ""
    else
      var n := |rs[0].copied + rs[0].taken|;
      0 < n <= |s| && RoundOk(p, final, s, rs[0]) && Rounds(p, final, s[n..], rs[1..])
  }

  lemma {:induction false} RunEndIsWhole(s: string, k: nat, over: char -> bool, like: char -> bool)
    requires k <= |s| && forall c :: over(c) <==> like(c)
    ensures WholeRun(s, k, RunEnd(s, k, over), like)
    decreases |s| - k
  {
    if k < |s| && over(s[k]) { RunEndIsWhole(s, k + 1, over, like); }
  }

  /** A round that replaces nothing. */
  lemma CopyRound(p: Pattern, final: seq<PiiEntry>, s: string)
    requires FindOk(p.find) && s != "" && Look(p, s).Copy?
    ensures RoundOk(p, final, s, Round(s[..Look(p, s).n], "", ""))
  {
    hide Mod11Ok, LuhnOk, RunEnd, WholeRun;
    var n := Look(p, s).n;
    if p.find(s).Some? {
      var eo := p.find(s).value.1;
      RunEndIsWhole(s, eo, c => IsDigit(c), c => '0' <= c <= '9');
      if p.typ == IdCard {
        RunEndIsWhole(s, eo, c => SkipsOver(p.typ, c), c => '0' <= c <= '9' || c == 'X' || c == 'x');
      } else if p.typ == BankCard {
        RunEndIsWhole(s, eo, c => SkipsOver(p.typ, c), c => '0' <= c <= '9');
      } else {
        NoRun(s, eo, c => SkipsOver(p.typ, c));
      }
    }
  }

  lemma NoRun(s: string, k: nat, over: char -> bool)
    requires k <= |s| && forall c :: !over(c)
    ensures RunEnd(s, k, over) == k
  {}

  lemma ReplacementStands(es: seq<PiiEntry>, t: PiiType, m: string, final: seq<PiiEntry>)
    requires MapOk(es) && MapOk(final) && AfterCreate(es, t, m) <= final && m != "" && |m| < 128
    ensures StandsFor(final, t, m, Replacement(es, t, m))
  {
    hide Numbered, Created, Tag;
    if HasRoom(es, m) {
      CreatedIsIssued(es, t, m);
      var e :| e in AfterCreate(es, t, m) && e.original == m && e.placeholder == Created(es, t, m);
      assert e in final;
    } else {
      MapSizes(es, final);
      assert final == es;
    }
  }

  lemma MapSizes(es: seq<PiiEntry>, final: seq<PiiEntry>)
    requires MapOk(es) && MapOk(final) && es <= final && |es| >= 64
    ensures es == final && |es| == 64
  {}

  /** A round that replaces a match. */
  lemma TakeRound(p: Pattern, es: seq<PiiEntry>, final: seq<PiiEntry>, s: string)
    requires FindOk(p.find) && s != "" && Look(p, s).Take? && MapOk(es) && MapOk(final)
    requires AfterCreate(es, p.typ, s[Look(p, s).so..Look(p, s).eo]) <= final
    ensures var a := Look(p, s); var m := s[a.so..a.eo];
      RoundOk(p, final, s, Round(s[..a.so], m, Replacement(es, p.typ, m)))
  {
    hide Mod11Ok, LuhnOk, RunEnd, WholeRun, StandsFor, Replacement, AfterCreate, MapOk;
    var a := Look(p, s);
    ReplacementStands(es, p.typ, s[a.so..a.eo], final);
  }

  /** The first round of a pass, and the map after it. */
  lemma FirstRound(p: Pattern, es: seq<PiiEntry>, s: string, final: seq<PiiEntry>)
    returns (r: Round, es': seq<PiiEntry>, n: nat)
    requires FindOk(p.find) && s != "" && MapOk(es) && MapOk(final) && Pass(p, es, s).es <= final
    ensures 0 < n <= |s| && r.copied + r.taken == s[..n] && RoundOk(p, final, s, r)
    ensures MapOk(es') && Pass(p, es', s[n..]).es <= final
    ensures Pass(p, es, s).out == r.copied + r.put + Pass(p, es', s[n..]).out
  {
    hide Pass, Look, RoundOk, MapOk, AfterCreate, Replacement;
    PassStep(p, es, s);
    var a := Look(p, s);
    if a.Copy? {
      CopyRound(p, final, s);
      r, n, es' := Round(s[..a.n], "", ""), a.n, es;
      assert r.copied + "" == r.copied;
    } else {
      var m := s[a.so..a.eo];
      es' := AfterCreate(es, p.typ, m);
      CreateKeepsMapOk(es, p.typ, m);
      PassMap(p, es', s[a.eo..]);
      TakeRound(p, es, final, s);
      r, n := Round(s[..a.so], m, Replacement(es, p.typ, m)), a.eo;
      assert s[..a.so] + m == s[..a.eo];
    }
  }

  /** A pass is such rounds from the beginning of the text to its end. */
  lemma {:induction false} PassIsRounds(p: Pattern, es: seq<PiiEntry>, s: string, final: seq<PiiEntry>)
    returns (rs: seq<Round>)
    requires FindOk(p.find) && MapOk(es) && MapOk(final) && Pass(p, es, s).es <= final
    ensures Rounds(p, final, s, rs) && Source(rs) == s && Result(rs) == Pass(p, es, s).out
    decreases |s|
  {
    hide Pass, RoundOk, MapOk;
    if s == "" {
      PassEmpty(p, es);
      return [];
    }
    var r, es', n := FirstRound(p, es, s, final);
    var rest := PassIsRounds(p, es', s[n..], final);
    rs := [r] + rest;
    assert rs[1..] == rest && s[..n] + s[n..] == s;
  }

  /** All passes, each over the text that the one before it wrote. */
  ghost predicate Chained(ps: seq<Pattern>, final: seq<PiiEntry>, s: string, out: string, rss: seq<seq<Round>>)
    requires AllForeign(ps)
  {
    if ps == [] then rss == [] && out == s
    else
      var n := |ps| - 1;
      && |rss| == n + 1
      && Chained(ps[..n], final, s, Source(rss[n]), rss[..n])
      && Rounds(ps[n], final, Source(rss[n]), rss[n]) && out == Result(rss[n])
  }

  lemma {:induction false} PassesAreRounds(ps: seq<Pattern>, es: seq<PiiEntry>, s: string, final: seq<PiiEntry>)
    returns (rss: seq<seq<Round>>)
    requires AllForeign(ps) && MapOk(es) && MapOk(final) && Passes(ps, es, s).es <= final
    ensures Chained(ps, final, s, Passes(ps, es, s).out, rss)
  {
    hide Pass, MapOk, Rounds, FindsForeign;
    if ps == [] { return []; }
    var n := |ps| - 1;
    var front := Passes(ps[..n], es, s);
    PassesMap(ps[..n], es, s);
    LastFinds(ps);
    PassMap(ps[n], front.es, front.out);
    var before := PassesAreRounds(ps[..n], es, s, final);
    var rs := PassIsRounds(ps[n], front.es, front.out, final);
    rss := before + [rs];
    assert rss[..n] == before && rss[n] == rs;
  }

  lemma LastFinds(ps: seq<Pattern>)
    requires AllForeign(ps) && ps != []
    ensures FindOk(ps[|ps| - 1].find)
  {
    assert FindsForeign(ps[|ps| - 1].find);
  }

  /** What the loop does with a match that is the whole text. */
  lemma WholeLook(p: Pattern, s: string)
    requires FindOk(p.find) && s != "" && |s| < 128 && p.find(s) == Some((0, |s|))
    ensures Look(p, s) == if Accepts(p, s) then Take(0, |s|) else Copy(|s|)
  {
    hide Accepts;
    assert s[0..|s|] == s;
  }

  lemma WholePass(p: Pattern, s: string)
    requires FindOk(p.find) && s != "" && |s| < 128 && p.find(s) == Some((0, |s|))
    ensures Pass(p, [], s).out == if Accepts(p, s) then Placeholder(p.typ, 1) else s
  {
    hide Accepts, Pass, Look, Placeholder, AfterCreate;
    WholeLook(p, s);
    PassStep(p, [], s);
    PassEmpty(p, AfterCreate([], p.typ, s));
    PassEmpty(p, []);
    assert s[0..|s|] == s && s[|s|..] == "" && s[..0] == "" && s[..|s|] == s;
  }

  /** A number that is the whole of a text, in a new session: it is replaced exactly when it passes its check. */
  lemma NumberIsHidden(p: Pattern, s: string)
    requires FindOk(p.find) && s != "" && |s| < 128 && p.find(s) == Some((0, |s|))
    ensures p.typ == IdCard ==> Pass(p, [], s).out == if Mod11Ok(s) then "[ID_CARD_1]" else s
    ensures p.typ == BankCard ==> Pass(p, [], s).out == if LuhnOk(s) then "[BANK_CARD_1]" else s
  {
    hide Mod11Ok, LuhnOk, Pass, Placeholder;
    WholePass(p, s);
    FirstPlaceholders();
  }

  lemma FirstPlaceholders()
    ensures Placeholder(IdCard, 1) == "[ID_CARD_1]" && Placeholder(BankCard, 1) == "[BANK_CARD_1]"
    ensures Placeholder(Phone, 1) == "[PHONE_1]" && Placeholder(Email, 1) == "[EMAIL_1]"
    ensures Placeholder(ApiKey, 1) == "[API_KEY_1]" && Placeholder(IpAddress, 1) == "[IP_1]"
  {
    assert Digits(1) == "1";
  }
}
