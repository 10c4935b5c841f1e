/** Anonymising a request (src/policy/guardrails.c:360-649, 651-771) so that the response can be
    restored. A regular expression is any function that finds a non-empty match in the rest of a text. */
module PiiAnonymise {
  import opened Options
  import opened Decimal
  import opened FiniteSets
  import opened Checksums
  import opened PiiTokens
  import opened PiiRestore

  /** One pass: the pattern, the entity type, whether a match next to a digit is skipped, and the range
      test for IPv4 addresses. */
  datatype Pattern = Pattern(find: string -> Option<(nat, nat)>, typ: PiiType, boundary: bool, ipOk: string -> bool)

  /** A match is a non-empty part of the text. */
  ghost predicate FindOk(find: string -> Option<(nat, nat)>) {
    forall s :: find(s).Some? ==> find(s).value.0 < find(s).value.1 <= |s|
  }

  ghost predicate Accepts(p: Pattern, m: string) {
    match p.typ
    case IdCard => Mod11Ok(m)
    case BankCard => LuhnOk(m)
    case IpAddress => p.ipOk(m)
    case _ => true
  }

  predicate SkipsOver(t: PiiType, c: char) {
    match t
    case IdCard => IsDigit(c) || c == 'X' || c == 'x'
    case BankCard => IsDigit(c)
    case _ => false
  }

  function RunEnd(s: string, k: nat, over: char -> bool): (e: nat)
    requires k <= |s|
    ensures k <= e <= |s|
    decreases |s| - k
  {
    if k < |s| && over(s[k]) then RunEnd(s, k + 1, over) else k
  }

  predicate TouchesDigit(s: string, so: nat, eo: nat)
    requires so <= eo <= |s|
  {
    (so > 0 && IsDigit(s[so - 1])) || (eo < |s| && IsDigit(s[eo]))
  }

  /** What the loop does at the cursor: copy some characters, or replace a match. */
  datatype Action = Copy(n: nat) | Take(so: nat, eo: nat)

  ghost function Look(p: Pattern, s: string): (a: Action)
    requires FindOk(p.find) && s != ""
    ensures a.Copy? ==> 1 <= a.n <= |s|
    ensures a.Take? ==> p.find(s) == Some((a.so, a.eo)) && a.so < a.eo <= |s| && a.eo - a.so < ORIGINAL_SIZE
  {
    match p.find(s)
    case None => Copy(|s|)
    case Some(m) =>
      if p.boundary && TouchesDigit(s, m.0, m.1) then Copy(RunEnd(s, m.1, c => IsDigit(c)))
      else if m.1 - m.0 >= 128 then Copy(m.0 + 1)
      else if !Accepts(p, s[m.0..m.1]) then Copy(RunEnd(s, m.1, c => SkipsOver(p.typ, c)))
      else Take(m.0, m.1)
  }

  /** The text and the map after a pass, and how many matches found no room in the map. */
  datatype Passed = Passed(out: string, es: seq<PiiEntry>, missed: nat)

  function Replacement(es: seq<PiiEntry>, t: PiiType, m: string): string {
    if HasRoom(es, m) then Created(es, t, m) else "[" + Tag(t) + "]"
  }

  ghost function Pass(p: Pattern, es: seq<PiiEntry>, s: string): Passed
    requires FindOk(p.find)
    decreases |s|
  {
    if s == "" then Passed("", es, 0)
    else
      match Look(p, s)
      case Copy(n) =>
        var r := Pass(p, es, s[n..]);
        r.(out := s[..n] + r.out)
      case Take(so, eo) =>
        var m := s[so..eo];
        var r := Pass(p, AfterCreate(es, p.typ, m), s[eo..]);
        Passed(s[..so] + Replacement(es, p.typ, m) + r.out, r.es, r.missed + if HasRoom(es, m) then 0 else 1)
  }

  // ---------- Which matches cannot be part of a placeholder ----------

  /** Without brackets, and too long, too punctuated or too numeric to lie inside a placeholder. Every
      match of the six expressions at lines 215-224 is such: keys, ids and card numbers are longer than
      twelve characters, phone numbers begin with three digits, e-mail and IPv4 addresses contain '@'
      and '.'. */
  ghost predicate Foreign(m: string) {
    && m != "" && '[' !in m && ']' !in m
    && (|m| > 12
        || (exists i :: 0 <= i < |m| && !IsWordChar(m[i]))
        || (exists i :: 0 <= i && i + 2 < |m| && IsDigit(m[i]) && IsDigit(m[i + 1]) && IsDigit(m[i + 2])))
  }

  ghost predicate FindsForeign(find: string -> Option<(nat, nat)>) {
    FindOk(find) && forall s :: find(s).Some? ==> Foreign(s[find(s).value.0..find(s).value.1])
  }

  /** Facts about a placeholder a session issued. */
  lemma IssuedShape(es: seq<PiiEntry>, e: PiiEntry)
    requires Numbered(es) && e in es
    ensures var p := e.placeholder; var d := |Tag(e.typ)| + 2;
      && 3 <= d < |p| - 1 <= d + 2 && |p| <= 14
      && p[0] == '[' && p[|p| - 1] == ']' && IsDigit(p[|p| - 2])
      && (forall i :: 1 <= i < |p| - 1 ==> IsWordChar(p[i]))
      && (forall i :: 0 <= i < d ==> !IsDigit(p[i]))
  {
    var i :| 0 <= i < |es| && es[i] == e;
    var n := CountType(es[..i], e.typ) + 1;
    assert e.placeholder == Placeholder(e.typ, n);
    CountTypeMonotone(es, 0, i, e.typ);
    PlaceholderShape(e.typ, n);
    DigitsShort(n);
    DigitsAreDigits(n);
    TagShort(e.typ);
    var p := e.placeholder;
    assert p[|p| - 2] == Digits(n)[|Digits(n)| - 1];
  }

  lemma TagShort(t: PiiType)
    ensures 2 <= |Tag(t)| <= 9
  {}

  lemma InteriorIsNotForeign(es: seq<PiiEntry>, e: PiiEntry, i: nat, n: nat)
    requires Numbered(es) && e in es && 1 <= i && i + n <= |e.placeholder| - 1
    ensures !Foreign(e.placeholder[i..i + n])
  {
    IssuedShape(es, e);
    var p := e.placeholder;
    var q := p[i..i + n];
    assert forall k :: 0 <= k < |q| ==> q[k] == p[i + k];
    var d := |Tag(e.typ)| + 2;
    assert forall k :: 0 <= k < |q| && IsDigit(q[k]) ==> i + k >= d;
  }

  // ---------- Restoring a concatenation ----------

  /** No placeholder that starts in a reaches into b. */
  ghost predicate NoneAcross(es: seq<PiiEntry>, a: string, b: string) {
    forall i {:trigger (a + b)[i..]} :: 0 <= i < |a| ==>
      var t := TokenAt(es, (a + b)[i..]);
      t.Some? ==> i + t.value.1 <= |a|
  }

  lemma {:induction false} ScanPrefix(a: string, b: string, k: nat)
    requires var r := ScanFrom(a + b, k); r.Closed? && r.at < |a|
    ensures ScanFrom(a, k) == ScanFrom(a + b, k)
    decreases WINDOW - k
  {
    if (a + b)[k] != ']' { ScanPrefix(a, b, k + 1); }
  }

  lemma TokenAtPrefix(es: seq<PiiEntry>, a: string, b: string)
    requires a != ""
    requires var t := TokenAt(es, a + b); t.Some? ==> t.value.1 <= |a|
    ensures TokenAt(es, a) == TokenAt(es, a + b)
  {
    if a[0] == '[' {
      var r := ScanFrom(a + b, 1);
      if ScanFrom(a, 1).Closed? {
        ScanStable(a, b, 1);
        assert (a + b)[..r.at + 1] == a[..r.at + 1];
      } else if r.Closed? && TokenAt(es, a + b).Some? {
        ScanPrefix(a, b, 1);
      }
    }
  }

  lemma {:induction false} RestoreConcat(es: seq<PiiEntry>, a: string, b: string)
    requires NoneAcross(es, a, b)
    ensures Restore(es, a + b) == Restore(es, a) + Restore(es, b)
    decreases |a|
  {
    hide TokenAt;
    if a == "" {
      assert a + b == b;
    } else {
      assert (a + b)[0..] == a + b;
      TokenAtPrefix(es, a, b);
      var t := TokenAt(es, a);
      var n := if t.Some? then t.value.1 else 1;
      assert (a + b)[n..] == a[n..] + b;
      forall i | 0 <= i < |a[n..]|
        ensures var u := TokenAt(es, (a[n..] + b)[i..]); u.Some? ==> i + u.value.1 <= |a[n..]|
      {
        assert (a[n..] + b)[i..] == (a + b)[n + i..];
      }
      RestoreConcat(es, a[n..], b);
    }
  }

  lemma {:induction false} RestorePlain(es: seq<PiiEntry>, m: string, rest: string)
    requires '[' !in m
    ensures Restore(es, m + rest) == m + Restore(es, rest)
  {
    if m == "" {
      assert m + rest == rest;
    } else {
      assert m[0] in m && (m + rest)[1..] == m[1..] + rest;
      RestorePlain(es, m[1..], rest);
    }
  }

  lemma {:induction false} ScanIssued(s: string, n: nat, k: nat)
    requires 1 <= k <= n - 1 < |s| && n <= WINDOW && s[n - 1] == ']'
    requires forall i :: 1 <= i < n - 1 ==> IsWordChar(s[i])
    ensures ScanFrom(s, k) == Closed(n - 1)
    decreases n - k
  {
    if k < n - 1 { ScanIssued(s, n, k + 1); }
  }

  /** A placeholder of the session is replaced by its original. */
  lemma RestoreIssued(es: seq<PiiEntry>, e: PiiEntry, rest: string)
    requires Numbered(es) && e in es
    ensures Restore(es, e.placeholder + rest) == e.original + Restore(es, rest)
  {
    IssuedShape(es, e);
    LookupIssued(es, e);
    var p := e.placeholder;
    var s := p + rest;
    assert forall i :: 0 <= i < |p| ==> s[i] == p[i];
    ScanIssued(s, |p|, 1);
    assert s[..|p|] == p && s[|p|..] == rest;
  }

  lemma FallbackIsNoPlaceholder(es: seq<PiiEntry>, t: PiiType)
    requires Numbered(es)
    ensures FindPlaceholder(es, "[" + Tag(t) + "]").None?
    ensures '[' !in Tag(t) + "]"
    ensures forall i :: 0 <= i < |Tag(t)| ==> IsWordChar(Tag(t)[i])
  {
    var p := "[" + Tag(t) + "]";
    TagShort(t);
    forall i | 0 <= i < |Tag(t)| ensures Tag(t)[i] != '[' && IsWordChar(Tag(t)[i]) && !IsDigit(Tag(t)[i]) {
      TagChars(t, i);
    }
    assert p[|p| - 2] == Tag(t)[|Tag(t)| - 1];
    forall e | e in es ensures e.placeholder != p {
      IssuedShape(es, e);
    }
  }

  lemma UnknownIsNoToken(es: seq<PiiEntry>, word: string, s: string)
    requires |word| + 2 <= WINDOW && (forall i :: 0 <= i < |word| ==> IsWordChar(word[i]))
    requires FindPlaceholder(es, "[" + word + "]").None?
    requires "[" + word + "]" <= s
    ensures TokenAt(es, s).None?
  {
    hide FindPlaceholder;
    var p := "[" + word + "]";
    assert s[..|p|] == p;
    assert forall i :: 1 <= i < |p| - 1 ==> s[i] == p[i] == word[i - 1];
    ScanIssued(s, |p|, 1);
  }

  /** A bracketed word that the session did not issue is copied. */
  lemma RestoreUnknown(es: seq<PiiEntry>, word: string, rest: string)
    requires |word| + 2 <= WINDOW && (forall i :: 0 <= i < |word| ==> IsWordChar(word[i]))
    requires FindPlaceholder(es, "[" + word + "]").None?
    ensures Restore(es, "[" + word + "]" + rest) == "[" + word + "]" + Restore(es, rest)
  {
    hide FindPlaceholder, TokenAt;
    var s := "[" + word + "]" + rest;
    UnknownIsNoToken(es, word, s);
    assert s[1..] == (word + "]") + rest;
    assert '[' !in word + "]" by { assert forall i :: 0 <= i < |word| ==> word[i] != '['; }
    RestorePlain(es, word + "]", rest);
    assert "[" + word + "]" + Restore(es, rest) == "[" + ((word + "]") + Restore(es, rest));
  }

  /** The fallback tag is no placeholder, and stays. */
  lemma RestoreFallback(es: seq<PiiEntry>, t: PiiType, rest: string)
    requires Numbered(es)
    ensures Restore(es, "[" + Tag(t) + "]" + rest) == "[" + Tag(t) + "]" + Restore(es, rest)
  {
    FallbackIsNoPlaceholder(es, t);
    TagShort(t);
    hide Tag, FindPlaceholder, Restore;
    RestoreUnknown(es, Tag(t), rest);
  }

  /** The text of a token that starts at position i is a placeholder of the session. */
  lemma TokenIsIssued(es: seq<PiiEntry>, s: string)
    requires TokenAt(es, s).Some?
    ensures exists e :: e in es && e.placeholder == s[..TokenAt(es, s).value.1]
                        && e.original == TokenAt(es, s).value.0
  {}

  /** A placeholder at the start of s ends before any later '['. */
  lemma EndsBeforeBracket(es: seq<PiiEntry>, e: PiiEntry, s: string, k: nat)
    requires Numbered(es) && e in es && |e.placeholder| <= |s| && s[..|e.placeholder|] == e.placeholder
    requires 1 <= k < |s| && s[k] == '['
    ensures |e.placeholder| <= k
  {
    IssuedShape(es, e);
    var p := e.placeholder;
    assert forall j :: 0 <= j < |p| ==> s[j] == p[j];
  }

  /** ... and before any later match. */
  lemma EndsBeforeMatch(es: seq<PiiEntry>, e: PiiEntry, s: string, k: nat, m: string)
    requires Numbered(es) && e in es && |e.placeholder| <= |s| && s[..|e.placeholder|] == e.placeholder
    requires 1 <= k && k + |m| <= |s| && s[k..k + |m|] == m && Foreign(m)
    ensures |e.placeholder| <= k
  {
    hide Foreign, Numbered;
    var p := e.placeholder;
    Overlap(s, p, k, m);
    ForeignParts(m);
    IssuedEnd(es, e);
    if k + |m| <= |p| - 1 {
      InteriorIsNotForeign(es, e, k, |m|);
    }
  }

  /** Where a part of s from position k on and a beginning of s agree. */
  lemma Overlap(s: string, p: string, k: nat, m: string)
    requires |p| <= |s| && s[..|p|] == p && k + |m| <= |s| && s[k..k + |m|] == m
    ensures k + |m| <= |p| - 1 ==> p[k..k + |m|] == m
    ensures k <= |p| - 1 < k + |m| ==> p[|p| - 1] == m[|p| - 1 - k]
  {
    assert k + |m| <= |p| ==> s[..|p|][k..k + |m|] == s[k..k + |m|];
  }

  lemma ForeignParts(m: string)
    requires Foreign(m)
    ensures m != "" && forall j :: 0 <= j < |m| ==> m[j] != '[' && m[j] != ']'
  {}

  lemma IssuedEnd(es: seq<PiiEntry>, e: PiiEntry)
    requires Numbered(es) && e in es
    ensures e.placeholder != "" && e.placeholder[|e.placeholder| - 1] == ']'
  {
    IssuedShape(es, e);
  }

  lemma NoneAcrossBracket(es: seq<PiiEntry>, a: string, b: string)
    requires Numbered(es) && b != "" && b[0] == '['
    ensures NoneAcross(es, a, b)
  {
    hide TokenAt;
    forall i | 0 <= i < |a|
      ensures var t := TokenAt(es, (a + b)[i..]); t.Some? ==> i + t.value.1 <= |a|
    {
      var s := (a + b)[i..];
      if TokenAt(es, s).Some? {
        TokenIsIssued(es, s);
        var e :| e in es && e.placeholder == s[..TokenAt(es, s).value.1];
        EndsBeforeBracket(es, e, s, |a| - i);
      }
    }
  }

  lemma MatchAt(a: string, m: string, rest: string, i: nat)
    requires i < |a|
    ensures var s := (a + (m + rest))[i..]; var k := |a| - i;
      k + |m| <= |s| && s[k..k + |m|] == m
  {}

  lemma TokenEndsBeforeMatch(es: seq<PiiEntry>, s: string, k: nat, m: string)
    requires Numbered(es) && Foreign(m) && TokenAt(es, s).Some?
    requires 1 <= k && k + |m| <= |s| && s[k..k + |m|] == m
    ensures TokenAt(es, s).value.1 <= k
  {
    hide TokenAt, Foreign, Numbered;
    TokenIsIssued(es, s);
    var e :| e in es && e.placeholder == s[..TokenAt(es, s).value.1];
    EndsBeforeMatch(es, e, s, k, m);
  }

  lemma NoneAcrossForeign(es: seq<PiiEntry>, a: string, m: string, rest: string)
    requires Numbered(es) && Foreign(m)
    ensures NoneAcross(es, a, m + rest)
  {
    hide TokenAt, Foreign, Numbered;
    var b := m + rest;
    forall i | 0 <= i < |a|
      ensures var t := TokenAt(es, (a + b)[i..]); t.Some? ==> i + t.value.1 <= |a|
    {
      var s := (a + b)[i..];
      if TokenAt(es, s).Some? {
        MatchAt(a, m, rest, i);
        TokenEndsBeforeMatch(es, s, |a| - i, m);
      }
    }
  }

  // ---------- Around matches and replacements ----------

  lemma RestoreAroundMatch(es: seq<PiiEntry>, a: string, m: string, rest: string)
    requires Numbered(es) && Foreign(m)
    ensures Restore(es, a + (m + rest)) == Restore(es, a) + (m + Restore(es, rest))
  {
    NoneAcrossForeign(es, a, m, rest);
    RestoreConcat(es, a, m + rest);
    RestorePlain(es, m, rest);
  }

  lemma RestoreAroundReplacement(es: seq<PiiEntry>, a: string, r: string, v: string, rest: string)
    requires Numbered(es) && r != "" && r[0] == '['
    requires Restore(es, r + rest) == v + Restore(es, rest)
    ensures Restore(es, a + (r + rest)) == Restore(es, a) + (v + Restore(es, rest))
  {
    NoneAcrossBracket(es, a, r + rest);
    RestoreConcat(es, a, r + rest);
  }

  /** The first step of a pass, spelled out. */
  lemma PassStep(p: Pattern, es: seq<PiiEntry>, s: string)
    requires FindOk(p.find) && s != ""
    ensures var a := Look(p, s);
      if a.Copy? then
        var r := Pass(p, es, s[a.n..]);
        Pass(p, es, s) == Passed(s[..a.n] + r.out, r.es, r.missed)
      else
        var m := s[a.so..a.eo];
        var r := Pass(p, AfterCreate(es, p.typ, m), s[a.eo..]);
        Pass(p, es, s) == Passed(s[..a.so] + Replacement(es, p.typ, m) + r.out, r.es,
                                 r.missed + if HasRoom(es, m) then 0 else 1)
  {}

  lemma {:induction false} PassMap(p: Pattern, es: seq<PiiEntry>, s: string)
    requires MapOk(es) && FindOk(p.find)
    ensures var r := Pass(p, es, s);
      MapOk(r.es) && es <= r.es && (r.missed > 0 ==> |r.es| == MAX_ENTRIES)
    decreases |s|
  {
    if s != "" {
      PassStep(p, es, s);
      match Look(p, s)
      case Copy(n) => PassMap(p, es, s[n..]);
      case Take(so, eo) =>
        var m := s[so..eo];
        CreateKeepsMapOk(es, p.typ, m);
        PassMap(p, AfterCreate(es, p.typ, m), s[eo..]);
    }
  }

  // ---------- What a pass does to what the restorer shows ----------

  function Open(original: string): string {
    if original == "" then "" else "[" + original[1..]
  }

  /** The session with a bracket over the first character of every original. It shows where the restorer puts
      originals. */
  ghost function Opened(es: seq<PiiEntry>): seq<PiiEntry> {
    seq(|es|, i requires 0 <= i < |es| => es[i].(original := Open(es[i].original)))
  }

  lemma {:induction false} OpenedCount(es: seq<PiiEntry>, t: PiiType)
    ensures CountType(Opened(es), t) == CountType(es, t)
  {
    if es != [] {
      var n := |es| - 1;
      OpenedCount(es[..n], t);
      assert Opened(es)[..n] == Opened(es[..n]);
    }
  }

  lemma OpenedNumbered(es: seq<PiiEntry>)
    requires Numbered(es)
    ensures Numbered(Opened(es))
  {
    hide Placeholder, CountType;
    forall i | 0 <= i < |es|
      ensures Opened(es)[i].placeholder == Placeholder(es[i].typ, CountType(Opened(es)[..i], es[i].typ) + 1)
    {
      OpenedCount(es[..i], es[i].typ);
      assert Opened(es)[..i] == Opened(es[..i]);
    }
  }

  lemma {:induction false} OpenedFind(es: seq<PiiEntry>, token: string)
    ensures var r := FindPlaceholder(es, token);
      FindPlaceholder(Opened(es), token) == if r.Some? then Some(Open(r.value)) else None
  {
    if es != [] {
      OpenedFind(es[1..], token);
      assert Opened(es)[1..] == Opened(es[1..]);
    }
  }

  lemma OpenedToken(es: seq<PiiEntry>, s: string)
    ensures var t := TokenAt(es, s);
      TokenAt(Opened(es), s) == if t.Some? then Some((Open(t.value.0), t.value.1)) else None
  {
    if s != "" && s[0] == '[' {
      var r := ScanFrom(s, 1);
      if r.Closed? { OpenedFind(es, s[..r.at + 1]); }
    }
  }

  /** The restored text, and the same with the originals opened. */
  datatype Seen = Seen(text: string, marked: string)

  ghost function See(es: seq<PiiEntry>, s: string): Seen {
    Seen(Restore(es, s), Restore(Opened(es), s))
  }

  function Join(a: Seen, b: Seen): Seen {
    Seen(a.text + b.text, a.marked + b.marked)
  }

  function Literal(m: string): Seen {
    Seen(m, m)
  }

  ghost predicate Aligned(a: Seen) {
    |a.text| == |a.marked| && forall i :: 0 <= i < |a.text| && a.text[i] == '[' ==> a.marked[i] == '['
  }

  lemma {:induction false} SeeAligned(es: seq<PiiEntry>, s: string)
    ensures Aligned(See(es, s))
    decreases |s|
  {
    hide TokenAt, Opened;
    if s != "" {
      OpenedToken(es, s);
      var t := TokenAt(es, s);
      SeeAligned(es, s[if t.Some? then t.value.1 else 1..]);
    }
  }

  /** Every bracket of b, up to position n, is one of a. */
  ghost predicate Covers(a: string, b: string, n: nat) {
    forall i :: 0 <= i < n && i < |a| && i < |b| && b[i] == '[' ==> a[i] == '['
  }

  /** The text a is the text b, and only more of it is marked. */
  ghost predicate Keeps(a: Seen, b: Seen) {
    a.text == b.text && Covers(a.marked, b.marked, |a.text|)
  }

  /** The text a first differs from b in a bracket at d, which replaces what was no part of an original. */
  ghost predicate SpoilsAt(a: Seen, b: Seen, d: nat) {
    && d < |a.text| && d < |b.text| && d < |b.marked|
    && a.text[..d] == b.text[..d] && Covers(a.marked, b.marked, d)
    && a.text[d] == '[' && b.marked[d] != '['
  }

  ghost predicate Spoils(a: Seen, b: Seen) {
    exists d :: SpoilsAt(a, b, d)
  }

  /** What a number of matches turned away does to what is seen. */
  ghost predicate Turned(a: Seen, b: Seen, missed: nat) {
    if missed == 0 then Keeps(a, b) else Spoils(a, b)
  }

  lemma SpoilsLater(a: Seen, b: Seen, c: Seen, d: nat)
    requires Aligned(a) && Aligned(b) && Aligned(c)
    ensures SpoilsAt(a, b, d) && Keeps(b, c) ==> SpoilsAt(a, c, d)
    ensures SpoilsAt(b, c, d) && Keeps(a, b) ==> SpoilsAt(a, c, d)
  {}

  lemma SpoilsTwice(a: Seen, b: Seen, c: Seen, d: nat, e: nat)
    requires Aligned(a) && Aligned(b) && Aligned(c)
    requires SpoilsAt(a, b, d) && SpoilsAt(b, c, e)
    ensures SpoilsAt(a, c, if d < e then d else e)
  {
    var n := if d < e then d else e;
    assert a.text[..n] == a.text[..d][..n] == b.text[..n] == b.text[..e][..n];
    assert n < d ==> a.text[..d][n] == b.text[..d][n];
    assert n < e ==> b.text[..e][n] == c.text[..e][n];
  }

  lemma TurnedAgain(a: Seen, b: Seen, c: Seen, m: nat, n: nat)
    requires Aligned(a) && Aligned(b) && Aligned(c)
    requires Turned(a, b, m) && Turned(b, c, n)
    ensures Turned(a, c, m + n)
  {
    hide SpoilsAt, Aligned, Keeps;
    if m == 0 {
      if n == 0 {
        KeepsTwice(a, b, c);
      } else {
        var d: nat :| SpoilsAt(b, c, d);
        SpoilsLater(a, b, c, d);
      }
    } else {
      var d: nat :| SpoilsAt(a, b, d);
      if n == 0 {
        SpoilsLater(a, b, c, d);
      } else {
        var e: nat :| SpoilsAt(b, c, e);
        SpoilsTwice(a, b, c, d, e);
      }
    }
  }

  lemma KeepsTwice(a: Seen, b: Seen, c: Seen)
    requires Aligned(a) && Aligned(b) && Aligned(c) && Keeps(a, b) && Keeps(b, c)
    ensures Keeps(a, c)
  {}

  lemma SpoilsBehind(h': Seen, h: Seen, w': Seen, w: Seen, d: nat)
    requires Aligned(h') && Aligned(h) && Aligned(w') && Aligned(w) && Keeps(h', h) && SpoilsAt(w', w, d)
    ensures SpoilsAt(Join(h', w'), Join(h, w), |h.text| + d)
  {
    var a, b, n := Join(h', w'), Join(h, w), |h.text|;
    assert a.text[..n + d] == h.text + w'.text[..d] == h.text + w.text[..d] == b.text[..n + d];
    CoversBehind(h', h, w', w, d);
  }

  lemma KeepsBehind(h': Seen, h: Seen, w': Seen, w: Seen)
    requires Aligned(h') && Aligned(h) && Aligned(w') && Aligned(w) && Keeps(h', h) && Keeps(w', w)
    ensures Keeps(Join(h', w'), Join(h, w))
  {
    CoversBehind(h', h, w', w, |w.text|);
  }

  lemma CoversBehind(h': Seen, h: Seen, w': Seen, w: Seen, d: nat)
    requires Aligned(h') && Aligned(h) && Keeps(h', h) && Covers(w'.marked, w.marked, d)
    ensures Covers(h'.marked + w'.marked, h.marked + w.marked, |h.text| + d)
  {
    var a, b, n := h'.marked + w'.marked, h.marked + w.marked, |h.text|;
    forall i | 0 <= i < n + d && i < |a| && i < |b| && b[i] == '[' ensures a[i] == '[' {
      if i >= n {
        assert w.marked[i - n] == b[i] && w'.marked[i - n] == a[i];
      } else {
        assert h.marked[i] == b[i] && h'.marked[i] == a[i];
      }
    }
  }

  /** One more match in front: replaced by a placeholder, or by a tag if there is no room. */
  lemma TurnedAtMatch(u: Seen, m: string, tag: string, room: bool, w': Seen, w: Seen, missed: nat)
    requires Aligned(u) && Aligned(w') && Aligned(w) && Turned(w', w, missed)
    requires m != "" && '[' !in m && tag != "" && tag[0] == '['
    ensures Turned(Join(u, Join(if room then Seen(m, Open(m)) else Literal(tag), w')), Join(u, Join(Literal(m), w)),
                   missed + if room then 0 else 1)
  {
    if room {
      HeadKeeps(u, m);
      var h', h := Join(u, Seen(m, Open(m))), Join(u, Literal(m));
      assert Join(u, Join(Seen(m, Open(m)), w')) == Join(h', w') && Join(u, Join(Literal(m), w)) == Join(h, w) by {
        JoinAssoc(u, Seen(m, Open(m)), w');
        JoinAssoc(u, Literal(m), w);
      }
      hide Aligned, Keeps, SpoilsAt, Join;
      if missed > 0 {
        var d: nat :| SpoilsAt(w', w, d);
        SpoilsBehind(h', h, w', w, d);
      } else {
        KeepsBehind(h', h, w', w);
      }
    } else {
      TagSpoils(u, m, tag, w', w);
    }
  }

  lemma JoinAssoc(a: Seen, b: Seen, c: Seen)
    ensures Join(a, Join(b, c)) == Join(Join(a, b), c)
  {
    ConcatAssoc(a.text, b.text, c.text);
    ConcatAssoc(a.marked, b.marked, c.marked);
  }

  lemma HeadKeeps(u: Seen, m: string)
    requires Aligned(u) && m != "" && '[' !in m
    ensures var h', h := Join(u, Seen(m, Open(m))), Join(u, Literal(m)); Aligned(h') && Aligned(h) && Keeps(h', h)
  {
    assert forall i :: 0 <= i < |m| ==> m[i] in m;
  }

  lemma TagSpoils(u: Seen, m: string, tag: string, w': Seen, w: Seen)
    requires Aligned(u) && m != "" && '[' !in m && tag != "" && tag[0] == '['
    ensures SpoilsAt(Join(u, Join(Literal(tag), w')), Join(u, Join(Literal(m), w)), |u.text|)
  {
    assert m[0] in m;
  }

  lemma SeeAroundMatch(es: seq<PiiEntry>, a: string, m: string, rest: string)
    requires Numbered(es) && Foreign(m)
    ensures See(es, a + (m + rest)) == Join(See(es, a), Join(Literal(m), See(es, rest)))
  {
    hide Restore, Numbered, Foreign, Opened;
    OpenedNumbered(es);
    RestoreAroundMatch(es, a, m, rest);
    RestoreAroundMatch(Opened(es), a, m, rest);
  }

  lemma SeeAroundReplacement(es: seq<PiiEntry>, a: string, r: string, v: Seen, rest: string)
    requires Numbered(es) && r != "" && r[0] == '['
    requires See(es, r + rest) == Join(v, See(es, rest))
    ensures See(es, a + (r + rest)) == Join(See(es, a), Join(v, See(es, rest)))
  {
    hide Restore, Numbered, Opened;
    OpenedNumbered(es);
    RestoreAroundReplacement(es, a, r, v.text, rest);
    RestoreAroundReplacement(Opened(es), a, r, v.marked, rest);
  }

  /** What stands in for a match, and what the restorer shows for it. */
  lemma SeeReplacement(es: seq<PiiEntry>, t: PiiType, m: string, final: seq<PiiEntry>, rest: string)
    requires Numbered(final) && AfterCreate(es, t, m) <= final
    requires m != "" && |m| < ORIGINAL_SIZE
    ensures var r := Replacement(es, t, m); var v := if HasRoom(es, m) then Seen(m, Open(m)) else Literal(r);
      && r != "" && r[0] == '['
      && See(final, r + rest) == Join(v, See(final, rest))
  {
    hide Restore, AfterCreate, Numbered, Created, Tag, Opened;
    OpenedNumbered(final);
    if HasRoom(es, m) {
      CreatedIsIssued(es, t, m);
      var e :| e in AfterCreate(es, t, m) && e.original == m && e.placeholder == Created(es, t, m);
      assert e in final;
      RestoreIssued(final, e, rest);
      OpenedMember(final, e);
      RestoreIssued(Opened(final), e.(original := Open(m)), rest);
      IssuedShape(final, e);
    } else {
      RestoreFallback(final, t, rest);
      RestoreFallback(Opened(final), t, rest);
    }
  }

  lemma OpenedMember(es: seq<PiiEntry>, e: PiiEntry)
    requires e in es
    ensures e.(original := Open(e.original)) in Opened(es)
  {
    var i :| 0 <= i < |es| && es[i] == e;
    assert Opened(es)[i] == e.(original := Open(e.original));
  }

  /** One pass, seen through any later map: the restored text keeps its value as long as every match found room,
      and has a bracket for the first one that did not. lit is text already copied. */
  lemma {:induction false} PassRestores(p: Pattern, es: seq<PiiEntry>, lit: string, s: string, final: seq<PiiEntry>)
    requires MapOk(es) && FindsForeign(p.find) && Numbered(final) && Pass(p, es, s).es <= final
    ensures var r := Pass(p, es, s);
      Turned(See(final, lit + r.out), See(final, lit + s), r.missed)
    decreases |s|
  {
    hide See, AfterCreate, MapOk, Numbered, Look, Pass, Replacement, Foreign, HasRoom, Turned;
    if s != "" {
      TakenIsForeign(p, s);
      PassStep(p, es, s);
      match Look(p, s)
      case Copy(n) =>
        PassRestores(p, es, lit + s[..n], s[n..], final);
        assert lit + s[..n] + s[n..] == lit + s;
        assert lit + s[..n] + Pass(p, es, s[n..]).out == lit + Pass(p, es, s).out;
      case Take(so, eo) =>
        var m := s[so..eo];
        var es' := AfterCreate(es, p.typ, m);
        CreateKeepsMapOk(es, p.typ, m);
        PassMap(p, es', s[eo..]);
        PassRestores(p, es', "", s[eo..], final);
        TakeRestores(p.typ, es, lit + s[..so], m, s[eo..], Pass(p, es', s[eo..]), final);
        Regroup(lit, s[..so], m, s[eo..]);
        Regroup(lit, s[..so], Replacement(es, p.typ, m), Pass(p, es', s[eo..]).out);
    } else {
      PassEmpty(p, es);
      assert lit + "" == lit;
      TurnedNot(See(final, lit));
    }
  }

  lemma TakenIsForeign(p: Pattern, s: string)
    requires FindsForeign(p.find) && s != ""
    ensures FindOk(p.find)
    ensures var a := Look(p, s); a.Take? ==> Foreign(s[a.so..a.eo]) && s == s[..a.so] + s[a.so..a.eo] + s[a.eo..]
  {
    hide Foreign;
  }

  lemma Regroup(a: string, b: string, c: string, d: string)
    ensures a + (b + c + d) == a + b + (c + d)
  {}

  lemma TurnedNot(a: Seen)
    ensures Turned(a, a, 0)
  {}

  lemma PassEmpty(p: Pattern, es: seq<PiiEntry>)
    requires FindOk(p.find)
    ensures Pass(p, es, "") == Passed("", es, 0)
  {}

  /** The step of PassRestores at a match m between the text a and the text t. */
  lemma TakeRestores(typ: PiiType, es: seq<PiiEntry>, a: string, m: string, t: string,
                     rest: Passed, final: seq<PiiEntry>)
    requires m != "" && Foreign(m) && |m| < ORIGINAL_SIZE
    requires Turned(See(final, "" + rest.out), See(final, "" + t), rest.missed)
    requires Numbered(final) && AfterCreate(es, typ, m) <= rest.es <= final
    ensures Turned(See(final, a + (Replacement(es, typ, m) + rest.out)), See(final, a + (m + t)),
                   rest.missed + if HasRoom(es, m) then 0 else 1)
  {
    var r, room := Replacement(es, typ, m), HasRoom(es, m);
    hide See, AfterCreate, Numbered, Foreign, HasRoom, Created, Tag, Turned, Aligned, Replacement;
    SeeReplacement(es, typ, m, final, rest.out);
    SeeAroundReplacement(final, a, r, if room then Seen(m, Open(m)) else Literal(r), rest.out);
    SeeAroundMatch(final, a, m, t);
    assert "" + rest.out == rest.out && "" + t == t;
    ForeignParts(m);
    SeeAligned(final, a);
    SeeAligned(final, t);
    SeeAligned(final, rest.out);
    TurnedAtMatch(See(final, a), m, r, room, See(final, rest.out), See(final, t), rest.missed);
  }

  // ---------- All passes ----------

  ghost predicate AllForeign(ps: seq<Pattern>) {
    forall p :: p in ps ==> FindsForeign(p.find)
  }

  ghost function Passes(ps: seq<Pattern>, es: seq<PiiEntry>, s: string): Passed
    requires AllForeign(ps)
  {
    if ps == [] then Passed(s, es, 0)
    else
      var r := Passes(ps[..|ps| - 1], es, s);
      var q := Pass(ps[|ps| - 1], r.es, r.out);
      q.(missed := r.missed + q.missed)
  }

  lemma {:induction false} PassesMap(ps: seq<Pattern>, es: seq<PiiEntry>, s: string)
    requires MapOk(es) && AllForeign(ps)
    ensures var r := Passes(ps, es, s);
      MapOk(r.es) && es <= r.es && (r.missed > 0 ==> |r.es| == MAX_ENTRIES)
  {
    hide Pass;
    if ps != [] {
      PassesMap(ps[..|ps| - 1], es, s);
      var r := Passes(ps[..|ps| - 1], es, s);
      PassMap(ps[|ps| - 1], r.es, r.out);
    }
  }

  lemma {:induction false} PassesRestore(ps: seq<Pattern>, es: seq<PiiEntry>, s: string, final: seq<PiiEntry>)
    requires MapOk(es) && AllForeign(ps)
    requires Numbered(final) && Passes(ps, es, s).es <= final
    ensures var r := Passes(ps, es, s); Turned(See(final, r.out), See(final, s), r.missed)
  {
    hide MapOk, Numbered, Pass, See, Turned, Aligned;
    if ps != [] {
      var front, p := ps[..|ps| - 1], ps[|ps| - 1];
      var r := Passes(front, es, s);
      PassesMap(front, es, s);
      PassMap(p, r.es, r.out);
      PassesRestore(front, es, s, final);
      PassRestores(p, r.es, "", r.out, final);
      var q := Pass(p, r.es, r.out);
      assert "" + q.out == q.out && "" + r.out == r.out;
      SeeAligned(final, s);
      SeeAligned(final, r.out);
      SeeAligned(final, q.out);
      TurnedAgain(See(final, q.out), See(final, r.out), See(final, s), q.missed, r.missed);
    } else {
      TurnedNot(See(final, s));
    }
  }

  // ---------- When the map is large enough ----------

  /** The matches a pass replaces. They depend on the text alone. */
  ghost function Taken(p: Pattern, s: string): set<string>
    requires FindOk(p.find)
    decreases |s|
  {
    if s == "" then {}
    else
      var a := Look(p, s);
      if a.Copy? then Taken(p, s[a.n..]) else {s[a.so..a.eo]} + Taken(p, s[a.eo..])
  }

  ghost function Originals(es: seq<PiiEntry>): set<string> {
    set e | e in es :: e.original
  }

  lemma {:induction false} OriginalsSize(es: seq<PiiEntry>)
    requires forall i, j :: 0 <= i < j < |es| ==> es[i].original != es[j].original
    ensures |Originals(es)| == |es|
  {
    if es != [] {
      var n := |es| - 1;
      OriginalsSize(es[..n]);
      OriginalsAdd(es[..n], es[n]);
      assert es == es[..n] + [es[n]];
      assert es[n].original !in Originals(es[..n]);
    }
  }

  lemma OriginalsAdd(es: seq<PiiEntry>, e: PiiEntry)
    ensures Originals(es + [e]) == Originals(es) + {e.original}
  {
    assert forall f :: f in es + [e] <==> f in es || f == e;
  }

  /** A match is turned away exactly when it is unknown and the map is full. */
  lemma CreateOriginals(es: seq<PiiEntry>, t: PiiType, m: string)
    requires MapOk(es) && m != "" && |m| < ORIGINAL_SIZE
    ensures HasRoom(es, m) <==> m in Originals(es) || |Originals(es)| < MAX_ENTRIES
    ensures Originals(AfterCreate(es, t, m)) == if HasRoom(es, m) then Originals(es) + {m} else Originals(es)
  {
    hide FindOriginal, Placeholder, CountType;
    OriginalsSize(es);
    OriginalsAdd(es, NewEntry(es, t, m));
    if FindOriginal(es, m).Some? {
      var e :| e in es && e.original == m;
    }
  }

  lemma TakenStep(p: Pattern, s: string)
    requires FindOk(p.find) && s != ""
    ensures var a := Look(p, s);
      Taken(p, s) == if a.Copy? then Taken(p, s[a.n..]) else {s[a.so..a.eo]} + Taken(p, s[a.eo..])
  {}

  lemma TakenEmpty(p: Pattern)
    requires FindOk(p.find)
    ensures Taken(p, "") == {}
  {}

  /** One pass finds room for every match exactly when the originals known before and those in the text are no
      more than the map can hold. */
  lemma {:induction false} PassMissesExactly(p: Pattern, es: seq<PiiEntry>, s: string)
    requires MapOk(es) && FindOk(p.find)
    ensures var r, all := Pass(p, es, s), Originals(es) + Taken(p, s);
      && (r.missed == 0 <==> |all| <= MAX_ENTRIES)
      && (r.missed == 0 ==> Originals(r.es) == all)
    decreases |s|
  {
    hide Pass, Look, AfterCreate, MapOk, HasRoom, Originals, Taken, Replacement;
    var all := Originals(es) + Taken(p, s);
    OriginalsCount(es);
    if s == "" {
      PassEmpty(p, es);
      TakenEmpty(p);
      assert all == Originals(es);
    } else {
      PassStep(p, es, s);
      TakenStep(p, s);
      var a := Look(p, s);
      if a.Copy? {
        PassMissesExactly(p, es, s[a.n..]);
      } else {
        var m := s[a.so..a.eo];
        CreateKeepsMapOk(es, p.typ, m);
        CreateOriginals(es, p.typ, m);
        PassMissesExactly(p, AfterCreate(es, p.typ, m), s[a.eo..]);
        assert all == Originals(es) + {m} + Taken(p, s[a.eo..]);
        if !HasRoom(es, m) { SubsetSize(Originals(es) + {m}, all); }
      }
    }
  }

  lemma OriginalsCount(es: seq<PiiEntry>)
    requires MapOk(es)
    ensures |Originals(es)| == |es| <= MAX_ENTRIES
  {
    OriginalsSize(es);
  }

  /** The matches of all passes, each in the text the passes before it leave. */
  ghost function AllTaken(ps: seq<Pattern>, es: seq<PiiEntry>, s: string): set<string>
    requires AllForeign(ps)
  {
    if ps == [] then {}
    else
      var front, p := ps[..|ps| - 1], ps[|ps| - 1];
      AllTaken(front, es, s) + Taken(p, Passes(front, es, s).out)
  }

  lemma {:induction false} PassesMissExactly(ps: seq<Pattern>, es: seq<PiiEntry>, s: string)
    requires MapOk(es) && AllForeign(ps)
    ensures var r, all := Passes(ps, es, s), Originals(es) + AllTaken(ps, es, s);
      && (r.missed == 0 <==> |all| <= MAX_ENTRIES)
      && (r.missed == 0 ==> Originals(r.es) == all)
  {
    hide Pass, MapOk, Originals, Taken;
    var all := Originals(es) + AllTaken(ps, es, s);
    OriginalsCount(es);
    if ps == [] {
      assert all == Originals(es);
    } else {
      var front, p := ps[..|ps| - 1], ps[|ps| - 1];
      var r := Passes(front, es, s);
      PassesMap(front, es, s);
      PassesMissExactly(front, es, s);
      PassMissesExactly(p, r.es, r.out);
      assert all == Originals(es) + AllTaken(front, es, s) + Taken(p, r.out);
      SubsetSize(Originals(es) + AllTaken(front, es, s), all);
    }
  }

  // ---------- Anonymise, then restore ----------

  /** The originals of a session are not empty and have no bracket. */
  ghost predicate PlainOriginals(es: seq<PiiEntry>) {
    forall e :: e in es ==> e.original != "" && '[' !in e.original
  }

  lemma CreateKeepsPlain(es: seq<PiiEntry>, t: PiiType, m: string)
    requires PlainOriginals(es) && Foreign(m) && |m| < ORIGINAL_SIZE
    ensures PlainOriginals(AfterCreate(es, t, m))
  {}

  lemma {:induction false} PassPlain(p: Pattern, es: seq<PiiEntry>, s: string)
    requires PlainOriginals(es) && FindsForeign(p.find)
    ensures PlainOriginals(Pass(p, es, s).es)
    decreases |s|
  {
    hide Pass, Look, AfterCreate, PlainOriginals, Foreign, Replacement;
    if s == "" {
      PassEmpty(p, es);
    } else {
      PassStep(p, es, s);
      match Look(p, s)
      case Copy(n) => PassPlain(p, es, s[n..]);
      case Take(so, eo) =>
        assert Foreign(s[so..eo]);
        CreateKeepsPlain(es, p.typ, s[so..eo]);
        PassPlain(p, AfterCreate(es, p.typ, s[so..eo]), s[eo..]);
    }
  }

  /** Passes over any text keep it so, from the empty session on. */
  lemma {:induction false} PassesPlain(ps: seq<Pattern>, es: seq<PiiEntry>, s: string)
    requires PlainOriginals(es) && AllForeign(ps)
    ensures PlainOriginals(Passes(ps, es, s).es) && PlainOriginals([])
  {
    hide Pass;
    if ps != [] {
      PassesPlain(ps[..|ps| - 1], es, s);
      var r := Passes(ps[..|ps| - 1], es, s);
      PassPlain(ps[|ps| - 1], r.es, r.out);
    }
  }

  /** Position a is the first at which the text has a placeholder and what is seen an original. */
  ghost predicate FirstOriginal(v: Seen, s: string, a: nat) {
    && a < |s| && a < |v.text| && a < |v.marked|
    && v.text[..a] == s[..a] && s[a] == '[' && v.text[a] != '[' && v.marked[a] == '['
  }

  lemma {:induction false} FirstToken(es: seq<PiiEntry>, s: string) returns (a: nat)
    requires PlainOriginals(es) && !TokenFree(es, s)
    ensures FirstOriginal(See(es, s), s, a)
    decreases |s|
  {
    hide TokenAt, Opened;
    if s == "" { NoToken(es); }
    assert s[0..] == s;
    OpenedToken(es, s);
    var t := TokenAt(es, s);
    if t.Some? {
      TokenIsIssued(es, s);
      var e :| e in es && e.original == t.value.0;
      assert e.original[0] in e.original;
      a := 0;
    } else {
      assert !TokenFree(es, s[1..]) by {
        var i :| 0 <= i <= |s| && TokenAt(es, s[i..]).Some?;
        assert s[1..][i - 1..] == s[i..];
      }
      var b := FirstToken(es, s[1..]);
      a := b + 1;
      assert See(es, s) == Join(Literal([s[0]]), See(es, s[1..]));
      assert s[..a] == [s[0]] + s[1..][..b];
      assert See(es, s).text[..a] == [s[0]] + See(es, s[1..]).text[..b];
    }
  }

  lemma SpoiltIsNot(v: Seen, w: Seen, s: string, a: nat, d: nat)
    requires Aligned(w) && FirstOriginal(w, s, a) && SpoilsAt(v, w, d)
    ensures v.text != s
  {
    assert d < a ==> w.text[d] == w.text[..a][d] == s[..a][d] == s[d];
    assert a < d ==> w.text[a] == w.text[..d][a] == v.text[..d][a] == v.text[a];
  }

  /** After passes that turned matches away or not, the text comes back exactly when none was turned away and the
      text had no placeholder of the session. */
  lemma ComesBack(v: Seen, es: seq<PiiEntry>, s: string, missed: nat)
    requires PlainOriginals(es) && Turned(v, See(es, s), missed)
    ensures v.text == s <==> TokenFree(es, s) && missed == 0
  {
    hide PlainOriginals, TokenFree, See;
    var w := See(es, s);
    SeeAligned(es, s);
    if TokenFree(es, s) {
      RestoreTokenFree(es, s);
      assert w.text == s by { SeeText(es, s); }
      if missed > 0 { var d: nat :| SpoilsAt(v, w, d); }
    } else {
      var a := FirstToken(es, s);
      if missed > 0 {
        var d: nat :| SpoilsAt(v, w, d);
        SpoiltIsNot(v, w, s, a, d);
      }
    }
  }

  lemma SeeText(es: seq<PiiEntry>, s: string)
    ensures See(es, s).text == Restore(es, s)
  {}

  /** For every text, whatever the session issued before and whatever later texts of the request add, the original
      comes back exactly when it contains none of the placeholders that the session has issued by the time of the
      response, and the originals known before and those the passes find are no more than the map can hold. */
  lemma RoundTrip(ps: seq<Pattern>, es: seq<PiiEntry>, s: string, final: seq<PiiEntry>)
    requires MapOk(es) && AllForeign(ps)
    requires MapOk(final) && PlainOriginals(final) && Passes(ps, es, s).es <= final
    ensures var r := Passes(ps, es, s); var fits := |Originals(es) + AllTaken(ps, es, s)| <= MAX_ENTRIES;
      && (Restore(final, r.out) == s <==> TokenFree(final, s) && fits)
      && (r.missed == 0 <==> fits)
  {
    hide Passes, Originals, AllTaken, PlainOriginals, TokenFree, Turned, See, Numbered;
    var r := Passes(ps, es, s);
    PassesMissExactly(ps, es, s);
    PassesRestore(ps, es, s, final);
    ComesBack(See(final, r.out), final, s, r.missed);
    SeeText(final, r.out);
  }

  /** With one pass, the condition is about the text and the map before the call. */
  lemma RoundTripOnePass(p: Pattern, es: seq<PiiEntry>, s: string, final: seq<PiiEntry>)
    requires MapOk(es) && FindsForeign(p.find)
    requires MapOk(final) && PlainOriginals(final) && Pass(p, es, s).es <= final
    ensures Restore(final, Pass(p, es, s).out) == s
            <==> TokenFree(final, s) && |Originals(es) + Taken(p, s)| <= MAX_ENTRIES
  {
    hide Pass, Originals, Taken, PlainOriginals, TokenFree, Turned, See, Numbered;
    var r := Pass(p, es, s);
    PassMissesExactly(p, es, s);
    PassRestores(p, es, "", s, final);
    assert "" + r.out == r.out && "" + s == s;
    ComesBack(See(final, r.out), final, s, r.missed);
    SeeText(final, r.out);
  }

  /** A session that has no room left. */
  function FullMap(): seq<PiiEntry> {
    seq(MAX_ENTRIES, i requires 0 <= i => PiiEntry(Placeholder(Email, i + 1), Digits(i + 1), Email))
  }

  lemma {:induction false} CountAll(es: seq<PiiEntry>, t: PiiType)
    requires forall e :: e in es ==> e.typ == t
    ensures CountType(es, t) == |es|
  {
    if es != [] { CountAll(es[..|es| - 1], t); }
  }

  lemma FullMapOk()
    ensures MapOk(FullMap())
  {
    hide Placeholder, CountType, Digits;
    var es := FullMap();
    forall i | 0 <= i < |es|
      ensures es[i].placeholder == Placeholder(es[i].typ, CountType(es[..i], es[i].typ) + 1)
    {
      CountAll(es[..i], Email);
    }
    forall i, j | 0 <= i < j < |es| ensures es[i].original != es[j].original {
      if Digits(i + 1) == Digits(j + 1) { DigitsInjective(i + 1, j + 1); }
    }
  }

  lemma FullMapPlain()
    ensures PlainOriginals(FullMap())
  {
    hide Placeholder, Digits;
    forall e | e in FullMap() ensures e.original != "" && '[' !in e.original {
      var i: nat :| i < MAX_ENTRIES && e == FullMap()[i];
      DigitsAreDigits(i + 1);
    }
  }

  /** Originals of the full session are numbers. */
  lemma FullMapHasNot(s: string)
    requires |s| >= 2 && !IsDigit(s[1])
    ensures |Originals(FullMap())| == MAX_ENTRIES && s !in Originals(FullMap())
  {
    hide Placeholder, Digits;
    FullMapOk();
    OriginalsCount(FullMap());
    forall e | e in FullMap() ensures e.original != s {
      var i: nat :| i < MAX_ENTRIES && e == FullMap()[i];
      DigitsAreDigits(i + 1);
    }
  }

  /** Finds the address a@b, in that text alone. */
  function OneAddress(): Pattern {
    Pattern((s: string) => if s == "a@b" then Some((0, 3)) else None, Email, false, _ => true)
  }

  lemma AddressIsForeign()
    ensures FindsForeign(OneAddress().find)
  {
    var m := "a@b"[0..3];
    assert m == "a@b" && !IsWordChar(m[1]);
  }

  lemma AddressIsTaken()
    ensures FindOk(OneAddress().find) && Taken(OneAddress(), "a@b") == {"a@b"}
  {
    hide Foreign, Taken;
    var s, p := "a@b", OneAddress();
    assert Look(p, s) == Take(0, 3);
    assert s[0..3] == s && s[3..] == "";
    TakenStep(p, s);
    TakenEmpty(p);
  }

  /** A text that does not come back: an unknown address when the map is full. */
  lemma FullMapLoses()
    ensures var es, s := FullMap(), "a@b";
      && MapOk(es) && TokenFree(es, s) && FindOk(OneAddress().find)
      && var r := Pass(OneAddress(), es, s); r.es == es && r.missed > 0 && Restore(es, r.out) != s
  {
    hide FullMap, Pass, OneAddress, Restore, TokenAt, MapOk, Taken, Originals, PlainOriginals;
    var es, s, p := FullMap(), "a@b", OneAddress();
    FullMapOk();
    FullMapPlain();
    AddressIsForeign();
    AddressIsTaken();
    FullMapHasNot(s);
    PassMap(p, es, s);
    PassMissesExactly(p, es, s);
    assert |Originals(es) + {s}| == MAX_ENTRIES + 1;
    OriginalsCount(es);
    forall i | 0 <= i <= |s| ensures TokenAt(es, s[i..]).None? {
      if i < |s| { NoBracketNoToken(es, s[i..]); } else { NoToken(es); }
    }
    RoundTripOnePass(p, es, s, es);
  }

  const ISSUED := "[EMAIL_1]"

  /** Finds the address at the end of one text. */
  function AddressBehind(): Pattern {
    Pattern((s: string) => if s == ISSUED + "a@b" then Some((9, 12)) else None, Email, false, _ => true)
  }

  lemma AddressBehindIsForeign()
    ensures FindsForeign(AddressBehind().find)
  {
    var m := (ISSUED + "a@b")[9..12];
    assert m == "a@b" && !IsWordChar(m[1]);
  }

  lemma FirstEmail()
    ensures Placeholder(Email, 1) == ISSUED && AfterCreate([], Email, "a@b") == [PiiEntry(ISSUED, "a@b", Email)]
    ensures HasRoom([], "a@b") && Created([], Email, "a@b") == ISSUED
  {
    assert Digits(1) == "1";
    assert Placeholder(Email, 1) == ISSUED;
  }

  lemma LookBehind()
    ensures FindOk(AddressBehind().find) && Look(AddressBehind(), ISSUED + "a@b") == Take(9, 12)
    ensures AddressBehind().typ == Email
  {
    hide Foreign;
    AddressBehindIsForeign();
  }

  lemma BehindPass()
    ensures FindOk(AddressBehind().find)
    ensures Pass(AddressBehind(), [], ISSUED + "a@b") == Passed(ISSUED + ISSUED, [PiiEntry(ISSUED, "a@b", Email)], 0)
  {
    hide Pass, MapOk, AddressBehind, Placeholder, AfterCreate, Created, HasRoom, Look;
    var s, p := ISSUED + "a@b", AddressBehind();
    FirstEmail();
    LookBehind();
    PassStep(p, [], s);
    PassEmpty(p, [PiiEntry(ISSUED, "a@b", Email)]);
    assert s[..9] == ISSUED && s[9..12] == "a@b" && s[12..] == "";
  }

  /** A text that does not come back although there is room: it has the very placeholder that is issued for the
      address behind it. */
  lemma IssuedInTextLoses()
    ensures var s := ISSUED + "a@b";
      && FindsForeign(AddressBehind().find)
      && var r := Pass(AddressBehind(), [], s);
        MapOk(r.es) && r.missed == 0 && r.out == ISSUED + ISSUED && Restore(r.es, r.out) == "a@ba@b"
  {
    hide Pass, Restore, MapOk, AddressBehind, Foreign;
    AddressBehindIsForeign();
    BehindPass();
    OneEmailOk();
    IssuedTwice();
  }

  lemma IssuedTwice()
    ensures Restore([PiiEntry(ISSUED, "a@b", Email)], ISSUED + ISSUED) == "a@ba@b"
  {
    hide Restore, Numbered;
    var es := [PiiEntry(ISSUED, "a@b", Email)];
    OneEmailOk();
    RestoreIssued(es, es[0], ISSUED);
    RestoreIssued(es, es[0], "");
    assert ISSUED + "" == ISSUED;
    EmptyMapOrText(es, "");
  }

  lemma OneEmailOk()
    ensures MapOk([PiiEntry(ISSUED, "a@b", Email)])
  {
    hide Placeholder;
    FirstEmail();
    CreateKeepsMapOk([], Email, "a@b");
  }

  lemma NoToken(es: seq<PiiEntry>)
    ensures TokenAt(es, "").None?
  {}

  // ---------- The pass as a loop ----------

  /** The end of a run of characters, as the skipping loops compute it. */
  method FindRunEnd(s: string, k: nat, over: char -> bool) returns (e: nat)
    requires k <= |s|
    ensures e == RunEnd(s, k, over) && k <= e <= |s|
  {
    e := k;
    while e < |s| && over(s[e])
      invariant k <= e <= |s| && RunEnd(s, k, over) == RunEnd(s, e, over)
    {
      e := e + 1;
    }
  }

  method CheckAccepts(p: Pattern, m: string) returns (ok: bool)
    ensures ok <==> Accepts(p, m)
  {
    match p.typ
    case IdCard => ok := ValidateIdCardMod11(m);
    case BankCard => ok := ValidateLuhn(m);
    case IpAddress => ok := p.ipOk(m);
    case Phone => ok := true;
    case Email => ok := true;
    case ApiKey => ok := true;
  }

  /** The checks of the loop body at the cursor. */
  method Inspect(p: Pattern, s: string) returns (a: Action)
    requires FindOk(p.find) && s != ""
    ensures a == Look(p, s)
  {
    var found := p.find(s);
    if found.None? {
      return Copy(|s|);
    }
    var so, eo := found.value.0, found.value.1;
    if p.boundary && TouchesDigit(s, so, eo) {
      var step := FindRunEnd(s, eo, c => IsDigit(c));
      return Copy(step);
    }
    if eo - so >= 128 {
      return Copy(so + 1);
    }
    var ok := CheckAccepts(p, s[so..eo]);
    if !ok {
      var step := FindRunEnd(s, eo, c => SkipsOver(p.typ, c));
      return Copy(step);
    }
    return Take(so, eo);
  }

  /** One round of the loop: what it appends, how far it moves, and whether it replaced a match. */
  method ReplaceNext(p: Pattern, sm: PiiSessionMap, s: string) returns (emitted: string, step: nat, matched: bool)
    requires sm.Valid() && FindOk(p.find) && s != ""
    modifies sm`count, sm.entries
    ensures sm.Valid() && 1 <= step <= |s|
    ensures var r := Pass(p, sm.Contents(), s[step..]); var w := Pass(p, old(sm.Contents()), s);
      w.out == emitted + r.out && w.es == r.es
    ensures !matched ==> emitted == s[..step]
    ensures Taken(p, s) != {} <==> matched || Taken(p, s[step..]) != {}
  {
    hide Pass, Look, AfterCreate, Created, HasRoom, Taken;
    PassStep(p, sm.Contents(), s);
    TakenStep(p, s);
    var a := Inspect(p, s);
    if a.Copy? {
      return s[..a.n], a.n, false;
    }
    var token := sm.GetOrCreate(p.typ, s[a.so..a.eo]);
    var repl := if token.Some? then token.value else "[" + Tag(p.typ) + "]";
    return s[..a.so] + repl, a.eo, true;
  }

  lemma ConcatAssoc(a: string, b: string, c: string)
    ensures a + b + c == a + (b + c)
  {}

  lemma SliceOn(s: string, k: nat, n: nat)
    requires k + n <= |s|
    ensures s[k..][n..] == s[k + n..] && s[..k] + s[k..][..n] == s[..k + n]
  {}

  /** replace_entity_regex with the anonymise action and a session map. */
  method ReplaceEntity(p: Pattern, sm: PiiSessionMap, src: string) returns (out: string, anyMatch: bool)
    requires sm.Valid() && FindOk(p.find)
    modifies sm`count, sm.entries
    ensures sm.Valid()
    ensures var r := Pass(p, old(sm.Contents()), src); out == r.out && sm.Contents() == r.es
    ensures !anyMatch ==> out == src
    ensures anyMatch <==> Taken(p, src) != {}
  {
    hide Pass, Foreign, MapOk, Taken, FindOk, AfterCreate;
    out, anyMatch := "", false;
    var cursor := 0;
    ghost var whole := Pass(p, sm.Contents(), src);
    assert src[0..] == src && "" + whole.out == whole.out;
    while cursor < |src|
      invariant 0 <= cursor <= |src| && sm.Valid()
      invariant var r := Pass(p, sm.Contents(), src[cursor..]); whole.out == out + r.out && r.es == whole.es
      invariant !anyMatch ==> out == src[..cursor]
      invariant Taken(p, src) != {} <==> anyMatch || Taken(p, src[cursor..]) != {}
    {
      var emitted, step, matched := ReplaceNext(p, sm, src[cursor..]);
      SliceOn(src, cursor, step);
      ConcatAssoc(out, emitted, Pass(p, sm.Contents(), src[cursor + step..]).out);
      out := out + emitted;
      cursor := cursor + step;
      anyMatch := anyMatch || matched;
    }
    assert src[|src|..] == "" && src[..|src|] == src;
    PassEmpty(p, sm.Contents());
    TakenEmpty(p);
    assert out + "" == out;
  }

  /** guardrails_transform_pii_text over the enabled expressions, in its order; None is the NULL return
      for a text that stays as it is. */
  method TransformText(ps: seq<Pattern>, sm: PiiSessionMap, text: string) returns (out: Option<string>)
    requires sm.Valid() && AllForeign(ps)
    modifies sm`count, sm.entries
    ensures sm.Valid()
    ensures text != "" ==> var r := Passes(ps, old(sm.Contents()), text);
      sm.Contents() == r.es && r.out == if out.Some? then out.value else text
    ensures text != "" ==> (out.Some? <==> AllTaken(ps, old(sm.Contents()), text) != {})
    ensures text == "" ==> out == None && sm.Contents() == old(sm.Contents())
  {
    hide Pass, Taken;
    if text == "" {
      return None;
    }
    var s, changed := text, false;
    ghost var es := sm.Contents();
    for i := 0 to |ps|
      invariant sm.Valid()
      invariant var r := Passes(ps[..i], es, text); s == r.out && sm.Contents() == r.es
      invariant !changed ==> s == text
      invariant changed <==> AllTaken(ps[..i], es, text) != {}
    {
      var anyMatch;
      assert ps[..i + 1][..i] == ps[..i];
      s, anyMatch := ReplaceEntity(ps[i], sm, s);
      changed := changed || anyMatch;
    }
    assert ps[..|ps|] == ps;
    return if changed then Some(s) else None;
  }
}
