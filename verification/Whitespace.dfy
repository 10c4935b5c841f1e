/** Normalising white space in prompts (src/policy/cache_optimizer.c:111-177). */
module Whitespace {

  predicate IsBlank(c: char) {
    c == ' ' || c == '\t'
  }

  // ---------- What the loop computes ----------

  /** The output so far, and the runs of newlines and spaces at its end. */
  datatype Text = Text(out: string, newlines: nat, spaces: nat)

  const EMPTY := Text("", 0, 0)

  function Trim(s: string): (t: string)
    ensures t <= s
  {
    if s != "" && IsBlank(s[|s| - 1]) then Trim(s[..|s| - 1]) else s
  }

  function Put(t: Text, c: char): Text {
    if c == '\r' then t
    else if c == '\n' then
      var out := Trim(t.out);
      if t.newlines < 2 then Text(out + "\n", t.newlines + 1, 0) else Text(out, t.newlines, 0)
    else if IsBlank(c) then
      if t.newlines > 0 || t.spaces > 0 then t else Text(t.out + " ", 0, t.spaces + 1)
    else Text(t.out + [c], 0, 0)
  }

  function Leading(s: string, r: nat): (k: nat)
    requires r <= |s|
    ensures r <= k <= |s|
    decreases |s| - r
  {
    if r < |s| && (IsBlank(s[r]) || s[r] == '\r') then Leading(s, r + 1) else r
  }

  /** Characters are taken while there is room for one more, a newline and the end of the string. */
  function Feed(s: string, r: nat, t: Text, outSize: nat): (res: (Text, nat))
    requires r <= |s|
    ensures r <= res.1 <= |s|
    decreases |s| - r
  {
    if r < |s| && |t.out| + 2 < outSize then Feed(s, r + 1, Put(t, s[r]), outSize) else (t, r)
  }

  function Normalized(s: string, outSize: nat): string {
    Trim(Feed(s, Leading(s, 0), EMPTY, outSize).0.out)
  }

  /** How much of the input was read. */
  function Consumed(s: string, outSize: nat): (r: nat)
    ensures r <= |s|
  {
    Feed(s, Leading(s, 0), EMPTY, outSize).1
  }

  // ---------- The normal form ----------

  /** Neither a double space, nor a space next to a newline, nor three newlines. */
  ghost predicate Neat(s: string) {
    && (forall i :: 0 <= i < |s| ==> s[i] != '\r' && s[i] != '\t')
    && (s != "" ==> s[0] != ' ')
    && (forall i :: 0 <= i < |s| - 1 && s[i] == ' ' ==> s[i + 1] != ' ' && s[i + 1] != '\n')
    && (forall i :: 0 <= i < |s| - 1 && s[i] == '\n' ==> s[i + 1] != ' ')
    && (forall i :: 0 <= i < |s| - 2 && s[i] == '\n' && s[i + 1] == '\n' ==> s[i + 2] != '\n')
  }

  ghost predicate NormalForm(s: string) {
    Neat(s) && (s != "" ==> s[|s| - 1] != ' ')
  }

  function NewlinesAtEnd(s: string): nat {
    if s == "" || s[|s| - 1] != '\n' then 0 else NewlinesAtEnd(s[..|s| - 1]) + 1
  }

  /** The counters describe the end of the output. */
  ghost predicate Counted(t: Text) {
    && Neat(t.out) && t.newlines == NewlinesAtEnd(t.out) <= 2
    && t.spaces == if t.out != "" && t.out[|t.out| - 1] == ' ' then 1 else 0
  }

  lemma NeatPrefix(s: string, n: nat)
    requires Neat(s) && n <= |s|
    ensures Neat(s[..n])
  {
    var u := s[..n];
    assert forall i :: 0 <= i < n ==> u[i] == s[i];
  }

  lemma SpaceBefore(s: string, i: nat)
    requires Neat(s) && i + 1 < |s| && s[i + 1] == ' '
    ensures s[i] != ' ' && s[i] != '\t'
  {}

  lemma NoTabs(s: string)
    requires Neat(s) && s != ""
    ensures s[|s| - 1] != '\t' && (|s| == 1 ==> s[0] != ' ')
  {}

  lemma TrimNeat(s: string)
    requires Neat(s)
    ensures Trim(s) == (if s != "" && s[|s| - 1] == ' ' then s[..|s| - 1] else s)
    ensures NormalForm(Trim(s))
  {
    hide Neat;
    if s != "" {
      NoTabs(s);
      if s[|s| - 1] == ' ' {
        var t := s[..|s| - 1];
        SpaceBefore(s, |s| - 2);
        NeatPrefix(s, |s| - 1);
        assert Trim(t) == t;
      }
    }
  }

  lemma NewlinesExtend(s: string, c: char)
    ensures NewlinesAtEnd(s + [c]) == if c == '\n' then NewlinesAtEnd(s) + 1 else 0
  {
    assert (s + [c])[..|s|] == s;
  }

  lemma TwoNewlines(s: string)
    ensures NewlinesAtEnd(s) >= 1 <==> s != "" && s[|s| - 1] == '\n'
    ensures NewlinesAtEnd(s) >= 2 <==> |s| >= 2 && s[|s| - 1] == '\n' && s[|s| - 2] == '\n'
  {
    if s != "" && s[|s| - 1] == '\n' {
      var t := s[..|s| - 1];
      assert NewlinesAtEnd(t) >= 1 <==> t != "" && t[|t| - 1] == '\n';
    }
  }

  function Last(s: string): char {
    if s == "" then '\0' else s[|s| - 1]
  }

  lemma NeatExtend(s: string, c: char)
    requires Neat(s) && c != '\r' && c != '\t' && (s == "" ==> c != ' ')
    requires Last(s) == ' ' ==> c != ' ' && c != '\n'
    requires Last(s) == '\n' ==> c != ' '
    requires NewlinesAtEnd(s) >= 2 ==> c != '\n'
    ensures Neat(s + [c])
  {
    TwoNewlines(s);
    var t := s + [c];
    assert forall i :: 0 <= i < |s| ==> t[i] == s[i];
  }

  lemma PutKeepsCounted(t: Text, c: char)
    requires Counted(t) && (t.out == "" ==> !IsBlank(c))
    ensures Counted(Put(t, c))
    ensures t.out != "" || c != '\r' ==> Put(t, c).out != ""
  {
    hide Neat, NewlinesAtEnd;
    TrimNeat(t.out);
    TwoNewlines(t.out);
    TwoNewlines(Trim(t.out));
    if c == '\n' {
      NewlineKeepsCounted(t);
    } else {
      var d := if IsBlank(c) then ' ' else c;
      NewlinesExtend(t.out, d);
      if c != '\r' && (!IsBlank(c) || (t.newlines == 0 && t.spaces == 0)) { NeatExtend(t.out, d); }
    }
  }

  lemma NewlineKeepsCounted(t: Text)
    requires Counted(t)
    ensures Counted(Put(t, '\n')) && Put(t, '\n').out != ""
  {
    hide Neat, NewlinesAtEnd;
    var s := Trim(t.out);
    TrimmedEnd(t.out);
    TwoNewlines(t.out);
    TwoNewlines(s);
    NewlinesExtend(s, '\n');
    if t.newlines < 2 { NeatExtend(s, '\n'); }
  }

  /** Trimming neat text takes a space away, or nothing. */
  lemma TrimmedEnd(s: string)
    requires Neat(s)
    ensures var u := Trim(s);
      && Neat(u) && Last(u) != ' '
      && (Last(s) != ' ' ==> u == s)
      && (Last(s) == ' ' ==> Last(u) != '\n' && NewlinesAtEnd(u) == 0 && NewlinesAtEnd(s) == 0)
  {
    TrimNeat(s);
    if Last(s) == ' ' && |s| >= 2 { assert s[|s| - 2] != '\n'; }
  }

  lemma {:induction false} LeadingEnds(s: string, r: nat)
    requires r <= |s|
    ensures var k := Leading(s, r);
      && (k < |s| ==> !IsBlank(s[k]) && s[k] != '\r')
      && forall i :: r <= i < k ==> IsBlank(s[i]) || s[i] == '\r'
    decreases |s| - r
  {
    if r < |s| && (IsBlank(s[r]) || s[r] == '\r') { LeadingEnds(s, r + 1); }
  }

  /** What the loop keeps; before the first character, the next one is no blank. */
  ghost predicate LoopState(s: string, r: nat, t: Text)
    requires r <= |s|
  {
    Counted(t) && (t.out == "" && r < |s| ==> !IsBlank(s[r]) && s[r] != '\r')
  }

  lemma {:induction false} FeedKeepsCounted(s: string, r: nat, t: Text, outSize: nat)
    requires r <= |s| && LoopState(s, r, t)
    ensures Counted(Feed(s, r, t, outSize).0)
    decreases |s| - r
  {
    hide Counted, Put;
    if r < |s| && |t.out| + 2 < outSize {
      PutKeepsCounted(t, s[r]);
      FeedKeepsCounted(s, r + 1, Put(t, s[r]), outSize);
    }
  }

  lemma StartState(s: string)
    ensures LoopState(s, Leading(s, 0), EMPTY)
  {
    LeadingEnds(s, 0);
  }

  /** Whatever the input, and also when the buffer is too small for it: the result is in normal form. */
  lemma ResultIsNormal(s: string, outSize: nat)
    ensures NormalForm(Normalized(s, outSize))
  {
    StartState(s);
    FeedKeepsCounted(s, Leading(s, 0), EMPTY, outSize);
    TrimNeat(Feed(s, Leading(s, 0), EMPTY, outSize).0.out);
  }

  // ---------- Normal text is not changed ----------

  lemma PutCopies(s: string, r: nat, t: Text)
    requires NormalForm(s) && r < |s| && Counted(t) && t.out == s[..r]
    ensures Put(t, s[r]).out == s[..r + 1]
  {
    TwoNewlines(t.out);
    assert s[..r + 1] == t.out + [s[r]];
    if s[r] == '\n' {
      assert r > 0 ==> s[r - 1] != ' ';
      TrimNeat(t.out);
    }
  }

  lemma {:induction false} FeedCopies(s: string, r: nat, t: Text, outSize: nat)
    requires NormalForm(s) && r <= |s| && |s| + 2 <= outSize && LoopState(s, r, t) && t.out == s[..r]
    ensures Feed(s, r, t, outSize).0.out == s
    decreases |s| - r
  {
    hide Counted, Put, NormalForm;
    if r < |s| {
      PutKeepsCounted(t, s[r]);
      PutCopies(s, r, t);
      FeedCopies(s, r + 1, Put(t, s[r]), outSize);
    }
  }

  lemma NormalIsFixed(s: string, outSize: nat)
    requires NormalForm(s) && |s| + 2 <= outSize
    ensures Normalized(s, outSize) == s
  {
    LeadingEnds(s, 0);
    StartState(s);
    FeedCopies(s, 0, EMPTY, outSize);
    TrimNeat(s);
  }

  lemma {:induction false} FeedFits(s: string, r: nat, t: Text, outSize: nat)
    requires r <= |s| && (t.out == "" || |t.out| + 2 <= outSize)
    ensures var out := Feed(s, r, t, outSize).0.out; out == "" || |out| + 2 <= outSize
    decreases |s| - r
  {
    if r < |s| && |t.out| + 2 < outSize {
      assert |Put(t, s[r]).out| <= |t.out| + 1;
      FeedFits(s, r + 1, Put(t, s[r]), outSize);
    }
  }

  /** Normalising twice into buffers of one size is normalising once. */
  lemma Idempotent(s: string, outSize: nat)
    ensures Normalized(Normalized(s, outSize), outSize) == Normalized(s, outSize)
  {
    var n := Normalized(s, outSize);
    ResultIsNormal(s, outSize);
    FeedFits(s, Leading(s, 0), EMPTY, outSize);
    if n != "" { NormalIsFixed(n, outSize); }
  }

  // ---------- The layout stays ----------

  /** A word, and how many newlines stand between it and the word before, where more than two count as two. */
  datatype Word = Word(newlines: nat, text: string)

  /** The finished words, the one at the end, and the newlines before that. Carriage returns do not separate
      words. */
  datatype Scan = Scan(done: seq<Word>, word: string, newlines: nat)

  function Finished(w: Scan): Scan {
    if w.word == "" then w else Scan(w.done + [Word(w.newlines, w.word)], "", 0)
  }

  function Take(w: Scan, c: char): Scan {
    if c == '\r' then w
    else if IsBlank(c) then Finished(w)
    else if c == '\n' then
      var f := Finished(w);
      f.(newlines := if f.newlines < 2 then f.newlines + 1 else 2)
    else w.(word := w.word + [c])
  }

  function ScanOf(s: string): Scan {
    if s == "" then Scan([], "", 0) else Take(ScanOf(s[..|s| - 1]), s[|s| - 1])
  }

  /** The words of a text with the newlines before each, and the newlines at its end. */
  function Layout(s: string): Scan {
    Finished(ScanOf(s))
  }

  lemma ScanExtend(s: string, c: char)
    ensures ScanOf(s + [c]) == Take(ScanOf(s), c)
  {
    assert (s + [c])[..|s|] == s;
  }

  lemma ScanTrim(s: string)
    requires Neat(s)
    ensures Take(ScanOf(Trim(s)), '\n') == Take(ScanOf(s), '\n') && Layout(Trim(s)) == Layout(s)
  {
    TrimNeat(s);
  }

  lemma PutKeepsScan(t: Text, c: char)
    requires Counted(t) && (t.out == "" ==> !IsBlank(c))
    ensures ScanOf(Put(t, c).out) == Take(ScanOf(t.out), c)
  {
    hide Neat;
    TwoNewlines(t.out);
    if c == '\n' {
      ScanTrim(t.out);
      ScanExtend(Trim(t.out), '\n');
      if t.newlines >= 2 { TrimmedEnd(t.out); }
    } else if c != '\r' {
      ScanExtend(t.out, if IsBlank(c) then ' ' else c);
    }
  }

  lemma {:induction false} FeedKeepsScan(s: string, r: nat, t: Text, outSize: nat)
    requires r <= |s| && LoopState(s, r, t) && ScanOf(t.out) == ScanOf(s[..r])
    ensures var res := Feed(s, r, t, outSize); ScanOf(res.0.out) == ScanOf(s[..res.1])
    decreases |s| - r
  {
    hide Counted, Put, ScanOf;
    if r < |s| && |t.out| + 2 < outSize {
      PutKeepsCounted(t, s[r]);
      PutKeepsScan(t, s[r]);
      ScanExtend(s[..r], s[r]);
      assert s[..r + 1] == s[..r] + [s[r]];
      FeedKeepsScan(s, r + 1, Put(t, s[r]), outSize);
    }
  }

  lemma {:induction false} BlankHasNoWords(s: string)
    requires forall i :: 0 <= i < |s| ==> IsBlank(s[i]) || s[i] == '\r'
    ensures ScanOf(s) == Scan([], "", 0)
  {
    if s != "" { BlankHasNoWords(s[..|s| - 1]); }
  }

  lemma {:induction false} FeedReadsAll(s: string, r: nat, t: Text, outSize: nat)
    requires r <= |s| && |t.out| <= r && outSize >= |s| + 2
    ensures Feed(s, r, t, outSize).1 == |s|
    decreases |s| - r
  {
    if r < |s| {
      assert |Put(t, s[r]).out| <= |t.out| + 1;
      FeedReadsAll(s, r + 1, Put(t, s[r]), outSize);
    }
  }

  lemma {:induction false} FeedStops(s: string, r: nat, t: Text, outSize: nat)
    requires r <= |s|
    ensures var res := Feed(s, r, t, outSize); res.1 < |s| ==> |res.0.out| + 2 >= outSize
    decreases |s| - r
  {
    if r < |s| && |t.out| + 2 < outSize { FeedStops(s, r + 1, Put(t, s[r]), outSize); }
  }

  /** The result has the words of the part of the input that was read, in order, and between them and at the end as
      many newlines as there were, up to two. Reading stops early only when the buffer is full; with two places more
      than the input has characters, all of it is read. */
  lemma LayoutStays(s: string, outSize: nat)
    ensures Layout(Normalized(s, outSize)) == Layout(s[..Consumed(s, outSize)])
    ensures Consumed(s, outSize) < |s| ==> |Normalized(s, outSize)| + 3 >= outSize
    ensures outSize >= |s| + 2 ==> Layout(Normalized(s, outSize)) == Layout(s)
  {
    hide ScanOf;
    FeedStops(s, Leading(s, 0), EMPTY, outSize);
    var k := Leading(s, 0);
    LeadingEnds(s, 0);
    StartState(s);
    BlankHasNoWords(s[..k]);
    BlankHasNoWords("");
    FeedKeepsScan(s, k, EMPTY, outSize);
    FeedKeepsCounted(s, k, EMPTY, outSize);
    ScanTrim(Feed(s, k, EMPTY, outSize).0.out);
    TrimNeat(Feed(s, k, EMPTY, outSize).0.out);
    if outSize >= |s| + 2 {
      FeedReadsAll(s, k, EMPTY, outSize);
      assert s[..|s|] == s;
    }
  }

  // ---------- The layout determines the result ----------

  function Newlines(n: nat): string {
    if n == 0 then "" else Newlines(n - 1) + "\n"
  }

  /** What stands before a word. */
  function Gap(first: bool, newlines: nat): string {
    if newlines > 0 then Newlines(newlines) else if first then "" else " "
  }

  function Shown(words: seq<Word>): string {
    if words == [] then ""
    else
      var n := |words| - 1;
      Shown(words[..n]) + Gap(n == 0, words[n].newlines) + words[n].text
  }

  /** The neat text with this scan, with or without a space at the end. */
  function Show(w: Scan, space: bool): string {
    if w.word != "" then Shown(w.done) + Gap(w.done == [], w.newlines) + w.word
    else Shown(w.done) + Newlines(w.newlines) + if space then " " else ""
  }

  lemma ShownNext(w: Scan)
    requires w.word != ""
    ensures Shown(w.done + [Word(w.newlines, w.word)]) == Shown(w.done) + Gap(w.done == [], w.newlines) + w.word
  {
    assert (w.done + [Word(w.newlines, w.word)])[..|w.done|] == w.done;
  }

  /** Where a scan of a neat text stands. */
  ghost predicate ScanEnd(s: string, w: Scan) {
    && w.newlines <= 2
    && (w.word != "" <==> s != "" && Last(s) != ' ' && Last(s) != '\n')
    && (w.word == "" && w.newlines > 0 <==> Last(s) == '\n' && s != "")
    && (w.word == "" && w.newlines == 2 ==> NewlinesAtEnd(s) >= 2)
    && (s != "" && Last(s) == ' ' ==> w.done != [])
  }

  lemma ScanEndNext(s: string, w: Scan, c: char)
    requires Neat(s + [c]) && ScanEnd(s, w) && (s == "" ==> w == Scan([], "", 0))
    ensures ScanEnd(s + [c], Take(w, c))
  {
    var t := s + [c];
    assert c == t[|s|] && t[0] != ' ';
    NewlinesExtend(s, c);
    TwoNewlines(s);
    TwoNewlines(t);
    if s != "" { assert t[|s| - 1] == Last(s); }
  }

  /** What may follow a neat text. */
  ghost predicate MayFollow(s: string, c: char) {
    && c != '\r' && c != '\t' && (s == "" ==> c != ' ')
    && (s != "" && Last(s) == ' ' ==> c != ' ' && c != '\n')
    && (s != "" && Last(s) == '\n' ==> c != ' ')
    && (NewlinesAtEnd(s) >= 2 ==> c != '\n')
  }

  lemma NeatFollows(s: string, c: char)
    requires Neat(s + [c])
    ensures MayFollow(s, c)
  {
    var t := s + [c];
    assert c == t[|s|] && t[0] != ' ';
    if s != "" { assert t[|s| - 1] == Last(s); }
    if NewlinesAtEnd(s) >= 2 { ThreeNewlines(s, c); }
  }

  lemma ShowBlank(s: string, w: Scan)
    requires MayFollow(s, ' ') && ScanEnd(s, w) && s == Show(w, s != "" && Last(s) == ' ')
    ensures s + " " == Show(Take(w, ' '), true)
  {
    ShownNext(w);
    assert Newlines(0) == "";
  }

  lemma ShowNewline(s: string, w: Scan)
    requires MayFollow(s, '\n') && ScanEnd(s, w) && s == Show(w, s != "" && Last(s) == ' ')
    ensures s + "\n" == Show(Take(w, '\n'), false)
  {
    hide Shown, Gap;
    assert Newlines(0) == "" && Newlines(1) == "\n";
    if w.word != "" {
      ShownNext(w);
      assert Show(Take(w, '\n'), false) == Shown(w.done + [Word(w.newlines, w.word)]) + "\n" + "";
    } else {
      var n := w.newlines;
      assert Newlines(n + 1) == Newlines(n) + "\n";
      assert Shown(w.done) + Newlines(n) + "" + "\n" == Shown(w.done) + Newlines(n + 1) + "";
    }
  }

  lemma ShowLetter(s: string, w: Scan, c: char)
    requires MayFollow(s, c) && c != ' ' && c != '\n' && ScanEnd(s, w) && s == Show(w, s != "" && Last(s) == ' ')
    requires s == "" ==> w == Scan([], "", 0)
    ensures s + [c] == Show(Take(w, c), false)
  {
    assert Newlines(0) == "" && Shown([]) == "";
    if w.word == "" && s != "" && w.newlines == 0 {
      assert s == Shown(w.done) + " ";
    }
  }

  lemma ShowNext(s: string, w: Scan, c: char)
    requires Neat(s + [c]) && ScanEnd(s, w) && s == Show(w, s != "" && Last(s) == ' ')
    requires s == "" ==> w == Scan([], "", 0)
    ensures s + [c] == Show(Take(w, c), c == ' ')
  {
    hide Neat, Show, ScanEnd, Take, MayFollow;
    NeatFollows(s, c);
    if c == ' ' {
      ShowBlank(s, w);
    } else if c == '\n' {
      ShowNewline(s, w);
    } else {
      ShowLetter(s, w, c);
    }
  }

  lemma ThreeNewlines(s: string, c: char)
    requires Neat(s + [c]) && NewlinesAtEnd(s) >= 2
    ensures c != '\n'
  {
    TwoNewlines(s);
    var t := s + [c];
    assert t[|s| - 2] == s[|s| - 2] && t[|s| - 1] == s[|s| - 1] && t[|s|] == c;
  }

  lemma {:induction false} NeatIsShown(s: string)
    requires Neat(s)
    ensures ScanEnd(s, ScanOf(s)) && s == Show(ScanOf(s), s != "" && Last(s) == ' ')
  {
    hide Neat, Show, ScanEnd, Take;
    if s == "" {
      EmptyIsShown();
    } else {
      var n := |s| - 1;
      assert s == s[..n] + [s[n]];
      NeatPrefix(s, n);
      NeatIsShown(s[..n]);
      ScanEndNext(s[..n], ScanOf(s[..n]), s[n]);
      ShowNext(s[..n], ScanOf(s[..n]), s[n]);
    }
  }

  lemma EmptyIsShown()
    ensures ScanEnd("", Scan([], "", 0)) && Show(Scan([], "", 0), false) == ""
  {}

  /** A text in normal form is determined by its layout: by its words, and the newlines between them and at the
      end. So normalising gives the one normal text with the layout of what was read. */
  lemma LayoutDetermines(s: string, t: string)
    requires NormalForm(s) && NormalForm(t) && Layout(s) == Layout(t)
    ensures s == t
  {
    hide Neat, ScanOf;
    NormalIsShown(s);
    NormalIsShown(t);
  }

  lemma NormalIsShown(s: string)
    requires NormalForm(s)
    ensures s == Show(Layout(s), false)
  {
    hide Neat, ScanOf;
    NeatIsShown(s);
    var w := ScanOf(s);
    if w.word != "" {
      ShownNext(w);
      assert Newlines(0) == "";
    }
  }

  // ---------- The loop ----------

  /** The backward trimming loops. */
  method TrimBack(out: array<char>, w: nat) returns (v: nat)
    requires w <= out.Length
    ensures v <= w && out[..v] == Trim(out[..w])
  {
    v := w;
    while v > 0 && IsBlank(out[v - 1])
      invariant v <= w && Trim(out[..w]) == Trim(out[..v])
    {
      assert out[..v][..v - 1] == out[..v - 1];
      v := v - 1;
    }
  }

  /** cache_optimizer_normalize_whitespace. */
  method NormalizeWhitespace(s: string, out: array<char>) returns (w: nat)
    modifies out
    ensures out.Length == 0 ==> w == 0
    ensures out.Length > 0 ==> w < out.Length && out[..w] == Normalized(s, out.Length) && out[w] == '\0'
  {
    w := 0;
    if |s| == 0 || out.Length == 0 {
      if out.Length > 0 {
        out[0] := '\0';
      }
      return;
    }
    var r := 0;
    while r < |s| && (s[r] == ' ' || s[r] == '\t' || s[r] == '\r')
      invariant 0 <= r <= |s| && Leading(s, 0) == Leading(s, r)
    {
      r := r + 1;
    }
    var newlines, spaces := 0, 0;
    assert out[..0] == "";
    while r < |s| && w + 2 < out.Length
      invariant 0 <= r <= |s| && w < out.Length
      invariant Feed(s, Leading(s, 0), EMPTY, out.Length) == Feed(s, r, Text(out[..w], newlines, spaces), out.Length)
    {
      ghost var t := Text(out[..w], newlines, spaces);
      var c := s[r];
      r := r + 1;
      if c == '\r' {
        continue;
      }
      if c == '\n' {
        w := TrimBack(out, w);
        spaces := 0;
        if newlines < 2 {
          out[w] := '\n';
          w := w + 1;
          newlines := newlines + 1;
        }
        assert Text(out[..w], newlines, spaces) == Put(t, c);
        continue;
      }
      if c == ' ' || c == '\t' {
        if newlines > 0 {
          continue;
        }
        if spaces == 0 {
          out[w] := ' ';
          w := w + 1;
          spaces := spaces + 1;
        }
        assert Text(out[..w], newlines, spaces) == Put(t, c);
        continue;
      }
      newlines := 0;
      spaces := 0;
      out[w] := c;
      w := w + 1;
      assert Text(out[..w], newlines, spaces) == Put(t, c);
    }
    w := TrimBack(out, w);
    out[w] := '\0';
  }
}
