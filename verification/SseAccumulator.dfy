/** Collecting a streamed completion for the response cache: server-sent event lines are put together from
    chunks of any size, and what they say is accumulated (src/core/aigate_core.c:1226-1441,
    src/core/aigate_core_internal.h:31-44). */
module SseAccumulator {
  import opened Options

  const LINE_MAX := 1024 * 1024
  const CONTENT_MAX := 512 * 1024
  const FIRST_CAP := 4096
  const ID_SIZE := 64

  /** What a line's JSON object holds: "id" and "created", and the text at choices[0].delta.content. */
  datatype Delta = Delta(id: Option<string>, created: Option<int>, content: Option<string>)

  // ---------- The meaning of a stream ----------

  /** The complete lines of a text, and the unfinished one. */
  datatype Split = Split(lines: seq<string>, tail: string)

  function SplitLines(text: string): Split {
    if text == "" then Split([], "")
    else
      var r, c := SplitLines(text[..|text| - 1]), text[|text| - 1];
      if c == '\n' then Split(r.lines + [r.tail], "") else Split(r.lines, r.tail + [c])
  }

  /** The part of a buffer that a C string function sees. */
  function CString(s: string): string {
    if s == "" || s[0] == '\0' then "" else [s[0]] + CString(s[1..])
  }

  predicate IsData(line: string) {
    "data: " <= line && line != "data: [DONE]"
  }

  datatype Collected = Collected(id: string, created: int, content: string)

  function Add(parse: string -> Option<Delta>, m: Collected, line: string): Collected {
    var s := CString(line);
    if !IsData(s) then m
    else
      match parse(s[6..])
      case None => m
      case Some(d) =>
        Collected(if m.id == "" && d.id.Some? then Fit(d.id.value) else m.id,
                  if m.created == 0 && d.created.Some? then d.created.value else m.created,
                  if d.content.Some? then m.content + d.content.value else m.content)
  }

  /** snprintf into id[64]. */
  function Fit(id: string): string {
    if |id| < ID_SIZE then id else id[..ID_SIZE - 1]
  }

  function AddAll(parse: string -> Option<Delta>, lines: seq<string>): Collected {
    if lines == [] then Collected("", 0, "")
    else Add(parse, AddAll(parse, lines[..|lines| - 1]), lines[|lines| - 1])
  }

  /** What a whole text says, cut into lines and added up without any limit. */
  function Meaning(parse: string -> Option<Delta>, text: string): Collected {
    AddAll(parse, SplitLines(text).lines)
  }

  /** A line of a MiB or more, finished or not, or 512 KiB or more of content. */
  ghost predicate TooLarge(parse: string -> Option<Delta>, text: string) {
    var s := SplitLines(text);
    || (exists i :: 0 <= i < |s.lines| && |s.lines[i]| >= LINE_MAX)
    || |s.tail| >= LINE_MAX
    || |AddAll(parse, s.lines).content| >= CONTENT_MAX
  }

  lemma SplitChar(text: string, c: char)
    ensures var r := SplitLines(text);
      SplitLines(text + [c]) == if c == '\n' then Split(r.lines + [r.tail], "") else Split(r.lines, r.tail + [c])
  {
    assert (text + [c])[..|text|] == text;
  }

  /** Text without a newline extends the unfinished line. */
  lemma {:induction false} SplitSegment(text: string, seg: string)
    requires '\n' !in seg
    ensures SplitLines(text + seg) == Split(SplitLines(text).lines, SplitLines(text).tail + seg)
  {
    hide SplitLines;
    if seg == "" {
      assert text + seg == text;
    } else {
      var n := |seg| - 1;
      assert seg[n] in seg && forall c :: c in seg[..n] ==> c in seg;
      SplitSegment(text, seg[..n]);
      SplitChar(text + seg[..n], seg[n]);
      assert seg == seg[..n] + [seg[n]];
      assert text + seg[..n] + [seg[n]] == text + seg;
    }
  }

  /** A newline finishes it. */
  lemma SplitNewline(text: string, seg: string)
    requires '\n' !in seg
    ensures var s := SplitLines(text);
      SplitLines(text + (seg + "\n")) == Split(s.lines + [s.tail + seg], "")
  {
    SplitSegment(text, seg);
    SplitChar(text + seg, '\n');
    assert text + (seg + "\n") == text + seg + ['\n'];
  }

  lemma MeaningAtNewline(parse: string -> Option<Delta>, text: string, seg: string)
    requires '\n' !in seg
    ensures var line := SplitLines(text).tail + seg;
      Meaning(parse, text + (seg + "\n")) == Add(parse, Meaning(parse, text), line)
    ensures var line := SplitLines(text).tail + seg;
      TooLarge(parse, text + (seg + "\n"))
      <==> TooLarge(parse, text) || |line| >= LINE_MAX
           || |Add(parse, Meaning(parse, text), line).content| >= CONTENT_MAX
  {
    SplitNewline(text, seg);
    var lines, line := SplitLines(text).lines, SplitLines(text).tail + seg;
    var lines' := lines + [line];
    assert lines'[..|lines|] == lines;
    ContentGrows(parse, AddAll(parse, lines), line);
    LongLineLast(lines, line);
  }

  lemma LongLineLast(lines: seq<string>, line: string)
    ensures var lines' := lines + [line];
      (exists i :: 0 <= i < |lines'| && |lines'[i]| >= LINE_MAX)
      <==> (exists i :: 0 <= i < |lines| && |lines[i]| >= LINE_MAX) || |line| >= LINE_MAX
  {
    var lines' := lines + [line];
    assert lines'[|lines|] == line;
    assert forall i :: 0 <= i < |lines| ==> lines'[i] == lines[i];
  }

  lemma ContentGrows(parse: string -> Option<Delta>, m: Collected, line: string)
    ensures |m.content| <= |Add(parse, m, line).content|
  {}

  lemma MeaningInLine(parse: string -> Option<Delta>, text: string, seg: string)
    requires '\n' !in seg
    ensures Meaning(parse, text + seg) == Meaning(parse, text)
    ensures TooLarge(parse, text + seg)
            <==> TooLarge(parse, text) || |SplitLines(text).tail + seg| >= LINE_MAX
  {
    SplitSegment(text, seg);
  }

  lemma {:induction false} TooLargeStays(parse: string -> Option<Delta>, text: string, more: string)
    requires TooLarge(parse, text)
    ensures TooLarge(parse, text + more)
  {
    if more == "" {
      assert text + more == text;
    } else {
      var n := |more| - 1;
      TooLargeStays(parse, text, more[..n]);
      if more[n] == '\n' {
        MeaningAtNewline(parse, text + more[..n], "");
        assert text + more == text + more[..n] + ("" + "\n");
      } else {
        MeaningInLine(parse, text + more[..n], [more[n]]);
        assert text + more == text + more[..n] + [more[n]];
      }
    }
  }

  // ---------- What is collected ----------

  /** The text up to the first zero byte. */
  lemma {:induction false} CStringIsCut(s: string)
    ensures var c := CString(s);
      c <= s && '\0' !in c && (c == s || s[|c|] == '\0')
  {
    if s != "" && s[0] != '\0' { CStringIsCut(s[1..]); }
  }

  /** The lines again, each with its newline. */
  function Joined(lines: seq<string>): string {
    if lines == [] then "" else lines[0] + "\n" + Joined(lines[1..])
  }

  lemma {:induction false} JoinedNext(lines: seq<string>, line: string)
    ensures Joined(lines + [line]) == Joined(lines) + line + "\n"
  {
    if lines == [] {
      assert Joined([line]) == line + "\n" + Joined([]);
      assert [] + [line] == [line];
    } else {
      JoinedNext(lines[1..], line);
      assert (lines + [line])[1..] == lines[1..] + [line];
    }
  }

  /** Cutting a text at its newlines. */
  lemma {:induction false} LinesExactly(text: string)
    ensures var r := SplitLines(text);
      && text == Joined(r.lines) + r.tail && '\n' !in r.tail
      && forall i :: 0 <= i < |r.lines| ==> '\n' !in r.lines[i]
  {
    if text != "" {
      var n := |text| - 1;
      LinesExactly(text[..n]);
      var r := SplitLines(text[..n]);
      JoinedNext(r.lines, r.tail);
      assert text == text[..n] + [text[n]];
    }
  }

  /** The JSON objects of the data lines that hold one. */
  function Deltas(parse: string -> Option<Delta>, lines: seq<string>): seq<Delta> {
    if lines == [] then []
    else
      var s := CString(lines[0]);
      var d := if "data: " <= s && s != "data: [DONE]" then parse(s[6..]) else None;
      (if d.Some? then [d.value] else []) + Deltas(parse, lines[1..])
  }

  /** Their contents, one after the other. */
  function Contents(ds: seq<Delta>): string {
    if ds == [] then "" else (if ds[0].content.Some? then ds[0].content.value else "") + Contents(ds[1..])
  }

  /** The first id that is not empty, as far as it fits. */
  function FirstId(ds: seq<Delta>): string {
    if ds == [] then ""
    else if ds[0].id.Some? && ds[0].id.value != ""
    then if |ds[0].id.value| <= 63 then ds[0].id.value else ds[0].id.value[..63]
    else FirstId(ds[1..])
  }

  /** The first time that is not zero. */
  function FirstCreated(ds: seq<Delta>): int {
    if ds == [] then 0
    else if ds[0].created.Some? && ds[0].created.value != 0 then ds[0].created.value
    else FirstCreated(ds[1..])
  }

  lemma {:induction false} DeltasNext(parse: string -> Option<Delta>, lines: seq<string>, line: string)
    ensures Deltas(parse, lines + [line]) == Deltas(parse, lines) + Deltas(parse, [line])
  {
    hide CString;
    if lines == [] {
      assert [] + [line] == [line];
    } else {
      DeltasNext(parse, lines[1..], line);
      assert (lines + [line])[1..] == lines[1..] + [line];
    }
  }

  lemma {:induction false} CollectNext(ds: seq<Delta>, d: Delta)
    ensures Contents(ds + [d]) == Contents(ds) + Contents([d])
    ensures FirstId(ds + [d]) == if FirstId(ds) != "" then FirstId(ds) else FirstId([d])
    ensures FirstCreated(ds + [d]) == if FirstCreated(ds) != 0 then FirstCreated(ds) else FirstCreated([d])
  {
    if ds == [] {
      assert [] + [d] == [d];
    } else {
      CollectNext(ds[1..], d);
      assert (ds + [d])[1..] == ds[1..] + [d];
    }
  }

  lemma AddOne(parse: string -> Option<Delta>, m: Collected, line: string)
    ensures var ds := Deltas(parse, [line]);
      Add(parse, m, line)
      == if ds == [] then m
         else Collected(if m.id != "" then m.id else FirstId(ds),
                        if m.created != 0 then m.created else FirstCreated(ds), m.content + Contents(ds))
  {
    hide CString;
    var s := CString(line);
    assert [line][1..] == [] && Deltas(parse, []) == [];
    var ds := Deltas(parse, [line]);
    assert m.content + "" == m.content;
    if ds != [] { assert ds[1..] == []; }
  }

  /** What is collected from the lines: the contents of their objects, in order, and the first id and time. */
  lemma {:induction false} CollectedExactly(parse: string -> Option<Delta>, lines: seq<string>)
    ensures var ds := Deltas(parse, lines);
      AddAll(parse, lines) == Collected(FirstId(ds), FirstCreated(ds), Contents(ds))
  {
    hide Add, Deltas, FirstId, FirstCreated, Contents;
    if lines == [] {
      NothingCollected(parse);
    } else {
      var n := |lines| - 1;
      CollectedExactly(parse, lines[..n]);
      assert lines == lines[..n] + [lines[n]];
      DeltasNext(parse, lines[..n], lines[n]);
      AddOne(parse, AddAll(parse, lines[..n]), lines[n]);
      OneDelta(parse, lines[n]);
      var ds, more := Deltas(parse, lines[..n]), Deltas(parse, [lines[n]]);
      if more != [] { CollectNext(ds, more[0]); } else { assert ds + more == ds; }
    }
  }

  lemma NothingCollected(parse: string -> Option<Delta>)
    ensures Deltas(parse, []) == [] && FirstId([]) == "" && FirstCreated([]) == 0 && Contents([]) == ""
  {}

  lemma OneDelta(parse: string -> Option<Delta>, line: string)
    ensures var ds := Deltas(parse, [line]); ds == [] || ds == [ds[0]]
  {}

  /** When a text is too large, in bytes. */
  lemma TooLargeExactly(parse: string -> Option<Delta>, text: string)
    ensures var r := SplitLines(text);
      TooLarge(parse, text)
      <==> (exists line :: line in r.lines + [r.tail] && |line| >= 1048576)
           || |Contents(Deltas(parse, r.lines))| >= 524288
  {
    hide SplitLines, Contents, Deltas, AddAll;
    var r := SplitLines(text);
    CollectedExactly(parse, r.lines);
    assert r.tail in r.lines + [r.tail];
    forall i | 0 <= i < |r.lines| ensures r.lines[i] in r.lines + [r.tail] {}
  }

  // ---------- Capacities ----------

  /** 4096 doubled any number of times. */
  predicate Doubled(c: nat) {
    c == FIRST_CAP || (c > FIRST_CAP && c % 2 == 0 && Doubled(c / 2))
  }

  lemma {:induction false} DoubledGap(c: nat, m: nat)
    requires Doubled(c) && Doubled(m) && c < m
    ensures 2 * c <= m
  {
    if c > FIRST_CAP { DoubledGap(c / 2, m / 2); }
  }

  lemma DoubledNext(c: nat)
    requires Doubled(c)
    ensures Doubled(2 * c)
  {
    assert (2 * c) / 2 == c;
  }

  lemma LimitsAreDoubled()
    ensures Doubled(LINE_MAX) && Doubled(CONTENT_MAX)
  {
    DoubledNext(4096);
    DoubledNext(8192);
    DoubledNext(16384);
    DoubledNext(32768);
    DoubledNext(65536);
    DoubledNext(131072);
    DoubledNext(262144);
    DoubledNext(524288);
  }

  ghost predicate CapOk(c: nat, max: nat) {
    c == 0 || (Doubled(c) && c <= max)
  }

  /** The doubling loops: a capacity for need, within the limit exactly when need is. */
  method GrowCap(start: nat, need: nat, ghost max: nat) returns (cap: nat)
    requires Doubled(start) && Doubled(max) && (start > max ==> need > max)
    ensures Doubled(cap) && need <= cap
    ensures cap <= max <==> need <= max
  {
    cap := start;
    while cap < need
      invariant Doubled(cap) && (cap > max ==> need > max)
      decreases need - cap
    {
      DoubledNext(cap);
      if cap < max { DoubledGap(cap, max); }
      cap := cap * 2;
    }
  }

  method Resize(buf: array<char>, len: nat, cap: nat) returns (nb: array<char>)
    requires len <= buf.Length <= cap
    ensures fresh(nb) && nb.Length == cap && nb[..len] == buf[..len]
  {
    nb := new char[cap](_ => '\0');
    for i := 0 to len
      invariant nb[..i] == buf[..i]
    {
      nb[i] := buf[i];
    }
  }

  method CopyIn(buf: array<char>, at: nat, s: string)
    requires at + |s| < buf.Length
    modifies buf
    ensures buf[..at + |s|] == old(buf[..at]) + s && buf[at + |s|] == '\0'
  {
    for i := 0 to |s|
      invariant buf[..at + i] == old(buf[..at]) + s[..i]
    {
      buf[at + i] := s[i];
    }
    buf[at + |s|] := '\0';
  }

  method FindNewline(s: string, from: nat) returns (nl: int)
    requires from <= |s|
    ensures nl == -1 ==> '\n' !in s[from..]
    ensures nl != -1 ==> from <= nl < |s| && s[nl] == '\n' && '\n' !in s[from..nl]
  {
    var i := from;
    while i < |s|
      invariant from <= i <= |s| && '\n' !in s[from..i]
    {
      if s[i] == '\n' {
        return i;
      }
      assert s[from..i + 1] == s[from..i] + [s[i]];
      i := i + 1;
    }
    return -1;
  }

  // ---------- The accumulator ----------

  class StreamCacheAcc {
    const parse: string -> Option<Delta>
    var accumContent: array<char>
    var accumLen: nat
    var lineBuf: array<char>
    var lineLen: nat
    var id: string
    var created: int
    var overflow: bool
    /** Everything written so far. */
    ghost var text: string

    ghost predicate Buffers()
      reads this
    {
      && CapOk(lineBuf.Length, LINE_MAX) && CapOk(accumContent.Length, CONTENT_MAX)
      && lineLen <= lineBuf.Length && accumLen <= accumContent.Length
      && lineBuf != accumContent
    }

    ghost function View(): Collected
      requires Buffers()
      reads this, accumContent
    {
      Collected(id, created, accumContent[..accumLen])
    }

    /** The accumulator knows what the text up to here means, or that it is too large. */
    ghost predicate Tracks(t: string)
      requires Buffers()
      reads this, accumContent, lineBuf
    {
      && (overflow <==> TooLarge(parse, t))
      && (!overflow ==> View() == Meaning(parse, t) && lineBuf[..lineLen] == SplitLines(t).tail)
    }

    ghost predicate Valid()
      reads this, accumContent, lineBuf
    {
      Buffers() && Tracks(text)
    }

    constructor (parse: string -> Option<Delta>)
      ensures Valid() && text == "" && this.parse == parse && fresh(accumContent) && fresh(lineBuf)
    {
      this.parse := parse;
      accumContent := new char[0];
      lineBuf := new char[0];
      accumLen, lineLen, id, created, overflow, text := 0, 0, "", 0, false, "";
    }

    /** acc_line_reserve. */
    method LineReserve(need: nat) returns (ok: bool)
      requires Buffers()
      modifies this`lineBuf, this`overflow
      ensures Buffers() && (ok <==> need <= LINE_MAX)
      ensures ok ==> need <= lineBuf.Length && overflow == old(overflow)
      ensures ok ==> lineBuf[..lineLen] == old(lineBuf[..lineLen])
      ensures lineBuf == old(lineBuf) || fresh(lineBuf)
      ensures !ok ==> overflow && lineBuf == old(lineBuf)
    {
      if need <= lineBuf.Length {
        return true;
      }
      LimitsAreDoubled();
      var cap := GrowCap(if lineBuf.Length != 0 then lineBuf.Length else 4096, need, LINE_MAX);
      if cap > 1024 * 1024 {
        overflow := true;
        return false;
      }
      lineBuf := Resize(lineBuf, lineLen, cap);
      return true;
    }

    /** acc_reserve_content. */
    method ReserveContent(extra: nat) returns (ok: bool)
      requires Buffers()
      modifies this`accumContent, this`overflow
      ensures Buffers() && (ok <==> accumLen + extra + 1 <= CONTENT_MAX)
      ensures ok ==> accumLen + extra + 1 <= accumContent.Length && overflow == old(overflow)
      ensures ok ==> accumContent[..accumLen] == old(accumContent[..accumLen])
      ensures accumContent == old(accumContent) || fresh(accumContent)
      ensures !ok ==> overflow && accumContent == old(accumContent)
    {
      if accumLen + extra + 1 <= accumContent.Length {
        return true;
      }
      LimitsAreDoubled();
      if accumContent.Length != 0 {
        DoubledNext(accumContent.Length);
        if accumContent.Length < CONTENT_MAX { DoubledGap(accumContent.Length, CONTENT_MAX); }
      }
      var start := if accumContent.Length != 0 then accumContent.Length * 2 else 4096;
      var newCap := GrowCap(start, accumLen + extra + 1, CONTENT_MAX);
      if newCap > 512 * 1024 {
        overflow := true;
        return false;
      }
      accumContent := Resize(accumContent, accumLen, newCap);
      return true;
    }

    /** Append to the collected content, if there is room. */
    method AppendContent(more: string)
      requires Buffers()
      modifies this`accumContent, this`accumLen, this`overflow, accumContent
      ensures Buffers() && (accumContent == old(accumContent) || fresh(accumContent))
      ensures old(overflow) ==> overflow
      ensures !old(overflow) ==> (overflow <==> more != "" && old(accumLen) + |more| >= CONTENT_MAX)
      ensures !overflow ==> accumContent[..accumLen] == old(accumContent[..accumLen]) + more
    {
      if more == "" {
        return;
      }
      var ok := ReserveContent(|more|);
      if ok && !overflow {
        CopyIn(accumContent, accumLen, more);
        accumLen := accumLen + |more|;
      }
    }

    /** accumulate_sse_line. */
    method AccumulateLine(buf: string)
      requires Buffers() && (!overflow ==> accumLen < CONTENT_MAX)
      modifies this`id, this`created, this`accumContent, this`accumLen, this`overflow, accumContent
      ensures Buffers() && (accumContent == old(accumContent) || fresh(accumContent))
      ensures old(overflow) ==> overflow
      ensures !old(overflow) ==> (overflow <==> |Add(parse, old(View()), buf).content| >= CONTENT_MAX)
      ensures !overflow ==> View() == Add(parse, old(View()), buf)
    {
      var line := CString(buf);
      if "data: " <= line && line != "data: [DONE]" {
        var root := parse(line[6..]);
        if root.Some? {
          if id == "" && root.value.id.Some? {
            id := Fit(root.value.id.value);
          }
          if created == 0 && root.value.created.Some? {
            created := root.value.created.value;
          }
          if root.value.content.Some? {
            AppendContent(root.value.content.value);
          }
        }
      }
    }

    /** The end of a line has come. */
    method EndLine(seg: string, ghost t: string)
      requires Buffers() && Tracks(t) && '\n' !in seg
      modifies this`id, this`created, this`accumContent, this`accumLen, this`lineBuf, this`lineLen, this`overflow,
        accumContent, lineBuf
      ensures Buffers() && Tracks(t + (seg + "\n"))
      ensures (accumContent == old(accumContent) || fresh(accumContent)) && (lineBuf == old(lineBuf) || fresh(lineBuf))
    {
      hide Meaning, TooLarge, Add, SplitLines;
      MeaningAtNewline(parse, t, seg);
      ContentFits(parse, t);
      SplitNewline(t, seg);
      var ok := LineReserve(lineLen + |seg| + 1);
      if ok {
        CopyIn(lineBuf, lineLen, seg);
        lineLen := lineLen + |seg|;
        AccumulateLine(lineBuf[..lineLen]);
      }
      lineLen := 0;
    }

    /** A chunk ends within a line. */
    method KeepPart(seg: string, ghost t: string)
      requires Buffers() && Tracks(t) && '\n' !in seg
      modifies this`lineBuf, this`lineLen, this`overflow, lineBuf
      ensures Buffers() && Tracks(t + seg)
      ensures lineBuf == old(lineBuf) || fresh(lineBuf)
    {
      hide Meaning, TooLarge, SplitLines;
      MeaningInLine(parse, t, seg);
      SplitSegment(t, seg);
      ContentFits(parse, t);
      var ok := LineReserve(lineLen + |seg| + 1);
      if ok {
        CopyIn(lineBuf, lineLen, seg);
        lineLen := lineLen + |seg|;
      } else {
        lineLen := 0;
      }
    }

    /** The accumulating half of stream_cache_acc_write. */
    method Write(chunk: string)
      requires Valid()
      modifies this, accumContent, lineBuf
      ensures Valid() && text == old(text) + chunk
      ensures (accumContent == old(accumContent) || fresh(accumContent)) && (lineBuf == old(lineBuf) || fresh(lineBuf))
    {
      hide Meaning, TooLarge, SplitLines;
      ghost var before := text;
      text := text + chunk;
      if |chunk| == 0 || overflow {
        if overflow { TooLargeStays(parse, before, chunk); }
        assert chunk == "" ==> before + chunk == before;
        return;
      }
      var p := 0;
      assert before + chunk[..0] == before;
      while p < |chunk|
        invariant 0 <= p <= |chunk| && Buffers() && Tracks(before + chunk[..p])
        invariant text == before + chunk
        invariant accumContent == old(accumContent) || fresh(accumContent)
        invariant lineBuf == old(lineBuf) || fresh(lineBuf)
      {
        var nl := FindNewline(chunk, p);
        if nl != -1 {
          EndLine(chunk[p..nl], before + chunk[..p]);
          assert before + chunk[..p] + (chunk[p..nl] + "\n") == before + chunk[..nl + 1];
          p := nl + 1;
        } else {
          KeepPart(chunk[p..], before + chunk[..p]);
          assert before + chunk[..p] + chunk[p..] == before + chunk[..|chunk|];
          p := |chunk|;
        }
      }
      assert before + chunk[..|chunk|] == before + chunk;
    }
  }

  lemma ContentFits(parse: string -> Option<Delta>, t: string)
    ensures !TooLarge(parse, t) ==> |Meaning(parse, t).content| < CONTENT_MAX && |SplitLines(t).tail| < LINE_MAX
  {}
}
