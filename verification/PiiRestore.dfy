/** Restoring placeholders in a response (src/policy/guardrails.c:2094-2181) and in a stream of chunks
    through a small window (2183-2322). */
module PiiRestore {
  import opened Options
  import opened Decimal
  import opened PiiTokens

  const WINDOW := 32

  /** What the bracket scan finds after a '[': the closing bracket, a character no placeholder has,
      or neither within the window or the text. */
  datatype Scan = Closed(at: nat) | Broken | Open

  function ScanFrom(s: string, k: nat): (r: Scan)
    ensures r.Closed? ==> k <= r.at < |s| && r.at < WINDOW && s[r.at] == ']'
    decreases |s| - k
  {
    if k >= WINDOW || k >= |s| then Open
    else if s[k] == ']' then Closed(k)
    else if !IsWordChar(s[k]) then Broken
    else ScanFrom(s, k + 1)
  }

  /** The original behind a placeholder that starts here, and the placeholder's length. */
  function TokenAt(es: seq<PiiEntry>, s: string): (r: Option<(string, nat)>)
    ensures r.Some? ==> 2 <= r.value.1 <= |s| && s[0] == '['
  {
    if s == "" || s[0] != '[' then None
    else
      match ScanFrom(s, 1)
      case Closed(at) =>
        (match FindPlaceholder(es, s[..at + 1])
         case Some(original) => Some((original, at + 1))
         case None => None)
      case _ => None
  }

  /** The restored text: every placeholder of the session replaced, the rest as it is. */
  function Restore(es: seq<PiiEntry>, s: string): string {
    if s == "" then ""
    else
      match TokenAt(es, s)
      case Some(t) => t.0 + Restore(es, s[t.1..])
      case None => [s[0]] + Restore(es, s[1..])
  }

  ghost predicate TokenFree(es: seq<PiiEntry>, s: string) {
    forall i {:trigger s[i..]} :: 0 <= i <= |s| ==> TokenAt(es, s[i..]).None?
  }

  lemma {:induction false} RestoreTokenFree(es: seq<PiiEntry>, s: string)
    requires TokenFree(es, s)
    ensures Restore(es, s) == s
  {
    if s != "" {
      assert s[0..] == s;
      forall i | 0 <= i <= |s[1..]| ensures TokenAt(es, s[1..][i..]).None? {
        assert s[1..][i..] == s[i + 1..];
      }
      RestoreTokenFree(es, s[1..]);
    }
  }

  // ---------- The whole-text restorer ----------

  /** guardrails_restore_pii_text: NULL (None) when no placeholder of the session occurs, otherwise the
      restored text. */
  method RestoreText(es: seq<PiiEntry>, text: string) returns (r: Option<string>)
    ensures r.Some? ==> r.value == Restore(es, text) && !TokenFree(es, text)
    ensures r.None? ==> TokenFree(es, text) && Restore(es, text) == text
  {
    hide Restore, TokenAt;
    if |text| == 0 || |es| == 0 {
      EmptyMapOrText(es, text);
      return None;
    }
    var out := "";
    var changed := false;
    var i := 0;
    assert text[0..] == text;
    while i < |text|
      invariant 0 <= i <= |text|
      invariant out + Restore(es, text[i..]) == Restore(es, text)
      invariant changed ==> !TokenFree(es, text)
      invariant !changed ==> forall k {:trigger text[k..]} :: 0 <= k < i ==> TokenAt(es, text[k..]).None?
    {
      RestoreAt(es, text, i);
      if text[i] == '[' {
        var orig, closeIdx := TokenFrom(es, text, i);
        if orig.Some? {
          out := out + orig.value;
          changed := true;
          i := closeIdx + 1;
          continue;
        }
      } else {
        NoBracketNoToken(es, text[i..]);
      }
      out := out + [text[i]];
      i := i + 1;
    }
    assert text[|text|..] == "";
    EmptyMapOrText(es, "");
    if changed {
      return Some(out);
    }
    assert TokenFree(es, text) by { assert ""[0..] == ""; }
    RestoreTokenFree(es, text);
    return None;
  }

  lemma RestoreAt(es: seq<PiiEntry>, text: string, i: nat)
    requires i < |text|
    ensures match TokenAt(es, text[i..])
      case Some(t) => i + t.1 <= |text| && Restore(es, text[i..]) == t.0 + Restore(es, text[i + t.1..])
      case None => Restore(es, text[i..]) == [text[i]] + Restore(es, text[i + 1..])
  {
    var rest := text[i..];
    assert forall d :: 0 <= d <= |rest| ==> rest[d..] == text[i + d..];
  }

  lemma NoBracketNoToken(es: seq<PiiEntry>, s: string)
    requires s != "" && s[0] != '['
    ensures TokenAt(es, s).None?
  {}

  /** The token that starts at the bracket text[i], if the session issued it. */
  method TokenFrom(es: seq<PiiEntry>, text: string, i: nat) returns (orig: Option<string>, closeIdx: int)
    requires i < |text| && text[i] == '['
    ensures match TokenAt(es, text[i..])
      case Some(t) => orig == Some(t.0) && closeIdx == i + t.1 - 1
      case None => orig == None
  {
    closeIdx := ScanText(text, i);
    orig := None;
    if closeIdx >= 0 {
      var tok := text[i..closeIdx + 1];
      assert tok == text[i..][..closeIdx - i + 1];
      orig := FindPlaceholder(es, tok);
    }
  }

  /** The bracket scan of the restorer: the index of the closing bracket, or -1. */
  method ScanText(text: string, i: nat) returns (closeIdx: int)
    requires i < |text|
    ensures match ScanFrom(text[i..], 1)
      case Closed(at) => closeIdx == i + at
      case _ => closeIdx == -1
  {
    var k := 1;
    ghost var rest := text[i..];
    while k < 32 && i + k < |text|
      invariant 1 <= k <= 32 && i + k <= |text|
      invariant ScanFrom(rest, 1) == ScanFrom(rest, k)
    {
      var ch := text[i + k];
      assert ch == rest[k];
      if ch == ']' {
        return i + k;
      }
      if !IsWordChar(ch) {
        return -1;
      }
      k := k + 1;
    }
    return -1;
  }

  lemma EmptyMapOrText(es: seq<PiiEntry>, text: string)
    requires text == "" || es == []
    ensures TokenFree(es, text) && Restore(es, text) == text
  {
    RestoreTokenFree(es, text);
  }

  // ---------- The stream filter ----------

  /** What one feed emits, and what it keeps in the window. */
  datatype Fed = Fed(out: string, held: string)

  function Filtered(es: seq<PiiEntry>, s: string): Fed {
    if s == "" then Fed("", "")
    else if s[0] != '[' then Emit([s[0]], Filtered(es, s[1..]))
    else
      match ScanFrom(s, 1)
      case Closed(at) =>
        (match FindPlaceholder(es, s[..at + 1])
         case Some(original) => Emit(original, Filtered(es, s[at + 1..]))
         case None => Emit([s[0]], Filtered(es, s[1..])))
      case Broken => Emit([s[0]], Filtered(es, s[1..]))
      case Open => if |s| < WINDOW then Fed("", s) else Emit([s[0]], Filtered(es, s[1..]))
  }

  function Emit(text: string, rest: Fed): Fed {
    Fed(text + rest.out, rest.held)
  }

  /** A window holds nothing, or the open beginning of a placeholder. */
  ghost predicate Held(w: string) {
    w == "" || (w[0] == '[' && |w| < WINDOW && ScanFrom(w, 1) == Open)
  }

  lemma {:induction false} FeedHolds(es: seq<PiiEntry>, s: string)
    ensures Held(Filtered(es, s).held)
    decreases |s|
  {
    if s != "" {
      FeedHolds(es, s[1..]);
      var r := ScanFrom(s, 1);
      if s[0] == '[' && r.Closed? {
        FeedHolds(es, s[r.at + 1..]);
      }
    }
  }

  /** A scan that has reached its verdict does not change it when more text arrives. */
  lemma {:induction false} ScanStable(s: string, f: string, k: nat)
    requires ScanFrom(s, k) != Open || |s| >= WINDOW
    ensures ScanFrom(s + f, k) == ScanFrom(s, k)
    decreases WINDOW - k
  {
    if k < WINDOW && k < |s| && s[k] != ']' && IsWordChar(s[k]) {
      ScanStable(s, f, k + 1);
    }
  }

  ghost predicate MustWait(s: string) {
    s != "" && s[0] == '[' && |s| < WINDOW && ScanFrom(s, 1) == Open
  }

  /** What is emitted at the start of s, and how many characters it stands for. */
  ghost function Head(es: seq<PiiEntry>, s: string): (h: (string, nat))
    requires s != ""
    ensures 1 <= h.1 <= |s|
  {
    match TokenAt(es, s)
    case Some(t) => t
    case None => ([s[0]], 1)
  }

  lemma FilteredHead(es: seq<PiiEntry>, s: string)
    requires s != ""
    ensures Filtered(es, s) == if MustWait(s) then Fed("", s)
                               else Emit(Head(es, s).0, Filtered(es, s[Head(es, s).1..]))
  {}

  lemma RestoreHead(es: seq<PiiEntry>, s: string, f: string)
    requires s != "" && !MustWait(s)
    ensures Restore(es, s + f) == Head(es, s).0 + Restore(es, s[Head(es, s).1..] + f)
  {
    if s[0] == '[' {
      ScanStable(s, f, 1);
      var r := ScanFrom(s, 1);
      if r.Closed? { assert (s + f)[..r.at + 1] == s[..r.at + 1]; }
    }
    assert TokenAt(es, s + f) == TokenAt(es, s);
    assert (s + f)[Head(es, s).1..] == s[Head(es, s).1..] + f;
  }

  /** Whatever follows, feeding s now and restoring the window and the rest later restores it all. */
  lemma {:induction false} FeedIsRestoreSoFar(es: seq<PiiEntry>, s: string, f: string)
    ensures Filtered(es, s).out + Restore(es, Filtered(es, s).held + f) == Restore(es, s + f)
    decreases |s|
  {
    hide Filtered, Restore, Head, MustWait;
    if s == "" {
      FilteredEmpty(es);
      assert "" + f == f && forall r: string :: "" + r == r;
    } else {
      FilteredHead(es, s);
      if !MustWait(s) {
        var h := Head(es, s);
        RestoreHead(es, s, f);
        FeedIsRestoreSoFar(es, s[h.1..], f);
        var rest := Filtered(es, s[h.1..]);
        assert h.0 + rest.out + Restore(es, rest.held + f) == h.0 + (rest.out + Restore(es, rest.held + f));
      } else {
        assert "" + Restore(es, s + f) == Restore(es, s + f);
      }
    }
  }

  /** guardrails_stream_filter_feed on a window and a chunk. Without placeholders to look for, the
      chunk passes through. */
  function FeedChunk(es: seq<PiiEntry>, held: string, chunk: string): Fed {
    if es == [] then Fed(chunk, held)
    else if chunk == "" then Fed("", held)
    else Filtered(es, held + chunk)
  }

  function Flatten(chunks: seq<string>): string {
    if chunks == [] then "" else chunks[0] + Flatten(chunks[1..])
  }

  /** Everything emitted for a window and a list of chunks, the final flush included. */
  function Stream(es: seq<PiiEntry>, held: string, chunks: seq<string>): string
    decreases |chunks|
  {
    if chunks == [] then held
    else
      var fed := FeedChunk(es, held, chunks[0]);
      fed.out + Stream(es, fed.held, chunks[1..])
  }

  lemma {:induction false} HeldIsLiteral(es: seq<PiiEntry>, w: string)
    requires Held(w)
    ensures Restore(es, w) == w
  {
    if w != "" {
      assert w[0..] == w;
      OpenHasOnlyWordChars(w, 1);
      forall i | 0 <= i <= |w| ensures TokenAt(es, w[i..]).None? {}
      RestoreTokenFree(es, w);
    }
  }

  lemma {:induction false} OpenHasOnlyWordChars(w: string, k: nat)
    requires |w| < WINDOW && ScanFrom(w, k) == Open
    ensures forall i :: k <= i < |w| ==> IsWordChar(w[i])
    decreases WINDOW - k
  {
    if k < |w| { OpenHasOnlyWordChars(w, k + 1); }
  }

  ghost predicate WindowOk(es: seq<PiiEntry>, held: string) {
    Held(held) && (es == [] ==> held == "")
  }

  lemma FeedChunkOk(es: seq<PiiEntry>, held: string, chunk: string, rest: string)
    requires WindowOk(es, held)
    ensures var fed := FeedChunk(es, held, chunk);
      WindowOk(es, fed.held) && fed.out + Restore(es, fed.held + rest) == Restore(es, held + chunk + rest)
  {
    hide Filtered, Restore, Held;
    if es == [] {
      EmptyMapOrText(es, rest);
      EmptyMapOrText(es, chunk + rest);
      assert held + chunk + rest == chunk + rest && "" + rest == rest;
    } else if chunk == "" {
      assert held + chunk + rest == held + rest;
    } else {
      FeedHolds(es, held + chunk);
      FeedIsRestoreSoFar(es, held + chunk, rest);
    }
  }

  /** For every way of cutting a text into chunks, streaming emits what the whole-text restorer gives. */
  lemma {:induction false} StreamIsRestore(es: seq<PiiEntry>, held: string, chunks: seq<string>)
    requires WindowOk(es, held)
    ensures Stream(es, held, chunks) == Restore(es, held + Flatten(chunks))
    decreases |chunks|
  {
    hide FeedChunk, Restore, Held;
    if chunks == [] {
      HeldIsLiteral(es, held);
      assert held + "" == held;
    } else {
      var fed := FeedChunk(es, held, chunks[0]);
      var rest := Flatten(chunks[1..]);
      FeedChunkOk(es, held, chunks[0], rest);
      StreamIsRestore(es, fed.held, chunks[1..]);
      assert held + chunks[0] + rest == held + Flatten(chunks);
    }
  }

  /** From an empty window: two ways of cutting the same text emit the same. */
  lemma CutsDoNotMatter(es: seq<PiiEntry>, chunks: seq<string>, chunks': seq<string>)
    requires Flatten(chunks) == Flatten(chunks')
    ensures Stream(es, "", chunks) == Stream(es, "", chunks') == Restore(es, Flatten(chunks))
  {
    StreamIsRestore(es, "", chunks);
    StreamIsRestore(es, "", chunks');
    assert "" + Flatten(chunks) == Flatten(chunks);
  }

  // ---------- The stream filter as an object ----------

  /** The first cells of out hold as much of text as fits. */
  ghost predicate Holds(out: seq<char>, n: nat, text: string) {
    n <= |out| && n == (if |text| < |out| then |text| else |out|) && out[..n] == text[..n]
  }

  /** Append to the output buffer while there is room. */
  method Append(out: array<char>, outLen: nat, more: string, ghost text: string) returns (n: nat)
    requires Holds(out[..], outLen, text)
    modifies out
    ensures Holds(out[..], n, text + more)
  {
    n := outLen;
    var o := 0;
    assert text + more[..0] == text;
    while o < |more| && n < out.Length
      invariant 0 <= o <= |more| && Holds(out[..], n, text + more[..o])
    {
      assert text + more[..o + 1] == text + more[..o] + [more[o]];
      out[n] := more[o];
      n := n + 1;
      o := o + 1;
    }
    assert more[..|more|] == more;
    assert o < |more| ==> (text + more)[..n] == (text + more[..o])[..n];
  }

  class PiiStreamFilter {
    const es: seq<PiiEntry>
    const win: array<char>
    var winLen: nat

    ghost predicate Valid()
      reads this, win
    {
      win.Length == WINDOW && winLen < WINDOW && WindowOk(es, win[..winLen])
    }

    ghost function Window(): string
      requires winLen <= win.Length
      reads this, win
    {
      win[..winLen]
    }

    constructor (es: seq<PiiEntry>)
      ensures Valid() && Window() == "" && this.es == es && fresh(win)
    {
      this.es := es;
      win := new char[WINDOW](_ => ' ');
      winLen := 0;
    }

    /** guardrails_stream_filter_feed. An output buffer of no size drops the chunk; otherwise as much of
        the emitted text is written as fits. */
    method Feed(chunk: string, out: array<char>) returns (outLen: nat)
      requires Valid() && out != win
      modifies this`winLen, win, out
      ensures Valid()
      ensures out.Length == 0 ==> outLen == 0 && Window() == old(Window())
      ensures out.Length > 0 ==> var fed := FeedChunk(es, old(Window()), chunk);
        Window() == fed.held && Holds(out[..], outLen, fed.out)
    {
      outLen := 0;
      if out.Length == 0 {
        return;
      }
      if |chunk| == 0 {
        return;
      }
      if |es| == 0 {
        outLen := Append(out, 0, chunk, "");
        assert "" + chunk == chunk;
        return;
      }
      FeedChunkOk(es, Window(), chunk, "");
      outLen := FilterLoop(chunk, out);
    }

    /** The loop of guardrails_stream_filter_feed over the window followed by the chunk. */
    method FilterLoop(chunk: string, out: array<char>) returns (outLen: nat)
      requires win.Length == WINDOW && winLen < WINDOW && out != win
      modifies this`winLen, win, out
      ensures winLen < WINDOW
      ensures var fed := Filtered(es, old(Window()) + chunk);
        Window() == fed.held && Holds(out[..], outLen, fed.out)
    {
      hide Filtered, ScanFrom;
      ghost var s := win[..winLen] + chunk;
      var oldWin := win[..winLen];
      var total := winLen + |chunk|;
      winLen := 0;
      outLen := 0;
      ghost var text := "";
      var i := 0;
      assert s[0..] == s;
      assert Emit("", Filtered(es, s)) == Filtered(es, s) by { assert "" + Filtered(es, s).out == Filtered(es, s).out; }
      while i < total
        invariant 0 <= i <= total == |s| && s == oldWin + chunk && winLen == 0
        invariant Holds(out[..], outLen, text)
        invariant Filtered(es, s) == Emit(text, Filtered(es, s[i..]))
      {
        var emitted, step := Decide(es, oldWin, chunk, i);
        if step == 0 {
          Keep(oldWin, chunk, i);
          assert text + "" == text;
          return;
        }
        assert s[i..][step..] == s[i + step..];
        outLen := Append(out, outLen, emitted, text);
        EmitTwice(text, emitted, Filtered(es, s[i + step..]));
        text := text + emitted;
        i := i + step;
      }
      assert s[|s|..] == "";
      FilteredEmpty(es);
      assert text + "" == text;
    }

    /** Put the unfinished placeholder into the window. */
    method Keep(oldWin: string, chunk: string, i: nat)
      requires win.Length == WINDOW && i < |oldWin + chunk| && |oldWin + chunk| - i < WINDOW
      modifies this`winLen, win
      ensures winLen == |oldWin + chunk| - i && win[..winLen] == (oldWin + chunk)[i..]
    {
      ghost var s := oldWin + chunk;
      winLen := |oldWin| + |chunk| - i;
      for t := 0 to winLen
        invariant winLen == |s| - i && win[..t] == s[i..i + t]
      {
        win[t] := if i + t < |oldWin| then oldWin[i + t] else chunk[i + t - |oldWin|];
      }
    }

    /** guardrails_stream_filter_flush. */
    method Flush(out: array<char>) returns (outLen: nat)
      requires Valid() && out != win
      modifies this`winLen, out
      ensures Valid()
      ensures out.Length == 0 ==> outLen == 0 && Window() == old(Window())
      ensures out.Length > 0 ==> Window() == "" && Holds(out[..], outLen, old(Window()))
    {
      outLen := 0;
      if out.Length == 0 {
        return;
      }
      if winLen > 0 {
        assert "" + win[..winLen] == win[..winLen];
        outLen := Append(out, 0, win[..winLen], "");
        winLen := 0;
      }
    }
  }

  /** The scan over the window followed by the chunk. */
  method ScanWindow(oldWin: string, chunk: string, i: nat) returns (r: Scan)
    requires i < |oldWin + chunk|
    ensures r == ScanFrom((oldWin + chunk)[i..], 1)
  {
    var k := 1;
    var total := |oldWin| + |chunk|;
    ghost var rest := (oldWin + chunk)[i..];
    while k < 32 && i + k < total
      invariant 1 <= k <= 32 && i + k <= total
      invariant ScanFrom(rest, 1) == ScanFrom(rest, k)
    {
      var ch := if i + k < |oldWin| then oldWin[i + k] else chunk[i + k - |oldWin|];
      assert ch == rest[k];
      if ch == ']' {
        return Closed(k);
      }
      if !IsWordChar(ch) {
        return Broken;
      }
      k := k + 1;
    }
    return Open;
  }

  lemma FilteredEmpty(es: seq<PiiEntry>)
    ensures Filtered(es, "") == Fed("", "")
  {}

  /** What happens at position i: emit something and move on, or (step 0) keep the rest for later. */
  method Decide(es: seq<PiiEntry>, oldWin: string, chunk: string, i: nat) returns (emitted: string, step: nat)
    requires i < |oldWin + chunk|
    ensures var rest := (oldWin + chunk)[i..];
      if step == 0 then |rest| < WINDOW && Filtered(es, rest) == Fed("", rest)
      else step <= |rest| && Filtered(es, rest) == Emit(emitted, Filtered(es, rest[step..]))
  {
    ghost var rest := (oldWin + chunk)[i..];
    var c := if i < |oldWin| then oldWin[i] else chunk[i - |oldWin|];
    emitted, step := [c], 1;
    if c == '[' {
      var scan := ScanWindow(oldWin, chunk, i);
      if scan.Closed? {
        var tok := (oldWin + chunk)[i..i + scan.at + 1];
        assert tok == rest[..scan.at + 1];
        var orig := FindPlaceholder(es, tok);
        if orig.Some? {
          emitted, step := orig.value, scan.at + 1;
        }
      } else if scan.Open? && |oldWin| + |chunk| - i < WINDOW {
        step := 0;
      }
    }
  }

  lemma EmitTwice(a: string, b: string, rest: Fed)
    ensures Emit(a, Emit(b, rest)) == Emit(a + b, rest)
  {}

  // ---------- Output buffers ----------

  const CALLER_SLACK := 128
  const FLUSH_SIZE := 64

  function Clip(s: string, size: nat): string {
    if |s| <= size then s else s[..size]
  }

  /** A chunk, and the size of the buffer its text is written to. */
  datatype Piece = Piece(chunk: string, size: nat)

  function Chunks(pieces: seq<Piece>): seq<string> {
    seq(|pieces|, i requires 0 <= i < |pieces| => pieces[i].chunk)
  }

  /** The bytes that reach the buffers. A buffer of no size drops its chunk. */
  function Written(es: seq<PiiEntry>, held: string, pieces: seq<Piece>, flushSize: nat): string
    decreases |pieces|
  {
    if pieces == [] then Clip(held, flushSize)
    else if pieces[0].size == 0 then Written(es, held, pieces[1..], flushSize)
    else
      var fed := FeedChunk(es, held, pieces[0].chunk);
      Clip(fed.out, pieces[0].size) + Written(es, fed.held, pieces[1..], flushSize)
  }

  /** Every feed and the flush fit their buffers. */
  predicate Fits(es: seq<PiiEntry>, held: string, pieces: seq<Piece>, flushSize: nat)
    decreases |pieces|
  {
    if pieces == [] then |held| <= flushSize
    else
      var fed := FeedChunk(es, held, pieces[0].chunk);
      |fed.out| <= pieces[0].size && Fits(es, fed.held, pieces[1..], flushSize)
  }

  lemma {:induction false} WrittenAgainstStream(es: seq<PiiEntry>, held: string, pieces: seq<Piece>, flushSize: nat)
    requires forall p :: p in pieces ==> p.size > 0
    ensures var w, s := Written(es, held, pieces, flushSize), Stream(es, held, Chunks(pieces));
      |w| <= |s| && if Fits(es, held, pieces, flushSize) then w == s else |w| < |s|
    decreases |pieces|
  {
    hide FeedChunk;
    if pieces != [] {
      var fed := FeedChunk(es, held, pieces[0].chunk);
      assert Chunks(pieces)[1..] == Chunks(pieces[1..]) && pieces[0] in pieces;
      WrittenAgainstStream(es, fed.held, pieces[1..], flushSize);
    }
  }

  /** With buffers of any sizes but 0: what is written is the restored whole exactly when each feed's text and
      the flush fit. */
  lemma WrittenExactly(es: seq<PiiEntry>, held: string, pieces: seq<Piece>, flushSize: nat)
    requires WindowOk(es, held) && forall p :: p in pieces ==> p.size > 0
    ensures Written(es, held, pieces, flushSize) == Restore(es, held + Flatten(Chunks(pieces)))
            <==> Fits(es, held, pieces, flushSize)
  {
    WrittenAgainstStream(es, held, pieces, flushSize);
    StreamIsRestore(es, held, Chunks(pieces));
  }

  /** The sizes the response path chooses: 128 more than the chunk has. */
  function CallerPieces(chunks: seq<string>): (pieces: seq<Piece>)
    ensures Chunks(pieces) == chunks && forall p :: p in pieces ==> p.size > 0
  {
    seq(|chunks|, i requires 0 <= i < |chunks| => Piece(chunks[i], |chunks[i]| + CALLER_SLACK))
  }

  /** The streaming half of stream_cache_acc_write: filter into a buffer of its own for each chunk, and with
      the last one flush into a buffer of 64. */
  method ForwardChunk(sf: PiiStreamFilter, chunk: string, fin: bool) returns (sent: string)
    requires sf.Valid()
    modifies sf`winLen, sf.win
    ensures sf.Valid()
    ensures var fed := FeedChunk(sf.es, old(sf.Window()), chunk);
      && sent == Clip(fed.out, |chunk| + CALLER_SLACK) + (if fin then Clip(fed.held, FLUSH_SIZE) else "")
      && sf.Window() == if fin then "" else fed.held
  {
    hide FeedChunk, Held;
    var out := new char[|chunk| + CALLER_SLACK];
    var n := sf.Feed(chunk, out);
    sent := out[..n];
    ghost var fed := FeedChunk(sf.es, old(sf.Window()), chunk);
    assert sent == Clip(fed.out, out.Length);
    if fin && sf.winLen > 0 {
      var last := new char[FLUSH_SIZE];
      var m := sf.Flush(last);
      sent := sent + last[..m];
    }
  }

  // ---------- When the buffers are large enough ----------

  function Closers(s: string): nat {
    multiset(s)[']']
  }

  lemma ClosersSplit(s: string, k: nat)
    requires k <= |s|
    ensures Closers(s) == Closers(s[..k]) + Closers(s[k..])
  {
    assert s == s[..k] + s[k..];
  }

  /** Originals have at most m characters, and placeholders at least k. */
  ghost predicate SizesWithin(es: seq<PiiEntry>, k: nat, m: nat) {
    forall e :: e in es ==> |e.original| <= m && |e.placeholder| >= k
  }

  lemma HeadGrowth(es: seq<PiiEntry>, s: string, k: nat, m: nat)
    requires s != "" && k <= m && SizesWithin(es, k, m)
    ensures var h := Head(es, s);
      |h.0| <= h.1 + m - k && (|h.0| <= h.1 || Closers(s[..h.1]) >= 1)
  {
    if TokenAt(es, s).Some? {
      var n := TokenAt(es, s).value.1;
      assert s[..n][n - 1] == ']';
      var e :| e in es && e.placeholder == s[..n] && e.original == TokenAt(es, s).value.0;
    }
  }

  /** Every placeholder ends in a ']', and restoring it adds at most m - k characters. */
  lemma {:induction false} GrowthBound(es: seq<PiiEntry>, s: string, k: nat, m: nat)
    requires k <= m && SizesWithin(es, k, m)
    ensures |Filtered(es, s).out| + |Filtered(es, s).held| <= |s| + Growth(m - k, Closers(s))
    decreases |s|
  {
    hide Filtered, Head, MustWait, Closers, SizesWithin, Growth;
    if s == "" {
      FilteredEmpty(es);
    } else {
      FilteredHead(es, s);
      if !MustWait(s) {
        var h := Head(es, s);
        HeadGrowth(es, s, k, m);
        GrowthBound(es, s[h.1..], k, m);
        ClosersSplit(s, h.1);
        GrowthAdds(m - k, Closers(s[..h.1]), Closers(s[h.1..]));
      }
    }
  }

  /** What n placeholders can add. */
  function Growth(g: nat, n: nat): nat {
    g * n
  }

  lemma GrowthAdds(g: nat, a: nat, b: nat)
    ensures Growth(g, a + b) == Growth(g, a) + Growth(g, b)
    ensures a >= 1 ==> Growth(g, a) >= g
  {}

  lemma HeldHasNoCloser(w: string)
    requires Held(w)
    ensures Closers(w) == 0 && |w| < WINDOW
  {
    if w != "" {
      OpenHasOnlyWordChars(w, 1);
      assert forall i :: 0 <= i < |w| ==> w[i] != ']';
    }
  }

  /** Known before anything is fed: the response path's buffers suffice when no chunk has so many ']' that
      restoring a placeholder at each would add more than 97 characters. */
  lemma {:induction false} SmallGrowthFits(es: seq<PiiEntry>, held: string, chunks: seq<string>, k: nat, m: nat)
    requires WindowOk(es, held) && k <= m && SizesWithin(es, k, m)
    requires forall c :: c in chunks ==> WINDOW - 1 + Growth(m - k, Closers(c)) <= CALLER_SLACK
    ensures Fits(es, held, CallerPieces(chunks), FLUSH_SIZE)
    decreases |chunks|
  {
    hide FeedChunk, Closers, Held, SizesWithin, Growth;
    HeldHasNoCloser(held);
    if chunks != [] {
      var c := chunks[0];
      assert c in chunks;
      FeedGrowth(es, held, c, k, m);
      FeedChunkOk(es, held, c, "");
      assert CallerPieces(chunks)[1..] == CallerPieces(chunks[1..]);
      SmallGrowthFits(es, FeedChunk(es, held, c).held, chunks[1..], k, m);
    }
  }

  lemma FeedGrowth(es: seq<PiiEntry>, held: string, c: string, k: nat, m: nat)
    requires WindowOk(es, held) && k <= m && SizesWithin(es, k, m)
    ensures |FeedChunk(es, held, c).out| <= |held| + |c| + Growth(m - k, Closers(c))
  {
    hide Closers, Filtered, Growth;
    if es != [] && c != "" {
      GrowthBound(es, held + c, k, m);
      HeldHasNoCloser(held);
      ClosersSplit(held + c, |held|);
      assert (held + c)[..|held|] == held && (held + c)[|held|..] == c;
    }
  }

  /** From an empty window, in buffers of the response path's sizes. */
  lemma CallerWritesAll(es: seq<PiiEntry>, chunks: seq<string>)
    ensures Written(es, "", CallerPieces(chunks), FLUSH_SIZE) == Restore(es, Flatten(chunks))
            <==> Fits(es, "", CallerPieces(chunks), FLUSH_SIZE)
  {
    WrittenExactly(es, "", CallerPieces(chunks), FLUSH_SIZE);
    assert "" + Flatten(chunks) == Flatten(chunks);
  }

  /** A session of two e-mail addresses with 127 characters each. */
  function TwoLong(): seq<PiiEntry> {
    [PiiEntry("[EMAIL_1]", seq(127, _ => 'x'), Email), PiiEntry("[EMAIL_2]", seq(127, _ => 'y'), Email)]
  }

  lemma FirstEmails()
    ensures Placeholder(Email, 1) == "[EMAIL_1]" && Placeholder(Email, 2) == "[EMAIL_2]"
  {
    assert Digits(1) == "1" && Digits(2) == "2";
  }

  lemma CountFirst(e: PiiEntry)
    ensures CountType([], e.typ) == 0 && CountType([e], e.typ) == 1
  {
    assert [e][..0] == [];
  }

  lemma TwoLongIsOk()
    ensures MapOk(TwoLong())
  {
    hide Placeholder, CountType;
    var es := TwoLong();
    FirstEmails();
    CountFirst(es[0]);
    assert es[0].original[0] != es[1].original[0];
    assert es[..1] == [es[0]] && es[..0] == [];
  }

  /** A chunk whose restored text does not fit: 254 characters in a buffer of 146. */
  lemma TwoLongOriginals()
    ensures MapOk(TwoLong())
    ensures Written(TwoLong(), "", CallerPieces(["[EMAIL_1][EMAIL_2]"]), FLUSH_SIZE)
            != Restore(TwoLong(), "[EMAIL_1][EMAIL_2]")
  {
    hide Filtered, Restore, TwoLong, Written;
    var es, s := TwoLong(), "[EMAIL_1][EMAIL_2]";
    TwoLongIsOk();
    LongFeed();
    assert "" + s == s;
    CallerWritesAll(es, [s]);
    assert Flatten([s]) == s by { assert [s][1..] == [] && s + "" == s; }
    assert CallerPieces([s])[0] == Piece(s, 18 + CALLER_SLACK);
  }

  lemma LongFeed()
    ensures TwoLong() != [] && |Filtered(TwoLong(), "[EMAIL_1][EMAIL_2]").out| == 254
  {
    hide Filtered, ScanFrom, Restore, MustWait, FindPlaceholder;
    var es, s, q := TwoLong(), "[EMAIL_1][EMAIL_2]", "[EMAIL_2]";
    assert s[9..] == q && s[..9] == "[EMAIL_1]" && q[..9] == q && q[9..] == "";
    LookupLong();
    ShortToken(s);
    ShortToken(q);
    FilteredToken(es, s, es[0].original);
    FilteredToken(es, q, es[1].original);
    FilteredEmpty(es);
  }

  lemma LookupLong()
    ensures FindPlaceholder(TwoLong(), "[EMAIL_1]") == Some(TwoLong()[0].original)
    ensures FindPlaceholder(TwoLong(), "[EMAIL_2]") == Some(TwoLong()[1].original)
  {
    var es := TwoLong();
    assert es[1..][0] == es[1] && es[0].placeholder[7] != es[1].placeholder[7];
  }

  /** A placeholder of nine characters at the start of s. */
  lemma FilteredToken(es: seq<PiiEntry>, s: string, original: string)
    requires |s| >= 9 && s[0] == '[' && ScanFrom(s, 1) == Closed(8) && FindPlaceholder(es, s[..9]) == Some(original)
    ensures Filtered(es, s) == Emit(original, Filtered(es, s[9..]))
  {}

  lemma ShortToken(s: string)
    requires |s| >= 9 && s[8] == ']' && forall i :: 1 <= i < 8 ==> IsWordChar(s[i])
    ensures ScanFrom(s, 1) == Closed(8)
  {
    assert ScanFrom(s, 7) == Closed(8);
    assert ScanFrom(s, 5) == ScanFrom(s, 6) == ScanFrom(s, 7);
    assert ScanFrom(s, 3) == ScanFrom(s, 4) == ScanFrom(s, 5);
    assert ScanFrom(s, 1) == ScanFrom(s, 2) == ScanFrom(s, 3);
  }
}
