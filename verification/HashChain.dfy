/** The audit log's hash chain (src/observe/audit_hash_chain.c). The keyed hash is any function with results
    of 64 characters; JSON parsing and printing are given functions. */
module HashChain {
  import opened Options
  import opened Decimal

  const HASH_LEN := 64
  const GENESIS := "AIGATE_AUDIT_GENESIS"

  /** A log record: the three chain fields, None if missing, and the canonical dump of all others. */
  datatype Rec = Rec(seqNo: Option<int>, prevHash: Option<string>, hash: Option<string>, payload: string)

  ghost predicate MacOk(mac: string -> string) {
    forall s :: |mac(s)| == HASH_LEN
  }

  function ToSign(prev: string, n: nat, payload: string): string {
    prev + ":" + Digits(n) + ":" + payload
  }

  /** The 64 characters that a saved hash keeps. */
  function Saved(s: string): string {
    if |s| <= HASH_LEN then s else s[..HASH_LEN]
  }

  /** The record is number n and follows a record (or the genesis) with hash prev. */
  predicate Good(mac: string -> string, prev: string, n: nat, r: Option<Rec>) {
    && r.Some? && r.value.seqNo == Some(n) && r.value.prevHash.Some? && r.value.hash.Some?
    && Saved(r.value.prevHash.value) == prev
    && mac(ToSign(prev, n, r.value.payload)) == Saved(r.value.hash.value)
  }

  function HashOf(r: Option<Rec>): string {
    if r.Some? && r.value.hash.Some? then Saved(r.value.hash.value) else ""
  }

  function PrevOf(mac: string -> string, rs: seq<Option<Rec>>, i: nat): string
    requires i <= |rs|
  {
    if i == 0 then mac(GENESIS) else HashOf(rs[i - 1])
  }

  /** Record i is the next one of the chain of those before it. */
  ghost predicate Follows(mac: string -> string, rs: seq<Option<Rec>>, i: nat)
    requires i < |rs|
  {
    Good(mac, PrevOf(mac, rs, i), i + 1, rs[i])
  }

  /** The records are numbered from 1 and each is signed over the hash before it. */
  ghost predicate IsChain(mac: string -> string, rs: seq<Option<Rec>>) {
    forall i: nat :: i < |rs| ==> Follows(mac, rs, i)
  }

  function Cut64(s: string): string {
    if |s| > 64 then s[..64] else s
  }

  /** Record i has number i + 1, names the hash of the one before it or the genesis hash, and carries the hash of
      that, its number and its payload. */
  ghost predicate RecordOk(mac: string -> string, rs: seq<Option<Rec>>, i: nat)
    requires i < |rs|
  {
    && rs[i].Some? && rs[i].value.seqNo == Some(i + 1) && rs[i].value.prevHash.Some? && rs[i].value.hash.Some?
    && var prev := Cut64(rs[i].value.prevHash.value);
       && (i == 0 ==> prev == mac("AIGATE_AUDIT_GENESIS"))
       && (i > 0 && rs[i - 1].Some? && rs[i - 1].value.hash.Some? ==> prev == Cut64(rs[i - 1].value.hash.value))
       && Cut64(rs[i].value.hash.value) == mac(prev + ":" + Digits(i + 1) + ":" + rs[i].value.payload)
  }

  /** What an accepted log is, record by record. */
  lemma ChainExactly(mac: string -> string, rs: seq<Option<Rec>>)
    ensures IsChain(mac, rs) <==> forall i: nat :: i < |rs| ==> RecordOk(mac, rs, i)
  {
    hide Digits, Follows, RecordOk;
    forall i: nat | i < |rs| ensures Follows(mac, rs, i) ==> RecordOk(mac, rs, i) { FollowsIsOk(mac, rs, i); }
    if forall i: nat :: i < |rs| ==> RecordOk(mac, rs, i) {
      forall i: nat | i < |rs| ensures Follows(mac, rs, i) {
        assert RecordOk(mac, rs, i) && (i > 0 ==> RecordOk(mac, rs, i - 1));
        FollowsIsOk(mac, rs, i);
      }
    }
  }

  lemma FollowsIsOk(mac: string -> string, rs: seq<Option<Rec>>, i: nat)
    requires i < |rs|
    ensures Follows(mac, rs, i) ==> RecordOk(mac, rs, i)
    ensures RecordOk(mac, rs, i) && (i > 0 ==> RecordOk(mac, rs, i - 1)) ==> Follows(mac, rs, i)
  {
    hide Digits;
  }

  // ---------- Two logs with the same last hash ----------

  lemma DigitsHaveNoColon(n: nat)
    ensures ':' !in Digits(n)
  {
    DigitsAreDigits(n);
  }

  lemma FirstColon(a: string, b: string, x: string, y: string)
    requires ':' !in a && ':' !in b && a + ":" + x == b + ":" + y
    ensures a == b && x == y
  {
    var s := a + ":" + x;
    assert s[|a|] == ':' && s[|b|] == ':';
    assert forall i :: 0 <= i < |a| ==> s[i] == a[i] && a[i] in a;
    assert forall i :: 0 <= i < |b| ==> s[i] == b[i] && b[i] in b;
    assert |a| == |b|;
    assert a == s[..|a|] && x == s[|a| + 1..] && b == s[..|b|] && y == s[|b| + 1..];
  }

  /** The signed string determines what was signed. */
  lemma ToSignInjective(p: string, m: nat, x: string, q: string, n: nat, y: string)
    requires |p| == |q| && ToSign(p, m, x) == ToSign(q, n, y)
    ensures p == q && m == n && x == y
  {
    var s := ToSign(p, m, x);
    assert s == p + (":" + (Digits(m) + ":" + x)) == q + (":" + (Digits(n) + ":" + y));
    assert p == s[..|p|] && q == s[..|p|];
    assert Digits(m) + ":" + x == s[|p| + 1..] == Digits(n) + ":" + y;
    DigitsHaveNoColon(m);
    DigitsHaveNoColon(n);
    FirstColon(Digits(m), Digits(n), x, y);
    DigitsInjective(m, n);
  }

  /** Two different strings with the same hash. */
  ghost predicate Collision(mac: string -> string, s: string, t: string) {
    s != t && mac(s) == mac(t)
  }

  /** The string that record i of a log is signed over. */
  function SignedString(mac: string -> string, rs: seq<Option<Rec>>, i: nat): string
    requires i < |rs|
  {
    ToSign(PrevOf(mac, rs, i), i + 1, if rs[i].Some? then rs[i].value.payload else "")
  }

  /** The logs' k-th records from the end are signed over two different strings with the same hash. */
  ghost predicate CollideAt(mac: string -> string, a: seq<Option<Rec>>, b: seq<Option<Rec>>, k: nat) {
    && 1 <= k <= |a| && k <= |b|
    && Collision(mac, SignedString(mac, a, |a| - k), SignedString(mac, b, |b| - k))
  }

  /** Equal as far as the verifier looks. */
  ghost predicate Same(r: Option<Rec>, q: Option<Rec>) {
    && r.Some? && q.Some? && r.value.seqNo == q.value.seqNo && r.value.payload == q.value.payload
    && r.value.prevHash.Some? && q.value.prevHash.Some?
    && Saved(r.value.prevHash.value) == Saved(q.value.prevHash.value)
    && HashOf(r) == HashOf(q)
  }

  ghost predicate AllSame(a: seq<Option<Rec>>, b: seq<Option<Rec>>) {
    |a| == |b| && forall i :: 0 <= i < |a| ==> Same(a[i], b[i])
  }

  lemma ChainPrefix(mac: string -> string, rs: seq<Option<Rec>>, k: nat)
    requires IsChain(mac, rs) && k <= |rs|
    ensures IsChain(mac, rs[..k])
  {
    assert forall i: nat :: i < k ==> Follows(mac, rs, i) ==> Follows(mac, rs[..k], i);
  }

  lemma PrevLength(mac: string -> string, rs: seq<Option<Rec>>, i: nat)
    requires MacOk(mac) && IsChain(mac, rs) && i <= |rs|
    ensures |PrevOf(mac, rs, i)| == HASH_LEN
  {
    if i > 0 { assert Follows(mac, rs, i - 1); }
  }

  /** The last records of two such logs are the same, and so are the hashes before them. */
  lemma LastRecords(mac: string -> string, a: seq<Option<Rec>>, b: seq<Option<Rec>>)
    requires MacOk(mac) && IsChain(mac, a) && IsChain(mac, b) && a != [] && b != []
    requires HashOf(a[|a| - 1]) == HashOf(b[|b| - 1])
    ensures CollideAt(mac, a, b, 1)
      || (|a| == |b| && Same(a[|a| - 1], b[|b| - 1]) && PrevOf(mac, a, |a| - 1) == PrevOf(mac, b, |b| - 1))
  {
    hide ToSign, IsChain, PrevOf;
    var m, n := |a|, |b|;
    var r, q := a[m - 1], b[n - 1];
    var p, p' := PrevOf(mac, a, m - 1), PrevOf(mac, b, n - 1);
    GoodAt(mac, a, m - 1);
    GoodAt(mac, b, n - 1);
    var s, t := SignedString(mac, a, m - 1), SignedString(mac, b, n - 1);
    if s == t {
      PrevLength(mac, a, m - 1);
      PrevLength(mac, b, n - 1);
      ToSignInjective(p, m, r.value.payload, p', n, q.value.payload);
    }
  }

  lemma GoodAt(mac: string -> string, rs: seq<Option<Rec>>, i: nat)
    requires IsChain(mac, rs) && i < |rs|
    ensures Good(mac, PrevOf(mac, rs, i), i + 1, rs[i])
  {
    assert Follows(mac, rs, i);
  }

  lemma CollideInPrefix(mac: string -> string, a: seq<Option<Rec>>, b: seq<Option<Rec>>, k: nat)
    requires a != [] && b != [] && CollideAt(mac, a[..|a| - 1], b[..|b| - 1], k)
    ensures CollideAt(mac, a, b, k + 1)
  {
    hide ToSign;
    assert forall i :: 0 <= i < |a| - 1 ==> SignedString(mac, a[..|a| - 1], i) == SignedString(mac, a, i);
    assert forall i :: 0 <= i < |b| - 1 ==> SignedString(mac, b[..|b| - 1], i) == SignedString(mac, b, i);
  }

  /** Two accepted logs that end in the same hash are the same log, record by record, or somewhere two
      records at the same place, seen from the end, are signed over different strings with one hash. */
  lemma {:induction false} LastHashDetermines(mac: string -> string, a: seq<Option<Rec>>, b: seq<Option<Rec>>)
    requires MacOk(mac) && IsChain(mac, a) && IsChain(mac, b) && a != [] && b != []
    requires HashOf(a[|a| - 1]) == HashOf(b[|b| - 1])
    ensures AllSame(a, b) || exists k :: CollideAt(mac, a, b, k)
    decreases |a|
  {
    hide Same, IsChain, Good, HashOf, CollideAt;
    LastRecords(mac, a, b);
    var n := |a| - 1;
    if !CollideAt(mac, a, b, 1) && n > 0 {
      ChainPrefix(mac, a, n);
      ChainPrefix(mac, b, n);
      LastHashDetermines(mac, a[..n], b[..n]);
      if k :| CollideAt(mac, a[..n], b[..n], k) { CollideInPrefix(mac, a, b, k); }
      assert forall i :: 0 <= i < n ==> a[..n][i] == a[i] && b[..n][i] == b[i];
    }
  }

  // ---------- Signing ----------

  datatype Chain = Chain(seqNo: nat, last: string)

  /** A call of sign: None for what is no JSON object; fits tells whether the output buffer is large enough. */
  datatype Signing = Signing(payload: Option<string>, fits: bool)

  function SignedRec(mac: string -> string, c: Chain, payload: string): Rec {
    Rec(Some(c.seqNo + 1), Some(c.last), Some(mac(ToSign(c.last, c.seqNo + 1, payload))), payload)
  }

  /** The context moves on even when the signed record does not fit the buffer. */
  function AfterSign(mac: string -> string, c: Chain, payload: Option<string>): Chain {
    if payload.None? then c
    else Chain(c.seqNo + 1, mac(ToSign(c.last, c.seqNo + 1, payload.value)))
  }

  function Fresh(mac: string -> string): Chain {
    Chain(0, mac(GENESIS))
  }

  function ChainAfter(mac: string -> string, calls: seq<Signing>): Chain {
    if calls == [] then Fresh(mac)
    else AfterSign(mac, ChainAfter(mac, calls[..|calls| - 1]), calls[|calls| - 1].payload)
  }

  /** The records that the calls hand out. */
  function LogOf(mac: string -> string, calls: seq<Signing>): seq<Option<Rec>> {
    if calls == [] then []
    else
      var front, call := calls[..|calls| - 1], calls[|calls| - 1];
      LogOf(mac, front)
      + if call.payload.Some? && call.fits then [Some(SignedRec(mac, ChainAfter(mac, front), call.payload.value))]
        else []
  }

  predicate Lost(call: Signing) {
    call.payload.Some? && !call.fits
  }

  predicate Kept(call: Signing) {
    call.payload.Some? && call.fits
  }

  /** No record is handed out after one that was lost. */
  ghost predicate NoneAfterLost(calls: seq<Signing>) {
    forall i, j :: 0 <= i < j < |calls| && Lost(calls[i]) ==> !Kept(calls[j])
  }

  ghost predicate NoneLost(calls: seq<Signing>) {
    forall i :: 0 <= i < |calls| ==> !Lost(calls[i])
  }

  lemma NoneAfterLostNext(calls: seq<Signing>, call: Signing)
    ensures NoneAfterLost(calls + [call]) <==> NoneAfterLost(calls) && (Kept(call) ==> NoneLost(calls))
    ensures NoneLost(calls + [call]) <==> NoneLost(calls) && !Lost(call)
  {
    var cs, n := calls + [call], |calls|;
    assert cs[n] == call && forall i :: 0 <= i < n ==> cs[i] == calls[i];
  }

  lemma ChainExtend(mac: string -> string, rs: seq<Option<Rec>>, r: Option<Rec>)
    ensures IsChain(mac, rs + [r]) <==> IsChain(mac, rs) && Good(mac, PrevOf(mac, rs, |rs|), |rs| + 1, r)
  {
    var rs' := rs + [r];
    hide Good;
    assert PrevOf(mac, rs', |rs|) == PrevOf(mac, rs, |rs|);
    forall i: nat | i < |rs| ensures Follows(mac, rs', i) <==> Follows(mac, rs, i) {
      assert rs'[i] == rs[i] && PrevOf(mac, rs', i) == PrevOf(mac, rs, i);
    }
    assert Follows(mac, rs', |rs|) <==> Good(mac, PrevOf(mac, rs, |rs|), |rs| + 1, r);
  }

  /** A log is as long as the sequence number says, and ends in the last hash, exactly when nothing was lost. */
  lemma {:induction false} LogState(mac: string -> string, calls: seq<Signing>)
    requires MacOk(mac)
    ensures var log, c := LogOf(mac, calls), ChainAfter(mac, calls);
      && |log| <= c.seqNo && |c.last| == HASH_LEN
      && (|log| == c.seqNo <==> NoneLost(calls))
      && (NoneLost(calls) ==> PrevOf(mac, log, |log|) == c.last)
      && (IsChain(mac, log) <==> NoneAfterLost(calls))
  {
    hide ToSign, Good, Saved, IsChain, NoneLost, NoneAfterLost;
    if calls == [] {
      assert NoneLost(calls) && NoneAfterLost(calls) && IsChain(mac, []) by { EmptyLog(mac); }
    } else {
      var front, call := calls[..|calls| - 1], calls[|calls| - 1];
      assert calls == front + [call];
      LogState(mac, front);
      NoneAfterLostNext(front, call);
      assert LogOf(mac, front) + [] == LogOf(mac, front);
      if Kept(call) {
        var r := SignedRec(mac, ChainAfter(mac, front), call.payload.value);
        ChainExtend(mac, LogOf(mac, front), Some(r));
        SignedIsGood(mac, ChainAfter(mac, front), call.payload.value, LogOf(mac, front));
      }
    }
  }

  lemma EmptyLog(mac: string -> string)
    ensures NoneLost([]) && NoneAfterLost([]) && IsChain(mac, [])
  {}

  lemma SignedIsGood(mac: string -> string, c: Chain, payload: string, log: seq<Option<Rec>>)
    requires MacOk(mac) && |c.last| == HASH_LEN && |log| <= c.seqNo
    requires |log| == c.seqNo ==> PrevOf(mac, log, |log|) == c.last
    ensures var r := Some(SignedRec(mac, c, payload));
      (Good(mac, PrevOf(mac, log, |log|), |log| + 1, r) <==> |log| == c.seqNo)
      && HashOf(r) == AfterSign(mac, c, Some(payload)).last
      && |HashOf(r)| == HASH_LEN
  {
    hide ToSign;
  }

  /** From a fresh context, the log is accepted exactly when no signature was lost before one that was
      handed out; in particular whenever every call succeeds. */
  lemma SignedIsAccepted(mac: string -> string, calls: seq<Signing>)
    requires MacOk(mac)
    ensures IsChain(mac, LogOf(mac, calls)) <==> NoneAfterLost(calls)
    ensures NoneLost(calls) ==> IsChain(mac, LogOf(mac, calls)) && |LogOf(mac, calls)| == ChainAfter(mac, calls).seqNo
  {
    LogState(mac, calls);
  }

  // ---------- The log file ----------

  predicate Trailing(c: char) {
    c == '\n' || c == '\r' || c == ' '
  }

  function Strip(line: string): string {
    if line != "" && Trailing(line[|line| - 1]) then Strip(line[..|line| - 1]) else line
  }

  /** Newlines, carriage returns and spaces at the end are cut off, and nothing else. */
  lemma {:induction false} StripIsCut(line: string)
    ensures var s := Strip(line);
      && s <= line && (s != "" ==> s[|s| - 1] != '\n' && s[|s| - 1] != '\r' && s[|s| - 1] != ' ')
      && forall i :: |s| <= i < |line| ==> line[i] == '\n' || line[i] == '\r' || line[i] == ' '
  {
    if line != "" && Trailing(line[|line| - 1]) { StripIsCut(line[..|line| - 1]); }
  }

  /** The records of a file; lines of white space do not count. None is a line that is no JSON object. */
  function Records(parse: string -> Option<Rec>, lines: seq<string>): seq<Option<Rec>> {
    if lines == [] then []
    else
      var line := Strip(lines[|lines| - 1]);
      Records(parse, lines[..|lines| - 1]) + if line == "" then [] else [parse(line)]
  }

  lemma {:induction false} RecordsPrefix(parse: string -> Option<Rec>, lines: seq<string>, i: nat)
    requires i <= |lines|
    ensures Records(parse, lines[..i]) <= Records(parse, lines)
    decreases |lines|
  {
    if i < |lines| {
      RecordsPrefix(parse, lines[..|lines| - 1], i);
      assert lines[..|lines| - 1][..i] == lines[..i];
    } else {
      assert lines[..i] == lines;
    }
  }

  /** The printed record is a line that needs no stripping, and parses as the record again. */
  ghost predicate ReadsBack(parse: string -> Option<Rec>, render: Rec -> string, r: Rec) {
    render(r) != "" && Strip(render(r)) == render(r) && parse(render(r)) == Some(r)
  }

  // ---------- What the logger writes ----------

  const SIGNED_SIZE := 4096

  /** An event as a line of JSON, and its canonical payload; None if the line is no JSON object. */
  datatype LogEvent = LogEvent(line: string, payload: Option<string>)

  function ChainOf(mac: string -> string, events: seq<LogEvent>): Chain {
    if events == [] then Fresh(mac)
    else AfterSign(mac, ChainOf(mac, events[..|events| - 1]), events[|events| - 1].payload)
  }

  /** The event is signed: it is an object, and the signed record fits the logger's buffer. */
  predicate Signs(mac: string -> string, render: Rec -> string, c: Chain, e: LogEvent) {
    e.payload.Some? && |render(SignedRec(mac, c, e.payload.value))| < SIGNED_SIZE
  }

  /** The logger writes the signed record or, where there is none, the event's own line. */
  function LineOf(mac: string -> string, render: Rec -> string, c: Chain, e: LogEvent): string {
    if Signs(mac, render, c, e) then render(SignedRec(mac, c, e.payload.value)) else e.line
  }

  function FileOf(mac: string -> string, render: Rec -> string, events: seq<LogEvent>): seq<string> {
    if events == [] then []
    else
      var front, e := events[..|events| - 1], events[|events| - 1];
      FileOf(mac, render, front) + [LineOf(mac, render, ChainOf(mac, front), e) + "\n"]
  }

  /** A line that is no record of the chain: no JSON object, or one without the chain's number. */
  predicate Unsigned(r: Option<Rec>) {
    r.None? || r.value.seqNo.None?
  }

  /** The lines are printed without white space at the end; a signed one parses as its record, and an event's
      own line as something unsigned. Nothing is asked of any other text. */
  ghost predicate LineOk(mac: string -> string, parse: string -> Option<Rec>, render: Rec -> string,
                         c: Chain, e: LogEvent) {
    if Signs(mac, render, c, e) then ReadsBack(parse, render, SignedRec(mac, c, e.payload.value))
    else e.line != "" && Strip(e.line) == e.line && Unsigned(parse(e.line))
  }

  ghost predicate LinesOk(mac: string -> string, parse: string -> Option<Rec>, render: Rec -> string,
                          events: seq<LogEvent>) {
    forall i {:trigger events[i]} :: 0 <= i < |events| ==>
      LineOk(mac, parse, render, ChainOf(mac, events[..i]), events[i])
  }

  ghost predicate AllSigned(mac: string -> string, render: Rec -> string, events: seq<LogEvent>) {
    forall i {:trigger events[i]} :: 0 <= i < |events| ==> Signs(mac, render, ChainOf(mac, events[..i]), events[i])
  }

  lemma LastEvent(mac: string -> string, parse: string -> Option<Rec>, render: Rec -> string, events: seq<LogEvent>)
    requires LinesOk(mac, parse, render, events) && events != []
    ensures var front, e := events[..|events| - 1], events[|events| - 1];
      && LinesOk(mac, parse, render, front) && LineOk(mac, parse, render, ChainOf(mac, front), e)
      && (AllSigned(mac, render, events)
          <==> AllSigned(mac, render, front) && Signs(mac, render, ChainOf(mac, front), e))
  {
    hide LineOk, Signs, ChainOf;
    var front := events[..|events| - 1];
    assert forall i :: 0 <= i < |front| ==> front[i] == events[i] && front[..i] == events[..i];
  }

  /** One line is one record of the file. */
  lemma LineIsRecord(mac: string -> string, parse: string -> Option<Rec>, render: Rec -> string,
                     lines: seq<string>, c: Chain, e: LogEvent)
    requires LineOk(mac, parse, render, c, e)
    ensures Records(parse, lines + [LineOf(mac, render, c, e) + "\n"])
            == Records(parse, lines) + [parse(LineOf(mac, render, c, e))]
  {
    var line := LineOf(mac, render, c, e);
    assert (line + "\n")[..|line|] == line && Strip(line + "\n") == line;
    assert (lines + [line + "\n"])[..|lines|] == lines;
  }

  lemma {:induction false} FileState(mac: string -> string, parse: string -> Option<Rec>, render: Rec -> string,
                                     events: seq<LogEvent>)
    requires MacOk(mac) && LinesOk(mac, parse, render, events)
    ensures var rs, c := Records(parse, FileOf(mac, render, events)), ChainOf(mac, events);
      && |rs| == |events| && |c.last| == HASH_LEN
      && (IsChain(mac, rs) <==> AllSigned(mac, render, events))
      && (AllSigned(mac, render, events) ==> c.seqNo == |events| && PrevOf(mac, rs, |rs|) == c.last)
  {
    hide ToSign, Good, Saved, IsChain, LinesOk, AllSigned, Signs, LineOk, LineOf, PrevOf;
    if events == [] {
      EmptyFile(mac, render);
    } else {
      var front, e := events[..|events| - 1], events[|events| - 1];
      LastEvent(mac, parse, render, events);
      FileState(mac, parse, render, front);
      var rs, c := Records(parse, FileOf(mac, render, front)), ChainOf(mac, front);
      LineIsRecord(mac, parse, render, FileOf(mac, render, front), c, e);
      ChainExtend(mac, rs, parse(LineOf(mac, render, c, e)));
      SignedOrNot(mac, parse, render, c, e, rs, AllSigned(mac, render, front));
    }
  }

  lemma EmptyFile(mac: string -> string, render: Rec -> string)
    ensures AllSigned(mac, render, []) && IsChain(mac, []) && PrevOf(mac, [], 0) == mac(GENESIS)
  {}

  /** The line of one event continues the chain, if the chain is sound so far, exactly when it is signed. */
  lemma SignedOrNot(mac: string -> string, parse: string -> Option<Rec>, render: Rec -> string,
                    c: Chain, e: LogEvent, rs: seq<Option<Rec>>, sound: bool)
    requires MacOk(mac) && LineOk(mac, parse, render, c, e) && |c.last| == HASH_LEN
    requires sound ==> c.seqNo == |rs| && PrevOf(mac, rs, |rs|) == c.last
    ensures var r := parse(LineOf(mac, render, c, e));
      && (!Signs(mac, render, c, e) ==> !Good(mac, PrevOf(mac, rs, |rs|), |rs| + 1, r))
      && |AfterSign(mac, c, e.payload).last| == HASH_LEN
      && (Signs(mac, render, c, e) && sound ==>
            && Good(mac, PrevOf(mac, rs, |rs|), |rs| + 1, r)
            && AfterSign(mac, c, e.payload).seqNo == |rs| + 1
            && PrevOf(mac, rs + [r], |rs| + 1) == AfterSign(mac, c, e.payload).last)
  {
    hide ToSign;
    if Signs(mac, render, c, e) && sound { SignedIsGood(mac, c, e.payload.value, rs); }
  }

  /** The file that the logger writes from a fresh chain is accepted exactly when every event was signed; the
      first one that was not is where the verifier finds it broken. */
  lemma FileIsAccepted(mac: string -> string, parse: string -> Option<Rec>, render: Rec -> string,
                       events: seq<LogEvent>)
    requires MacOk(mac) && LinesOk(mac, parse, render, events)
    ensures |Records(parse, FileOf(mac, render, events))| == |events|
    ensures IsChain(mac, Records(parse, FileOf(mac, render, events))) <==> AllSigned(mac, render, events)
    ensures forall k :: 0 <= k <= |events| ==>
      (IsChain(mac, Records(parse, FileOf(mac, render, events))[..k]) <==> AllSigned(mac, render, events[..k]))
  {
    hide IsChain, AllSigned, LinesOk;
    FileState(mac, parse, render, events);
    forall k | 0 <= k <= |events|
      ensures IsChain(mac, Records(parse, FileOf(mac, render, events))[..k]) <==> AllSigned(mac, render, events[..k])
    {
      FilePrefix(mac, parse, render, events, k);
      FileState(mac, parse, render, events[..k]);
    }
  }

  lemma NoRecords(parse: string -> Option<Rec>)
    ensures Records(parse, []) == []
  {}

  lemma {:induction false} FilePrefix(mac: string -> string, parse: string -> Option<Rec>, render: Rec -> string,
                                      events: seq<LogEvent>, k: nat)
    requires LinesOk(mac, parse, render, events) && k <= |events|
    ensures LinesOk(mac, parse, render, events[..k])
    ensures var rs := Records(parse, FileOf(mac, render, events));
      |rs| == |events| && rs[..k] == Records(parse, FileOf(mac, render, events[..k]))
    decreases |events|
  {
    hide LinesOk, LineOk, LineOf, ChainOf, Records;
    if events == [] {
      assert events[..k] == events && FileOf(mac, render, events) == [];
      NoRecords(parse);
    } else {
      var n := |events| - 1;
      LastEvent(mac, parse, render, events);
      LineIsRecord(mac, parse, render, FileOf(mac, render, events[..n]), ChainOf(mac, events[..n]), events[n]);
      FilePrefix(mac, parse, render, events[..n], if k <= n then k else n);
      if k <= n { assert events[..n][..k] == events[..k]; } else { assert events[..k] == events; }
    }
  }

  /** What the file holds: record k is that of event k; a signed one has the event's payload. */
  lemma FileHolds(mac: string -> string, parse: string -> Option<Rec>, render: Rec -> string,
                  events: seq<LogEvent>, k: nat)
    requires LinesOk(mac, parse, render, events) && k < |events|
    ensures |Records(parse, FileOf(mac, render, events))| == |events|
    ensures var r := Records(parse, FileOf(mac, render, events))[k]; var e := events[k];
      if Signs(mac, render, ChainOf(mac, events[..k]), e) then r.Some? && r.value.payload == e.payload.value
      else r == parse(e.line)
  {
    hide ToSign, LinesOk, ChainOf, Records, FileOf;
    FilePrefix(mac, parse, render, events, k + 1);
    assert events[..k + 1][..k] == events[..k] && events[..k + 1][k] == events[k];
    FilePrefix(mac, parse, render, events[..k + 1], k);
    FileNext(mac, render, events[..k + 1]);
    LineOkAt(mac, parse, render, events, k);
    LineIsRecord(mac, parse, render, FileOf(mac, render, events[..k]), ChainOf(mac, events[..k]), events[k]);
  }

  lemma FileNext(mac: string -> string, render: Rec -> string, events: seq<LogEvent>)
    requires events != []
    ensures var front, e := events[..|events| - 1], events[|events| - 1];
      FileOf(mac, render, events) == FileOf(mac, render, front) + [LineOf(mac, render, ChainOf(mac, front), e) + "\n"]
  {}

  lemma {:induction false} ObjectsAreCounted(mac: string -> string, events: seq<LogEvent>)
    ensures ChainOf(mac, events).seqNo > 0 <==> exists i :: 0 <= i < |events| && events[i].payload.Some?
  {
    hide ToSign;
    if events != [] {
      var n := |events| - 1;
      ObjectsAreCounted(mac, events[..n]);
      assert forall i :: 0 <= i < n ==> events[..n][i] == events[i];
    }
  }

  /** Rotating the file does not start a new chain: what is written to the new file after k events is rejected
      from its first line on, once any of those events was a JSON object. */
  lemma RotatedFileIsRejected(mac: string -> string, parse: string -> Option<Rec>, render: Rec -> string,
                              events: seq<LogEvent>, k: nat)
    requires LinesOk(mac, parse, render, events) && k < |events|
    requires exists i :: 0 <= i < k && events[i].payload.Some?
    ensures |FileOf(mac, render, events)| == |events|
    ensures !IsChain(mac, Records(parse, FileOf(mac, render, events)[k..]))
  {
    hide ToSign, LinesOk, LineOf;
    var lines, c := FileOf(mac, render, events), ChainOf(mac, events[..k]);
    LineAt(mac, render, events, k);
    var line := LineOf(mac, render, c, events[k]);
    LineIsRecord(mac, parse, render, [], c, events[k]) by { LineOkAt(mac, parse, render, events, k); }
    assert [] + [line + "\n"] == lines[k..][..1];
    RecordsPrefix(parse, lines[k..], 1);
    var rs := Records(parse, lines[k..]);
    assert rs[..1] == [parse(line)];
    NumberAboveOne(mac, parse, render, events, k);
    if IsChain(mac, rs) { GoodAt(mac, rs, 0); }
  }

  lemma LineOkAt(mac: string -> string, parse: string -> Option<Rec>, render: Rec -> string,
                 events: seq<LogEvent>, k: nat)
    requires LinesOk(mac, parse, render, events) && k < |events|
    ensures LineOk(mac, parse, render, ChainOf(mac, events[..k]), events[k])
  {}

  lemma {:induction false} LineAt(mac: string -> string, render: Rec -> string, events: seq<LogEvent>, k: nat)
    requires k < |events|
    ensures |FileOf(mac, render, events)| == |events|
    ensures FileOf(mac, render, events)[k] == LineOf(mac, render, ChainOf(mac, events[..k]), events[k]) + "\n"
  {
    hide LineOf, ChainOf;
    var n := |events| - 1;
    if n > 0 {
      LineAt(mac, render, events[..n], if k < n then k else n - 1);
      assert k < n ==> events[..n][..k] == events[..k];
    }
  }

  lemma NumberAboveOne(mac: string -> string, parse: string -> Option<Rec>, render: Rec -> string,
                       events: seq<LogEvent>, k: nat)
    requires LinesOk(mac, parse, render, events) && k < |events|
    requires exists i :: 0 <= i < k && events[i].payload.Some?
    ensures var r := parse(LineOf(mac, render, ChainOf(mac, events[..k]), events[k]));
      r.Some? ==> r.value.seqNo != Some(1)
  {
    hide ToSign, LinesOk, ChainOf;
    LineOkAt(mac, parse, render, events, k);
    var i :| 0 <= i < k && events[i].payload.Some?;
    assert events[..k][i] == events[i];
    ObjectsAreCounted(mac, events[..k]);
  }

  /** A log that is rejected though every record handed out is in order: the second event is too long to sign. */
  lemma LongEventBreaksLog(mac: string -> string)
    requires MacOk(mac)
    ensures var long := seq(4096, _ => 'x');
      var events := [LogEvent("a", Some("a")), LogEvent(long, Some(long))];
      var first := SignedRec(mac, Fresh(mac), "a");
      var parse := (s: string) => if s == "a" then Some(first) else None;
      var render := (r: Rec) => r.payload;
      && LinesOk(mac, parse, render, events)
      && AllSigned(mac, render, events[..1]) && !AllSigned(mac, render, events)
      && !IsChain(mac, Records(parse, FileOf(mac, render, events)))
  {
    var long := seq(4096, _ => 'x');
    var events := [LogEvent("a", Some("a")), LogEvent(long, Some(long))];
    var first := SignedRec(mac, Fresh(mac), "a");
    var parse := (s: string) => if s == "a" then Some(first) else None;
    var render := (r: Rec) => r.payload;
    assert events[..0] == [];
    assert long[0] == 'x' && Strip(long) == long;
    assert !Signs(mac, render, ChainOf(mac, events[..1]), events[1]);
    FileIsAccepted(mac, parse, render, events);
  }

  method StripLine(line: string) returns (s: string)
    ensures s == Strip(line)
  {
    var n := |line|;
    assert line[..n] == line;
    while n > 0 && Trailing(line[n - 1])
      invariant n <= |line| && Strip(line) == Strip(line[..n])
    {
      assert line[..n][..n - 1] == line[..n - 1];
      n := n - 1;
    }
    return line[..n];
  }

  class AuditHashChain {
    const mac: string -> string
    const genesisHash: string
    var currentSeq: nat
    var lastHash: string

    ghost predicate Valid()
      reads this
    {
      MacOk(mac) && genesisHash == mac(GENESIS) && |lastHash| == HASH_LEN
    }

    ghost function View(): Chain
      reads this
    {
      Chain(currentSeq, lastHash)
    }

    constructor (mac: string -> string)
      requires MacOk(mac)
      ensures Valid() && this.mac == mac && View() == Fresh(mac)
    {
      this.mac := mac;
      genesisHash := mac(GENESIS);
      lastHash := mac(GENESIS);
      currentSeq := 0;
    }

    /** audit_hash_chain_sign on the canonical payload of an event (None: no JSON object). */
    method Sign(payload: Option<string>, render: Rec -> string, outSize: nat) returns (line: Option<string>)
      requires Valid()
      modifies this
      ensures Valid()
      ensures View() == if outSize == 0 then old(View()) else AfterSign(mac, old(View()), payload)
      ensures line.Some? <==> payload.Some? && |render(SignedRec(mac, old(View()), payload.value))| < outSize
      ensures line.Some? ==> line.value == render(SignedRec(mac, old(View()), payload.value))
    {
      if outSize == 0 || payload.None? {
        return None;
      }
      var n := currentSeq + 1;
      var prev := lastHash;
      var current := mac(ToSign(prev, n, payload.value));
      currentSeq := n;
      lastHash := current;
      var final := render(Rec(Some(n), Some(prev), Some(current), payload.value));
      if |final| >= outSize {
        return None;
      }
      return Some(final);
    }

    /** The logger's line for an event: signed if it can be, else the event's own. */
    method LogLine(e: LogEvent, render: Rec -> string) returns (line: string)
      requires Valid()
      modifies this
      ensures Valid() && View() == AfterSign(mac, old(View()), e.payload)
      ensures line == LineOf(mac, render, old(View()), e) + "\n"
    {
      var signed := Sign(e.payload, render, SIGNED_SIZE);
      line := (if signed.Some? then signed.value else e.line) + "\n";
    }

    /** The checks on one record. */
    method CheckRecord(prev: string, expected: nat, r: Option<Rec>) returns (ok: bool, saved: string)
      ensures ok <==> Good(mac, prev, expected, r)
      ensures ok ==> saved == HashOf(r)
    {
      ok, saved := false, "";
      if r.None? || r.value.seqNo.None? || r.value.prevHash.None? || r.value.hash.None? {
        return;
      }
      var savedPrev := Saved(r.value.prevHash.value);
      saved := Saved(r.value.hash.value);
      if r.value.seqNo.value != expected {
        return;
      }
      if savedPrev != prev {
        return;
      }
      ok := mac(ToSign(savedPrev, expected, r.value.payload)) == saved;
    }

    /** audit_hash_chain_verify_file on the file's lines. A rejected file gets a count of 0 and the number
        one past its longest valid beginning. */
    method VerifyFile(parse: string -> Option<Rec>, lines: seq<string>) returns (ok: bool, count: nat, broken: nat)
      requires Valid()
      ensures var rs := Records(parse, lines);
        && (ok <==> IsChain(mac, rs))
        && (ok ==> count == |rs| && broken == 0)
        && (!ok ==> count == 0 && 1 <= broken <= |rs|
                    && IsChain(mac, rs[..broken - 1]) && !IsChain(mac, rs[..broken]))
    {
      hide Good, Strip, PrevOf, HashOf;
      ghost var all := Records(parse, lines);
      var prevHash := mac(GENESIS);
      var expected := 1;
      var verified := 0;
      EmptyLog(mac);
      FirstPrev(mac);
      for i := 0 to |lines|
        invariant var rs := Records(parse, lines[..i]);
          && |rs| == verified == expected - 1 && IsChain(mac, rs) && prevHash == PrevOf(mac, rs, verified)
      {
        ghost var rs := Records(parse, lines[..i]);
        assert lines[..i + 1][..i] == lines[..i];
        RecordsPrefix(parse, lines, i + 1);
        assert rs + [] == rs;
        var line := StripLine(lines[i]);
        if line != "" {
          var r := parse(line);
          assert Records(parse, lines[..i + 1]) == rs + [r];
          ChainExtend(mac, rs, r);
          var good, saved := CheckRecord(prevHash, expected, r);
          if !good {
            assert all[..expected] == rs + [r] && all[..expected - 1] == rs;
            if IsChain(mac, all) { ChainPrefix(mac, all, expected); }
            return false, 0, expected;
          }
          LastPrev(mac, rs, r);
          prevHash := saved;
          expected := expected + 1;
          verified := verified + 1;
        }
      }
      assert lines[..|lines|] == lines;
      return true, verified, 0;
    }
  }

  lemma FirstPrev(mac: string -> string)
    ensures PrevOf(mac, [], 0) == mac(GENESIS)
  {}

  lemma LastPrev(mac: string -> string, rs: seq<Option<Rec>>, r: Option<Rec>)
    ensures PrevOf(mac, rs + [r], |rs| + 1) == HashOf(r)
  {}
}
