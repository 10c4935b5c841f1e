/** The live audit ring and its cursor query (src/observe/audit_logger.c:773-782, 873-903, 988-1046). */
module LiveRing {

  const LIVE_CAP := 2048

  /** Event number seqNo, counted from 1. */
  datatype LiveEvent<T> = LiveEvent(seqNo: nat, data: T)

  // ---------- What a query returns ----------

  function Max(a: int, b: int): int {
    if a < b then b else a
  }

  function Min(a: int, b: int): int {
    if a < b then a else b
  }

  /** The oldest event still in a ring of cap slots after total events. */
  function Oldest(total: nat, cap: nat): (s: nat)
    ensures s >= 1
  {
    if total > cap then total - cap + 1 else 1
  }

  /** The first event a query returns: with no cursor, the newest that fit; else the first after the cursor. */
  function Start(total: nat, cap: nat, max: nat, after: nat): nat {
    if after == 0 then Max(Oldest(total, cap), total - max + 1) else Max(Oldest(total, cap), after + 1)
  }

  function Missed(total: nat, cap: nat, after: nat): nat {
    if after == 0 then 0 else Max(0, Oldest(total, cap) - 1 - after)
  }

  function Count(total: nat, cap: nat, max: nat, after: nat): nat {
    Min(max, Max(0, total + 1 - Start(total, cap, max, after)))
  }

  // ---------- A consumer over any interleaving ----------

  /** Something is recorded, or the consumer polls for at most max events. */
  datatype Op = Record | Poll(max: nat)

  /** The events recorded, the consumer's cursor, and all it has been told. */
  datatype Consumer = Consumer(total: nat, cursor: nat, delivered: seq<nat>, missed: nat)

  function Numbers(start: nat, count: nat): (s: seq<nat>)
    ensures |s| == count && forall i :: 0 <= i < count ==> s[i] == start + i
  {
    seq(count, i requires 0 <= i => start + i)
  }

  /** A poll moves the cursor to the last event returned. */
  function Next(cap: nat, c: Consumer, op: Op): Consumer {
    match op
    case Record => c.(total := c.total + 1)
    case Poll(max) =>
      if max == 0 || c.total == 0 then c
      else
        var start, count := Start(c.total, cap, max, c.cursor), Count(c.total, cap, max, c.cursor);
        Consumer(c.total, if count > 0 then start + count - 1 else c.cursor,
                 c.delivered + Numbers(start, count), c.missed + Missed(c.total, cap, c.cursor))
  }

  function After(cap: nat, c: Consumer, ops: seq<Op>): Consumer {
    if ops == [] then c else Next(cap, After(cap, c, ops[..|ops| - 1]), ops[|ops| - 1])
  }

  ghost predicate Increasing(s: seq<nat>) {
    forall i, j :: 0 <= i < j < |s| ==> s[i] < s[j]
  }

  /** What holds between any two moments of a consumer that began with the cursor at from. */
  ghost predicate Accounted(from: nat, c: Consumer) {
    && from <= c.cursor
    && c.cursor - from == |c.delivered| + c.missed
    && Increasing(c.delivered)
    && forall i :: 0 <= i < |c.delivered| ==> from < c.delivered[i] <= c.cursor
  }

  lemma AccountedNext(cap: nat, from: nat, c: Consumer, op: Op)
    requires cap > 0 && from > 0 && Accounted(from, c)
    ensures Accounted(from, Next(cap, c, op))
  {}

  /** For a consumer that polls with its last nonzero sequence number, over any interleaving of records and
      polls: events arrive in increasing order, each at most once, and the cursor advances by exactly what
      was delivered plus what was reported as missed. */
  lemma {:induction false} CursorIsAccounted(cap: nat, total: nat, from: nat, ops: seq<Op>)
    requires cap > 0 && from > 0
    ensures Accounted(from, After(cap, Consumer(total, from, [], 0), ops))
  {
    if ops != [] {
      CursorIsAccounted(cap, total, from, ops[..|ops| - 1]);
      AccountedNext(cap, from, After(cap, Consumer(total, from, [], 0), ops[..|ops| - 1]), ops[|ops| - 1]);
    }
  }

  /** At every poll, no more than cap events are waiting. */
  ghost predicate KeepsUp(cap: nat, c: Consumer, ops: seq<Op>) {
    forall i :: 0 <= i < |ops| && ops[i].Poll? && ops[i].max > 0 ==>
      var b := After(cap, c, ops[..i]); b.total - b.cursor <= cap
  }

  lemma KeepsUpNext(cap: nat, c: Consumer, front: seq<Op>, op: Op)
    ensures KeepsUp(cap, c, front + [op])
      <==> KeepsUp(cap, c, front)
           && (op.Poll? && op.max > 0 ==> var b := After(cap, c, front); b.total - b.cursor <= cap)
  {
    hide After;
    var ops, n := front + [op], |front|;
    assert ops[n] == op && ops[..n] == front;
    assert forall i :: 0 <= i < n ==> ops[i] == front[i] && ops[..i] == front[..i];
  }

  lemma NextMisses(cap: nat, c: Consumer, op: Op)
    requires cap > 0 && c.cursor > 0
    ensures var d := Next(cap, c, op);
      && c.missed <= d.missed
      && (d.missed == c.missed <==> (op.Poll? && op.max > 0 ==> c.total - c.cursor <= cap))
      && c.cursor <= d.cursor
      && (d.missed == c.missed ==> d.delivered == c.delivered + Numbers(c.cursor + 1, d.cursor - c.cursor))
  {}

  lemma NumbersConcat(start: nat, m: nat, n: nat)
    ensures Numbers(start, m) + Numbers(start + m, n) == Numbers(start, m + n)
  {}

  /** Nothing is missed exactly when the consumer keeps up; then the events delivered are all those up to the
      cursor, without a gap. */
  lemma {:induction false} MissesExactly(cap: nat, total: nat, from: nat, ops: seq<Op>)
    requires cap > 0 && from > 0
    ensures var c := After(cap, Consumer(total, from, [], 0), ops);
      && from <= c.cursor
      && (c.missed == 0 <==> KeepsUp(cap, Consumer(total, from, [], 0), ops))
      && (c.missed == 0 ==> c.delivered == Numbers(from + 1, c.cursor - from))
  {
    hide KeepsUp, Next, Numbers;
    var c0 := Consumer(total, from, [], 0);
    if ops == [] {
      assert KeepsUp(cap, c0, []) && Numbers(from + 1, 0) == [] by { NothingMissed(cap, c0, from + 1); }
    } else {
      var front, op := ops[..|ops| - 1], ops[|ops| - 1];
      assert ops == front + [op];
      MissesExactly(cap, total, from, front);
      KeepsUpNext(cap, c0, front, op);
      var b := After(cap, c0, front);
      NextMisses(cap, b, op);
      NumbersConcat(from + 1, b.cursor - from, Next(cap, b, op).cursor - b.cursor);
    }
  }

  lemma NothingMissed(cap: nat, c: Consumer, start: nat)
    ensures KeepsUp(cap, c, []) && Numbers(start, 0) == []
  {}

  /** Which events a query returns: without a cursor, the newest, as many as were asked for and are still there; with
      one, the oldest of those after it that are still there. */
  lemma ReturnedExactly(total: nat, cap: nat, max: nat, after: nat, s: nat)
    requires cap > 0 && max > 0 && total > 0
    ensures s in Numbers(Start(total, cap, max, after), Count(total, cap, max, after))
      <==> && total - cap < s <= total && s > 0
           && if after == 0 then total - s < max
              else after < s && s - (if after < total - cap then total - cap else after) <= max
    ensures Missed(total, cap, after) == if after == 0 || total - cap <= after then 0 else total - cap - after
  {
    var start, count := Start(total, cap, max, after), Count(total, cap, max, after);
    assert s in Numbers(start, count) <==> start <= s < start + count by {
      if start <= s < start + count { assert Numbers(start, count)[s - start] == s; }
    }
  }

  /** The first poll, without a cursor: the newest events up to the last, and nothing counts as missed. The cursor
      is then the last event, from which the laws above go on. */
  lemma FirstPoll(cap: nat, total: nat, max: nat)
    requires cap > 0 && max > 0 && total > 0
    ensures var n := Min(max, Min(cap, total)); var c := After(cap, Consumer(total, 0, [], 0), [Poll(max)]);
      c == Consumer(total, total, Numbers(total - n + 1, n), 0)
  {
    var c0 := Consumer(total, 0, [], 0);
    assert [Poll(max)][..0] == [] && After(cap, c0, []) == c0;
  }

  // ---------- The ring ----------

  lemma SlotsDiffer(s: nat, t: nat)
    requires s < t < s + LIVE_CAP
    ensures s % LIVE_CAP != t % LIVE_CAP
  {
    var q, r := s / LIVE_CAP, t / LIVE_CAP;
    assert s == LIVE_CAP * q + s % LIVE_CAP && t == LIVE_CAP * r + t % LIVE_CAP;
  }

  class AuditLiveRing<T> {
    const liveRing: array<LiveEvent<T>>
    var nextSeq: nat
    /** All events recorded so far. */
    ghost var history: seq<T>

    ghost predicate Valid()
      reads this, liveRing
    {
      && liveRing.Length == LIVE_CAP && nextSeq == |history| + 1
      && forall k :: Oldest(|history|, LIVE_CAP) - 1 <= k < |history| ==>
           liveRing[k % LIVE_CAP] == LiveEvent(k + 1, history[k])
    }

    constructor (zero: T)
      ensures Valid() && history == [] && fresh(liveRing)
    {
      liveRing := new LiveEvent<T>[LIVE_CAP](_ => LiveEvent(0, zero));
      nextSeq := 1;
      history := [];
    }

    /** The live part of audit_logger_record. */
    method Record(ev: T)
      requires Valid()
      modifies this, liveRing
      ensures Valid() && history == old(history) + [ev]
    {
      var idx := (nextSeq - 1) % LIVE_CAP;
      liveRing[idx] := LiveEvent(nextSeq, ev);
      ghost var n := nextSeq;
      nextSeq := nextSeq + 1;
      history := history + [ev];
      forall k | Oldest(|history|, LIVE_CAP) - 1 <= k < |history|
        ensures liveRing[k % LIVE_CAP] == LiveEvent(k + 1, history[k])
      {
        if k < n - 1 {
          SlotsDiffer(k, n - 1);
          assert history[k] == old(history)[k];
        }
      }
    }

    /** The cursor arithmetic of audit_logger_query_recent. */
    static method FindStart(totalPushed: nat, maxCount: nat, after: nat) returns (start: nat, missed: nat)
      requires totalPushed > 0 && maxCount > 0
      ensures start == Start(totalPushed, LIVE_CAP, maxCount, after) && start >= Oldest(totalPushed, LIVE_CAP)
      ensures missed == Missed(totalPushed, LIVE_CAP, after)
    {
      missed := 0;
      var oldest := if totalPushed > LIVE_CAP then totalPushed - LIVE_CAP + 1 else 1;
      if after == 0 {
        if totalPushed > maxCount {
          start := totalPushed - maxCount + 1;
          if start < oldest {
            start := oldest;
          }
        } else {
          start := oldest;
        }
      } else {
        if after < oldest - 1 {
          missed := oldest - 1 - after;
          start := oldest;
        } else {
          start := after + 1;
        }
      }
    }

    /** audit_logger_query_recent into an array of maxCount places. */
    method QueryRecent(out: array<LiveEvent<T>>, maxCount: nat, after: nat) returns (count: nat, missed: nat)
      requires Valid() && maxCount <= out.Length && out != liveRing
      modifies out
      ensures Valid()
      ensures maxCount == 0 || history == [] ==> count == 0 && missed == 0
      ensures maxCount > 0 && history != [] ==> var total := |history|;
        && missed == Missed(total, LIVE_CAP, after)
        && count == Count(total, LIVE_CAP, maxCount, after)
        && forall i :: 0 <= i < count ==>
             var s := Start(total, LIVE_CAP, maxCount, after) + i;
             s <= total && out[i] == LiveEvent(s, history[s - 1])
    {
      hide Start, Missed;
      count, missed := 0, 0;
      if maxCount == 0 {
        return;
      }
      if nextSeq <= 1 {
        return;
      }
      var totalPushed := nextSeq - 1;
      var start;
      start, missed := FindStart(totalPushed, maxCount, after);
      var s := start;
      while s <= totalPushed && count < maxCount
        invariant count <= maxCount && s == start + count && (count == 0 || s <= totalPushed + 1)
        invariant Valid()
        invariant forall i :: 0 <= i < count ==> out[i] == LiveEvent(start + i, history[start + i - 1])
      {
        ghost var k := s - 1;
        assert liveRing[k % LIVE_CAP] == LiveEvent(k + 1, history[k]);
        var idx := (s - 1) % LIVE_CAP;
        out[count] := liveRing[idx];
        count := count + 1;
        s := s + 1;
      }
    }
  }
}
