/** The count of one endpoint's concurrency slot when requests on several threads take and release it
    (src/upstream/model_router.c:111-150). A release subtracts one and, if that was the last one counted, stores 0
    in a second step; anything can happen in between. */
module SlotCounter {
  /** held: the requests admitted and not yet released. pending: the releases that have yet to store their 0. */
  datatype Slot = Slot(count: int, held: nat, pending: nat)

  const UNUSED := Slot(0, 0, 0)

  /** An acquire, whose test and increment are one atomic step, and the two steps of a release. */
  datatype Event = Acquire(limit: int) | Subtract | StoreZero

  predicate Refused(s: Slot, limit: int) {
    limit > 0 && s.count >= limit
  }

  /** Only what is held is released, and only a pending 0 is stored. */
  function Next(s: Slot, e: Event): Slot {
    match e
    case Acquire(limit) => if Refused(s, limit) then s else Slot(s.count + 1, s.held + 1, s.pending)
    case Subtract =>
      if s.held == 0 then s else Slot(s.count - 1, s.held - 1, s.pending + if s.count <= 1 then 1 else 0)
    case StoreZero => if s.pending == 0 then s else Slot(0, s.held, s.pending - 1)
  }

  function After(s: Slot, es: seq<Event>): Slot {
    if es == [] then s else Next(After(s, es[..|es| - 1]), es[|es| - 1])
  }

  lemma AfterNext(s: Slot, es: seq<Event>, e: Event)
    ensures After(s, es + [e]) == Next(After(s, es), e)
  {
    assert (es + [e])[..|es|] == es;
  }

  lemma AfterNone(s: Slot)
    ensures After(s, []) == s
  {}

  /** A release that nothing comes between takes one back, and never goes below zero. */
  lemma AloneIsRelease(s: Slot)
    requires s.held > 0 && s.pending == 0
    ensures After(s, [Subtract, StoreZero]) == Slot(if s.count <= 1 then 0 else s.count - 1, s.held - 1, 0)
  {
    AfterNext(s, [], Subtract);
    AfterNext(s, [Subtract], StoreZero);
    assert [] + [Subtract] == [Subtract] && [Subtract] + [StoreZero] == [Subtract, StoreZero];
  }

  // ---------- What holds in every run ----------

  /** What the stores have wiped out: the counts they found. */
  function Wiped(s: Slot, es: seq<Event>): int {
    if es == [] then 0
    else
      var before := After(s, es[..|es| - 1]);
      Wiped(s, es[..|es| - 1]) + if es[|es| - 1].StoreZero? && before.pending > 0 then before.count else 0
  }

  /** However requests interleave, the count is never above what is held, falls short of it by exactly what the
      stores have wiped out, and is 0 again once everything is released and stored. */
  lemma {:induction false} NeverOvercounts(es: seq<Event>)
    ensures var s := After(UNUSED, es);
      && s.count <= s.held && s.held - s.count == Wiped(UNUSED, es)
      && (s.count < 0 ==> s.pending > 0)
      && (s.held == 0 && s.pending == 0 ==> s.count == 0)
  {
    if es != [] { NeverOvercounts(es[..|es| - 1]); }
  }

  // ---------- When the count is right ----------

  /** Step e does not wipe out what is held. */
  predicate FindsNone(s: Slot, e: Event) {
    e == StoreZero && s.pending > 0 ==> s.held == 0
  }

  /** Every pending 0 is stored at a time when nothing is held. */
  ghost predicate StoresFindNone(es: seq<Event>) {
    forall i {:trigger es[i]} :: 0 <= i < |es| ==> FindsNone(After(UNUSED, es[..i]), es[i])
  }

  predicate RightAfter(es: seq<Event>) {
    After(UNUSED, es).count == After(UNUSED, es).held
  }

  ghost predicate AlwaysRight(es: seq<Event>) {
    forall k {:trigger es[..k]} :: 0 <= k <= |es| ==> RightAfter(es[..k])
  }

  lemma RightNext(es: seq<Event>, e: Event)
    ensures AlwaysRight(es + [e]) <==> AlwaysRight(es) && RightAfter(es + [e])
  {
    hide RightAfter;
    var all, n := es + [e], |es|;
    assert all[..n + 1] == all;
    forall k | 0 <= k <= n ensures all[..k] == es[..k] {}
    if AlwaysRight(all) {
      forall k | 0 <= k <= n ensures RightAfter(es[..k]) { assert all[..k] == es[..k]; }
    }
  }

  lemma StoresNext(es: seq<Event>, e: Event)
    ensures StoresFindNone(es + [e]) <==> StoresFindNone(es) && FindsNone(After(UNUSED, es), e)
  {
    hide After, FindsNone;
    var all, n := es + [e], |es|;
    assert all[..n] == es && all[n] == e;
    forall k | 0 <= k < n ensures all[..k] == es[..k] && all[k] == es[k] {}
    if StoresFindNone(all) {
      forall k | 0 <= k < n ensures FindsNone(After(UNUSED, es[..k]), es[k]) { assert all[..k] == es[..k]; }
    }
  }

  /** The count is what is held at every moment of a run exactly when every 0 is stored while nothing is held. */
  lemma {:induction false} RightExactly(es: seq<Event>)
    ensures AlwaysRight(es) <==> StoresFindNone(es)
  {
    hide After, AlwaysRight, StoresFindNone;
    if es == [] {
      NothingIsRight();
    } else {
      var front, e := es[..|es| - 1], es[|es| - 1];
      assert es == front + [e];
      RightExactly(front);
      RightNext(front, e);
      StoresNext(front, e);
      AfterNext(UNUSED, front, e);
      RightNow(front);
    }
  }

  lemma NothingIsRight()
    ensures AlwaysRight([]) && StoresFindNone([])
  {}

  lemma RightNow(es: seq<Event>)
    ensures AlwaysRight(es) ==> RightAfter(es)
  {
    assert es[..|es|] == es;
  }

  // ---------- The limit ----------

  ghost predicate LimitedTo(es: seq<Event>, limit: int) {
    forall i :: 0 <= i < |es| && es[i].Acquire? ==> es[i].limit == limit
  }

  /** In every run with one limit, no more are held than the limit and the most that has been wiped out at any
      time. */
  lemma {:induction false} HeldWithin(es: seq<Event>, limit: int, wiped: nat)
    requires limit > 0 && LimitedTo(es, limit)
    requires forall k {:trigger es[..k]} :: 0 <= k <= |es| ==> Wiped(UNUSED, es[..k]) <= wiped
    ensures After(UNUSED, es).held <= limit + wiped
  {
    hide Wiped;
    if es != [] {
      var n := |es| - 1;
      assert forall k :: 0 <= k <= n ==> es[..n][..k] == es[..k];
      HeldWithin(es[..n], limit, wiped);
      NeverOvercounts(es[..n]);
      assert Wiped(UNUSED, es[..n]) <= wiped;
    }
  }

  /** So the limit is kept as long as the count is right. */
  lemma LimitKept(es: seq<Event>, limit: int)
    requires limit > 0 && LimitedTo(es, limit) && StoresFindNone(es)
    ensures After(UNUSED, es).held <= limit
  {
    hide After, Wiped;
    RightExactly(es);
    forall k | 0 <= k <= |es| ensures Wiped(UNUSED, es[..k]) <= 0 {
      NeverOvercounts(es[..k]);
    }
    HeldWithin(es, limit, 0);
  }

  function Acquires(n: nat, limit: int): seq<Event> {
    if n == 0 then [] else Acquires(n - 1, limit) + [Acquire(limit)]
  }

  /** What was wiped out can be taken again: new requests are admitted until the count is at the limit, when as
      many more are held as were wiped out. */
  lemma {:induction false} WipedIsAdmittedAgain(s: Slot, n: nat, limit: int)
    requires limit > 0 && s.count + n <= limit
    ensures After(s, Acquires(n, limit)) == Slot(s.count + n, s.held + n, s.pending)
    ensures s.count + n == limit ==> After(s, Acquires(n, limit)).held == limit + (s.held - s.count)
  {
    if n > 0 {
      WipedIsAdmittedAgain(s, n - 1, limit);
      AfterNext(s, Acquires(n - 1, limit), Acquire(limit));
    }
  }

  /** An acquire between the two steps of a release is lost, and a limit of one lets two requests in. */
  lemma LostAcquire()
    ensures var a: seq<Event> := [Acquire(1)];
      After(UNUSED, a + [Subtract] + a + [StoreZero] + a) == Slot(1, 2, 0)
  {
    hide After;
    var a: seq<Event> := [Acquire(1)];
    AfterNone(UNUSED);
    AfterNext(UNUSED, [], Acquire(1));
    assert [] + a == a;
    AfterNext(UNUSED, a, Subtract);
    AfterNext(UNUSED, a + [Subtract], Acquire(1));
    AfterNext(UNUSED, a + [Subtract] + a, StoreZero);
    AfterNext(UNUSED, a + [Subtract] + a + [StoreZero], Acquire(1));
  }
}
