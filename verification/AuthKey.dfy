/** Key verification of src/policy/auth_key.c: a positive and a negative LRU cache in front of a key
    store. The hash of the bearer token and the store are given; the clock is a parameter. */
module AuthKey {
  import opened Options
  import opened LruSpec
  import opened Lru

  const RECS_CAP := 4096
  const NEG_CAP := 256

  const OK := 0
  const ERR_UNKNOWN := -1
  const ERR_REVOKED := -2
  const ERR_EXPIRED := -3
  const ERR_CANARY := -4

  /** keyId stands for everything of a record that no check reads. */
  datatype KeyRec = KeyRec(keyId: int, isCanary: bool, revoked: bool, hasExpiry: bool, expiresAt: int)

  datatype Answer = Answer(code: int, rec: Option<KeyRec>)

  /** The code a record earns at a time, in the order of the checks. */
  function CodeOf(r: KeyRec, now: int): int {
    if r.isCanary then ERR_CANARY
    else if r.revoked then ERR_REVOKED
    else if r.hasExpiry && r.expiresAt < now then ERR_EXPIRED
    else OK
  }

  /** What a caller can rely on: the code, and the record when the code is OK or canary. */
  function Visible(a: Answer): Answer {
    if a.code == OK || a.code == ERR_CANARY then a else Answer(a.code, None)
  }

  function RowOf(rows: map<string, KeyRec>, h: string): Option<KeyRec> {
    if h in rows then Some(rows[h]) else None
  }

  function AnswerFor(row: Option<KeyRec>, now: int): Answer {
    if row.None? then Answer(ERR_UNKNOWN, None) else Visible(Answer(CodeOf(row.value, now), row))
  }

  /** The answer of a lookup that goes to the store every time. */
  function Uncached(rows: map<string, KeyRec>, h: string, now: int): Answer {
    AnswerFor(RowOf(rows, h), now)
  }

  /** Both caches and the store. */
  datatype Auth = Auth(recs: seq<Entry<KeyRec>>, neg: seq<Entry<int>>, rows: map<string, KeyRec>)

  ghost predicate Sane(a: Auth) {
    Inv(a.recs, RECS_CAP) && Inv(a.neg, NEG_CAP)
  }

  /** auth_key_resolve on a hashed token. */
  function ResolveAnswer(a: Auth, h: string, now: int, storeFails: bool): Answer {
    var hit := Lookup(a.recs, h);
    if hit.Some? then Answer(CodeOf(hit.value, now), hit)
    else if Lookup(a.neg, h).Some? || storeFails then Answer(ERR_UNKNOWN, None)
    else Uncached(a.rows, h, now)
  }

  predicate Cached(r: KeyRec, now: int) {
    CodeOf(r, now) == OK || CodeOf(r, now) == ERR_CANARY
  }

  /** What the end of a resolve caches: the absence of a row, or a row that lets the key in or is a canary. */
  function AfterFill(a: Auth, h: string, row: Option<KeyRec>, now: int): Auth {
    if row.None? then a.(neg := AfterPut(a.neg, NEG_CAP, h, 1))
    else if Cached(row.value, now) then a.(recs := AfterPut(a.recs, RECS_CAP, h, row.value))
    else a
  }

  function AfterResolve(a: Auth, h: string, now: int, storeFails: bool): Auth {
    if Lookup(a.recs, h).Some? then a.(recs := AfterGet(a.recs, h))
    else if Lookup(a.neg, h).Some? then a.(neg := AfterGet(a.neg, h))
    else if storeFails then a
    else AfterFill(a, h, RowOf(a.rows, h), now)
  }

  /** auth_key_invalidate. */
  function AfterDrop(a: Auth, h: string): Auth {
    Auth(AfterInvalidate(a.recs, h), AfterInvalidate(a.neg, h), a.rows)
  }

  /** A change of one row of the store; None deletes it. The caches do not hear of it. */
  function AfterUpdate(a: Auth, h: string, row: Option<KeyRec>): Auth {
    a.(rows := if row.Some? then a.rows[h := row.value] else a.rows - {h})
  }

  // ---------- Requests on several threads ----------

  /** How far a resolve has come between two of its steps. A thread without a stage is not resolving. */
  datatype Stage =
    | MissedRecs(h: string)
    | MissedBoth(h: string)
    | Fetched(h: string, row: Option<KeyRec>)

  datatype Sys = Sys(auth: Auth, threads: map<nat, Stage>)

  /** The steps of resolves on any threads, of store changes and of invalidations, in any order. Each access to
      a cache or to the store is a step. */
  datatype Event =
    | Begin(t: nat, h: string, now: int)
    | LookNeg(t: nat)
    | Fetch(t: nat, storeFails: bool)
    | Fill(t: nat, now: int)
    | Update(h: string, row: Option<KeyRec>)
    | DropRecs(h: string)
    | DropNeg(h: string)

  /** A step that is not the thread's next one does nothing. */
  function After(s: Sys, e: Event): Sys {
    var a := s.auth;
    match e
    case Begin(t, h, _) =>
      if t in s.threads then s
      else if Lookup(a.recs, h).Some? then s.(auth := a.(recs := AfterGet(a.recs, h)))
      else s.(threads := s.threads[t := MissedRecs(h)])
    case LookNeg(t) =>
      if t !in s.threads || !s.threads[t].MissedRecs? then s
      else
        var h := s.threads[t].h;
        if Lookup(a.neg, h).Some? then Sys(a.(neg := AfterGet(a.neg, h)), s.threads - {t})
        else s.(threads := s.threads[t := MissedBoth(h)])
    case Fetch(t, fails) =>
      if t !in s.threads || !s.threads[t].MissedBoth? then s
      else if fails then s.(threads := s.threads - {t})
      else s.(threads := s.threads[t := Fetched(s.threads[t].h, RowOf(a.rows, s.threads[t].h))])
    case Fill(t, now) =>
      if !Pending(s, t) then s
      else Sys(AfterFill(a, s.threads[t].h, s.threads[t].row, now), s.threads - {t})
    case Update(h, row) => s.(auth := AfterUpdate(a, h, row))
    case DropRecs(h) => s.(auth := a.(recs := AfterInvalidate(a.recs, h)))
    case DropNeg(h) => s.(auth := a.(neg := AfterInvalidate(a.neg, h)))
  }

  /** The thread holds a row that it has read and not yet cached. */
  predicate Pending(s: Sys, t: nat) {
    t in s.threads && s.threads[t].Fetched?
  }

  function Run(s: Sys, events: seq<Event>): Sys {
    if events == [] then s else After(Run(s, events[..|events| - 1]), events[|events| - 1])
  }

  /** The answer that a resolve gives in this step, if it ends here. */
  function Reply(s: Sys, e: Event): Option<Answer> {
    match e
    case Begin(t, h, now) =>
      var hit := Lookup(s.auth.recs, h);
      if t !in s.threads && hit.Some? then Some(Answer(CodeOf(hit.value, now), hit)) else None
    case LookNeg(t) =>
      if t in s.threads && s.threads[t].MissedRecs? && Lookup(s.auth.neg, s.threads[t].h).Some?
      then Some(Answer(ERR_UNKNOWN, None)) else None
    case Fetch(t, fails) =>
      if t in s.threads && s.threads[t].MissedBoth? && fails then Some(Answer(ERR_UNKNOWN, None)) else None
    case Fill(t, now) => if Pending(s, t) then Some(AnswerFor(s.threads[t].row, now)) else None
    case _ => None
  }

  function Replies(s: Sys, events: seq<Event>): seq<Answer> {
    if events == [] then []
    else
      var front := events[..|events| - 1];
      var a := Reply(Run(s, front), events[|events| - 1]);
      Replies(s, front) + if a.Some? then [a.value] else []
  }

  /** Both caches empty, and nobody resolving. */
  function Empty(rows: map<string, KeyRec>): Sys {
    Sys(Auth([], [], rows), map[])
  }

  lemma RunNext(s: Sys, events: seq<Event>, e: Event)
    ensures Run(s, events + [e]) == After(Run(s, events), e)
  {
    assert (events + [e])[..|events|] == events;
  }

  lemma RepliesNext(s: Sys, events: seq<Event>, e: Event)
    ensures var a := Reply(Run(s, events), e);
      Replies(s, events + [e]) == if a.Some? then Replies(s, events) + [a.value] else Replies(s, events)
  {
    hide Reply, Run;
    assert (events + [e])[..|events|] == events;
  }

  lemma Nothing(s: Sys)
    ensures Run(s, []) == s && Replies(s, []) == []
  {}

  /** Without interference the steps of one thread are the whole resolve, with its one answer. */
  lemma AloneIsAtomic(s: Sys, t: nat, h: string, now: int, fails: bool)
    requires t !in s.threads
    ensures var events := [Begin(t, h, now), LookNeg(t), Fetch(t, fails), Fill(t, now)];
      && Run(s, events) == Sys(AfterResolve(s.auth, h, now, fails), s.threads)
      && Replies(s, events) == [ResolveAnswer(s.auth, h, now, fails)]
  {
    hide AfterGet, AfterFill, Lookup, RowOf, CodeOf, AnswerFor, Run, Replies;
    var p1 := [Begin(t, h, now)];
    var p2 := p1 + [LookNeg(t)];
    var p3 := p2 + [Fetch(t, fails)];
    assert [] + p1 == p1 && p3 + [Fill(t, now)] == [Begin(t, h, now), LookNeg(t), Fetch(t, fails), Fill(t, now)];
    Nothing(s);
    RunNext(s, [], Begin(t, h, now));
    RunNext(s, p1, LookNeg(t));
    RunNext(s, p2, Fetch(t, fails));
    RunNext(s, p3, Fill(t, now));
    RepliesNext(s, [], Begin(t, h, now));
    RepliesNext(s, p1, LookNeg(t));
    RepliesNext(s, p2, Fetch(t, fails));
    RepliesNext(s, p3, Fill(t, now));
  }

  // ---------- What one step does to the entries of a key ----------

  lemma EntryMember<V>(s: seq<Entry<V>>, h: string)
    requires DistinctKeys(s)
    ensures Lookup(s, h).Some? ==> Entry(h, Lookup(s, h).value) in s
    ensures forall e :: e in s && e.key == h ==> Lookup(s, h) == Some(e.val)
  {
    LookupIsMember(s, h);
  }

  /** Two maps with the same entries of key h. */
  lemma SameEntry<V>(s: seq<Entry<V>>, s': seq<Entry<V>>, h: string)
    requires DistinctKeys(s) && DistinctKeys(s')
    requires forall v: V :: Entry(h, v) in s' ==> Entry(h, v) in s
    ensures Lookup(s', h) == Lookup(s, h) || Lookup(s', h).None?
    ensures (forall v: V :: Entry(h, v) in s ==> Entry(h, v) in s') ==> Lookup(s', h) == Lookup(s, h)
  {
    hide Lookup, DistinctKeys;
    EntryMember(s, h);
    EntryMember(s', h);
  }

  lemma GetStep<V>(s: seq<Entry<V>>, cap: nat, k: string, h: string)
    requires Inv(s, cap) && cap >= 1
    ensures Inv(AfterGet(s, k), cap) && Lookup(AfterGet(s, k), h) == Lookup(s, h)
  {
    hide AfterGet, IndexOf, Lookup, DistinctKeys;
    StepInv(State(s, []), cap, Get(k));
    StepMembers(State(s, []), cap, Get(k));
    SameEntry(s, AfterGet(s, k), h);
  }

  lemma PutStep<V>(s: seq<Entry<V>>, cap: nat, k: string, v: V, h: string)
    requires Inv(s, cap) && cap >= 1
    ensures var s' := AfterPut(s, cap, k, v);
      Inv(s', cap) && if h == k then Lookup(s', h) == Some(v)
                      else Lookup(s', h) == Lookup(s, h) || Lookup(s', h).None?
  {
    hide AfterPut, IndexOf, Lookup, DistinctKeys;
    var s' := AfterPut(s, cap, k, v);
    StepInv(State(s, []), cap, Put(k, v));
    StepMembers(State(s, []), cap, Put(k, v));
    if h == k {
      assert Entry(k, v) in s';
      EntryMember(s', h);
    } else {
      SameEntry(s, s', h);
    }
  }

  lemma InvalidateStep<V>(s: seq<Entry<V>>, cap: nat, k: string, h: string)
    requires Inv(s, cap) && cap >= 1
    ensures var s' := AfterInvalidate(s, k);
      Inv(s', cap) && Lookup(s', h) == if h == k then None else Lookup(s, h)
  {
    hide AfterInvalidate, IndexOf, Lookup, DistinctKeys;
    var s' := AfterInvalidate(s, k);
    StepInv(State(s, []), cap, Invalidate(k));
    StepMembers(State(s, []), cap, Invalidate(k));
    if h == k { EntryMember(s', h); } else { SameEntry(s, s', h); }
  }

  lemma GetMiss<V>(s: seq<Entry<V>>, h: string)
    ensures Lookup(s, h).None? ==> AfterGet(s, h) == s
  {}

  /** The step caches the row of h that its thread holds. */
  predicate FillsRecs(s: Sys, e: Event, h: string) {
    e.Fill? && Pending(s, e.t) && s.threads[e.t].h == h && s.threads[e.t].row.Some?
    && Cached(s.threads[e.t].row.value, e.now)
  }

  /** The step caches that h has no row. */
  predicate FillsNeg(s: Sys, e: Event, h: string) {
    e.Fill? && Pending(s, e.t) && s.threads[e.t] == Fetched(h, None)
  }

  /** How one step changes the entries of h: the end of a resolve of h writes the row that its thread had read, an
      invalidation removes one entry, and otherwise they stay or are evicted. */
  lemma HeldStep(s: Sys, e: Event, h: string)
    requires Sane(s.auth)
    ensures var a, b := s.auth, After(s, e).auth;
      && Sane(b)
      && (e == DropRecs(h) ==> Lookup(b.recs, h).None?)
      && (e == DropNeg(h) ==> Lookup(b.neg, h).None?)
      && (if FillsRecs(s, e, h) then Lookup(b.recs, h) == s.threads[e.t].row
          else Lookup(b.recs, h) == Lookup(a.recs, h) || Lookup(b.recs, h).None?)
      && (!FillsNeg(s, e, h) ==> Lookup(b.neg, h) == Lookup(a.neg, h) || Lookup(b.neg, h).None?)
  {
    hide AfterGet, AfterPut, AfterInvalidate, IndexOf, Lookup, Inv, CodeOf;
    var a := s.auth;
    var k := if e.Update? || e.DropRecs? || e.DropNeg? || e.Begin? then e.h
             else if e.t in s.threads then s.threads[e.t].h else h;
    GetStep(a.recs, RECS_CAP, k, h);
    GetStep(a.neg, NEG_CAP, k, h);
    InvalidateStep(a.recs, RECS_CAP, k, h);
    InvalidateStep(a.neg, NEG_CAP, k, h);
    PutStep(a.neg, NEG_CAP, k, 1, h);
    if e.Fill? && Pending(s, e.t) && s.threads[e.t].row.Some? {
      PutStep(a.recs, RECS_CAP, k, s.threads[e.t].row.value, h);
    }
  }

  /** A thread that holds a row got it from the store as it then was, and keeps it until it fills. */
  lemma PendingStep(s: Sys, e: Event, t: nat)
    ensures var s' := After(s, e);
      Pending(s', t) ==>
        if Pending(s, t) then s'.threads[t] == s.threads[t]
        else e == Fetch(t, false) && s'.threads[t].row == RowOf(s.auth.rows, s'.threads[t].h)
  {
    hide AfterGet, AfterPut, AfterInvalidate, Lookup, AfterFill, AfterUpdate, RowOf;
  }

  // ---------- When the answers for a key are right ----------

  /** Every resolve of h whose store access works and that meets no interference answers as a lookup without
      caches would, at any time. */
  ghost predicate RightFor(a: Auth, h: string) {
    forall now :: Visible(ResolveAnswer(a, h, now, false)) == Uncached(a.rows, h, now)
  }

  /** Two records that earn the same answers at all times: equal, or both revoked. */
  predicate Interchangeable(r: KeyRec, q: KeyRec) {
    r == q || (!r.isCanary && !q.isCanary && r.revoked && q.revoked)
  }

  lemma VisibleRecords(r: KeyRec, q: KeyRec)
    ensures (forall now :: Visible(Answer(CodeOf(r, now), Some(r))) == Visible(Answer(CodeOf(q, now), Some(q))))
            <==> Interchangeable(r, q)
  {
    var early := if r.hasExpiry then r.expiresAt else 0;
    var a, b := Visible(Answer(CodeOf(r, early), Some(r))), Visible(Answer(CodeOf(q, early), Some(q)));
    var c, d := Visible(Answer(CodeOf(r, q.expiresAt), Some(r))), Visible(Answer(CodeOf(q, q.expiresAt), Some(q)));
    assert a == b && c == d ==> Interchangeable(r, q);
  }

  /** In any state, the answers for h are right exactly when a cached record is interchangeable with the row, and
      without one a negative entry is for a key that the store does not have. */
  lemma RightExactly(a: Auth, h: string)
    ensures RightFor(a, h)
      <==> if Lookup(a.recs, h).Some?
           then h in a.rows && Interchangeable(Lookup(a.recs, h).value, a.rows[h])
           else Lookup(a.neg, h).Some? ==> h !in a.rows
  {
    hide Lookup;
    var hit := Lookup(a.recs, h);
    if hit.Some? && h in a.rows {
      VisibleRecords(hit.value, a.rows[h]);
      assert forall now :: Visible(ResolveAnswer(a, h, now, false)) == Visible(Answer(CodeOf(hit.value, now), hit));
      assert forall now :: Uncached(a.rows, h, now) == Visible(Answer(CodeOf(a.rows[h], now), Some(a.rows[h])));
    } else {
      assert RightFor(a, h) ==> Visible(ResolveAnswer(a, h, 0, false)) == Uncached(a.rows, h, 0);
    }
  }

  // ---------- Where the entries of a key come from ----------

  /** The step in which a thread read the row that it holds. */
  function FetchOf(s: Sys, events: seq<Event>, t: nat): (f: Option<nat>)
    ensures f.Some? ==> f.value < |events|
  {
    if events == [] || !Pending(Run(s, events), t) then None
    else
      var n := |events| - 1;
      if Pending(Run(s, events[..n]), t) then FetchOf(s, events[..n], t) else Some(n)
  }

  /** The step that wrote the record that is cached for h. */
  function RecsFill(s: Sys, events: seq<Event>, h: string): (g: Option<nat>)
    ensures g.Some? ==> g.value < |events| && events[g.value].Fill?
  {
    if events == [] || Lookup(Run(s, events).auth.recs, h).None? then None
    else
      var n := |events| - 1;
      if FillsRecs(Run(s, events[..n]), events[n], h) then Some(n) else RecsFill(s, events[..n], h)
  }

  /** The step that wrote the negative entry of h. */
  function NegFill(s: Sys, events: seq<Event>, h: string): (g: Option<nat>)
    ensures g.Some? ==> g.value < |events| && events[g.value].Fill?
  {
    if events == [] || Lookup(Run(s, events).auth.neg, h).None? then None
    else
      var n := |events| - 1;
      if FillsNeg(Run(s, events[..n]), events[n], h) then Some(n) else NegFill(s, events[..n], h)
  }

  /** The step in which the entry that answers for h was read from the store. */
  function HeldFrom(s: Sys, events: seq<Event>, h: string): Option<nat> {
    var g := if RecsFill(s, events, h).Some? then RecsFill(s, events, h) else NegFill(s, events, h);
    if g.None? then None else FetchOf(s, events[..g.value], events[g.value].t)
  }

  /** The row that h has in the store before step i. */
  function RowBefore(s: Sys, events: seq<Event>, i: nat, h: string): Option<KeyRec>
    requires i <= |events|
  {
    RowOf(Run(s, events[..i]).auth.rows, h)
  }

  lemma {:induction false} RunIsSane(rows: map<string, KeyRec>, events: seq<Event>)
    ensures Sane(Run(Empty(rows), events).auth)
  {
    hide After, Lookup, Inv;
    if events == [] {
      EmptyIsSane(rows);
    } else {
      var n := |events| - 1;
      RunIsSane(rows, events[..n]);
      HeldStep(Run(Empty(rows), events[..n]), events[n], "");
    }
  }

  lemma EmptyIsSane(rows: map<string, KeyRec>)
    ensures Sane(Empty(rows).auth)
    ensures forall h :: Lookup(Empty(rows).auth.recs, h).None? && Lookup(Empty(rows).auth.neg, h).None?
  {}

  /** What a thread holds is the row as it was at its fetch, which is pending ever since. */
  lemma {:induction false} HeldIsRowAtFetch(rows: map<string, KeyRec>, events: seq<Event>, t: nat)
    ensures var a := Empty(rows); var b := Run(a, events); var f := FetchOf(a, events, t);
      && (f.Some? <==> Pending(b, t))
      && (f.Some? ==>
            && events[f.value] == Fetch(t, false)
            && b.threads[t].row == RowBefore(a, events, f.value, b.threads[t].h)
            && (forall m :: f.value < m <= |events| ==>
                  FetchOf(a, events[..m], t) == f && Run(a, events[..m]).threads.Keys >= {t}
                  && Run(a, events[..m]).threads[t] == b.threads[t]))
  {
    hide After, RowOf;
    var a := Empty(rows);
    if events != [] {
      var n := |events| - 1;
      HeldIsRowAtFetch(rows, events[..n], t);
      PendingStep(Run(a, events[..n]), events[n], t);
      assert events[..n + 1] == events;
      assert forall m :: 0 <= m <= n ==> events[..n][..m] == events[..m];
    }
  }

  /** A cached record was written by the step that RecsFill names, and has not been invalidated since. */
  lemma {:induction false} RecsIsFilled(rows: map<string, KeyRec>, events: seq<Event>, h: string)
    ensures var a := Empty(rows); var b := Run(a, events); var g := RecsFill(a, events, h);
      && (g.Some? <==> Lookup(b.auth.recs, h).Some?)
      && (g.Some? ==> var s := Run(a, events[..g.value]);
            && FillsRecs(s, events[g.value], h) && Lookup(b.auth.recs, h) == s.threads[events[g.value].t].row
            && (forall j :: g.value < j < |events| ==> events[j] != DropRecs(h)))
  {
    hide After, Lookup, Sane, FillsRecs;
    var a := Empty(rows);
    if events == [] {
      EmptyIsSane(rows);
    } else {
      var n := |events| - 1;
      RunIsSane(rows, events[..n]);
      RecsIsFilled(rows, events[..n], h);
      HeldStep(Run(a, events[..n]), events[n], h);
      var g := RecsFill(a, events[..n], h);
      if g.Some? { assert events[..n][..g.value] == events[..g.value]; }
    }
  }

  lemma {:induction false} NegIsFilled(rows: map<string, KeyRec>, events: seq<Event>, h: string)
    ensures var a := Empty(rows); var g := NegFill(a, events, h);
      && (g.Some? <==> Lookup(Run(a, events).auth.neg, h).Some?)
      && (g.Some? ==>
            && FillsNeg(Run(a, events[..g.value]), events[g.value], h)
            && (forall j :: g.value < j < |events| ==> events[j] != DropNeg(h)))
  {
    hide After, Lookup, Sane, FillsNeg;
    var a := Empty(rows);
    if events == [] {
      EmptyIsSane(rows);
    } else {
      var n := |events| - 1;
      RunIsSane(rows, events[..n]);
      NegIsFilled(rows, events[..n], h);
      HeldStep(Run(a, events[..n]), events[n], h);
      var g := NegFill(a, events[..n], h);
      if g.Some? { assert events[..n][..g.value] == events[..g.value]; }
    }
  }

  /** The entry of h that answers is what the row was at the fetch that HeldFrom names; in particular a record
      that is held was not revoked then, but for a canary. */
  lemma HeldIsFetched(rows: map<string, KeyRec>, events: seq<Event>, h: string)
    ensures var a := Empty(rows); var b := Run(a, events).auth; var f := HeldFrom(a, events, h);
      && (f.Some? <==> Lookup(b.recs, h).Some? || Lookup(b.neg, h).Some?)
      && (f.Some? ==>
            && f.value < |events| && Lookup(b.recs, h) == RowBefore(a, events, f.value, h)
            && (Lookup(b.recs, h).Some? ==>
                  Lookup(b.recs, h).value.isCanary || !Lookup(b.recs, h).value.revoked))
  {
    hide Lookup, RecsFill, NegFill, FetchOf, Run, RowOf;
    var a := Empty(rows);
    RecsIsFilled(rows, events, h);
    NegIsFilled(rows, events, h);
    var g := if RecsFill(a, events, h).Some? then RecsFill(a, events, h) else NegFill(a, events, h);
    if g.Some? {
      HeldIsRowAtFetch(rows, events[..g.value], events[g.value].t);
      var f := FetchOf(a, events[..g.value], events[g.value].t);
      assert events[..g.value][..f.value] == events[..f.value];
    }
  }

  /** Over any run of steps of any threads from empty caches, whatever either LRU has evicted: the answers for h
      are right exactly when no cache holds h, or its row is what it was when the held entry was fetched. */
  lemma RunRightExactly(rows: map<string, KeyRec>, events: seq<Event>, h: string)
    ensures var a := Empty(rows); var f := HeldFrom(a, events, h);
      (f.Some? ==> f.value < |events|)
      && (RightFor(Run(a, events).auth, h)
          <==> (f.Some? ==> RowBefore(a, events, f.value, h) == RowBefore(a, events, |events|, h)))
  {
    hide Lookup, RightFor, HeldFrom, Run;
    HeldIsFetched(rows, events, h);
    RightExactly(Run(Empty(rows), events).auth, h);
    assert events[..|events|] == events;
  }

  // ---------- What an answer says ----------

  /** The answer that a row deserves at a time: 0 lets the key in, -4 is a canary, -2 revoked, -3 expired, and -1
      unknown. A key is good up to and including its last second. */
  ghost predicate Earned(a: Answer, row: Option<KeyRec>, now: int) {
    && (a.code == -1 <==> row.None?)
    && (a.code == -4 <==> row.Some? && row.value.isCanary)
    && (a.code == -2 <==> row.Some? && !row.value.isCanary && row.value.revoked)
    && (a.code == -3 <==> row.Some? && !row.value.isCanary && !row.value.revoked
                          && row.value.hasExpiry && row.value.expiresAt < now)
    && (a.code == 0 <==> row.Some? && !row.value.isCanary && !row.value.revoked
                         && (row.value.hasExpiry ==> now <= row.value.expiresAt))
    && (a.code == 0 || a.code == -4 ==> a.rec == row)
  }

  /** In any state: a resolve's answer is what the cached record deserves; without one it is "unknown" if a negative
      entry says so or the store fails, and else what the row deserves. */
  lemma ResolveExactly(a: Auth, h: string, now: int, storeFails: bool)
    ensures var r := ResolveAnswer(a, h, now, storeFails);
      if Lookup(a.recs, h).Some? then Earned(r, Lookup(a.recs, h), now) && r.rec == Lookup(a.recs, h)
      else if Lookup(a.neg, h).Some? || storeFails then r == Answer(-1, None)
      else
        && Earned(r, if h in a.rows then Some(a.rows[h]) else None, now)
        && (r.rec.Some? ==> r.code == 0 || r.code == -4)
  {
    hide Lookup;
  }

  /** What it leaves in the caches for its key: what it found there and, if the store was asked, a row that is a
      canary or lets the key in now, or the absence of a row. */
  lemma ResolveCaches(a: Auth, h: string, now: int, storeFails: bool)
    requires Sane(a)
    ensures var b := AfterResolve(a, h, now, storeFails);
      var asked := Lookup(a.recs, h).None? && Lookup(a.neg, h).None? && !storeFails;
      && Sane(b) && b.rows == a.rows
      && Lookup(b.recs, h) == (
           if asked && h in a.rows
              && (a.rows[h].isCanary
                  || (!a.rows[h].revoked && (a.rows[h].hasExpiry ==> now <= a.rows[h].expiresAt)))
           then Some(a.rows[h]) else Lookup(a.recs, h))
      && (Lookup(b.neg, h).Some? <==> Lookup(a.neg, h).Some? || (asked && h !in a.rows))
  {
    hide AfterGet, AfterPut, IndexOf, Lookup, Inv;
    GetStep(a.recs, RECS_CAP, h, h);
    GetStep(a.neg, NEG_CAP, h, h);
    PutStep(a.neg, NEG_CAP, h, 1, h);
    if h in a.rows { PutStep(a.recs, RECS_CAP, h, a.rows[h], h); }
  }

  /** Over any run of steps of any threads: every answer but that of a failing store is what the key's row, as some
      fetch read it, deserves at the time of the answer. */
  lemma AnswersAreEarned(rows: map<string, KeyRec>, events: seq<Event>, e: Event) returns (f: nat)
    requires Reply(Run(Empty(rows), events), e).Some? && !e.Fetch?
    ensures var a := Empty(rows); var s := Run(a, events); var h := if e.Begin? then e.h else s.threads[e.t].h;
      && f < |events| && events[f].Fetch?
      && Fetched(h, RowBefore(a, events, f, h)) in Run(a, events[..f + 1]).threads.Values
      && Earned(Reply(s, e).value, RowBefore(a, events, f, h), if e.LookNeg? then 0 else e.now)
  {
    hide Run, FetchOf, RecsFill, NegFill, Lookup, RowOf;
    var a, s := Empty(rows), Run(Empty(rows), events);
    if e.Fill? {
      HeldIsRowAtFetch(rows, events, e.t);
      f := FetchOf(a, events, e.t).value;
      assert Run(a, events[..f + 1]).threads[e.t] == s.threads[e.t];
    } else {
      var h := if e.Begin? then e.h else s.threads[e.t].h;
      RecsIsFilled(rows, events, h);
      NegIsFilled(rows, events, h);
      var g := if e.Begin? then RecsFill(a, events, h).value else NegFill(a, events, h).value;
      HeldIsRowAtFetch(rows, events[..g], events[g].t);
      f := FetchOf(a, events[..g], events[g].t).value;
      assert events[..g][..f] == events[..f] && events[..g][..f + 1] == events[..f + 1];
      assert Run(a, events[..f + 1]).threads[events[g].t] == Run(a, events[..g]).threads[events[g].t];
    }
  }

  // ---------- With invalidation, the caches are invisible ----------

  /** Before step j, no thread holds a row of h that it has read before step i. */
  ghost predicate NoOldFetch(a: Sys, events: seq<Event>, i: nat, j: nat, h: string)
    requires j <= |events|
  {
    forall t :: Pending(Run(a, events[..j]), t) && Run(a, events[..j]).threads[t].h == h ==>
      FetchOf(a, events[..j], t).Some? && FetchOf(a, events[..j], t).value > i
  }

  /** Step i is followed by this invalidation of h, when every fetch of h from before it has come to its end. */
  ghost predicate FollowedBy(a: Sys, events: seq<Event>, i: nat, drop: Event, h: string) {
    exists j :: i < j < |events| && events[j] == drop && NoOldFetch(a, events, i, j, h)
  }

  /** Every change of the row of h is followed by an invalidation of h in each cache. */
  ghost predicate Invalidated(a: Sys, events: seq<Event>, h: string) {
    forall i :: 0 <= i < |events| && events[i].Update? && events[i].h == h ==>
      FollowedBy(a, events, i, DropRecs(h), h) && FollowedBy(a, events, i, DropNeg(h), h)
  }

  /** Without a change of its own, a row stays. */
  lemma {:induction false} RowStays(a: Sys, events: seq<Event>, i: nat, j: nat, h: string)
    requires i <= j <= |events|
    requires forall k :: i <= k < j ==> !(events[k].Update? && events[k].h == h)
    ensures RowBefore(a, events, i, h) == RowBefore(a, events, j, h)
    decreases j
  {
    hide AfterGet, AfterPut, AfterInvalidate, Lookup;
    if i < j {
      RowStays(a, events, i, j - 1, h);
      assert events[..j][..j - 1] == events[..j - 1];
    }
  }

  /** An entry that was fetched at f, filled at g and not dropped since cannot be followed by its drop as above
      for any step after f. */
  lemma NotFollowed(rows: map<string, KeyRec>, events: seq<Event>, g: nat, i: nat, drop: Event, h: string)
    requires g < |events| && events[g].Fill?
    requires var a := Empty(rows); var t := events[g].t;
      && Pending(Run(a, events[..g]), t) && Run(a, events[..g]).threads[t].h == h
      && FetchOf(a, events[..g], t).Some? && FetchOf(a, events[..g], t).value < i
    requires drop == DropRecs(h) || drop == DropNeg(h)
    requires forall j :: g < j < |events| ==> events[j] != drop
    ensures !FollowedBy(Empty(rows), events, i, drop, h)
  {
    hide FetchOf, Run;
    var a, t := Empty(rows), events[g].t;
    HeldIsRowAtFetch(rows, events[..g], t);
    var f := FetchOf(a, events[..g], t).value;
    forall j | i < j < |events| && events[j] == drop ensures !NoOldFetch(a, events, i, j, h) {
      assert f < j <= g && events[..g][..j] == events[..j];
      assert Run(a, events[..j]).threads[t] == Run(a, events[..g]).threads[t];
    }
  }

  /** If every change of the row of h is followed by an invalidation of h in each cache, after the end of every
      fetch that was made before the change, then what either cache holds for h is its row. */
  lemma HeldIsCurrent(rows: map<string, KeyRec>, events: seq<Event>, h: string)
    requires Invalidated(Empty(rows), events, h)
    ensures var b := Run(Empty(rows), events).auth; var row := RowOf(b.rows, h);
      && (Lookup(b.recs, h).Some? ==> Lookup(b.recs, h) == row)
      && (Lookup(b.neg, h).Some? ==> row.None?)
  {
    hide Run, FetchOf, RecsFill, NegFill, Lookup, RowOf, Invalidated;
    var a := Empty(rows);
    assert events[..|events|] == events;
    RecsIsFilled(rows, events, h);
    NegIsFilled(rows, events, h);
    var g, g' := RecsFill(a, events, h), NegFill(a, events, h);
    if g.Some? { FilledIsCurrent(rows, events, g.value, DropRecs(h), h); }
    if g'.Some? { FilledIsCurrent(rows, events, g'.value, DropNeg(h), h); }
  }

  lemma FilledIsCurrent(rows: map<string, KeyRec>, events: seq<Event>, g: nat, drop: Event, h: string)
    requires Invalidated(Empty(rows), events, h) && g < |events| && events[g].Fill?
    requires var s := Run(Empty(rows), events[..g]); Pending(s, events[g].t) && s.threads[events[g].t].h == h
    requires drop == DropRecs(h) || drop == DropNeg(h)
    requires forall j :: g < j < |events| ==> events[j] != drop
    ensures Run(Empty(rows), events[..g]).threads[events[g].t].row == RowBefore(Empty(rows), events, |events|, h)
  {
    hide Run, FetchOf, FollowedBy, RowOf;
    var a := Empty(rows);
    HeldIsRowAtFetch(rows, events[..g], events[g].t);
    var f := FetchOf(a, events[..g], events[g].t).value;
    assert events[..g][..f] == events[..f];
    forall i | f <= i < |events| ensures !(events[i].Update? && events[i].h == h) {
      if f < i { NotFollowed(rows, events, g, i, drop, h); }
    }
    RowStays(a, events, f, |events|, h);
  }

  /** Then the answers for h are right at every time; a failing store can only turn an answer into "unknown
      key". */
  lemma CachesAreInvisible(rows: map<string, KeyRec>, events: seq<Event>, h: string, now: int)
    requires Invalidated(Empty(rows), events, h)
    ensures var b := Run(Empty(rows), events).auth;
      && RightFor(b, h)
      && (Visible(ResolveAnswer(b, h, now, true)) == Uncached(b.rows, h, now)
          || ResolveAnswer(b, h, now, true) == Answer(ERR_UNKNOWN, None))
  {
    hide Run, Lookup, CodeOf, Uncached, Invalidated;
    HeldIsCurrent(rows, events, h);
    var b := Run(Empty(rows), events).auth;
    RightExactly(b, h);
    assert Visible(ResolveAnswer(b, h, now, false)) == Uncached(b.rows, h, now);
  }

  /** And, whatever the other threads do between the steps of a resolve of h, its answer is that of a lookup
      without caches at a moment between its first and its last step, unless the store fails: at the step itself
      for an answer from a cache, and at the fetch for one from the store. */
  lemma RepliesAreRight(rows: map<string, KeyRec>, events: seq<Event>, e: Event, h: string, now: int)
    requires Invalidated(Empty(rows), events, h)
    ensures var a := Empty(rows); var s := Run(a, events); var reply := Reply(s, e);
      reply.Some? ==>
        && (e.Begin? && e.h == h ==> Visible(reply.value) == Uncached(s.auth.rows, h, e.now))
        && (e.LookNeg? && s.threads[e.t].h == h ==> reply.value == Uncached(s.auth.rows, h, now))
        && (e.Fetch? ==> e.storeFails)
        && (e.Fill? ==>
              && FetchOf(a, events, e.t).Some?
              && (s.threads[e.t].h == h ==>
                    reply.value == Uncached(Run(a, events[..FetchOf(a, events, e.t).value]).auth.rows, h, e.now)))
  {
    hide Run, FetchOf, Lookup, CodeOf, Invalidated, RowOf;
    HeldIsCurrent(rows, events, h);
    if e.Fill? { HeldIsRowAtFetch(rows, events, e.t); }
  }

  const GOOD := KeyRec(1, false, false, false, 0)
  const REVOKED := KeyRec(1, false, true, false, 0)

  /** A resolve of "k" on thread 0 up to the read of its row. */
  function Fetching(): seq<Event> {
    [Begin(0, "k", 0), LookNeg(0), Fetch(0, false)]
  }

  lemma FetchingRun()
    ensures Run(Empty(map["k" := GOOD]), Fetching())
            == Sys(Auth([], [], map["k" := GOOD]), map[0 := Fetched("k", Some(GOOD))])
  {
    hide Run;
    var s := Empty(map["k" := GOOD]);
    Nothing(s);
    RunNext(s, [], Begin(0, "k", 0));
    RunNext(s, [Begin(0, "k", 0)], LookNeg(0));
    RunNext(s, [Begin(0, "k", 0), LookNeg(0)], Fetch(0, false));
    assert [] + [Begin(0, "k", 0)] == [Begin(0, "k", 0)];
    assert [Begin(0, "k", 0)] + [LookNeg(0)] == [Begin(0, "k", 0), LookNeg(0)];
    assert [Begin(0, "k", 0), LookNeg(0)] + [Fetch(0, false)] == Fetching();
    assert s.threads[0 := MissedRecs("k")][0 := MissedBoth("k")][0 := Fetched("k", Some(GOOD))]
        == map[0 := Fetched("k", Some(GOOD))];
  }

  lemma FillGood(rows: map<string, KeyRec>)
    ensures AfterFill(Auth([], [], rows), "k", Some(GOOD), 0) == Auth([Entry("k", GOOD)], [], rows)
  {}

  /** What every resolve of "k" gives once a good record is cached for its revoked row. */
  lemma RevokedKeyIsLetIn(now: int)
    ensures var b := Auth([Entry("k", GOOD)], [], map["k" := REVOKED]);
      ResolveAnswer(b, "k", now, false).code == OK && Uncached(b.rows, "k", now).code == ERR_REVOKED
  {}

  /** Without the invalidation, a revoked key is still let in. */
  lemma StaleWithoutInvalidate(now: int)
    ensures var b := Run(Empty(map["k" := GOOD]), Fetching() + [Fill(0, 0)] + [Update("k", Some(REVOKED))]).auth;
      ResolveAnswer(b, "k", now, false).code == OK && Uncached(b.rows, "k", now).code == ERR_REVOKED
  {
    hide Fetching, Run, ResolveAnswer, Uncached, AfterFill;
    var s := Empty(map["k" := GOOD]);
    FetchingRun();
    RunNext(s, Fetching(), Fill(0, 0));
    RunNext(s, Fetching() + [Fill(0, 0)], Update("k", Some(REVOKED)));
    FillGood(map["k" := GOOD]);
    assert map["k" := GOOD]["k" := REVOKED] == map["k" := REVOKED];
    RevokedKeyIsLetIn(now);
  }

  /** A change of the row of "k", and its whole invalidation. */
  function Changing(): seq<Event> {
    [Update("k", Some(REVOKED)), DropRecs("k"), DropNeg("k")]
  }

  lemma OvertakenRun()
    ensures Run(Empty(map["k" := GOOD]), Fetching() + Changing())
            == Sys(Auth([], [], map["k" := REVOKED]), map[0 := Fetched("k", Some(GOOD))])
  {
    hide Fetching, Run;
    var s, p := Empty(map["k" := GOOD]), Fetching();
    var p1 := p + [Update("k", Some(REVOKED))];
    var p2 := p1 + [DropRecs("k")];
    FetchingRun();
    RunNext(s, p, Update("k", Some(REVOKED)));
    RunNext(s, p1, DropRecs("k"));
    RunNext(s, p2, DropNeg("k"));
    assert p2 + [DropNeg("k")] == p + Changing();
    assert map["k" := GOOD]["k" := REVOKED] == map["k" := REVOKED];
  }

  /** With it too, when it comes between the read of the row and the end of the resolve. */
  lemma StaleAfterInvalidate(now: int)
    ensures var b := Run(Empty(map["k" := GOOD]), Fetching() + Changing() + [Fill(0, 0)]).auth;
      ResolveAnswer(b, "k", now, false).code == OK && Uncached(b.rows, "k", now).code == ERR_REVOKED
  {
    hide Fetching, Changing, Run, ResolveAnswer, Uncached, AfterFill;
    OvertakenRun();
    RunNext(Empty(map["k" := GOOD]), Fetching() + Changing(), Fill(0, 0));
    FillGood(map["k" := REVOKED]);
    RevokedKeyIsLetIn(now);
  }

  class AuthKeyCache {
    const recs: LruMap<KeyRec>
    const neg: LruMap<int>
    const sha256: string -> string
    /** The rows of the key store. */
    var rows: map<string, KeyRec>

    ghost predicate Valid()
      reads this, recs, neg, recs.table, neg.table, recs.repr, neg.repr
    {
      && recs.Valid() && neg.Valid()
      && recs.capacity == RECS_CAP && neg.capacity == NEG_CAP
      && recs.table as object != neg.table as object
      && recs as object != neg as object
      && (set n: object | n in recs.repr) !! (set n: object | n in neg.repr)
    }

    ghost function State(): Auth
      reads this, recs, neg, recs.rec, neg.rec
    {
      Auth(recs.Entries(), neg.Entries(), rows)
    }

    constructor (rows: map<string, KeyRec>, sha256: string -> string, hash: string -> nat)
      ensures Valid() && State() == Auth([], [], rows)
    {
      this.rows, this.sha256 := rows, sha256;
      recs := new LruMap<KeyRec>(RECS_CAP, hash, true);
      neg := new LruMap<int>(NEG_CAP, hash, false);
    }

    /** auth_key_resolve: no or an empty token is unknown; the rest is ResolveAnswer. */
    method Resolve(bearer: Option<string>, now: int, storeFails: bool) returns (a: Answer)
      requires Valid()
      modifies recs, neg, recs.table, neg.table, recs.repr, neg.repr
      ensures Valid()
      ensures bearer.None? || bearer.value == "" ==>
        a == Answer(ERR_UNKNOWN, None) && State() == old(State())
      ensures bearer.Some? && bearer.value != "" ==>
        var h := sha256(bearer.value);
        a == ResolveAnswer(old(State()), h, now, storeFails)
        && State() == AfterResolve(old(State()), h, now, storeFails)
    {
      hide LruMap.TableState, LruMap.ListState, AfterPut, AfterGet, AfterInvalidate, IndexOf, Lookup, View;
      if bearer.None? || bearer.value == "" {
        return Answer(ERR_UNKNOWN, None);
      }
      var h := sha256(bearer.value);
      GetMiss(recs.Entries(), h);
      GetMiss(neg.Entries(), h);
      var cached := recs.Get(h);
      if cached.Some? {
        return Answer(CodeOf(cached.value, now), cached);
      }
      var unknown := neg.Get(h);
      if unknown.Some? {
        return Answer(ERR_UNKNOWN, None);
      }
      a := FromStore(h, now, storeFails);
    }

    /** The part of auth_key_resolve after both caches missed. */
    method FromStore(h: string, now: int, storeFails: bool) returns (a: Answer)
      requires Valid() && Lookup(recs.Entries(), h).None? && Lookup(neg.Entries(), h).None?
      modifies recs, neg, recs.table, neg.table, recs.repr, neg.repr
      ensures Valid()
      ensures a == ResolveAnswer(old(State()), h, now, storeFails)
      ensures State() == AfterResolve(old(State()), h, now, storeFails)
    {
      hide LruMap.TableState, LruMap.ListState, AfterPut, AfterGet, AfterInvalidate, IndexOf, Lookup, View;
      if storeFails {
        return Answer(ERR_UNKNOWN, None);
      }
      if h !in rows {
        neg.Put(h, 1);
        return Answer(ERR_UNKNOWN, None);
      }
      var row := rows[h];
      var result := CodeOf(row, now);
      if result == OK || result == ERR_CANARY {
        recs.Put(h, row);
        return Answer(result, Some(row));
      }
      return Answer(result, None);
    }

    /** An admin change of one row, and the auth_key_invalidate that follows it. */
    method ChangeRow(h: string, row: Option<KeyRec>)
      requires Valid()
      modifies this`rows, recs, neg, recs.table, neg.table, recs.repr, neg.repr
      ensures Valid() && State() == AfterDrop(AfterUpdate(old(State()), h, row), h)
    {
      hide LruMap.TableState, LruMap.ListState, AfterPut, AfterGet, AfterInvalidate, IndexOf, View;
      rows := if row.Some? then rows[h := row.value] else rows - {h};
      var _ := recs.Invalidate(h);
      var _ := neg.Invalidate(h);
    }
  }
}
