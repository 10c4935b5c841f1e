/** The failover loops of the chat endpoint (src/core/pipeline_chat.c:396-1118, 1130-1199, 1270-1669) over
    the concurrency slots of the upstream targets (src/upstream/model_router.c:65-151). What the upstreams
    answer is arbitrary. */
module ChatFailover {
  import opened Options

  // ---------- Concurrency slots ----------

  const MAX_SLOTS := 256

  datatype Target = Target(endpoint: string, maxConcurrent: int)

  function Load(counts: map<string, nat>, endpoint: string): nat {
    if endpoint in counts then counts[endpoint] else 0
  }

  predicate Saturated(counts: map<string, nat>, t: Target) {
    t.endpoint != "" && t.maxConcurrent > 0 && Load(counts, t.endpoint) >= t.maxConcurrent
  }

  ghost predicate SameLoad(a: map<string, nat>, b: map<string, nat>) {
    forall e :: Load(a, e) == Load(b, e)
  }

  /** A slot is made for a new endpoint while there is room; without one, nothing is counted. */
  function Counted(counts: map<string, nat>, t: Target): map<string, nat> {
    if t.endpoint == "" || (t.endpoint !in counts && |counts| >= MAX_SLOTS) then counts
    else counts[t.endpoint := Load(counts, t.endpoint) + 1]
  }

  function Uncounted(counts: map<string, nat>, t: Target): map<string, nat> {
    if t.endpoint == "" || t.endpoint !in counts then counts
    else counts[t.endpoint := if counts[t.endpoint] <= 1 then 0 else counts[t.endpoint] - 1]
  }

  lemma ReleaseUndoesAcquire(counts: map<string, nat>, t: Target)
    ensures SameLoad(Uncounted(Counted(counts, t), t), counts)
  {}

  /** Two slots taken and then given back in the same order. */
  lemma ReleaseUndoesBoth(counts: map<string, nat>, t: Target, u: Target)
    requires |counts| <= MAX_SLOTS
    ensures SameLoad(Uncounted(Uncounted(Counted(Counted(counts, t), u), t), u), counts)
  {
    var one := Counted(counts, t);
    var two := Counted(one, u);
    assert t.endpoint in one ==> t.endpoint in two;
    assert t.endpoint !in one && t.endpoint != "" ==> two == one || t.endpoint !in two;
  }

  class TargetSlots {
    var counts: map<string, nat>

    ghost predicate Valid()
      reads this
    {
      |counts| <= MAX_SLOTS
    }

    constructor ()
      ensures Valid() && counts == map[]
    {
      counts := map[];
    }

    /** model_router_acquire_target; false is -1. */
    method Acquire(t: Target) returns (ok: bool)
      requires Valid()
      modifies this
      ensures Valid() && (ok <==> !Saturated(old(counts), t))
      ensures ok ==> counts == Counted(old(counts), t)
      ensures !ok ==> counts == old(counts)
    {
      if t.endpoint == "" {
        return true;
      }
      if t.endpoint !in counts {
        if |counts| >= MAX_SLOTS {
          return true;
        }
        counts := counts[t.endpoint := 0];
      }
      var cur := counts[t.endpoint];
      if t.maxConcurrent > 0 && cur >= t.maxConcurrent {
        return false;
      }
      counts := counts[t.endpoint := cur + 1];
      return true;
    }

    /** model_router_release_target. */
    method Release(t: Target)
      requires Valid()
      modifies this
      ensures Valid() && counts == Uncounted(old(counts), t)
    {
      if t.endpoint == "" || t.endpoint !in counts {
        return;
      }
      var prev := counts[t.endpoint];
      counts := counts[t.endpoint := if prev <= 1 then 0 else prev - 1];
    }
  }

  // ---------- Outcomes ----------

  /** A parsed completion; blocked tells whether the outbound filters stop a 200. */
  datatype Parsed = Parsed(status: int, blocked: bool, tokens: int, cost: real)

  /** The result of an upstream call: transport code, HTTP status, whether there is a body, and what
      parsing the body gives. */
  datatype Reply = Reply(urc: int, status: int, hasBody: bool, parsed: Option<Parsed>)

  predicate IsFailover(urc: int, status: int) {
    urc != 0 || status == 429 || 500 <= status <= 504
  }

  datatype Answer = Json(status: int) | Error(status: int) | ByFilter | Streamed(complete: bool)

  datatype Charge = Charge(cost: real, tokens: int)

  /** A candidate that was called: how often, and what the circuit breaker was told (None: nothing). */
  datatype Visit = Visit(ci: nat, calls: nat, report: Option<bool>)

  /** Everything a request has done so far. */
  datatype Run = Run(visits: seq<Visit>, answers: seq<Answer>, budget: seq<Charge>, tokens: seq<int>, usage: seq<int>)

  const NOTHING := Run([], [], [], [], [])

  function Sum(xs: seq<int>): int {
    if xs == [] then 0 else Sum(xs[..|xs| - 1]) + xs[|xs| - 1]
  }

  /** Exactly one answer; the budget is charged at most once, and the tokens reserved are the tokens charged. */
  ghost predicate Proper(r: Run) {
    && |r.answers| == 1 && |r.budget| <= 1 && |r.usage| <= 1
    && Sum(r.tokens) == (if r.budget == [] then 0 else r.budget[0].tokens)
  }

  // ---------- A failover loop ----------

  /** What a loop does with one candidate: pass it over, find it saturated, or call it; after a call it
      moves on to the next candidate or ends with an outcome. */
  datatype Step = Skip | Full | Go(visit: Visit, moveOn: bool, outcome: Run)

  predicate Ends(s: Step) {
    s.Go? && !s.moveOn
  }

  /** The first candidate from i on at which the loop ends, or the number of candidates. */
  function StopFrom(plan: seq<Step>, i: nat): (j: nat)
    requires i <= |plan|
    ensures i <= j <= |plan| && (j < |plan| ==> Ends(plan[j]))
    decreases |plan| - i
  {
    if i == |plan| || Ends(plan[i]) then i else StopFrom(plan, i + 1)
  }

  function VisitsIn(plan: seq<Step>, i: nat, j: nat): seq<Visit>
    requires i <= j <= |plan|
  {
    if i == j then []
    else VisitsIn(plan, i, j - 1) + if plan[j - 1].Go? then [plan[j - 1].visit] else []
  }

  function Generic(status: int): Run {
    NOTHING.(answers := [Error(status)], usage := [status])
  }

  predicate AllFull(plan: seq<Step>, i: nat)
    requires i <= |plan|
  {
    i < |plan| && FullIn(plan, i, |plan|)
  }

  predicate FullIn(plan: seq<Step>, i: nat, j: nat)
    requires i <= j <= |plan|
  {
    forall k :: i <= k < j ==> plan[k].Full?
  }

  lemma FullNext(plan: seq<Step>, i: nat, j: nat)
    requires i <= j < |plan|
    ensures FullIn(plan, i, j + 1) <==> FullIn(plan, i, j) && plan[j].Full?
  {}

  /** What a loop does from candidate i on. Without an answer from a candidate it gives an error itself. */
  function LoopRun(plan: seq<Step>, i: nat): Run
    requires i <= |plan|
  {
    var j := StopFrom(plan, i);
    var visits := VisitsIn(plan, i, if j < |plan| then j + 1 else j);
    if j < |plan| && plan[j].outcome.answers != [] then plan[j].outcome.(visits := visits)
    else Generic(if AllFull(plan, i) then 429 else 502).(visits := visits)
  }

  ghost predicate PlanOk(plan: seq<Step>) {
    forall k :: 0 <= k < |plan| && plan[k].Go? ==> plan[k].visit.ci == k
  }

  ghost predicate Visited(r: Run, k: nat) {
    exists v :: v in r.visits && v.ci == k
  }

  lemma {:induction false} VisitsExactly(plan: seq<Step>, i: nat, j: nat, k: nat)
    requires i <= j <= |plan| && PlanOk(plan)
    ensures (exists v :: v in VisitsIn(plan, i, j) && v.ci == k) <==> i <= k < j && plan[k].Go?
    decreases j
  {
    if i < j {
      VisitsExactly(plan, i, j - 1, k);
      if plan[j - 1].Go? { assert plan[j - 1].visit in VisitsIn(plan, i, j); }
    }
  }

  lemma {:induction false} StopIsFirst(plan: seq<Step>, i: nat)
    requires i <= |plan|
    ensures forall k :: i <= k < StopFrom(plan, i) ==> !Ends(plan[k])
    decreases |plan| - i
  {
    if i < |plan| && !Ends(plan[i]) { StopIsFirst(plan, i + 1); }
  }

  /** A candidate is contacted exactly when it can be called and every candidate called before it gave a
      result to move on from. */
  lemma ContactedExactly(plan: seq<Step>, i: nat, k: nat)
    requires PlanOk(plan) && i <= k < |plan|
    ensures Visited(LoopRun(plan, i), k)
            <==> plan[k].Go? && forall l :: i <= l < k && plan[l].Go? ==> plan[l].moveOn
  {
    var j := StopFrom(plan, i);
    StopIsFirst(plan, i);
    VisitsExactly(plan, i, if j < |plan| then j + 1 else j, k);
    if j < k { assert Ends(plan[j]); }
    assert k < j ==> forall l :: i <= l < k ==> !Ends(plan[l]);
  }

  /** Candidates are contacted in order. */
  lemma {:induction false} VisitsInOrder(plan: seq<Step>, i: nat, j: nat, a: nat, b: nat)
    requires i <= j <= |plan| && PlanOk(plan) && a < b < |VisitsIn(plan, i, j)|
    ensures VisitsIn(plan, i, j)[a].ci < VisitsIn(plan, i, j)[b].ci
    decreases j
  {
    var front := VisitsIn(plan, i, j - 1);
    if b < |front| {
      VisitsInOrder(plan, i, j - 1, a, b);
    } else {
      assert front[a] in front;
      VisitsExactly(plan, i, j - 1, front[a].ci);
    }
  }

  /** The outcome of a candidate: nothing yet, or an answer that is not the loop's own 429. */
  ghost predicate OutcomeOk(r: Run) {
    r == NOTHING || (Proper(r) && r.answers != [Error(429)])
  }

  ghost predicate OutcomesOk(plan: seq<Step>) {
    forall k :: 0 <= k < |plan| && plan[k].Go? ==> OutcomeOk(plan[k].outcome)
  }

  /** One answer, charged at most once; 429 exactly when every candidate is saturated; charged exactly when the
      candidate the loop ends at charges. */
  lemma AnswerComesFrom(plan: seq<Step>, i: nat)
    requires i <= |plan| && OutcomesOk(plan)
    ensures var r, j := LoopRun(plan, i), StopFrom(plan, i);
      && Proper(r)
      && (r.answers == [Error(429)] <==> AllFull(plan, i))
      && r.budget == (if j < |plan| then plan[j].outcome.budget else [])
  {
    StopIsFirst(plan, i);
    var j := StopFrom(plan, i);
    if j < |plan| { assert OutcomeOk(plan[j].outcome) && !plan[j].Full?; }
    assert Sum([]) == 0;
  }

  // ---------- The non-streaming loop ----------

  datatype Candidate = Candidate(target: Target, hasBuild: bool, hasParse: bool, builds: bool,
                                 first: Reply, second: Reply)

  /** The result of the speculative call to the first two candidates: candidate 0 is called, candidate 1 only
      when the call was hedged (dispatched), and then its reply may be the one returned (second). */
  datatype Hedge = Hedge(hrc: int, reply: Reply, dispatched: bool, second: bool)

  predicate SecondWins(h: Hedge) {
    h.dispatched && h.second
  }

  /** Every target that was called, the breaker being told of the one whose reply is returned. */
  function HedgeVisits(h: Hedge, ok: bool): seq<Visit> {
    [Visit(0, 1, if SecondWins(h) then None else Some(ok))]
    + if h.dispatched then [Visit(1, 1, if h.second then Some(ok) else None)] else []
  }

  datatype Request = Request(cands: seq<Candidate>, hedge: Option<Hedge>)

  /** A single candidate is called again after a server error. */
  predicate Retried(n: nat, r: Reply) {
    n == 1 && r.urc == 0 && r.status >= 500
  }

  function LastReply(q: Request, i: nat): Reply
    requires i < |q.cands|
  {
    var c := q.cands[i];
    if Retried(|q.cands|, c.first) then c.second else c.first
  }

  /** What a reply that is no failover leads to. */
  function Outcome(r: Reply): Run {
    if r.status < 400 then
      match r.parsed
      case None => NOTHING.(answers := [Error(502)])
      case Some(p) =>
        if p.status == 200 && p.blocked then NOTHING.(answers := [ByFilter])
        else Run([], [Json(p.status)], [Charge(p.cost, p.tokens)], [p.tokens], [p.status])
    else if r.hasBody then NOTHING.(answers := [Json(r.status)], usage := [r.status])
    else NOTHING
  }

  function SyncStep(q: Request, counts: map<string, nat>, i: nat): Step
    requires i < |q.cands|
  {
    var c, r := q.cands[i], LastReply(q, i);
    if !c.hasBuild || !c.hasParse then Skip
    else if Saturated(counts, c.target) then Full
    else if !c.builds then Skip
    else
      var moveOn := IsFailover(r.urc, r.status);
      Go(Visit(i, if Retried(|q.cands|, c.first) then 2 else 1, Some(!moveOn && r.status < 400)),
         moveOn, if moveOn then NOTHING else Outcome(r))
  }

  function SyncPlan(q: Request, counts: map<string, nat>): (plan: seq<Step>)
    ensures |plan| == |q.cands| && PlanOk(plan)
  {
    seq(|q.cands|, i requires 0 <= i < |q.cands| => SyncStep(q, counts, i))
  }

  /** Both of the first two candidates can be called at once. */
  predicate HedgeRuns(q: Request, counts: map<string, nat>) {
    && q.hedge.Some? && |q.cands| >= 2
    && var c, d := q.cands[0], q.cands[1];
       && c.hasBuild && d.hasBuild && c.builds && d.builds
       && !Saturated(counts, c.target) && !Saturated(Counted(counts, c.target), d.target)
  }

  function HedgeUrc(h: Hedge): int {
    if h.hrc == 0 && h.reply.hasBody then 0 else -502
  }

  /** The whole request. */
  function SyncRun(q: Request, counts: map<string, nat>): Run {
    var plan := SyncPlan(q, counts);
    if !HedgeRuns(q, counts) then LoopRun(plan, 0)
    else
      var h := q.hedge.value;
      var failed := IsFailover(HedgeUrc(h), h.reply.status);
      var visits := HedgeVisits(h, !failed && h.reply.status < 400);
      if !failed then Outcome(h.reply).(visits := visits)
      else
        var rest := LoopRun(plan, 2);
        rest.(visits := visits + rest.visits)
  }

  lemma OutcomeIsOk(r: Reply)
    ensures OutcomeOk(Outcome(r)) && (Outcome(r).answers == [] <==> r.status >= 400 && !r.hasBody)
    ensures Outcome(r).budget != [] <==> Served(r)
  {
    assert Sum([]) == 0 && (forall n: int :: Sum([n]) == n);
  }

  /** A completion that goes to the client. */
  predicate Served(r: Reply) {
    r.status < 400 && r.parsed.Some? && !(r.parsed.value.status == 200 && r.parsed.value.blocked)
  }

  /** Whatever the upstreams answer: one answer, and budget and tokens charged at most once. */
  lemma SyncIsProper(q: Request, counts: map<string, nat>)
    ensures Proper(SyncRun(q, counts))
  {
    SyncLoopIsProper(q, counts, 0);
    if HedgeRuns(q, counts) {
      SyncLoopIsProper(q, counts, 2);
      OutcomeIsOk(q.hedge.value.reply);
    }
  }

  /** The loop answers 429 exactly when every candidate is saturated in turn, and charges exactly when it
      serves a completion. */
  lemma SyncLoopIsProper(q: Request, counts: map<string, nat>, i: nat)
    requires i <= |q.cands|
    ensures var plan := SyncPlan(q, counts); var r, j := LoopRun(plan, i), StopFrom(plan, i);
      && Proper(r) && OutcomesOk(plan)
      && (r.answers == [Error(429)] <==> AllFull(plan, i))
      && (r.budget != [] <==> j < |plan| && Served(LastReply(q, j)))
  {
    hide Outcome;
    var plan := SyncPlan(q, counts);
    forall k | 0 <= k < |plan| && plan[k].Go?
      ensures OutcomeOk(plan[k].outcome)
      ensures Ends(plan[k]) ==> (plan[k].outcome.budget != [] <==> Served(LastReply(q, k)))
    {
      OutcomeIsOk(LastReply(q, k));
    }
    AnswerComesFrom(plan, i);
  }

  /** The call of a candidate, with the one repetition a lone candidate gets. */
  method CallUpstream(q: Request, ci: nat) returns (r: Reply, calls: nat)
    requires ci < |q.cands|
    ensures r == LastReply(q, ci) && calls == if Retried(|q.cands|, q.cands[ci].first) then 2 else 1
  {
    r, calls := q.cands[ci].first, 1;
    if |q.cands| == 1 && r.urc == 0 && r.status >= 500 {
      r, calls := q.cands[ci].second, 2;
    }
  }

  /** The success branch: parse, filter, charge, answer. */
  method Settle(r: Reply, visits: seq<Visit>) returns (run: Run)
    requires r.status < 400
    ensures run == Outcome(r).(visits := visits)
  {
    run := NOTHING.(visits := visits);
    if r.parsed.None? {
      return run.(answers := [Error(502)]);
    }
    var p := r.parsed.value;
    if p.status == 200 {
      if p.blocked {
        return run.(answers := [ByFilter]);
      }
    }
    run := run.(usage := run.usage + [p.status]);
    run := run.(budget := run.budget + [Charge(p.cost, p.tokens)]);
    run := run.(tokens := run.tokens + [p.tokens]);
    run := run.(answers := run.answers + [Json(p.status)]);
  }

  /** The hedged call; done tells whether it answered, start where the loop begins otherwise. */
  method CallHedged(q: Request, slots: TargetSlots) returns (done: bool, start: nat, run: Run)
    requires slots.Valid()
    modifies slots
    ensures slots.Valid() && SameLoad(slots.counts, old(slots.counts))
    ensures done ==> run == SyncRun(q, old(slots.counts))
    ensures !done ==> start <= |q.cands| && var rest := LoopRun(SyncPlan(q, old(slots.counts)), start);
      SyncRun(q, old(slots.counts)) == rest.(visits := run.visits + rest.visits)
    ensures !done ==> run == NOTHING.(visits := run.visits)
  {
    hide LoopRun, Outcome, SyncPlan;
    done, start, run := false, 0, NOTHING;
    ghost var counts := slots.counts;
    ghost var rest := LoopRun(SyncPlan(q, counts), 0);
    assert [] + rest.visits == rest.visits && rest.(visits := rest.visits) == rest;
    if q.hedge.None? || |q.cands| < 2 || !q.cands[0].hasBuild || !q.cands[1].hasBuild {
      return;
    }
    var target0, target1 := q.cands[0].target, q.cands[1].target;
    ReleaseUndoesAcquire(counts, target0);
    ReleaseUndoesAcquire(counts, target1);
    ReleaseUndoesBoth(counts, target0, target1);
    var acq0 := slots.Acquire(target0);
    var acq1 := slots.Acquire(target1);
    if !acq0 || !acq1 {
      if acq0 {
        slots.Release(target0);
      }
      if acq1 {
        slots.Release(target1);
      }
    } else if q.cands[0].builds && q.cands[1].builds {
      slots.Release(target0);
      slots.Release(target1);
      var h := q.hedge.value;
      var urc := if h.hrc == 0 && h.reply.hasBody then 0 else -502;
      var isFailover := IsFailover(urc, h.reply.status);
      if !isFailover && h.reply.status < 400 {
        run := Settle(h.reply, HedgeVisits(h, true));
        done := true;
        return;
      }
      run := NOTHING.(visits := HedgeVisits(h, false));
      if !isFailover && h.reply.status >= 400 {
        run := run.(usage := [h.reply.status], answers := [Json(h.reply.status)]);
        assert run == Outcome(h.reply).(visits := run.visits) by { OutcomeWithBody(h.reply); }
        done := true;
        return;
      }
      start := 2;
    } else {
      slots.Release(target0);
      slots.Release(target1);
    }
  }

  lemma OutcomeWithBody(r: Reply)
    requires r.status >= 400 && r.hasBody
    ensures Outcome(r) == NOTHING.(answers := [Json(r.status)], usage := [r.status])
  {}

  /** One candidate: take a slot, build the request, call, give the slot back, and look at the reply. */
  method TryCandidate(q: Request, slots: TargetSlots, ci: nat) returns (s: Step)
    requires slots.Valid() && ci < |q.cands|
    modifies slots
    ensures slots.Valid() && SameLoad(slots.counts, old(slots.counts))
    ensures s == SyncStep(q, old(slots.counts), ci)
  {
    var c := q.cands[ci];
    if !c.hasBuild || !c.hasParse {
      return Skip;
    }
    ReleaseUndoesAcquire(slots.counts, c.target);
    var acquired := slots.Acquire(c.target);
    if !acquired {
      return Full;
    }
    if !c.builds {
      slots.Release(c.target);
      return Skip;
    }
    var r, calls := CallUpstream(q, ci);
    slots.Release(c.target);
    var isFailover := IsFailover(r.urc, r.status);
    var visit := Visit(ci, calls, Some(!isFailover && r.status < 400));
    var outcome := NOTHING;
    if !isFailover && r.status < 400 {
      outcome := Settle(r, []);
    } else if !isFailover && r.hasBody {
      outcome := NOTHING.(usage := [r.status], answers := [Json(r.status)]);
    }
    return Go(visit, isFailover, outcome);
  }

  /** handle_chat_sync. */
  method HandleChatSync(q: Request, slots: TargetSlots) returns (run: Run)
    requires slots.Valid()
    modifies slots
    ensures slots.Valid() && SameLoad(slots.counts, old(slots.counts))
    ensures run == SyncRun(q, old(slots.counts))
  {
    hide SyncStep, SyncRun;
    ghost var counts := slots.counts;
    var done, start, before := CallHedged(q, slots);
    if done {
      return before;
    }
    ghost var plan := SyncPlan(q, counts);
    var n := |q.cands|;
    var visits := [];
    var saturated := 0;
    var ci := start;
    while ci < n
      invariant start <= ci <= n && slots.Valid() && SameLoad(slots.counts, counts)
      invariant Progress(plan, start, ci, visits, saturated)
    {
      SameLoadSameStep(q, slots.counts, counts, ci);
      var s := TryCandidate(q, slots, ci);
      if Ends(s) {
        ProgressStop(plan, start, ci, visits, saturated);
      } else {
        ProgressStep(plan, start, ci, visits, saturated);
      }
      if s.Full? {
        saturated := saturated + 1;
      } else if s.Go? {
        visits := visits + [s.visit];
        if !s.moveOn {
          if s.outcome.answers != [] {
            return s.outcome.(visits := before.visits + visits);
          }
          break;
        }
      }
      ci := ci + 1;
    }
    ProgressEnd(plan, start, n, visits, saturated);
    if saturated > 0 && saturated == n - start {
      return Generic(429).(visits := before.visits + visits);
    }
    return Generic(502).(visits := before.visits + visits);
  }

  lemma SameLoadSameStep(q: Request, a: map<string, nat>, b: map<string, nat>, i: nat)
    requires SameLoad(a, b) && i < |q.cands|
    ensures SyncStep(q, a, i) == SyncPlan(q, b)[i]
  {}

  /** A request with a hedged call contacts candidate 0, candidate 1 exactly when it was dispatched, and later
      ones exactly when the hedged call failed over and the loop from candidate 2 reaches them. */
  lemma HedgedContacted(q: Request, counts: map<string, nat>, k: nat)
    requires HedgeRuns(q, counts) && k < |q.cands|
    ensures var h := q.hedge.value; var failed := IsFailover(HedgeUrc(h), h.reply.status);
      Visited(SyncRun(q, counts), k)
      <==> k == 0 || (k == 1 && h.dispatched) || (failed && Visited(LoopRun(SyncPlan(q, counts), 2), k))
  {
    hide LoopRun, SyncPlan, Outcome;
    var h := q.hedge.value;
    var failed := IsFailover(HedgeUrc(h), h.reply.status);
    var visits := HedgeVisits(h, !failed && h.reply.status < 400);
    var rest := if failed then LoopRun(SyncPlan(q, counts), 2).visits else [];
    assert SyncRun(q, counts).visits == visits + rest by { assert visits + [] == visits; }
    assert visits[0].ci == 0 && (h.dispatched ==> visits[1].ci == 1);
    assert forall v :: v in visits + rest <==> v in visits || v in rest;
  }

  // ---------- Progress of a loop ----------

  /** The loop has passed the candidates before ci. */
  ghost predicate Progress(plan: seq<Step>, start: nat, ci: nat, visits: seq<Visit>, saturated: nat)
    requires start <= ci <= |plan|
  {
    && visits == VisitsIn(plan, start, ci)
    && StopFrom(plan, start) == StopFrom(plan, ci)
    && saturated <= ci - start
    && (saturated == ci - start <==> FullIn(plan, start, ci))
  }

  /** The next candidate does not end the loop. */
  lemma ProgressStep(plan: seq<Step>, start: nat, ci: nat, visits: seq<Visit>, saturated: nat)
    requires start <= ci < |plan| && Progress(plan, start, ci, visits, saturated) && !Ends(plan[ci])
    ensures var s := plan[ci];
      Progress(plan, start, ci + 1, if s.Go? then visits + [s.visit] else visits,
               if s.Full? then saturated + 1 else saturated)
  {
    hide FullIn;
    FullNext(plan, start, ci);
    assert visits + [] == visits;
  }

  /** The next candidate ends the loop, which counted fewer saturated ones than there are. */
  lemma ProgressStop(plan: seq<Step>, start: nat, ci: nat, visits: seq<Visit>, saturated: nat)
    requires start <= ci < |plan| && Progress(plan, start, ci, visits, saturated) && Ends(plan[ci])
    ensures var s := plan[ci];
      LoopRun(plan, start)
      == (if s.outcome.answers != [] then s.outcome else Generic(502)).(visits := visits + [s.visit])
    ensures saturated < |plan| - start
  {
    assert !AllFull(plan, start) by { assert !plan[ci].Full?; }
  }

  lemma ProgressEnd(plan: seq<Step>, start: nat, n: nat, visits: seq<Visit>, saturated: nat)
    requires start <= n == |plan|
    ensures Progress(plan, start, n, visits, saturated) ==>
      LoopRun(plan, start) == Generic(if saturated > 0 && saturated == n - start then 429 else 502).(visits := visits)
  {}

  // ---------- The streaming loop ----------

  /** The result of a streaming call; sent tells whether response headers have gone to the client. */
  datatype StreamReply = StreamReply(urc: int, status: int, hasBody: bool, sent: bool, tokens: nat, cost: real)

  datatype StreamCandidate = StreamCandidate(target: Target, hasBuild: bool, hasBridge: bool, builds: bool,
                                             bridges: bool, first: StreamReply, second: StreamReply)

  predicate StreamRetried(n: nat, r: StreamReply) {
    n == 1 && !r.sent && (r.urc != 0 || r.status >= 500)
  }

  function LastStreamReply(cands: seq<StreamCandidate>, i: nat): StreamReply
    requires i < |cands|
  {
    var c := cands[i];
    if StreamRetried(|cands|, c.first) then c.second else c.first
  }

  /** Before headers are sent, the loop moves on after a failover outcome, and also after an answer below
      400 of which nothing has reached the client. */
  predicate StreamMovesOn(r: StreamReply) {
    !r.sent && (IsFailover(r.urc, r.status) || r.status < 400)
  }

  /** What a reply that ends the loop leads to. An interrupted stream is charged for what it used, and the
      breaker hears nothing of it. */
  function StreamOutcome(r: StreamReply): Run {
    if StreamMovesOn(r) then NOTHING
    else if !r.sent then
      if r.hasBody then NOTHING.(answers := [Json(r.status)], usage := [r.status]) else NOTHING
    else if r.urc != 0 then
      Run([], [Streamed(false)], [Charge(r.cost, r.tokens)], if r.tokens > 0 then [r.tokens, 0] else [0], [502])
    else Run([], [Streamed(true)], [Charge(r.cost, r.tokens)], [r.tokens], [if r.status > 0 then r.status else 200])
  }

  function StreamReport(r: StreamReply): Option<bool> {
    if !r.sent then Some(false) else if r.urc != 0 then None else Some(true)
  }

  predicate StreamCallable(c: StreamCandidate, counts: map<string, nat>) {
    c.hasBuild && c.hasBridge && !Saturated(counts, c.target) && c.builds && c.bridges
  }

  function StreamStep(cands: seq<StreamCandidate>, counts: map<string, nat>, i: nat): Step
    requires i < |cands|
  {
    var c, r := cands[i], LastStreamReply(cands, i);
    if !c.hasBuild || !c.hasBridge then Skip
    else if Saturated(counts, c.target) then Full
    else if !c.builds || !c.bridges then Skip
    else Go(Visit(i, if StreamRetried(|cands|, c.first) then 2 else 1, StreamReport(r)),
            StreamMovesOn(r), StreamOutcome(r))
  }

  function StreamPlan(cands: seq<StreamCandidate>, counts: map<string, nat>): (plan: seq<Step>)
    ensures |plan| == |cands| && PlanOk(plan)
  {
    seq(|cands|, i requires 0 <= i < |cands| => StreamStep(cands, counts, i))
  }

  /** One answer; 429 exactly when every candidate is saturated; charged exactly when a stream has begun. */
  lemma StreamIsProper(cands: seq<StreamCandidate>, counts: map<string, nat>)
    ensures var plan := StreamPlan(cands, counts); var r, j := LoopRun(plan, 0), StopFrom(plan, 0);
      && Proper(r)
      && (r.answers == [Error(429)] <==> AllFull(plan, 0))
      && (r.budget != [] <==> j < |plan| && LastStreamReply(cands, j).sent)
  {
    hide StreamOutcome;
    var plan := StreamPlan(cands, counts);
    forall k | 0 <= k < |plan| && plan[k].Go?
      ensures OutcomeOk(plan[k].outcome) && (plan[k].outcome.budget != [] <==> LastStreamReply(cands, k).sent)
    {
      StreamOutcomeIsOk(LastStreamReply(cands, k));
    }
    AnswerComesFrom(plan, 0);
  }

  lemma StreamOutcomeIsOk(r: StreamReply)
    ensures OutcomeOk(StreamOutcome(r)) && (StreamOutcome(r).budget != [] <==> r.sent)
  {
    assert Sum([]) == 0 && (forall n: int :: Sum([n]) == n) && forall n: int :: [n, 0][..1] == [n];
  }

  /** Which candidates are contacted, in terms of what came before. */
  lemma StreamContacted(cands: seq<StreamCandidate>, counts: map<string, nat>, k: nat)
    requires k < |cands|
    ensures Visited(LoopRun(StreamPlan(cands, counts), 0), k)
            <==> StreamCallable(cands[k], counts)
                 && forall l :: 0 <= l < k && StreamCallable(cands[l], counts) ==>
                      StreamMovesOn(LastStreamReply(cands, l))
  {
    var plan := StreamPlan(cands, counts);
    ContactedExactly(plan, 0, k);
    forall l | 0 <= l < |plan|
      ensures plan[l].Go? <==> StreamCallable(cands[l], counts)
      ensures plan[l].Go? ==> plan[l].moveOn == StreamMovesOn(LastStreamReply(cands, l))
    {}
  }

  /** Once headers have been sent, no further upstream is contacted: not another candidate, and not the same
      one again. */
  lemma HeadersEndFailover(cands: seq<StreamCandidate>, counts: map<string, nat>, k: nat, l: nat)
    requires k < l < |cands| && Visited(LoopRun(StreamPlan(cands, counts), 0), k)
    requires cands[k].first.sent || LastStreamReply(cands, k).sent
    ensures !Visited(LoopRun(StreamPlan(cands, counts), 0), l)
    ensures cands[k].first.sent ==> LastStreamReply(cands, k) == cands[k].first
  {
    StreamContacted(cands, counts, k);
    StreamContacted(cands, counts, l);
  }

  /** In the non-streaming loop, a candidate is contacted exactly when it can be called and every callable one
      before it ended in a failover outcome. */
  lemma SyncContacted(q: Request, counts: map<string, nat>, i: nat, k: nat)
    requires i <= k < |q.cands|
    ensures Visited(LoopRun(SyncPlan(q, counts), i), k)
            <==> SyncCallable(q.cands[k], counts)
                 && forall l :: i <= l < k && SyncCallable(q.cands[l], counts) ==>
                      IsFailover(LastReply(q, l).urc, LastReply(q, l).status)
  {
    var plan := SyncPlan(q, counts);
    ContactedExactly(plan, i, k);
    forall l | 0 <= l < |plan|
      ensures plan[l].Go? <==> SyncCallable(q.cands[l], counts)
      ensures plan[l].Go? ==> plan[l].moveOn == IsFailover(LastReply(q, l).urc, LastReply(q, l).status)
    {}
  }

  predicate SyncCallable(c: Candidate, counts: map<string, nat>) {
    c.hasBuild && c.hasParse && !Saturated(counts, c.target) && c.builds
  }

  /** handle_stream_preheaders: the answer of a 4xx body, or none; and whether to try the next candidate. */
  method PreHeaders(r: StreamReply) returns (outcome: Run, moveOn: bool)
    requires !r.sent
    ensures moveOn == StreamMovesOn(r) && outcome == StreamOutcome(r)
  {
    outcome, moveOn := NOTHING, false;
    var isFailover := IsFailover(r.urc, r.status);
    if !isFailover && r.status >= 400 {
      if r.hasBody && r.urc == 0 {
        outcome := NOTHING.(usage := [r.status], answers := [Json(r.status)]);
      }
      return;
    }
    moveOn := true;
  }

  method CallStream(cands: seq<StreamCandidate>, ci: nat) returns (r: StreamReply, calls: nat)
    requires ci < |cands|
    ensures r == LastStreamReply(cands, ci) && calls == if StreamRetried(|cands|, cands[ci].first) then 2 else 1
  {
    r, calls := cands[ci].first, 1;
    if |cands| == 1 && !r.sent && (r.urc != 0 || r.status >= 500) {
      r, calls := cands[ci].second, 2;
    }
  }

  method TryStream(cands: seq<StreamCandidate>, slots: TargetSlots, ci: nat) returns (s: Step)
    requires slots.Valid() && ci < |cands|
    modifies slots
    ensures slots.Valid() && SameLoad(slots.counts, old(slots.counts))
    ensures s == StreamStep(cands, old(slots.counts), ci)
  {
    var c := cands[ci];
    if !c.hasBuild || !c.hasBridge {
      return Skip;
    }
    ReleaseUndoesAcquire(slots.counts, c.target);
    var acquired := slots.Acquire(c.target);
    if !acquired {
      return Full;
    }
    if !c.builds {
      slots.Release(c.target);
      return Skip;
    }
    if !c.bridges {
      slots.Release(c.target);
      return Skip;
    }
    var r, calls := CallStream(cands, ci);
    slots.Release(c.target);
    var outcome, moveOn := NOTHING, false;
    if !r.sent {
      outcome, moveOn := PreHeaders(r);
    } else if r.urc != 0 {
      outcome := Run([], [Streamed(false)], [Charge(r.cost, r.tokens)], if r.tokens > 0 then [r.tokens] else [], [502]);
      outcome := outcome.(tokens := outcome.tokens + [0]);
    } else {
      outcome := NOTHING.(answers := [Streamed(true)], usage := [if r.status > 0 then r.status else 200]);
      outcome := outcome.(budget := [Charge(r.cost, r.tokens)], tokens := [r.tokens]);
    }
    return Go(Visit(ci, calls, StreamReport(r)), moveOn, outcome);
  }

  /** handle_chat_stream. */
  method HandleChatStream(cands: seq<StreamCandidate>, slots: TargetSlots) returns (run: Run)
    requires slots.Valid()
    modifies slots
    ensures slots.Valid() && SameLoad(slots.counts, old(slots.counts))
    ensures run == LoopRun(StreamPlan(cands, old(slots.counts)), 0)
  {
    hide StreamStep, LoopRun;
    ghost var counts := slots.counts;
    ghost var plan := StreamPlan(cands, counts);
    var n := |cands|;
    var visits := [];
    var saturated := 0;
    var ci := 0;
    while ci < n
      invariant 0 <= ci <= n && slots.Valid() && SameLoad(slots.counts, counts)
      invariant Progress(plan, 0, ci, visits, saturated)
    {
      SameLoadSameStream(cands, slots.counts, counts, ci);
      var s := TryStream(cands, slots, ci);
      if Ends(s) {
        ProgressStop(plan, 0, ci, visits, saturated);
      } else {
        ProgressStep(plan, 0, ci, visits, saturated);
      }
      if s.Full? {
        saturated := saturated + 1;
      } else if s.Go? {
        visits := visits + [s.visit];
        if !s.moveOn {
          if s.outcome.answers != [] {
            return s.outcome.(visits := visits);
          }
          break;
        }
      }
      ci := ci + 1;
    }
    ProgressEnd(plan, 0, n, visits, saturated);
    if saturated > 0 && saturated == n {
      return Generic(429).(visits := visits);
    }
    return Generic(502).(visits := visits);
  }

  lemma SameLoadSameStream(cands: seq<StreamCandidate>, a: map<string, nat>, b: map<string, nat>, i: nat)
    requires SameLoad(a, b) && i < |cands|
    ensures StreamStep(cands, a, i) == StreamPlan(cands, b)[i]
  {}
}
