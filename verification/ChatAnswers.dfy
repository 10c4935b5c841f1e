/** What the client, the budget, the token limiter and the circuit breaker get from the chat endpoint
    (src/core/pipeline_chat.c:396-1118, 1122-1669), in terms of the upstream's replies alone. */
module ChatAnswers {
  import opened Options
  import opened ChatFailover

  /** A result of an upstream call to move on from: no answer, too many requests, or an error from 500 to 504. */
  predicate Failed(urc: int, status: int) {
    urc != 0 || status == 429 || status == 500 || status == 501 || status == 502 || status == 503 || status == 504
  }

  /** What a reply that is no failure leads to. A completion is charged at its cost and tokens, and its status is the
      answer, unless the filters stop it; a client error is passed on if it has a body. */
  ghost predicate Settles(r: Run, u: Reply) {
    if u.status >= 400 then
      var status := if u.hasBody then u.status else 502;
      && r.answers == [if u.hasBody then Json(status) else Error(status)] && r.usage == [status]
      && r.budget == [] && r.tokens == []
    else if u.parsed.Some? && (u.parsed.value.status != 200 || !u.parsed.value.blocked) then
      var p := u.parsed.value;
      && r.answers == [Json(p.status)] && r.usage == [p.status]
      && r.budget == [Charge(p.cost, p.tokens)] && r.tokens == [p.tokens]
    else
      && r.answers == [if u.parsed.Some? then ByFilter else Error(502)] && r.usage == []
      && r.budget == [] && r.tokens == []
  }

  /** No candidate answered: 429 if there were some and all were saturated, else 502; nothing is charged. */
  ghost predicate GivesUp(r: Run, saturated: bool) {
    var status := if saturated then 429 else 502;
    r.answers == [Error(status)] && r.usage == [status] && r.budget == [] && r.tokens == []
  }

  // ---------- The concurrency limit ----------

  /** A slot is refused exactly when an endpoint with a limit is at it, and taking one never exceeds the limit. */
  lemma SlotsWithinLimit(counts: map<string, nat>, t: Target)
    requires t.endpoint != "" && t.maxConcurrent > 0 && Load(counts, t.endpoint) <= t.maxConcurrent
    ensures Saturated(counts, t) <==> Load(counts, t.endpoint) == t.maxConcurrent
    ensures !Saturated(counts, t) ==> Load(Counted(counts, t), t.endpoint) <= t.maxConcurrent
    ensures !Saturated(counts, t) && (|counts| < 256 || t.endpoint in counts) ==>
      Load(Counted(counts, t), t.endpoint) == Load(counts, t.endpoint) + 1
  {}

  // ---------- The non-streaming loop ----------

  /** The first callable candidate from i on whose reply is no failure. */
  ghost predicate FirstGood(q: Request, counts: map<string, nat>, i: nat, j: nat) {
    && i <= j < |q.cands|
    && SyncCallable(q.cands[j], counts) && !Failed(LastReply(q, j).urc, LastReply(q, j).status)
    && forall l :: i <= l < j && SyncCallable(q.cands[l], counts) ==>
         Failed(LastReply(q, l).urc, LastReply(q, l).status)
  }

  lemma {:induction false} StopsAt(plan: seq<Step>, i: nat, j: nat)
    requires i <= j <= |plan| && (j < |plan| ==> Ends(plan[j])) && forall l :: i <= l < j ==> !Ends(plan[l])
    ensures StopFrom(plan, i) == j
    decreases j - i
  {
    if i < j { StopsAt(plan, i + 1, j); }
  }

  lemma EndsExactly(q: Request, counts: map<string, nat>, l: nat)
    requires l < |q.cands|
    ensures Ends(SyncPlan(q, counts)[l])
      <==> SyncCallable(q.cands[l], counts) && !Failed(LastReply(q, l).urc, LastReply(q, l).status)
    ensures SyncPlan(q, counts)[l].Full?
      <==> q.cands[l].hasBuild && q.cands[l].hasParse && Saturated(counts, q.cands[l].target)
  {}

  /** The loop answers with the reply of the first good candidate. */
  lemma LoopSettles(q: Request, counts: map<string, nat>, i: nat, j: nat)
    requires FirstGood(q, counts, i, j)
    ensures Settles(LoopRun(SyncPlan(q, counts), i), LastReply(q, j))
  {
    var plan := SyncPlan(q, counts);
    forall l | i <= l <= j ensures Ends(plan[l]) <==> l == j { EndsExactly(q, counts, l); }
    StopsAt(plan, i, j);
    OutcomeSettles(LastReply(q, j), VisitsIn(plan, i, j + 1));
    assert !AllFull(plan, i) by { assert !plan[j].Full?; }
  }

  lemma OutcomeSettles(u: Reply, visits: seq<Visit>)
    ensures var r := Outcome(u);
      Settles(if r.answers != [] then r.(visits := visits) else Generic(502).(visits := visits), u)
  {}

  /** Without one, it gives up. */
  lemma LoopGivesUp(q: Request, counts: map<string, nat>, i: nat)
    requires i <= |q.cands| && forall j :: !FirstGood(q, counts, i, j)
    ensures GivesUp(LoopRun(SyncPlan(q, counts), i),
                    i < |q.cands| && forall l :: i <= l < |q.cands| ==>
                      var c := q.cands[l]; c.hasBuild && c.hasParse && Saturated(counts, c.target))
  {
    var plan, n := SyncPlan(q, counts), |q.cands|;
    NoneEnds(q, counts, i, n);
    StopsAt(plan, i, n);
    forall l | 0 <= l < n
      ensures plan[l].Full?
        <==> q.cands[l].hasBuild && q.cands[l].hasParse && Saturated(counts, q.cands[l].target)
    {
      EndsExactly(q, counts, l);
    }
  }

  lemma {:induction false} NoneEnds(q: Request, counts: map<string, nat>, i: nat, n: nat)
    requires i <= n <= |q.cands| && forall j :: !FirstGood(q, counts, i, j)
    ensures forall l :: i <= l < n ==> !Ends(SyncPlan(q, counts)[l])
  {
    if i < n {
      NoneEnds(q, counts, i, n - 1);
      forall l | i <= l < n ensures Ends(SyncPlan(q, counts)[l])
          <==> SyncCallable(q.cands[l], counts) && !Failed(LastReply(q, l).urc, LastReply(q, l).status)
      {
        EndsExactly(q, counts, l);
      }
      assert !FirstGood(q, counts, i, n - 1);
    }
  }

  /** The breaker of a candidate that was called hears of a success exactly when the reply came and is below 400. A
      candidate is called twice exactly when it is the only one and a server error came first. */
  lemma LoopReports(q: Request, counts: map<string, nat>, i: nat, v: Visit)
    requires i <= |q.cands| && v in LoopRun(SyncPlan(q, counts), i).visits
    ensures v.ci < |q.cands| && v.report == Some(LastReply(q, v.ci).urc == 0 && LastReply(q, v.ci).status < 400)
    ensures var u := q.cands[v.ci].first; v.calls == if |q.cands| == 1 && u.urc == 0 && u.status >= 500 then 2 else 1
    ensures LastReply(q, v.ci) == if v.calls == 2 then q.cands[v.ci].second else q.cands[v.ci].first
  {
    hide Outcome, LoopRun;
    LoopVisit(SyncPlan(q, counts), i, v);
  }

  lemma LoopVisit(plan: seq<Step>, i: nat, v: Visit)
    requires PlanOk(plan) && i <= |plan| && v in LoopRun(plan, i).visits
    ensures v.ci < |plan| && plan[v.ci].Go? && plan[v.ci].visit == v
  {
    var j := StopFrom(plan, i);
    VisitIsOfStep(plan, i, if j < |plan| then j + 1 else j, v);
  }

  lemma {:induction false} VisitIsOfStep(plan: seq<Step>, i: nat, j: nat, v: Visit)
    requires PlanOk(plan) && i <= j <= |plan| && v in VisitsIn(plan, i, j)
    ensures i <= v.ci < j && plan[v.ci].Go? && plan[v.ci].visit == v
    decreases j
  {
    if i < j && v in VisitsIn(plan, i, j - 1) { VisitIsOfStep(plan, i, j - 1, v); }
  }

  // ---------- The hedged call ----------

  /** The first two candidates can be called at once: both can be built, and their endpoints have room for both. */
  predicate BothCallable(q: Request, counts: map<string, nat>) {
    && q.hedge.Some? && |q.cands| >= 2
    && q.cands[0].hasBuild && q.cands[0].builds && !Saturated(counts, q.cands[0].target)
    && q.cands[1].hasBuild && q.cands[1].builds && !Saturated(Counted(counts, q.cands[0].target), q.cands[1].target)
  }

  /** Otherwise there is no hedged call, and the loop begins with the first candidate. */
  lemma NotHedged(q: Request, counts: map<string, nat>)
    ensures !BothCallable(q, counts) ==> SyncRun(q, counts) == LoopRun(SyncPlan(q, counts), 0)
  {
    hide LoopRun, SyncPlan, Outcome;
  }

  /** A hedged call that does not fail is the answer; otherwise the loop goes on from the third candidate. The breaker
      hears of the one whose reply is returned. */
  lemma HedgeSettles(q: Request, counts: map<string, nat>)
    requires BothCallable(q, counts)
    ensures var h, r := q.hedge.value, SyncRun(q, counts);
      var answered := h.hrc == 0 && h.reply.hasBody && !Failed(0, h.reply.status);
      var good := answered && h.reply.status < 400;
      var rest := LoopRun(SyncPlan(q, counts), 2);
      && (answered ==> Settles(r, h.reply))
      && (!answered ==> r == rest.(visits := r.visits) && |r.visits| >= |rest.visits|)
      && r.visits == (if h.dispatched && h.second then [Visit(0, 1, None), Visit(1, 1, Some(good))]
                      else if h.dispatched then [Visit(0, 1, Some(good)), Visit(1, 1, None)]
                      else [Visit(0, 1, Some(good))])
                     + if answered then [] else rest.visits
  {
    hide LoopRun, SyncPlan;
    var h := q.hedge.value;
    OutcomeSettles(h.reply, SyncRun(q, counts).visits);
  }

  // ---------- The streaming loop ----------

  /** A reply that ends the streaming loop: headers have gone to the client, or an error that is the client's own. */
  predicate EndsStream(u: StreamReply) {
    u.sent || (!Failed(u.urc, u.status) && u.status >= 400)
  }

  /** What it leads to. Whatever has been streamed is charged, interrupted or not. */
  ghost predicate StreamSettles(r: Run, u: StreamReply) {
    if u.sent then
      && r.answers == [Streamed(u.urc == 0)]
      && r.usage == [if u.urc != 0 then 502 else if u.status > 0 then u.status else 200]
      && r.budget == [Charge(u.cost, u.tokens)] && Sum(r.tokens) == u.tokens
    else
      var status := if u.hasBody then u.status else 502;
      && r.answers == [if u.hasBody then Json(status) else Error(status)] && r.usage == [status]
      && r.budget == [] && r.tokens == []
  }

  ghost predicate FirstStream(cands: seq<StreamCandidate>, counts: map<string, nat>, j: nat) {
    && j < |cands| && StreamCallable(cands[j], counts) && EndsStream(LastStreamReply(cands, j))
    && forall l :: 0 <= l < j && StreamCallable(cands[l], counts) ==> !EndsStream(LastStreamReply(cands, l))
  }

  lemma StreamEndsExactly(cands: seq<StreamCandidate>, counts: map<string, nat>, l: nat)
    requires l < |cands|
    ensures Ends(StreamPlan(cands, counts)[l])
      <==> StreamCallable(cands[l], counts) && EndsStream(LastStreamReply(cands, l))
    ensures StreamPlan(cands, counts)[l].Full?
      <==> cands[l].hasBuild && cands[l].hasBridge && Saturated(counts, cands[l].target)
  {
    hide StreamOutcome;
  }

  lemma StreamLoopSettles(cands: seq<StreamCandidate>, counts: map<string, nat>, j: nat)
    requires FirstStream(cands, counts, j)
    ensures StreamSettles(LoopRun(StreamPlan(cands, counts), 0), LastStreamReply(cands, j))
  {
    hide StreamOutcome;
    var plan := StreamPlan(cands, counts);
    forall l | 0 <= l <= j ensures Ends(plan[l]) <==> l == j { StreamEndsExactly(cands, counts, l); }
    StopsAt(plan, 0, j);
    StreamOutcomeSettles(LastStreamReply(cands, j), VisitsIn(plan, 0, j + 1));
    assert !AllFull(plan, 0) by { assert !plan[j].Full?; }
  }

  lemma StreamOutcomeSettles(u: StreamReply, visits: seq<Visit>)
    requires EndsStream(u)
    ensures var r := StreamOutcome(u);
      StreamSettles(if r.answers != [] then r.(visits := visits) else Generic(502).(visits := visits), u)
  {
    assert Sum([]) == 0 && (forall n: int :: Sum([n]) == n) && forall n: int :: [n, 0][..1] == [n];
  }

  lemma StreamLoopGivesUp(cands: seq<StreamCandidate>, counts: map<string, nat>)
    requires forall j :: !FirstStream(cands, counts, j)
    ensures GivesUp(LoopRun(StreamPlan(cands, counts), 0),
                    cands != [] && forall l :: 0 <= l < |cands| ==>
                      cands[l].hasBuild && cands[l].hasBridge && Saturated(counts, cands[l].target))
  {
    hide StreamOutcome;
    var plan := StreamPlan(cands, counts);
    NoStreamEnds(cands, counts, |cands|);
    StopsAt(plan, 0, |cands|);
    forall l | 0 <= l < |cands|
      ensures plan[l].Full? <==> cands[l].hasBuild && cands[l].hasBridge && Saturated(counts, cands[l].target)
    {
      StreamEndsExactly(cands, counts, l);
    }
  }

  lemma {:induction false} NoStreamEnds(cands: seq<StreamCandidate>, counts: map<string, nat>, n: nat)
    requires n <= |cands| && forall j :: !FirstStream(cands, counts, j)
    ensures forall l :: 0 <= l < n ==> !Ends(StreamPlan(cands, counts)[l])
  {
    hide StreamOutcome;
    if n > 0 {
      NoStreamEnds(cands, counts, n - 1);
      forall l | 0 <= l < n ensures Ends(StreamPlan(cands, counts)[l])
          <==> StreamCallable(cands[l], counts) && EndsStream(LastStreamReply(cands, l))
      {
        StreamEndsExactly(cands, counts, l);
      }
      assert !FirstStream(cands, counts, n - 1);
    }
  }

  /** The breaker hears of a success when a stream was sent to its end, of a failure when no headers were sent, and
      nothing of an interrupted stream. */
  lemma StreamReports(cands: seq<StreamCandidate>, counts: map<string, nat>, v: Visit)
    requires v in LoopRun(StreamPlan(cands, counts), 0).visits
    ensures v.ci < |cands| && var u := LastStreamReply(cands, v.ci);
      v.report == if !u.sent then Some(false) else if u.urc == 0 then Some(true) else None
    ensures var u := cands[v.ci].first;
      v.calls == if |cands| == 1 && !u.sent && (u.urc != 0 || u.status >= 500) then 2 else 1
    ensures LastStreamReply(cands, v.ci) == if v.calls == 2 then cands[v.ci].second else cands[v.ci].first
  {
    hide StreamOutcome, LoopRun;
    LoopVisit(StreamPlan(cands, counts), 0, v);
  }
}
