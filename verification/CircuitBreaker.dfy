/** The circuit breaker of one model and endpoint, without a shared store
    (src/policy/circuit_breaker.c:48-60, 158-172, 294-330, 417-441, 477-494, 497-602, 662-756, 794-854). */
module CircuitBreaker {
  import opened Options

  datatype State = Closed | Open | HalfOpen | SlaDegraded

  datatype Sample = Sample(ttft: nat, latency: nat)

  /** A limit of 0 is no limit. */
  datatype SlaConfig = SlaConfig(ttftMax: nat, p95Max: nat, window: nat, ratio: real)

  datatype Params = Params(threshold: int, cooloff: int, sla: Option<SlaConfig>)

  const MAX_SLA_SAMPLES := 128
  const RECOVER_NEED := 2
  const RATIO_EPSILON := 0.0001

  ghost predicate ParamsOk(p: Params) {
    && p.threshold > 0 && p.cooloff >= 0
    && (p.sla.Some? ==> 1 <= p.sla.value.window <= MAX_SLA_SAMPLES)
  }

  predicate Violates(c: SlaConfig, s: Sample) {
    (c.ttftMax > 0 && s.ttft > c.ttftMax) || (c.p95Max > 0 && s.latency > c.p95Max)
  }

  function Violations(c: SlaConfig, samples: seq<Sample>): nat {
    if samples == [] then 0
    else Violations(c, samples[..|samples| - 1]) + if Violates(c, samples[|samples| - 1]) then 1 else 0
  }

  /** Client errors other than 429 are no failures of the upstream. */
  predicate Filtered(status: int) {
    status > 0 && status != 429 && (status < 500 || status > 599)
  }

  // ---------- The breaker as a state machine ----------

  /** recent holds the samples of the window, oldest first. */
  datatype Entry = Entry(state: State, failures: nat, openUntil: int, probe: bool, recent: seq<Sample>, normal: nat)

  const FRESH := Entry(Closed, 0, 0, false, [], 0)

  datatype Event =
    | Allow(now: int)
    | Success
    | Failure(now: int, status: int)
    | Sla(now: int, sample: Sample)
    | Override(now: int, to: State)
    | Look(now: int)

  function Advance(e: Entry, now: int): Entry {
    if e.state == Open && now >= e.openUntil then e.(state := HalfOpen, probe := false) else e
  }

  predicate Admits(e: Entry, now: int) {
    var a := Advance(e, now);
    a.state == Closed || a.state == SlaDegraded || (a.state == HalfOpen && !a.probe)
  }

  function AfterAllow(e: Entry, now: int): Entry {
    var a := Advance(e, now);
    if a.state == HalfOpen then a.(probe := true) else a
  }

  function AfterSuccess(e: Entry): Entry {
    e.(state := if e.state == HalfOpen then Closed else e.state, failures := 0, openUntil := 0, probe := false)
  }

  function AfterFailure(p: Params, e: Entry, now: int, status: int): Entry {
    if Filtered(status) then e
    else
      var a := Advance(e, now);
      var counted := a.state == Closed || a.state == SlaDegraded;
      var n := if counted then a.failures + 1 else a.failures;
      if a.state == HalfOpen || (counted && n >= p.threshold)
      then a.(state := Open, failures := n, openUntil := now + p.cooloff, probe := false)
      else a.(failures := n)
  }

  function LastOf<T>(s: seq<T>, n: nat): seq<T> {
    if |s| <= n then s else s[|s| - n..]
  }

  function Pushed(recent: seq<Sample>, s: Sample, window: nat): seq<Sample> {
    LastOf(recent + [s], window)
  }

  predicate ShareReached(c: SlaConfig, recent: seq<Sample>) {
    |recent| >= c.window && |recent| > 0
    && Violations(c, recent) as real / |recent| as real >= c.ratio - RATIO_EPSILON
  }

  /** The state transition after a sample has been counted. */
  function Judged(c: SlaConfig, e: Entry): Entry {
    if e.state == Closed && ShareReached(c, e.recent) then e.(state := SlaDegraded, normal := 0)
    else if e.state == SlaDegraded && e.normal >= RECOVER_NEED then e.(state := Closed, recent := [], normal := 0)
    else e
  }

  function AfterSla(p: Params, e: Entry, now: int, s: Sample): Entry
    requires ParamsOk(p)
  {
    if p.sla.None? then e
    else
      var c := p.sla.value;
      var a := Advance(e, now);
      Judged(c, a.(recent := Pushed(a.recent, s, c.window), normal := if Violates(c, s) then 0 else a.normal + 1))
  }

  function AfterOverride(p: Params, e: Entry, now: int, to: State): Entry {
    match to
    case Closed => Entry(Closed, 0, 0, false, [], 0)
    case Open => e.(state := Open, openUntil := now + p.cooloff, probe := false)
    case SlaDegraded => e.(state := SlaDegraded, normal := 0)
    case HalfOpen => e.(state := HalfOpen)
  }

  function Step(p: Params, e: Entry, ev: Event): Entry
    requires ParamsOk(p)
  {
    match ev
    case Allow(now) => AfterAllow(e, now)
    case Success => AfterSuccess(e)
    case Failure(now, status) => AfterFailure(p, e, now, status)
    case Sla(now, sample) => AfterSla(p, e, now, sample)
    case Override(now, to) => AfterOverride(p, e, now, to)
    case Look(now) => Advance(e, now)
  }

  /** The entry after any sequence of events, from the fresh entry. */
  function Run(p: Params, es: seq<Event>): Entry
    requires ParamsOk(p)
  {
    if es == [] then FRESH else Step(p, Run(p, es[..|es| - 1]), es[|es| - 1])
  }

  lemma RunNext(p: Params, es: seq<Event>, k: nat)
    requires ParamsOk(p) && k < |es|
    ensures Run(p, es[..k + 1]) == Step(p, Run(p, es[..k]), es[k])
  {
    assert es[..k + 1][..k] == es[..k];
  }

  // ---------- What one event means ----------

  /** A fault of the upstream: no answer at all, too many requests, or a server error. */
  predicate IsFault(status: int) {
    status <= 0 || status == 429 || 500 <= status <= 599
  }

  /** A fault at a closed or degraded entry counts, and opens it on reaching the threshold; at a half-open entry it
      opens it; at an open one, and with any other status, a failure changes nothing. */
  lemma FaultsExactly(p: Params, e: Entry, now: int, status: int)
    requires ParamsOk(p)
    ensures var a := Step(p, e, Failure(now, status));
      if !(status <= 0 || status == 429 || 500 <= status <= 599) then a == e
      else if e.state == Closed || e.state == SlaDegraded then
        && a.failures == e.failures + 1
        && (a.state == Open <==> e.failures + 1 >= p.threshold)
        && (a.state == Open ==> a.openUntil == now + p.cooloff)
        && (a.state != Open ==> a.state == e.state && a.openUntil == e.openUntil)
      else if e.state == HalfOpen || now >= e.openUntil then
        a.state == Open && a.openUntil == now + p.cooloff && !a.probe && a.failures == e.failures
      else a == e
  {}

  /** A success closes a half-open entry and leaves every other one in its state; failures are forgotten. */
  lemma SuccessCloses(p: Params, e: Entry, now: int)
    requires ParamsOk(p)
    ensures var a := Step(p, e, Success);
      && a.state == (if e.state == HalfOpen then Closed else e.state)
      && a.failures == 0 && a.openUntil == 0 && !a.probe && a.recent == e.recent
      && (e.state == HalfOpen ==> Admits(a, now))
  {}

  /** An override puts the entry into its state: OPEN denies until the cool-off is over and then admits one, CLOSED
      and SLA_DEGRADED admit at once, and HALF_OPEN admits unless a probe is out already. */
  lemma OverrideActs(p: Params, e: Entry, now: int, to: State, later: int)
    requires ParamsOk(p)
    ensures var a := Step(p, e, Override(now, to));
      && a.state == to
      && (Admits(a, later) <==> match to
            case Closed => true
            case SlaDegraded => true
            case Open => later >= now + p.cooloff
            case HalfOpen => !e.probe)
      && (to == Closed ==> a.failures == 0 && a.recent == [])
      && (to != Closed ==> a.failures == e.failures && a.recent == e.recent)
  {}

  /** A sample violates a limit that is set and exceeded. */
  lemma ViolatesExactly(c: SlaConfig, s: Sample)
    ensures Violates(c, s) <==> (c.ttftMax != 0 && c.ttftMax < s.ttft) || (c.p95Max != 0 && c.p95Max < s.latency)
  {}

  // ---------- Half-open: one probe per stay ----------

  ghost predicate AdmittedAt(p: Params, es: seq<Event>, k: nat)
    requires ParamsOk(p) && k < |es|
  {
    es[k].Allow? && Admits(Run(p, es[..k]), es[k].now)
  }

  ghost predicate HalfOpenAfter(p: Params, es: seq<Event>, k: nat)
    requires ParamsOk(p) && k < |es|
  {
    Run(p, es[..k + 1]).state == HalfOpen
  }

  /** Once admitted, the probe flag stays for as long as the entry stays half open. */
  lemma {:induction false} ProbeStays(p: Params, es: seq<Event>, i: nat, j: nat)
    requires ParamsOk(p) && i <= j < |es| && AdmittedAt(p, es, i)
    requires forall k :: i <= k <= j ==> HalfOpenAfter(p, es, k)
    ensures Run(p, es[..j + 1]).probe
    decreases j
  {
    RunNext(p, es, j);
    if i < j {
      assert HalfOpenAfter(p, es, j - 1);
      ProbeStays(p, es, i, j - 1);
    }
    assert HalfOpenAfter(p, es, j);
  }

  /** A stay in HALF_OPEN, from event i to event j, admits at most one request. */
  lemma OneProbePerStay(p: Params, es: seq<Event>, i: nat, j: nat)
    requires ParamsOk(p) && i < j < |es| && AdmittedAt(p, es, i)
    requires forall k :: i <= k <= j ==> HalfOpenAfter(p, es, k)
    ensures !AdmittedAt(p, es, j)
  {
    ProbeStays(p, es, i, j - 1);
    assert HalfOpenAfter(p, es, j - 1);
  }

  /** Events that leave a half-open entry with a probe as it is: a filtered client error is one. */
  predicate Idle(ev: Event) {
    ev.Allow? || ev.Look? || ev.Sla? || (ev.Failure? && !IsFault(ev.status))
    || (ev.Override? && ev.to == HalfOpen)
  }

  /** Half open, and the probe has been admitted. */
  predicate Blocked(e: Entry) {
    e.state == HalfOpen && e.probe
  }

  ghost predicate BlockedAt(p: Params, es: seq<Event>, k: nat)
    requires ParamsOk(p) && k <= |es|
  {
    Blocked(Run(p, es[..k]))
  }

  lemma StaysBlocked(p: Params, e: Entry, ev: Event)
    requires ParamsOk(p) && Blocked(e)
    ensures Blocked(Step(p, e, ev)) <==> Idle(ev)
    ensures ev.Allow? ==> !Admits(e, ev.now)
  {
    hide ShareReached, Violates;
  }

  /** An entry whose probe has been admitted stays blocked, and admits nothing, exactly as long as there is no
      success, no counted failure and no override to another state: for any length of time, if the probe is
      answered by a filtered client error or never. */
  lemma {:induction false} UnresolvedProbeBlocks(p: Params, es: seq<Event>, i: nat, j: nat)
    requires ParamsOk(p) && i <= j <= |es| && BlockedAt(p, es, i)
    ensures (forall k :: i <= k <= j ==> BlockedAt(p, es, k)) <==> (forall k :: i <= k < j ==> Idle(es[k]))
    ensures (forall k :: i <= k < j ==> Idle(es[k])) ==> forall k :: i <= k < j ==> !AdmittedAt(p, es, k)
    decreases j
  {
    hide Run, Step, Idle, Blocked;
    if i < j {
      var n := j - 1;
      UnresolvedProbeBlocks(p, es, i, n);
      RunNext(p, es, n);
      if BlockedAt(p, es, n) { StaysBlocked(p, Run(p, es[..n]), es[n]); }
      assert BlockedAt(p, es, j) == Blocked(Run(p, es[..n + 1]));
    }
  }

  /** A run into that state: the breaker opens, the cool-off passes, and the probe gets a 400. */
  lemma FilteredAnswerBlocks(p: Params, now: int)
    requires ParamsOk(p)
    ensures var es := [Override(now, Open), Allow(now + p.cooloff), Failure(now + p.cooloff, 400)];
      AdmittedAt(p, es, 1) && BlockedAt(p, es, 3)
  {
    var es := [Override(now, Open), Allow(now + p.cooloff), Failure(now + p.cooloff, 400)];
    RunNext(p, es, 0);
    RunNext(p, es, 1);
    RunNext(p, es, 2);
    assert es[..0] == [];
  }

  // ---------- Tripping ----------

  /** A failure of the upstream that arrives at a closed or degraded breaker. */
  predicate Counts(e: Entry, ev: Event) {
    && ev.Failure? && IsFault(ev.status)
    && (Advance(e, ev.now).state == Closed || Advance(e, ev.now).state == SlaDegraded)
  }

  ghost predicate CountedAt(p: Params, es: seq<Event>, k: nat)
    requires ParamsOk(p) && k < |es|
  {
    Counts(Run(p, es[..k]), es[k])
  }

  predicate Resets(ev: Event) {
    ev.Success? || (ev.Override? && ev.to == Closed)
  }

  ghost predicate NoResetAfter(es: seq<Event>, k: nat) {
    forall j :: k < j < |es| ==> !Resets(es[j])
  }

  /** The counted failures after the last success or override to CLOSED. */
  ghost function CountedSince(p: Params, es: seq<Event>): set<nat>
    requires ParamsOk(p)
  {
    set k: nat | k < |es| && CountedAt(p, es, k) && NoResetAfter(es, k)
  }

  lemma CountedSinceNext(p: Params, es: seq<Event>, ev: Event)
    requires ParamsOk(p)
    ensures var n := |es|; var es' := es + [ev];
      CountedSince(p, es')
      == if Resets(ev) then {} else if Counts(Run(p, es), ev) then CountedSince(p, es) + {n} else CountedSince(p, es)
  {
    hide Run, Counts, Resets;
    var n, es' := |es|, es + [ev];
    assert es'[n] == ev && es'[..n] == es;
    forall k: nat | k < n ensures CountedAt(p, es', k) <==> CountedAt(p, es, k) {
      assert es'[..k] == es[..k];
    }
    forall k: nat | k < n ensures NoResetAfter(es', k) <==> NoResetAfter(es, k) && !Resets(ev) {
      assert forall j :: k < j < n ==> es'[j] == es[j];
    }
    assert Resets(ev) ==> !Counts(Run(p, es), ev) by { ResetsDoNotCount(Run(p, es), ev); }
  }

  lemma ResetsDoNotCount(e: Entry, ev: Event)
    ensures !(Resets(ev) && Counts(e, ev))
  {}

  lemma StepFailures(p: Params, e: Entry, ev: Event)
    requires ParamsOk(p)
    ensures Step(p, e, ev).failures == if Resets(ev) then 0 else if Counts(e, ev) then e.failures + 1 else e.failures
  {}

  lemma {:induction false} FailuresAreCounted(p: Params, es: seq<Event>)
    requires ParamsOk(p)
    ensures Run(p, es).failures == |CountedSince(p, es)|
  {
    hide Step, Counts, CountedAt, Resets, NoResetAfter;
    if es == [] {
      assert CountedSince(p, es) == {};
    } else {
      var n := |es| - 1;
      var front, ev := es[..n], es[n];
      assert es == front + [ev];
      FailuresAreCounted(p, front);
      CountedSinceNext(p, front, ev);
      StepFailures(p, Run(p, front), ev);
      assert n !in CountedSince(p, front);
    }
  }

  /** A closed or degraded breaker trips, other than by an override, exactly on the counted failure with
      which the failures since the last success or override to CLOSED reach the threshold. */
  lemma TripsExactly(p: Params, es: seq<Event>, ev: Event)
    requires ParamsOk(p) && !ev.Override?
    requires Run(p, es).state == Closed || Run(p, es).state == SlaDegraded
    ensures Run(p, es + [ev]).state == Open
            <==> CountedAt(p, es + [ev], |es|) && |CountedSince(p, es + [ev])| >= p.threshold
  {
    hide CountedSince, Run;
    var es' := es + [ev];
    assert es'[..|es|] == es && es'[..|es| + 1] == es';
    RunNext(p, es', |es|);
    FailuresAreCounted(p, es');
  }

  /** A number of failures, all at one time and with one status. */
  function Failures(n: nat, now: int, status: int): seq<Event> {
    if n == 0 then [] else Failures(n - 1, now, status) + [Failure(now, status)]
  }

  /** From any run that ends closed or degraded: so many faults in a row open the breaker exactly when they and those
      counted before reach the threshold. */
  lemma {:induction false} FaultsInARow(p: Params, es: seq<Event>, n: nat, now: int, status: int)
    requires ParamsOk(p) && (status <= 0 || status == 429 || 500 <= status <= 599)
    requires Run(p, es).state == Closed || Run(p, es).state == SlaDegraded
    requires n > 0 && Run(p, es).failures + n <= p.threshold
    ensures var e := Run(p, es + Failures(n, now, status));
      && e.failures == Run(p, es).failures + n
      && (e.state == Open <==> Run(p, es).failures + n >= p.threshold)
      && (e.state != Open ==> e.state == Run(p, es).state)
  {
    hide Run, Step;
    var front := es + Failures(n - 1, now, status);
    assert es + Failures(n, now, status) == front + [Failure(now, status)];
    if n == 1 {
      assert front == es;
    } else {
      FaultsInARow(p, es, n - 1, now, status);
    }
    RunAppend(p, front, Failure(now, status));
    FaultsExactly(p, Run(p, front), now, status);
  }

  lemma RunAppend(p: Params, es: seq<Event>, ev: Event)
    requires ParamsOk(p)
    ensures Run(p, es + [ev]) == Step(p, Run(p, es), ev)
  {
    assert (es + [ev])[..|es|] == es;
  }

  // ---------- Staying open ----------

  predicate BeforeDeadline(ev: Event, deadline: int) {
    (ev.Allow? || ev.Failure? || ev.Sla? || ev.Look?) && ev.now < deadline
  }

  /** An open breaker denies everything until its deadline; no failure moves the deadline. */
  lemma {:induction false} OpenUntilDeadline(p: Params, es: seq<Event>, i: nat, j: nat)
    requires ParamsOk(p) && i <= j <= |es| && Run(p, es[..i]).state == Open
    requires forall k :: i <= k < j ==> BeforeDeadline(es[k], Run(p, es[..i]).openUntil)
    ensures Run(p, es[..j]).state == Open && Run(p, es[..j]).openUntil == Run(p, es[..i]).openUntil
    ensures forall k :: i <= k < j ==> !AdmittedAt(p, es, k)
    decreases j
  {
    hide Run, Step;
    if i < j {
      OpenUntilDeadline(p, es, i, j - 1);
      RunNext(p, es, j - 1);
      StaysOpen(p, Run(p, es[..j - 1]), es[j - 1]);
    }
  }

  lemma StaysOpen(p: Params, e: Entry, ev: Event)
    requires ParamsOk(p) && e.state == Open && BeforeDeadline(ev, e.openUntil)
    ensures Step(p, e, ev).state == Open && Step(p, e, ev).openUntil == e.openUntil && !Admits(e, ev.now)
  {
    hide ShareReached, Violates;
  }

  /** From a trip or a failed probe at time t, with no success or override after it, requests are denied
      exactly until t + cooloff: the first event at or after the deadline finds the entry half open. */
  lemma TripLastsExactly(p: Params, es: seq<Event>, i: nat, j: nat)
    requires ParamsOk(p) && i < j < |es| && es[i].Failure?
    requires Run(p, es[..i]).state != Open && Run(p, es[..i + 1]).state == Open
    requires var deadline := es[i].now + p.cooloff;
      (forall k :: i < k < j ==> BeforeDeadline(es[k], deadline)) && es[j].Allow?
    ensures AdmittedAt(p, es, j) <==> es[j].now >= es[i].now + p.cooloff
    ensures forall k :: i < k < j ==> !AdmittedAt(p, es, k)
  {
    RunNext(p, es, i);
    OpenUntilDeadline(p, es, i + 1, j);
  }

  /** A success that arrives while the breaker is open, of a request sent before the trip, takes the
      deadline away: the next request at any time from the epoch on is admitted. */
  lemma SuccessWhileOpenAdmits(p: Params, es: seq<Event>, now: int)
    requires ParamsOk(p) && Run(p, es).state == Open
    ensures var es' := es + [Success, Allow(now)]; AdmittedAt(p, es', |es| + 1) <==> now >= 0
  {
    var es' := es + [Success, Allow(now)];
    RunNext(p, es', |es|);
    assert es'[..|es|] == es;
  }

  // ---------- The SLA window ----------

  predicate RecoversOn(p: Params, e: Entry, ev: Event)
    requires ParamsOk(p)
  {
    ev.Sla? && p.sla.Some? && Advance(e, ev.now).state == SlaDegraded && Step(p, e, ev).state == Closed
  }

  /** The samples since the window was last emptied, by a recovery or an override to CLOSED. */
  ghost function SamplesSince(p: Params, es: seq<Event>): seq<Sample>
    requires ParamsOk(p)
  {
    if es == [] || p.sla.None? then []
    else
      var n := |es| - 1;
      var e, ev := Run(p, es[..n]), es[n];
      if RecoversOn(p, e, ev) || (ev.Override? && ev.to == Closed) then []
      else if ev.Sla? then SamplesSince(p, es[..n]) + [ev.sample]
      else SamplesSince(p, es[..n])
  }

  /** The window holds the last samples since it was emptied, as many as fit. */
  lemma {:induction false} WindowIsLast(p: Params, es: seq<Event>)
    requires ParamsOk(p) && p.sla.Some?
    ensures Run(p, es).recent == LastOf(SamplesSince(p, es), p.sla.value.window)
  {
    hide Step, RecoversOn, LastOf;
    var w := p.sla.value.window;
    LastOfEmpty(w);
    if es != [] {
      var front, ev := es[..|es| - 1], es[|es| - 1];
      WindowIsLast(p, front);
      StepRecent(p, Run(p, front), ev);
      if ev.Sla? { LastOfPush(SamplesSince(p, front), ev.sample, w); }
    }
  }

  lemma StepRecent(p: Params, e: Entry, ev: Event)
    requires ParamsOk(p) && p.sla.Some?
    ensures Step(p, e, ev).recent
      == if RecoversOn(p, e, ev) || (ev.Override? && ev.to == Closed) then []
         else if ev.Sla? then LastOf(e.recent + [ev.sample], p.sla.value.window)
         else e.recent
  {
    hide ShareReached, Violates, LastOf;
  }

  lemma LastOfPush(s: seq<Sample>, x: Sample, w: nat)
    ensures LastOf(LastOf(s, w) + [x], w) == LastOf(s + [x], w)
  {}

  lemma LastOfEmpty(w: nat)
    ensures LastOf<Sample>([], w) == []
  {}

  /** The places of the samples that exceed a limit. */
  ghost function Violating(c: SlaConfig, samples: seq<Sample>): set<nat> {
    set i: nat | i < |samples| && ((c.ttftMax > 0 && samples[i].ttft > c.ttftMax)
                                   || (c.p95Max > 0 && samples[i].latency > c.p95Max))
  }

  lemma {:induction false} ViolationsAre(c: SlaConfig, samples: seq<Sample>)
    ensures Violations(c, samples) == |Violating(c, samples)|
  {
    if samples == [] {
      assert Violating(c, samples) == {};
    } else {
      var n := |samples| - 1;
      ViolationsAre(c, samples[..n]);
      var v := Violating(c, samples[..n]);
      assert n !in v && Violating(c, samples) == if Violates(c, samples[n]) then v + {n} else v;
    }
  }

  /** A closed breaker degrades exactly when, counting the new sample, at least a window of samples has
      come since the last reset and the share of violations in the last window of them reaches the ratio. */
  lemma DegradesExactly(p: Params, es: seq<Event>, now: int, s: Sample)
    requires ParamsOk(p) && p.sla.Some? && Run(p, es).state == Closed
    ensures var c := p.sla.value; var all := SamplesSince(p, es) + [s];
      Run(p, es + [Sla(now, s)]).state == SlaDegraded
      <==> |all| >= c.window
           && |Violating(c, LastOf(all, c.window))| as real / c.window as real >= c.ratio - 0.0001
  {
    hide SamplesSince, Violations, Violating, Run;
    ViolationsAre(p.sla.value, LastOf(SamplesSince(p, es) + [s], p.sla.value.window));
    var c, all, es' := p.sla.value, SamplesSince(p, es) + [s], es + [Sla(now, s)];
    WindowIsLast(p, es);
    RunNext(p, es', |es|);
    assert es'[..|es|] == es && es'[..|es| + 1] == es';
    assert Pushed(Run(p, es).recent, s, c.window) == LastOf(all, c.window);
  }

  // ---------- Recovery ----------

  /** The samples among some events. */
  function SlaSamples(es: seq<Event>): seq<Sample> {
    if es == [] then []
    else SlaSamples(es[..|es| - 1]) + if es[|es| - 1].Sla? then [es[|es| - 1].sample] else []
  }

  /** How many samples at the end are within the limits. */
  function NormalAtEnd(c: SlaConfig, samples: seq<Sample>): nat {
    if samples == [] || Violates(c, samples[|samples| - 1]) then 0
    else NormalAtEnd(c, samples[..|samples| - 1]) + 1
  }

  ghost predicate DegradesAt(p: Params, es: seq<Event>, i: nat)
    requires ParamsOk(p) && i < |es|
  {
    && Run(p, es[..i + 1]).state == SlaDegraded
    && (Run(p, es[..i]).state != SlaDegraded || es[i].Override?)
  }

  /** After event k, which is no override, the breaker is degraded. */
  ghost predicate DegradedAfter(p: Params, es: seq<Event>, k: nat)
    requires ParamsOk(p) && k < |es|
  {
    Run(p, es[..k + 1]).state == SlaDegraded && !es[k].Override?
  }

  lemma {:induction false} NormalIsCounted(p: Params, es: seq<Event>, i: nat, j: nat)
    requires ParamsOk(p) && p.sla.Some? && i < j <= |es| && DegradesAt(p, es, i)
    requires forall k :: i < k < j ==> DegradedAfter(p, es, k)
    ensures Run(p, es[..j]).normal == NormalAtEnd(p.sla.value, SlaSamples(es[i + 1..j]))
    decreases j
  {
    hide *;
    if j == i + 1 {
      DegradesWithZero(p, es, i);
      assert es[i + 1..j] == [];
      NothingIsNormal(p.sla.value);
    } else {
      var n := j - 1;
      NormalIsCounted(p, es, i, n);
      DegradedBefore(p, es, i, n);
      assert DegradedAfter(p, es, n);
      NormalNext(p, es, n);
      assert es[i + 1..j] == es[i + 1..n] + [es[n]];
      SamplesNext(p.sla.value, es[i + 1..n], es[n]);
    }
  }

  lemma NothingIsNormal(c: SlaConfig)
    ensures NormalAtEnd(c, SlaSamples([])) == 0
  {}

  lemma DegradesWithZero(p: Params, es: seq<Event>, i: nat)
    requires ParamsOk(p) && i < |es| && DegradesAt(p, es, i)
    ensures Run(p, es[..i + 1]).normal == 0
  {
    hide Run, Step;
    RunNext(p, es, i);
    DegradingClearsNormal(p, Run(p, es[..i]), es[i]);
  }

  lemma DegradedBefore(p: Params, es: seq<Event>, i: nat, j: nat)
    requires ParamsOk(p) && i < j < |es| && DegradesAt(p, es, i)
    requires forall k :: i < k < j ==> DegradedAfter(p, es, k)
    ensures Run(p, es[..j]).state == SlaDegraded
  {
    hide Run;
    if j > i + 1 {
      assert DegradedAfter(p, es, j - 1);
    }
  }

  lemma NormalNext(p: Params, es: seq<Event>, n: nat)
    requires ParamsOk(p) && p.sla.Some? && n < |es|
    requires Run(p, es[..n]).state == SlaDegraded && DegradedAfter(p, es, n)
    ensures Run(p, es[..n + 1]).normal
      == if !es[n].Sla? then Run(p, es[..n]).normal
         else if Violates(p.sla.value, es[n].sample) then 0 else Run(p, es[..n]).normal + 1
  {
    hide Run, Step, Violates;
    RunNext(p, es, n);
    StepNormal(p, Run(p, es[..n]), es[n]);
  }

  lemma SamplesNext(c: SlaConfig, es: seq<Event>, ev: Event)
    ensures var s := SlaSamples(es); var s' := SlaSamples(es + [ev]);
      && s' == (if ev.Sla? then s + [ev.sample] else s)
      && NormalAtEnd(c, s')
         == if !ev.Sla? then NormalAtEnd(c, s) else if Violates(c, ev.sample) then 0 else NormalAtEnd(c, s) + 1
  {
    assert (es + [ev])[..|es|] == es;
    if ev.Sla? { assert (SlaSamples(es) + [ev.sample])[..|SlaSamples(es)|] == SlaSamples(es); }
  }

  lemma DegradingClearsNormal(p: Params, e: Entry, ev: Event)
    requires ParamsOk(p) && Step(p, e, ev).state == SlaDegraded && (e.state != SlaDegraded || ev.Override?)
    ensures Step(p, e, ev).normal == 0
  {
    hide ShareReached, Violates;
  }

  lemma StepNormal(p: Params, e: Entry, ev: Event)
    requires ParamsOk(p) && p.sla.Some? && e.state == SlaDegraded && !ev.Override?
    requires Step(p, e, ev).state == SlaDegraded
    ensures Step(p, e, ev).normal
      == if !ev.Sla? then e.normal else if Violates(p.sla.value, ev.sample) then 0 else e.normal + 1
  {
    hide ShareReached, Violates;
  }

  lemma StepRecovers(p: Params, e: Entry, ev: Event)
    requires ParamsOk(p) && p.sla.Some? && e.state == SlaDegraded && ev.Sla?
    ensures Step(p, e, ev).state == Closed <==> !Violates(p.sla.value, ev.sample) && e.normal + 1 >= RECOVER_NEED
  {
    hide ShareReached, Violates;
  }

  /** A degraded breaker recovers exactly on the sample that makes the two last samples since it degraded
      normal ones. */
  lemma RecoversExactly(p: Params, es: seq<Event>, i: nat, j: nat)
    requires ParamsOk(p) && p.sla.Some? && i < j < |es| && DegradesAt(p, es, i) && es[j].Sla?
    requires forall k :: i < k < j ==> DegradedAfter(p, es, k)
    ensures Run(p, es[..j + 1]).state == Closed
            <==> NormalAtEnd(p.sla.value, SlaSamples(es[i + 1..j]) + [es[j].sample]) >= 2
  {
    hide Violates, Run, Step, SlaSamples, NormalAtEnd;
    NormalIsCounted(p, es, i, j);
    DegradedBefore(p, es, i, j);
    RunNext(p, es, j);
    StepRecovers(p, Run(p, es[..j]), es[j]);
    assert j > i + 1 ==> DegradedAfter(p, es, j - 1);
    SamplesNext(p.sla.value, es[i + 1..j], es[j]);
  }

  // ---------- The entry as an object ----------

  /** The slot of sample i, oldest first, in a ring of the given window whose next free slot is head. */
  function Slot(head: nat, count: nat, window: nat, i: nat): (k: int)
    requires head < window && count <= window && i < count
    ensures 0 <= k < window
  {
    if head + i >= count then head + i - count else head + i - count + window
  }

  function RingContents(ring: seq<Sample>, head: nat, count: nat, window: nat): (s: seq<Sample>)
    requires head < window <= |ring| && count <= window
    ensures |s| == count
  {
    seq(count, i requires 0 <= i < count => ring[Slot(head, count, window, i)])
  }

  function Next(head: nat, window: nat): nat {
    if head + 1 == window then 0 else head + 1
  }

  lemma NextIsMod(head: nat, window: nat)
    requires head < window
    ensures (head + 1) % window == Next(head, window)
  {
    if head + 1 == window { assert window % window == 0; }
  }

  /** Writing at the head appends to the contents, and drops the oldest sample of a full ring. */
  lemma RingPush(ring: seq<Sample>, head: nat, count: nat, window: nat, x: Sample)
    requires head < window <= |ring| && count <= window
    ensures RingContents(ring[head := x], Next(head, window), if count < window then count + 1 else count, window)
            == Pushed(RingContents(ring, head, count, window), x, window)
  {
    var count' := if count < window then count + 1 else count;
    var a := RingContents(ring[head := x], Next(head, window), count', window);
    var b := Pushed(RingContents(ring, head, count, window), x, window);
    assert |a| == |b| == count';
    var shift := count + 1 - count';
    forall i | 0 <= i < count' ensures a[i] == b[i] {
      if i < count' - 1 {
        assert Slot(Next(head, window), count', window, i) == Slot(head, count, window, i + shift) != head;
      } else {
        assert Slot(Next(head, window), count', window, i) == head;
      }
    }
  }

  lemma {:induction false} ViolationsConcat(c: SlaConfig, a: seq<Sample>, b: seq<Sample>)
    ensures Violations(c, a + b) == Violations(c, a) + Violations(c, b)
  {
    if b == [] {
      assert a + b == a;
    } else {
      assert (a + b)[..|a + b| - 1] == a + b[..|b| - 1];
      ViolationsConcat(c, a, b[..|b| - 1]);
    }
  }

  /** The first slots of a full ring hold a rotation of the window: counting there counts the window. */
  lemma FullRingIsRotation(c: SlaConfig, ring: seq<Sample>, head: nat, window: nat)
    requires head < window <= |ring|
    ensures RingContents(ring, head, window, window) == ring[head..window] + ring[..head]
    ensures Violations(c, ring[..window]) == Violations(c, RingContents(ring, head, window, window))
  {
    ViolationsConcat(c, ring[head..window], ring[..head]);
    ViolationsConcat(c, ring[..head], ring[head..window]);
    assert ring[..head] + ring[head..window] == ring[..window];
  }

  function TtftSum(samples: seq<Sample>): nat {
    if samples == [] then 0 else TtftSum(samples[..|samples| - 1]) + samples[|samples| - 1].ttft
  }

  lemma {:induction false} TtftSumConcat(a: seq<Sample>, b: seq<Sample>)
    ensures TtftSum(a + b) == TtftSum(a) + TtftSum(b)
  {
    if b == [] {
      assert a + b == a;
    } else {
      assert (a + b)[..|a + b| - 1] == a + b[..|b| - 1];
      TtftSumConcat(a, b[..|b| - 1]);
    }
  }

  lemma {:induction false} TtftSumZero(s: seq<Sample>)
    ensures TtftSum(s) == 0 <==> forall i :: 0 <= i < |s| ==> s[i].ttft == 0
  {
    if s != [] { TtftSumZero(s[..|s| - 1]); }
  }

  function Mean(samples: seq<Sample>): nat {
    if samples == [] then 0 else TtftSum(samples) / |samples|
  }

  /** The mean of the first slots, which cb_get_sla_avg_ttft reports, is that of the window. */
  ghost predicate MeansAgree(ring: seq<Sample>, head: nat, count: nat, window: nat)
    requires head < window <= |ring| && count <= window
  {
    Mean(ring[..count]) == Mean(RingContents(ring, head, count, window))
  }

  /** A ring whose first slots have another mean than its window. */
  lemma StaleMean(head: nat, count: nat, window: nat) returns (ring: seq<Sample>)
    requires head < window && 0 < count < window && head != count
    ensures |ring| == window && !MeansAgree(ring, head, count, window)
  {
    var i: nat := if head > count then count - 1 else count - head - 1;
    var k := Slot(head, count, window, i);
    ring := seq(window, j => Sample(if j == k then count else 0, 0));
    TtftSumZero(ring[..count]);
    var contents := RingContents(ring, head, count, window);
    assert contents[i].ttft == count;
    TtftSumAtLeast(contents, i);
    QuotientPositive(TtftSum(contents), count);
    assert 0 / count == 0;
  }

  lemma {:induction false} TtftSumAtLeast(s: seq<Sample>, i: nat)
    requires i < |s|
    ensures TtftSum(s) >= s[i].ttft
  {
    if i < |s| - 1 { TtftSumAtLeast(s[..|s| - 1], i); }
  }

  lemma SameMean(a: seq<Sample>, b: seq<Sample>)
    ensures TtftSum(a) == TtftSum(b) && |a| == |b| ==> Mean(a) == Mean(b)
  {}

  lemma QuotientPositive(a: nat, b: nat)
    requires 0 < b <= a
    ensures a / b >= 1
  {
    assert a == b * (a / b) + a % b;
  }

  /** The reported mean is that of the window, whatever the samples, exactly when the ring is full or has been
      filled from its first slot. */
  lemma MeanIsOfWindow(head: nat, count: nat, window: nat)
    requires head < window && 0 < count <= window
    ensures (forall ring: seq<Sample> :: |ring| == window ==> MeansAgree(ring, head, count, window))
            <==> count == window || head == count
  {
    hide Mean;
    if count == window {
      forall ring: seq<Sample> | |ring| == window ensures MeansAgree(ring, head, count, window) {
        SameMean(ring[..window], RingContents(ring, head, window, window));
        TtftSumConcat(ring[head..window], ring[..head]);
        TtftSumConcat(ring[..head], ring[head..window]);
        assert ring[..head] + ring[head..window] == ring[..window];
        assert RingContents(ring, head, window, window) == ring[head..window] + ring[..head];
      }
    } else if head == count {
      forall ring: seq<Sample> | |ring| == window ensures MeansAgree(ring, head, count, window) {
        assert RingContents(ring, head, count, window) == ring[..count];
      }
    } else {
      var ring := StaleMean(head, count, window);
    }
  }

  // ---------- The ring over a run ----------

  /** Where the next sample goes, after an event. A recovery starts again at the first slot; an override to
      CLOSED empties the window but leaves the head where it is. */
  function HeadAfter(p: Params, e: Entry, head: nat, ev: Event): nat
    requires ParamsOk(p)
  {
    if p.sla.None? || !ev.Sla? then head
    else if RecoversOn(p, e, ev) then 0
    else Next(head, p.sla.value.window)
  }

  function HeadOf(p: Params, es: seq<Event>): nat
    requires ParamsOk(p)
  {
    if es == [] then 0
    else HeadAfter(p, Run(p, es[..|es| - 1]), HeadOf(p, es[..|es| - 1]), es[|es| - 1])
  }

  /** The slots of the ring after an event. */
  function RingAfter(p: Params, ring: seq<Sample>, head: nat, ev: Event): (r: seq<Sample>)
    ensures |r| == |ring|
  {
    if p.sla.Some? && ev.Sla? && head < |ring| then ring[head := ev.sample] else ring
  }

  function RingOf(p: Params, es: seq<Event>): (ring: seq<Sample>)
    requires ParamsOk(p)
    ensures |ring| == MAX_SLA_SAMPLES
  {
    if es == [] then seq(MAX_SLA_SAMPLES, _ => Sample(0, 0))
    else RingAfter(p, RingOf(p, es[..|es| - 1]), HeadOf(p, es[..|es| - 1]), es[|es| - 1])
  }

  /** Over any run, the slots before the head hold the window, after an override and a recovery too. */
  lemma {:induction false} RingHoldsWindow(p: Params, es: seq<Event>)
    requires ParamsOk(p) && p.sla.Some?
    ensures var w, recent := p.sla.value.window, Run(p, es).recent;
      && HeadOf(p, es) < w && |recent| <= w
      && RingContents(RingOf(p, es), HeadOf(p, es), |recent|, w) == recent
  {
    hide Step, RecoversOn, RingContents;
    var w := p.sla.value.window;
    if es == [] {
      NoContents(RingOf(p, es), 0, w);
    } else {
      var front, ev := es[..|es| - 1], es[|es| - 1];
      RingHoldsWindow(p, front);
      var e := Run(p, front);
      StepRecent(p, e, ev);
      RecoveryIsSample(p, e, ev);
      if ev.Sla? {
        RingPush(RingOf(p, front), HeadOf(p, front), |e.recent|, w, ev.sample);
        NoContents(RingOf(p, es), 0, w);
      } else {
        NoContents(RingOf(p, es), HeadOf(p, es), w);
      }
    }
  }

  lemma NoContents(ring: seq<Sample>, head: nat, w: nat)
    requires head < w <= |ring|
    ensures RingContents(ring, head, 0, w) == []
  {}

  /** The samples taken between the last recovery (or the start) and the last override to CLOSED after it. */
  ghost function TakenBefore(p: Params, es: seq<Event>): nat
    requires ParamsOk(p)
  {
    if es == [] || p.sla.None? then 0
    else
      var front, ev := es[..|es| - 1], es[|es| - 1];
      if RecoversOn(p, Run(p, front), ev) then 0
      else if ev.Override? && ev.to == Closed then TakenBefore(p, front) + |SamplesSince(p, front)|
      else TakenBefore(p, front)
  }

  lemma ModNext(n: nat, w: nat)
    requires w > 0
    ensures (n + 1) % w == Next(n % w, w)
  {
    var q, r := n / w, n % w;
    assert n == w * q + r;
    if r + 1 == w {
      assert n + 1 == w * (q + 1) + 0;
      ModUnique(n + 1, q + 1, 0, w);
    } else {
      assert n + 1 == w * q + (r + 1);
      ModUnique(n + 1, q, r + 1, w);
    }
  }

  lemma ModUnique(n: nat, q: nat, r: nat, w: nat)
    requires r < w && n == w * q + r
    ensures n % w == r
  {
    var q', r' := n / w, n % w;
    assert n == w * q' + r';
    if q' < q {
      Multiple(w, q, q');
    } else if q < q' {
      Multiple(w, q', q);
    }
  }

  lemma Multiple(w: nat, a: nat, b: nat)
    requires a > b
    ensures w * a >= w * b + w
  {
    assert w * a == w * b + w * (a - b);
    assert w * (a - b) == w + w * (a - b - 1);
  }

  /** The head counts every sample since the last recovery. */
  lemma {:induction false} HeadCounts(p: Params, es: seq<Event>)
    requires ParamsOk(p) && p.sla.Some?
    ensures HeadOf(p, es) == (TakenBefore(p, es) + |SamplesSince(p, es)|) % p.sla.value.window
  {
    hide Step, RecoversOn, Run;
    var w := p.sla.value.window;
    if es == [] {
      ModUnique(0, 0, 0, w);
    } else {
      var front := es[..|es| - 1];
      HeadCounts(p, front);
      ModNext(TakenBefore(p, front) + |SamplesSince(p, front)|, w);
      ModUnique(0, 0, 0, w);
      RecoveryIsSample(p, Run(p, front), es[|es| - 1]);
    }
  }

  lemma RecoveryIsSample(p: Params, e: Entry, ev: Event)
    requires ParamsOk(p)
    ensures RecoversOn(p, e, ev) ==> ev.Sla?
  {}

  /** Over any run: as far as the samples in the ring may be any, the reported mean is that of the window exactly
      when a full window has been taken since it was last emptied, or the samples taken between the last recovery
      and the last override to CLOSED are a multiple of the window. Then it is the mean of the run's own window. */
  lemma AverageIsOfWindow(p: Params, es: seq<Event>)
    requires ParamsOk(p) && p.sla.Some? && SamplesSince(p, es) != []
    ensures var w, n := p.sla.value.window, |Run(p, es).recent|;
      var exact := |SamplesSince(p, es)| >= w || TakenBefore(p, es) % w == 0;
      && HeadOf(p, es) < w && n == (if |SamplesSince(p, es)| < w then |SamplesSince(p, es)| else w)
      && ((forall ring: seq<Sample> :: |ring| == w ==> MeansAgree(ring, HeadOf(p, es), n, w)) <==> exact)
      && (exact ==> Mean(RingOf(p, es)[..n]) == Mean(Run(p, es).recent))
  {
    hide Run, HeadOf, RingOf, SamplesSince, TakenBefore, Mean;
    var w := p.sla.value.window;
    WindowIsLast(p, es);
    HeadCounts(p, es);
    var n := |Run(p, es).recent|;
    MeanIsOfWindow(HeadOf(p, es), n, w);
    if n < w { HeadAtCount(TakenBefore(p, es), n, w); }
    var ring := RingOf(p, es);
    RingHoldsWindow(p, es);
    assert ring[..w][..n] == ring[..n];
    assert RingContents(ring[..w], HeadOf(p, es), n, w) == RingContents(ring, HeadOf(p, es), n, w);
  }

  lemma HeadAtCount(before: nat, n: nat, w: nat)
    requires n < w
    ensures (before + n) % w == n <==> before % w == 0
  {
    var q, r := before / w, before % w;
    assert before == w * q + r;
    if r + n < w {
      ModUnique(before + n, q, r + n, w);
    } else {
      assert before + n == w * (q + 1) + (r + n - w);
      ModUnique(before + n, q + 1, r + n - w, w);
    }
  }

  lemma OneMoreEvent(p: Params, es: seq<Event>, ev: Event)
    requires ParamsOk(p)
    ensures Run(p, es + [ev]) == Step(p, Run(p, es), ev)
    ensures HeadOf(p, es + [ev]) == HeadAfter(p, Run(p, es), HeadOf(p, es), ev)
    ensures RingOf(p, es + [ev]) == RingAfter(p, RingOf(p, es), HeadOf(p, es), ev)
  {
    assert (es + [ev])[..|es|] == es;
  }

  /** A first sample in a window of two, where nothing is a violation. */
  lemma FirstOfTwo(p: Params, s: Sample, head: nat)
    requires ParamsOk(p) && p.sla == Some(SlaConfig(0, 0, 2, 1.0)) && head < 2
    ensures Step(p, FRESH, Sla(0, s)) == FRESH.(recent := [s], normal := 1)
    ensures HeadAfter(p, FRESH, head, Sla(0, s)) == 1 - head
  {
    assert LastOf([s], 2) == [s] && [] + [s] == [s];
  }

  lemma TtftSumOne(s: Sample)
    ensures TtftSum([s]) == s.ttft && Mean([s]) == s.ttft
  {
    assert [s][..0] == [];
  }

  /** A run in which the report is wrong: one sample, an override to CLOSED, another sample; a window of two. */
  lemma StaleAverage(p: Params)
    requires ParamsOk(p) && p.sla == Some(SlaConfig(0, 0, 2, 1.0))
    ensures var es := [Sla(0, Sample(10, 0)), Override(0, Closed), Sla(0, Sample(50, 0))];
      && Run(p, es).recent == [Sample(50, 0)] && Mean(Run(p, es).recent) == 50
      && Mean(RingOf(p, es)[..|Run(p, es).recent|]) == 10
  {
    hide Step, Run, RingOf, HeadOf, HeadAfter, Mean, TtftSum;
    var a, b := Sample(10, 0), Sample(50, 0);
    EmptyRun(p);
    OneMoreEvent(p, [], Sla(0, a));
    FirstOfTwo(p, a, 0);
    var one, two := [Sla(0, a)], [Sla(0, a), Override(0, Closed)];
    assert [] + [Sla(0, a)] == one && one + [Override(0, Closed)] == two;
    OneMoreEvent(p, one, Override(0, Closed));
    OverrideEmpties(p, Run(p, one), HeadOf(p, one));
    OneMoreEvent(p, two, Sla(0, b));
    FirstOfTwo(p, b, 1);
    assert two + [Sla(0, b)] == [Sla(0, a), Override(0, Closed), Sla(0, b)];
    TtftSumOne(a);
    TtftSumOne(b);
    assert RingOf(p, two + [Sla(0, b)])[..1] == [a];
  }

  lemma EmptyRun(p: Params)
    requires ParamsOk(p)
    ensures Run(p, []) == FRESH && HeadOf(p, []) == 0
  {}

  lemma OverrideEmpties(p: Params, e: Entry, head: nat)
    requires ParamsOk(p)
    ensures Step(p, e, Override(0, Closed)) == FRESH && HeadAfter(p, e, head, Override(0, Closed)) == head
  {}

  class BreakerEntry {
    const p: Params
    var state: State
    var consecutiveFailures: nat
    var openUntil: int
    var probeActive: bool
    const samples: array<Sample>
    var sampleCount: nat
    var sampleHead: nat
    var consecutiveNormal: nat

    ghost function Window(): nat {
      if p.sla.Some? then p.sla.value.window else 1
    }

    ghost predicate Valid()
      reads this
    {
      ParamsOk(p) && samples.Length == MAX_SLA_SAMPLES && sampleCount <= Window() && sampleHead < Window()
    }

    ghost function View(): Entry
      requires Valid()
      reads this, samples
    {
      Entry(state, consecutiveFailures, openUntil, probeActive,
            RingContents(samples[..], sampleHead, sampleCount, Window()), consecutiveNormal)
    }

    constructor (p: Params)
      requires ParamsOk(p)
      ensures Valid() && View() == FRESH && fresh(samples) && this.p == p
      ensures sampleHead == HeadOf(p, []) && samples[..] == RingOf(p, [])
    {
      this.p := p;
      state, consecutiveFailures, openUntil, probeActive := Closed, 0, 0, false;
      samples := new Sample[MAX_SLA_SAMPLES](_ => Sample(0, 0));
      sampleCount, sampleHead, consecutiveNormal := 0, 0, 0;
    }

    /** update_state_on_time_locked. */
    method UpdateOnTime(now: int)
      requires Valid()
      modifies this`state, this`probeActive
      ensures Valid() && View() == Advance(old(View()), now)
    {
      if state == Open && now >= openUntil {
        state := HalfOpen;
        probeActive := false;
      }
    }

    method AllowRequest(now: int) returns (allowed: bool)
      requires Valid()
      modifies this`state, this`probeActive
      ensures Valid() && View() == Step(p, old(View()), Allow(now))
      ensures allowed <==> Admits(old(View()), now)
    {
      UpdateOnTime(now);
      allowed := false;
      if state == Closed || state == SlaDegraded {
        allowed := true;
      } else if state == HalfOpen {
        if !probeActive {
          probeActive := true;
          allowed := true;
        }
      }
    }

    method RecordSuccess()
      requires Valid()
      modifies this`state, this`consecutiveFailures, this`openUntil, this`probeActive
      ensures Valid() && View() == Step(p, old(View()), Success)
    {
      if state == HalfOpen {
        state := Closed;
      }
      consecutiveFailures := 0;
      openUntil := 0;
      probeActive := false;
    }

    method RecordFailure(now: int, status: int)
      requires Valid()
      modifies this`state, this`consecutiveFailures, this`openUntil, this`probeActive
      ensures Valid() && View() == Step(p, old(View()), Failure(now, status))
    {
      if status > 0 && status != 429 && (status < 500 || status > 599) {
        return;
      }
      UpdateOnTime(now);
      if state == HalfOpen {
        state := Open;
        openUntil := now + p.cooloff;
        probeActive := false;
      } else if state == Closed || state == SlaDegraded {
        consecutiveFailures := consecutiveFailures + 1;
        if consecutiveFailures >= p.threshold {
          state := Open;
          openUntil := now + p.cooloff;
          probeActive := false;
        }
      }
    }

    /** Write into the ring. */
    method PushSample(s: Sample)
      requires Valid() && p.sla.Some?
      modifies this`sampleCount, this`sampleHead, samples
      ensures Valid() && View() == old(View()).(recent := Pushed(old(View()).recent, s, Window()))
      ensures sampleHead == Next(old(sampleHead), Window()) && samples[..] == old(samples[..])[old(sampleHead) := s]
    {
      RingPush(samples[..], sampleHead, sampleCount, Window(), s);
      var window := p.sla.value.window;
      NextIsMod(sampleHead, window);
      samples[sampleHead] := s;
      sampleHead := (sampleHead + 1) % window;
      if sampleCount < window {
        sampleCount := sampleCount + 1;
      }
    }

    /** The share of violations, counted over the first slots. */
    method ViolationShare() returns (share: real)
      requires Valid() && p.sla.Some? && sampleCount == Window()
      ensures share == Violations(p.sla.value, View().recent) as real / Window() as real
    {
      var violations := 0;
      for i := 0 to sampleCount
        invariant violations == Violations(p.sla.value, samples[..i])
      {
        assert samples[..i + 1][..i] == samples[..i];
        if Violates(p.sla.value, samples[i]) {
          violations := violations + 1;
        }
      }
      FullRingIsRotation(p.sla.value, samples[..], sampleHead, Window());
      assert samples[..][..sampleCount] == samples[..sampleCount];
      share := violations as real / sampleCount as real;
    }

    /** The state transition of cb_record_sla_sample. */
    method Judge()
      requires Valid() && p.sla.Some?
      modifies this`state, this`sampleCount, this`sampleHead, this`consecutiveNormal
      ensures Valid() && View() == Judged(p.sla.value, old(View()))
      ensures sampleHead == if old(state) == SlaDegraded && state == Closed then 0 else old(sampleHead)
    {
      hide Violations;
      var c := p.sla.value;
      if state == Closed {
        if sampleCount >= c.window {
          var ratio := ViolationShare();
          if ratio >= c.ratio - RATIO_EPSILON {
            state := SlaDegraded;
            consecutiveNormal := 0;
          }
        }
      } else if state == SlaDegraded {
        if consecutiveNormal >= RECOVER_NEED {
          state := Closed;
          sampleCount := 0;
          sampleHead := 0;
          consecutiveNormal := 0;
        }
      }
    }

    method RecordSlaSample(now: int, s: Sample)
      requires Valid()
      modifies this, samples
      ensures Valid() && View() == Step(p, old(View()), Sla(now, s))
      ensures sampleHead == HeadAfter(p, old(View()), old(sampleHead), Sla(now, s))
      ensures samples[..] == RingAfter(p, old(samples[..]), old(sampleHead), Sla(now, s))
    {
      hide Judged, Pushed, RingContents;
      if p.sla.None? {
        return;
      }
      UpdateOnTime(now);
      PushSample(s);
      if Violates(p.sla.value, s) {
        consecutiveNormal := 0;
      } else {
        consecutiveNormal := consecutiveNormal + 1;
      }
      Judge();
    }

    /** cb_get_state, and the state part of cb_get_sla_state. */
    method GetState(now: int) returns (st: State)
      requires Valid()
      modifies this`state, this`probeActive
      ensures Valid() && View() == Step(p, old(View()), Look(now)) && st == View().state
    {
      UpdateOnTime(now);
      return state;
    }

    method GetOpenUntil(now: int) returns (until: int)
      requires Valid()
      modifies this`state, this`probeActive
      ensures Valid() && View() == Step(p, old(View()), Look(now))
      ensures until == if View().state == Open then View().openUntil else 0
    {
      UpdateOnTime(now);
      return if state == Open then openUntil else 0;
    }

    method OverrideState(now: int, to: State)
      requires Valid()
      modifies this
      ensures Valid() && View() == Step(p, old(View()), Override(now, to)) && sampleHead == old(sampleHead)
    {
      state := to;
      if to == Closed {
        consecutiveFailures := 0;
        openUntil := 0;
        probeActive := false;
        sampleCount := 0;
        consecutiveNormal := 0;
      } else if to == Open {
        openUntil := now + p.cooloff;
        probeActive := false;
      } else if to == SlaDegraded {
        consecutiveNormal := 0;
      }
    }

    method SumOfTtft() returns (sum: nat)
      requires Valid()
      ensures sum == TtftSum(samples[..sampleCount])
    {
      sum := 0;
      for i := 0 to sampleCount
        invariant sum == TtftSum(samples[..i])
      {
        assert samples[..i + 1][..i] == samples[..i];
        sum := sum + samples[i].ttft;
      }
    }

    /** cb_get_sla_avg_ttft. */
    method GetSlaAvgTtft() returns (avg: nat)
      requires Valid()
      ensures avg == Mean(samples[..sampleCount]) && sampleCount == |View().recent|
    {
      hide TtftSum;
      if sampleCount == 0 {
        return 0;
      }
      var sum := SumOfTtft();
      avg := sum / sampleCount;
    }
  }
}
