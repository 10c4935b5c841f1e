/** The LRU map of src/common/lru.c as a value: the live entries, most recently used first, and the
    log of values handed to the eviction callback. */
module LruSpec {
  import opened Options
  import opened FiniteSets

  datatype Entry<V> = Entry(key: string, val: V)

  datatype State<V> = State(entries: seq<Entry<V>>, evicted: seq<V>)

  datatype Op<V> = Put(key: string, val: V) | Get(key: string) | Invalidate(key: string)

  ghost predicate DistinctKeys<V>(s: seq<Entry<V>>) {
    forall i, j :: 0 <= i < j < |s| ==> s[i].key != s[j].key
  }

  ghost function Keys<V>(s: seq<Entry<V>>): set<string> {
    set e | e in s :: e.key
  }

  /** The position of a key, or -1. */
  function IndexOf<V>(s: seq<Entry<V>>, key: string): (i: int)
    ensures -1 <= i < |s|
    ensures i >= 0 ==> s[i].key == key
    ensures i == -1 ==> forall j :: 0 <= j < |s| ==> s[j].key != key
  {
    if s == [] then -1
    else if s[0].key == key then 0
    else
      var i := IndexOf(s[1..], key);
      if i == -1 then -1 else i + 1
  }

  function Lookup<V>(s: seq<Entry<V>>, key: string): Option<V> {
    var i := IndexOf(s, key);
    if i == -1 then None else Some(s[i].val)
  }

  function Without<V>(s: seq<Entry<V>>, i: nat): seq<Entry<V>>
    requires i < |s|
  {
    s[..i] + s[i + 1..]
  }

  function Values<V>(s: seq<Entry<V>>): seq<V> {
    seq(|s|, i requires 0 <= i < |s| => s[i].val)
  }

  /** lru_get moves a hit to the front. */
  function AfterGet<V>(s: seq<Entry<V>>, key: string): seq<Entry<V>> {
    var i := IndexOf(s, key);
    if i == -1 then s else [s[i]] + Without(s, i)
  }

  /** lru_put replaces in place of an equal key, and drops the last entry of a full map. */
  function AfterPut<V>(s: seq<Entry<V>>, cap: nat, key: string, val: V): seq<Entry<V>> {
    var i := IndexOf(s, key);
    if i != -1 then [Entry(key, val)] + Without(s, i)
    else if |s| == cap && s != [] then [Entry(key, val)] + s[..|s| - 1]
    else [Entry(key, val)] + s
  }

  function DisplacedByPut<V>(s: seq<Entry<V>>, cap: nat, key: string): seq<V> {
    var i := IndexOf(s, key);
    if i != -1 then [s[i].val]
    else if |s| == cap && s != [] then [s[|s| - 1].val]
    else []
  }

  function AfterInvalidate<V>(s: seq<Entry<V>>, key: string): seq<Entry<V>> {
    var i := IndexOf(s, key);
    if i == -1 then s else Without(s, i)
  }

  function DisplacedByInvalidate<V>(s: seq<Entry<V>>, key: string): seq<V> {
    var i := IndexOf(s, key);
    if i == -1 then [] else [s[i].val]
  }

  function Step<V>(st: State<V>, cap: nat, op: Op<V>): State<V> {
    match op
    case Put(k, v) =>
      State(AfterPut(st.entries, cap, k, v), st.evicted + DisplacedByPut(st.entries, cap, k))
    case Get(k) => State(AfterGet(st.entries, k), st.evicted)
    case Invalidate(k) =>
      State(AfterInvalidate(st.entries, k), st.evicted + DisplacedByInvalidate(st.entries, k))
  }

  /** The state after a whole run from the empty map. */
  function Run<V>(cap: nat, ops: seq<Op<V>>): State<V> {
    if ops == [] then State([], []) else Step(Run(cap, ops[..|ops| - 1]), cap, ops[|ops| - 1])
  }

  // ---------- What every step keeps ----------

  ghost predicate Inv<V>(s: seq<Entry<V>>, cap: nat) {
    DistinctKeys(s) && |s| <= cap
  }

  lemma IndexOfUnique<V>(s: seq<Entry<V>>, i: nat)
    requires DistinctKeys(s) && i < |s|
    ensures IndexOf(s, s[i].key) == i
  {}

  lemma StepInv<V>(st: State<V>, cap: nat, op: Op<V>)
    requires Inv(st.entries, cap) && cap >= 1
    ensures Inv(Step(st, cap, op).entries, cap)
  {
    var s := st.entries;
    var i := IndexOf(s, op.key);
    hide IndexOf;
    if i != -1 {
      assert forall j :: 0 <= j < |s| && j != i ==> s[j].key != op.key;
    }
  }

  /** Every run keeps distinct keys and never exceeds the capacity. */
  lemma {:induction false} RunInv<V>(cap: nat, ops: seq<Op<V>>)
    requires cap >= 1
    ensures Inv(Run(cap, ops).entries, cap)
  {
    if ops != [] {
      RunInv(cap, ops[..|ops| - 1]);
      StepInv(Run(cap, ops[..|ops| - 1]), cap, ops[|ops| - 1]);
    }
  }

  // ---------- Conservation of values ----------

  ghost function ValuesPut<V>(ops: seq<Op<V>>): multiset<V> {
    if ops == [] then multiset{}
    else ValuesPut(ops[..|ops| - 1])
         + (match ops[|ops| - 1] case Put(_, v) => multiset{v} case _ => multiset{})
  }

  lemma ValuesConcat<V>(a: seq<Entry<V>>, b: seq<Entry<V>>)
    ensures Values(a + b) == Values(a) + Values(b)
  {}

  lemma ValuesWithout<V>(s: seq<Entry<V>>, i: nat)
    requires i < |s|
    ensures multiset(Values(s)) == multiset(Values(Without(s, i))) + multiset{s[i].val}
  {
    assert s == s[..i] + [s[i]] + s[i + 1..];
    ValuesConcat(s[..i] + [s[i]], s[i + 1..]);
    ValuesConcat(s[..i], [s[i]]);
    ValuesConcat(s[..i], s[i + 1..]);
    assert Values([s[i]]) == [s[i].val];
  }

  lemma ValuesCons<V>(e: Entry<V>, s: seq<Entry<V>>)
    ensures multiset(Values([e] + s)) == multiset(Values(s)) + multiset{e.val}
  {
    ValuesConcat([e], s);
    assert Values([e]) == [e.val];
  }

  lemma PutConserves<V>(s: seq<Entry<V>>, cap: nat, k: string, v: V)
    ensures multiset(Values(AfterPut(s, cap, k, v))) + multiset(DisplacedByPut(s, cap, k))
            == multiset(Values(s)) + multiset{v}
  {
    hide IndexOf, Values, Without;
    var i := IndexOf(s, k);
    if i != -1 {
      ValuesWithout(s, i);
      ValuesCons(Entry(k, v), Without(s, i));
    } else if |s| == cap && s != [] {
      ValuesWithout(s, |s| - 1);
      assert Without(s, |s| - 1) == s[..|s| - 1] by { WithoutLast(s); }
      ValuesCons(Entry(k, v), s[..|s| - 1]);
    } else {
      ValuesCons(Entry(k, v), s);
    }
  }

  lemma WithoutLast<V>(s: seq<Entry<V>>)
    requires s != []
    ensures Without(s, |s| - 1) == s[..|s| - 1]
  {}

  lemma GetConserves<V>(s: seq<Entry<V>>, k: string)
    ensures multiset(Values(AfterGet(s, k))) == multiset(Values(s))
    ensures multiset(Values(AfterInvalidate(s, k))) + multiset(DisplacedByInvalidate(s, k)) == multiset(Values(s))
  {
    hide IndexOf, Values, Without;
    var i := IndexOf(s, k);
    if i != -1 {
      ValuesWithout(s, i);
      ValuesCons(s[i], Without(s, i));
    }
  }

  lemma StepConserves<V>(st: State<V>, cap: nat, op: Op<V>)
    ensures var st' := Step(st, cap, op);
      multiset(Values(st'.entries)) + multiset(st'.evicted)
      == multiset(Values(st.entries)) + multiset(st.evicted)
         + (match op case Put(_, v) => multiset{v} case _ => multiset{})
  {
    hide AfterPut, AfterGet, AfterInvalidate, DisplacedByPut, DisplacedByInvalidate, Values;
    match op
    case Put(k, v) =>
      PutConserves(st.entries, cap, k, v);
      var live, out := multiset(Values(AfterPut(st.entries, cap, k, v))), multiset(DisplacedByPut(st.entries, cap, k));
      assert live + (multiset(st.evicted) + out) == live + out + multiset(st.evicted);
    case Get(k) => GetConserves(st.entries, k);
    case Invalidate(k) => GetConserves(st.entries, k);
  }

  /** Every value ever put is either live or was handed to the callback, exactly once. */
  lemma {:induction false} RunConserves<V>(cap: nat, ops: seq<Op<V>>)
    ensures var st := Run(cap, ops);
      ValuesPut(ops) == multiset(Values(st.entries)) + multiset(st.evicted)
  {
    if ops != [] {
      RunConserves(cap, ops[..|ops| - 1]);
      StepConserves(Run(cap, ops[..|ops| - 1]), cap, ops[|ops| - 1]);
    }
  }

  /** Freeing the map hands over the rest: in the end every value ever put was handed over once. */
  lemma FreeHandsOverTheRest<V>(cap: nat, ops: seq<Op<V>>)
    ensures var st := Run(cap, ops);
      multiset(st.evicted + Values(st.entries)) == ValuesPut(ops)
  {
    RunConserves(cap, ops);
  }

  // ---------- Hits are never stale ----------

  /** The value of the last put of a key that no invalidation followed. */
  ghost function LastPut<V>(ops: seq<Op<V>>, key: string): Option<V> {
    if ops == [] then None
    else
      match ops[|ops| - 1]
      case Put(k, v) => if k == key then Some(v) else LastPut(ops[..|ops| - 1], key)
      case Get(_) => LastPut(ops[..|ops| - 1], key)
      case Invalidate(k) => if k == key then None else LastPut(ops[..|ops| - 1], key)
  }

  lemma LookupIsMember<V>(s: seq<Entry<V>>, key: string)
    requires DistinctKeys(s)
    ensures Lookup(s, key).Some? ==> Entry(key, Lookup(s, key).value) in s
    ensures forall e :: e in s && e.key == key ==> Lookup(s, key) == Some(e.val)
  {}

  lemma WithoutMembers<V>(s: seq<Entry<V>>, i: nat)
    requires DistinctKeys(s) && i < |s|
    ensures forall e :: e in Without(s, i) <==> e in s && e.key != s[i].key
  {
    forall e | e in s && e.key != s[i].key ensures e in Without(s, i) {
      var j :| 0 <= j < |s| && s[j] == e;
      if j < i {
        assert Without(s, i)[j] == e;
      } else {
        assert Without(s, i)[j - 1] == e;
      }
    }
  }

  /** Which entries a step leaves: the written one, and the old ones of other keys but for the victim. */
  lemma StepMembers<V>(st: State<V>, cap: nat, op: Op<V>)
    requires Inv(st.entries, cap)
    ensures var s, s' := st.entries, Step(st, cap, op).entries;
      match op
      case Put(k, v) =>
        (forall e :: e in s' <==> e == Entry(k, v)
                                  || (e in s && e.key != k
                                      && !(IndexOf(s, k) == -1 && |s| == cap && e == s[|s| - 1])))
      case Get(_) => forall e :: e in s' <==> e in s
      case Invalidate(k) => forall e :: e in s' <==> e in s && e.key != k
  {
    var s := st.entries;
    var i := IndexOf(s, op.key);
    if i != -1 {
      WithoutMembers(s, i);
    } else if op.Put? && |s| == cap && s != [] {
      WithoutMembers(s, |s| - 1);
      assert Without(s, |s| - 1) == s[..|s| - 1];
      forall e | e in s && e != s[|s| - 1] ensures e.key != s[|s| - 1].key {}
    }
  }

  /** Every run: a hit returns the value of the last put of that key, never an older one and never
      one that was invalidated since. */
  lemma {:induction false} HitIsLastPut<V>(cap: nat, ops: seq<Op<V>>, key: string)
    requires cap >= 1
    ensures var v := Lookup(Run(cap, ops).entries, key);
      v.Some? ==> LastPut(ops, key) == v
  {
    if ops != [] {
      var before := ops[..|ops| - 1];
      var st := Run(cap, before);
      var op := ops[|ops| - 1];
      HitIsLastPut(cap, before, key);
      RunInv(cap, before);
      RunInv(cap, ops);
      StepMembers(st, cap, op);
      LookupIsMember(st.entries, key);
      LookupIsMember(Step(st, cap, op).entries, key);
    }
  }

  // ---------- Recency ----------

  /** The index of the last put or get of a key; -1 if there is none. */
  ghost function LastTouch<V>(ops: seq<Op<V>>, key: string): int {
    if ops == [] then -1
    else if !ops[|ops| - 1].Invalidate? && ops[|ops| - 1].key == key then |ops| - 1
    else LastTouch(ops[..|ops| - 1], key)
  }

  ghost predicate SortedByTouch<V>(s: seq<Entry<V>>, ops: seq<Op<V>>) {
    forall i, j :: 0 <= i < j < |s| ==> LastTouch(ops, s[i].key) > LastTouch(ops, s[j].key)
  }

  lemma {:induction false} LastTouchBound<V>(ops: seq<Op<V>>, key: string)
    ensures LastTouch(ops, key) < |ops|
  {
    if ops != [] {
      LastTouchBound(ops[..|ops| - 1], key);
    }
  }

  lemma LastTouchStep<V>(ops: seq<Op<V>>, key: string)
    requires ops != []
    ensures var op := ops[|ops| - 1];
      LastTouch(ops, key) == if !op.Invalidate? && op.key == key then |ops| - 1
                             else LastTouch(ops[..|ops| - 1], key)
  {}

  /** Does the step put the touched key at the front? */
  ghost predicate Fronts<V>(s: seq<Entry<V>>, op: Op<V>) {
    op.Put? || (op.Get? && IndexOf(s, op.key) != -1)
  }

  /** Where an entry the step did not touch came from. */
  ghost function Origin<V>(s: seq<Entry<V>>, op: Op<V>, m: int): int {
    var k := IndexOf(s, op.key);
    var n := if Fronts(s, op) then m - 1 else m;
    if k != -1 && n >= k then n + 1 else n
  }

  lemma OriginOf<V>(st: State<V>, cap: nat, op: Op<V>, m: nat)
    requires Inv(st.entries, cap) && cap >= 1 && m < |Step(st, cap, op).entries|
    requires Fronts(st.entries, op) ==> m >= 1
    ensures var s := st.entries; var o := Origin(s, op, m);
      0 <= o < |s| && Step(st, cap, op).entries[m] == s[o] && s[o].key != op.key
  {
    hide IndexOf;
  }

  lemma FrontIsTouched<V>(st: State<V>, cap: nat, op: Op<V>)
    requires Fronts(st.entries, op)
    ensures Step(st, cap, op).entries != [] && Step(st, cap, op).entries[0].key == op.key
  {}

  /** Every run: the entries are in order of their last use. The entry a full map drops, its last
      one, is therefore the least recently used. */
  lemma {:induction false} RunIsSortedByTouch<V>(cap: nat, ops: seq<Op<V>>)
    requires cap >= 1
    ensures SortedByTouch(Run(cap, ops).entries, ops)
  {
    hide Step, IndexOf, LastTouch;
    if ops != [] {
      var before, op := ops[..|ops| - 1], ops[|ops| - 1];
      var st := Run(cap, before);
      var s' := Run(cap, ops).entries;
      RunIsSortedByTouch(cap, before);
      RunInv(cap, before);
      forall i, j | 0 <= i < j < |s'| ensures LastTouch(ops, s'[i].key) > LastTouch(ops, s'[j].key) {
        LastTouchStep(ops, s'[i].key);
        LastTouchStep(ops, s'[j].key);
        OriginOf(st, cap, op, j);
        LastTouchBound(before, s'[j].key);
        if i == 0 && Fronts(st.entries, op) {
          FrontIsTouched(st, cap, op);
        } else {
          OriginOf(st, cap, op, i);
        }
      }
    }
  }

  // ---------- Retention ----------

  /** The other keys used since the last use of key, as long as they are fewer than cap. None if key
      was never put, was invalidated since its last put, or went unused while cap others were used. */
  ghost function Window<V>(cap: nat, ops: seq<Op<V>>, key: string): Option<set<string>> {
    if ops == [] then None
    else
      var rest := Window(cap, ops[..|ops| - 1], key);
      var op := ops[|ops| - 1];
      if op.key == key then
        (match op
         case Put(_, _) => Some({})
         case Get(_) => if rest.Some? then Some({}) else None
         case Invalidate(_) => None)
      else if rest.None? || op.Invalidate? then rest
      else if |rest.value + {op.key}| < cap then Some(rest.value + {op.key})
      else None
  }

  ghost function KeysBefore<V>(s: seq<Entry<V>>, i: nat): set<string>
    requires i <= |s|
  {
    set j | 0 <= j < i :: s[j].key
  }

  lemma {:induction false} KeysBeforeSize<V>(s: seq<Entry<V>>, i: nat)
    requires DistinctKeys(s) && i <= |s|
    ensures |KeysBefore(s, i)| == i
  {
    if i > 0 {
      KeysBeforeSize(s, i - 1);
      assert s[i - 1].key !in KeysBefore(s, i - 1);
      assert KeysBefore(s, i) == KeysBefore(s, i - 1) + {s[i - 1].key};
    }
  }

  lemma TouchedIsFirst<V>(cap: nat, st: State<V>, op: Op<V>)
    requires Fronts(st.entries, op)
    ensures IndexOf(Step(st, cap, op).entries, op.key) == 0
    ensures KeysBefore(Step(st, cap, op).entries, 0) == {}
  {
    FrontIsTouched(st, cap, op);
  }

  /** No premature eviction: a key stays live until cap other keys have been used since its last use. */
  lemma {:induction false} RecentlyUsedIsLive<V>(cap: nat, ops: seq<Op<V>>, key: string)
    requires cap >= 1 && Window(cap, ops, key).Some?
    ensures var s := Run(cap, ops).entries; var i := IndexOf(s, key);
      i != -1 && KeysBefore(s, i) <= Window(cap, ops, key).value
  {
    hide Step, Inv, KeysBefore;
    var before, op := ops[..|ops| - 1], ops[|ops| - 1];
    var st := Run(cap, before);
    RunInv(cap, before);
    if Window(cap, before, key).Some? {
      RecentlyUsedIsLive(cap, before, key);
    }
    if op.key == key {
      TouchedIsFirst(cap, st, op);
    } else {
      StillLive(st, cap, op, key, Window(cap, before, key).value, Window(cap, ops, key).value);
    }
  }

  /** The victim of a full map is not the key itself while fewer than cap keys are in play. */
  lemma NotTheVictim<V>(s: seq<Entry<V>>, cap: nat, other: string, key: string, others: set<string>)
    requires DistinctKeys(s) && |s| == cap && IndexOf(s, other) == -1 && IndexOf(s, key) != -1
    requires KeysBefore(s, IndexOf(s, key)) + {other} <= others && |others| < cap
    ensures IndexOf(s, key) < |s| - 1
  {
    var i := IndexOf(s, key);
    KeysBeforeSize(s, i);
    assert other !in KeysBefore(s, i);
    SubsetSize(KeysBefore(s, i) + {other}, others);
  }

  lemma StillLive<V>(st: State<V>, cap: nat, op: Op<V>, key: string, others: set<string>, others': set<string>)
    requires Inv(st.entries, cap) && cap >= 1 && op.key != key
    requires IndexOf(st.entries, key) != -1
    requires KeysBefore(st.entries, IndexOf(st.entries, key)) <= others
    requires others' == if op.Invalidate? then others else others + {op.key}
    requires op.Put? ==> |others'| < cap
    ensures var s' := Step(st, cap, op).entries; var i := IndexOf(s', key);
      i != -1 && KeysBefore(s', i) <= others'
  {
    var s, s' := st.entries, Step(st, cap, op).entries;
    if op.Put? && IndexOf(s, op.key) == -1 && |s| == cap {
      NotTheVictim(s, cap, op.key, key, others');
    }
    StepInv(st, cap, op);
    StepMembers(st, cap, op);
    assert s[IndexOf(s, key)] in s';
    forall m | 0 <= m < IndexOf(s', key) ensures s'[m].key in others' {
      if m == 0 && Fronts(s, op) {
        FrontIsTouched(st, cap, op);
      } else {
        BeforeStaysBefore(st, cap, op, key, m);
      }
    }
  }

  lemma BeforeStaysBefore<V>(st: State<V>, cap: nat, op: Op<V>, key: string, m: nat)
    requires Inv(st.entries, cap) && cap >= 1 && op.key != key
    requires m < IndexOf(Step(st, cap, op).entries, key)
    requires Fronts(st.entries, op) ==> m >= 1
    ensures var s := st.entries;
      IndexOf(s, key) != -1 && Step(st, cap, op).entries[m].key in KeysBefore(s, IndexOf(s, key))
  {
    var s := st.entries;
    var i' := IndexOf(Step(st, cap, op).entries, key);
    OriginOf(st, cap, op, m);
    OriginOf(st, cap, op, i');
    IndexOfUnique(s, Origin(s, op, i'));
    assert 0 <= Origin(s, op, m) < Origin(s, op, i');
  }
}
