/** Monthly budgets (src/policy/budget_enforce.c:19-288, 335-362): two hash tables of running totals behind a
    protocol that checks before a request and records after it. Costs are reals; the hash is any function. */
module Budget {
  import opened Options
  import opened Soundness

  const BUCKET_COUNT := 1024

  // ---------- A chained table of totals ----------

  /** A node is put in front of its chain once; afterwards only its value changes. */
  class SpendNode<V> {
    const id: int
    var value: V
    const next: SpendNode?<V>
    /** The nodes after this one. */
    ghost const rest: seq<SpendNode<V>>

    constructor (id: int, value: V, next: SpendNode?<V>)
      ensures this.id == id && this.value == value && this.next == next
      ensures rest == ChainOf(next)
    {
      this.id, this.value, this.next := id, value, next;
      rest := ChainOf(next);
    }
  }

  ghost function ChainOf<V>(head: SpendNode?<V>): seq<SpendNode<V>> {
    if head == null then [] else [head] + head.rest
  }

  ghost predicate Linked<V>(chain: seq<SpendNode<V>>) {
    forall j :: 0 <= j < |chain| ==> ChainOf(chain[j].next) == chain[j].rest == chain[j + 1..]
  }

  lemma LinkInFront<V>(n: SpendNode<V>)
    requires Linked(ChainOf(n.next)) && n.rest == ChainOf(n.next)
    ensures Linked(ChainOf(n)) && ChainOf(n) == [n] + ChainOf(n.next)
  {
    var tail, chain := ChainOf(n.next), ChainOf(n);
    forall j | 0 <= j < |chain| ensures ChainOf(chain[j].next) == chain[j].rest == chain[j + 1..] {
      if j > 0 { assert chain[j] == tail[j - 1] && chain[j + 1..] == tail[j..]; }
    }
  }

  /** A chain holds the nodes of their ids. */
  ghost predicate ChainOk<V>(head: SpendNode?<V>, nodeOf: map<int, SpendNode<V>>) {
    Linked(ChainOf(head)) && forall n :: n in ChainOf(head) ==> n.id in nodeOf && nodeOf[n.id] == n
  }

  /** The node of an id is its own, in the chain its hash names. */
  ghost predicate Homed<V>(heads: seq<SpendNode?<V>>, nodeOf: map<int, SpendNode<V>>, hash: int -> nat, id: int) {
    && |heads| == BUCKET_COUNT && id in nodeOf
    && nodeOf[id].id == id && nodeOf[id] in ChainOf(heads[hash(id) % BUCKET_COUNT])
  }

  ghost predicate TableOk<V>(heads: seq<SpendNode?<V>>, nodeOf: map<int, SpendNode<V>>, hash: int -> nat) {
    && |heads| == BUCKET_COUNT
    && (forall b :: 0 <= b < BUCKET_COUNT ==> ChainOk(heads[b], nodeOf))
    && (forall id :: id in nodeOf ==> Homed(heads, nodeOf, hash, id))
  }

  lemma ChainOkGrows<V>(head: SpendNode?<V>, nodeOf: map<int, SpendNode<V>>, n: SpendNode<V>)
    requires ChainOk(head, nodeOf) && n.id !in nodeOf
    ensures ChainOk(head, nodeOf[n.id := n])
    ensures n.rest == ChainOf(n.next) && n.next == head ==> ChainOk(n, nodeOf[n.id := n])
  {
    hide Linked;
    if n.rest == ChainOf(n.next) && n.next == head { LinkInFront(n); }
  }

  /** A new node in front of its chain keeps the table in order. */
  lemma InsertOk<V>(heads: seq<SpendNode?<V>>, nodeOf: map<int, SpendNode<V>>, hash: int -> nat, n: SpendNode<V>)
    requires TableOk(heads, nodeOf, hash) && n.id !in nodeOf
    requires n.next == heads[hash(n.id) % BUCKET_COUNT] && n.rest == ChainOf(n.next)
    ensures TableOk(heads[hash(n.id) % BUCKET_COUNT := n], nodeOf[n.id := n], hash)
  {
    hide ChainOk;
    var h := hash(n.id) % BUCKET_COUNT;
    var heads', nodeOf' := heads[h := n], nodeOf[n.id := n];
    forall b | 0 <= b < BUCKET_COUNT ensures ChainOk(heads'[b], nodeOf') {
      ChainOkGrows(heads[b], nodeOf, n);
    }
    forall id | id in nodeOf' ensures Homed(heads', nodeOf', hash, id) {
      assert id != n.id ==> Homed(heads, nodeOf, hash, id);
    }
  }

  class SpendTable<V> {
    const hash: int -> nat
    const buckets: array<SpendNode?<V>>
    /** The node of every id that has one. */
    ghost var nodeOf: map<int, SpendNode<V>>

    ghost function Shape(): Integrity
      reads this, buckets
    {
      if TableOk(buckets[..], nodeOf, hash) then Sound else Broken
    }

    ghost predicate Valid()
      reads this, buckets
    {
      Shape() == Sound
    }

    ghost function Totals(): map<int, V>
      reads this, nodeOf.Values
    {
      map id | id in nodeOf :: nodeOf[id].value
    }

    constructor (hash: int -> nat)
      ensures Valid() && Totals() == map[] && fresh(buckets) && nodeOf == map[]
    {
      this.hash := hash;
      buckets := new SpendNode?<V>[BUCKET_COUNT](_ => null);
      nodeOf := map[];
    }

    lemma ChainOfHash(id: int)
      requires Valid()
      ensures buckets.Length == BUCKET_COUNT
      ensures var chain := ChainOf(buckets[hash(id) % BUCKET_COUNT]);
        && Linked(chain) && (forall n :: n in chain ==> n.id in nodeOf && nodeOf[n.id] == n)
        && (id in nodeOf ==> nodeOf[id] in chain && nodeOf[id].id == id)
    {
      hide Linked;
      var h := hash(id) % BUCKET_COUNT;
      assert buckets[..][h] == buckets[h] && ChainOk(buckets[..][h], nodeOf);
      assert id in nodeOf ==> Homed(buckets[..], nodeOf, hash, id);
    }

    /** The walk along a chain. */
    method Find(id: int) returns (n: SpendNode?<V>)
      requires Valid()
      ensures n == null <==> id !in nodeOf
      ensures n != null ==> id in nodeOf && n == nodeOf[id]
    {
      hide Shape;
      ChainOfHash(id);
      var curr := buckets[hash(id) % BUCKET_COUNT];
      ghost var k := 0;
      ghost var chain := ChainOf(curr);
      while curr != null && curr.id != id
        invariant k <= |chain| && ChainOf(curr) == chain[k..]
        invariant forall j :: 0 <= j < k ==> chain[j].id != id
        decreases |chain| - k
      {
        assert curr == chain[k];
        curr := curr.next;
        k := k + 1;
      }
      if curr != null {
        assert curr == chain[k];
      }
      return curr;
    }

    /** Put a node for a new id at the head of its chain. */
    method Insert(id: int, value: V)
      requires Valid() && id !in nodeOf
      modifies this, buckets
      ensures Valid() && id in nodeOf && nodeOf == old(nodeOf)[id := nodeOf[id]]
      ensures fresh(nodeOf[id]) && nodeOf[id].value == value
      ensures |buckets[..]| == BUCKET_COUNT && buckets[hash(id) % BUCKET_COUNT] == nodeOf[id]
    {
      hide TableOk;
      TableSize();
      var h := hash(id) % BUCKET_COUNT;
      var n := new SpendNode(id, value, buckets[h]);
      InsertOk(buckets[..], nodeOf, hash, n);
      ghost var heads := buckets[..];
      buckets[h] := n;
      nodeOf := nodeOf[id := n];
      assert buckets[..] == heads[h := n];
    }

    lemma TableSize()
      requires Valid()
      ensures buckets.Length == BUCKET_COUNT
    {}

    /** clear_buckets. */
    method Clear()
      requires Valid()
      modifies this, buckets
      ensures Valid() && nodeOf == map[]
    {
      for i := 0 to BUCKET_COUNT
        invariant forall b :: 0 <= b < i ==> buckets[b] == null
      {
        buckets[i] := null;
      }
      nodeOf := map[];
    }

    /** Find the node of an id, or put one with the given value. */
    method FindOrInsert(id: int, zero: V) returns (n: SpendNode<V>)
      requires Valid()
      modifies this, buckets
      ensures Valid() && id in nodeOf && n == nodeOf[id]
      ensures id in old(nodeOf) ==> nodeOf == old(nodeOf)
      ensures id !in old(nodeOf) ==> fresh(n) && n.value == zero && nodeOf == old(nodeOf)[id := n]
    {
      var curr := Find(id);
      if curr == null {
        Insert(id, zero);
        curr := buckets[hash(id) % BUCKET_COUNT];
      }
      return curr;
    }

    ghost function Repr(): set<object>
      reads this
    {
      {this, buckets} + nodeOf.Values
    }

    lemma NodesOfTheirOwn()
      requires Valid()
      ensures forall id :: id in nodeOf ==> nodeOf[id].id == id
    {}

    /** Change the value of an id, which is zero if there is no node. */
    method Apply(id: int, zero: V, change: V -> V)
      requires Valid()
      modifies Repr()
      ensures Valid() && fresh(Repr() - old(Repr()))
      ensures Totals() == old(Totals())[id := change(if id in old(Totals()) then old(Totals())[id] else zero)]
    {
      hide Shape;
      var curr := FindOrInsert(id, zero);
      NodesOfTheirOwn();
      ghost var before := Totals();
      assert before == old(Totals())[id := curr.value];
      assert forall k :: k in nodeOf && k != id ==> nodeOf[k] != curr;
      curr.value := change(curr.value);
      assert Totals() == before[id := curr.value];
    }
  }

  // ---------- Budgets as values ----------

  datatype KeyTotals = KeyTotals(cost: real, tokens: int)
  datatype GroupTotals = GroupTotals(cost: real, budget: real, quota: int)

  const NO_KEY := KeyTotals(0.0, 0)
  const NO_GROUP := GroupTotals(0.0, 0.0, 0)

  /** ym is the month (YYYYMM) that the totals are of. */
  datatype State = State(keys: map<int, KeyTotals>, groups: map<int, GroupTotals>, ym: int)

  function KeyOf(st: State, id: int): KeyTotals {
    if id in st.keys then st.keys[id] else NO_KEY
  }

  function GroupOf(st: State, id: int): GroupTotals {
    if id in st.groups then st.groups[id] else NO_GROUP
  }

  /** The first check or record of another month drops everything. */
  function Rolled(st: State, ym: int): State {
    if ym != st.ym then State(map[], map[], ym) else st
  }

  /** The budgets that a request is checked against; 0 is none. */
  datatype Limits = Limits(keyCost: real, keyTokens: int, groupCost: real)

  predicate KeyWithin(st: State, id: int, l: Limits) {
    id <= 0 || ((l.keyCost > 0.0 ==> KeyOf(st, id).cost < l.keyCost)
                && (l.keyTokens > 0 ==> KeyOf(st, id).tokens < l.keyTokens))
  }

  function GroupLimit(st: State, id: int, l: Limits): real {
    if l.groupCost > 0.0 then l.groupCost else GroupOf(st, id).budget
  }

  predicate GroupWithin(st: State, id: int, l: Limits) {
    id <= 0 || (GroupLimit(st, id, l) > 0.0 ==> GroupOf(st, id).cost < GroupLimit(st, id, l))
  }

  function PlusKey(keys: map<int, KeyTotals>, id: int, cost: real, tokens: int): map<int, KeyTotals> {
    var k := if id in keys then keys[id] else NO_KEY;
    if id > 0 then keys[id := KeyTotals(k.cost + cost, k.tokens + tokens)] else keys
  }

  function PlusGroup(groups: map<int, GroupTotals>, id: int, cost: real): map<int, GroupTotals> {
    var g := if id in groups then groups[id] else NO_GROUP;
    if id > 0 then groups[id := g.(cost := g.cost + cost)] else groups
  }

  function Recorded(st: State, key: int, group: int, cost: real, tokens: int): State {
    st.(keys := PlusKey(st.keys, key, cost, tokens), groups := PlusGroup(st.groups, group, cost))
  }

  // ---------- The manager ----------

  class BudgetEnforceMgr {
    const keyTable: SpendTable<KeyTotals>
    const groupTable: SpendTable<GroupTotals>
    var currentYm: int

    ghost function Repr(): set<object>
      reads this, keyTable, groupTable
    {
      {this} + keyTable.Repr() + groupTable.Repr()
    }

    ghost predicate Valid()
      reads Repr()
    {
      && keyTable.Valid() && groupTable.Valid()
      && keyTable.Repr() !! groupTable.Repr() && this !in keyTable.Repr() + groupTable.Repr()
    }

    ghost function View(): State
      reads Repr()
    {
      State(keyTable.Totals(), groupTable.Totals(), currentYm)
    }

    constructor (hash: int -> nat, ym: int)
      ensures Valid() && View() == State(map[], map[], ym) && fresh(Repr())
    {
      keyTable := new SpendTable(hash);
      groupTable := new SpendTable(hash);
      currentYm := ym;
    }

    method Rollover(ym: int)
      requires Valid()
      modifies this, keyTable, keyTable.buckets, groupTable, groupTable.buckets
      ensures Valid() && View() == Rolled(old(View()), ym)
      ensures keyTable.nodeOf.Values <= old(keyTable.nodeOf.Values)
      ensures groupTable.nodeOf.Values <= old(groupTable.nodeOf.Values)
    {
      if ym != currentYm {
        keyTable.Clear();
        groupTable.Clear();
        currentYm := ym;
      }
    }

    /** budget_enforce_reset: also when the month is still the same. */
    method Reset(ym: int)
      requires Valid()
      modifies this, keyTable, keyTable.buckets, groupTable, groupTable.buckets
      ensures Valid() && View() == State(map[], map[], ym)
    {
      keyTable.Clear();
      groupTable.Clear();
      currentYm := ym;
    }

    /** Step 1 of budget_enforce_check. */
    method CheckKey(key: int, l: Limits) returns (ok: bool)
      requires Valid()
      ensures ok <==> KeyWithin(View(), key, l)
    {
      if key > 0 && (l.keyCost > 0.0 || l.keyTokens > 0) {
        var curr := keyTable.Find(key);
        if curr != null {
          if l.keyCost > 0.0 && curr.value.cost >= l.keyCost {
            return false;
          }
          if l.keyTokens > 0 && curr.value.tokens >= l.keyTokens {
            return false;
          }
        }
      }
      return true;
    }

    /** Step 2 of budget_enforce_check. */
    method CheckGroup(group: int, l: Limits) returns (ok: bool)
      requires Valid()
      ensures ok <==> GroupWithin(View(), group, l)
    {
      if group > 0 {
        var curr := groupTable.Find(group);
        if curr != null {
          var effective := if l.groupCost > 0.0 then l.groupCost else curr.value.budget;
          if effective > 0.0 && curr.value.cost >= effective {
            return false;
          }
        }
      }
      return true;
    }

    /** budget_enforce_check; false is -1. */
    method Check(ym: int, key: int, group: int, l: Limits) returns (ok: bool)
      requires Valid()
      modifies this, keyTable, keyTable.buckets, groupTable, groupTable.buckets
      ensures Valid() && View() == Rolled(old(View()), ym)
      ensures ok <==> KeyWithin(View(), key, l) && GroupWithin(View(), group, l)
    {
      hide SpendTable.Shape, KeyWithin, GroupWithin, Rolled;
      Rollover(ym);
      ok := CheckKey(key, l);
      if ok {
        ok := CheckGroup(group, l);
      }
    }

    method AddToKey(key: int, cost: real, tokens: int)
      requires Valid()
      modifies keyTable.Repr()
      ensures Valid() && fresh(keyTable.Repr() - old(keyTable.Repr()))
      ensures keyTable.Totals() == PlusKey(old(keyTable.Totals()), key, cost, tokens)
      ensures groupTable.Totals() == old(groupTable.Totals()) && groupTable.Repr() == old(groupTable.Repr())
      ensures currentYm == old(currentYm)
    {
      hide SpendTable.Shape;
      if key > 0 {
        keyTable.Apply(key, NO_KEY, (k: KeyTotals) => KeyTotals(k.cost + cost, k.tokens + tokens));
      }
    }

    method AddToGroup(group: int, cost: real)
      requires Valid()
      modifies groupTable.Repr()
      ensures Valid() && groupTable.Totals() == PlusGroup(old(groupTable.Totals()), group, cost)
      ensures keyTable.Totals() == old(keyTable.Totals()) && currentYm == old(currentYm)
    {
      hide SpendTable.Shape;
      if group > 0 {
        groupTable.Apply(group, NO_GROUP, (g: GroupTotals) => g.(cost := g.cost + cost));
      }
    }

    /** budget_enforce_record. */
    method Record(ym: int, key: int, group: int, cost: real, tokens: int)
      requires Valid()
      modifies Repr()
      ensures Valid() && View() == Recorded(Rolled(old(View()), ym), key, group, cost, tokens)
    {
      hide SpendTable.Shape, SpendTable.Totals, PlusKey, PlusGroup, Rolled;
      Rollover(ym);
      AddToKey(key, cost, tokens);
      AddToGroup(group, cost);
    }

    method GetKeyUsage(key: int) returns (usage: Option<KeyTotals>)
      requires Valid()
      ensures usage == if key <= 0 then None else Some(KeyOf(View(), key))
    {
      if key <= 0 {
        return None;
      }
      var curr := keyTable.Find(key);
      return Some(if curr != null then curr.value else NO_KEY);
    }

    method GetGroupUsage(group: int) returns (usage: Option<real>)
      requires Valid()
      ensures usage == if group <= 0 then None else Some(GroupOf(View(), group).cost)
    {
      if group <= 0 {
        return None;
      }
      var curr := groupTable.Find(group);
      return Some(if curr != null then curr.value.cost else 0.0);
    }

    method SetGroupBudget(group: int, budget: real)
      requires Valid()
      modifies Repr()
      ensures Valid() && View() == WithBudget(old(View()), group, budget)
    {
      if group <= 0 {
        return;
      }
      groupTable.Apply(group, NO_GROUP, (g: GroupTotals) => g.(budget := budget));
    }
  }

  function WithBudget(st: State, group: int, budget: real): State {
    if group <= 0 then st else st.(groups := st.groups[group := GroupOf(st, group).(budget := budget)])
  }

  // ---------- Check, then record ----------

  /** A request is checked; a request that was admitted records its cost; a group's budget is set; everything is
      reset. Any number of requests can be between a check and its record. */
  datatype Event =
    | Begin(ym: int, key: int, group: int, limits: Limits)
    | Finish(ym: int, key: int, group: int, cost: real, tokens: int)
    | SetBudget(group: int, budget: real)
    | Reset(ym: int)

  /** flying: the requests admitted and not yet recorded, by key and by group. */
  datatype World = World(st: State, keys: map<int, nat>, groups: map<int, nat>)

  function Flying(m: map<int, nat>, id: int): nat {
    if id in m then m[id] else 0
  }

  predicate Admitted(w: World, ev: Event)
    requires ev.Begin?
  {
    var st := Rolled(w.st, ev.ym);
    KeyWithin(st, ev.key, ev.limits) && GroupWithin(st, ev.group, ev.limits)
  }

  function Next(w: World, ev: Event): World {
    match ev
    case Begin(ym, key, group, limits) =>
      var st := Rolled(w.st, ym);
      if Admitted(w, ev)
      then World(st, w.keys[key := Flying(w.keys, key) + 1], w.groups[group := Flying(w.groups, group) + 1])
      else w.(st := st)
    case Finish(ym, key, group, cost, tokens) =>
      World(Recorded(Rolled(w.st, ym), key, group, cost, tokens),
            w.keys[key := if Flying(w.keys, key) > 0 then Flying(w.keys, key) - 1 else 0],
            w.groups[group := if Flying(w.groups, group) > 0 then Flying(w.groups, group) - 1 else 0])
    case SetBudget(group, budget) => w.(st := WithBudget(w.st, group, budget))
    case Reset(ym) => w.(st := State(map[], map[], ym))
  }

  function After(w: World, evs: seq<Event>): World {
    if evs == [] then w else Next(After(w, evs[..|evs| - 1]), evs[|evs| - 1])
  }

  function Start(ym: int): World {
    World(State(map[], map[], ym), map[], map[])
  }

  // ---------- The totals are sums of what was recorded ----------

  function KeyCosts(evs: seq<Event>, key: int): real {
    if evs == [] then 0.0
    else
      var ev := evs[|evs| - 1];
      KeyCosts(evs[..|evs| - 1], key) + if ev.Finish? && ev.key == key then ev.cost else 0.0
  }

  function KeyTokens(evs: seq<Event>, key: int): int {
    if evs == [] then 0
    else
      var ev := evs[|evs| - 1];
      KeyTokens(evs[..|evs| - 1], key) + if ev.Finish? && ev.key == key then ev.tokens else 0
  }

  function GroupCosts(evs: seq<Event>, group: int): real {
    if evs == [] then 0.0
    else
      var ev := evs[|evs| - 1];
      GroupCosts(evs[..|evs| - 1], group) + if ev.Finish? && ev.group == group then ev.cost else 0.0
  }

  /** The budget that was set for the group last, or none. */
  function LastSet(evs: seq<Event>, group: int): real {
    if evs == [] then 0.0
    else
      var ev := evs[|evs| - 1];
      if ev.SetBudget? && ev.group == group then ev.budget else LastSet(evs[..|evs| - 1], group)
  }

  /** The month of the last event that has one. */
  function MonthAt(ym: int, evs: seq<Event>): int {
    if evs == [] then ym
    else if evs[|evs| - 1].SetBudget? then MonthAt(ym, evs[..|evs| - 1])
    else evs[|evs| - 1].ym
  }

  /** The events that still count: those after the last reset and, from it on, the last event of a new month. */
  function Since(ym: int, evs: seq<Event>): seq<Event> {
    if evs == [] then []
    else
      var front, ev := evs[..|evs| - 1], evs[|evs| - 1];
      if ev.Reset? then []
      else if ev.SetBudget? || ev.ym == MonthAt(ym, front) then Since(ym, front) + [ev]
      else [ev]
  }

  lemma SumsNext(evs: seq<Event>, ev: Event, id: int)
    ensures KeyCosts(evs + [ev], id) == KeyCosts(evs, id) + if ev.Finish? && ev.key == id then ev.cost else 0.0
    ensures KeyTokens(evs + [ev], id) == KeyTokens(evs, id) + if ev.Finish? && ev.key == id then ev.tokens else 0
    ensures GroupCosts(evs + [ev], id) == GroupCosts(evs, id) + if ev.Finish? && ev.group == id then ev.cost else 0.0
    ensures LastSet(evs + [ev], id) == if ev.SetBudget? && ev.group == id then ev.budget else LastSet(evs, id)
    ensures KeyCosts([], id) == 0.0 && KeyTokens([], id) == 0 && GroupCosts([], id) == 0.0 && LastSet([], id) == 0.0
  {
    assert (evs + [ev])[..|evs|] == evs;
  }

  /** What one event does to the totals of a key and a group. */
  lemma TotalsNext(w: World, ev: Event, id: int)
    requires id > 0
    ensures var st := if ev.Begin? || ev.Finish? then Rolled(w.st, ev.ym) else w.st; var st' := Next(w, ev).st;
      && (ev.Reset? ==> KeyOf(st', id) == NO_KEY && GroupOf(st', id) == NO_GROUP && st'.ym == ev.ym)
      && (!ev.Reset? ==>
            && st'.ym == st.ym
            && KeyOf(st', id).cost == KeyOf(st, id).cost + (if ev.Finish? && ev.key == id then ev.cost else 0.0)
            && KeyOf(st', id).tokens == KeyOf(st, id).tokens + (if ev.Finish? && ev.key == id then ev.tokens else 0)
            && GroupOf(st', id).cost == GroupOf(st, id).cost + (if ev.Finish? && ev.group == id then ev.cost else 0.0)
            && GroupOf(st', id).budget
               == if ev.SetBudget? && ev.group == id then ev.budget else GroupOf(st, id).budget)
  {}

  /** Over any run: the totals of a key and of a group are the sums of what was recorded for them since the last
      reset or new month, and the group's own budget is the one set last since then. */
  lemma {:induction false} TotalsAreSums(ym: int, evs: seq<Event>, id: int)
    requires id > 0
    ensures var st, since := After(Start(ym), evs).st, Since(ym, evs);
      && st.ym == MonthAt(ym, evs)
      && KeyOf(st, id).cost == KeyCosts(since, id) && KeyOf(st, id).tokens == KeyTokens(since, id)
      && GroupOf(st, id).cost == GroupCosts(since, id) && GroupOf(st, id).budget == LastSet(since, id)
  {
    hide Next, KeyCosts, KeyTokens, GroupCosts, LastSet;
    if evs == [] {
      SumsNext([], SetBudget(0, 0.0), id);
    } else {
      var front, ev := evs[..|evs| - 1], evs[|evs| - 1];
      TotalsAreSums(ym, front, id);
      TotalsNext(After(Start(ym), front), ev, id);
      SumsNext(Since(ym, front), ev, id);
      SumsNext([], ev, id);
      assert [] + [ev] == [ev];
    }
  }

  /** Over any run: a check lets a request pass exactly when what was recorded for its key is below each budget of the
      key, and what was recorded for its group is below the group's budget: the one given or else the one set. */
  lemma AdmittedExactly(ym: int, evs: seq<Event>, ev: Event)
    requires ev.Begin?
    ensures var since, l := Since(ym, evs + [ev]), ev.limits;
      var group := if l.groupCost > 0.0 then l.groupCost else LastSet(since, ev.group);
      Admitted(After(Start(ym), evs), ev)
      <==> && (ev.key > 0 && l.keyCost > 0.0 ==> KeyCosts(since, ev.key) < l.keyCost)
           && (ev.key > 0 && l.keyTokens > 0 ==> KeyTokens(since, ev.key) < l.keyTokens)
           && (ev.group > 0 && group > 0.0 ==> GroupCosts(since, ev.group) < group)
  {
    hide KeyCosts, KeyTokens, GroupCosts, LastSet;
    assert (evs + [ev])[..|evs|] == evs && [] + [ev] == [ev];
    if ev.key > 0 { TotalsAreSums(ym, evs, ev.key); }
    if ev.group > 0 { TotalsAreSums(ym, evs, ev.group); }
    SumsNext(Since(ym, evs), ev, ev.key);
    SumsNext(Since(ym, evs), ev, ev.group);
    SumsNext([], ev, ev.key);
    SumsNext([], ev, ev.group);
  }

  // ---------- How far a budget is overshot ----------

  /** For one key: its requests are checked against the budget b, only admitted requests record, at most c
      each, and no more than n are in flight at a time. */
  ghost predicate KeyRules(key: int, b: real, n: nat, c: real, w: World, ev: Event) {
    && (ev.Begin? && ev.key == key ==> ev.limits.keyCost == b)
    && (ev.Finish? && ev.key == key ==> Flying(w.keys, key) > 0 && ev.cost <= c)
    && Flying(Next(w, ev).keys, key) <= n
  }

  ghost predicate KeyRulesThroughout(key: int, b: real, n: nat, c: real, w: World, evs: seq<Event>) {
    forall i :: 0 <= i < |evs| ==> KeyRules(key, b, n, c, After(w, evs[..i]), evs[i])
  }

  lemma KeyRulesFront(key: int, b: real, n: nat, c: real, w: World, evs: seq<Event>)
    requires KeyRulesThroughout(key, b, n, c, w, evs) && evs != []
    ensures KeyRulesThroughout(key, b, n, c, w, evs[..|evs| - 1])
    ensures KeyRules(key, b, n, c, After(w, evs[..|evs| - 1]), evs[|evs| - 1])
  {
    hide KeyRules, After;
    var front := evs[..|evs| - 1];
    assert forall i :: 0 <= i < |front| ==> front[..i] == evs[..i] && front[i] == evs[i];
  }

  function Times(n: nat, c: real): real {
    n as real * c
  }

  lemma TimesNext(n: nat, c: real)
    ensures Times(n + 1, c) == Times(n, c) + c
  {}

  lemma TimesMonotone(m: nat, n: nat, c: real)
    requires m <= n && c >= 0.0
    ensures Times(m, c) <= Times(n, c)
  {
    assert (n - m) as real * c >= 0.0;
  }

  ghost predicate KeyBounded(key: int, b: real, n: nat, c: real, w: World) {
    var f := Flying(w.keys, key);
    f <= n && KeyOf(w.st, key).cost + Times(f, c) < b + Times(n, c)
  }

  lemma KeyStep(key: int, b: real, n: nat, c: real, w: World, ev: Event)
    requires key > 0 && b > 0.0 && c > 0.0 && KeyBounded(key, b, n, c, w) && KeyRules(key, b, n, c, w, ev)
    ensures KeyBounded(key, b, n, c, Next(w, ev))
  {
    var f := Flying(w.keys, key);
    TimesMonotone(f, n, c);
    if ev.Begin? && ev.key == key && Admitted(w, ev) {
      TimesMonotone(f + 1, n, c);
    } else if ev.Finish? && ev.key == key {
      TimesNext(f - 1, c);
      TimesMonotone(f - 1, n, c);
    }
  }

  /** In any interleaving, and over any number of months, what is recorded for a key with budget b > 0 in a month is
      always less than b + n * c: no more than what its requests in flight add to a budget not yet used up. */
  lemma {:induction false} KeySpendBounded(key: int, b: real, n: nat, c: real, ym: int, evs: seq<Event>)
    requires key > 0 && b > 0.0 && c > 0.0 && KeyRulesThroughout(key, b, n, c, Start(ym), evs)
    ensures KeyCosts(Since(ym, evs), key) < b + Times(n, c)
    ensures KeyBounded(key, b, n, c, After(Start(ym), evs))
  {
    hide Next, KeyRules, KeyRulesThroughout, KeyCosts, Since;
    TotalsAreSums(ym, evs, key);
    if evs == [] {
      TimesMonotone(0, n, c);
    } else {
      KeyRulesFront(key, b, n, c, Start(ym), evs);
      KeySpendBounded(key, b, n, c, ym, evs[..|evs| - 1]);
      KeyStep(key, b, n, c, After(Start(ym), evs[..|evs| - 1]), evs[|evs| - 1]);
    }
    TimesMonotone(0, Flying(After(Start(ym), evs).keys, key), c);
  }

  /** For one key with a token budget b: only admitted requests record, at most c tokens each. */
  ghost predicate TokenRules(key: int, b: int, n: nat, c: nat, w: World, ev: Event) {
    && (ev.Begin? && ev.key == key ==> ev.limits.keyTokens == b)
    && (ev.Finish? && ev.key == key ==> Flying(w.keys, key) > 0 && ev.tokens <= c)
    && Flying(Next(w, ev).keys, key) <= n
  }

  ghost predicate TokenRulesThroughout(key: int, b: int, n: nat, c: nat, w: World, evs: seq<Event>) {
    forall i :: 0 <= i < |evs| ==> TokenRules(key, b, n, c, After(w, evs[..i]), evs[i])
  }

  lemma TokenRulesFront(key: int, b: int, n: nat, c: nat, w: World, evs: seq<Event>)
    requires TokenRulesThroughout(key, b, n, c, w, evs) && evs != []
    ensures TokenRulesThroughout(key, b, n, c, w, evs[..|evs| - 1])
    ensures TokenRules(key, b, n, c, After(w, evs[..|evs| - 1]), evs[|evs| - 1])
  {
    hide TokenRules, After;
    var front := evs[..|evs| - 1];
    assert forall i :: 0 <= i < |front| ==> front[..i] == evs[..i] && front[i] == evs[i];
  }

  /** c tokens for each of the m requests that could still be admitted. */
  function Room(m: int, c: nat): int {
    m * c
  }

  lemma RoomNext(m: int, c: nat)
    ensures Room(m + 1, c) == Room(m, c) + c
    ensures m >= 0 ==> Room(m, c) >= 0
  {}

  lemma RoomMonotone(k: int, m: int, c: nat)
    requires k <= m
    ensures Room(k, c) <= Room(m, c)
  {
    assert (m - k) * c >= 0;
  }

  ghost predicate TokensBounded(key: int, b: int, n: nat, c: nat, w: World) {
    var f := Flying(w.keys, key);
    f <= n && KeyOf(w.st, key).tokens < b + Room(n - f, c)
  }

  lemma TokenStep(key: int, b: int, n: nat, c: nat, w: World, ev: Event)
    requires key > 0 && b > 0 && TokensBounded(key, b, n, c, w) && TokenRules(key, b, n, c, w, ev)
    ensures TokensBounded(key, b, n, c, Next(w, ev))
  {
    hide Room;
    var f := Flying(w.keys, key);
    RoomNext(n - f, c);
    RoomNext(n - f - 1, c);
  }

  /** The same bound for the tokens of a key with a token budget. */
  lemma {:induction false} KeyTokensBounded(key: int, b: int, n: nat, c: nat, ym: int, evs: seq<Event>)
    requires key > 0 && b > 0 && TokenRulesThroughout(key, b, n, c, Start(ym), evs)
    ensures KeyTokens(Since(ym, evs), key) < b + Room(n, c)
    ensures TokensBounded(key, b, n, c, After(Start(ym), evs))
  {
    hide Next, TokenRules, TokenRulesThroughout, KeyTokens, Since, Room;
    TotalsAreSums(ym, evs, key);
    if evs == [] {
      RoomNext(n, c);
    } else {
      TokenRulesFront(key, b, n, c, Start(ym), evs);
      KeyTokensBounded(key, b, n, c, ym, evs[..|evs| - 1]);
      TokenStep(key, b, n, c, After(Start(ym), evs[..|evs| - 1]), evs[|evs| - 1]);
    }
    RoomMonotone(n - Flying(After(Start(ym), evs).keys, key), n, c);
  }

  /** For one group: every check finds the budget b in force, whether it comes with the check or was set. */
  ghost predicate GroupRules(group: int, b: real, n: nat, c: real, w: World, ev: Event) {
    && (ev.Begin? && ev.group == group ==> GroupLimit(Rolled(w.st, ev.ym), group, ev.limits) == b)
    && (ev.Finish? && ev.group == group ==> Flying(w.groups, group) > 0 && ev.cost <= c)
    && Flying(Next(w, ev).groups, group) <= n
  }

  ghost predicate GroupRulesThroughout(group: int, b: real, n: nat, c: real, w: World, evs: seq<Event>) {
    forall i :: 0 <= i < |evs| ==> GroupRules(group, b, n, c, After(w, evs[..i]), evs[i])
  }

  lemma GroupRulesFront(group: int, b: real, n: nat, c: real, w: World, evs: seq<Event>)
    requires GroupRulesThroughout(group, b, n, c, w, evs) && evs != []
    ensures GroupRulesThroughout(group, b, n, c, w, evs[..|evs| - 1])
    ensures GroupRules(group, b, n, c, After(w, evs[..|evs| - 1]), evs[|evs| - 1])
  {
    hide GroupRules, After;
    var front := evs[..|evs| - 1];
    assert forall i :: 0 <= i < |front| ==> front[..i] == evs[..i] && front[i] == evs[i];
  }

  ghost predicate GroupBounded(group: int, b: real, n: nat, c: real, w: World) {
    var f := Flying(w.groups, group);
    f <= n && GroupOf(w.st, group).cost + Times(f, c) < b + Times(n, c)
  }

  lemma GroupStep(group: int, b: real, n: nat, c: real, w: World, ev: Event)
    requires group > 0 && b > 0.0 && c > 0.0 && GroupBounded(group, b, n, c, w) && GroupRules(group, b, n, c, w, ev)
    ensures GroupBounded(group, b, n, c, Next(w, ev))
  {
    var f := Flying(w.groups, group);
    TimesMonotone(f, n, c);
    if ev.Begin? && ev.group == group && Admitted(w, ev) {
      TimesMonotone(f + 1, n, c);
    } else if ev.Finish? && ev.group == group {
      TimesNext(f - 1, c);
      TimesMonotone(f - 1, n, c);
    }
  }

  /** The same for a group, as long as its checks find the budget b in force. */
  lemma {:induction false} GroupSpendBounded(group: int, b: real, n: nat, c: real, ym: int, evs: seq<Event>)
    requires group > 0 && b > 0.0 && c > 0.0 && GroupRulesThroughout(group, b, n, c, Start(ym), evs)
    ensures GroupCosts(Since(ym, evs), group) < b + Times(n, c)
    ensures GroupBounded(group, b, n, c, After(Start(ym), evs))
  {
    hide Next, GroupRules, GroupRulesThroughout, GroupCosts, Since;
    TotalsAreSums(ym, evs, group);
    if evs == [] {
      TimesMonotone(0, n, c);
    } else {
      GroupRulesFront(group, b, n, c, Start(ym), evs);
      GroupSpendBounded(group, b, n, c, ym, evs[..|evs| - 1]);
      GroupStep(group, b, n, c, After(Start(ym), evs[..|evs| - 1]), evs[|evs| - 1]);
    }
    TimesMonotone(0, Flying(After(Start(ym), evs).groups, group), c);
  }

  // ---------- How long a set budget lasts ----------

  /** A reset drops the totals, and so does a check or record of another month. */
  predicate Drops(ev: Event, ym: int) {
    ev.Reset? || ((ev.Begin? || ev.Finish?) && ev.ym != ym)
  }

  ghost predicate NoneDrops(evs: seq<Event>, ym: int) {
    forall i :: 0 <= i < |evs| ==> !Drops(evs[i], ym)
  }

  ghost predicate NotSet(evs: seq<Event>, group: int) {
    forall i :: 0 <= i < |evs| ==> !(evs[i].SetBudget? && evs[i].group == group)
  }

  lemma BudgetStep(w: World, ev: Event, group: int)
    requires !(ev.SetBudget? && ev.group == group)
    ensures var w' := Next(w, ev);
      if Drops(ev, w.st.ym)
      then GroupOf(w'.st, group).budget == 0.0
      else GroupOf(w'.st, group).budget == GroupOf(w.st, group).budget && w'.st.ym == w.st.ym
  {}

  lemma {:induction false} BudgetAfter(w: World, evs: seq<Event>, group: int)
    requires NotSet(evs, group)
    ensures var w' := After(w, evs);
      if NoneDrops(evs, w.st.ym)
      then GroupOf(w'.st, group).budget == GroupOf(w.st, group).budget && w'.st.ym == w.st.ym
      else GroupOf(w'.st, group).budget == 0.0
  {
    hide Next, GroupOf;
    if evs != [] {
      var n := |evs| - 1;
      var front, ev := evs[..n], evs[n];
      assert forall i :: 0 <= i < n ==> front[i] == evs[i];
      BudgetAfter(w, front, group);
      BudgetStep(After(w, front), ev, group);
      assert NoneDrops(evs, w.st.ym) <==> NoneDrops(front, w.st.ym) && !Drops(ev, w.st.ym);
    }
  }

  /** A budget set for a group is in force at a later check that brings none of its own, whatever happens in
      between, exactly when there was no reset since then, and every check and record, this one included, is of
      the month the totals were of when it was set. That need not be the month it was set in: setting a budget does
      not roll over. */
  lemma SetBudgetLastsExactly(w: World, group: int, b: real, evs: seq<Event>, ym: int, l: Limits)
    requires group > 0 && b > 0.0 && l.groupCost <= 0.0 && NotSet(evs, group)
    ensures var later := Rolled(After(Next(w, SetBudget(group, b)), evs).st, ym);
      GroupLimit(later, group, l) == if NoneDrops(evs, w.st.ym) && ym == w.st.ym then b else 0.0
  {
    hide After;
    BudgetAfter(Next(w, SetBudget(group, b)), evs, group);
  }

  /** Set in February 2024 before anything was checked or recorded in that month, a budget does not outlive the
      first check. */
  lemma LostAtOnce(l: Limits)
    requires l.groupCost <= 0.0
    ensures var w := Next(Start(202401), SetBudget(7, 10.0));
      GroupLimit(w.st, 7, l) == 10.0 && GroupLimit(Rolled(w.st, 202402), 7, l) == 0.0
  {
    SetBudgetLastsExactly(Start(202401), 7, 10.0, [], 202402, l);
  }
}
