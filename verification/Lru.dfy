/** The LRU map of src/common/lru.c: a doubly linked recency list and a separately chained hash
    table over the same nodes. The hash function is arbitrary. */
module Lru {
  import opened Options
  import opened LruSpec
  import opened Soundness

  class Node<V> {
    const key: string
    var val: V
    var prev: Node?<V>
    var next: Node?<V>
    var nextBkt: Node?<V>
    var h: nat

    constructor (key: string, val: V)
      ensures this.key == key && this.val == val
      ensures prev == null && next == null && nextBkt == null
    {
      this.key, this.val := key, val;
      prev, next, nextBkt, h := null, null, null, 0;
    }
  }

  /** Smallest power of two that is at least n and at least 4. */
  method NextPow2(n: nat) returns (p: nat)
    ensures p >= n && p >= 4
    ensures exists k: nat :: p == Pow2(k)
    ensures p > 4 ==> p / 2 < n
  {
    p := 4;
    ghost var k: nat := 2;
    while p < n
      invariant p == Pow2(k) && k >= 2 && p >= 4
      invariant p > 4 ==> p / 2 < n
      decreases n - p
    {
      p := p * 2;
      k := k + 1;
    }
  }

  ghost function Pow2(k: nat): nat {
    if k == 0 then 1 else 2 * Pow2(k - 1)
  }

  // ---------- Node sequences ----------

  /** The i-th node of a chain, or null past its end. */
  ghost function At<V>(s: seq<Node<V>>, i: nat): Node?<V> {
    if i < |s| then s[i] else null
  }

  /** The node before position i, or null at the front. */
  ghost function Before<V>(s: seq<Node<V>>, i: nat): Node?<V>
    requires i <= |s|
  {
    if i == 0 then null else s[i - 1]
  }

  ghost function Drop<T>(s: seq<T>, i: nat): seq<T>
    requires i < |s|
  {
    s[..i] + s[i + 1..]
  }

  ghost function Elems<T>(s: seq<T>): set<T> {
    set x | x in s
  }

  /** No element occurs twice. */
  ghost predicate NoDup<T>(s: seq<T>) {
    |Elems(s)| == |s|
  }

  lemma {:induction false} ElemsSize<T>(s: seq<T>)
    ensures |Elems(s)| <= |s|
  {
    if s != [] {
      var r := s[..|s| - 1];
      ElemsSize(r);
      assert Elems(s) == Elems(r) + {s[|s| - 1]};
    }
  }

  lemma {:induction false} NoDupIff<T>(s: seq<T>)
    ensures NoDup(s) <==> forall i, j :: 0 <= i < j < |s| ==> s[i] != s[j]
  {
    if s != [] {
      var r, x := s[..|s| - 1], s[|s| - 1];
      NoDupIff(r);
      ElemsSize(r);
      assert s == r + [x];
      assert Elems(s) == Elems(r) + {x};
      if x in r {
        var i :| 0 <= i < |r| && r[i] == x;
        assert s[i] == s[|r|];
      } else {
        forall i, j | 0 <= i < j < |s| && NoDup(r) ensures s[i] != s[j] {
          if j < |r| { assert r[i] != r[j]; } else { assert s[i] in r; }
        }
        if forall i, j :: 0 <= i < j < |s| ==> s[i] != s[j] {
          forall i, j | 0 <= i < j < |r| ensures r[i] != r[j] { assert s[i] != s[j]; }
        }
      }
    } else {
      assert Elems(s) == {};
    }
  }

  lemma DropAt<T>(s: seq<T>, i: nat)
    requires i < |s|
    ensures |Drop(s, i)| == |s| - 1
    ensures forall k {:trigger Drop(s, i)[k]} :: 0 <= k < i ==> Drop(s, i)[k] == s[k]
    ensures forall k {:trigger Drop(s, i)[k]} :: i <= k < |s| - 1 ==> Drop(s, i)[k] == s[k + 1]
  {}

  lemma OnlyAt<T>(s: seq<T>, i: int)
    requires NoDup(s)
    ensures 0 <= i < |s| ==> forall o {:trigger s[o]} :: 0 <= o < |s| && o != i ==> s[o] != s[i]
  {
    NoDupIff(s);
  }

  lemma DropMembers<T>(s: seq<T>, i: nat)
    requires NoDup(s) && i < |s|
    ensures forall x :: x in Drop(s, i) <==> x in s && x != s[i]
  {
    OnlyAt(s, i);
    var d := Drop(s, i);
    forall x | x in s && x != s[i] ensures x in d {
      var k :| 0 <= k < |s| && s[k] == x;
      assert d[if k < i then k else k - 1] == x;
    }
  }

  lemma NoDupDrop<T>(s: seq<T>, i: nat)
    requires NoDup(s) && i < |s|
    ensures NoDup(Drop(s, i))
  {
    DropMembers(s, i);
    assert Elems(Drop(s, i)) == Elems(s) - {s[i]};
  }

  lemma NoDupCons<T>(x: T, s: seq<T>)
    requires NoDup(s) && x !in s
    ensures NoDup([x] + s)
    ensures forall y :: y in [x] + s <==> y == x || y in s
  {
    assert Elems([x] + s) == Elems(s) + {x};
  }

  /** The nodes of chain, linked by nextBkt from first, all of bucket b. */
  ghost predicate ChainOk<V>(chain: seq<Node<V>>, first: Node?<V>, b: nat)
    reads chain`nextBkt, chain`h
  {
    && first == At(chain, 0) && NoDup(chain)
    && (forall i {:trigger chain[i].nextBkt} :: 0 <= i < |chain| ==> chain[i].nextBkt == At(chain, i + 1))
    && (forall i {:trigger chain[i].h} :: 0 <= i < |chain| ==> chain[i].h == b)
  }

  /** The nodes of rec, linked both ways from first to last. */
  ghost predicate RecOk<V>(rec: seq<Node<V>>, first: Node?<V>, last: Node?<V>)
    reads rec`prev, rec`next
  {
    && first == At(rec, 0) && NoDup(rec)
    && last == Before(rec, |rec|)
    && (forall i {:trigger rec[i].next} :: 0 <= i < |rec| ==> rec[i].next == At(rec, i + 1))
    && (forall i {:trigger rec[i].prev} :: 0 <= i < |rec| ==> rec[i].prev == Before(rec, i))
  }

  ghost predicate KeysDiffer<V>(s: set<Node<V>>) {
    forall m, n {:trigger m.key, n.key} :: m in s && n in s && m.key == n.key ==> m == n
  }

  /** The entries the nodes of rec stand for. */
  ghost function View<V>(rec: seq<Node<V>>): (s: seq<Entry<V>>)
    reads rec`val
    ensures |s| == |rec|
  {
    if rec == [] then [] else View(rec[..|rec| - 1]) + [Entry(rec[|rec| - 1].key, rec[|rec| - 1].val)]
  }

  lemma {:induction false} ViewAt<V>(rec: seq<Node<V>>)
    ensures forall i :: 0 <= i < |rec| ==> View(rec)[i] == Entry(rec[i].key, rec[i].val)
  {
    if rec != [] {
      ViewAt(rec[..|rec| - 1]);
    }
  }

  lemma ViewDrop<V>(rec: seq<Node<V>>, i: nat)
    requires i < |rec|
    ensures View(Drop(rec, i)) == Without(View(rec), i)
  {
    DropAt(rec, i);
    ViewAt(rec);
    ViewAt(Drop(rec, i));
    hide Drop, View;
    var v, w := View(Drop(rec, i)), Without(View(rec), i);
    forall k | 0 <= k < |v| ensures v[k] == w[k] {
      if k < i { assert w[k] == View(rec)[k]; } else { assert w[k] == View(rec)[k + 1]; }
    }
  }

  lemma ViewCons<V>(n: Node<V>, rec: seq<Node<V>>)
    ensures View([n] + rec) == [Entry(n.key, n.val)] + View(rec)
  {
    ViewAt(rec);
    ViewAt([n] + rec);
    hide View;
  }

  /** Splicing n in front of a list keeps it a list. */
  lemma Linked<V>(n: Node<V>, was: seq<Node<V>>)
    requires NoDup(was) && n !in was
    requires n.prev == null && n.next == At(was, 0)
    requires forall k {:trigger was[k].next} :: 0 <= k < |was| ==> was[k].next == At(was, k + 1)
    requires forall k {:trigger was[k].prev} :: 0 <= k < |was| ==> was[k].prev == if k == 0 then n else was[k - 1]
    ensures RecOk([n] + was, n, if was == [] then n else was[|was| - 1])
  {
    NoDupCons(n, was);
    var c := [n] + was;
    forall k | 0 <= k < |c| ensures c[k].next == At(c, k + 1) && c[k].prev == (if k == 0 then null else c[k - 1]) {
      if k > 0 { assert c[k] == was[k - 1]; }
    }
  }

  /** Bridging over the i-th node of a list leaves the list without it: the next links... */
  lemma UnlinkedNext<V>(was: seq<Node<V>>, i: nat, d: seq<Node<V>>)
    requires i < |was| && d == Drop(was, i)
    requires forall k {:trigger was[k].next} :: 0 <= k < |was| && k != i ==>
      was[k].next == At(was, if k == i - 1 then i + 1 else k + 1)
    ensures forall k {:trigger d[k].next} :: 0 <= k < |d| ==> d[k].next == At(d, k + 1)
  {
    forall k | 0 <= k < |d| ensures d[k].next == At(d, k + 1) {
      if k < i { assert d[k] == was[k]; } else { assert d[k] == was[k + 1]; }
    }
  }

  /** ... and the prev links. */
  lemma UnlinkedPrev<V>(was: seq<Node<V>>, i: nat, d: seq<Node<V>>)
    requires i < |was| && d == Drop(was, i)
    requires forall k {:trigger was[k].prev} :: 0 <= k < |was| && k != i ==>
      was[k].prev == Before(was, if k == i + 1 then i else k)
    ensures forall k {:trigger d[k].prev} :: 0 <= k < |d| ==> d[k].prev == Before(d, k)
    ensures At(d, 0) == At(was, if i == 0 then 1 else 0)
    ensures Before(d, |d|) == Before(was, if i == |was| - 1 then i else |was|)
  {
    forall k | 0 <= k < |d| ensures d[k].prev == Before(d, k) {
      if k < i { assert d[k] == was[k]; } else { assert d[k] == was[k + 1]; }
    }
  }

  class LruMap<V> {
    const hash: string -> nat
    const notify: bool
    const capacity: nat
    var count: nat
    var head: Node?<V>
    var tail: Node?<V>
    const table: array<Node?<V>>
    /** The values handed to on_evict so far. */
    var evicted: seq<V>

    ghost var rec: seq<Node<V>>
    ghost var chains: seq<seq<Node<V>>>

    ghost var repr: set<Node<V>>

    function Bucket(key: string): (b: nat)
      requires table.Length >= 1
      ensures b < table.Length
    {
      hash(key) % table.Length
    }

    // ---------- Representation ----------

    /** The recency list holds exactly the nodes of s. */
    ghost function ListState(s: set<Node<V>>): Integrity
      reads this`rec, this`head, this`tail, s`prev, s`next
    {
      if && (forall n :: n in rec ==> n in s)
         && (forall n :: n in s ==> n in rec)
         && RecOk(rec, head, tail)
      then Sound else Broken
    }

    ghost predicate ListOk(s: set<Node<V>>)
      reads this`rec, this`head, this`tail, s`prev, s`next
    {
      ListState(s) == Sound
    }

    /** The chains cs hold exactly the nodes of s, each once, in the chain of its key. */
    ghost predicate Members(cs: seq<seq<Node<V>>>, s: set<Node<V>>) {
      && table.Length >= 1 && |cs| == table.Length
      && (forall b, k {:trigger cs[b][k]} :: 0 <= b < |cs| && 0 <= k < |cs[b]| ==>
            cs[b][k] in s && Bucket(cs[b][k].key) == b)
      && (forall b :: 0 <= b < |cs| ==> NoDup(cs[b]))
      && (forall n :: n in s ==> n in cs[Bucket(n.key)])
    }

    lemma MembersInsert(cs: seq<seq<Node<V>>>, s: set<Node<V>>, n: Node<V>)
      requires Members(cs, s) && n !in s
      ensures var b := Bucket(n.key); Members(cs[b := [n] + cs[b]], s + {n})
    {
      var b := Bucket(n.key);
      NoDupCons(n, cs[b]);
      var cs' := cs[b := [n] + cs[b]];
      forall m | m in s + {n} ensures m in cs'[Bucket(m.key)] {}
    }

    lemma MembersRemove(cs: seq<seq<Node<V>>>, s: set<Node<V>>, b: nat, i: nat)
      requires Members(cs, s) && b < |cs| && i < |cs[b]|
      ensures Members(cs[b := Drop(cs[b], i)], s - {cs[b][i]})
    {
      var n := cs[b][i];
      DropMembers(cs[b], i);
      NoDupDrop(cs[b], i);
      var cs' := cs[b := Drop(cs[b], i)];
      forall m | m in s - {n} ensures m in cs'[Bucket(m.key)] {}
      hide Drop;
      forall c, k | 0 <= c < |cs'| && 0 <= k < |cs'[c]|
        ensures cs'[c][k] in s - {n} && Bucket(cs'[c][k].key) == c
      {
        assert cs'[c][k] in cs'[c];
        if c != b {
          assert cs'[c] == cs[c];
        } else {
          assert cs'[c][k] in cs[b];
        }
      }
    }

    /** Every chain is linked by nextBkt, and every node caches its bucket. */
    ghost predicate Links(cs: seq<seq<Node<V>>>, s: set<Node<V>>)
      requires Members(cs, s)
      reads s`nextBkt, s`h
    {
      && (forall b, k {:trigger cs[b][k].nextBkt} :: 0 <= b < |cs| && 0 <= k < |cs[b]| ==>
            cs[b][k].nextBkt == At(cs[b], k + 1))
      && (forall b, k {:trigger cs[b][k].h} :: 0 <= b < |cs| && 0 <= k < |cs[b]| ==> cs[b][k].h == b)
    }

    lemma LinksInsert(cs: seq<seq<Node<V>>>, s: set<Node<V>>, n: Node<V>)
      requires Members(cs, s) && Links(cs, s) && n !in s
      requires n.h == Bucket(n.key) && n.nextBkt == At(cs[n.h], 0)
      ensures var cs' := cs[n.h := [n] + cs[n.h]]; Members(cs', s + {n}) && Links(cs', s + {n})
    {
      MembersInsert(cs, s, n);
      var c: seq<Node<V>> := [n] + cs[n.h];
      var cs': seq<seq<Node<V>>> := cs[n.h := c];
      forall b: int, k: int | 0 <= b < |cs'| && 0 <= k < |cs'[b]|
        ensures cs'[b][k].nextBkt == At(cs'[b], k + 1) && cs'[b][k].h == b
      {
        if b == n.h && k > 0 { assert c[k] == cs[b][k - 1]; }
      }
    }

    lemma LinksRemove(cs: seq<seq<Node<V>>>, s: set<Node<V>>, b: nat, i: nat, first: Node?<V>)
      requires Members(cs, s) && b < |cs| && i < |cs[b]|
      requires forall c, k {:trigger cs[c][k].nextBkt} :: 0 <= c < |cs| && 0 <= k < |cs[c]| && c != b ==>
        cs[c][k].nextBkt == At(cs[c], k + 1)
      requires forall c, k {:trigger cs[c][k].h} :: 0 <= c < |cs| && 0 <= k < |cs[c]| && c != b ==> cs[c][k].h == c
      requires ChainOk(Drop(cs[b], i), first, b)
      ensures var cs' := cs[b := Drop(cs[b], i)]; Members(cs', s - {cs[b][i]}) && Links(cs', s - {cs[b][i]})
    {
      MembersRemove(cs, s, b, i);
      hide Drop, NoDup;
      var d: seq<Node<V>> := Drop(cs[b], i);
      var cs': seq<seq<Node<V>>> := cs[b := d];
      forall c: int, k: int | 0 <= c < |cs'| && 0 <= k < |cs'[c]|
        ensures cs'[c][k].nextBkt == At(cs'[c], k + 1) && cs'[c][k].h == c
      {
        if c == b { assert cs'[c] == d; } else { assert cs'[c] == cs[c]; }
      }
    }

    /** The bucket table holds exactly the nodes of s. */
    ghost function TableState(s: set<Node<V>>): Integrity
      reads this`chains, table, s`nextBkt, s`h
    {
      if && Members(chains, s) && Links(chains, s)
         && (forall b :: 0 <= b < |chains| ==> table[b] == At(chains[b], 0))
      then Sound else Broken
    }

    ghost predicate TableOk(s: set<Node<V>>)
      reads this`chains, table, s`nextBkt, s`h
    {
      TableState(s) == Sound
    }

    ghost predicate Valid()
      reads this, table, repr
    {
      ListOk(repr) && TableOk(repr) && KeysDiffer(repr) && 1 <= capacity && count == |rec| <= capacity
    }

    /** The abstract value: the live entries, most recent first. */
    ghost function Entries(): seq<Entry<V>>
      reads this`rec, rec`val
    {
      View(rec)
    }

    // ---------- Recency list ----------

    method RecLinkHead(n: Node<V>, ghost s: set<Node<V>>)
      requires ListOk(s) && n !in s
      modifies this`head, this`tail, this`rec, n`prev, n`next, s`prev
      ensures ListOk(s + {n}) && rec == [n] + old(rec)
    {
      OnlyAt(rec, 0);
      assert forall m :: m in rec ==> m != n;
      n.next := head;
      n.prev := null;
      if head != null {
        head.prev := n;
      }
      head := n;
      if tail == null {
        tail := n;
      }
      Linked(n, rec);
      rec := [n] + rec;
    }

    /** rec_unlink, first half: the older neighbour moves up. */
    method BridgeNext(n: Node<V>, ghost i: nat)
      requires RecOk(rec, head, tail) && i < |rec| && rec[i] == n
      modifies this`head, rec`next
      ensures head == At(rec, if i == 0 then 1 else 0)
      ensures n.next == old(n.next)
      ensures forall k {:trigger rec[k].next} :: 0 <= k < |rec| && k != i ==>
        rec[k].next == At(rec, if k == i - 1 then i + 1 else k + 1)
    {
      OnlyAt(rec, i - 1);
      if n.prev != null {
        n.prev.next := n.next;
      } else {
        head := n.next;
      }
    }

    /** rec_unlink, second half: the newer neighbour moves down. */
    method BridgePrev(n: Node<V>, ghost i: nat)
      requires i < |rec| && rec[i] == n && NoDup(rec)
      requires n.next == At(rec, i + 1) && tail == rec[|rec| - 1]
      requires forall k {:trigger rec[k].prev} :: 0 <= k < |rec| ==> rec[k].prev == Before(rec, k)
      modifies this`tail, rec`prev
      ensures tail == Before(rec, if i == |rec| - 1 then i else |rec|)
      ensures forall k {:trigger rec[k].prev} :: 0 <= k < |rec| && k != i ==>
        rec[k].prev == Before(rec, if k == i + 1 then i else k)
    {
      OnlyAt(rec, i + 1);
      if n.next != null {
        n.next.prev := n.prev;
      } else {
        tail := n.prev;
      }
    }

    method RecUnlink(n: Node<V>, ghost i: nat, ghost s: set<Node<V>>)
      requires ListOk(s) && i < |rec| && rec[i] == n
      modifies this`head, this`tail, this`rec, s`prev, s`next
      ensures ListOk(s - {n}) && rec == Drop(old(rec), i)
    {
      DropMembers(rec, i);
      hide Drop;
      BridgeNext(n, i);
      BridgePrev(n, i);
      n.prev, n.next := null, null;
      UnlinkedNext(rec, i, Drop(rec, i));
      UnlinkedPrev(rec, i, Drop(rec, i));
      NoDupDrop(rec, i);
      rec := Drop(rec, i);
    }

    method RecMoveToHead(n: Node<V>, ghost i: nat, ghost s: set<Node<V>>)
      requires ListOk(s) && i < |rec| && rec[i] == n
      modifies this`head, this`tail, this`rec, s`prev, s`next
      ensures ListOk(s) && rec == [n] + Drop(old(rec), i)
    {
      if head == n {
        OnlyAt(rec, 0);
        assert rec == [n] + Drop(rec, 0);
        return;
      }
      RecUnlink(n, i, s);
      RecLinkHead(n, s - {n});
      assert s - {n} + {n} == s;
    }

    // ---------- Bucket chains ----------

    method FindNode(key: string) returns (n: Node?<V>)
      requires TableOk(repr)
      ensures n == null ==> forall m :: m in repr ==> m.key != key
      ensures n != null ==> n in repr && n.key == key
    {
      var b := Bucket(key);
      n := table[b];
      ghost var i := 0;
      ghost var chain := chains[b];
      while n != null
        invariant 0 <= i <= |chain| && n == At(chain, i)
        invariant forall j :: 0 <= j < i ==> chain[j].key != key
        decreases |chain| - i
      {
        assert n in chain;
        if n.key == key {
          return;
        }
        n := n.nextBkt;
        i := i + 1;
      }
    }

    method BktInsert(n: Node<V>, ghost s: set<Node<V>>)
      requires TableOk(s) && n !in s
      modifies this`chains, table, n`nextBkt, n`h
      ensures TableOk(s + {n})
    {
      n.h := Bucket(n.key);
      n.nextBkt := table[n.h];
      table[n.h] := n;
      LinksInsert(chains, s, n);
      chains := chains[n.h := [n] + chains[n.h]];
    }

    /** Take n, the i-th node of the chain of bucket b, out of that chain. */
    method ChainUnlink(b: nat, n: Node<V>, ghost chain: seq<Node<V>>, ghost i: nat)
      requires b < table.Length && ChainOk(chain, table[b], b) && i < |chain| && chain[i] == n
      modifies table, chain`nextBkt
      ensures ChainOk(Drop(chain, i), table[b], b)
      ensures forall c :: 0 <= c < table.Length && c != b ==> table[c] == old(table[c])
    {
      NoDupDrop(chain, i);
      DropAt(chain, i);
      OnlyAt(chain, i);
      OnlyAt(chain, i - 1);
      hide Drop;
      ghost var d := Drop(chain, i);
      if table[b] == n {
        table[b] := n.nextBkt;
      } else {
        var p := table[b];
        ghost var j := 0;
        while p.nextBkt != n
          invariant 0 <= j < i && p == chain[j]
          decreases i - j
        {
          p := p.nextBkt;
          j := j + 1;
        }
        p.nextBkt := n.nextBkt;
      }
      n.nextBkt := null;
      forall k | 0 <= k < |d| ensures d[k].nextBkt == At(d, k + 1) {}
    }

    method BktRemove(n: Node<V>, ghost s: set<Node<V>>)
      requires TableOk(s) && n in s
      modifies this`chains, table, s`nextBkt
      ensures TableOk(s - {n})
    {
      assert n in chains[Bucket(n.key)];
      var b := n.h;
      ghost var chain := chains[b];
      ghost var i :| 0 <= i < |chain| && chain[i] == n;
      ghost var was := chains;
      assert forall c, k {:trigger was[c][k]} :: 0 <= c < |was| && 0 <= k < |was[c]| && c != b ==>
        was[c][k] !in chain;
      ChainUnlink(b, n, chain, i);
      LinksRemove(was, s, b, i, table[b]);
      hide Members, Drop, NoDup, Links;
      chains := was[b := Drop(chain, i)];
    }

    // ---------- Public operations ----------

    constructor (cap: nat, hash: string -> nat, notify: bool)
      ensures Valid() && Entries() == [] && evicted == [] && repr == {} && fresh(table)
      ensures capacity == (if cap < 1 then 1 else cap) && this.notify == notify
    {
      this.hash, this.notify := hash, notify;
      capacity := if cap < 1 then 1 else cap;
      count, head, tail, evicted := 0, null, null, [];
      var buckets := NextPow2((if cap < 1 then 1 else cap) * 2);
      table := new Node?<V>[buckets](_ => null);
      rec, repr, chains := [], {}, seq(buckets, _ => []);
      new;
      assert NoDup<Node<V>>([]) by { assert Elems<Node<V>>([]) == {}; }
    }

    /** Hand a displaced value to on_evict, if there is one. */
    method OnEvict(v: V)
      modifies this`evicted
      ensures evicted == old(evicted) + if notify then [v] else []
    {
      if notify {
        evicted := evicted + [v];
      }
    }

    /** The node found for a key is at the position the abstract map gives that key. */
    lemma FoundAt(key: string, n: Node?<V>)
      requires ListOk(repr) && KeysDiffer(repr)
      requires if n == null then forall m :: m in repr ==> m.key != key else n in repr && n.key == key
      ensures var i := IndexOf(Entries(), key);
        if n == null then i == -1 else 0 <= i < |rec| && rec[i] == n
    {
      ViewAt(rec);
      hide View;
      var v := View(rec);
      var i := IndexOf(v, key);
      if i >= 0 {
        assert rec[i] in repr && rec[i].key == key;
      }
      if n != null {
        var k :| 0 <= k < |rec| && rec[k] == n;
        assert v[k].key == key;
      }
    }

    /** Small facts about a sound list, for proofs that do not look inside it. */
    lemma ListFacts(i: int)
      requires ListOk(repr)
      ensures rec == [] <==> tail == null
      ensures rec != [] ==> rec[|rec| - 1] == tail
      ensures 0 <= i < |rec| ==> rec[i] in repr && rec[i] !in Drop(rec, i)
    {
      if 0 <= i < |rec| { DropMembers(rec, i); }
    }

    method Get(key: string) returns (v: Option<V>)
      requires Valid()
      modifies this`head, this`tail, this`rec, repr`prev, repr`next
      ensures Valid()
      ensures v == Lookup(old(Entries()), key)
      ensures Entries() == AfterGet(old(Entries()), key)
    {
      hide TableState, ListState, IndexOf, View, Drop;
      var n := FindNode(key);
      FoundAt(key, n);
      v := None;
      if n != null {
        ghost var i := IndexOf(Entries(), key);
        ghost var was := rec;
        RecMoveToHead(n, i, repr);
        DropAt(was, i);
        ViewAt(was);
        ViewDrop(was, i);
        ViewCons(n, Drop(was, i));
        v := Some(n.val);
      }
    }

    method Put(key: string, val: V)
      requires Valid()
      modifies this, table, repr
      ensures Valid() && fresh(repr - old(repr))
      ensures Entries() == AfterPut(old(Entries()), capacity, key, val)
      ensures evicted == old(evicted) + if notify then DisplacedByPut(old(Entries()), capacity, key) else []
    {
      hide TableState, ListState, IndexOf, View, Drop;
      var known := FindNode(key);
      FoundAt(key, known);
      ListFacts(0);
      if known != null {
        Replace(known, val);
        return;
      }
      if count == capacity && tail != null {
        EvictTail();
      }
      AddFront(key, val);
    }

    /** The key is known: the value is replaced, the entry moves to the front. */
    method Replace(n: Node<V>, val: V)
      requires Valid() && n in repr
      requires 0 <= IndexOf(Entries(), n.key) < |rec| && rec[IndexOf(Entries(), n.key)] == n
      modifies this`head, this`tail, this`rec, this`evicted, repr`prev, repr`next, n`val
      ensures Valid()
      ensures var s, i := old(Entries()), IndexOf(old(Entries()), n.key);
        && Entries() == [Entry(n.key, val)] + Without(s, i)
        && evicted == old(evicted) + if notify then [s[i].val] else []
    {
      hide TableState, ListState, IndexOf, View, Drop;
      ghost var was := rec;
      ghost var i := IndexOf(Entries(), n.key);
      ghost var d := Drop(was, i);
      ghost var vd := View(d);
      ListFacts(i);
      DropAt(was, i);
      ViewAt(was);
      ViewDrop(was, i);
      var oval := n.val;
      n.val := val;
      assert View(d) == vd;
      RecMoveToHead(n, i, repr);
      ViewCons(n, d);
      OnEvict(oval);
    }

    /** A new entry at the front of a map that has room and does not know the key. */
    method AddFront(key: string, val: V)
      requires Valid() && count < capacity && forall m :: m in repr ==> m.key != key
      modifies this, table, repr
      ensures Valid() && fresh(repr - old(repr)) && evicted == old(evicted)
      ensures Entries() == [Entry(key, val)] + old(Entries())
    {
      hide TableState, ListState, IndexOf, View, Drop;
      ghost var was := rec;
      var n := new Node(key, val);
      RecLinkHead(n, repr);
      BktInsert(n, repr);
      repr := repr + {n};
      count := count + 1;
      ViewCons(n, was);
    }

    /** The capacity eviction of lru_put: the least recent node goes. */
    method EvictTail()
      requires Valid() && tail != null
      modifies this, table, repr
      ensures Valid() && repr <= old(repr) && count == old(count) - 1
      ensures old(Entries()) != [] && Entries() == old(Entries())[..|old(Entries())| - 1]
      ensures evicted == old(evicted) + if notify then [old(Entries())[|old(Entries())| - 1].val] else []
    {
      hide TableState, ListState, IndexOf, View, Drop;
      ListFacts(|rec| - 1);
      ViewAt(rec);
      RemoveNode(tail, |rec| - 1);
    }

    /** Take a node out of both structures and hand its value over. */
    method RemoveNode(n: Node<V>, ghost i: nat)
      requires Valid() && i < |rec| && rec[i] == n
      modifies this, table, repr
      ensures Valid() && repr == old(repr) - {n} && count == old(count) - 1
      ensures Entries() == Without(old(Entries()), i)
      ensures evicted == old(evicted) + if notify then [old(n.val)] else []
    {
      hide TableState, ListState, IndexOf, View, Drop;
      ghost var was := rec;
      ListFacts(i);
      DropAt(rec, i);
      RecUnlink(n, i, repr);
      BktRemove(n, repr);
      ViewDrop(was, i);
      repr := repr - {n};
      count := count - 1;
      OnEvict(n.val);
    }

    method Invalidate(key: string) returns (found: bool)
      requires Valid()
      modifies this, table, repr
      ensures Valid() && repr <= old(repr)
      ensures found <==> Lookup(old(Entries()), key).Some?
      ensures Entries() == AfterInvalidate(old(Entries()), key)
      ensures evicted == old(evicted) + if notify then DisplacedByInvalidate(old(Entries()), key) else []
    {
      hide TableState, ListState, IndexOf, View, Drop;
      var n := FindNode(key);
      FoundAt(key, n);
      found := n != null;
      ViewAt(rec);
      if n != null {
        RemoveNode(n, IndexOf(Entries(), key));
      }
    }

    method Size() returns (n: nat)
      requires Valid()
      ensures n == |Entries()|
    {
      n := count;
    }

    /** lru_free: every remaining value is handed over, most recent first. */
    method Free()
      requires Valid()
      modifies this`evicted
      ensures evicted == old(evicted) + if notify then Values(Entries()) else []
    {
      ViewAt(rec);
      hide View, TableState;
      var n := head;
      ghost var i := 0;
      while n != null
        invariant 0 <= i <= |rec| && n == At(rec, i)
        invariant evicted == old(evicted) + if notify then Values(Entries())[..i] else []
        decreases |rec| - i
      {
        assert Values(Entries())[..i + 1] == Values(Entries())[..i] + [n.val];
        var next := n.next;
        OnEvict(n.val);
        n := next;
        i := i + 1;
      }
    }
  }
}
