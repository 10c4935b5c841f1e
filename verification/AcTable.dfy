/** The node table of the Aho-Corasick automaton as a value, and what one step of the
    breadth-first construction does to it. */
module AcTable {
  import opened Options
  import opened LongestSuffix

  datatype AcNode = AcNode(next: seq<int>, fail: int, keyword: Option<Word>)

  const ALPHABET := 256

  /** Which string each node spells (sp), and which node spells a string (at). */
  datatype Labels = Labels(sp: seq<Word>, at: map<Word, int>)

  ghost predicate Labelled(lb: Labels) {
    && |lb.sp| >= 1 && lb.sp[0] == []
    && (forall i :: 0 <= i < |lb.sp| ==> lb.sp[i] in lb.at && lb.at[lb.sp[i]] == i)
    && (forall s :: s in lb.at ==> 0 <= lb.at[s] < |lb.sp| && lb.sp[lb.at[s]] == s)
    && PrefixClosed(lb.at.Keys)
  }

  /** The node that spells s, or -1: the transition of the plain trie. */
  ghost function Index(lb: Labels, s: Word): int {
    if s in lb.at then lb.at[s] else -1
  }

  /** The node of the longest suffix of s that is a trie path: the transition of the automaton. */
  ghost function Target(lb: Labels, s: Word): int
    requires Labelled(lb)
  {
    lb.at[Longest(lb.at.Keys, s)]
  }

  /** The failure link of node i: the node of its longest proper suffix. */
  ghost function FailTarget(lb: Labels, i: int): int
    requires Labelled(lb) && 0 <= i < |lb.sp|
  {
    if i == 0 || lb.sp[i] == [] then 0 else Target(lb, lb.sp[i][1..])
  }

  ghost function OwnKeyword(words: set<Word>, s: Word): Option<Word> {
    if s in words then Some(s) else None
  }

  ghost predicate IsPath(words: set<Word>, s: Word) {
    s == [] || exists w :: w in words && s <= w
  }

  /** The trie paths are exactly the prefixes of the keywords. */
  ghost predicate PathsArePrefixes(lb: Labels, words: set<Word>) {
    forall s {:trigger s in lb.at} {:trigger IsPath(words, s)} :: s in lb.at <==> IsPath(words, s)
  }

  /** The trie before the failure links are built. */
  ghost predicate IsTrie(t: seq<AcNode>, lb: Labels, words: set<Word>) {
    && Labelled(lb) && |t| == |lb.sp| && [] !in words
    && (forall i {:trigger t[i].next} :: 0 <= i < |t| ==> |t[i].next| == ALPHABET)
    && (forall i {:trigger t[i].fail} :: 0 <= i < |t| ==> t[i].fail == 0)
    && (forall i {:trigger t[i].keyword} :: 0 <= i < |t| ==> t[i].keyword == OwnKeyword(words, lb.sp[i]))
    && (forall i, c: Byte {:trigger t[i].next[c]} :: 0 <= i < |t| ==>
          t[i].next[c] == Index(lb, lb.sp[i] + [c]))
  }

  /** The finished automaton: every row is total, every node's link goes to the node of its longest
      proper suffix, every node announces the longest keyword that ends there. */
  ghost predicate IsDfa(t: seq<AcNode>, lb: Labels, words: set<Word>) {
    && Labelled(lb) && |t| == |lb.sp| && [] !in words
    && (forall i {:trigger t[i].next} :: 0 <= i < |t| ==> |t[i].next| == ALPHABET)
    && (forall i {:trigger t[i].fail} :: 0 <= i < |t| ==> t[i].fail == FailTarget(lb, i))
    && (forall i {:trigger t[i].keyword} :: 0 <= i < |t| ==>
          t[i].keyword == Inherited(lb.at.Keys, words, lb.sp[i]))
    && (forall i, c: Byte {:trigger t[i].next[c]} :: 0 <= i < |t| ==>
          t[i].next[c] == Target(lb, lb.sp[i] + [c]))
  }

  // ---------- Insertion ----------

  ghost function Extend(lb: Labels, s: Word): Labels {
    Labels(lb.sp + [s], lb.at[s := |lb.sp|])
  }

  /** Adding a leaf below node curr keeps the table a trie (lines 72-90 of guardrails.c). */
  lemma AddLeaf(t: seq<AcNode>, lb: Labels, words: set<Word>, curr: int, c: Byte, t': seq<AcNode>)
    requires IsTrie(t, lb, words) && 0 <= curr < |t| && t[curr].next[c] == -1
    requires forall w :: w in words ==> w in lb.at
    requires t' == t[curr := t[curr].(next := t[curr].next[c := |t|])]
                   + [AcNode(seq(ALPHABET, _ => -1), 0, None)]
    ensures IsTrie(t', Extend(lb, lb.sp[curr] + [c]), words)
  {
    var s := lb.sp[curr] + [c];
    var lb' := Extend(lb, s);
    assert Butlast(s) == lb.sp[curr];
    assert lb'.at.Keys == lb.at.Keys + {s};
    assert PrefixClosed(lb'.at.Keys);
    assert Labelled(lb');
    forall i, d: Byte | 0 <= i < |t'| ensures t'[i].next[d] == Index(lb', lb'.sp[i] + [d]) {
      var x := lb'.sp[i] + [d];
      assert Butlast(x) == lb'.sp[i];
      if i < |t| && x == s {
        assert d == x[|x| - 1] == c;
      }
    }
  }

  lemma AttachKeyword(t: seq<AcNode>, lb: Labels, words: set<Word>, curr: int, t': seq<AcNode>)
    requires IsTrie(t, lb, words) && 0 < curr < |t|
    requires t' == t[curr := t[curr].(keyword := Some(lb.sp[curr]))]
    ensures IsTrie(t', lb, words + {lb.sp[curr]})
  {}

  // ---------- Breadth-first construction ----------

  ghost function Parent(lb: Labels, j: int): int
    requires 0 < j < |lb.sp|
  {
    Index(lb, Butlast(lb.sp[j]))
  }

  ghost function LastByte(lb: Labels, j: int): int
    requires 0 <= j < |lb.sp|
  {
    if lb.sp[j] == [] then -1 else lb.sp[j][|lb.sp[j]| - 1]
  }

  ghost function Depth(lb: Labels, j: int): nat
    requires 0 <= j < |lb.sp|
  {
    |lb.sp[j]|
  }

  /** Progress of the breadth-first search: the nodes in done are finished, node cur is finished for
      the bytes below c, the nodes in pend wait in the queue. */
  datatype Bfs = Bfs(done: set<int>, cur: int, c: int, pend: seq<int>) {
    ghost predicate Seen(i: int) { i in done || i == cur || i in pend }
    ghost predicate RowDone(i: int, d: int) { i in done || (i == cur && d < c) }
  }

  /** The queue holds nodes in order of depth, none shallower than the current one and none deeper
      than its children. */
  ghost predicate QueueOk(lb: Labels, b: Bfs) {
    && 0 <= b.cur < |lb.sp| && b.cur !in b.done
    && (forall i :: i in b.done ==> 0 <= i < |lb.sp|)
    && (forall k :: 0 <= k < |b.pend| ==>
          0 <= b.pend[k] < |lb.sp| && b.pend[k] != b.cur && b.pend[k] !in b.done
          && Depth(lb, b.cur) <= Depth(lb, b.pend[k]) <= Depth(lb, b.cur) + 1)
    && (forall k, l :: 0 <= k < l < |b.pend| ==>
          b.pend[k] != b.pend[l] && Depth(lb, b.pend[k]) <= Depth(lb, b.pend[l]))
  }

  /** A node has been seen exactly when its parent's row has been processed up to it. */
  ghost predicate Discovery(lb: Labels, b: Bfs) {
    && b.Seen(0)
    && forall j :: 0 < j < |lb.sp| ==>
         (b.Seen(j) <==> b.RowDone(Parent(lb, j), LastByte(lb, j)))
  }

  ghost predicate RowsOk(t: seq<AcNode>, lb: Labels, b: Bfs)
    requires Labelled(lb)
  {
    && |t| == |lb.sp|
    && (forall i {:trigger t[i].next} :: 0 <= i < |t| ==> |t[i].next| == ALPHABET)
    && (forall i, d: Byte {:trigger t[i].next[d]} :: 0 <= i < |t| ==>
          t[i].next[d] == if b.RowDone(i, d) then Target(lb, lb.sp[i] + [d])
                          else Index(lb, lb.sp[i] + [d]))
  }

  ghost predicate LinksOk(t: seq<AcNode>, lb: Labels, words: set<Word>, b: Bfs)
    requires Labelled(lb) && |t| == |lb.sp|
  {
    && (forall i {:trigger t[i].fail} :: 0 <= i < |t| && b.Seen(i) ==> t[i].fail == FailTarget(lb, i))
    && (forall i {:trigger t[i].keyword} :: 0 <= i < |t| ==>
          t[i].keyword == if b.Seen(i) then Inherited(lb.at.Keys, words, lb.sp[i])
                          else OwnKeyword(words, lb.sp[i]))
  }

  ghost predicate BfsInv(t: seq<AcNode>, lb: Labels, words: set<Word>, b: Bfs)
  {
    && [] !in words && 0 <= b.c <= ALPHABET
    && Labelled(lb) && QueueOk(lb, b) && Discovery(lb, b)
    && RowsOk(t, lb, b) && LinksOk(t, lb, words, b)
  }

  lemma OnlyRootIsEmpty(lb: Labels, j: int)
    requires Labelled(lb) && 0 <= j < |lb.sp|
    ensures lb.sp[j] == [] <==> j == 0
    ensures j != 0 ==> 0 <= Parent(lb, j) < |lb.sp| && Depth(lb, Parent(lb, j)) == Depth(lb, j) - 1
    ensures j != 0 ==> lb.sp[j] == lb.sp[Parent(lb, j)] + [LastByte(lb, j)]
  {
    assert lb.at[lb.sp[0]] == 0;
    assert lb.at[lb.sp[j]] == j;
    if j != 0 {
      assert Butlast(lb.sp[j]) in lb.at.Keys;
    }
  }

  lemma BfsStart(t: seq<AcNode>, lb: Labels, words: set<Word>)
    requires IsTrie(t, lb, words)
    ensures BfsInv(t, lb, words, Bfs({}, 0, 0, []))
  {
    forall j | 0 < j < |lb.sp| ensures LastByte(lb, j) >= 0 {
      OnlyRootIsEmpty(lb, j);
    }
  }

  /** Every node at most as deep as the one being processed has been discovered, and every
      strictly shallower one is finished. This is what breadth-first order buys. */
  lemma {:induction false} ShallowerIsDone(lb: Labels, b: Bfs, j: int)
    requires Labelled(lb) && QueueOk(lb, b) && Discovery(lb, b) && 0 <= j < |lb.sp|
    ensures Depth(lb, j) < Depth(lb, b.cur) ==> j in b.done
    ensures Depth(lb, j) <= Depth(lb, b.cur) ==> b.Seen(j)
    decreases Depth(lb, j)
  {
    OnlyRootIsEmpty(lb, j);
    if j != 0 && Depth(lb, j) <= Depth(lb, b.cur) {
      ShallowerIsDone(lb, b, Parent(lb, j));
    }
  }

  /** The row of the failure state of the current node is finished, and holds the transition that the
      longest proper suffix calls for. */
  lemma FailureRow(t: seq<AcNode>, lb: Labels, words: set<Word>, b: Bfs, c: Byte)
    requires BfsInv(t, lb, words, b) && b.cur != 0
    ensures var f := t[b.cur].fail;
      && 0 <= f < |t| && Depth(lb, f) < Depth(lb, b.cur)
      && t[f].next[c] == Target(lb, (lb.sp[b.cur] + [c])[1..])
      && 0 <= t[f].next[c] < |t|
  {
    var s := lb.sp[b.cur];
    OnlyRootIsEmpty(lb, b.cur);
    var f := t[b.cur].fail;
    assert b.Seen(b.cur);
    assert f == Target(lb, s[1..]);
    ShallowerIsDone(lb, b, f);
    assert b.RowDone(f, c);
    LongestStep(lb.at.Keys, s[1..], c);
    assert (s + [c])[1..] == s[1..] + [c];
  }

  /** The failure link the construction computes for the child of the current node on byte c; also
      what a missing transition is redirected to. */
  ghost function Link(t: seq<AcNode>, r: int, c: Byte): int
    requires 0 <= r < |t| && 0 <= t[r].fail < |t| && |t[t[r].fail].next| == ALPHABET
  {
    if r == 0 then 0 else t[t[r].fail].next[c]
  }

  lemma LinkIsTarget(t: seq<AcNode>, lb: Labels, words: set<Word>, b: Bfs, c: Byte)
    requires BfsInv(t, lb, words, b)
    ensures 0 <= t[b.cur].fail < |t|
    ensures Link(t, b.cur, c) == Target(lb, (lb.sp[b.cur] + [c])[1..])
    ensures 0 <= Link(t, b.cur, c) < |t|
    ensures Depth(lb, Link(t, b.cur, c)) <= Depth(lb, b.cur)
    ensures b.Seen(Link(t, b.cur, c))
  {
    OnlyRootIsEmpty(lb, b.cur);
    if b.cur == 0 {
      assert (lb.sp[0] + [c])[1..] == [];
      assert b.Seen(0);
    } else {
      FailureRow(t, lb, words, b, c);
    }
    ShallowerIsDone(lb, b, Link(t, b.cur, c));
  }

  lemma ChildFacts(t: seq<AcNode>, lb: Labels, words: set<Word>, b: Bfs)
    requires BfsInv(t, lb, words, b) && b.c < ALPHABET
    ensures var u := t[b.cur].next[b.c];
      && u == Index(lb, lb.sp[b.cur] + [b.c])
      && (u != -1 ==> 0 < u < |t| && Parent(lb, u) == b.cur && LastByte(lb, u) == b.c && !b.Seen(u)
                      && Depth(lb, u) == Depth(lb, b.cur) + 1)
  {
    var c: Byte := b.c;
    var u := t[b.cur].next[c];
    assert !b.RowDone(b.cur, c);
    if u != -1 {
      assert lb.sp[u] == lb.sp[b.cur] + [c];
      assert Butlast(lb.sp[u]) == lb.sp[b.cur];
      OnlyRootIsEmpty(lb, u);
    }
  }

  ghost function Discovered(t: seq<AcNode>, u: int, f: int): AcNode
    requires 0 <= u < |t| && 0 <= f < |t|
  {
    t[u].(fail := f, keyword := if t[u].keyword.None? then t[f].keyword else t[u].keyword)
  }

  ghost function Advance(b: Bfs): Bfs { b.(c := b.c + 1) }

  ghost function Enqueue(b: Bfs, u: int): Bfs { b.(c := b.c + 1, pend := b.pend + [u]) }

  lemma ExistingChildQueue(t: seq<AcNode>, lb: Labels, words: set<Word>, b: Bfs)
    requires BfsInv(t, lb, words, b) && b.c < ALPHABET && t[b.cur].next[b.c] != -1
    ensures QueueOk(lb, Enqueue(b, t[b.cur].next[b.c]))
    ensures Discovery(lb, Enqueue(b, t[b.cur].next[b.c]))
  {
    var u := t[b.cur].next[b.c];
    var b' := Enqueue(b, u);
    ChildFacts(t, lb, words, b);
    forall j | 0 < j < |lb.sp|
      ensures b'.Seen(j) <==> b'.RowDone(Parent(lb, j), LastByte(lb, j))
    {
      OnlyRootIsEmpty(lb, j);
      OnlyRootIsEmpty(lb, u);
      if Parent(lb, j) == b.cur && LastByte(lb, j) == b.c {
        assert lb.sp[j] == lb.sp[u];
      }
      assert b'.Seen(j) <==> b.Seen(j) || j == u;
    }
    assert b.Seen(0);
  }

  lemma ExistingChildRows(t: seq<AcNode>, lb: Labels, words: set<Word>, b: Bfs, node: AcNode)
    requires BfsInv(t, lb, words, b) && b.c < ALPHABET && t[b.cur].next[b.c] != -1
    requires 0 <= t[b.cur].next[b.c] < |t| && node.next == t[t[b.cur].next[b.c]].next
    ensures RowsOk(t[t[b.cur].next[b.c] := node], lb, Enqueue(b, t[b.cur].next[b.c]))
  {
    var c: Byte := b.c;
    var u := t[b.cur].next[c];
    ChildFacts(t, lb, words, b);
    var s := lb.sp[b.cur] + [c];
    assert lb.sp[u] == s;
    assert Target(lb, s) == u;
    var t' := t[u := node];
    forall i | 0 <= i < |t'| ensures t'[i].next == t[i].next {}
    RowsStep(t, lb, b, t', Enqueue(b, u));
  }

  /** Only the cell (cur, c) changes its meaning when the scan moves to the next byte. */
  lemma RowsStep(t: seq<AcNode>, lb: Labels, b: Bfs, t': seq<AcNode>, b': Bfs)
    requires Labelled(lb) && RowsOk(t, lb, b) && |t'| == |t|
    requires 0 <= b.c < ALPHABET && 0 <= b.cur < |t|
    requires b'.done == b.done && b'.cur == b.cur && b'.c == b.c + 1 && b.cur !in b.done
    requires forall i :: 0 <= i < |t| ==> |t'[i].next| == ALPHABET
    requires forall i, d: Byte :: 0 <= i < |t| && (i != b.cur || d != b.c) ==> t'[i].next[d] == t[i].next[d]
    requires t'[b.cur].next[b.c] == Target(lb, lb.sp[b.cur] + [b.c])
    ensures RowsOk(t', lb, b')
  {
    forall i, d: Byte | 0 <= i < |t'|
      ensures t'[i].next[d] == if b'.RowDone(i, d) then Target(lb, lb.sp[i] + [d])
                               else Index(lb, lb.sp[i] + [d])
    {
      if i == b.cur && d == b.c {
      } else {
        assert b'.RowDone(i, d) <==> b.RowDone(i, d);
      }
    }
  }

  /** Keyword inheritance: the child announces its own keyword, else what its failure state announces. */
  lemma DiscoveredNode(t: seq<AcNode>, lb: Labels, words: set<Word>, b: Bfs, f: int)
    requires BfsInv(t, lb, words, b) && b.c < ALPHABET && t[b.cur].next[b.c] != -1
    requires 0 <= t[b.cur].fail < |t| && f == Link(t, b.cur, b.c)
    ensures var u := t[b.cur].next[b.c];
      && 0 < u < |t| && 0 <= f < |t|
      && f == FailTarget(lb, u)
      && Discovered(t, u, f).keyword == Inherited(lb.at.Keys, words, lb.sp[u])
  {
    var u := t[b.cur].next[b.c];
    ChildFacts(t, lb, words, b);
    LinkIsTarget(t, lb, words, b, b.c);
    assert t[u].keyword == OwnKeyword(words, lb.sp[u]);
    assert t[f].keyword == Inherited(lb.at.Keys, words, lb.sp[f]);
  }

  lemma ExistingChildLinks(t: seq<AcNode>, lb: Labels, words: set<Word>, b: Bfs, f: int)
    requires BfsInv(t, lb, words, b) && b.c < ALPHABET && t[b.cur].next[b.c] != -1
    requires 0 <= t[b.cur].fail < |t| && f == Link(t, b.cur, b.c)
    ensures var u := t[b.cur].next[b.c];
      && 0 < u < |t| && 0 <= f < |t|
      && LinksOk(t[u := Discovered(t, u, f)], lb, words, Enqueue(b, u))
  {
    var u := t[b.cur].next[b.c];
    DiscoveredNode(t, lb, words, b, f);
    LinksAdd(t, lb, words, b, u, Discovered(t, u, f));
  }

  lemma LinksAdd(t: seq<AcNode>, lb: Labels, words: set<Word>, b: Bfs, u: int, node: AcNode)
    requires Labelled(lb) && |t| == |lb.sp| && LinksOk(t, lb, words, b) && 0 <= u < |t|
    requires node.fail == FailTarget(lb, u) && node.keyword == Inherited(lb.at.Keys, words, lb.sp[u])
    ensures LinksOk(t[u := node], lb, words, Enqueue(b, u))
  {
    var b' := Enqueue(b, u);
    var t' := t[u := node];
    forall i | 0 <= i < |t'|
      ensures b'.Seen(i) ==> t'[i].fail == FailTarget(lb, i)
      ensures t'[i].keyword == if b'.Seen(i) then Inherited(lb.at.Keys, words, lb.sp[i])
                               else OwnKeyword(words, lb.sp[i])
    {
      assert b'.Seen(i) <==> b.Seen(i) || i == u;
      assert i != u ==> t'[i] == t[i];
    }
  }

  /** Lines 134-148 of guardrails.c: the child exists. */
  lemma ExistingChild(t: seq<AcNode>, lb: Labels, words: set<Word>, b: Bfs, f: int)
    requires BfsInv(t, lb, words, b) && b.c < ALPHABET && t[b.cur].next[b.c] != -1
    requires 0 <= t[b.cur].fail < |t| && f == Link(t, b.cur, b.c)
    ensures var u := t[b.cur].next[b.c];
      && 0 < u < |t| && 0 <= f < |t|
      && BfsInv(t[u := Discovered(t, u, f)], lb, words, Enqueue(b, u))
  {
    var u := t[b.cur].next[b.c];
    ExistingChildLinks(t, lb, words, b, f);
    ExistingChildRows(t, lb, words, b, Discovered(t, u, f));
    ExistingChildQueue(t, lb, words, b);
  }

  lemma MissingChildTarget(t: seq<AcNode>, lb: Labels, words: set<Word>, b: Bfs)
    requires BfsInv(t, lb, words, b) && b.c < ALPHABET && t[b.cur].next[b.c] == -1
    ensures 0 <= t[b.cur].fail < |t|
    ensures Link(t, b.cur, b.c) == Target(lb, lb.sp[b.cur] + [b.c])
  {
    ChildFacts(t, lb, words, b);
    LinkIsTarget(t, lb, words, b, b.c);
  }

  lemma MissingChildDiscovery(lb: Labels, b: Bfs)
    requires Labelled(lb) && QueueOk(lb, b) && Discovery(lb, b)
    requires 0 <= b.c < ALPHABET && Index(lb, lb.sp[b.cur] + [b.c]) == -1
    ensures Discovery(lb, Advance(b))
  {
    var b' := Advance(b);
    forall j | 0 < j < |lb.sp|
      ensures b'.Seen(j) <==> b'.RowDone(Parent(lb, j), LastByte(lb, j))
    {
      OnlyRootIsEmpty(lb, j);
      assert lb.sp[j] in lb.at;
    }
    assert b.Seen(0);
  }

  /** Lines 149-155: a missing transition is redirected to the failure state's transition. */
  lemma MissingChild(t: seq<AcNode>, lb: Labels, words: set<Word>, b: Bfs, v: int)
    requires BfsInv(t, lb, words, b) && b.c < ALPHABET && t[b.cur].next[b.c] == -1
    requires 0 <= t[b.cur].fail < |t| && v == Link(t, b.cur, b.c)
    ensures BfsInv(t[b.cur := t[b.cur].(next := t[b.cur].next[b.c := v])], lb, words, Advance(b))
  {
    var t' := t[b.cur := t[b.cur].(next := t[b.cur].next[b.c := v])];
    MissingChildTarget(t, lb, words, b);
    ChildFacts(t, lb, words, b);
    MissingChildDiscovery(lb, b);
    RowsStep(t, lb, b, t', Advance(b));
    LinksTransfer(t, lb, words, b, t', Advance(b));
  }

  lemma LinksTransfer(t: seq<AcNode>, lb: Labels, words: set<Word>, b: Bfs, t': seq<AcNode>, b': Bfs)
    requires Labelled(lb) && |t| == |t'| == |lb.sp| && LinksOk(t, lb, words, b)
    requires forall i :: 0 <= i < |t| ==> t'[i].fail == t[i].fail && t'[i].keyword == t[i].keyword
    requires forall i :: b'.Seen(i) <==> b.Seen(i)
    ensures LinksOk(t', lb, words, b')
  {}

  lemma RowsTransfer(t: seq<AcNode>, lb: Labels, b: Bfs, b': Bfs)
    requires Labelled(lb) && RowsOk(t, lb, b)
    requires forall i, d: Byte :: b'.RowDone(i, d) <==> b.RowDone(i, d)
    ensures RowsOk(t, lb, b')
  {}

  ghost function NextBfs(b: Bfs): Bfs
    requires b.pend != []
  {
    Bfs(b.done + {b.cur}, b.pend[0], 0, b.pend[1..])
  }

  lemma NextNodeQueue(lb: Labels, b: Bfs)
    requires QueueOk(lb, b) && b.pend != []
    ensures QueueOk(lb, NextBfs(b))
    ensures forall i :: NextBfs(b).Seen(i) <==> b.Seen(i)
  {
    var b' := NextBfs(b);
    assert b.pend == [b.pend[0]] + b'.pend;
    forall k | 0 <= k < |b'.pend| ensures b'.pend[k] == b.pend[k + 1] {}
  }

  /** The current row is complete: the next queued node becomes current. */
  lemma NextNode(t: seq<AcNode>, lb: Labels, words: set<Word>, b: Bfs)
    requires BfsInv(t, lb, words, b) && b.c == ALPHABET && b.pend != []
    ensures BfsInv(t, lb, words, NextBfs(b))
  {
    var b' := NextBfs(b);
    NextNodeQueue(lb, b);
    RowsTransfer(t, lb, b, b');
    LinksTransfer(t, lb, words, b, t, b');
    NextNodeDiscovery(lb, b, b');
  }

  lemma NextNodeDiscovery(lb: Labels, b: Bfs, b': Bfs)
    requires Labelled(lb) && QueueOk(lb, b) && Discovery(lb, b)
    requires b.c == ALPHABET && b'.c == 0 && b'.done == b.done + {b.cur}
    requires forall i :: b'.Seen(i) <==> b.Seen(i)
    ensures Discovery(lb, b')
  {
    forall j | 0 < j < |lb.sp|
      ensures b'.Seen(j) <==> b'.RowDone(Parent(lb, j), LastByte(lb, j))
    {
      OnlyRootIsEmpty(lb, j);
    }
  }

  lemma {:induction false} AllReached(lb: Labels, b: Bfs, i: int)
    requires Labelled(lb) && QueueOk(lb, b) && Discovery(lb, b)
    requires b.c == ALPHABET && b.pend == [] && 0 <= i < |lb.sp|
    ensures b.Seen(i)
    decreases Depth(lb, i)
  {
    OnlyRootIsEmpty(lb, i);
    if i != 0 {
      AllReached(lb, b, Parent(lb, i));
    }
  }

  /** The queue is exhausted: every node was reached, and the table is the automaton. */
  lemma Finished(t: seq<AcNode>, lb: Labels, words: set<Word>, b: Bfs)
    requires BfsInv(t, lb, words, b) && b.c == ALPHABET && b.pend == []
    ensures IsDfa(t, lb, words)
    ensures forall i :: 0 <= i < |t| ==> b.Seen(i)
  {
    forall i | 0 <= i < |t| ensures b.Seen(i) {
      AllReached(lb, b, i);
    }
    forall i, d: Byte | 0 <= i < |t| ensures t[i].next[d] == Target(lb, lb.sp[i] + [d]) {
      assert b.Seen(i);
      assert b.RowDone(i, d);
    }
  }
}
