/** The keyword automaton of src/policy/guardrails.c, lines 24-162: a growable node table, keyword
    insertion, the breadth-first pass that turns the trie into an automaton in place, and the search. */
module AhoCorasick {
  import opened Options
  import opened LongestSuffix
  import opened AcTable

  const INIT_CAP := 256

  /** w is the longest keyword ending at position i of text, and no keyword ends before i. */
  ghost predicate FirstHit(words: set<Word>, text: seq<Byte>, i: int, w: Word) {
    && 0 <= i <= |text| && w in words && IsSuffix(w, text[..i])
    && (forall v :: v in words && IsSuffix(v, text[..i]) ==> |v| <= |w|)
    && (forall j, v :: 0 <= j < i && v in words ==> !IsSuffix(v, text[..j]))
  }

  // ---------- What the finished table means ----------

  /** Every row is total and in range, and every failure link goes to a strictly shallower node. */
  lemma DfaIsTotal(t: seq<AcNode>, lb: Labels, words: set<Word>, i: int, c: Byte)
    requires IsDfa(t, lb, words) && 0 <= i < |t|
    ensures 0 <= t[i].next[c] < |t|
    ensures 0 <= t[i].fail < |t|
    ensures i != 0 ==> Depth(lb, t[i].fail) < Depth(lb, i)
  {
    OnlyRootIsEmpty(lb, i);
  }

  /** Reading a text byte by byte from the root. */
  ghost function Run(t: seq<AcNode>, text: seq<Byte>): int
  {
    if text == [] then 0
    else
      var s := Run(t, text[..|text| - 1]);
      if 0 <= s < |t| && |t[s].next| == ALPHABET then t[s].next[text[|text| - 1]] else -1
  }

  lemma {:induction false} RunIsTarget(t: seq<AcNode>, lb: Labels, words: set<Word>, text: seq<Byte>)
    requires IsDfa(t, lb, words)
    ensures 0 <= Run(t, text) < |t| && Run(t, text) == Target(lb, text)
  {
    if text == [] {
      assert lb.at[lb.sp[0]] == 0;
    } else {
      var front, c := text[..|text| - 1], text[|text| - 1];
      RunIsTarget(t, lb, words, front);
      LongestStep(lb.at.Keys, front, c);
      assert text == front + [c];
      var s := Run(t, front);
      assert |t[s].next| == ALPHABET;
    }
  }

  /** The state reached on any text spells the longest suffix of it that is a trie path. */
  lemma RunIsLongestSuffix(t: seq<AcNode>, lb: Labels, words: set<Word>, text: seq<Byte>)
    requires IsDfa(t, lb, words) && PathsArePrefixes(lb, words)
    ensures 0 <= Run(t, text) < |t|
    ensures var s := lb.sp[Run(t, text)];
      && IsSuffix(s, text) && IsPath(words, s)
      && forall p :: IsPath(words, p) && IsSuffix(p, text) ==> |p| <= |s|
  {
    RunIsTarget(t, lb, words, text);
    LongestIsLongest(lb.at.Keys, text);
    forall p | IsPath(words, p) ensures p in lb.at.Keys {}
  }

  /** The keyword announced by the state reached on text is the longest one ending there. */
  lemma StateAnnounces(t: seq<AcNode>, lb: Labels, words: set<Word>, text: seq<Byte>)
    requires IsDfa(t, lb, words) && PathsArePrefixes(lb, words)
    ensures 0 <= Run(t, text) < |t|
    ensures var k := t[Run(t, text)].keyword;
      && (k.None? ==> forall w :: w in words ==> !IsSuffix(w, text))
      && (k.Some? ==> k.value in words && IsSuffix(k.value, text)
                      && forall w :: w in words && IsSuffix(w, text) ==> |w| <= |k.value|)
  {
    var paths := lb.at.Keys;
    RunIsTarget(t, lb, words, text);
    var s := Longest(paths, text);
    forall w | w in words ensures w in paths { assert w <= w; assert IsPath(words, w); }
    InheritedIsLongestKeyword(paths, words, s);
    forall w | w in words ensures IsSuffix(w, text) <==> IsSuffix(w, s) {
      KeywordEndsAtState(paths, text, w);
    }
  }

  // ---------- The queue ----------

  /** The nodes queued so far, root first: each once, by depth. */
  ghost predicate OrderOk(lb: Labels, b: Bfs, order: seq<int>) {
    && 0 <= b.cur < |lb.sp|
    && (forall i :: i in order <==> b.Seen(i))
    && (forall k :: 0 <= k < |order| ==>
          0 <= order[k] < |lb.sp| && Depth(lb, order[k]) <= Depth(lb, b.cur) + 1)
    && (forall k, l :: 0 <= k < l < |order| ==>
          order[k] != order[l] && Depth(lb, order[k]) <= Depth(lb, order[l]))
  }

  lemma {:induction false} DistinctBounded(s: seq<int>, n: nat)
    requires forall k :: 0 <= k < |s| ==> 0 <= s[k] < n
    requires forall k, l :: 0 <= k < l < |s| ==> s[k] != s[l]
    ensures |s| <= n
  {
    if n == 0 {
    } else if exists k :: 0 <= k < |s| && s[k] == n - 1 {
      var k :| 0 <= k < |s| && s[k] == n - 1;
      DistinctBounded(s[..k] + s[k + 1..], n - 1);
    } else {
      DistinctBounded(s, n - 1);
    }
  }

  lemma PushOrder(t: seq<AcNode>, lb: Labels, words: set<Word>, b: Bfs, order: seq<int>)
    requires BfsInv(t, lb, words, b) && b.c < ALPHABET && t[b.cur].next[b.c] != -1
    requires OrderOk(lb, b, order)
    ensures OrderOk(lb, Enqueue(b, t[b.cur].next[b.c]), order + [t[b.cur].next[b.c]])
    ensures |order| < |lb.sp|
  {
    var u := t[b.cur].next[b.c];
    ChildFacts(t, lb, words, b);
    var b' := Enqueue(b, u);
    forall i ensures b'.Seen(i) <==> b.Seen(i) || i == u {}
    DistinctBounded(order + [u], |lb.sp|);
  }

  lemma RootHasNoKeyword(t: seq<AcNode>, lb: Labels, words: set<Word>, b: Bfs)
    requires BfsInv(t, lb, words, b)
    ensures t[0].keyword.None?
  {
    assert b.Seen(0);
  }

  // ---------- One step of the construction ----------

  /** The table, the search's position in it, and the nodes queued so far (root first). */
  datatype Progress = Progress(t: seq<AcNode>, b: Bfs, order: seq<int>)

  ghost predicate Good(lb: Labels, words: set<Word>, p: Progress) {
    BfsInv(p.t, lb, words, p.b) && OrderOk(lb, p.b, p.order)
  }

  ghost predicate VisitDefined(t: seq<AcNode>, r: int, c: Byte) {
    && 0 <= r < |t| && |t[r].next| == ALPHABET
    && 0 <= t[r].fail < |t| && |t[t[r].fail].next| == ALPHABET
    && 0 <= Link(t, r, c) < |t|
    && (t[r].next[c] == -1 || 0 <= t[r].next[c] < |t|)
    && t[0].keyword.None?
  }

  ghost function VisitTable(t: seq<AcNode>, r: int, c: Byte): seq<AcNode>
    requires VisitDefined(t, r, c)
  {
    var u := t[r].next[c];
    if u != -1 then t[u := Discovered(t, u, Link(t, r, c))]
    else t[r := t[r].(next := t[r].next[c := Link(t, r, c)])]
  }

  ghost function VisitQueued(t: seq<AcNode>, r: int, c: Byte): seq<int>
    requires VisitDefined(t, r, c)
  {
    if t[r].next[c] != -1 then [t[r].next[c]] else []
  }

  ghost function Visit(p: Progress): Progress {
    if 0 <= p.b.c < ALPHABET && VisitDefined(p.t, p.b.cur, p.b.c) then
      var more := VisitQueued(p.t, p.b.cur, p.b.c);
      Progress(VisitTable(p.t, p.b.cur, p.b.c), p.b.(c := p.b.c + 1, pend := p.b.pend + more), p.order + more)
    else p
  }

  /** n bytes of the current row. */
  ghost function Visits(p: Progress, n: nat): Progress {
    if n == 0 then p else Visit(Visits(p, n - 1))
  }

  lemma VisitIsDefined(lb: Labels, words: set<Word>, p: Progress)
    requires Good(lb, words, p) && p.b.c < ALPHABET
    ensures 0 <= p.b.c && VisitDefined(p.t, p.b.cur, p.b.c)
    ensures |p.order + VisitQueued(p.t, p.b.cur, p.b.c)| <= |p.t|
  {
    LinkIsTarget(p.t, lb, words, p.b, p.b.c);
    ChildFacts(p.t, lb, words, p.b);
    RootHasNoKeyword(p.t, lb, words, p.b);
    if p.t[p.b.cur].next[p.b.c] != -1 {
      PushOrder(p.t, lb, words, p.b, p.order);
    } else {
      OrderAdvance(lb, p.b, p.order);
    }
  }

  lemma VisitStep(lb: Labels, words: set<Word>, p: Progress)
    requires Good(lb, words, p) && p.b.c < ALPHABET
    ensures Good(lb, words, Visit(p)) && Visit(p).b.c == p.b.c + 1
  {
    hide BfsInv, OrderOk;
    VisitIsDefined(lb, words, p);
    VisitStepAt(lb, words, p.t, p.b, p.order, p.b.c);
  }

  lemma VisitStepAt(lb: Labels, words: set<Word>, t: seq<AcNode>, b: Bfs, order: seq<int>, c: Byte)
    requires BfsInv(t, lb, words, b) && OrderOk(lb, b, order) && b.c == c && VisitDefined(t, b.cur, c)
    ensures var more := VisitQueued(t, b.cur, c); var b' := b.(c := c + 1, pend := b.pend + more);
      BfsInv(VisitTable(t, b.cur, c), lb, words, b') && OrderOk(lb, b', order + more)
  {
    hide BfsInv, OrderOk;
    if t[b.cur].next[c] != -1 {
      ExistingChild(t, lb, words, b, Link(t, b.cur, c));
      PushOrder(t, lb, words, b, order);
    } else {
      MissingChild(t, lb, words, b, Link(t, b.cur, c));
      OrderAdvance(lb, b, order);
      assert b.pend + [] == b.pend && order + [] == order;
    }
  }

  lemma OrderAdvance(lb: Labels, b: Bfs, order: seq<int>)
    requires OrderOk(lb, b, order)
    ensures OrderOk(lb, Advance(b), order) && |order| <= |lb.sp|
  {
    DistinctBounded(order, |lb.sp|);
  }

  lemma {:induction false} VisitsGood(lb: Labels, words: set<Word>, p: Progress, n: nat)
    requires Good(lb, words, p) && p.b.c == 0 && n <= ALPHABET
    ensures Good(lb, words, Visits(p, n)) && Visits(p, n).b.c == n
  {
    hide Good, Visit;
    if n > 0 {
      VisitsGood(lb, words, p, n - 1);
      VisitStep(lb, words, Visits(p, n - 1));
    }
  }

  /** What the scan of a row leaves alone, and what it queues. */
  ghost predicate Frame(p: Progress, q: Progress) {
    && q.b.cur == p.b.cur && q.b.done == p.b.done && |q.t| == |p.t|
    && p.order <= q.order && q.b.pend == p.b.pend + q.order[|p.order|..]
  }

  lemma VisitFrame(p: Progress)
    ensures Frame(p, Visit(p))
  {
    assert p.b.pend + p.order[|p.order|..] == p.b.pend;
  }

  lemma {:induction false} VisitsFrame(p: Progress, n: nat)
    ensures Frame(p, Visits(p, n))
  {
    hide Visit;
    if n > 0 {
      VisitsFrame(p, n - 1);
      VisitFrame(Visits(p, n - 1));
    } else {
      assert p.b.pend + p.order[|p.order|..] == p.b.pend;
    }
  }

  lemma NextRow(lb: Labels, words: set<Word>, p: Progress)
    requires Good(lb, words, p) && p.b.c == ALPHABET && p.b.pend != []
    ensures Good(lb, words, p.(b := NextBfs(p.b)))
    ensures 0 <= p.b.pend[0] < |p.t|
  {
    NextNode(p.t, lb, words, p.b);
    NextNodeQueue(lb, p.b);
  }

  lemma StartGood(t: seq<AcNode>, lb: Labels, words: set<Word>)
    requires IsTrie(t, lb, words)
    ensures Good(lb, words, Progress(t, Bfs({}, 0, 0, []), [0]))
  {
    BfsStart(t, lb, words);
  }

  lemma BfsComplete(lb: Labels, words: set<Word>, p: Progress)
    requires Good(lb, words, p) && p.b.c == ALPHABET && p.b.pend == []
    ensures IsDfa(p.t, lb, words) && BreadthFirst(lb, p.order)
  {
    Finished(p.t, lb, words, p.b);
  }

  /** The first tail cells of the queue array are the nodes queued so far. */
  ghost predicate QueueHolds(queue: seq<int>, tail: nat, order: seq<int>) {
    && |order| == tail + 1 <= |queue|
    && forall k :: 0 <= k < tail ==> queue[k] == order[k + 1]
  }

  /** order lists every node exactly once, shallower nodes first. */
  ghost predicate BreadthFirst(lb: Labels, order: seq<int>) {
    && (forall i :: i in order <==> 0 <= i < |lb.sp|)
    && (forall k, l :: 0 <= k < l < |order| ==>
          order[k] != order[l] && 0 <= order[k] < |lb.sp| && 0 <= order[l] < |lb.sp|
          && Depth(lb, order[k]) <= Depth(lb, order[l]))
  }

  // ---------- Insertion in progress ----------

  /** The first k bytes of the keyword are paths, beside the prefixes of the earlier keywords. */
  ghost predicate PartlyInserted(lb: Labels, words: set<Word>, keyword: Word, k: int) {
    && 0 <= k <= |keyword|
    && forall s {:trigger s in lb.at} {:trigger IsPath(words, s)} :: s in lb.at <==>
         IsPath(words, s) || (s <= keyword && |s| <= k)
  }

  lemma PartlyInsertedStep(lb: Labels, words: set<Word>, keyword: Word, k: int)
    requires PartlyInserted(lb, words, keyword, k) && k < |keyword|
    ensures PartlyInserted(Extend(lb, keyword[..k + 1]), words, keyword, k + 1)
  {
    assert forall s :: s <= keyword && |s| == k + 1 ==> s == keyword[..k + 1];
  }

  lemma PartlyInsertedKnown(lb: Labels, words: set<Word>, keyword: Word, k: int)
    requires PartlyInserted(lb, words, keyword, k) && k < |keyword| && keyword[..k + 1] in lb.at
    ensures PartlyInserted(lb, words, keyword, k + 1)
  {
    assert forall s :: s <= keyword && |s| == k + 1 ==> s == keyword[..k + 1];
  }

  lemma PartlyInsertedDone(lb: Labels, words: set<Word>, keyword: Word)
    requires PartlyInserted(lb, words, keyword, |keyword|)
    ensures PathsArePrefixes(lb, words + {keyword})
  {
    assert keyword in words + {keyword};
    forall s ensures IsPath(words + {keyword}, s) <==> IsPath(words, s) || s <= keyword {
      if s <= keyword {
      } else if IsPath(words, s) && s != [] {
        var w :| w in words && s <= w;
        assert w in words + {keyword};
      }
    }
  }

  lemma NoKeywords(lb: Labels, words: set<Word>)
    requires Labelled(lb) && |lb.sp| == 1 && PathsArePrefixes(lb, words) && [] !in words
    ensures words == {}
  {
    if words != {} {
      var w :| w in words;
      assert w <= w && IsPath(words, w);
    }
  }

  lemma EmptyTextHasNoKeyword(lb: Labels, words: set<Word>, text: seq<Byte>, count: nat)
    requires count <= 1 ==> words == {}
    requires count > 1 ==> [] !in words && |text| == 0
    ensures forall w :: w in words ==> !Occurs(w, text)
  {}

  lemma HitOccurs(words: set<Word>, text: seq<Byte>, i: int, w: Word)
    requires FirstHit(words, text, i, w)
    ensures exists v :: v in words && Occurs(v, text)
  {
    assert Occurs(w, text);
  }

  /** No keyword ends in the first i bytes. */
  ghost predicate Quiet(words: set<Word>, text: seq<Byte>, i: int) {
    forall j, w :: 0 <= j <= i && j <= |text| && w in words ==> !IsSuffix(w, text[..j])
  }

  lemma NoHit(words: set<Word>, text: seq<Byte>)
    requires Quiet(words, text, |text|)
    ensures forall w :: w in words ==> !Occurs(w, text)
  {}

  lemma SearchStep(t: seq<AcNode>, lb: Labels, words: set<Word>, text: seq<Byte>, i: int)
    requires IsDfa(t, lb, words) && PathsArePrefixes(lb, words)
    requires 0 <= i < |text| && Quiet(words, text, i) && 0 <= Run(t, text[..i]) < |t|
    ensures var s := Run(t, text[..i]); var s' := t[s].next[text[i]];
      && 0 <= s' < |t| && s' == Run(t, text[..i + 1])
      && (t[s'].keyword.None? ==> Quiet(words, text, i + 1))
      && (t[s'].keyword.Some? ==> FirstHit(words, text, i + 1, t[s'].keyword.value))
  {
    assert text[..i + 1][..i] == text[..i];
    DfaIsTotal(t, lb, words, Run(t, text[..i]), text[i]);
    StateAnnounces(t, lb, words, text[..i + 1]);
  }

  class AcTrie {
    var nodes: array<AcNode>
    var count: nat
    ghost var words: set<Word>
    ghost var labels: Labels

    ghost function Table(): seq<AcNode>
      requires count <= nodes.Length
      reads this, nodes
    {
      nodes[..count]
    }

    /** Before the failure links are built: a trie whose paths are the prefixes of the keywords. */
    ghost predicate Building()
      reads this, nodes
    {
      && 1 <= count <= nodes.Length
      && IsTrie(Table(), labels, words) && PathsArePrefixes(labels, words)
    }

    /** After: an automaton over the same paths. An empty trie is left as it is. */
    ghost predicate Ready()
      reads this, nodes
    {
      && 1 <= count <= nodes.Length
      && PathsArePrefixes(labels, words)
      && (if count == 1 then words == {} else IsDfa(Table(), labels, words))
    }

    constructor ()
      ensures Building() && words == {} && fresh(nodes) && nodes.Length == INIT_CAP
    {
      nodes := new AcNode[INIT_CAP](_ => AcNode(seq(ALPHABET, _ => -1), 0, None));
      count := 1;
      words := {};
      labels := Labels([[]], map[[] := 0]);
      new;
      assert forall s: Word {:trigger Butlast(s)} :: s in labels.at.Keys ==> Butlast(s) in labels.at.Keys;
      assert Labelled(labels);
    }

    /** ac_trie_insert: an empty keyword is refused, any other is added. */
    method Insert(keyword: Word) returns (ok: bool)
      requires Building()
      modifies this, nodes
      ensures Building()
      ensures ok <==> keyword != []
      ensures words == if ok then old(words) + {keyword} else old(words)
      ensures nodes == old(nodes) || fresh(nodes)
    {
      if keyword == [] {
        return false;
      }
      var curr := 0;
      for i := 0 to |keyword|
        invariant 1 <= count <= nodes.Length && words == old(words)
        invariant nodes == old(nodes) || fresh(nodes)
        invariant IsTrie(Table(), labels, words)
        invariant 0 <= curr < count && labels.sp[curr] == keyword[..i]
        invariant PartlyInserted(labels, words, keyword, i)
      {
        assert keyword[..i + 1] == keyword[..i] + [keyword[i]];
        ghost var s := keyword[..i + 1];
        if nodes[curr].next[keyword[i]] == -1 {
          PartlyInsertedStep(labels, words, keyword, i);
          AddChild(curr, keyword[i]);
        } else {
          assert Table()[curr].next[keyword[i]] == Index(labels, s);
          PartlyInsertedKnown(labels, words, keyword, i);
        }
        assert Table()[curr].next[keyword[i]] == Index(labels, s);
        curr := nodes[curr].next[keyword[i]];
      }
      assert keyword[..|keyword|] == keyword;
      Attach(curr, keyword);
      PartlyInsertedDone(labels, old(words), keyword);
      ok := true;
    }

    /** A new node below curr on byte c, growing the table when it is full. */
    method AddChild(curr: nat, c: Byte)
      requires 1 <= count <= nodes.Length && curr < count
      requires IsTrie(Table(), labels, words) && nodes[curr].next[c] == -1
      requires forall w :: w in words ==> w in labels.at
      modifies this`nodes, this`count, this`labels, nodes
      ensures count == old(count) + 1 <= nodes.Length
      ensures labels == Extend(old(labels), old(labels).sp[curr] + [c])
      ensures IsTrie(Table(), labels, words)
      ensures nodes == old(nodes) || fresh(nodes)
    {
      ghost var t := Table();
      if count >= nodes.Length {
        Grow();
      }
      var nextIdx := count;
      count := count + 1;
      nodes[nextIdx] := AcNode(seq(ALPHABET, _ => -1), 0, None);
      nodes[curr] := nodes[curr].(next := nodes[curr].next[c := nextIdx]);
      AddLeaf(t, labels, words, curr, c, Table());
      labels := Extend(labels, labels.sp[curr] + [c]);
    }

    /** The keyword ends at node curr. */
    method Attach(curr: nat, keyword: Word)
      requires 1 <= count <= nodes.Length && curr < count && keyword != []
      requires IsTrie(Table(), labels, words) && labels.sp[curr] == keyword
      modifies nodes, this`words
      ensures IsTrie(Table(), labels, words) && words == old(words) + {keyword}
    {
      ghost var t := Table();
      OnlyRootIsEmpty(labels, curr);
      assert t[curr].keyword == OwnKeyword(words, keyword);
      if nodes[curr].keyword.None? {
        nodes[curr] := nodes[curr].(keyword := Some(keyword));
      }
      assert Table() == t[curr := t[curr].(keyword := Some(keyword))];
      AttachKeyword(t, labels, words, curr, Table());
      words := words + {keyword};
    }

    /** The node table is full: double its capacity. */
    method Grow()
      requires 1 <= count <= nodes.Length
      modifies this`nodes
      ensures fresh(nodes) && count < nodes.Length && nodes[..count] == old(nodes[..count])
    {
      var bigger := new AcNode[nodes.Length * 2](_ => AcNode([], 0, None));
      forall i | 0 <= i < count {
        bigger[i] := nodes[i];
      }
      nodes := bigger;
    }

    /** One byte of one row: the child of node r on c is linked and queued, or the missing transition
        is redirected (lines 132-157, and lines 119-127 for the root). */
    method VisitByte(queue: array<int>, tail: nat, r: nat, c: Byte, ghost t: seq<AcNode>, ghost order: seq<int>)
      returns (tail': nat)
      requires count <= nodes.Length && nodes[..count] == t && VisitDefined(t, r, c)
      requires QueueHolds(queue[..], tail, order) && |order + VisitQueued(t, r, c)| <= queue.Length
      modifies nodes, queue
      ensures nodes[..count] == VisitTable(t, r, c)
      ensures QueueHolds(queue[..], tail', order + VisitQueued(t, r, c))
    {
      var u := nodes[r].next[c];
      var failState := nodes[r].fail;
      var f := if r == 0 then 0 else nodes[failState].next[c];
      tail' := tail;
      if u != -1 {
        LinkChild(u, f, t);
        queue[tail] := u;
        tail' := tail + 1;
      } else {
        nodes[r] := nodes[r].(next := nodes[r].next[c := f]);
      }
    }

    /** Set the failure link of u and let it inherit the keyword announced there. */
    method LinkChild(u: nat, f: nat, ghost t: seq<AcNode>)
      requires count <= nodes.Length && u < count && f < count && nodes[..count] == t
      modifies nodes
      ensures nodes[..count] == t[u := Discovered(t, u, f)]
    {
      nodes[u] := nodes[u].(fail := f);
      if nodes[u].keyword.None? && nodes[nodes[u].fail].keyword.Some? {
        nodes[u] := nodes[u].(keyword := nodes[nodes[u].fail].keyword);
      }
    }

    /** One row, byte by byte: the loops of lines 119-127 (r is the root) and 132-157. */
    method VisitRow(queue: array<int>, tail: nat, r: nat, ghost p: Progress)
      returns (tail': nat)
      requires 1 <= count <= nodes.Length && nodes[..count] == p.t && queue.Length == count
      requires Good(labels, words, p) && p.b.cur == r && p.b.c == 0
      requires QueueHolds(queue[..], tail, p.order)
      modifies nodes, queue
      ensures nodes[..count] == Visits(p, ALPHABET).t
      ensures QueueHolds(queue[..], tail', Visits(p, ALPHABET).order)
    {
      hide Good;
      tail' := tail;
      for c := 0 to ALPHABET
        invariant nodes[..count] == Visits(p, c).t
        invariant QueueHolds(queue[..], tail', Visits(p, c).order)
      {
        ghost var q := Visits(p, c);
        VisitsGood(labels, words, p, c);
        VisitsFrame(p, c);
        VisitIsDefined(labels, words, q);
        assert Visits(p, c + 1) == Visit(q);
        tail' := VisitByte(queue, tail', r, c, q.t, q.order);
      }
    }

    /** The queue loop of lines 130-158, after the root's row has seeded the queue. The ghost result is
        the breadth-first order. */
    method BreadthFirstPass() returns (ghost order: seq<int>)
      requires 1 <= count <= nodes.Length && IsTrie(nodes[..count], labels, words)
      modifies nodes
      ensures IsDfa(nodes[..count], labels, words) && BreadthFirst(labels, order)
    {
      hide Good, BreadthFirst, IsDfa, IsTrie, Visits;
      var queue := new int[count];
      ghost var p := Progress(nodes[..count], Bfs({}, 0, 0, []), [0]);
      StartGood(p.t, labels, words);
      VisitsGood(labels, words, p, ALPHABET);
      VisitsFrame(p, ALPHABET);
      var head := 0;
      var tail := VisitRow(queue, 0, 0, p);
      p := Visits(p, ALPHABET);
      while head < tail
        invariant 0 <= head <= tail && queue.Length == count
        invariant nodes[..count] == p.t && Good(labels, words, p) && p.b.c == ALPHABET
        invariant QueueHolds(queue[..], tail, p.order)
        invariant p.b.pend == p.order[1 + head..]
        decreases count - head
      {
        var r := queue[head];
        NextRow(labels, words, p);
        p := p.(b := NextBfs(p.b));
        VisitsGood(labels, words, p, ALPHABET);
        VisitsFrame(p, ALPHABET);
        head := head + 1;
        tail := VisitRow(queue, tail, r, p);
        p := Visits(p, ALPHABET);
      }
      order := p.order;
      BfsComplete(labels, words, p);
    }

    /** ac_trie_build_failure_links. The ghost result lists every node once, shallower nodes first. */
    method BuildFailureLinks() returns (ghost order: seq<int>)
      requires Building()
      modifies nodes
      ensures Ready()
      ensures count > 1 ==> BreadthFirst(labels, order)
    {
      order := [0];
      if count <= 1 {
        NoKeywords(labels, words);
        return;
      }
      order := BreadthFirstPass();
    }

    /** ac_trie_search: NULL exactly when no keyword occurs; otherwise the longest keyword ending at
        the earliest position where any keyword ends. */
    method Search(text: seq<Byte>) returns (hit: Option<Word>)
      requires Ready()
      ensures hit.None? <==> forall w :: w in words ==> !Occurs(w, text)
      ensures hit.Some? ==> exists i :: FirstHit(words, text, i, hit.value)
    {
      if count <= 1 || |text| == 0 {
        EmptyTextHasNoKeyword(labels, words, text, count);
        return None;
      }
      ghost var t := Table();
      var state := 0;
      for i := 0 to |text|
        invariant t == Table() && 0 <= state < count
        invariant state == Run(t, text[..i])
        invariant Quiet(words, text, i)
      {
        SearchStep(t, labels, words, text, i);
        state := nodes[state].next[text[i]];
        if nodes[state].keyword.Some? {
          HitOccurs(words, text, i + 1, nodes[state].keyword.value);
          return nodes[state].keyword;
        }
      }
      NoHit(words, text);
      return None;
    }
  }
}
