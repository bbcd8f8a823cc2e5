/** The skip list (include/skip_list.h): a head sentinel with MAX_LEVEL link
    slots, the number of levels in use and the number of stored keys. Nodes
    live in an arena (`nodes`, the head at index 0) and link to each other by
    index. Ghost state gives the abstract view: `Chain`, the arena indices
    along level 0 starting with the head, and `Contents`, the stored keys in
    ascending order. */
module SkipLists {
  import opened Nodes
  import opened OrderedSeqs
  import opened Towers

  /** The head's number of link slots, and the tallest a node may be. */
  const MAX_LEVEL: nat := 16

  datatype Option<T> = None | Some(value: T)

  // ---------------------------------------------------------------------------
  // The representation invariant, stated over plain values.

  /** Every chain position names an arena cell. */
  ghost predicate InArena(nodes: seq<Node>, chain: seq<nat>) {
    forall p :: 0 <= p < |chain| ==> chain[p] < |nodes|
  }

  /** The height (number of link slots) of the node at each chain position. */
  ghost function Heights(nodes: seq<Node>, chain: seq<nat>): (hs: seq<nat>)
    requires InArena(nodes, chain)
    // Both ensures are trigger aids for the quantified invariants that read heights.
    ensures |hs| == |chain|
    ensures forall p :: 0 <= p < |chain| ==> hs[p] == |nodes[chain[p]].next|
  {
    seq(|chain|, p requires 0 <= p < |chain| => |nodes[chain[p]].next|)
  }

  /** Every level is the sub-chain of level 0 made of the nodes tall enough to
      occupy it: on level `l` each node links to the next node along level 0
      that has more than `l` slots, or to null. */
  ghost predicate Linked(nodes: seq<Node>, chain: seq<nat>)
    requires InArena(nodes, chain)
  {
    forall p, l {:trigger nodes[chain[p]].next[l]} :: 0 <= p < |chain| && 0 <= l < |nodes[chain[p]].next| ==>
      nodes[chain[p]].next[l] == LinkTo(chain, NextAt(Heights(nodes, chain), p, l))
  }

  /** Chain position p > 0 is a real node holding the (p-1)-th key, with 1 to
      MAX_LEVEL slots. */
  ghost predicate Cells(nodes: seq<Node>, chain: seq<nat>, contents: seq<int>)
    requires InArena(nodes, chain) && |chain| == |contents| + 1
  {
    forall p :: 1 <= p < |chain| ==>
      && nodes[chain[p]].Node?
      && nodes[chain[p]].value == contents[p - 1]
      && 1 <= |nodes[chain[p]].next| <= MAX_LEVEL
  }

  /** The head is a 16-slot dummy at index 0; level 0 holds the stored keys in
      strictly ascending order, one node each; every node has 1..16 slots and
      every level is linked as `Linked` says. */
  ghost predicate Shape(nodes: seq<Node>, chain: seq<nat>, contents: seq<int>) {
    && 0 < |nodes| && nodes[0].Dummy? && |nodes[0].next| == MAX_LEVEL
    && |chain| == |contents| + 1 && chain[0] == 0
    && InArena(nodes, chain)
    && Cells(nodes, chain, contents)
    && Sorted(contents)
    && Linked(nodes, chain)
  }

  /** `level` is the number of levels in use: no node is taller, and some node
      is that tall unless the list is empty. */
  ghost predicate LevelsOk(nodes: seq<Node>, chain: seq<nat>, level: nat)
    requires InArena(nodes, chain) && 0 < |chain|
  {
    && level <= MAX_LEVEL
    && (forall p :: 1 <= p < |chain| ==> |nodes[chain[p]].next| <= level)
    && (0 < level ==> NextAt(Heights(nodes, chain), 0, level - 1) < |chain|)
  }

  /** `update[l]` is the arena index of the predecessor, on level `l`, of chain
      position `b`. */
  ghost predicate Predecessors(nodes: seq<Node>, chain: seq<nat>, contents: seq<int>, b: nat, update: seq<nat>)
    requires Shape(nodes, chain, contents) && 0 < b <= |chain|
  {
    && |update| == MAX_LEVEL
    && forall l :: 0 <= l < MAX_LEVEL ==> update[l] == chain[LastBelow(Heights(nodes, chain), b, l)]
  }

  /** Distinct chain positions are distinct arena cells. */
  lemma ChainInjective(nodes: seq<Node>, chain: seq<nat>, contents: seq<int>)
    requires Shape(nodes, chain, contents)
    ensures forall i, j :: 0 <= i < j < |chain| ==> chain[i] != chain[j]
  {
  }

  /** Level 0 links each position to the next one. */
  lemma Level0Step(nodes: seq<Node>, chain: seq<nat>, contents: seq<int>, p: nat)
    requires Shape(nodes, chain, contents) && p < |chain|
    ensures 0 < |nodes[chain[p]].next|
    ensures nodes[chain[p]].next[0] == LinkTo(chain, p + 1)
  {
    NextAtIs(Heights(nodes, chain), p, 0, p + 1);
  }

  /** After the search for `v`, the level-0 successor of the last predecessor
      is the first key not below `v`, and `v` is stored exactly when that key
      is `v`. */
  lemma SearchFinds(nodes: seq<Node>, chain: seq<nat>, contents: seq<int>, v: int, b: nat, update: seq<nat>)
    requires Shape(nodes, chain, contents)
    requires b == LowerBound(contents, v) + 1
    requires Predecessors(nodes, chain, contents, b, update)
    ensures update[0] == chain[b - 1] && 0 < |nodes[update[0]].next|
    ensures nodes[update[0]].next[0] == LinkTo(chain, b)
    ensures b < |chain| ==> nodes[chain[b]].Node? && nodes[chain[b]].value == contents[b - 1]
    ensures v in contents <==> b < |chain| && contents[b - 1] == v
  {
    LastBelowIs(Heights(nodes, chain), b, 0, b - 1);
    Level0Step(nodes, chain, contents, b - 1);
    LowerBoundFinds(contents, v);
  }

  // ---------------------------------------------------------------------------
  // Insert: splicing a new node in after its predecessor on every level it occupies.

  /** `nodes'` is `nodes` with a node holding `v` with `h` slots appended at
      index |nodes|; on each level l < h it took over the link of `update[l]`,
      which now links to it. No other link changed. */
  ghost predicate Spliced(nodes: seq<Node>, nodes': seq<Node>, update: seq<nat>, v: int, h: nat) {
    var n := |nodes|;
    && |nodes'| == n + 1 && h <= |update|
    && (forall l :: 0 <= l < h ==> update[l] < n && l < |nodes[update[l]].next|)
    && nodes'[n].Node? && nodes'[n].value == v && |nodes'[n].next| == h
    && (forall l :: 0 <= l < h ==> nodes'[n].next[l] == nodes[update[l]].next[l])
    && (forall j :: 0 <= j < n ==> SameCell(nodes[j], nodes'[j]))
    && Redirected(nodes, nodes', update, h)
  }

  /** On levels below `k`, `update[l]` links to the new node at index |nodes|;
      every other old link is as before. */
  ghost predicate Redirected(nodes: seq<Node>, nodes': seq<Node>, update: seq<nat>, k: nat)
    requires |nodes'| == |nodes| + 1 && k <= |update|
  {
    forall j, l :: 0 <= j < |nodes| && 0 <= l < |nodes[j].next| && l < |nodes'[j].next| ==>
      nodes'[j].next[l] == if l < k && update[l] == j then To(|nodes|) else nodes[j].next[l]
  }

  /** The splice loop: a new node for `v` with `h` null slots, then on each
      level l < h the node takes over the link of `update[l]`, which is
      redirected to it. */
  method Splice(nodes: seq<Node>, update: seq<nat>, v: int, h: nat) returns (nodes': seq<Node>)
    requires h <= |update|
    requires forall l :: 0 <= l < h ==> update[l] < |nodes| && l < |nodes[update[l]].next|
    ensures Spliced(nodes, nodes', update, v, h)
  {
    var n := |nodes|;
    nodes' := nodes + [NewNode(v, h)];
    var i := 0;
    while i < h
      invariant 0 <= i <= h && |nodes'| == n + 1
      invariant nodes'[n].Node? && nodes'[n].value == v && |nodes'[n].next| == h
      invariant forall l :: 0 <= l < i ==> nodes'[n].next[l] == nodes[update[l]].next[l]
      invariant forall j :: 0 <= j < n ==> SameCell(nodes[j], nodes'[j])
      invariant Redirected(nodes, nodes', update, i)
    {
      var u := update[i];
      nodes' := nodes'[n := SetLink(nodes'[n], i, nodes'[u].next[i])];
      nodes' := nodes'[u := SetLink(nodes'[u], i, To(n))];
      i := i + 1;
    }
  }

  /** Splicing a new key in at its place keeps the representation invariant,
      with the new node at chain position `b`. */
  lemma InsertKeepsShape(nodes: seq<Node>, chain: seq<nat>, contents: seq<int>, v: int, b: nat,
                         update: seq<nat>, h: nat, nodes': seq<Node>)
    requires InsertSetting(nodes, chain, contents, v, b, update, h, nodes')
    ensures InArena(nodes', InsertAt(chain, b, |nodes|))
    ensures Heights(nodes', InsertAt(chain, b, |nodes|)) == InsertAt(Heights(nodes, chain), b, h)
    ensures Shape(nodes', InsertAt(chain, b, |nodes|), InsertSorted(contents, v))
  {
    InsertSortedSpec(contents, v);
    assert InsertSorted(contents, v) == InsertAt(contents, b - 1, v);
    InsertKeepsCells(nodes, chain, contents, v, b, h, nodes');
    ChainInjective(nodes, chain, contents);
    InsertKeepsLinks(nodes, chain, v, b, update, h, nodes');
  }

  /** The chain with the new node at position `b` names arena cells of the
      right heights holding the keys with `v` at position b - 1. */
  lemma InsertKeepsCells(nodes: seq<Node>, chain: seq<nat>, contents: seq<int>, v: int, b: nat,
                         h: nat, nodes': seq<Node>)
    requires InArena(nodes, chain) && |chain| == |contents| + 1 && Cells(nodes, chain, contents)
    requires 0 < b <= |chain| && 1 <= h <= MAX_LEVEL
    requires |nodes'| == |nodes| + 1 && forall j :: 0 <= j < |nodes| ==> SameCell(nodes[j], nodes'[j])
    requires nodes'[|nodes|].Node? && nodes'[|nodes|].value == v && |nodes'[|nodes|].next| == h
    ensures InArena(nodes', InsertAt(chain, b, |nodes|))
    ensures Heights(nodes', InsertAt(chain, b, |nodes|)) == InsertAt(Heights(nodes, chain), b, h)
    ensures Cells(nodes', InsertAt(chain, b, |nodes|), InsertAt(contents, b - 1, v))
  {
    var chain' := InsertAt(chain, b, |nodes|);
    var contents' := InsertAt(contents, b - 1, v);
    assert InArena(nodes', chain');
    forall p | 1 <= p < |chain'|
      ensures nodes'[chain'[p]].Node? && nodes'[chain'[p]].value == contents'[p - 1]
      ensures 1 <= |nodes'[chain'[p]].next| <= MAX_LEVEL
    {
      if p < b {
        assert chain'[p] == chain[p] && contents'[p - 1] == contents[p - 1];
      } else if p > b {
        assert chain'[p] == chain[p - 1] && contents'[p - 1] == contents[p - 2];
      }
    }
    assert Heights(nodes', chain') == InsertAt(Heights(nodes, chain), b, h);
  }

  /** The facts an insert of `v` at chain position `b` provides: the list
      before, the search result, and the splice. */
  ghost predicate InsertSetting(nodes: seq<Node>, chain: seq<nat>, contents: seq<int>, v: int, b: nat,
                                update: seq<nat>, h: nat, nodes': seq<Node>)
  {
    && Shape(nodes, chain, contents) && v !in contents
    && b == LowerBound(contents, v) + 1
    && 1 <= h <= MAX_LEVEL
    && Predecessors(nodes, chain, contents, b, update)
    && Spliced(nodes, nodes', update, v, h)
  }

  /** After the splice every level is again the sub-chain of tall enough nodes. */
  lemma InsertKeepsLinks(nodes: seq<Node>, chain: seq<nat>, v: int, b: nat,
                         update: seq<nat>, h: nat, nodes': seq<Node>)
    requires 0 < |chain| && InArena(nodes, chain) && Linked(nodes, chain) && |nodes[chain[0]].next| == MAX_LEVEL
    requires forall i, j :: 0 <= i < j < |chain| ==> chain[i] != chain[j]
    requires 0 < b <= |chain| && h <= MAX_LEVEL
    requires |update| == MAX_LEVEL
    requires forall l :: 0 <= l < MAX_LEVEL ==> update[l] == chain[LastBelow(Heights(nodes, chain), b, l)]
    requires Spliced(nodes, nodes', update, v, h)
    requires forall p :: 0 <= p < |chain| ==> |nodes[chain[p]].next| <= MAX_LEVEL
    requires InArena(nodes', InsertAt(chain, b, |nodes|))
    requires Heights(nodes', InsertAt(chain, b, |nodes|)) == InsertAt(Heights(nodes, chain), b, h)
    ensures Linked(nodes', InsertAt(chain, b, |nodes|))
  {
    var n := |nodes|;
    var chain' := InsertAt(chain, b, n);
    var hs' := InsertAt(Heights(nodes, chain), b, h);
    InsertLinksBefore(nodes, chain, v, b, update, h, nodes');
    InsertLinksNew(nodes, chain, v, b, update, h, nodes');
    InsertLinksAfter(nodes, chain, v, b, update, h, nodes');
    forall p, l | 0 <= p < |chain'| && 0 <= l < |nodes'[chain'[p]].next|
      ensures nodes'[chain'[p]].next[l] == LinkTo(chain', NextAt(hs', p, l))
    {
      if p < b {
        assert chain'[p] == chain[p];
      } else if p > b {
        assert chain'[p] == chain[p - 1];
      }
    }
  }

  /** A node before the new one links to it on the levels where it is the new
      node's predecessor, and keeps its link elsewhere. */
  lemma InsertLinksBefore(nodes: seq<Node>, chain: seq<nat>, v: int, b: nat,
                          update: seq<nat>, h: nat, nodes': seq<Node>)
    requires 0 < |chain| && InArena(nodes, chain) && Linked(nodes, chain) && |nodes[chain[0]].next| == MAX_LEVEL
    requires forall i, j :: 0 <= i < j < |chain| ==> chain[i] != chain[j]
    requires 0 < b <= |chain| && h <= MAX_LEVEL
    requires |update| == MAX_LEVEL
    requires forall l :: 0 <= l < MAX_LEVEL ==> update[l] == chain[LastBelow(Heights(nodes, chain), b, l)]
    requires Spliced(nodes, nodes', update, v, h)
    requires forall p :: 0 <= p < |chain| ==> |nodes[chain[p]].next| <= MAX_LEVEL
    ensures forall p, l :: 0 <= p < b && 0 <= l < |nodes'[chain[p]].next| ==>
      nodes'[chain[p]].next[l] == LinkTo(InsertAt(chain, b, |nodes|), NextAt(InsertAt(Heights(nodes, chain), b, h), p, l))
  {
    var hs := Heights(nodes, chain);
    forall p, l | 0 <= p < b && 0 <= l < |nodes'[chain[p]].next|
      ensures nodes'[chain[p]].next[l] == LinkTo(InsertAt(chain, b, |nodes|), NextAt(InsertAt(hs, b, h), p, l))
    {
      assert SameCell(nodes[chain[p]], nodes'[chain[p]]);
      assert nodes[chain[p]].next[l] == LinkTo(chain, NextAt(hs, p, l));
      assert l < h ==> (update[l] == chain[p] <==> LastBelow(hs, b, l) == p);
      assert nodes'[chain[p]].next[l] == if l < h && update[l] == chain[p] then To(|nodes|) else nodes[chain[p]].next[l];
      LinkBeforeInsert(chain, hs, b, h, |nodes|, p, l);
    }
  }

  /** The new node links where its predecessor on each level used to. */
  lemma InsertLinksNew(nodes: seq<Node>, chain: seq<nat>, v: int, b: nat,
                       update: seq<nat>, h: nat, nodes': seq<Node>)
    requires 0 < |chain| && InArena(nodes, chain) && Linked(nodes, chain) && |nodes[chain[0]].next| == MAX_LEVEL
    requires 0 < b <= |chain| && h <= MAX_LEVEL
    requires |update| == MAX_LEVEL
    requires forall l :: 0 <= l < MAX_LEVEL ==> update[l] == chain[LastBelow(Heights(nodes, chain), b, l)]
    requires Spliced(nodes, nodes', update, v, h)
    ensures forall l :: 0 <= l < h ==>
      nodes'[|nodes|].next[l] == LinkTo(InsertAt(chain, b, |nodes|), NextAt(InsertAt(Heights(nodes, chain), b, h), b, l))
  {
    var hs := Heights(nodes, chain);
    forall l | 0 <= l < h
      ensures nodes'[|nodes|].next[l] == LinkTo(InsertAt(chain, b, |nodes|), NextAt(InsertAt(hs, b, h), b, l))
    {
      var last := LastBelow(hs, b, l);
      assert nodes[chain[last]].next[l] == LinkTo(chain, NextAt(hs, last, l));
      LinkOfInserted(chain, hs, b, h, |nodes|, l);
    }
  }

  /** A node after the new one keeps its links; `p` is its new chain position. */
  lemma InsertLinksAfter(nodes: seq<Node>, chain: seq<nat>, v: int, b: nat,
                         update: seq<nat>, h: nat, nodes': seq<Node>)
    requires 0 < |chain| && InArena(nodes, chain) && Linked(nodes, chain) && |nodes[chain[0]].next| == MAX_LEVEL
    requires forall i, j :: 0 <= i < j < |chain| ==> chain[i] != chain[j]
    requires 0 < b <= |chain| && h <= MAX_LEVEL
    requires |update| == MAX_LEVEL
    requires forall l :: 0 <= l < MAX_LEVEL ==> update[l] == chain[LastBelow(Heights(nodes, chain), b, l)]
    requires Spliced(nodes, nodes', update, v, h)
    ensures forall p, l :: b < p <= |chain| && 0 <= l < |nodes'[chain[p - 1]].next| ==>
      nodes'[chain[p - 1]].next[l] == LinkTo(InsertAt(chain, b, |nodes|), NextAt(InsertAt(Heights(nodes, chain), b, h), p, l))
  {
    var hs := Heights(nodes, chain);
    forall p, l | b < p <= |chain| && 0 <= l < |nodes'[chain[p - 1]].next|
      ensures nodes'[chain[p - 1]].next[l] == LinkTo(InsertAt(chain, b, |nodes|), NextAt(InsertAt(hs, b, h), p, l))
    {
      assert SameCell(nodes[chain[p - 1]], nodes'[chain[p - 1]]);
      assert nodes[chain[p - 1]].next[l] == LinkTo(chain, NextAt(hs, p - 1, l));
      assert l < h ==> update[l] != chain[p - 1] by {
        if l < h {
          assert LastBelow(hs, b, l) < p - 1;
        }
      }
      assert nodes'[chain[p - 1]].next[l] == nodes[chain[p - 1]].next[l];
      LinkAfterInsert(chain, hs, b, h, |nodes|, p, l);
    }
  }

  /** Splicing in a node with `h` slots makes max(level, h) the number of levels in use. */
  lemma InsertKeepsLevels(nodes: seq<Node>, chain: seq<nat>, b: nat, h: nat, nodes': seq<Node>, level: nat)
    requires InArena(nodes, chain) && 0 < b <= |chain|
    requires InArena(nodes', InsertAt(chain, b, |nodes|))
    requires Heights(nodes', InsertAt(chain, b, |nodes|)) == InsertAt(Heights(nodes, chain), b, h)
    requires LevelsOk(nodes, chain, level) && h <= MAX_LEVEL
    ensures LevelsOk(nodes', InsertAt(chain, b, |nodes|), if level < h then h else level)
  {
    var chain' := InsertAt(chain, b, |nodes|);
    var hs, hs' := Heights(nodes, chain), Heights(nodes', chain');
    forall p | 1 <= p < |chain'| ensures |nodes'[chain'[p]].next| <= if level < h then h else level {
      if p < b {
        assert hs'[p] == hs[p];
      } else if p > b {
        assert hs'[p] == hs[p - 1];
      }
    }
    if level < h {
      assert hs'[b] == h;
    } else if 0 < level {
      var q := NextAt(hs, 0, level - 1);
      var q' := if q < b then q else q + 1;
      assert hs'[q'] == hs[q];
    }
  }

  // ---------------------------------------------------------------------------
  // Erase: unsplicing a node from every level it occupies.

  /** `nodes'` is `nodes` where, on each level l the node `t` occupies,
      `update[l]` now takes over the link of `t`. No other link changed. */
  ghost predicate Unspliced(nodes: seq<Node>, nodes': seq<Node>, update: seq<nat>, t: nat) {
    && t < |nodes| && |nodes'| == |nodes| && |nodes[t].next| <= |update|
    && (forall l :: 0 <= l < |nodes[t].next| ==> update[l] < |nodes| && l < |nodes[update[l]].next|)
    && (forall j :: 0 <= j < |nodes| ==> SameCell(nodes[j], nodes'[j]))
    && Bypassed(nodes, nodes', update, t, |nodes[t].next|)
  }

  /** On levels below `k`, `update[l]` links where `t` did; every other link
      is as before. */
  ghost predicate Bypassed(nodes: seq<Node>, nodes': seq<Node>, update: seq<nat>, t: nat, k: nat)
    requires t < |nodes| && |nodes'| == |nodes| && k <= |nodes[t].next| && k <= |update|
  {
    forall j, l :: 0 <= j < |nodes| && 0 <= l < |nodes[j].next| && l < |nodes'[j].next| ==>
      nodes'[j].next[l] == if l < k && update[l] == j then nodes[t].next[l] else nodes[j].next[l]
  }

  /** The unsplice loop: on each level the node `t` occupies, its predecessor
      `update[l]` takes over its link. */
  method Unsplice(nodes: seq<Node>, update: seq<nat>, t: nat) returns (nodes': seq<Node>)
    requires t < |nodes| && |nodes[t].next| <= |update|
    requires forall l :: 0 <= l < |nodes[t].next| ==>
      update[l] < |nodes| && update[l] != t && l < |nodes[update[l]].next|
    ensures Unspliced(nodes, nodes', update, t)
  {
    nodes' := nodes;
    var i := 0;
    while i < |nodes[t].next|
      invariant 0 <= i <= |nodes[t].next| && |nodes'| == |nodes| && nodes'[t] == nodes[t]
      invariant forall j :: 0 <= j < |nodes| ==> SameCell(nodes[j], nodes'[j])
      invariant Bypassed(nodes, nodes', update, t, i)
    {
      var u := update[i];
      nodes' := nodes'[u := SetLink(nodes'[u], i, nodes'[t].next[i])];
      i := i + 1;
    }
  }

  /** Unsplicing the node of a stored key keeps the representation invariant,
      without chain position `b`. */
  lemma EraseKeepsShape(nodes: seq<Node>, chain: seq<nat>, contents: seq<int>, v: int, b: nat,
                        update: seq<nat>, nodes': seq<Node>)
    requires EraseSetting(nodes, chain, contents, v, b, update, nodes')
    ensures InArena(nodes', RemoveAt(chain, b))
    ensures Heights(nodes', RemoveAt(chain, b)) == RemoveAt(Heights(nodes, chain), b)
    ensures Shape(nodes', RemoveAt(chain, b), RemoveSorted(contents, v))
  {
    LowerBoundFinds(contents, v);
    RemoveSortedSpec(contents, v);
    assert RemoveSorted(contents, v) == RemoveAt(contents, b - 1);
    EraseKeepsCells(nodes, chain, contents, b, nodes');
    EraseKeepsLinks(nodes, chain, contents, v, b, update, nodes');
  }

  /** The chain without position `b` names arena cells of the right heights
      holding the keys without the one at position b - 1. */
  lemma EraseKeepsCells(nodes: seq<Node>, chain: seq<nat>, contents: seq<int>, b: nat, nodes': seq<Node>)
    requires InArena(nodes, chain) && |chain| == |contents| + 1 && Cells(nodes, chain, contents)
    requires 0 < b < |chain|
    requires |nodes'| == |nodes| && forall j :: 0 <= j < |nodes| ==> SameCell(nodes[j], nodes'[j])
    ensures InArena(nodes', RemoveAt(chain, b))
    ensures Heights(nodes', RemoveAt(chain, b)) == RemoveAt(Heights(nodes, chain), b)
    ensures Cells(nodes', RemoveAt(chain, b), RemoveAt(contents, b - 1))
  {
    var chain' := RemoveAt(chain, b);
    var contents' := RemoveAt(contents, b - 1);
    assert InArena(nodes', chain');
    forall p | 1 <= p < |chain'|
      ensures nodes'[chain'[p]].Node? && nodes'[chain'[p]].value == contents'[p - 1]
      ensures 1 <= |nodes'[chain'[p]].next| <= MAX_LEVEL
    {
      if p < b {
        assert chain'[p] == chain[p] && contents'[p - 1] == contents[p - 1];
      } else {
        assert chain'[p] == chain[p + 1] && contents'[p - 1] == contents[p];
      }
    }
    assert Heights(nodes', chain') == RemoveAt(Heights(nodes, chain), b);
  }

  /** The facts an erase of `v`, stored at chain position `b`, provides: the
      list before, the search result, and the unsplice. */
  ghost predicate EraseSetting(nodes: seq<Node>, chain: seq<nat>, contents: seq<int>, v: int, b: nat,
                               update: seq<nat>, nodes': seq<Node>)
  {
    && Shape(nodes, chain, contents) && v in contents
    && b == LowerBound(contents, v) + 1
    && Predecessors(nodes, chain, contents, b, update)
    && b < |chain| && Unspliced(nodes, nodes', update, chain[b])
  }

  /** After the unsplice every level is again the sub-chain of tall enough nodes. */
  lemma EraseKeepsLinks(nodes: seq<Node>, chain: seq<nat>, contents: seq<int>, v: int, b: nat,
                        update: seq<nat>, nodes': seq<Node>)
    requires EraseSetting(nodes, chain, contents, v, b, update, nodes')
    requires InArena(nodes', RemoveAt(chain, b))
    requires Heights(nodes', RemoveAt(chain, b)) == RemoveAt(Heights(nodes, chain), b)
    ensures Linked(nodes', RemoveAt(chain, b))
  {
    var chain' := RemoveAt(chain, b);
    var hs' := RemoveAt(Heights(nodes, chain), b);
    ChainInjective(nodes, chain, contents);
    EraseLinksBefore(nodes, chain, b, update, nodes');
    EraseLinksAfter(nodes, chain, b, update, nodes');
    forall p, l | 0 <= p < |chain'| && 0 <= l < |nodes'[chain'[p]].next|
      ensures nodes'[chain'[p]].next[l] == LinkTo(chain', NextAt(hs', p, l))
    {
      if p < b {
        assert chain'[p] == chain[p];
      } else {
        assert chain'[p] == chain[p + 1];
      }
    }
  }

  /** A node before the removed one takes over its link on the levels where it
      was the removed node's predecessor, and keeps its link elsewhere. */
  lemma EraseLinksBefore(nodes: seq<Node>, chain: seq<nat>, b: nat, update: seq<nat>, nodes': seq<Node>)
    requires 0 < |chain| && InArena(nodes, chain) && Linked(nodes, chain) && |nodes[chain[0]].next| == MAX_LEVEL
    requires forall p :: 0 <= p < |chain| ==> |nodes[chain[p]].next| <= MAX_LEVEL
    requires forall i, j :: 0 <= i < j < |chain| ==> chain[i] != chain[j]
    requires 0 < b < |chain| && |update| == MAX_LEVEL
    requires forall l :: 0 <= l < MAX_LEVEL ==> update[l] == chain[LastBelow(Heights(nodes, chain), b, l)]
    requires Unspliced(nodes, nodes', update, chain[b])
    ensures forall p, l :: 0 <= p < b && 0 <= l < |nodes'[chain[p]].next| ==>
      nodes'[chain[p]].next[l] == LinkTo(RemoveAt(chain, b), NextAt(RemoveAt(Heights(nodes, chain), b), p, l))
  {
    var hs := Heights(nodes, chain);
    forall p, l | 0 <= p < b && 0 <= l < |nodes'[chain[p]].next|
      ensures nodes'[chain[p]].next[l] == LinkTo(RemoveAt(chain, b), NextAt(RemoveAt(hs, b), p, l))
    {
      assert SameCell(nodes[chain[p]], nodes'[chain[p]]);
      assert nodes[chain[p]].next[l] == LinkTo(chain, NextAt(hs, p, l));
      if l < hs[b] {
        assert nodes[chain[b]].next[l] == LinkTo(chain, NextAt(hs, b, l));
      }
      assert l < hs[b] ==> (update[l] == chain[p] <==> LastBelow(hs, b, l) == p);
      assert nodes'[chain[p]].next[l] ==
        if l < hs[b] && update[l] == chain[p] then nodes[chain[b]].next[l] else nodes[chain[p]].next[l];
      LinkBeforeRemove(chain, hs, b, p, l);
    }
  }

  /** A node after the removed one keeps its links. */
  lemma EraseLinksAfter(nodes: seq<Node>, chain: seq<nat>, b: nat, update: seq<nat>, nodes': seq<Node>)
    requires 0 < |chain| && InArena(nodes, chain) && Linked(nodes, chain) && |nodes[chain[0]].next| == MAX_LEVEL
    requires forall i, j :: 0 <= i < j < |chain| ==> chain[i] != chain[j]
    requires 0 < b < |chain| && |update| == MAX_LEVEL
    requires forall l :: 0 <= l < MAX_LEVEL ==> update[l] == chain[LastBelow(Heights(nodes, chain), b, l)]
    requires Unspliced(nodes, nodes', update, chain[b])
    ensures forall p, l :: b < p < |chain| && 0 <= l < |nodes'[chain[p]].next| ==>
      nodes'[chain[p]].next[l] == LinkTo(RemoveAt(chain, b), NextAt(RemoveAt(Heights(nodes, chain), b), p - 1, l))
  {
    var hs := Heights(nodes, chain);
    forall p, l | b < p < |chain| && 0 <= l < |nodes'[chain[p]].next|
      ensures nodes'[chain[p]].next[l] == LinkTo(RemoveAt(chain, b), NextAt(RemoveAt(hs, b), p - 1, l))
    {
      assert SameCell(nodes[chain[p]], nodes'[chain[p]]);
      assert nodes[chain[p]].next[l] == LinkTo(chain, NextAt(hs, p, l));
      assert l < hs[b] ==> update[l] != chain[p] by {
        if l < hs[b] {
          assert LastBelow(hs, b, l) < p;
        }
      }
      assert nodes'[chain[p]].next[l] == nodes[chain[p]].next[l];
      LinkAfterRemove(chain, hs, b, p, l);
    }
  }

  /** The shrink loop after an erase: drop top levels whose head link is null.
      The result is the number of levels still in use. */
  method LevelsInUse(nodes: seq<Node>, ghost chain: seq<nat>, ghost contents: seq<int>, level: nat) returns (level': nat)
    requires Shape(nodes, chain, contents) && level <= MAX_LEVEL
    requires forall p :: 1 <= p < |chain| ==> |nodes[chain[p]].next| <= level
    ensures LevelsOk(nodes, chain, level') && level' <= level
  {
    level' := level;
    while 0 < level' && nodes[0].next[level' - 1] == Null
      invariant level' <= level
      invariant forall p :: 1 <= p < |chain| ==> |nodes[chain[p]].next| <= level'
    {
      assert nodes[chain[0]].next[level' - 1] == Null;
      level' := level' - 1;
    }
    assert 0 < level' ==> nodes[chain[0]].next[level' - 1] != Null;
  }

  /** With the level bookkeeping intact, no levels are in use exactly when no key is stored. */
  lemma NoLevelsIffEmpty(nodes: seq<Node>, chain: seq<nat>, contents: seq<int>, level: nat)
    requires Shape(nodes, chain, contents) && LevelsOk(nodes, chain, level)
    ensures level == 0 <==> contents == []
  {
    if contents != [] {
      assert 1 <= |nodes[chain[1]].next| <= level;
    }
  }
  // ---------------------------------------------------------------------------
  // The three traversals, on the arena.

  /** The predecessor on level `i` of where `v` is or would be stored is the
      head or a node below `v`, and its successor on level `i` is null or a
      node not below `v`. */
  lemma PredecessorBrackets(nodes: seq<Node>, chain: seq<nat>, contents: seq<int>, v: int, i: nat)
    requires Shape(nodes, chain, contents) && i < MAX_LEVEL
    ensures var x := chain[LastBelow(Heights(nodes, chain), LowerBound(contents, v) + 1, i)];
      && x < |nodes| && i < |nodes[x].next|
      && (nodes[x].Dummy? || nodes[x].value < v)
      && (nodes[x].next[i].To? ==>
            nodes[x].next[i].index < |nodes| && nodes[nodes[x].next[i].index].Node? &&
            v <= nodes[nodes[x].next[i].index].value)
  {
    var hs := Heights(nodes, chain);
    var b := LowerBound(contents, v) + 1;
    var p := LastBelow(hs, b, i);
    var q := NextAt(hs, p, i);
    LastBelowLinksPast(hs, b, i);
    assert b <= q;
    assert nodes[chain[p]].next[i] == LinkTo(chain, q);
    if 0 < p {
      assert nodes[chain[p]].value == contents[p - 1] < v;
    }
    if q < |chain| {
      assert nodes[chain[q]].value == contents[q - 1] >= v;
    }
  }

  /** A step right on level `i` from chain position `p`, onto a node below
      `v`, stays before the place of `v` and lands on a node linked as usual. */
  lemma ScanStep(nodes: seq<Node>, chain: seq<nat>, contents: seq<int>, v: int, i: nat, p: nat)
    requires Shape(nodes, chain, contents)
    requires p < |chain| && i < |nodes[chain[p]].next|
    requires NextAt(Heights(nodes, chain), p, i) < |chain|
    requires nodes[chain[NextAt(Heights(nodes, chain), p, i)]].value < v
    ensures var q := NextAt(Heights(nodes, chain), p, i);
      && q < LowerBound(contents, v) + 1 && i < |nodes[chain[q]].next|
      && nodes[chain[q]].next[i] == LinkTo(chain, NextAt(Heights(nodes, chain), q, i))
  {
    var hs := Heights(nodes, chain);
    var q := NextAt(hs, p, i);
    assert nodes[chain[q]].value == contents[q - 1] < v;
  }

  /** Where the step right on level `i` would reach null or a node not below
      `v`, the scan has found the predecessor on level `i` of where `v` is or
      would be stored. */
  lemma ScanStops(nodes: seq<Node>, chain: seq<nat>, contents: seq<int>, v: int, i: nat, p: nat)
    requires Shape(nodes, chain, contents) && i < MAX_LEVEL
    requires p < LowerBound(contents, v) + 1 && i < |nodes[chain[p]].next|
    requires var q := NextAt(Heights(nodes, chain), p, i);
      q < |chain| ==> v <= nodes[chain[q]].value
    ensures p == LastBelow(Heights(nodes, chain), LowerBound(contents, v) + 1, i)
  {
    var hs := Heights(nodes, chain);
    var b := LowerBound(contents, v) + 1;
    var q := NextAt(hs, p, i);
    if q < |chain| {
      assert contents[q - 1] == nodes[chain[q]].value;
    }
    assert b <= q;
    LastBelowIs(hs, b, i, p);
  }

  /** One level of the search: from the node at chain position `p`, move right
      on level `i` while the next key is below `v`. It stops at the predecessor,
      on level `i`, of where `v` is or would be stored. */
  method ScanLevel(nodes: seq<Node>, ghost chain: seq<nat>, ghost contents: seq<int>, v: int, i: nat, x: nat, ghost p: nat)
    returns (x': nat, ghost p': nat)
    requires Shape(nodes, chain, contents) && i < MAX_LEVEL
    requires p <= LowerBound(contents, v) && x == chain[p] && i < |nodes[x].next|
    ensures p' == LastBelow(Heights(nodes, chain), LowerBound(contents, v) + 1, i)
    ensures x' == chain[p'] && p <= p'
    ensures x' < |nodes| && i < |nodes[x'].next|
    ensures nodes[x'].Dummy? || nodes[x'].value < v
    ensures nodes[x'].next[i].To? ==>
      nodes[x'].next[i].index < |nodes| && nodes[nodes[x'].next[i].index].Node? &&
      v <= nodes[nodes[x'].next[i].index].value
  {
    ghost var hs := Heights(nodes, chain);
    ghost var b := LowerBound(contents, v) + 1;
    x', p' := x, p;
    var succ := nodes[x].next[i];
    while succ.To? && nodes[succ.index].value < v
      invariant p <= p' < b && x' == chain[p'] && i < hs[p']
      invariant succ == LinkTo(chain, NextAt(hs, p', i))
      decreases b - p'
    {
      ghost var q := NextAt(hs, p', i);
      ScanStep(nodes, chain, contents, v, i, p');
      p' := q;
      x' := succ.index;
      succ := nodes[x'].next[i];
    }
    ScanStops(nodes, chain, contents, v, i, p');
    PredecessorBrackets(nodes, chain, contents, v, i);
  }

  /** The top-down search: on each level, from the highest in use down to 0,
      move right while the next key is below `v`, and record where the search
      stopped. Levels above those in use record the head. */
  method FindPredecessors(nodes: seq<Node>, ghost chain: seq<nat>, ghost contents: seq<int>, level: nat, v: int)
    returns (update: seq<nat>, ghost b: nat)
    requires Shape(nodes, chain, contents) && LevelsOk(nodes, chain, level)
    ensures b == LowerBound(contents, v) + 1
    ensures Predecessors(nodes, chain, contents, b, update)
    ensures forall l :: 0 <= l < MAX_LEVEL ==> update[l] < |nodes| && l < |nodes[update[l]].next|
  {
    ghost var hs := Heights(nodes, chain);
    b := LowerBound(contents, v) + 1;
    update := seq(MAX_LEVEL, _ => 0);
    forall l | level <= l < MAX_LEVEL ensures LastBelow(hs, b, l) == 0 {
      LastBelowIs(hs, b, l, 0);
    }
    var x := 0;
    ghost var p: nat := 0;
    var i: nat := level;
    while 0 < i
      invariant i <= level
      invariant p < b && x == chain[p] && i <= hs[p]
      invariant |update| == MAX_LEVEL
      invariant forall l :: i <= l < MAX_LEVEL ==> update[l] == chain[LastBelow(hs, b, l)]
    {
      i := i - 1;
      x, p := ScanLevel(nodes, chain, contents, v, i, x, p);
      update := update[i := x];
    }
  }

  /** Insert on the arena: the search, nothing more when `v` is present, else
      the splice of a node with `lvl` slots and the new number of levels in use. */
  method InsertNode(nodes: seq<Node>, ghost chain: seq<nat>, ghost contents: seq<int>, level: nat, v: int, lvl: nat)
    returns (nodes': seq<Node>, ghost chain': seq<nat>, level': nat, added: bool)
    requires Shape(nodes, chain, contents) && LevelsOk(nodes, chain, level) && 1 <= lvl <= MAX_LEVEL
    ensures Shape(nodes', chain', InsertSorted(contents, v)) && LevelsOk(nodes', chain', level')
    ensures added <==> v !in contents
    ensures level' == if v in contents || lvl <= level then level else lvl
    ensures !added ==> nodes' == nodes && chain' == chain
    ensures added ==> Heights(nodes', chain') == InsertAt(Heights(nodes, chain), LowerBound(contents, v) + 1, lvl)
  {
    var update, b := FindPredecessors(nodes, chain, contents, level, v);
    SearchFinds(nodes, chain, contents, v, b, update);
    var succ := nodes[update[0]].next[0];
    if succ.To? && nodes[succ.index].value == v {
      return nodes, chain, level, false;
    }
    nodes', chain', level' := AddNode(nodes, chain, contents, level, v, lvl, update, b);
    added := true;
  }

  /** The insert once the search has found `v` absent: the splice after the
      predecessors `update`, and the new number of levels in use. */
  method AddNode(nodes: seq<Node>, ghost chain: seq<nat>, ghost contents: seq<int>, level: nat, v: int, lvl: nat,
                 update: seq<nat>, ghost b: nat)
    returns (nodes': seq<Node>, ghost chain': seq<nat>, level': nat)
    requires Shape(nodes, chain, contents) && LevelsOk(nodes, chain, level) && 1 <= lvl <= MAX_LEVEL
    requires v !in contents && b == LowerBound(contents, v) + 1
    requires Predecessors(nodes, chain, contents, b, update)
    requires forall l :: 0 <= l < MAX_LEVEL ==> update[l] < |nodes| && l < |nodes[update[l]].next|
    ensures Shape(nodes', chain', InsertSorted(contents, v)) && LevelsOk(nodes', chain', level')
    ensures level' == if lvl <= level then level else lvl
    ensures Heights(nodes', chain') == InsertAt(Heights(nodes, chain), b, lvl)
  {
    nodes' := Splice(nodes, update, v, lvl);
    chain' := InsertAt(chain, b, |nodes|);
    InsertKeepsShape(nodes, chain, contents, v, b, update, lvl, nodes');
    InsertKeepsLevels(nodes, chain, b, lvl, nodes', level);
    level' := if level < lvl then lvl else level;
  }

  /** Erase on the arena: the search, nothing more when `v` is absent, else
      the unsplice of its node and the shrink of the levels in use. */
  method EraseNode(nodes: seq<Node>, ghost chain: seq<nat>, ghost contents: seq<int>, level: nat, v: int)
    returns (nodes': seq<Node>, ghost chain': seq<nat>, level': nat, removed: bool)
    requires Shape(nodes, chain, contents) && LevelsOk(nodes, chain, level)
    ensures Shape(nodes', chain', RemoveSorted(contents, v)) && LevelsOk(nodes', chain', level')
    ensures removed <==> v in contents
    ensures level' <= level
    ensures !removed ==> nodes' == nodes && chain' == chain && level' == level
    ensures removed ==> Heights(nodes', chain') == RemoveAt(Heights(nodes, chain), LowerBound(contents, v) + 1)
  {
    var update, b := FindPredecessors(nodes, chain, contents, level, v);
    SearchFinds(nodes, chain, contents, v, b, update);
    var succ := nodes[update[0]].next[0];
    if !(succ.To? && nodes[succ.index].value == v) {
      return nodes, chain, level, false;
    }
    nodes', chain', level' := RemoveNode(nodes, chain, contents, level, v, update, b, succ.index);
    removed := true;
  }

  /** The erase once the search has found `v` stored in arena cell `t`, at
      chain position `b`: the unsplice from the predecessors `update`, then
      the shrink of the levels in use. */
  method RemoveNode(nodes: seq<Node>, ghost chain: seq<nat>, ghost contents: seq<int>, level: nat, v: int,
                    update: seq<nat>, ghost b: nat, t: nat)
    returns (nodes': seq<Node>, ghost chain': seq<nat>, level': nat)
    requires Shape(nodes, chain, contents) && LevelsOk(nodes, chain, level)
    requires v in contents && b == LowerBound(contents, v) + 1
    requires Predecessors(nodes, chain, contents, b, update)
    requires forall l :: 0 <= l < MAX_LEVEL ==> update[l] < |nodes| && l < |nodes[update[l]].next|
    requires b < |chain| && t == chain[b]
    ensures Shape(nodes', chain', RemoveSorted(contents, v)) && LevelsOk(nodes', chain', level')
    ensures level' <= level
    ensures Heights(nodes', chain') == RemoveAt(Heights(nodes, chain), b)
  {
    ChainInjective(nodes, chain, contents);
    assert forall l :: 0 <= l < MAX_LEVEL ==> LastBelow(Heights(nodes, chain), b, l) < b;
    nodes' := Unsplice(nodes, update, t);
    chain' := RemoveAt(chain, b);
    EraseKeepsShape(nodes, chain, contents, v, b, update, nodes');
    level' := LevelsInUse(nodes', chain', RemoveSorted(contents, v), level);
  }

  // ---------------------------------------------------------------------------

  class SkipList {
    /** The node arena; index 0 is the head sentinel. */
    var nodes: seq<Node>
    /** Number of levels in use: the height of the tallest node, 0 when empty. */
    var currentLevel: nat
    /** Number of stored keys. */
    var numElements: nat

    /** Arena indices along level 0, head first. */
    ghost var Chain: seq<nat>
    /** The stored keys, ascending. */
    ghost var Contents: seq<int>

    ghost predicate Valid()
      reads this
    {
      && Shape(nodes, Chain, Contents)
      && LevelsOk(nodes, Chain, currentLevel)
      && numElements == |Contents|
    }

    /** A fresh list: a head with MAX_LEVEL null slots, no levels in use, no keys. */
    constructor ()
      ensures Valid() && Contents == []
      ensures nodes == [NewDummy(MAX_LEVEL)] && currentLevel == 0 && numElements == 0
    {
      new;
      Clear();
    }

    /** Returns the list to the state of a fresh one. */
    method Clear()
      modifies this
      ensures Valid() && Contents == []
      ensures nodes == [NewDummy(MAX_LEVEL)] && currentLevel == 0 && numElements == 0
    {
      nodes := [NewDummy(MAX_LEVEL)];
      currentLevel, numElements := 0, 0;
      Chain, Contents := [0], [];
    }

    function Size(): (n: nat)
      reads this
      requires Valid()
      ensures n == |Contents|
    {
      numElements
    }

    function Empty(): (e: bool)
      reads this
      requires Valid()
      ensures e <==> Contents == []
    {
      numElements == 0
    }

    function GetCurrentLevel(): (level: nat)
      reads this
      requires Valid()
      ensures level <= MAX_LEVEL
      ensures level == 0 <==> Contents == []
      ensures forall p :: 1 <= p < |Chain| ==> |nodes[Chain[p]].next| <= level
    {
      NoLevelsIffEmpty(nodes, Chain, Contents, currentLevel);
      currentLevel
    }

    /** Whether `v` is stored: the search, then a look at the level-0 successor. */
    method Contains(v: int) returns (found: bool)
      requires Valid()
      ensures found <==> v in Contents
    {
      var update, b := FindPredecessors(nodes, Chain, Contents, currentLevel, v);
      SearchFinds(nodes, Chain, Contents, v, b, update);
      var succ := nodes[update[0]].next[0];
      found := succ.To? && nodes[succ.index].value == v;
    }

    /** Inserts `v` unless present, in a new node with `lvl` slots. The
        height is an argument: a random draw of it is not modelled. */
    method Insert(v: int, lvl: nat)
      requires Valid() && 1 <= lvl <= MAX_LEVEL
      modifies this
      ensures Valid()
      ensures Contents == InsertSorted(old(Contents), v)
      ensures currentLevel == if v in old(Contents) || lvl <= old(currentLevel) then old(currentLevel) else lvl
      ensures v in old(Contents) ==> nodes == old(nodes) && Chain == old(Chain)
      ensures v !in old(Contents) ==>
        Heights(nodes, Chain) == InsertAt(old(Heights(nodes, Chain)), LowerBound(old(Contents), v) + 1, lvl)
    {
      var ns, level, added := nodes, currentLevel, false;
      ghost var chain := Chain;
      ns, chain, level, added := InsertNode(nodes, Chain, Contents, currentLevel, v, lvl);
      ghost var contents := InsertSorted(Contents, v);
      assert |contents| == if added then |Contents| + 1 else |Contents| by {
        InsertSortedSpec(Contents, v);
      }
      nodes, Chain, Contents, currentLevel := ns, chain, contents, level;
      if added {
        numElements := numElements + 1;
      }
    }

    /** Erases `v` if present, unlinking its node from every level it occupies,
        then drops the empty top levels. */
    method Erase(v: int) returns (removed: bool)
      requires Valid()
      modifies this
      ensures Valid()
      ensures removed <==> v in old(Contents)
      ensures Contents == RemoveSorted(old(Contents), v)
      ensures currentLevel <= old(currentLevel)
      ensures !removed ==> nodes == old(nodes) && Chain == old(Chain) && currentLevel == old(currentLevel)
      ensures removed ==> Heights(nodes, Chain) == RemoveAt(old(Heights(nodes, Chain)), LowerBound(old(Contents), v) + 1)
    {
      RemoveSortedSpec(Contents, v);
      nodes, Chain, currentLevel, removed := EraseNode(nodes, Chain, Contents, currentLevel, v);
      Contents := RemoveSorted(Contents, v);
      if removed {
        numElements := numElements - 1;
      }
    }

    // -------------------------------------------------------------------------
    // Cursors over level 0: a link to a stored node, or Null for end(). The
    // ghost argument `i` is the cursor's position among the keys.

    /** The cursor at the `i`-th key, or end() when i == |Contents|. */
    ghost function CursorAt(i: nat): Link
      reads this
      requires Valid() && i <= |Contents|
    {
      LinkTo(Chain, i + 1)
    }

    /** What the cursor at the `i`-th key points at. */
    lemma CursorFacts(i: nat)
      requires Valid() && i < |Contents|
      ensures CursorAt(i).To? && CursorAt(i).index < |nodes|
      ensures nodes[CursorAt(i).index].Node? && nodes[CursorAt(i).index].value == Contents[i]
      ensures 0 < |nodes[CursorAt(i).index].next| && nodes[CursorAt(i).index].next[0] == CursorAt(i + 1)
    {
      Level0Step(nodes, Chain, Contents, i + 1);
    }

    /** begin(): the first key's node, which is end() on an empty list. */
    function Begin(): (c: Link)
      reads this
      requires Valid()
      ensures c == CursorAt(0)
      ensures c == Null <==> Contents == []
    {
      Level0Step(nodes, Chain, Contents, 0);
      nodes[0].next[0]
    }

    /** end(). */
    function End(): (c: Link)
      reads this
      requires Valid()
      ensures c == CursorAt(|Contents|)
    {
      Null
    }

    /** operator++: follow the level-0 link to the next key, or to end(). */
    function Advance(c: Link, ghost i: nat): (d: Link)
      reads this
      requires Valid() && i < |Contents| && c == CursorAt(i)
      ensures d == CursorAt(i + 1)
      ensures d == Null <==> i + 1 == |Contents|
    {
      CursorFacts(i);
      nodes[c.index].next[0]
    }

    /** operator*: the key under the cursor; None (std::out_of_range) at end(). */
    function Deref(c: Link, ghost i: nat): (r: Option<int>)
      reads this
      requires Valid() && i <= |Contents| && c == CursorAt(i)
      ensures r == None <==> i == |Contents|
      ensures i < |Contents| ==> r == Some(Contents[i])
    {
      if c.Null? then None
      else
        CursorFacts(i);
        Some(nodes[c.index].value)
    }

    /** Walks level 0 from the first node until null: every stored key, once
        each, ascending. */
    method Elements() returns (s: seq<int>)
      requires Valid()
      ensures s == Contents
    {
      s := [];
      var c := Begin();
      ghost var i := 0;
      while c != End()
        invariant i <= |Contents| && c == CursorAt(i) && s == Contents[..i]
        decreases |Contents| - i
      {
        s := s + [Deref(c, i).value];
        c := Advance(c, i);
        i := i + 1;
      }
    }

    // -------------------------------------------------------------------------
    // Comparisons: over the level-0 sequences, whatever the node heights.

    /** operator==: same size, then the same keys pairwise. */
    method Equal(other: SkipList) returns (eq: bool)
      requires Valid() && other.Valid()
      ensures eq <==> Contents == other.Contents
    {
      if numElements != other.numElements {
        return false;
      }
      var c, d := Begin(), other.Begin();
      ghost var i := 0;
      while c.To?
        invariant i <= |Contents| && c == CursorAt(i) && d == other.CursorAt(i)
        invariant forall k :: 0 <= k < i ==> Contents[k] == other.Contents[k]
        decreases |Contents| - i
      {
        if Deref(c, i) != other.Deref(d, i) {
          return false;
        }
        c, d := Advance(c, i), other.Advance(d, i);
        i := i + 1;
      }
      eq := true;
    }

    /** operator!=. */
    method NotEqual(other: SkipList) returns (ne: bool)
      requires Valid() && other.Valid()
      ensures ne <==> Contents != other.Contents
    {
      var eq := Equal(other);
      ne := !eq;
    }

    /** operator<: lexicographic comparison of the two key sequences. */
    method Less(other: SkipList) returns (less: bool)
      requires Valid() && other.Valid()
      ensures less == LexLess(Contents, other.Contents)
    {
      ghost var a, b := Contents, other.Contents;
      var c, d := Begin(), other.Begin();
      ghost var i := 0;
      while c.To? && d.To?
        invariant i <= |a| && i <= |b|
        invariant c == CursorAt(i) && d == other.CursorAt(i)
        invariant c == Null <==> i == |a|
        invariant d == Null <==> i == |b|
        invariant LexLess(a, b) == LexLess(a[i..], b[i..])
        decreases |a| - i
      {
        var x, y := Deref(c, i).value, other.Deref(d, i).value;
        LexLessFrom(a, b, i);
        if x < y {
          return true;
        }
        if y < x {
          return false;
        }
        c, d := Advance(c, i), other.Advance(d, i);
        i := i + 1;
      }
      LexLessFrom(a, b, i);
      less := d.To?;
    }

    /** operator>: `other < this`. */
    method Greater(other: SkipList) returns (greater: bool)
      requires Valid() && other.Valid()
      ensures greater == LexLess(other.Contents, Contents)
    {
      greater := other.Less(this);
    }

    /** operator<=: not `other < this`. */
    method LessOrEqual(other: SkipList) returns (le: bool)
      requires Valid() && other.Valid()
      ensures le <==> LexLess(Contents, other.Contents) || Contents == other.Contents
    {
      var gt := other.Less(this);
      LexTrichotomy(Contents, other.Contents);
      le := !gt;
    }

    /** operator>=: not `this < other`. */
    method GreaterOrEqual(other: SkipList) returns (ge: bool)
      requires Valid() && other.Valid()
      ensures ge <==> LexLess(other.Contents, Contents) || Contents == other.Contents
    {
      var lt := Less(other);
      LexTrichotomy(Contents, other.Contents);
      ge := !lt;
    }

    // -------------------------------------------------------------------------
    // Copy and move.

    /** Reinserts every key of `other`, in iteration order, the i-th with
        `levels[i]` slots. */
    method InsertEach(other: SkipList, levels: seq<nat>)
      requires Valid() && other.Valid() && other != this && Contents == []
      requires |levels| == |other.Contents|
      requires forall i :: 0 <= i < |levels| ==> 1 <= levels[i] <= MAX_LEVEL
      modifies this
      ensures Valid() && Contents == other.Contents
    {
      var c := other.Begin();
      var i := 0;
      while c.To?
        invariant Valid() && other.Valid()
        invariant i <= |other.Contents| && c == other.CursorAt(i)
        invariant Contents == other.Contents[..i]
        decreases |other.Contents| - i
      {
        var v := other.Deref(c, i).value;
        InsertSortedAppend(other.Contents, i);
        Insert(v, levels[i]);
        c := other.Advance(c, i);
        i := i + 1;
      }
      assert other.Contents[..i] == other.Contents;
    }

    /** Copy construction: an independent list with the same keys, its nodes
        given heights `levels` (arguments: a random draw is not modelled). */
    constructor Copy(other: SkipList, levels: seq<nat>)
      requires other.Valid()
      requires |levels| == |other.Contents|
      requires forall i :: 0 <= i < |levels| ==> 1 <= levels[i] <= MAX_LEVEL
      ensures Valid() && Contents == other.Contents
    {
      new;
      Clear();
      InsertEach(other, levels);
    }

    /** Copy assignment; assigning a list to itself changes nothing. */
    method CopyFrom(other: SkipList, levels: seq<nat>)
      requires Valid() && other.Valid()
      requires |levels| == |other.Contents|
      requires forall i :: 0 <= i < |levels| ==> 1 <= levels[i] <= MAX_LEVEL
      modifies this
      ensures Valid() && Contents == old(other.Contents)
      ensures other == this ==> nodes == old(nodes) && Chain == old(Chain) && currentLevel == old(currentLevel)
    {
      if other == this {
        return;
      }
      Clear();
      InsertEach(other, levels);
    }

    /** Move construction: takes over `other`'s nodes and counters and leaves
        `other` a valid empty list. */
    constructor Move(other: SkipList)
      requires other.Valid()
      modifies other
      ensures Valid() && other.Valid()
      ensures Contents == old(other.Contents) && currentLevel == old(other.currentLevel)
      ensures nodes == old(other.nodes) && Chain == old(other.Chain)
      ensures other.Contents == [] && other.currentLevel == 0
    {
      nodes, currentLevel, numElements := other.nodes, other.currentLevel, other.numElements;
      Chain, Contents := other.Chain, other.Contents;
      new;
      other.Clear();
    }

    /** Move assignment; moving a list into itself changes nothing. */
    method MoveFrom(other: SkipList)
      requires Valid() && other.Valid()
      modifies this, other
      ensures Valid() && other.Valid()
      ensures Contents == old(other.Contents) && currentLevel == old(other.currentLevel)
      ensures other != this ==> other.Contents == [] && other.currentLevel == 0
      ensures other != this ==> nodes == old(other.nodes) && Chain == old(other.Chain)
      ensures other == this ==> nodes == old(nodes) && Chain == old(Chain)
    {
      if other == this {
        return;
      }
      nodes, currentLevel, numElements := other.nodes, other.currentLevel, other.numElements;
      Chain, Contents := other.Chain, other.Contents;
      other.Clear();
    }
  }
}
