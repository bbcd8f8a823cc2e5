/** A skip-list node (include/node.h): one value and one successor link per
    level the node occupies. Nodes live in an arena and name each other by
    arena index. */
module Nodes {

  /** A successor link: the arena index of the next node on that level, or the
      end of that level's chain (a null pointer in the source). */
  datatype Link = Null | To(index: nat)

  /** A real node holds a value; the dummy node, used only as the head
      sentinel, holds none. Either way `next` has one slot per level. */
  datatype Node = Node(value: int, next: seq<Link>) | Dummy(next: seq<Link>)

  /** The value constructor: stores `val` and gets exactly `level` slots, all
      null, so the node sits on levels 0 .. level - 1. */
  function NewNode(val: int, level: nat): (n: Node)
    ensures n.Node? && n.value == val
    ensures |n.next| == level
    ensures forall l :: 0 <= l < level ==> n.next[l] == Null
  {
    Node(val, seq(level, _ => Null))
  }

  /** The dummy constructor: a value-less node with `level` null slots. */
  function NewDummy(level: nat): (n: Node)
    ensures n.Dummy?
    ensures |n.next| == level
    ensures forall l :: 0 <= l < level ==> n.next[l] == Null
  {
    Dummy(seq(level, _ => Null))
  }

  /** `n` with its link on level `l` redirected to `target`; nothing else changes. */
  function SetLink(n: Node, l: nat, target: Link): (m: Node)
    requires l < |n.next|
    // The ensures spell out the update point by point, as trigger aids.
    ensures m.Node? == n.Node? && (n.Node? ==> m.value == n.value)
    ensures |m.next| == |n.next| && m.next[l] == target
    ensures forall k :: 0 <= k < |n.next| && k != l ==> m.next[k] == n.next[k]
  {
    n.(next := n.next[l := target])
  }

  /** `a` and `b` are the same arena cell up to their links. */
  ghost predicate SameCell(a: Node, b: Node) {
    a.Node? == b.Node? && (a.Node? ==> a.value == b.value) && |a.next| == |b.next|
  }
}
