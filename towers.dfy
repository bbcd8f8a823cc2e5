/** Where each link of a skip list points, worked out from the heights of the
    nodes along the level-0 chain alone. Position 0 of `hs` is the head
    sentinel; position p > 0 is the p-th stored node in ascending order, and a
    node of height h occupies levels 0 .. h - 1. */
module Towers {
  import opened Nodes

  /** `s` with `x` placed at position `i`. */
  function InsertAt<T>(s: seq<T>, i: nat, x: T): (r: seq<T>)
    requires i <= |s|
    // The ensures spell out the sequence update point by point, as trigger aids.
    ensures |r| == |s| + 1 && r[i] == x
    ensures forall j :: 0 <= j < i ==> r[j] == s[j]
    ensures forall j :: i < j < |r| ==> r[j] == s[j - 1]
  {
    s[..i] + [x] + s[i..]
  }

  /** `s` without its element at position `i`. */
  function RemoveAt<T>(s: seq<T>, i: nat): (r: seq<T>)
    requires i < |s|
    // The ensures spell out the sequence update point by point, as trigger aids.
    ensures |r| == |s| - 1
    ensures forall j :: 0 <= j < i ==> r[j] == s[j]
    ensures forall j :: i <= j < |r| ==> r[j] == s[j + 1]
  {
    s[..i] + s[i + 1..]
  }

  /** The position that the node at position `p` links to on level `l`: the
      first later position tall enough to occupy level `l`, or |hs| (null). */
  function NextAt(hs: seq<nat>, p: nat, l: nat): (q: nat)
    requires p < |hs|
    ensures p < q <= |hs|
    ensures q < |hs| ==> l < hs[q]
    ensures forall r :: p < r < q ==> hs[r] <= l
    decreases |hs| - p
  {
    if p + 1 == |hs| then |hs|
    else if l < hs[p + 1] then p + 1
    else NextAt(hs, p + 1, l)
  }

  /** The three properties of NextAt pin it down. */
  lemma NextAtIs(hs: seq<nat>, p: nat, l: nat, q: nat)
    requires p < q <= |hs|
    requires q < |hs| ==> l < hs[q]
    requires forall r :: p < r < q ==> hs[r] <= l
    ensures NextAt(hs, p, l) == q
  {
  }

  /** The predecessor on level `l` of whatever goes at position `b`: the last
      position before `b` tall enough to occupy level `l` (the head always is). */
  function LastBelow(hs: seq<nat>, b: nat, l: nat): (p: nat)
    requires 0 < b <= |hs| && l < hs[0]
    ensures p < b && l < hs[p]
    ensures forall r :: p < r < b ==> hs[r] <= l
    decreases b
  {
    if l < hs[b - 1] then b - 1 else LastBelow(hs, b - 1, l)
  }

  /** The three properties of LastBelow pin it down. */
  lemma LastBelowIs(hs: seq<nat>, b: nat, l: nat, p: nat)
    requires 0 < b <= |hs| && l < hs[0]
    requires p < b && l < hs[p]
    requires forall r :: p < r < b ==> hs[r] <= l
    ensures LastBelow(hs, b, l) == p
  {
  }

  /** The predecessor on level `l` links past position b - 1. */
  lemma LastBelowLinksPast(hs: seq<nat>, b: nat, l: nat)
    requires 0 < b <= |hs| && l < hs[0]
    ensures b <= NextAt(hs, LastBelow(hs, b, l), l)
  {
  }

  // Inserting a node of height h at position b.

  /** A node after the insertion point links to the same node as before. */
  lemma NextAtInsertAfter(hs: seq<nat>, b: nat, h: nat, p: nat, l: nat)
    requires 0 < b <= p < |hs|
    ensures NextAt(InsertAt(hs, b, h), p + 1, l) == NextAt(hs, p, l) + 1
  {
    var hs' := InsertAt(hs, b, h);
    var q := NextAt(hs, p, l);
    forall r | p + 1 < r < q + 1 ensures hs'[r] <= l {
      assert hs'[r] == hs[r - 1];
    }
    NextAtIs(hs', p + 1, l, q + 1);
  }

  /** The new node takes over the link its predecessor on level `l` had. */
  lemma NextAtInsertNew(hs: seq<nat>, b: nat, h: nat, l: nat)
    requires 0 < b <= |hs| && l < hs[0]
    ensures NextAt(InsertAt(hs, b, h), b, l) == NextAt(hs, LastBelow(hs, b, l), l) + 1
  {
    var hs' := InsertAt(hs, b, h);
    var p := LastBelow(hs, b, l);
    var q := NextAt(hs, p, l);
    forall r | b < r < q + 1 ensures hs'[r] <= l {
      assert hs'[r] == hs[r - 1];
    }
    NextAtIs(hs', b, l, q + 1);
  }

  /** A node before the insertion point links to the new node when it is the
      new node's predecessor on a level the new node occupies, and otherwise to
      the same node as before. */
  lemma NextAtInsertBefore(hs: seq<nat>, b: nat, h: nat, p: nat, l: nat)
    requires p < b <= |hs| && l < hs[p] && l < hs[0]
    ensures NextAt(InsertAt(hs, b, h), p, l) ==
      if l < h && p == LastBelow(hs, b, l) then b
      else if NextAt(hs, p, l) < b then NextAt(hs, p, l)
      else NextAt(hs, p, l) + 1
  {
    var hs' := InsertAt(hs, b, h);
    var q := NextAt(hs, p, l);
    var last := LastBelow(hs, b, l);
    if l < h && p == last {
      NextAtIs(hs', p, l, b);
    } else if q < b {
      NextAtIs(hs', p, l, q);
    } else {
      LastBelowIs(hs, b, l, p);
      forall r | p < r < q + 1 ensures hs'[r] <= l {
        if r > b { assert hs'[r] == hs[r - 1]; }
      }
      NextAtIs(hs', p, l, q + 1);
    }
  }

  // Removing the node at position b.

  /** A node after the removed one links to the same node as before. */
  lemma NextAtRemoveAfter(hs: seq<nat>, b: nat, p: nat, l: nat)
    requires 0 < b <= p && p + 1 < |hs|
    ensures NextAt(RemoveAt(hs, b), p, l) == NextAt(hs, p + 1, l) - 1
  {
    var hs' := RemoveAt(hs, b);
    var q := NextAt(hs, p + 1, l);
    forall r | p < r < q - 1 ensures hs'[r] <= l {
      assert hs'[r] == hs[r + 1];
    }
    NextAtIs(hs', p, l, q - 1);
  }

  /** A node before the removed one inherits the removed node's link when it
      was the removed node's predecessor on a level that node occupied, and
      otherwise links to the same node as before. */
  lemma NextAtRemoveBefore(hs: seq<nat>, b: nat, p: nat, l: nat)
    requires p < b < |hs| && l < hs[p] && l < hs[0]
    ensures NextAt(RemoveAt(hs, b), p, l) ==
      if l < hs[b] && p == LastBelow(hs, b, l) then NextAt(hs, b, l) - 1
      else if NextAt(hs, p, l) < b then NextAt(hs, p, l)
      else NextAt(hs, p, l) - 1
  {
    var hs' := RemoveAt(hs, b);
    var q := NextAt(hs, p, l);
    var last := LastBelow(hs, b, l);
    if l < hs[b] && p == last {
      var q' := NextAt(hs, b, l);
      forall r | p < r < q' - 1 ensures hs'[r] <= l {
        if r >= b { assert hs'[r] == hs[r + 1]; }
      }
      NextAtIs(hs', p, l, q' - 1);
    } else if q < b {
      NextAtIs(hs', p, l, q);
    } else {
      LastBelowIs(hs, b, l, p);
      forall r | p < r < q - 1 ensures hs'[r] <= l {
        if r >= b { assert hs'[r] == hs[r + 1]; }
      }
      NextAtIs(hs', p, l, q - 1);
    }
  }

  // The same facts, stated as the links a chain of arena indices ends up with.

  /** The link to position `q` of `chain`; position |chain| is the end (null). */
  function LinkTo(chain: seq<nat>, q: nat): (k: Link)
    requires q <= |chain|
  {
    if q == |chain| then Null else To(chain[q])
  }

  /** Inserting arena cell `n` at position `b`: a node before it links to `n`
      exactly when it is `n`'s predecessor on a level `n` occupies. */
  lemma LinkBeforeInsert(chain: seq<nat>, hs: seq<nat>, b: nat, h: nat, n: nat, p: nat, l: nat)
    requires |hs| == |chain| && p < b <= |chain| && l < hs[p] && l < hs[0]
    ensures LinkTo(InsertAt(chain, b, n), NextAt(InsertAt(hs, b, h), p, l)) ==
      if l < h && LastBelow(hs, b, l) == p then To(n) else LinkTo(chain, NextAt(hs, p, l))
  {
    NextAtInsertBefore(hs, b, h, p, l);
  }

  /** The inserted cell links where its predecessor used to. */
  lemma LinkOfInserted(chain: seq<nat>, hs: seq<nat>, b: nat, h: nat, n: nat, l: nat)
    requires |hs| == |chain| && 0 < b <= |chain| && l < hs[0]
    ensures LinkTo(InsertAt(chain, b, n), NextAt(InsertAt(hs, b, h), b, l)) ==
      LinkTo(chain, NextAt(hs, LastBelow(hs, b, l), l))
  {
    NextAtInsertNew(hs, b, h, l);
    LastBelowLinksPast(hs, b, l);
  }

  /** A node after the inserted cell keeps its link. */
  lemma LinkAfterInsert(chain: seq<nat>, hs: seq<nat>, b: nat, h: nat, n: nat, p: nat, l: nat)
    requires |hs| == |chain| && 0 < b < p <= |chain|
    ensures LinkTo(InsertAt(chain, b, n), NextAt(InsertAt(hs, b, h), p, l)) == LinkTo(chain, NextAt(hs, p - 1, l))
  {
    NextAtInsertAfter(hs, b, h, p - 1, l);
  }

  /** Removing position `b`: a node before it takes over the removed node's
      link exactly when it was the removed node's predecessor on a level the
      removed node occupied. */
  lemma LinkBeforeRemove(chain: seq<nat>, hs: seq<nat>, b: nat, p: nat, l: nat)
    requires |hs| == |chain| && p < b < |chain| && l < hs[p] && l < hs[0]
    ensures LinkTo(RemoveAt(chain, b), NextAt(RemoveAt(hs, b), p, l)) ==
      if l < hs[b] && LastBelow(hs, b, l) == p then LinkTo(chain, NextAt(hs, b, l))
      else LinkTo(chain, NextAt(hs, p, l))
  {
    if NextAt(hs, p, l) == b {
      LastBelowIs(hs, b, l, p);
    }
    NextAtRemoveBefore(hs, b, p, l);
  }

  /** A node after the removed one keeps its link. */
  lemma LinkAfterRemove(chain: seq<nat>, hs: seq<nat>, b: nat, p: nat, l: nat)
    requires |hs| == |chain| && 0 < b < p < |chain|
    ensures LinkTo(RemoveAt(chain, b), NextAt(RemoveAt(hs, b), p - 1, l)) == LinkTo(chain, NextAt(hs, p, l))
  {
    NextAtRemoveAfter(hs, b, p - 1, l);
  }
}
