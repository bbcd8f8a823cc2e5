/** The abstract contents of a skip list: a strictly ascending sequence of
    keys, and what insert, erase and the comparison operators do to it. */
module OrderedSeqs {

  /** Strictly ascending, hence free of duplicates. */
  predicate Sorted(s: seq<int>) {
    forall i, j :: 0 <= i < j < |s| ==> s[i] < s[j]
  }

  /** The number of keys below `v`: where `v` is, or would be, stored. */
  function LowerBound(s: seq<int>, v: int): (k: nat)
    ensures k <= |s|
    ensures forall i :: 0 <= i < k ==> s[i] < v
    ensures Sorted(s) ==> forall i :: k <= i < |s| ==> v <= s[i]
  {
    if s == [] || v <= s[0] then 0 else 1 + LowerBound(s[1..], v)
  }

  /** In a sorted sequence, `v` is present exactly when it sits at its lower bound. */
  lemma LowerBoundFinds(s: seq<int>, v: int)
    requires Sorted(s)
    ensures v in s <==> LowerBound(s, v) < |s| && s[LowerBound(s, v)] == v
  {
    var k := LowerBound(s, v);
    if v in s {
      var i :| 0 <= i < |s| && s[i] == v;
      assert k <= i;
    }
  }

  /** The contents after inserting `v`: unchanged when present, else `v` in its place. */
  function InsertSorted(s: seq<int>, v: int): seq<int> {
    if v in s then s else var k := LowerBound(s, v); s[..k] + [v] + s[k..]
  }

  /** The contents after erasing `v`: unchanged when absent, else without `v`. */
  function RemoveSorted(s: seq<int>, v: int): seq<int> {
    if v in s then var k := LowerBound(s, v); s[..k] + s[k + 1..] else s
  }

  /** Placing `v` at position `k`, between the keys below it and the keys
      above it, keeps the sequence ascending and adds exactly `v`. */
  lemma PutSpec(s: seq<int>, k: nat, v: int)
    requires Sorted(s) && k <= |s|
    requires forall i :: 0 <= i < k ==> s[i] < v
    requires forall i :: k <= i < |s| ==> v < s[i]
    ensures Sorted(s[..k] + [v] + s[k..])
    ensures forall x :: x in s[..k] + [v] + s[k..] <==> x in s || x == v
  {
    var r := s[..k] + [v] + s[k..];
    forall i | 0 <= i < |r| ensures r[i] == if i < k then s[i] else if i == k then v else s[i - 1] {
    }
    forall i, j | 0 <= i < j < |r| ensures r[i] < r[j] {
    }
    forall x | x in s ensures x in r {
      var i :| 0 <= i < |s| && s[i] == x;
      assert r[if i < k then i else i + 1] == x;
    }
  }

  /** Dropping the key at position `k` keeps the sequence ascending and
      removes exactly that key. */
  lemma DropSpec(s: seq<int>, k: nat)
    requires Sorted(s) && k < |s|
    ensures Sorted(s[..k] + s[k + 1..])
    ensures forall x :: x in s[..k] + s[k + 1..] <==> x in s && x != s[k]
  {
    var r := s[..k] + s[k + 1..];
    assert forall i :: 0 <= i < |r| ==> r[i] == s[if i < k then i else i + 1];
    forall x | x in s && x != s[k] ensures x in r {
      var i :| 0 <= i < |s| && s[i] == x;
      assert r[if i < k then i else i - 1] == x;
    }
  }

  /** Insertion keeps the keys ascending, adds exactly `v`, and grows only when `v` is new. */
  lemma InsertSortedSpec(s: seq<int>, v: int)
    requires Sorted(s)
    ensures Sorted(InsertSorted(s, v))
    ensures forall x :: x in InsertSorted(s, v) <==> x in s || x == v
    ensures |InsertSorted(s, v)| == if v in s then |s| else |s| + 1
  {
    if v !in s {
      var k := LowerBound(s, v);
      assert forall i :: k <= i < |s| ==> v != s[i];
      PutSpec(s, k, v);
    }
  }

  /** Erasure keeps the keys ascending, removes exactly `v`, and shrinks only when `v` was present. */
  lemma RemoveSortedSpec(s: seq<int>, v: int)
    requires Sorted(s)
    ensures Sorted(RemoveSorted(s, v))
    ensures forall x :: x in RemoveSorted(s, v) <==> x in s && x != v
    ensures |RemoveSorted(s, v)| == if v in s then |s| - 1 else |s|
  {
    if v in s {
      LowerBoundFinds(s, v);
      DropSpec(s, LowerBound(s, v));
    }
  }

  /** The tail of an ascending sequence holds every key but the first, the smallest. */
  lemma SortedTail(s: seq<int>)
    requires Sorted(s) && s != []
    ensures forall x :: x in s[1..] <==> x in s && x != s[0]
  {
    forall x | x in s && x != s[0] ensures x in s[1..] {
      var i :| 0 <= i < |s| && s[i] == x;
      assert s[1..][i - 1] == x;
    }
  }

  /** Two ascending sequences holding the same keys are the same sequence:
      the contents do not depend on the order in which keys were inserted. */
  lemma {:induction false} SortedUnique(a: seq<int>, b: seq<int>)
    requires Sorted(a) && Sorted(b)
    requires forall x :: x in a <==> x in b
    ensures a == b
    decreases |a|
  {
    if a != [] { assert a[0] in a; }
    if b != [] { assert b[0] in b; }
    if a != [] && b != [] {
      assert a[0] == b[0] by {
        assert a[0] in a && b[0] in b;
        var i :| 0 <= i < |a| && a[i] == b[0];
        var j :| 0 <= j < |b| && b[j] == a[0];
        assert a[0] <= a[i] && b[0] <= b[j];
      }
      SortedTail(a);
      SortedTail(b);
      SortedUnique(a[1..], b[1..]);
      assert a == [a[0]] + a[1..] && b == [b[0]] + b[1..];
    }
  }

  /** Erasing a key just inserted gives back the original contents. */
  lemma RemoveInsert(s: seq<int>, v: int)
    requires Sorted(s) && v !in s
    ensures RemoveSorted(InsertSorted(s, v), v) == s
  {
    InsertSortedSpec(s, v);
    RemoveSortedSpec(InsertSorted(s, v), v);
    SortedUnique(RemoveSorted(InsertSorted(s, v), v), s);
  }

  /** Re-inserting a key just erased gives back the original contents. */
  lemma InsertRemove(s: seq<int>, v: int)
    requires Sorted(s) && v in s
    ensures InsertSorted(RemoveSorted(s, v), v) == s
  {
    RemoveSortedSpec(s, v);
    InsertSortedSpec(RemoveSorted(s, v), v);
    SortedUnique(InsertSorted(RemoveSorted(s, v), v), s);
  }

  /** Appending the next key of an ascending sequence is an insertion:
      rebuilding a list by inserting its keys in iteration order copies it. */
  lemma InsertSortedAppend(s: seq<int>, i: nat)
    requires Sorted(s) && i < |s|
    ensures InsertSorted(s[..i], s[i]) == s[..i + 1]
  {
    var p := s[..i];
    assert s[i] !in p && Sorted(p);
    assert forall j :: 0 <= j < i ==> p[j] == s[j] < s[i];
    assert p[..i] + [s[i]] + p[i..] == s[..i + 1];
  }

  /** The contents after inserting the keys of `vs`, first to last, into an empty list. */
  function InsertAll(vs: seq<int>): seq<int> {
    if vs == [] then [] else InsertSorted(InsertAll(vs[..|vs| - 1]), vs[|vs| - 1])
  }

  /** The distinct keys of `vs + [x]` are those of `vs` and `x`. */
  lemma DistinctSnoc(vs: seq<int>, x: int)
    ensures (set y | y in vs + [x]) == (set y | y in vs) + {x}
  {
    assert forall y :: y in vs + [x] <==> y in vs || y == x;
  }

  /** After any sequence of inserts the contents are the distinct inserted keys, ascending,
      and their number is the number of distinct keys inserted. */
  lemma {:induction false} InsertAllSpec(vs: seq<int>)
    ensures Sorted(InsertAll(vs))
    ensures forall x :: x in InsertAll(vs) <==> x in vs
    ensures |InsertAll(vs)| == |set x | x in vs|
  {
    if vs != [] {
      var init, last := vs[..|vs| - 1], vs[|vs| - 1];
      assert vs == init + [last];
      InsertAllSpec(init);
      InsertSortedSpec(InsertAll(init), last);
      DistinctSnoc(init, last);
      assert last in (set y | y in init) <==> last in init;
    }
  }

  /** Two insert sequences with the same keys, in whatever order and with
      whatever repetitions, leave the same contents. */
  lemma InsertAllOrderFree(vs: seq<int>, ws: seq<int>)
    requires forall x :: x in vs <==> x in ws
    ensures InsertAll(vs) == InsertAll(ws)
  {
    InsertAllSpec(vs);
    InsertAllSpec(ws);
    SortedUnique(InsertAll(vs), InsertAll(ws));
  }

  /** Lexicographic "less than" (std::lexicographical_compare) over two ascending sequences. */
  predicate LexLess(a: seq<int>, b: seq<int>) {
    if a == [] || b == [] then a == [] && b != []
    else if a[0] != b[0] then a[0] < b[0]
    else LexLess(a[1..], b[1..])
  }

  /** `a` and `b` agree before position `k`, and there `a` is exhausted or smaller. */
  ghost predicate LessAt(a: seq<int>, b: seq<int>, k: nat) {
    k <= |a| && k < |b| && a[..k] == b[..k] && (k == |a| || a[k] < b[k])
  }

  /** Where `a < b`, the position of the first difference (or the end of `a`). */
  lemma {:induction false} LexLessWitness(a: seq<int>, b: seq<int>) returns (k: nat)
    requires LexLess(a, b)
    ensures LessAt(a, b, k)
    decreases |a|
  {
    if a == [] || a[0] != b[0] {
      k := 0;
    } else {
      var k' := LexLessWitness(a[1..], b[1..]);
      k := k' + 1;
      assert a[..k] == [a[0]] + a[1..][..k'];
      assert b[..k] == [b[0]] + b[1..][..k'];
    }
  }

  /** Agreeing up to position `k` and being exhausted or smaller there makes `a < b`. */
  lemma {:induction false} LessAtLex(a: seq<int>, b: seq<int>, k: nat)
    requires LessAt(a, b, k)
    ensures LexLess(a, b)
    decreases k
  {
    if 0 < k {
      assert a[0] == a[..k][0] == b[..k][0] == b[0];
      assert a[1..][..k - 1] == a[..k][1..];
      assert b[1..][..k - 1] == b[..k][1..];
      LessAtLex(a[1..], b[1..], k - 1);
    }
  }

  /** `a < b` holds exactly when `a` is smaller at the first difference or is a strict prefix of `b`. */
  lemma LexLessIff(a: seq<int>, b: seq<int>)
    ensures LexLess(a, b) <==> exists k: nat :: LessAt(a, b, k)
  {
    if LexLess(a, b) {
      var k := LexLessWitness(a, b);
    }
    forall k: nat | LessAt(a, b, k) ensures LexLess(a, b) {
      LessAtLex(a, b, k);
    }
  }

  /** Exactly one of `a < b`, `a == b`, `b < a` holds. */
  lemma {:induction false} LexTrichotomy(a: seq<int>, b: seq<int>)
    ensures LexLess(a, b) || a == b || LexLess(b, a)
    ensures !(LexLess(a, b) && a == b)
    ensures !(LexLess(a, b) && LexLess(b, a))
    ensures !(a == b && LexLess(b, a))
    decreases |a|
  {
    if a != [] && b != [] && a[0] == b[0] {
      LexTrichotomy(a[1..], b[1..]);
      if a[1..] == b[1..] {
        assert a == [a[0]] + a[1..] && b == [b[0]] + b[1..];
      }
    }
  }

  /** Lexicographic "less than" is transitive. */
  lemma {:induction false} LexTransitive(a: seq<int>, b: seq<int>, c: seq<int>)
    requires LexLess(a, b) && LexLess(b, c)
    ensures LexLess(a, c)
    decreases |a|
  {
    if a != [] && a[0] == b[0] && b[0] == c[0] {
      LexTransitive(a[1..], b[1..], c[1..]);
    }
  }

  /** Comparing the suffixes from position `i` looks at their first keys:
      an exhausted side, a difference, or a tie that moves on to `i + 1`. */
  lemma LexLessFrom(a: seq<int>, b: seq<int>, i: nat)
    requires i <= |a| && i <= |b|
    ensures LexLess(a[i..], b[i..]) ==
      if i == |a| || i == |b| then i == |a| && i < |b|
      else if a[i] != b[i] then a[i] < b[i]
      else LexLess(a[i + 1..], b[i + 1..])
  {
    if i < |a| && i < |b| {
      assert a[i..][1..] == a[i + 1..] && b[i..][1..] == b[i + 1..];
    }
  }
}
