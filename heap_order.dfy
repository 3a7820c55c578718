/**
  Heap order of a ternary min-heap, stated on the live prefix of the heap
  array as a sequence, together with the partial orders that hold while a
  value is being sifted up or down, and the facts that make each step of
  the sift keep them.
 */
module HeapOrder {
  import opened HeapIndex

  /** Heap order: no live node holds a smaller value than its parent. */
  ghost predicate Ordered(s: seq<int>)
  {
    forall k {:trigger s[GetParent(k)]} :: 0 < k < |s| ==> s[GetParent(k)] <= s[k]
  }

  /**
    Heap order on every edge whose parent slot is at least lo and is not
    `hole`: what holds while a value sinks from `hole` (lo = 0 inside a
    heap, lo = the starting slot during bottom-up construction).
   */
  ghost predicate OrderedBelow(s: seq<int>, lo: int, hole: int)
  {
    forall k {:trigger s[GetParent(k)]} :: 0 < k < |s| && lo <= GetParent(k) && GetParent(k) != hole ==> s[GetParent(k)] <= s[k]
  }

  /** Heap order on every edge except the one from `hole` up to its parent: what holds while a value rises. */
  ghost predicate OrderedExceptInto(s: seq<int>, hole: int)
  {
    forall k {:trigger s[GetParent(k)]} :: 0 < k < |s| && k != hole ==> s[GetParent(k)] <= s[k]
  }

  /** The parent of slot i is no larger than any child of i, so the edge may skip over i. */
  ghost predicate Bridged(s: seq<int>, i: int)
  {
    0 < i < |s| ==> forall k :: 0 < k < |s| && IsChildOf(k, i) ==> s[GetParent(i)] <= s[k]
  }

  /** Slot k lies in the subtree rooted at slot r. */
  ghost predicate Descends(k: int, r: int)
    decreases k
  {
    k == r || (0 <= r < k && Descends(GetParent(k), r))
  }

  /** Heap order stated over children: each node is at most each of its up to three live children. */
  ghost predicate OrderedByChild(s: seq<int>)
  {
    forall i, c :: 0 <= i < |s| && 0 < c < |s| && IsChildOf(c, i) ==> s[i] <= s[c]
  }

  /** The parent-based heap order and the child-based one are the same property. */
  lemma OrderedIffOrderedByChild(s: seq<int>)
    ensures Ordered(s) <==> OrderedByChild(s)
  {
    if Ordered(s) {
      forall i, c | 0 <= i < |s| && 0 < c < |s| && IsChildOf(c, i) ensures s[i] <= s[c] {
        assert GetParent(c) == i;
      }
    }
    if OrderedByChild(s) {
      forall k | 0 < k < |s| ensures s[GetParent(k)] <= s[k] {
        assert IsChildOf(k, GetParent(k));
      }
    }
  }

  /** A child slot lies in the subtree of its parent. */
  lemma ChildDescends(c: int, r: int)
    requires IsChildOf(c, r)
    ensures Descends(c, r)
  {
    assert GetParent(c) == r;
  }

  /** b differs from a only inside the subtree rooted at slot r. */
  ghost predicate SameOutside(a: seq<int>, b: seq<int>, r: int)
  {
    |a| == |b| && forall k :: 0 <= k < |a| && !Descends(k, r) ==> a[k] == b[k]
  }

  /** Writing a slot of r's subtree changes nothing outside it. */
  lemma WriteInside(a: seq<int>, r: int, j: int, v: int)
    requires 0 <= j < |a| && Descends(j, r)
    ensures SameOutside(a, a[j := v], r)
  {
  }

  /** Changes confined to the subtree of a child of r, then to r's subtree, stay inside r's subtree. */
  lemma SameOutsideThenChild(a: seq<int>, b: seq<int>, d: seq<int>, r: int, c: int)
    requires IsChildOf(c, r) && SameOutside(a, b, r) && SameOutside(b, d, c)
    ensures SameOutside(a, d, r)
  {
    forall k | 0 <= k < |a| && !Descends(k, r) ensures a[k] == d[k] {
      if Descends(k, c) {
        ChildDescends(c, r);
        DescendsTransitive(k, c, r);
      }
    }
  }

  /** b differs from a only on the path from slot i up to the root. */
  ghost predicate SameOffPath(a: seq<int>, b: seq<int>, i: int)
  {
    |a| == |b| && forall k :: 0 <= k < |a| && !Descends(i, k) ==> a[k] == b[k]
  }

  /** Writing slot i changes nothing off the path from i to the root. */
  lemma WriteOnPath(a: seq<int>, i: int, v: int)
    requires 0 <= i < |a|
    ensures SameOffPath(a, a[i := v], i)
  {
  }

  /** Changes confined to the path from slot i, then to the path from its parent, stay on the path from i. */
  lemma SameOffPathThenParent(a: seq<int>, b: seq<int>, d: seq<int>, i: int)
    requires 0 < i && SameOffPath(a, b, i) && SameOffPath(b, d, GetParent(i))
    ensures SameOffPath(a, d, i)
  {
    forall k | 0 <= k < |a| && !Descends(i, k) ensures a[k] == d[k] {
      assert !Descends(GetParent(i), k);
    }
  }

  /** Every slot is in the subtree of the root. */
  lemma {:induction false} RootDescends(k: int)
    requires 0 <= k
    ensures Descends(k, 0)
    decreases k
  {
    if k > 0 {
      RootDescends(GetParent(k));
    }
  }

  /** Subtrees nest: a slot in the subtree of m, which lies in the subtree of r, lies in the subtree of r. */
  lemma {:induction false} DescendsTransitive(k: int, m: int, r: int)
    requires Descends(k, m) && Descends(m, r)
    ensures Descends(k, r)
    decreases k
  {
    if k != m {
      DescendsTransitive(GetParent(k), m, r);
    }
  }

  /** A slot of r's subtree other than r lies in the subtree of one of r's children. */
  lemma {:induction false} DescendsViaChild(k: int, r: int)
    requires Descends(k, r) && k != r
    ensures exists c :: IsChildOf(c, r) && Descends(k, c)
    decreases k
  {
    var p := GetParent(k);
    if p == r {
      assert IsChildOf(k, r) && Descends(k, k);
    } else {
      DescendsViaChild(p, r);
      var c :| IsChildOf(c, r) && Descends(p, c);
      DescendsTransitive(k, p, c);
    }
  }

  /** Heap order makes every value of a subtree at least the value at its root: why search may prune. */
  lemma {:induction false} SubtreeAtLeastRoot(s: seq<int>, r: int, k: int)
    requires Ordered(s) && 0 <= r <= k < |s| && Descends(k, r)
    ensures s[r] <= s[k]
    decreases k
  {
    if k != r {
      SubtreeAtLeastRoot(s, r, GetParent(k));
    }
  }

  /** The root of a heap-ordered sequence holds its minimum. */
  lemma RootIsMinimum(s: seq<int>)
    requires Ordered(s) && |s| > 0
    ensures forall x :: x in multiset(s) ==> s[0] <= x
  {
    forall k | 0 <= k < |s| ensures s[0] <= s[k] {
      RootDescends(k);
      SubtreeAtLeastRoot(s, 0, k);
    }
    forall x | x in multiset(s) ensures s[0] <= x {
      assert x in s;
    }
  }

  /** Below every live value there is a leaf at least as large: the maximum of a heap is on a leaf. */
  lemma {:induction false} LeafAtLeast(s: seq<int>, k: int)
    requires Ordered(s) && 0 <= k < |s|
    ensures exists l :: k <= l < |s| && !IsParent(l, |s|) && s[k] <= s[l]
    decreases |s| - k
  {
    if IsParent(k, |s|) {
      var c := 3 * k + 1;
      assert GetParent(c) == k;
      LeafAtLeast(s, c);
    } else {
      assert !IsParent(k, |s|) && s[k] <= s[k];
    }
  }

  /**
    The child a sift-down takes from slot i: among children 1 .. k of i
    that are live, hold a value other than the sentinel and smaller than v,
    the first holding the least value; -1 when there is none.
   */
  function SmallerChild(s: seq<int>, v: int, i: int, k: int): (c: int)
    requires 0 <= i && 0 <= k <= 3
    ensures c == -1 || (IsChildOf(c, i) && c <= 3 * i + k && c < |s| && s[c] < v && s[c] != Sentinel)
  {
    if k == 0 then -1
    else
      var best := SmallerChild(s, v, i, k - 1);
      var c := 3 * i + k;
      if c < |s| && s[c] < v && s[c] != Sentinel && (best == -1 || s[c] < s[best]) then c else best
  }

  /**
    SmallerChild is the least of the candidates and the first of the least:
    -1 exactly when no child among the first k is smaller than v, and
    otherwise no larger than any live child and smaller than every live
    child before it.
   */
  lemma {:induction false} SmallerChildIsLeast(s: seq<int>, v: int, i: int, k: int)
    requires 0 <= i && 0 <= k <= 3
    ensures SmallerChild(s, v, i, k) == -1 <==>
      forall j :: 3 * i + 1 <= j <= 3 * i + k && j < |s| ==> !(s[j] < v && s[j] != Sentinel)
    ensures SmallerChild(s, v, i, k) != -1 ==>
      forall j :: 3 * i + 1 <= j <= 3 * i + k && j < |s| && s[j] != Sentinel ==> s[SmallerChild(s, v, i, k)] <= s[j]
    ensures SmallerChild(s, v, i, k) != -1 ==>
      forall j :: 3 * i + 1 <= j < SmallerChild(s, v, i, k) && s[j] != Sentinel ==> s[SmallerChild(s, v, i, k)] < s[j]
  {
    if k > 0 {
      SmallerChildIsLeast(s, v, i, k - 1);
    }
  }

  /**
    What holds while a value sinks from slot i: no sentinel among the
    values, heap order on every edge from a parent at or after lo except
    those out of i, and, when the edge into i is one of those, the parent of
    i no larger than the children of i.
   */
  ghost predicate SinkReady(s: seq<int>, lo: int, i: int)
  {
    0 <= lo <= i && Sentinel !in s && OrderedBelow(s, lo, i) && (lo <= GetParent(i) ==> Bridged(s, i))
  }

  /**
    Exchanging slot i with its smallest child c, smaller than the value at
    i, keeps every edge below lo outside c, and lets the edge into c skip
    over c.
   */
  lemma SwapDownOrder(h: seq<int>, lo: int, i: int, c: int)
    requires 0 <= lo <= i < c < |h| && IsChildOf(c, i)
    requires OrderedBelow(h, lo, i)
    requires lo <= GetParent(i) ==> Bridged(h, i)
    requires h[c] < h[i]
    requires forall k :: 0 < k < |h| && IsChildOf(k, i) ==> h[c] <= h[k]
    ensures OrderedBelow(h[i := h[c]][c := h[i]], lo, c)
  {
    var t := h[i := h[c]][c := h[i]];
    forall k | 0 < k < |t| && lo <= GetParent(k) && GetParent(k) != c
      ensures t[GetParent(k)] <= t[k]
    {
      var p := GetParent(k);
      if k == i {
        assert h[p] <= h[c];
      } else if k == c {
      } else if p == i {
        assert IsChildOf(k, i);
      } else {
        assert h[p] <= h[k];
      }
    }
  }

  /** After the exchange the children of c are no smaller than the value that moved up into i. */
  lemma SwapDownBridge(h: seq<int>, lo: int, i: int, c: int)
    requires 0 <= lo <= i < c < |h| && IsChildOf(c, i)
    requires OrderedBelow(h, lo, i)
    ensures Bridged(h[i := h[c]][c := h[i]], c)
  {
    var t := h[i := h[c]][c := h[i]];
    assert GetParent(c) == i;
    forall k | 0 < k < |t| && IsChildOf(k, c) ensures t[GetParent(c)] <= t[k] {
      assert GetParent(k) == c;
      assert h[c] <= h[k];
    }
  }

  /**
    One step of the sift-down, on the array a whose slot i is taken to hold
    v: the smallest child c, smaller than v, moves up into i and the hole
    moves to c, with the same values as before.
   */
  lemma SiftDownStep(a: seq<int>, v: int, lo: int, i: int, c: int)
    requires 0 <= i < |a|
    requires c == SmallerChild(a, v, i, 3) && c != -1
    requires SinkReady(a[i := v], lo, i)
    ensures SinkReady(a[i := a[c]][c := v], lo, c)
    ensures multiset(a[i := a[c]][c := v]) == multiset(a[i := v])
  {
    SmallerChildIsLeast(a, v, i, 3);
    var h := a[i := v];
    assert a[i := a[c]][c := v] == h[i := h[c]][c := h[i]];
    forall k | 0 < k < |h| && IsChildOf(k, i) ensures h[c] <= h[k] {
      assert h[k] == a[k] && h[k] in h;
    }
    SwapDownOrder(h, lo, i, c);
    SwapDownBridge(h, lo, i, c);
    SwapMultiset(h, i, c);
    assert Sentinel !in multiset(h);
  }

  /** Exchanging two slots keeps the values. */
  lemma SwapMultiset(h: seq<int>, i: int, j: int)
    requires 0 <= i < |h| && 0 <= j < |h|
    ensures multiset(h[i := h[j]][j := h[i]]) == multiset(h)
  {
  }

  /** Bottom-up construction at slot i: once every edge below i holds, the value already in slot i may sink. */
  lemma BuildStepReady(s: seq<int>, i: int)
    requires 0 <= i && Sentinel !in s && OrderedBelow(s, i + 1, -1)
    ensures SinkReady(s, i, i)
  {
  }

  /** Heap order on every edge whose parent is at or after the root is heap order. */
  lemma OrderedFromRoot(s: seq<int>)
    requires OrderedBelow(s, 0, -1)
    ensures Ordered(s)
  {
  }

  /** The sift-down stops at slot i: no child is smaller than v, so putting v in slot i leaves heap order from lo on. */
  lemma SiftDownDone(a: seq<int>, v: int, lo: int, i: int)
    requires 0 <= i < |a|
    requires SinkReady(a[i := v], lo, i)
    requires SmallerChild(a, v, i, 3) == -1
    ensures OrderedBelow(a[i := v], lo, -1)
  {
    SmallerChildIsLeast(a, v, i, 3);
    var h := a[i := v];
    forall k | 0 < k < |h| && lo <= GetParent(k) ensures h[GetParent(k)] <= h[k] {
      if GetParent(k) == i {
        assert IsChildOf(k, i) && h[k] in h;
      }
    }
  }

  /**
    One step of the sift-up, on the array a whose slot i is taken to hold v:
    the parent, larger than v, moves down into i and the hole moves to the
    parent, with the same values as before.
   */
  lemma SiftUpStep(a: seq<int>, v: int, i: int)
    requires 0 < i < |a|
    requires OrderedExceptInto(a[i := v], i) && Bridged(a[i := v], i)
    requires v < a[GetParent(i)]
    ensures OrderedExceptInto(a[i := a[GetParent(i)]][GetParent(i) := v], GetParent(i))
    ensures Bridged(a[i := a[GetParent(i)]][GetParent(i) := v], GetParent(i))
    ensures multiset(a[i := a[GetParent(i)]][GetParent(i) := v]) == multiset(a[i := v])
  {
    var h := a[i := v];
    var p := GetParent(i);
    var t := a[i := a[p]][p := v];
    assert t == h[i := h[p]][p := h[i]];
    forall k | 0 < k < |t| && k != p ensures t[GetParent(k)] <= t[k] {
      var q := GetParent(k);
      if k == i {
      } else if q == i {
        assert IsChildOf(k, i);
      } else if q == p {
        assert h[p] <= h[k];
      } else {
        assert h[q] <= h[k];
      }
    }
    if 0 < p {
      var g := GetParent(p);
      forall k | 0 < k < |t| && IsChildOf(k, p) ensures t[g] <= t[k] {
        assert GetParent(k) == p;
        assert h[g] <= h[p];
        if k != i {
          assert h[p] <= h[k];
        }
      }
    }
    assert multiset(t) == multiset(h);
  }

  /** The sift-up stops at slot i: v is no smaller than the parent of i, so putting it there restores heap order. */
  lemma SiftUpDone(a: seq<int>, v: int, i: int)
    requires 0 <= i < |a|
    requires OrderedExceptInto(a[i := v], i)
    requires 0 < i ==> a[GetParent(i)] <= v
    ensures Ordered(a[i := v])
  {
  }

  /**
    The last value of a sequence copied over slot i and the last slot
    dropped; when i is the last slot this just drops it.
   */
  ghost function MoveLastTo(s: seq<int>, i: int): seq<int>
    requires 0 <= i < |s|
  {
    s[i := s[|s| - 1]][..|s| - 1]
  }

  /** Moving the last value over slot i removes exactly one copy of the value that was there, and adds no new value. */
  lemma MoveLastMultiset(s: seq<int>, i: int)
    requires 0 <= i < |s|
    ensures multiset(MoveLastTo(s, i)) == multiset(s) - multiset{s[i]}
    ensures Sentinel !in s ==> Sentinel !in MoveLastTo(s, i)
  {
    var n := |s| - 1;
    var t := s[i := s[n]];
    assert t == MoveLastTo(s, i) + [s[n]];
    assert multiset(MoveLastTo(s, i)) == multiset(t) - multiset{s[n]};
    assert multiset(t) == multiset(s) - multiset{s[i]} + multiset{s[n]};
    if Sentinel in MoveLastTo(s, i) {
      assert Sentinel in multiset(MoveLastTo(s, i));
    }
  }

  /** Dropping the last slot of a heap-ordered sequence leaves it heap-ordered. */
  lemma MovedLast(s: seq<int>)
    requires Ordered(s) && 0 < |s|
    ensures Ordered(MoveLastTo(s, |s| - 1))
  {
    var t := MoveLastTo(s, |s| - 1);
    forall k | 0 < k < |t| ensures t[GetParent(k)] <= t[k] {
      assert t[k] == s[k] && t[GetParent(k)] == s[GetParent(k)];
    }
  }

  /** After the move every edge not touching slot i still holds, and the children of i still exceed the removed value. */
  lemma MoveLastEdges(s: seq<int>, i: int)
    requires Ordered(s) && 0 <= i < |s| - 1
    ensures forall k :: 0 < k < |s| - 1 && k != i && GetParent(k) != i ==>
      MoveLastTo(s, i)[GetParent(k)] <= MoveLastTo(s, i)[k]
    ensures forall k :: 0 < k < |s| - 1 && IsChildOf(k, i) ==> s[i] <= MoveLastTo(s, i)[k]
  {
    forall k | 0 < k < |s| - 1 && IsChildOf(k, i) ensures s[i] <= MoveLastTo(s, i)[k] {
      assert GetParent(k) == i;
    }
  }

  /** deleteMin: the last value moved to the root breaks heap order only below the root, and may sink from there. */
  lemma MovedToRoot(s: seq<int>)
    requires Ordered(s) && Sentinel !in s && 2 <= |s|
    ensures SinkReady(MoveLastTo(s, 0), 0, 0)
  {
    MoveLastEdges(s, 0);
    MoveLastMultiset(s, 0);
  }

  /** A moved value smaller than its new parent breaks heap order only on the edge up from slot i. */
  lemma MovedSmaller(s: seq<int>, i: int)
    requires Ordered(s) && 0 < i < |s| - 1
    requires s[|s| - 1] < s[GetParent(i)]
    ensures OrderedExceptInto(MoveLastTo(s, i), i) && Bridged(MoveLastTo(s, i), i)
  {
    var t := MoveLastTo(s, i);
    var p := GetParent(i);
    MoveLastEdges(s, i);
    forall k | 0 < k < |t| && IsChildOf(k, i) ensures t[p] <= t[k] && t[i] <= t[k] {
      assert GetParent(k) == i;
      assert s[p] <= s[i];
    }
  }

  /** A moved value larger than its new parent breaks heap order only on the edges down from slot i, and may sink from there. */
  lemma MovedLarger(s: seq<int>, i: int)
    requires Ordered(s) && Sentinel !in s && 0 < i < |s| - 1
    requires s[|s| - 1] > s[GetParent(i)]
    ensures SinkReady(MoveLastTo(s, i), 0, i)
  {
    var t := MoveLastTo(s, i);
    var p := GetParent(i);
    MoveLastEdges(s, i);
    MoveLastMultiset(s, i);
    forall k | 0 < k < |t| && IsChildOf(k, i) ensures t[p] <= t[k] {
      assert GetParent(k) == i;
      assert s[p] <= s[i];
    }
  }

  /**
    A moved value equal to its new parent needs no repair: the parent is at
    most the removed value, which was at most each child.
   */
  lemma MovedEqual(s: seq<int>, i: int)
    requires Ordered(s) && 0 < i < |s| - 1
    requires s[|s| - 1] == s[GetParent(i)]
    ensures Ordered(MoveLastTo(s, i))
  {
    var t := MoveLastTo(s, i);
    var p := GetParent(i);
    MoveLastEdges(s, i);
    forall k | 0 < k < |t| ensures t[GetParent(k)] <= t[k] {
      if GetParent(k) == i {
        assert IsChildOf(k, i);
        assert s[p] <= s[i];
      }
    }
  }

  /** A value moved onto a leaf that is no smaller than its new parent needs no repair. */
  lemma MovedOntoLeaf(s: seq<int>, i: int)
    requires Ordered(s) && 0 < i < |s| - 1 && !IsParent(i, |s|)
    requires s[GetParent(i)] <= s[|s| - 1]
    ensures Ordered(MoveLastTo(s, i))
  {
    var t := MoveLastTo(s, i);
    MoveLastEdges(s, i);
    forall k | 0 < k < |t| ensures GetParent(k) != i {
      assert !NthChildExists(i, 1, |s|);
    }
  }
}
