/**
  The Min3Heap engine: a bounded ternary min-heap of integers kept in a
  fixed array, with bottom-up construction, insert, deleteMin, and the
  three extensions deleteMax, search and remove-all-occurrences.
 */
module TernaryHeap {
  import opened HeapIndex
  import opened HeapOrder

  class Min3Heap {
    /** mSIZE: the length of the heap array, fixed at construction. */
    const capacity: nat
    /** mHeapArray: the pointer is never reassigned; its cells are. */
    const heapArray: array<int>
    /** mNumNodes: the live nodes are heapArray[0 .. numNodes). */
    var numNodes: int

    /** The bookkeeping every state satisfies, heap-ordered or not. */
    ghost predicate Shaped()
      reads this
    {
      0 <= numNodes <= capacity && heapArray.Length == capacity
    }

    /** The class invariant: heap order over the live prefix, which never holds the sentinel. */
    ghost predicate Valid()
      reads this, heapArray
    {
      Shaped() && Ordered(heapArray[..numNodes]) && Sentinel !in heapArray[..numNodes]
    }

    /** The live values. */
    ghost function Contents(): multiset<int>
      reads this, heapArray
      requires Shaped()
    {
      multiset(heapArray[..numNodes])
    }

    /** The live prefix with v standing in slot idx: the heap a sift is about to settle. */
    ghost function Hole(idx: int, v: int): seq<int>
      reads this, heapArray
      requires Shaped() && 0 <= idx
    {
      if idx < numNodes then heapArray[..numNodes][idx := v] else heapArray[..numNodes]
    }

    /** Min3Heap(aSize): an empty heap over an array of aSize cells. */
    constructor (aSize: nat)
      ensures Valid() && fresh(heapArray)
      ensures capacity == aSize && numNodes == 0 && Contents() == multiset{}
    {
      capacity := aSize;
      numNodes := 0;
      heapArray := new int[aSize];
    }

    /**
      Min3Heap(aSize, aQueue): append the queued values front to back, then
      sift down every parent from the last one back to the root.
     */
    constructor FromQueue(aSize: nat, aQueue: seq<int>)
      requires |aQueue| <= aSize
      requires Sentinel !in aQueue
      ensures Valid() && fresh(heapArray) && capacity == aSize
      ensures numNodes == |aQueue| && Contents() == multiset(aQueue)
    {
      capacity := aSize;
      numNodes := 0;
      heapArray := new int[aSize];
      new;
      var queue := aQueue;
      while queue != []
        invariant Shaped() && heapArray[..numNodes] + queue == aQueue
      {
        BottomUpInsert(queue[0]);
        queue := queue[1..];
      }
      assert heapArray[..numNodes] == aQueue;
      BuildHeap();
    }

    /**
      Min3Heap(aSize, values, valuesSize): append values[0 .. valuesSize),
      then sift down every parent from the last one back to the root.
     */
    constructor FromArray(aSize: nat, values: array<int>, valuesSize: nat)
      requires valuesSize <= values.Length && valuesSize <= aSize
      requires Sentinel !in values[..valuesSize]
      ensures Valid() && fresh(heapArray) && capacity == aSize
      ensures numNodes == valuesSize && Contents() == multiset(values[..valuesSize])
    {
      capacity := aSize;
      numNodes := 0;
      heapArray := new int[aSize];
      new;
      for i := 0 to valuesSize
        invariant Shaped() && numNodes == i && heapArray[..numNodes] == values[..i]
      {
        BottomUpInsert(values[i]);
      }
      BuildHeap();
    }

    /**
      The second half of both bulk constructors: sift down every slot from
      the last parent back to the root, starting at FirstSiftIndex so that
      an empty heap sifts nothing.
     */
    method BuildHeap()
      requires Shaped() && Sentinel !in heapArray[..numNodes]
      modifies heapArray
      ensures Valid()
      ensures Contents() == old(Contents())
    {
      var i := FirstSiftIndex(numNodes);
      while i >= 0
        invariant -1 <= i <= FirstSiftIndex(numNodes)
        invariant multiset(heapArray[..numNodes]) == old(multiset(heapArray[..numNodes]))
        invariant Sentinel !in heapArray[..numNodes]
        invariant OrderedBelow(heapArray[..numNodes], i + 1, -1)
      {
        ghost var s := heapArray[..numNodes];
        assert Hole(i, heapArray[i]) == s;
        BuildStepReady(s, i);
        HeapifyDown(heapArray[i], i, i);
        assert Sentinel !in multiset(s);
        i := i - 1;
      }
      OrderedFromRoot(heapArray[..numNodes]);
    }

    /** bottomUpInsert: append without restoring heap order; there is no capacity check. */
    method BottomUpInsert(aValue: int)
      requires Shaped() && numNodes < capacity
      modifies this, heapArray
      ensures Shaped() && numNodes == old(numNodes) + 1
      ensures heapArray[..numNodes] == old(heapArray[..numNodes]) + [aValue]
      ensures heapArray[numNodes..] == old(heapArray[numNodes + 1..])
    {
      heapArray[numNodes] := aValue;
      numNodes := numNodes + 1;
    }

    /** insert: on a full heap nothing happens; otherwise append and sift up. */
    method Insert(aValue: int)
      requires Valid() && aValue != Sentinel
      modifies this, heapArray
      ensures Valid()
      ensures old(numNodes) == capacity ==> numNodes == old(numNodes) && heapArray[..] == old(heapArray[..])
      ensures old(numNodes) < capacity ==> numNodes == old(numNodes) + 1 && Contents() == old(Contents()) + multiset{aValue}
    {
      if numNodes == capacity {
        return;
      }
      BottomUpInsert(aValue);
      ghost var s := heapArray[..numNodes];
      assert Hole(numNodes - 1, aValue) == s;
      HeapifyUp(aValue, numNodes - 1);
      assert Sentinel !in multiset(s);
    }

    /**
      The step deleteMin, deleteMax and remove share: the last live value is
      copied over slot i, the last cell gets the sentinel, and the count
      drops by one.
     */
    method MoveLastInto(i: int)
      requires Shaped() && 0 <= i < numNodes
      modifies this, heapArray
      ensures Shaped() && numNodes == old(numNodes) - 1
      ensures heapArray[..numNodes] == MoveLastTo(old(heapArray[..numNodes]), i)
      ensures heapArray[numNodes] == Sentinel
    {
      ghost var s := heapArray[..numNodes];
      heapArray[i] := heapArray[numNodes - 1];
      heapArray[numNodes - 1] := Sentinel;
      numNodes := numNodes - 1;
      assert heapArray[..numNodes] == MoveLastTo(s, i);
    }

    /** deleteMin: the sentinel on an empty heap; otherwise the root, replaced by the last value sifted down. */
    method DeleteMin() returns (minValue: int)
      requires Valid()
      modifies this, heapArray
      ensures Valid()
      ensures minValue == Sentinel <==> old(numNodes) == 0
      ensures old(numNodes) == 0 ==> numNodes == 0 && heapArray[..] == old(heapArray[..])
      ensures old(numNodes) > 0 ==> minValue == old(heapArray[0]) && forall x :: x in old(Contents()) ==> minValue <= x
      ensures old(numNodes) > 0 ==> numNodes == old(numNodes) - 1 && Contents() == old(Contents()) - multiset{minValue}
    {
      if numNodes > 0 {
        ghost var s := heapArray[..numNodes];
        RootIsMinimum(s);
        minValue := heapArray[0];
        MoveLastInto(0);
        ghost var t := heapArray[..numNodes];
        MoveLastMultiset(s, 0);
        if numNodes > 0 {
          MovedToRoot(s);
        }
        assert Hole(0, heapArray[0]) == t;
        HeapifyDown(heapArray[0], 0, 0);
        OrderedFromRoot(heapArray[..numNodes]);
        assert Sentinel !in multiset(t);
        return minValue;
      }
      return Sentinel;
    }

    /**
      deleteMax: the largest value lies on a leaf; the last value takes its
      place and, being on a leaf, can only need to rise.
     */
    method DeleteMax() returns (maxValue: int)
      requires Valid()
      modifies this, heapArray
      ensures Valid()
      ensures maxValue == Sentinel <==> old(numNodes) == 0
      ensures old(numNodes) == 0 ==> numNodes == 0 && heapArray[..] == old(heapArray[..])
      ensures old(numNodes) > 0 ==> maxValue in old(Contents()) && forall x :: x in old(Contents()) ==> x <= maxValue
      ensures old(numNodes) > 0 ==> numNodes == old(numNodes) - 1 && Contents() == old(Contents()) - multiset{maxValue}
    {
      maxValue := Sentinel;
      if numNodes > 0 {
        ghost var s := heapArray[..numNodes];
        if numNodes == 1 {
          maxValue := heapArray[0];
          heapArray[0] := Sentinel;
          numNodes := numNodes - 1;
          assert s == [maxValue];
        } else {
          var maxIndex := FindMaxIndex();
          maxValue := heapArray[maxIndex];
          forall x | x in multiset(s) ensures x <= maxValue {
            var k :| 0 <= k < |s| && s[k] == x;
          }
          DeleteLeaf(maxIndex);
        }
      }
    }

    /**
      The deletion deleteMax performs at the leaf maxIndex: the last value
      takes its slot and rises when smaller than its new parent; on a leaf it
      never needs to sink.
     */
    method DeleteLeaf(maxIndex: int)
      requires Valid() && 0 < maxIndex < numNodes && !IsParent(maxIndex, numNodes)
      modifies this, heapArray
      ensures Valid() && numNodes == old(numNodes) - 1
      ensures Contents() == old(Contents()) - multiset{old(heapArray[maxIndex])}
    {
      ghost var s := heapArray[..numNodes];
      MoveLastInto(maxIndex);
      ghost var t := heapArray[..numNodes];
      MoveLastMultiset(s, maxIndex);
      if maxIndex == numNodes {
        MovedLast(s);
      }
      var parentIndex := GetParent(maxIndex);
      if parentIndex > -1 && maxIndex != numNodes {
        if numNodes > 0 {
          assert heapArray[maxIndex] == s[|s| - 1] && heapArray[parentIndex] == s[parentIndex];
          if heapArray[maxIndex] < heapArray[parentIndex] {
            MovedSmaller(s, maxIndex);
            assert Hole(maxIndex, heapArray[maxIndex]) == t;
            HeapifyUp(heapArray[maxIndex], maxIndex);
            assert Sentinel !in multiset(t);
          } else {
            MovedOntoLeaf(s, maxIndex);
          }
        }
      }
    }

    /** findMaxIndex: the first leaf holding the largest leaf value, which is the largest live value. */
    method FindMaxIndex() returns (maxValIndex: int)
      requires Valid()
      ensures numNodes < 2 ==> maxValIndex == 1
      ensures numNodes >= 2 ==> LastParentIndex(numNodes) < maxValIndex < numNodes
      ensures numNodes >= 2 ==> forall k :: 0 <= k < numNodes ==> heapArray[k] <= heapArray[maxValIndex]
      ensures numNodes >= 2 ==> forall k :: LastParentIndex(numNodes) < k < maxValIndex ==> heapArray[k] < heapArray[maxValIndex]
    {
      var last := LastParentIndex(numNodes);
      maxValIndex := last + 1;
      var i := last + 2;
      while i < numNodes
        invariant last + 1 <= maxValIndex < i && (numNodes >= 2 ==> i <= numNodes)
        invariant numNodes < 2 ==> maxValIndex == 1
        invariant forall k :: last < k < i && k < numNodes ==> heapArray[k] <= heapArray[maxValIndex]
        invariant forall k :: last < k < maxValIndex ==> heapArray[k] < heapArray[maxValIndex]
      {
        if heapArray[i] > heapArray[maxValIndex] {
          maxValIndex := i;
        }
        i := i + 1;
      }
      if numNodes >= 2 {
        forall k | 0 <= k < numNodes ensures heapArray[k] <= heapArray[maxValIndex] {
          LeafAtLeast(heapArray[..numNodes], k);
        }
      }
    }

    /** search(aSearchValue): an index holding the value, or -1 when no live node holds it. */
    method Search(aSearchValue: int) returns (foundIndex: int)
      requires Valid()
      ensures foundIndex == -1 <==> aSearchValue !in Contents()
      ensures foundIndex != -1 ==> 0 <= foundIndex < numNodes && heapArray[foundIndex] == aSearchValue
    {
      foundIndex := -1;
      if numNodes < 1 {
        return -1;
      } else {
        foundIndex := SearchFrom(aSearchValue, 0, foundIndex);
      }
      if foundIndex == -1 {
        forall k | 0 <= k < numNodes ensures heapArray[k] != aSearchValue {
          RootDescends(k);
        }
      }
    }

    /** Some live slot of the subtree rooted at idx holds v. */
    ghost predicate InSubtree(v: int, idx: int)
      reads this, heapArray
      requires Shaped()
    {
      exists k :: 0 <= k < numNodes && Descends(k, idx) && heapArray[k] == v
    }

    /**
      The recursive search(aSearchVal, aIndex, aFoundIndex): a node equal to
      the value answers; a node smaller than it passes the search on to each
      live child; a node larger than it ends the branch.
     */
    method SearchFrom(aSearchVal: int, aIndex: int, aFoundIndex: int) returns (found: int)
      requires Valid() && 0 <= aIndex < numNodes
      requires aFoundIndex == -1 || (0 <= aFoundIndex < numNodes && heapArray[aFoundIndex] == aSearchVal)
      ensures aFoundIndex != -1 ==> found == aFoundIndex
      ensures found == -1 || (0 <= found < numNodes && heapArray[found] == aSearchVal)
      ensures aFoundIndex == -1 && found != -1 ==> Descends(found, aIndex)
      ensures aFoundIndex == -1 ==> (found == -1 <==> !InSubtree(aSearchVal, aIndex))
      decreases numNodes - aIndex
    {
      found := aFoundIndex;
      if found > -1 {
        return;
      } else if aSearchVal == heapArray[aIndex] {
        found := aIndex;
        assert Descends(found, aIndex);
        return;
      } else if aSearchVal > heapArray[aIndex] {
        for i := 1 to 4
          invariant found == -1 || (0 <= found < numNodes && heapArray[found] == aSearchVal)
          invariant found != -1 ==> Descends(found, aIndex)
          invariant found == -1 ==> forall j :: 1 <= j < i && NthChildExists(aIndex, j, numNodes) ==> !InSubtree(aSearchVal, 3 * aIndex + j)
        {
          if GetNthChild(aIndex, i, numNodes) > -1 {
            ghost var before := found;
            found := SearchFrom(aSearchVal, GetNthChild(aIndex, i, numNodes), found);
            if before == -1 && found != -1 {
              ChildDescends(3 * aIndex + i, aIndex);
              DescendsTransitive(found, 3 * aIndex + i, aIndex);
            }
          }
        }
        if found == -1 {
          forall k | 0 <= k < numNodes && Descends(k, aIndex) ensures heapArray[k] != aSearchVal {
            if k != aIndex {
              DescendsViaChild(k, aIndex);
              var c :| IsChildOf(c, aIndex) && Descends(k, c);
              assert NthChildExists(aIndex, c - 3 * aIndex, numNodes);
            }
          }
        }
      } else {
        forall k | 0 <= k < numNodes && Descends(k, aIndex) ensures heapArray[k] != aSearchVal {
          SubtreeAtLeastRoot(heapArray[..numNodes], aIndex, k);
        }
      }
    }

    /**
      remove(aValue): search and delete until the search fails; true when
      at least one copy was deleted. A copy found at the root goes through
      deleteMin; elsewhere the last value takes its place and moves up,
      down, or stays when it equals its new parent.
     */
    method Remove(aValue: int) returns (aValRemoved: bool)
      requires Valid()
      modifies this, heapArray
      ensures Valid()
      ensures aValRemoved == (aValue in old(Contents()))
      ensures aValue !in Contents()
      ensures Contents() == old(Contents())[aValue := 0]
      ensures !aValRemoved ==> numNodes == old(numNodes) && heapArray[..] == old(heapArray[..])
    {
      var indexOfValue := -1;
      aValRemoved := false;
      var again := true;
      while again
        invariant Valid()
        invariant Contents()[aValue := 0] == old(Contents())[aValue := 0]
        invariant Contents()[aValue] <= old(Contents())[aValue]
        invariant aValRemoved <==> Contents()[aValue] < old(Contents())[aValue]
        invariant !again ==> aValue !in Contents()
        invariant !aValRemoved ==> numNodes == old(numNodes) && heapArray[..] == old(heapArray[..])
        decreases numNodes, again
      {
        indexOfValue := Search(aValue);
        if indexOfValue == 0 {
          aValRemoved := true;
          var _ := DeleteMin();
        } else if indexOfValue > -1 {
          aValRemoved := true;
          RemoveAt(indexOfValue);
        }
        again := indexOfValue > -1;
      }
    }

    /**
      The deletion remove performs when the value sits below the root: the
      last value takes its slot and moves up when smaller than its new
      parent, down when larger, and stays when equal.
     */
    method RemoveAt(indexOfValue: int)
      requires Valid() && 0 < indexOfValue < numNodes
      modifies this, heapArray
      ensures Valid() && numNodes == old(numNodes) - 1
      ensures Contents() == old(Contents()) - multiset{old(heapArray[indexOfValue])}
    {
      ghost var s := heapArray[..numNodes];
      var valueToMove := heapArray[numNodes - 1];
      MoveLastInto(indexOfValue);
      ghost var t := heapArray[..numNodes];
      MoveLastMultiset(s, indexOfValue);
      if indexOfValue == numNodes {
        MovedLast(s);
      }
      var parentIndex := GetParent(indexOfValue);
      if parentIndex > -1 && indexOfValue != numNodes {
        assert valueToMove == s[|s| - 1] && heapArray[parentIndex] == s[parentIndex];
        assert Hole(indexOfValue, valueToMove) == t;
        if valueToMove < heapArray[parentIndex] {
          MovedSmaller(s, indexOfValue);
          HeapifyUp(valueToMove, indexOfValue);
        } else if valueToMove > heapArray[parentIndex] {
          MovedLarger(s, indexOfValue);
          HeapifyDown(valueToMove, indexOfValue, 0);
          OrderedFromRoot(heapArray[..numNodes]);
        } else {
          MovedEqual(s, indexOfValue);
        }
        assert Sentinel !in multiset(t);
      }
    }

    /**
      heapifyDown(aValueToMove, aIndex): the value sinks from aIndex, each step taking
      the smallest child smaller than it. Edges with a parent below
      lo are neither needed nor repaired; only the subtree of aIndex is
      written.
     */
    method HeapifyDown(aValueToMove: int, aIndex: int, ghost lo: int)
      requires Shaped() && 0 <= aIndex < heapArray.Length
      requires aIndex < numNodes || heapArray[aIndex] == aValueToMove
      requires SinkReady(Hole(aIndex, aValueToMove), lo, aIndex)
      modifies heapArray
      ensures multiset(heapArray[..numNodes]) == multiset(old(Hole(aIndex, aValueToMove)))
      ensures OrderedBelow(heapArray[..numNodes], lo, -1)
      ensures SameOutside(old(heapArray[..]), heapArray[..], aIndex)
      decreases numNodes - aIndex
    {
      ghost var a := heapArray[..numNodes];
      ghost var whole := heapArray[..];
      var smallestChildIndex := FindSmallestChildIndex(aValueToMove, aIndex);
      if smallestChildIndex > -1 {
        ghost var c := smallestChildIndex;
        SiftDownStep(a, aValueToMove, lo, aIndex, c);
        heapArray[aIndex] := heapArray[smallestChildIndex];
        assert heapArray[..numNodes] == a[aIndex := a[c]];
        WriteInside(whole, aIndex, aIndex, a[c]);
        assert heapArray[..] == whole[aIndex := a[c]];
        ghost var mid := heapArray[..];
        if IsParent(smallestChildIndex, numNodes) {
          assert Hole(c, aValueToMove) == a[aIndex := a[c]][c := aValueToMove];
          HeapifyDown(aValueToMove, smallestChildIndex, lo);
          SameOutsideThenChild(whole, mid, heapArray[..], aIndex, c);
        } else {
          heapArray[smallestChildIndex] := aValueToMove;
          WriteInside(mid, c, c, aValueToMove);
          assert heapArray[..] == mid[c := aValueToMove];
          SameOutsideThenChild(whole, mid, heapArray[..], aIndex, c);
          SiftDownDone(a[aIndex := a[c]], aValueToMove, lo, c);
          assert heapArray[..numNodes] == a[aIndex := a[c]][c := aValueToMove];
        }
      } else {
        heapArray[aIndex] := aValueToMove;
        WriteInside(whole, aIndex, aIndex, aValueToMove);
        assert heapArray[..] == whole[aIndex := aValueToMove];
        if aIndex < numNodes {
          SiftDownDone(a, aValueToMove, lo, aIndex);
          assert heapArray[..numNodes] == a[aIndex := aValueToMove];
        } else {
          assert heapArray[..numNodes] == a;
        }
      }
    }

    /**
      heapifyUp(aValueToMove, aIndex): parents larger than the value move down one
      level until it fits; only aIndex and its ancestors are written.
     */
    method HeapifyUp(aValueToMove: int, aIndex: int)
      requires Shaped() && 0 <= aIndex < numNodes
      requires OrderedExceptInto(Hole(aIndex, aValueToMove), aIndex)
      requires Bridged(Hole(aIndex, aValueToMove), aIndex)
      modifies heapArray
      ensures heapArray[numNodes..] == old(heapArray[numNodes..])
      ensures multiset(heapArray[..numNodes]) == multiset(old(Hole(aIndex, aValueToMove)))
      ensures Ordered(heapArray[..numNodes])
      ensures SameOffPath(old(heapArray[..]), heapArray[..], aIndex)
      decreases aIndex
    {
      ghost var a := heapArray[..numNodes];
      ghost var whole := heapArray[..];
      var parentIndex := GetParent(aIndex);
      if parentIndex > -1 {
        if aValueToMove < heapArray[parentIndex] {
          SiftUpStep(a, aValueToMove, aIndex);
          heapArray[aIndex] := heapArray[parentIndex];
          assert heapArray[..numNodes] == a[aIndex := a[parentIndex]];
          assert Hole(parentIndex, aValueToMove) == a[aIndex := a[parentIndex]][parentIndex := aValueToMove];
          WriteOnPath(whole, aIndex, a[parentIndex]);
          assert heapArray[..] == whole[aIndex := a[parentIndex]];
          ghost var mid := heapArray[..];
          HeapifyUp(aValueToMove, parentIndex);
          SameOffPathThenParent(whole, mid, heapArray[..], aIndex);
        } else {
          heapArray[aIndex] := aValueToMove;
          SiftUpDone(a, aValueToMove, aIndex);
          assert heapArray[..numNodes] == a[aIndex := aValueToMove];
          WriteOnPath(whole, aIndex, aValueToMove);
          assert heapArray[..] == whole[aIndex := aValueToMove];
        }
      } else {
        heapArray[aIndex] := aValueToMove;
        SiftUpDone(a, aValueToMove, aIndex);
        assert heapArray[..numNodes] == a[aIndex := aValueToMove];
        WriteOnPath(whole, aIndex, aValueToMove);
        assert heapArray[..] == whole[aIndex := aValueToMove];
      }
    }

    /**
      findSmallestChildIndex(aValueToMove, aIndex): the first child holding
      the least value among the children smaller than aValueToMove, or -1.
      A child whose value is -1 is skipped as if it were missing.
     */
    method FindSmallestChildIndex(aValueToMove: int, aIndex: int) returns (r: int)
      requires Shaped() && 0 <= aIndex
      ensures r == SmallerChild(heapArray[..numNodes], aValueToMove, aIndex, 3)
    {
      ghost var s := heapArray[..numNodes];
      if IsParent(aIndex, numNodes) {
        var childValues := new int[3];
        for i := 1 to 4
          invariant forall j :: 0 <= j < i - 1 ==> childValues[j] == if 3 * aIndex + j + 1 < numNodes then s[3 * aIndex + j + 1] else Sentinel
        {
          var ithChildIndex := GetNthChild(aIndex, i, numNodes);
          if ithChildIndex > -1 {
            childValues[i - 1] := heapArray[ithChildIndex];
          } else {
            childValues[i - 1] := Sentinel;
          }
        }
        var minValueIndex := -1;
        for i := 0 to 3
          invariant -1 <= minValueIndex < i
          invariant SmallerChild(s, aValueToMove, aIndex, i) == if minValueIndex == -1 then -1 else 3 * aIndex + minValueIndex + 1
        {
          if aValueToMove > childValues[i] && childValues[i] != Sentinel {
            if minValueIndex == -1 || childValues[i] < childValues[minValueIndex] {
              minValueIndex := i;
            }
          }
        }
        if minValueIndex > -1 {
          r := GetNthChild(aIndex, minValueIndex + 1, numNodes);
        } else {
          r := -1;
        }
      } else {
        r := -1;
      }
    }

    /** isEmpty, as written: true when the heap holds at least one value. */
    function IsEmpty(): (b: bool)
      reads this, heapArray
      requires Shaped()
      ensures b <==> Contents() != multiset{}
    {
      numNodes > 0
    }
  }
}
