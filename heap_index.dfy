/**
  Index arithmetic of the implicit ternary tree that a Min3Heap lays over
  its array: node i has parent (i-1)/3 and children 3i+1, 3i+2, 3i+3, and a
  node exists while its index is below the live count. Every helper that
  reads the live count in the C++ class Min3Heap takes it here as `count`.
 */
module HeapIndex {

  /** The value the heap returns for "nothing" and writes into vacated cells. */
  const Sentinel: int := -1

  /** Division by 3 as a C++ `long` division does it: truncated toward zero. */
  function CDiv3(a: int): (q: int)
    ensures 0 <= a ==> 3 * q <= a < 3 * q + 3
    ensures a < 0 ==> 3 * q - 3 < a <= 3 * q
  {
    if a >= 0 then a / 3 else -((-a) / 3)
  }

  /** c is one of the three child slots of node i. */
  predicate IsChildOf(c: int, i: int)
  {
    0 <= i && 3 * i + 1 <= c <= 3 * i + 3
  }

  /** getParent: the parent slot of i, or -1 for the root (and any index below it). */
  function GetParent(i: int): (p: int)
    ensures i > 0 ==> 0 <= p < i && IsChildOf(i, p)
    ensures i <= 0 ==> p == -1
  {
    if i > 0 then (i - 1) / 3 else -1
  }

  /** nthChildExists: child number k of node i is a live slot. */
  predicate NthChildExists(i: int, k: int, count: int): (b: bool)
    ensures b <==> 3 * i + k < count
  {
    3 * i + k < count
  }

  /** The live children of a node come first: when child k is live, so is every child before it. */
  lemma LiveChildrenFirst(i: int, k: int, count: int)
    requires 1 <= k <= 3 && NthChildExists(i, k, count)
    ensures forall j :: 1 <= j <= k ==> NthChildExists(i, j, count)
  {
  }

  /** getNthChild: the index of child number k of node i, or -1 when that child is not live. */
  function GetNthChild(i: int, k: int, count: int): (c: int)
    requires 0 <= i && 1 <= k <= 3
    ensures c == -1 <==> !NthChildExists(i, k, count)
    ensures c != -1 ==> c == 3 * i + k && c < count && IsChildOf(c, i) && GetParent(c) == i
  {
    if NthChildExists(i, k, count) then 3 * i + k else -1
  }

  /** isParent: node i has a live child, which is then its first child. */
  function IsParent(i: int, count: int): (b: bool)
    requires 0 <= i
    ensures b <==> NthChildExists(i, 1, count)
  {
    i * 3 < count - 1
  }

  /** A node is a parent exactly when one of its three child slots is live. */
  lemma IsParentIffSomeChild(i: int, count: int)
    requires 0 <= i
    ensures IsParent(i, count) <==> exists k :: 1 <= k <= 3 && NthChildExists(i, k, count)
  {
    if IsParent(i, count) {
      assert NthChildExists(i, 1, count);
    }
  }

  /**
    lastParentIndex: (count - 2) / 3 with C++ division. With two or more
    live nodes it is the last node that has a child; with fewer it is 0,
    not -1, because the division truncates toward zero.
   */
  function LastParentIndex(count: int): (r: int)
    requires 0 <= count
    ensures count < 2 ==> r == 0
    ensures count >= 2 ==> 0 <= r < count && IsParent(r, count)
    ensures count >= 2 ==> forall j :: r < j ==> !IsParent(j, count)
  {
    CDiv3(count - 2)
  }

  /**
    The slot the bulk constructors should start sifting from: the last
    parent, except -1 for an empty heap, so that no slot outside the live
    prefix is visited and every parent is.
   */
  function FirstSiftIndex(count: int): (r: int)
    requires 0 <= count
    ensures -1 <= r < count
    ensures forall j :: 0 <= j && IsParent(j, count) ==> j <= r
    ensures count > 0 ==> r == LastParentIndex(count)
  {
    if count == 0 then -1 else LastParentIndex(count)
  }

  /**
    As written, the countdown from lastParentIndex starts at slot 0 even
    when no node is live, so the first sift reads a slot outside the live
    prefix.
   */
  lemma EmptyBuildVisitsSlotZero()
    ensures LastParentIndex(0) == 0 && !(LastParentIndex(0) < 0)
  {
  }

  /** 3 to the power e; being odd, it makes the display's level start an exact halving. */
  function Power3(e: nat): (r: nat)
    ensures r % 2 == 1
  {
    if e == 0 then 1 else 3 * Power3(e - 1)
  }

  /** pow: a product accumulated in a loop; a negative exponent leaves the loop unentered. */
  method Pow(exponent: int) returns (r: int)
    ensures exponent >= 0 ==> r == Power3(exponent)
    ensures exponent < 0 ==> r == 1
  {
    if exponent == 0 {
      return 1;
    } else {
      var returnValue := 1;
      var i := 0;
      while i < exponent
        invariant 0 <= i && (exponent >= 0 ==> i <= exponent)
        invariant returnValue == Power3(i)
        invariant exponent < 0 ==> i == 0
      {
        returnValue := returnValue * 3;
        i := i + 1;
      }
      return returnValue;
    }
  }

  /** The first slot of level L, the root being level 0. */
  function LevelStart(L: nat): nat
  {
    (Power3(L) - 1) / 2
  }

  /**
    Level L holds Power3(L) slots, and the first child of the first slot of
    level L is the first slot of level L + 1: the layout that the level-order
    display walks with pow.
   */
  lemma {:induction false} LevelLayout(L: nat)
    ensures LevelStart(L + 1) == LevelStart(L) + Power3(L)
    ensures IsChildOf(LevelStart(L + 1), LevelStart(L))
    ensures LevelStart(L + 1) == 3 * LevelStart(L) + 1
  {
    var p := Power3(L);
    assert Power3(L + 1) == 3 * p;
    assert p % 2 == 1;
    assert 2 * LevelStart(L) + 1 == p;
  }
}
