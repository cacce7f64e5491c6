/** Prefix sums in a binary indexed tree, against plain sums of the array it stands for. */
module FenwickTree {
  import opened Arithmetic

  // ---- Low bits ----

  /** The lowest one bit of `i`. */
  function LowBit(i: nat): (b: nat)
    requires i > 0
    ensures 1 <= b <= i
  {
    if i % 2 == 1 then 1 else 2 * LowBit(i / 2)
  }

  /** Bitwise and, bit by bit from the lowest. */
  function And(a: nat, b: nat): nat {
    if a == 0 then 0 else (if a % 2 == 1 && b % 2 == 1 then 1 else 0) + 2 * And(a / 2, b / 2)
  }

  lemma {:induction false} AndWithComplement(i: nat, w: nat)
    requires i < Pow2(w)
    ensures And(i, Pow2(w) - 1 - i) == 0
  {
    if w == 0 {
    } else {
      AndWithComplement(i / 2, w - 1);
      assert (Pow2(w) - 1 - i) / 2 == Pow2(w - 1) - 1 - i / 2;
    }
  }

  /** `i & (-i)` on words of `w` bits, where -i is 2^w - i: it is the lowest one bit. */
  lemma {:induction false} AndWithNegative(i: nat, w: nat)
    requires 0 < i < Pow2(w)
    ensures And(i, Pow2(w) - i) == LowBit(i)
  {
    if i % 2 == 1 {
      AndWithComplement(i / 2, w - 1);
      assert (Pow2(w) - i) / 2 == Pow2(w - 1) - 1 - i / 2;
    } else {
      AndWithNegative(i / 2, w - 1);
      assert (Pow2(w) - i) / 2 == Pow2(w - 1) - i / 2;
    }
  }

  function PopCount(i: nat): nat {
    if i == 0 then 0 else i % 2 + PopCount(i / 2)
  }

  /** Node `j` holds the sum of the elements at positions j - LowBit(j) + 1 .. j, counted from one. */
  predicate Covers(j: nat, p: nat)
    requires j > 0
  {
    j - LowBit(j) < p <= j
  }

  /** Adding the low bit carries it at least one place up. */
  lemma {:induction false} CarryUp(i: nat)
    requires i > 0
    ensures LowBit(i + LowBit(i)) >= 2 * LowBit(i)
  {
    if i % 2 == 1 {
    } else {
      CarryUp(i / 2);
      assert (i + LowBit(i)) / 2 == i / 2 + LowBit(i / 2);
    }
  }

  /** Below the low bit of `i`, the low bits of `i + r` are those of `r`. */
  lemma {:induction false} LowBitsBelow(i: nat, r: nat)
    requires i > 0 && 0 < r < LowBit(i)
    ensures LowBit(i + r) == LowBit(r)
  {
    assert i % 2 == 0;
    if r % 2 == 1 {
    } else {
      LowBitsBelow(i / 2, r / 2);
      assert (i + r) / 2 == i / 2 + r / 2;
    }
  }

  /** The next node of an update covers the same position, and no node in between does. */
  lemma NextCovering(i: nat, p: nat)
    requires i > 0 && Covers(i, p)
    ensures Covers(i + LowBit(i), p)
    ensures forall j :: i < j < i + LowBit(i) ==> !Covers(j, p)
  {
    CarryUp(i);
    forall j | i < j < i + LowBit(i) ensures !Covers(j, p) { LowBitsBelow(i, j - i); }
  }

  /** A query step clears exactly one bit. */
  lemma {:induction false} ClearsOneBit(i: nat)
    requires i > 0
    ensures PopCount(i - LowBit(i)) == PopCount(i) - 1
  {
    if i % 2 == 0 {
      ClearsOneBit(i / 2);
      assert (i - LowBit(i)) / 2 == i / 2 - LowBit(i / 2);
    } else {
      assert (i - 1) / 2 == i / 2;
    }
  }

  // ---- Sums ----

  function Sum(a: seq<int>, lo: nat, hi: nat): int
    requires lo <= hi <= |a|
  {
    if lo == hi then 0 else Sum(a, lo, hi - 1) + a[hi - 1]
  }

  lemma {:induction false} SumSplit(a: seq<int>, lo: nat, mid: nat, hi: nat)
    requires lo <= mid <= hi <= |a|
    ensures Sum(a, lo, hi) == Sum(a, lo, mid) + Sum(a, mid, hi)
  {
    if mid == hi {
    } else {
      SumSplit(a, lo, mid, hi - 1);
    }
  }

  lemma {:induction false} SumAfterUpdate(a: seq<int>, index: nat, val: int, lo: nat, hi: nat)
    requires index < |a| && lo <= hi <= |a|
    ensures Sum(a[index := a[index] + val], lo, hi) == Sum(a, lo, hi) + if lo <= index < hi then val else 0
  {
    if lo == hi {
    } else {
      SumAfterUpdate(a, index, val, lo, hi - 1);
    }
  }

  ghost predicate Represents(tree: seq<int>, a: seq<int>) {
    |tree| == |a| + 1 && forall j :: 1 <= j <= |a| ==> tree[j] == Sum(a, j - LowBit(j), j)
  }

  ghost function Updated(a: seq<int>, index: nat, val: int): seq<int> {
    if index < |a| then a[index := a[index] + val] else a
  }

  lemma UpdatedRepresents(tree: seq<int>, tree': seq<int>, a: seq<int>, index: nat, val: int)
    requires Represents(tree, a) && |tree'| == |tree|
    requires forall j :: 1 <= j < |tree| ==> tree'[j] == tree[j] + if Covers(j, index + 1) then val else 0
    ensures Represents(tree', Updated(a, index, val))
  {
    if index < |a| {
      forall j | 1 <= j <= |a| ensures tree'[j] == Sum(Updated(a, index, val), j - LowBit(j), j) {
        SumAfterUpdate(a, index, val, j - LowBit(j), j);
      }
    }
  }

  // ---- The tree ----

  method UpdateTree(tree: array<int>, n: nat, index: nat, val: int)
    requires tree.Length == n + 1
    modifies tree
    ensures forall j :: 1 <= j <= n ==> tree[j] == old(tree[j]) + if Covers(j, index + 1) then val else 0
    ensures forall a :: old(Represents(tree[..], a)) ==> Represents(tree[..], Updated(a, index, val))
  {
    var i := index + 1;
    ghost var p := index + 1;
    assert forall j :: 1 <= j < p ==> !Covers(j, p);
    while i <= n
      invariant i > 0 && Covers(i, index + 1)
      invariant forall j :: 1 <= j <= n ==> tree[j] == old(tree[j]) + if j < i && Covers(j, index + 1) then val else 0
      decreases n - i
    {
      NextCovering(i, index + 1);
      tree[i] := tree[i] + val;
      i := i + LowBit(i);
    }
    forall a | old(Represents(tree[..], a)) ensures Represents(tree[..], Updated(a, index, val)) {
      UpdatedRepresents(old(tree[..]), tree[..], a, index, val);
    }
  }

  /** An index of -1 or less asks for the empty sum. */
  method GetSum(tree: array<int>, index: int, ghost a: seq<int>) returns (sum: int, ghost steps: nat)
    requires Represents(tree[..], a) && index < |a|
    ensures sum == if index < 0 then 0 else Sum(a, 0, index + 1)
    ensures steps == if index < 0 then 0 else PopCount(index + 1)
  {
    sum, steps := 0, 0;
    var i := index + 1;
    while i > 0
      invariant index >= 0 ==> 0 <= i <= index + 1
      invariant index >= 0 ==> sum + Sum(a, 0, i) == Sum(a, 0, index + 1)
      invariant index >= 0 ==> steps + PopCount(i) == PopCount(index + 1)
      invariant index < 0 ==> i <= 0 && sum == 0 && steps == 0
    {
      SumSplit(a, 0, i - LowBit(i), i);
      ClearsOneBit(i);
      assert tree[i] == tree[..][i];
      sum := sum + tree[i];
      i := i - LowBit(i);
      steps := steps + 1;
    }
  }

  lemma {:induction false} SumOfZeros(a: seq<int>, lo: nat, hi: nat)
    requires lo <= hi <= |a| && forall k :: lo <= k < |a| ==> a[k] == 0
    ensures Sum(a, lo, hi) == 0
  {
    if lo == hi {
    } else {
      SumOfZeros(a, lo, hi - 1);
    }
  }

  method ConstructTree(arr: seq<int>) returns (tree: array<int>)
    ensures fresh(tree) && Represents(tree[..], arr)
  {
    var n := |arr|;
    tree := new int[n + 1](_ => 0);
    ghost var a := seq(n, _ => 0);
    forall j | 1 <= j <= n ensures Sum(a, j - LowBit(j), j) == 0 { SumOfZeros(a, j - LowBit(j), j); }
    for i := 0 to n
      invariant |a| == n && (forall k :: 0 <= k < n ==> a[k] == if k < i then arr[k] else 0)
      invariant Represents(tree[..], a)
    {
      UpdateTree(tree, n, i, arr[i]);
      a := Updated(a, i, arr[i]);
    }
    assert a == arr;
  }
}
