/** Vose-style alias tables over exact reals: the one-pass build with its `over`, `under` and `mm`
    cursors, and the proof that the finished table samples exactly the given weights. */
module AliasTable {
  import opened Arithmetic

  // ---- What a table means ----

  function Sum(w: seq<real>): real {
    if w == [] then 0.0 else Sum(w[..|w| - 1]) + w[|w| - 1]
  }

  /** The outcome for slot `slot` and a real `x` drawn from [0, 1). */
  function Sample(arr: seq<real>, alias: seq<nat>, slot: nat, x: real): nat
    requires slot < |arr| == |alias|
  {
    if x < arr[slot] then slot else alias[slot]
  }

  /** How much of [0, 1) makes slot `j` yield outcome `k`. */
  function HitLength(arr: seq<real>, alias: seq<nat>, j: nat, k: nat): real
    requires j < |arr| == |alias|
  {
    (if j == k then arr[j] else 0.0) + (if alias[j] == k then 1.0 - arr[j] else 0.0)
  }

  /** The lengths of the first `n` slots for outcome `k` added up. */
  function Mass(arr: seq<real>, alias: seq<nat>, k: nat, n: nat): real
    requires n <= |arr| == |alias|
  {
    if n == 0 then 0.0 else Mass(arr, alias, k, n - 1) + HitLength(arr, alias, n - 1, k)
  }

  /** The share of `n` equal slots that outcome `k` should receive. */
  function Target(w: seq<real>, n: nat, k: nat): real
    requires n > 0 && Sum(w) > 0.0
  {
    if k < |w| then w[k] / (Sum(w) / n as real) else 0.0
  }

  ghost predicate GoodWeights(w: seq<real>) {
    |w| >= 2 && (forall k :: 0 <= k < |w| ==> w[k] >= 0.0) && Sum(w) > 0.0
  }

  ghost predicate Encodes(arr: seq<real>, alias: seq<nat>, w: seq<real>)
    requires GoodWeights(w)
  {
    && 0 < |arr| == |alias| && |w| <= |arr|
    && (forall j :: 0 <= j < |arr| ==> 0.0 <= arr[j] <= 1.0 && alias[j] < |arr|)
    && (forall k :: 0 <= k < |arr| ==> Mass(arr, alias, k, |arr|) == Target(w, |arr|, k))
  }

  // ---- Consequences ----

  /** The draws for which slot `j` yields `k` are an interval, and `HitLength` is its length. */
  lemma HitsMeasure(arr: seq<real>, alias: seq<nat>, j: nat, k: nat) returns (lo: real, hi: real)
    requires j < |arr| == |alias| && 0.0 <= arr[j] <= 1.0
    ensures 0.0 <= lo <= hi <= 1.0 && hi - lo == HitLength(arr, alias, j, k)
    ensures forall x :: 0.0 <= x < 1.0 ==> (Sample(arr, alias, j, x) == k <==> lo <= x < hi)
  {
    lo := if j == k then 0.0 else arr[j];
    hi := if alias[j] == k then 1.0 else if j == k then arr[j] else lo;
  }

  lemma {:induction false} MassIsPositive(arr: seq<real>, alias: seq<nat>, k: nat, n: nat, j: nat)
    requires j < n <= |arr| == |alias|
    requires forall i :: 0 <= i < |arr| ==> 0.0 <= arr[i] <= 1.0
    ensures Mass(arr, alias, k, n) >= HitLength(arr, alias, j, k)
  {
    if j < n - 1 {
      MassIsPositive(arr, alias, k, n - 1, j);
    } else if n > 1 {
      MassIsPositive(arr, alias, k, n - 1, 0);
    }
  }

  /** Whatever is drawn, the outcome is one of the weighted ones and its weight is positive. */
  lemma OutcomesHaveWeight(arr: seq<real>, alias: seq<nat>, w: seq<real>, slot: nat, x: real)
    requires GoodWeights(w) && Encodes(arr, alias, w)
    requires slot < |arr| && 0.0 <= x < 1.0
    ensures var k := Sample(arr, alias, slot, x); k < |w| && w[k] > 0.0
  {
    var k := Sample(arr, alias, slot, x);
    MassIsPositive(arr, alias, k, |arr|, slot);
    assert Mass(arr, alias, k, |arr|) > 0.0;
  }

  lemma CancelFactor(x: real, y: real, s: real)
    requires s != 0.0 && x * s == y * s
    ensures x == y
  {
    assert (x - y) * s == 0.0;
  }

  lemma MulSwap(z: real, c: real, n: real)
    ensures z * (c * n) == (z * n) * c
  {
  }

  lemma ShareOfShare(a: real, s: real, n: real)
    requires s > 0.0 && n > 0.0
    ensures s / n > 0.0 && (a / (s / n)) / n == a / s
  {
    var c := s / n;
    assert c * n == s;
    var z := (a / c) / n;
    MulSwap(z, c, n);
    assert z * n == a / c && (a / c) * c == a;
    CancelFactor(z, a / s, s);
  }

  /** A uniform slot and a uniform real sample exactly the given distribution. */
  lemma SamplesExactly(arr: seq<real>, alias: seq<nat>, w: seq<real>, k: nat)
    requires GoodWeights(w) && Encodes(arr, alias, w) && k < |w|
    ensures Mass(arr, alias, k, |arr|) / |arr| as real == w[k] / Sum(w)
  {
    ShareOfShare(w[k], Sum(w), |arr| as real);
  }

  // ---- The build: which slots are settled, and what is still owed ----

  /** The table while it is built: `f` holds the residual weights, `done` the settled slots. */
  datatype Partial = Partial(f: seq<real>, arr: seq<real>, alias: seq<nat>, done: seq<bool>)
  {
    ghost predicate Shape(n: nat) { |f| == |arr| == |alias| == |done| == n }

    /** Slot `u` keeps what it has and takes the rest of its unit from `o`. */
    ghost function Settle(u: nat, o: nat): Partial
      requires Shape(|f|) && u < |f| && o < |f|
    {
      Partial(f[o := f[o] + f[u] - 1.0], arr[u := f[u]], alias[u := o], done[u := true])
    }
  }

  /** What outcome `k` gets from settled slots other than through its own share. */
  ghost function Borrowed(p: Partial, k: nat, n: nat): real
    requires p.Shape(|p.f|) && n <= |p.f|
  {
    if n == 0 then 0.0
    else Borrowed(p, k, n - 1) + (if p.done[n - 1] && p.alias[n - 1] == k then 1.0 - p.arr[n - 1] else 0.0)
  }

  /** Total excess of the unsettled slots over one unit each. */
  ghost function Excess(p: Partial, n: nat): real
    requires p.Shape(|p.f|) && n <= |p.f|
  {
    if n == 0 then 0.0 else Excess(p, n - 1) + (if p.done[n - 1] then 0.0 else p.f[n - 1] - 1.0)
  }

  ghost function Unsettled(done: seq<bool>): nat {
    if done == [] then 0 else Unsettled(done[..|done| - 1]) + if done[|done| - 1] then 0 else 1
  }

  /** Mass is conserved: every outcome's residual and borrowed shares add up to its target, and the
      unsettled slots hold one unit each on average. */
  ghost predicate Conserves(p: Partial, target: seq<real>) {
    var n := |target|;
    && p.Shape(n)
    && (forall k :: 0 <= k < n ==> p.f[k] >= 0.0)
    && (forall j :: 0 <= j < n && p.done[j] ==> p.arr[j] == p.f[j] < 1.0 && p.alias[j] < n)
    && (forall k :: 0 <= k < n ==> p.f[k] + Borrowed(p, k, n) == target[k])
    && Excess(p, n) == 0.0
  }

  /** Where the cursors stand: below `over` nothing has a unit to give; the unsettled slots that lack
      something are `under` and those at or beyond `mm`. */
  ghost predicate Cursors(p: Partial, over: nat, under: nat, mm: nat) {
    var n := |p.f|;
    && p.Shape(n) && over <= n && under <= n && (under < n ==> under < mm <= n) && (under == n ==> mm == n + 1)
    && (forall j :: 0 <= j < over ==> p.f[j] < 1.0)
    && (over < n ==> p.f[over] >= 1.0)
    && (under < n ==> !p.done[under] && p.f[under] < 1.0)
    && (forall j :: mm <= j < n ==> !p.done[j])
    && (forall j :: 0 <= j < n && j < mm && j != under && p.f[j] < 1.0 ==> p.done[j])
    && (forall j :: 0 <= j < n && p.done[j] ==> p.f[j] < 1.0)
  }

  lemma {:induction false} BorrowedAfterSettle(p: Partial, u: nat, o: nat, k: nat, n: nat)
    requires p.Shape(|p.f|) && n <= |p.f| && u < |p.f| && o < |p.f| && !p.done[u]
    ensures Borrowed(p.Settle(u, o), k, n) == Borrowed(p, k, n) + if u < n && k == o then 1.0 - p.f[u] else 0.0
  {
    if n == 0 {
    } else {
      BorrowedAfterSettle(p, u, o, k, n - 1);
    }
  }

  lemma {:induction false} ExcessAfterSettle(p: Partial, u: nat, o: nat, n: nat)
    requires p.Shape(|p.f|) && n <= |p.f| && u < |p.f| && o < |p.f| && u != o && !p.done[u] && !p.done[o]
    ensures Excess(p.Settle(u, o), n)
            == Excess(p, n) + (if o < n then p.f[u] - 1.0 else 0.0) - (if u < n then p.f[u] - 1.0 else 0.0)
  {
    if n == 0 {
    } else {
      ExcessAfterSettle(p, u, o, n - 1);
    }
  }

  lemma {:induction false} UnsettledAfterSettle(done: seq<bool>, u: nat)
    requires u < |done| && !done[u]
    ensures Unsettled(done[u := true]) == Unsettled(done) - 1
  {
    var last := |done| - 1;
    if u < last {
      UnsettledAfterSettle(done[..last], u);
      assert done[u := true][..last] == done[..last][u := true];
    } else {
      assert done[u := true][..last] == done[..last];
    }
  }

  lemma SettleConserves(p: Partial, target: seq<real>, over: nat, under: nat, mm: nat)
    requires Conserves(p, target) && Cursors(p, over, under, mm) && over < |p.f| && under < |p.f|
    ensures Conserves(p.Settle(under, over), target)
  {
    var n, q := |target|, p.Settle(under, over);
    forall k | 0 <= k < n ensures q.f[k] + Borrowed(q, k, n) == target[k] {
      BorrowedAfterSettle(p, under, over, k, n);
    }
    ExcessAfterSettle(p, under, over, n);
  }

  /** Moving the cursors on after slot `under` has been settled from `over`. */
  lemma NextCursors(p: Partial, over: nat, under: nat, mm: nat, over': nat, under': nat, mm': nat)
    requires Cursors(p, over, under, mm) && over < |p.f| && under < |p.f|
    requires var n, q := |p.f|, p.Settle(under, over);
             if q.f[over] >= 1.0 || mm <= over then
               && mm <= under' <= n && mm' == under' + 1
               && (forall j :: mm <= j < under' ==> q.f[j] >= 1.0)
               && (under' < n ==> q.f[under'] < 1.0)
             else
               under' == over && mm' == mm
    requires var n, q := |p.f|, p.Settle(under, over);
             && over <= over' <= n
             && (forall j :: over <= j < over' ==> q.f[j] < 1.0)
             && (over' < n ==> q.f[over'] >= 1.0)
    ensures Cursors(p.Settle(under, over), over', under', mm')
  {
    assert !p.done[over] && over != under;
  }

  /** At the end nothing is lacking anywhere, so every unsettled slot holds exactly one unit. */
  lemma {:induction false} ExcessBalances(p: Partial, n: nat)
    requires p.Shape(|p.f|) && n <= |p.f|
    requires || (forall j :: 0 <= j < n && !p.done[j] ==> p.f[j] >= 1.0)
             || (forall j :: 0 <= j < n && !p.done[j] ==> p.f[j] < 1.0)
    ensures (forall j :: 0 <= j < n && !p.done[j] ==> p.f[j] >= 1.0) ==>
              Excess(p, n) >= 0.0 && (Excess(p, n) == 0.0 ==> forall j :: 0 <= j < n && !p.done[j] ==> p.f[j] == 1.0)
    ensures (forall j :: 0 <= j < n && !p.done[j] ==> p.f[j] < 1.0) ==>
              Excess(p, n) <= 0.0 && (Excess(p, n) == 0.0 ==> forall j :: 0 <= j < n ==> p.done[j])
  {
    if n == 0 {
    } else {
      ExcessBalances(p, n - 1);
    }
  }

  /** When the main loop stops no deficient slot is pending: `under` has run off the end. */
  lemma NothingPending(p: Partial, target: seq<real>, over: nat, under: nat, mm: nat)
    requires Conserves(p, target) && Cursors(p, over, under, mm)
    requires over == |p.f| || under == |p.f|
    ensures under == |p.f|
    ensures forall j :: 0 <= j < |p.f| && !p.done[j] ==> p.f[j] == 1.0
  {
    ExcessBalances(p, |p.f|);
  }

  /** The finished table: settled slots as they are, every other slot kept whole. */
  lemma {:induction false} MassOfFinished(p: Partial, arr: seq<real>, alias: seq<nat>, k: nat, n: nat)
    requires p.Shape(|p.f|) && n <= |p.f| == |arr| == |alias|
    requires forall j :: 0 <= j < |p.f| ==>
      if p.done[j] then arr[j] == p.arr[j] && alias[j] == p.alias[j] else arr[j] == 1.0 && alias[j] == j
    ensures Mass(arr, alias, k, n) == Borrowed(p, k, n) + if k < n then arr[k] else 0.0
  {
    if n == 0 {
    } else {
      MassOfFinished(p, arr, alias, k, n - 1);
    }
  }

  lemma FinishedEncodes(p: Partial, w: seq<real>, arr: seq<real>, alias: seq<nat>)
    requires GoodWeights(w) && 0 < |w| <= |p.f| == |arr| == |alias|
    requires Conserves(p, seq(|p.f|, k requires k >= 0 => Target(w, |p.f|, k)))
    requires forall j :: 0 <= j < |p.f| && !p.done[j] ==> p.f[j] == 1.0
    requires forall j :: 0 <= j < |p.f| ==>
      if p.done[j] then arr[j] == p.arr[j] && alias[j] == p.alias[j] else arr[j] == 1.0 && alias[j] == j
    ensures Encodes(arr, alias, w)
  {
    forall k | 0 <= k < |arr| ensures Mass(arr, alias, k, |arr|) == Target(w, |arr|, k) {
      MassOfFinished(p, arr, alias, k, |arr|);
    }
  }

  lemma {:induction false} NothingBorrowedYet(p: Partial, k: nat, n: nat)
    requires p.Shape(|p.f|) && n <= |p.f| && forall j :: 0 <= j < |p.f| ==> !p.done[j]
    ensures Borrowed(p, k, n) == 0.0
  {
    if n == 0 {
    } else {
      NothingBorrowedYet(p, k, n - 1);
    }
  }

  lemma {:induction false} DivideSum(a: real, b: real, c: real)
    requires c != 0.0
    ensures (a + b) / c == a / c + b / c
  {
    assert (a / c + b / c) * c == a + b;
    CancelFactor((a + b) / c, a / c + b / c, c);
  }

  /** The scaled weights of the first `n` slots exceed one unit each by their sum less `n`. */
  lemma {:induction false} InitialExcess(p: Partial, w: seq<real>, c: real, n: nat)
    requires p.Shape(|p.f|) && n <= |p.f| && c != 0.0 && forall j :: 0 <= j < |p.f| ==> !p.done[j]
    requires forall j :: 0 <= j < |p.f| ==> p.f[j] == if j < |w| then w[j] / c else 0.0
    ensures Excess(p, n) == Sum(if n < |w| then w[..n] else w) / c - n as real
  {
    if n == 0 {
    } else {
      InitialExcess(p, w, c, n - 1);
      if n <= |w| {
        assert w[..n][..n - 1] == w[..n - 1];
        assert w[..|w|] == w;
        DivideSum(Sum(w[..n - 1]), w[n - 1], c);
      }
    }
  }

  lemma ShareCount(a: real, n: real)
    requires a > 0.0 && n > 0.0
    ensures a / n > 0.0 && a / (a / n) == n
  {
    var c := a / n;
    assert c * n == a;
    CancelFactor(a / c, n, c);
  }

  lemma InitialConserves(p: Partial, w: seq<real>)
    requires GoodWeights(w) && |w| <= |p.f| && p.Shape(|p.f|)
    requires forall j :: 0 <= j < |p.f| ==> !p.done[j] && p.f[j] == Target(w, |p.f|, j)
    ensures Conserves(p, seq(|p.f|, k requires k >= 0 => Target(w, |p.f|, k)))
  {
    var n := |p.f|;
    var c := Sum(w) / n as real;
    ShareCount(Sum(w), n as real);
    forall k | 0 <= k < n ensures Borrowed(p, k, n) == 0.0 && p.f[k] >= 0.0 {
      NothingBorrowedYet(p, k, n);
      if k < |w| { assert p.f[k] * c == w[k]; }
    }
    InitialExcess(p, w, c, n);
    assert w[..|w|] == w;
  }

  // ---- The class ----

  class AliasMethod {
    var arr: array<real>
    var alias: array<nat>
    var msize: nat
    var bitsize: nat
    var bitmask: nat

    ghost predicate Valid()
      reads this
    {
      bitsize > 0 ==> arr.Length == alias.Length == Pow2(bitsize) && bitmask == Pow2(bitsize) - 1
    }

    constructor ()
      ensures Valid() && bitsize == 0
    {
      arr := new real[0];
      alias := new nat[0];
      msize, bitsize, bitmask := 0, 0, 0;
    }

    /** The residual weights: scaled to one unit a slot on average, zero in the padding. */
    method Scale(w: seq<real>, psize: nat) returns (f: array<real>)
      requires GoodWeights(w) && |w| <= psize
      ensures fresh(f) && f.Length == psize
      ensures forall k :: 0 <= k < psize ==> f[k] == Target(w, psize, k)
    {
      var sum := 0.0;
      for i := 0 to |w|
        invariant sum == Sum(w[..i])
      {
        assert w[..i + 1][..i] == w[..i];
        sum := sum + w[i];
      }
      assert w[..|w|] == w;
      sum := sum / psize as real;
      assert sum * psize as real == Sum(w);
      f := new real[psize];
      for i := 0 to |w|
        invariant forall k :: 0 <= k < i ==> f[k] == Target(w, psize, k)
      {
        f[i] := w[i] / sum;
      }
      for i := |w| to psize
        invariant forall k :: 0 <= k < i ==> f[k] == Target(w, psize, k)
      {
        f[i] := 0.0;
      }
    }

    /** Moves past slots that hold less than one unit. */
    method SkipDeficient(f: array<real>, start: nat) returns (i: nat)
      requires start <= f.Length
      ensures start <= i <= f.Length && (i < f.Length ==> f[i] >= 1.0)
      ensures forall j :: start <= j < i ==> f[j] < 1.0
    {
      i := start;
      while i < f.Length && f[i] < 1.0
        invariant start <= i <= f.Length && forall j :: start <= j < i ==> f[j] < 1.0
      {
        i := i + 1;
      }
    }

    /** Moves past slots that hold at least one unit. */
    method SkipSufficient(f: array<real>, start: nat) returns (i: nat)
      requires start <= f.Length
      ensures start <= i <= f.Length && (i < f.Length ==> f[i] < 1.0)
      ensures forall j :: start <= j < i ==> f[j] >= 1.0
    {
      i := start;
      while i < f.Length && f[i] >= 1.0
        invariant start <= i <= f.Length && forall j :: start <= j < i ==> f[j] >= 1.0
      {
        i := i + 1;
      }
    }

    ghost function Now(f: array<real>, done: seq<bool>): Partial
      reads this, arr, alias, f
    {
      Partial(f[..], arr[..], alias[..], done)
    }

    method Settle(f: array<real>, under: nat, over: nat, ghost done: seq<bool>)
      requires arr.Length == alias.Length == f.Length == |done| && f != arr
      requires under < f.Length && over < f.Length
      modifies f, arr, alias
      ensures Now(f, done[under := true]) == old(Now(f, done)).Settle(under, over)
    {
      arr[under] := f[under];
      alias[under] := over;
      f[over] := f[over] + (f[under] - 1.0);
    }

    /** One turn of the main loop: slot `under` is settled for good and the cursors move on. */
    method SettleNext(f: array<real>, over: nat, under: nat, mm: nat, ghost target: seq<real>, ghost done: seq<bool>)
      returns (over': nat, under': nat, mm': nat)
      requires arr.Length == alias.Length == f.Length == |done| && f != arr
      requires under < f.Length && over < f.Length
      requires Conserves(Now(f, done), target) && Cursors(Now(f, done), over, under, mm)
      modifies f, arr, alias
      ensures Conserves(Now(f, done[under := true]), target)
      ensures Cursors(Now(f, done[under := true]), over', under', mm')
      ensures !done[under]
    {
      ghost var p := Now(f, done);
      SettleConserves(p, target, over, under, mm);
      Settle(f, under, over, done);
      ghost var q := p.Settle(under, over);
      assert f[..] == q.f;
      if f[over] >= 1.0 || mm <= over {
        under' := SkipSufficient(f, mm);
        mm' := under' + 1;
      } else {
        under', mm' := over, mm;
      }
      over' := SkipDeficient(f, over);
      NextCursors(p, over, under, mm, over', under', mm');
    }

    /** The main loop; it ends with no deficient slot pending or no slot left to take from. */
    method SettleSlots(f: array<real>, ghost target: seq<real>)
      returns (over: nat, under: nat, mm: nat, ghost done: seq<bool>)
      requires arr.Length == alias.Length == f.Length == |target| && f != arr
      requires Conserves(Now(f, seq(f.Length, _ => false)), target)
      modifies f, arr, alias
      ensures Conserves(Now(f, done), target)
      ensures Cursors(Now(f, done), over, under, mm)
      ensures over == f.Length || under == f.Length
    {
      done := seq(f.Length, _ => false);
      over := SkipDeficient(f, 0);
      under := SkipSufficient(f, 0);
      mm := under + 1;
      while over < f.Length && under < f.Length
        invariant |done| == f.Length
        invariant Conserves(Now(f, done), target)
        invariant Cursors(Now(f, done), over, under, mm)
        decreases Unsettled(done)
      {
        ghost var settled := under;
        over, under, mm := SettleNext(f, over, under, mm, target, done);
        UnsettledAfterSettle(done, settled);
        done := done[settled := true];
      }
    }

    /** What is left after the main loop keeps its whole unit for itself. The last loop stops at
        `msize`: over exact reals no deficient slot is pending here at all. */
    method KeepTheRest(f: array<real>, start: nat, pending: nat, mm: nat,
                       ghost target: seq<real>, ghost done: seq<bool>)
      requires arr.Length == alias.Length == f.Length == |target| && f != arr && msize <= f.Length
      requires Conserves(Now(f, done), target)
      requires Cursors(Now(f, done), start, pending, mm)
      requires start == f.Length || pending == f.Length
      modifies arr, alias
      ensures forall j :: 0 <= j < f.Length && !done[j] ==> f[j] == 1.0 && arr[j] == 1.0 && alias[j] == j
      ensures forall j :: 0 <= j < f.Length && done[j] ==> arr[j] == old(arr[j]) && alias[j] == old(alias[j])
    {
      var over, under, psize := start, pending, f.Length;
      while over < psize
        invariant start <= over <= psize
        invariant forall j :: start <= j < over && f[j] >= 1.0 ==> arr[j] == 1.0 && alias[j] == j
        invariant forall j :: 0 <= j < psize && done[j] ==> arr[j] == old(arr[j]) && alias[j] == old(alias[j])
      {
        if f[over] >= 1.0 {
          arr[over] := 1.0;
          alias[over] := over;
        }
        over := over + 1;
      }
      if under < psize {
        arr[under] := 1.0;
        alias[under] := under;
        under := mm;
        while under < msize
          invariant mm <= under
          invariant forall j :: 0 <= j < psize && done[j] ==> arr[j] == old(arr[j]) && alias[j] == old(alias[j])
        {
          if f[under] < 1.0 {
            arr[under] := 1.0;
            alias[under] := under;
          }
          under := under + 1;
        }
      }
      NothingPending(old(Now(f, done)), target, start, pending, mm);
    }

    /** The arrays are reallocated only when the table size changes; otherwise their old contents stay. */
    method Allocate(nbsize: nat)
      requires Valid() && nbsize > 0
      modifies this
      ensures Valid() && bitsize == nbsize && msize == old(msize)
      ensures if nbsize == old(bitsize) then arr == old(arr) && alias == old(alias) else fresh(arr) && fresh(alias)
    {
      if nbsize != bitsize {
        var psize := Pow2(nbsize);
        arr := new real[psize](_ => 0.0);
        alias := new nat[psize];
        bitsize := nbsize;
        bitmask := psize - 1;
      }
    }

    method BuildTable(w: seq<real>)
      requires Valid() && GoodWeights(w)
      modifies this, arr, alias
      ensures Valid() && msize == |w| && bitsize == CeilLog2(|w|)
      ensures Encodes(arr[..], alias[..], w)
    {
      msize := |w|;
      Allocate(CeilLog2(msize));
      FillTable(w);
    }

    /** Every slot is assigned, so nothing of an earlier table survives. */
    method FillTable(w: seq<real>)
      requires Valid() && bitsize > 0 && GoodWeights(w) && msize == |w| <= arr.Length
      modifies arr, alias
      ensures Encodes(arr[..], alias[..], w)
    {
      var psize := arr.Length;
      var f := Scale(w, psize);
      ghost var target := seq(psize, k requires k >= 0 => Target(w, psize, k));
      InitialConserves(Now(f, seq(psize, _ => false)), w);
      var over, under, mm;
      ghost var done;
      over, under, mm, done := SettleSlots(f, target);
      ghost var p := Now(f, done);
      KeepTheRest(f, over, under, mm, target, done);
      FinishedEncodes(p, w, arr[..], alias[..]);
    }

    /** One draw: random bits pick the slot, a uniform real decides between the slot and its alias. */
    method Draw(bits: nat, x: real, ghost w: seq<real>) returns (k: nat)
      requires Valid() && bitsize > 0 && GoodWeights(w) && Encodes(arr[..], alias[..], w)
      requires 0.0 <= x < 1.0
      ensures k == Sample(arr[..], alias[..], bits % arr.Length, x)
      ensures k < |w| && w[k] > 0.0
    {
      var albit := bits % (bitmask + 1);
      OutcomesHaveWeight(arr[..], alias[..], w, albit, x);
      if x < arr[albit] {
        return albit;
      }
      return alias[albit];
    }
  }
}
