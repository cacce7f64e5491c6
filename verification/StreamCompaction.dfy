/** Appending the accepted lanes of a packet to a partly filled carry packet: the table-driven and
    the rotate-and-compress algorithms, both against one conservation contract. */
module StreamCompaction {
  import opened Arithmetic

  // ---- What appending means ----

  /** The accepted lanes, in order. */
  function Select<T>(value: seq<T>, mask: seq<bool>): (r: seq<T>)
    requires |value| == |mask|
    ensures |r| <= |value|
  {
    if value == [] then []
    else (if mask[0] then [value[0]] else []) + Select(value[1..], mask[1..])
  }

  datatype Carry<T> = Carry(rest: seq<T>, count: nat)
  {
    predicate Ok(w: nat) { |rest| == w && count < w }
    function Lanes(): seq<T>
      requires count <= |rest|
    {
      rest[..count]
    }
  }

  /** One call: the candidate packet and its mask go in, the packet and the full flag come out. */
  datatype Call<T> = Call(value: seq<T>, mask: seq<bool>, out: seq<T>, full: bool)
  {
    ghost function Accepted(): seq<T>
      requires |value| == |mask|
    {
      Select(value, mask)
    }
    ghost function Emitted(): seq<T> { if full then out else [] }
  }

  /** No accepted lane is lost, invented or duplicated, and a packet is emitted exactly when enough
      lanes have come together. */
  ghost predicate Appends<T>(w: nat, before: Carry<T>, call: Call<T>, after: Carry<T>) {
    && before.Ok(w) && after.Ok(w) && |call.value| == |call.mask| == |call.out| == w
    && (call.full <==> before.count + |call.Accepted()| >= w)
    && before.count + |call.Accepted()| == after.count + |call.Emitted()|
    && multiset(before.Lanes()) + multiset(call.Accepted()) == multiset(call.Emitted()) + multiset(after.Lanes())
  }

  // ---- Any run of calls ----

  ghost predicate IsRun<T>(w: nat, carries: seq<Carry<T>>, calls: seq<Call<T>>) {
    |carries| == |calls| + 1 && forall i :: 0 <= i < |calls| ==> Appends(w, carries[i], calls[i], carries[i + 1])
  }

  ghost function AllAccepted<T>(calls: seq<Call<T>>): multiset<T>
    requires forall i :: 0 <= i < |calls| ==> |calls[i].value| == |calls[i].mask|
  {
    if calls == [] then multiset{}
    else AllAccepted(calls[..|calls| - 1]) + multiset(calls[|calls| - 1].Accepted())
  }

  ghost function AllEmitted<T>(calls: seq<Call<T>>): multiset<T> {
    if calls == [] then multiset{}
    else AllEmitted(calls[..|calls| - 1]) + multiset(calls[|calls| - 1].Emitted())
  }

  lemma Chain<T>(a: multiset<T>, ins: multiset<T>, outs: multiset<T>, b: multiset<T>,
                 i: multiset<T>, o: multiset<T>, c: multiset<T>)
    requires a + ins == outs + b && b + i == o + c
    ensures a + (ins + i) == (outs + o) + c
  {
    assert a + (ins + i) == (a + ins) + i == outs + (b + i);
  }

  /** Over any run, whichever algorithm serves each call, what was emitted and what is still carried
      is exactly what was carried at first and accepted since. */
  lemma {:induction false} RunConserves<T>(w: nat, carries: seq<Carry<T>>, calls: seq<Call<T>>)
    requires IsRun(w, carries, calls) && carries[0].Ok(w)
    ensures forall i :: 0 <= i < |calls| ==> |calls[i].value| == |calls[i].mask|
    ensures carries[|calls|].Ok(w)
    ensures multiset(carries[0].Lanes()) + AllAccepted(calls) == AllEmitted(calls) + multiset(carries[|calls|].Lanes())
  {
    forall i | 0 <= i < |calls| ensures |calls[i].value| == |calls[i].mask| {
      assert Appends(w, carries[i], calls[i], carries[i + 1]);
    }
    if calls == [] {
    } else {
      var n := |calls| - 1;
      var before, call, after := carries[n], calls[n], carries[n + 1];
      assert Appends(w, before, call, after);
      RunConserves(w, carries[..n + 1], calls[..n]);
      Chain(multiset(carries[0].Lanes()), AllAccepted(calls[..n]), AllEmitted(calls[..n]), multiset(before.Lanes()),
            multiset(call.Accepted()), multiset(call.Emitted()), multiset(after.Lanes()));
    }
  }

  // ---- The lookup tables ----

  /** Lane masks as the integers the tables are indexed with. */
  function MoveMask(mask: seq<bool>): nat {
    if mask == [] then 0 else (if mask[0] then 1 else 0) + 2 * MoveMask(mask[1..])
  }

  lemma HalfOfBit(bit: nat, m: nat)
    requires bit < 2
    ensures (bit + 2 * m) % 2 == bit && (bit + 2 * m) / 2 == m
  {
  }

  /** The lowest bit is the next lane; shifting it out moves on to the one after. */
  lemma LowestBit(mask: seq<bool>, i: nat)
    requires i < |mask|
    ensures MoveMask(mask[i..]) % 2 == if mask[i] then 1 else 0
    ensures MoveMask(mask[i..]) / 2 == MoveMask(mask[i + 1..])
  {
    HalfOfBit(if mask[i] then 1 else 0, MoveMask(mask[i + 1..]));
    assert mask[i..][0] == mask[i] && mask[i..][1..] == mask[i + 1..];
  }

  /** Indices of the accepted lanes, counted from `from`. */
  function Positions(mask: seq<bool>, from: nat): (r: seq<nat>)
    ensures |r| <= |mask|
    ensures forall i :: 0 <= i < |r| ==> from <= r[i] < from + |mask|
  {
    if mask == [] then [] else (if mask[0] then [from] else []) + Positions(mask[1..], from + 1)
  }

  lemma {:induction false} SelectAtPositions<T>(value: seq<T>, mask: seq<bool>, from: nat)
    requires |value| == |mask|
    ensures |Select(value, mask)| == |Positions(mask, from)|
    ensures forall i :: 0 <= i < |Select(value, mask)| ==>
              Select(value, mask)[i] == value[Positions(mask, from)[i] - from]
  {
    if mask == [] {
    } else {
      SelectAtPositions(value[1..], mask[1..], from + 1);
    }
  }

  /** A row of the table: accepted lanes moved to start at `offset`, zero elsewhere. */
  ghost predicate IsRow(w: nat, mask: seq<bool>, offset: int, row: seq<nat>) {
    |mask| == w == |row| &&
    forall j :: 0 <= j < w ==>
      row[j] == var k := j - offset; if 0 <= k < |Positions(mask, 0)| then Positions(mask, 0)[k] else 0
  }

  /** Lane `i`, if accepted, is the next position after those of the lanes before it. */
  lemma {:induction false} NextPosition(mask: seq<bool>, i: nat, from: nat)
    requires i < |mask|
    ensures |Positions(mask[..i + 1], from)| == |Positions(mask[..i], from)| + if mask[i] then 1 else 0
    ensures |Positions(mask[..i + 1], from)| <= |Positions(mask, from)|
    ensures mask[i] ==> Positions(mask, from)[|Positions(mask[..i], from)|] == from + i
  {
    if i == 0 {
    } else {
      NextPosition(mask[1..], i - 1, from + 1);
      assert mask[..i + 1][1..] == mask[1..][..i] && mask[..i][1..] == mask[1..][..i - 1];
    }
  }

  /** `ret` holds the first `k` of the positions `all` from `offset` on, as far as they fit. */
  ghost predicate RowSoFar(ret: seq<nat>, all: seq<nat>, offset: int, k: nat) {
    k <= |all| && forall j :: 0 <= j < |ret| ==> ret[j] == if 0 <= j - offset < k then all[j - offset] else 0
  }

  /** Lanes before `i` are in the row so far, `n` is where the next accepted one goes, and `bits` are
      the lanes still to come. */
  ghost predicate Scanned(ret: seq<nat>, bits: nat, mask: seq<bool>, offset: int, n: int, i: nat) {
    && i <= |mask| == |ret| && bits == MoveMask(mask[i..])
    && n == offset + |Positions(mask[..i], 0)|
    && RowSoFar(ret, Positions(mask, 0), offset, n - offset)
  }

  lemma ScanStart(ret: seq<nat>, bits: nat, mask: seq<bool>, offset: int)
    requires |ret| == |mask| && bits == MoveMask(mask) && forall j :: 0 <= j < |ret| ==> ret[j] == 0
    ensures Scanned(ret, bits, mask, offset, offset, 0)
  {
    assert mask[0..] == mask && Positions(mask[..0], 0) == [];
  }

  lemma ScanStep(ret: seq<nat>, bits: nat, mask: seq<bool>, offset: int, n: int, i: nat)
    requires Scanned(ret, bits, mask, offset, n, i) && i < |mask| && n < |mask|
    ensures bits % 2 == 1 <==> mask[i]
    ensures mask[i] && n >= 0 ==> ret[n] == 0 && Scanned(ret[n := i], bits / 2, mask, offset, n + 1, i + 1)
    ensures mask[i] && n < 0 ==> Scanned(ret, bits / 2, mask, offset, n + 1, i + 1)
    ensures !mask[i] ==> Scanned(ret, bits / 2, mask, offset, n, i + 1)
  {
    LowestBit(mask, i);
    NextPosition(mask, i, 0);
  }

  lemma ScanDone(ret: seq<nat>, bits: nat, mask: seq<bool>, offset: int, n: int, i: nat)
    requires Scanned(ret, bits, mask, offset, n, i) && (i == |mask| || n >= |mask|)
    ensures IsRow(|mask|, mask, offset, ret)
  {
    assert mask[..|mask|] == mask;
  }

  method MakeCompress(w: nat, m: nat, offset: int, ghost mask: seq<bool>) returns (row: seq<nat>)
    requires |mask| == w && m == MoveMask(mask) && offset < w
    ensures IsRow(w, mask, offset, row)
  {
    var ret := new nat[w](_ => 0);
    var bits, n, i := m, offset, 0;
    ScanStart(ret[..], bits, mask, offset);
    while i < w
      invariant Scanned(ret[..], bits, mask, offset, n, i) && n < w
    {
      ScanStep(ret[..], bits, mask, offset, n, i);
      ghost var before: seq<nat> := ret[..];
      var l := bits % 2;
      bits := bits / 2;
      if l == 1 {
        if n >= 0 {
          ret[n] := i;
          assert ret[..] == before[n := i];
        }
        n := n + 1;
        if n >= w {
          ScanDone(ret[..], bits, mask, offset, n, i + 1);
          break;
        }
      }
      i := i + 1;
    }
    row := ret[..];
    if n < w {
      ScanDone(row, bits, mask, offset, n, i);
    }
  }

  method Count(w: nat, m: nat, ghost mask: seq<bool>) returns (n: nat)
    requires |mask| == w && m == MoveMask(mask)
    ensures n == |Positions(mask, 0)|
  {
    n := 0;
    var bits := m;
    for i := 0 to w
      invariant bits == MoveMask(mask[i..]) && n == |Positions(mask[..i], 0)|
    {
      NextPosition(mask, i, 0);
      LowestBit(mask, i);
      n := n + bits % 2;
      bits := bits / 2;
    }
    assert mask[..w] == mask;
  }

  /** The mask that an integer below 2^w stands for. */
  function BitsOf(m: nat, w: nat): (mask: seq<bool>)
    ensures |mask| == w
  {
    if w == 0 then [] else [m % 2 == 1] + BitsOf(m / 2, w - 1)
  }

  lemma {:induction false} MaskRoundTrip(m: nat, w: nat)
    requires m < Pow2(w)
    ensures MoveMask(BitsOf(m, w)) == m
  {
    if w == 0 {
    } else {
      MaskRoundTrip(m / 2, w - 1);
    }
  }

  lemma {:induction false} BitsRoundTrip(mask: seq<bool>)
    ensures MoveMask(mask) < Pow2(|mask|) && BitsOf(MoveMask(mask), |mask|) == mask
  {
    if mask == [] {
    } else {
      BitsRoundTrip(mask[1..]);
    }
  }

  // ---- Appending by table lookup ----

  function Permute<T>(p: seq<T>, row: seq<nat>): (r: seq<T>)
    requires |row| == |p| && forall j :: 0 <= j < |row| ==> row[j] < |p|
    ensures |r| == |p|
  {
    seq(|p|, j requires 0 <= j < |p| => p[row[j]])
  }

  /** `a` in the first `n` lanes, `b` in the others. */
  function Blend<T>(n: nat, a: seq<T>, b: seq<T>): (r: seq<T>)
    requires |a| == |b|
    ensures |r| == |a|
  {
    seq(|a|, j requires 0 <= j < |a| => if j < n then a[j] else b[j])
  }

  /** A permuted packet holds the accepted lanes from `offset` on. */
  lemma PermuteSelects<T>(w: nat, value: seq<T>, mask: seq<bool>, offset: int, row: seq<nat>)
    requires |value| == w > 0 && IsRow(w, mask, offset, row)
    ensures forall j :: 0 <= j < w ==> row[j] < w
    ensures forall j :: 0 <= j < w && 0 <= j - offset < |Select(value, mask)| ==>
              Permute(value, row)[j] == Select(value, mask)[j - offset]
  {
    SelectAtPositions(value, mask, 0);
  }

  /** The carried lanes followed by the accepted ones. */
  ghost function Queue<T>(rest: seq<T>, restCnt: nat, value: seq<T>, mask: seq<bool>): seq<T>
    requires restCnt <= |rest| && |value| == |mask|
  {
    rest[..restCnt] + Select(value, mask)
  }

  lemma FirstPacket<T>(w: nat, value: seq<T>, mask: seq<bool>, rest: seq<T>, restCnt: nat, row: seq<nat>)
    requires |value| == |rest| == w && restCnt < w && IsRow(w, mask, restCnt, row)
    ensures forall j :: 0 <= j < w ==> row[j] < w
    ensures var p, all := Blend(restCnt, rest, Permute(value, row)), Queue(rest, restCnt, value, mask);
            if |all| >= w then p == all[..w] else p[..|all|] == all
  {
    PermuteSelects(w, value, mask, restCnt, row);
    var p, all := Blend(restCnt, rest, Permute(value, row)), Queue(rest, restCnt, value, mask);
    assert forall j :: 0 <= j < w && j < |all| ==> p[j] == all[j];
  }

  lemma LeftOver<T>(w: nat, value: seq<T>, mask: seq<bool>, rest: seq<T>, restCnt: nat, row: seq<nat>)
    requires |value| == |rest| == w && restCnt < w && IsRow(w, mask, restCnt - w, row)
    requires |Queue(rest, restCnt, value, mask)| >= w
    ensures forall j :: 0 <= j < w ==> row[j] < w
    ensures var all := Queue(rest, restCnt, value, mask); Permute(value, row)[..|all| - w] == all[w..]
  {
    PermuteSelects(w, value, mask, restCnt - w, row);
    var p, all := Permute(value, row), Queue(rest, restCnt, value, mask);
    assert forall j :: 0 <= j < |all| - w ==> p[j] == all[w + j];
  }

  /** The offset that the o-th table is for: 0 to w - 1, then 1 - w to -1. */
  function OffsetOf(w: nat, o: nat): int { if o < w then o else o - (2 * w - 1) }

  ghost predicate GoodRows(w: nat, offset: int, rows: seq<seq<nat>>) {
    |rows| == Pow2(w) && forall m :: 0 <= m < |rows| ==> IsRow(w, BitsOf(m, w), offset, rows[m])
  }

  ghost predicate GoodCounts(w: nat, counts: seq<nat>) {
    |counts| == Pow2(w) && forall m :: 0 <= m < |counts| ==> counts[m] == |Positions(BitsOf(m, w), 0)|
  }

  method MakeRows(w: nat, offset: int) returns (rows: seq<seq<nat>>)
    requires offset < w
    ensures GoodRows(w, offset, rows)
  {
    rows := [];
    for m := 0 to Pow2(w)
      invariant |rows| == m && forall k :: 0 <= k < m ==> IsRow(w, BitsOf(k, w), offset, rows[k])
    {
      MaskRoundTrip(m, w);
      var row := MakeCompress(w, m, offset, BitsOf(m, w));
      rows := rows + [row];
    }
  }

  method MakeCounts(w: nat) returns (counts: seq<nat>)
    ensures GoodCounts(w, counts)
  {
    counts := [];
    for m := 0 to Pow2(w)
      invariant |counts| == m && forall k :: 0 <= k < m ==> counts[k] == |Positions(BitsOf(k, w), 0)|
    {
      MaskRoundTrip(m, w);
      var n := Count(w, m, BitsOf(m, w));
      counts := counts + [n];
    }
  }

  class CompressMask {
    const w: nat
    const idx: seq<seq<seq<nat>>>
    const cnt: seq<nat>

    ghost predicate Valid() {
      && w > 0 && GoodCounts(w, cnt)
      && |idx| == 2 * w - 1 && forall o :: 0 <= o < |idx| ==> GoodRows(w, OffsetOf(w, o), idx[o])
    }

    constructor (w: nat)
      requires w > 0
      ensures Valid() && this.w == w
    {
      var tables: seq<seq<seq<nat>>> := [];
      for o := 0 to 2 * w - 1
        invariant |tables| == o && forall p :: 0 <= p < o ==> GoodRows(w, OffsetOf(w, p), tables[p])
      {
        var rows := MakeRows(w, OffsetOf(w, o));
        tables := tables + [rows];
      }
      var counts := MakeCounts(w);
      this.w := w;
      idx := tables;
      cnt := counts;
    }

    lemma Rows(mask: seq<bool>, restCnt: nat)
      requires Valid() && |mask| == w && restCnt < w
      ensures var m := MoveMask(mask);
              && m < |cnt| && cnt[m] == |Positions(mask, 0)| && restCnt + w - 1 < |idx|
              && m < |idx[restCnt]| && m < |idx[restCnt + w - 1]|
              && IsRow(w, mask, restCnt, idx[restCnt][m])
              && (restCnt > 0 ==> IsRow(w, mask, restCnt - w, idx[restCnt + w - 1][m]))
    {
      BitsRoundTrip(mask);
      assert GoodRows(w, OffsetOf(w, restCnt), idx[restCnt]);
      assert GoodRows(w, OffsetOf(w, restCnt + w - 1), idx[restCnt + w - 1]);
    }

    /** `value`, `rest` and `full` are in-out in the original. Unless the whole packet is accepted,
        the carried lanes go first and the order is kept. */
    method CompressAppend<T>(value: seq<T>, mask: seq<bool>, rest: seq<T>, restCnt: nat)
      returns (value': seq<T>, rest': seq<T>, newCnt: nat, full: bool)
      requires Valid() && |value| == |mask| == w && Carry(rest, restCnt).Ok(w)
      ensures Appends(w, Carry(rest, restCnt), Call(value, mask, value', full), Carry(rest', newCnt))
      ensures |Select(value, mask)| < w ==>
                rest[..restCnt] + Select(value, mask) == (if full then value' else []) + rest'[..newCnt]
    {
      var m := MoveMask(mask);
      Rows(mask, restCnt);
      SelectAtPositions(value, mask, 0);
      if cnt[m] == w {
        AllAppends(value, mask, rest, restCnt);
        return value, rest, restCnt, true;
      }
      var row, left := idx[restCnt][m], idx[restCnt + w - 1][m];
      value', rest', newCnt, full := AppendRows(value, mask, cnt[m], rest, restCnt, row, left);
    }
  }

  /** With `row` placing the accepted lanes behind the carried ones and `left` those that overflow. */
  method AppendRows<T>(value: seq<T>, ghost mask: seq<bool>, n: nat, rest: seq<T>, restCnt: nat,
                       row: seq<nat>, left: seq<nat>)
    returns (value': seq<T>, rest': seq<T>, newCnt: nat, full: bool)
    requires |value| == |mask| == |rest| && restCnt < |value| && n == |Select(value, mask)| < |value|
    requires IsRow(|value|, mask, restCnt, row) && (restCnt > 0 ==> IsRow(|value|, mask, restCnt - |value|, left))
    ensures Appends(|value|, Carry(rest, restCnt), Call(value, mask, value', full), Carry(rest', newCnt))
    ensures Queue(rest, restCnt, value, mask) == (if full then value' else []) + rest'[..newCnt]
  {
    var w := |value|;
    ghost var all := Queue(rest, restCnt, value, mask);
    FirstPacket(w, value, mask, rest, restCnt, row);
    var p1 := Permute(value, row);
    p1 := Blend(restCnt, rest, p1);
    newCnt := restCnt + n;
    if newCnt >= w {
      rest' := rest;
      if newCnt > w {
        LeftOver(w, value, mask, rest, restCnt, left);
        rest' := Permute(value, left);
      }
      value', newCnt, full := p1, newCnt - w, true;
    } else {
      value', rest', full := value, p1, false;
    }
    MultisetOfParts(all, rest[..restCnt], Select(value, mask));
    SplitAppends(w, rest, restCnt, value, mask, value', rest', newCnt, full, all);
  }

  lemma {:induction false} SelectAll<T>(value: seq<T>, mask: seq<bool>)
    requires |value| == |mask| == |Select(value, mask)|
    ensures Select(value, mask) == value
  {
    if value == [] {
    } else {
      SelectAll(value[1..], mask[1..]);
    }
  }

  /** A packet that is accepted whole passes straight through; the carry stays. */
  lemma AllAppends<T>(value: seq<T>, mask: seq<bool>, rest: seq<T>, restCnt: nat)
    requires |value| == |mask| == |Select(value, mask)| && Carry(rest, restCnt).Ok(|value|)
    ensures Appends(|value|, Carry(rest, restCnt), Call(value, mask, value, true), Carry(rest, restCnt))
  {
    SelectAll(value, mask);
  }

  /** Cutting the carried and the accepted lanes, in some order, into a packet and a new carry. */
  lemma SplitAppends<T>(w: nat, rest: seq<T>, restCnt: nat, value: seq<T>, mask: seq<bool>,
                        value': seq<T>, rest': seq<T>, newCnt: nat, full: bool, all: seq<T>)
    requires |rest| == |rest'| == |value| == |mask| == |value'| == w && restCnt < w && newCnt < w
    requires multiset(all) == multiset(rest[..restCnt]) + multiset(Select(value, mask))
    requires |all| == restCnt + |Select(value, mask)|
    requires if full then |all| == w + newCnt && value' == all[..w] && rest'[..newCnt] == all[w..]
             else all == rest'[..newCnt]
    ensures Appends(w, Carry(rest, restCnt), Call(value, mask, value', full), Carry(rest', newCnt))
    ensures all == (if full then value' else []) + rest'[..newCnt]
  {
    var before, call, after := Carry(rest, restCnt), Call(value, mask, value', full), Carry(rest', newCnt);
    assert all == call.Emitted() + after.Lanes();
    PartsAppend(w, before, call, after, all);
  }

  lemma PartsAppend<T>(w: nat, before: Carry<T>, call: Call<T>, after: Carry<T>, all: seq<T>)
    requires before.Ok(w) && after.Ok(w) && |call.value| == |call.mask| == |call.out| == w
    requires multiset(all) == multiset(before.Lanes()) + multiset(call.Accepted())
    requires |all| == before.count + |call.Accepted()|
    requires all == call.Emitted() + after.Lanes()
    ensures Appends(w, before, call, after)
  {
    MultisetOfParts(all, call.Emitted(), after.Lanes());
  }

  lemma MultisetOfParts<T>(all: seq<T>, a: seq<T>, b: seq<T>)
    requires all == a + b
    ensures multiset(all) == multiset(a) + multiset(b)
  {
  }

  // ---- Appending by rotation ----

  /** Lane i takes lane i - n, indices wrapping at the width. */
  function Rotate<T>(p: seq<T>, n: nat): (r: seq<T>)
    ensures |r| == |p|
  {
    seq(|p|, i requires 0 <= i < |p| => p[(i - n) % |p|])
  }

  /** The accepted lanes moved to the front; the lanes behind them come from `src`. */
  function Compress<T>(src: seq<T>, mask: seq<bool>, value: seq<T>): (r: seq<T>)
    requires |src| == |mask| == |value|
    ensures |r| == |value|
  {
    Select(value, mask) + src[|Select(value, mask)|..]
  }

  lemma RotatedParts<T>(value: seq<T>, mask: seq<bool>, rest: seq<T>, restCnt: nat)
    requires |value| == |mask| == |rest| > 0 && restCnt < |rest| && |Select(value, mask)| < |value|
    ensures var w, n := |value|, |Select(value, mask)|;
            var all, rot := Select(value, mask) + rest[..restCnt], Rotate(rest, n);
            if |all| >= w then Compress(rot, mask, value) == all[..w] && rot[..|all| - w] == all[w..]
            else Compress(rot, mask, value)[..|all|] == all
  {
    var w, n := |value|, |Select(value, mask)|;
    var all, rot := Select(value, mask) + rest[..restCnt], Rotate(rest, n);
    forall i | 0 <= i < w ensures rot[i] == if i >= n then rest[i - n] else rest[i - n + w] {
      if i >= n {
        Quotient(0, w, i - n);
      } else {
        assert (i - n) % w == i - n + w by { NegativeMod(n - i, w); }
      }
    }
    var p := Compress(rot, mask, value);
    assert forall i :: 0 <= i < w && i < |all| ==> p[i] == all[i];
    assert forall i :: 0 <= i < |all| - w ==> rot[i] == all[w + i];
  }

  /** Whole accepted packets pass straight through; otherwise the accepted lanes go first. */
  method CompressAppendRotating<T>(value: seq<T>, mask: seq<bool>, rest: seq<T>, restCnt: nat)
    returns (value': seq<T>, rest': seq<T>, newCnt: nat, full: bool)
    requires |value| == |mask| > 0 && Carry(rest, restCnt).Ok(|value|)
    ensures Appends(|value|, Carry(rest, restCnt), Call(value, mask, value', full), Carry(rest', newCnt))
    ensures |Select(value, mask)| < |value| ==>
              Select(value, mask) + rest[..restCnt] == (if full then value' else []) + rest'[..newCnt]
  {
    var w := |value|;
    ghost var accepted := Select(value, mask);
    SelectAtPositions(value, mask, 0);
    var m := MoveMask(mask);
    var cntM := Count(w, m, mask);
    if cntM == w {
      AllAppends(value, mask, rest, restCnt);
      return value, rest, restCnt, true;
    }
    var rotRest := Rotate(rest, cntM);
    RotatedParts(value, mask, rest, restCnt);
    var p1 := Compress(rotRest, mask, value);
    newCnt := restCnt + cntM;
    if newCnt >= w {
      value', rest', newCnt, full := p1, rotRest, newCnt - w, true;
    } else {
      value', rest', full := value, p1, false;
    }
    MultisetOfParts(accepted + rest[..restCnt], accepted, rest[..restCnt]);
    SplitAppends(w, rest, restCnt, value, mask, value', rest', newCnt, full, accepted + rest[..restCnt]);
  }

  // ---- The packed tables of the 4-lane version: two bits a lane ----

  function Pack(row: seq<nat>): nat {
    if row == [] then 0 else row[0] + 4 * Pack(row[1..])
  }

  /** The lane indices that the packed permutation reads. */
  function Unpack(code: nat, w: nat): seq<nat> {
    if w == 0 then [] else [code % 4] + Unpack(code / 4, w - 1)
  }

  lemma {:induction false} UnpackPack(row: seq<nat>)
    requires forall j :: 0 <= j < |row| ==> row[j] < 4
    ensures Unpack(Pack(row), |row|) == row
  {
    if row == [] {
    } else {
      UnpackPack(row[1..]);
    }
  }

  /** `i << (2 * n)` */
  function ShiftIn(i: nat, n: nat): nat {
    if n == 0 then i else 4 * ShiftIn(i, n - 1)
  }

  lemma {:induction false} PackUpdate(row: seq<nat>, n: nat, i: nat)
    requires n < |row| && row[n] == 0
    ensures Pack(row[n := i]) == Pack(row) + ShiftIn(i, n)
  {
    if n == 0 {
    } else {
      PackUpdate(row[1..], n - 1, i);
      assert row[n := i][1..] == row[1..][n - 1 := i];
    }
  }

  lemma {:induction false} PackFits(row: seq<nat>)
    requires forall j :: 0 <= j < |row| ==> row[j] < 4
    ensures Pack(row) < Pow2(2 * |row|)
  {
    if row == [] {
    } else {
      PackFits(row[1..]);
      assert Pow2(2 * |row|) == 2 * Pow2(2 * |row| - 1) == 4 * Pow2(2 * |row[1..]|);
    }
  }

  /** A row of up to four lanes survives being packed into a byte. */
  lemma PackedRow(w: nat, mask: seq<bool>, offset: int, row: seq<nat>, code: nat)
    requires w <= 4 && IsRow(w, mask, offset, row) && code == Pack(row)
    ensures Unpack(code, w) == row && code < 256
    ensures GoodCode(w, mask, offset, code)
  {
    UnpackPack(row);
    PackFits(row);
    assert Pow2(2 * 3) == 64 && Pow2(2 * 4) == 256;
  }

  /** A packed entry that stands for the right row. */
  ghost predicate GoodCode(w: nat, mask: seq<bool>, offset: int, code: nat) {
    IsRow(w, mask, offset, Unpack(code, w)) && code < 256
  }

  /** The two bits of lane n are still zero, so the or is a sum. */
  method PutLane(code: nat, n: nat, i: nat, ghost ret: seq<nat>) returns (code': nat, ghost ret': seq<nat>)
    requires code == Pack(ret) && n < |ret| && ret[n] == 0 && i < 4
    ensures ret' == ret[n := i] && code' == Pack(ret')
  {
    PackUpdate(ret, n, i);
    code' := code + ShiftIn(i % 4, n);
    ret' := ret[n := i];
  }

  /** The table-building loop over packed codes; `ret` is the row that the code packs. */
  method ScanPacked(w: nat, m: nat, offset: int, ghost mask: seq<bool>) returns (code: nat, ghost ret: seq<nat>)
    requires |mask| == w <= 4 && m == MoveMask(mask) && offset < w
    ensures IsRow(w, mask, offset, ret) && code == Pack(ret)
  {
    ret := seq(w, _ => 0);
    var bits, n, i := m, offset, 0;
    code := 0;
    PackZero(w);
    ScanStart(ret, bits, mask, offset);
    while i < w
      invariant Scanned(ret, bits, mask, offset, n, i) && n < w
      invariant code == Pack(ret)
    {
      ScanStep(ret, bits, mask, offset, n, i);
      var l := bits % 2;
      bits := bits / 2;
      if l == 1 {
        if n >= 0 {
          code, ret := PutLane(code, n, i, ret);
        }
        n := n + 1;
        if n >= w {
          ScanDone(ret, bits, mask, offset, n, i + 1);
          break;
        }
      }
      i := i + 1;
    }
    if n < w {
      ScanDone(ret, bits, mask, offset, n, i);
    }
  }

  method MakeCompressPacked(w: nat, m: nat, offset: int, ghost mask: seq<bool>) returns (code: nat)
    requires |mask| == w <= 4 && m == MoveMask(mask) && offset < w
    ensures GoodCode(w, mask, offset, code)
  {
    ghost var ret;
    code, ret := ScanPacked(w, m, offset, mask);
    PackedRow(w, mask, offset, ret, code);
  }

  lemma {:induction false} PackZero(w: nat)
    ensures Pack(seq(w, _ => 0)) == 0
  {
    if w == 0 {
    } else {
      PackZero(w - 1);
      assert seq(w, _ => 0)[1..] == seq(w - 1, _ => 0);
    }
  }

  ghost predicate GoodCodes(w: nat, offset: int, codes: seq<nat>) {
    |codes| == Pow2(w) && forall m :: 0 <= m < |codes| ==> GoodCode(w, BitsOf(m, w), offset, codes[m])
  }

  method MakeCodes(w: nat, offset: int) returns (codes: seq<nat>)
    requires w <= 4 && offset < w
    ensures GoodCodes(w, offset, codes)
  {
    codes := [];
    for m := 0 to Pow2(w)
      invariant |codes| == m && forall k :: 0 <= k < m ==> GoodCode(w, BitsOf(k, w), offset, codes[k])
    {
      MaskRoundTrip(m, w);
      var code := MakeCompressPacked(w, m, offset, BitsOf(m, w));
      codes := codes + [code];
    }
  }

  /** The 4-lane version: the same tables with packed rows, two bits being enough for four lanes. */
  class PackedCompressMask {
    const w: nat
    const idx: seq<seq<nat>>
    const cnt: seq<nat>

    ghost predicate Valid() {
      && 0 < w <= 4 && GoodCounts(w, cnt)
      && |idx| == 2 * w - 1 && forall o :: 0 <= o < |idx| ==> GoodCodes(w, OffsetOf(w, o), idx[o])
    }

    constructor (w: nat)
      requires 0 < w <= 4
      ensures Valid() && this.w == w
    {
      var tables: seq<seq<nat>> := [];
      for o := 0 to 2 * w - 1
        invariant |tables| == o && forall p :: 0 <= p < o ==> GoodCodes(w, OffsetOf(w, p), tables[p])
      {
        var codes := MakeCodes(w, OffsetOf(w, o));
        tables := tables + [codes];
      }
      var counts := MakeCounts(w);
      this.w := w;
      idx := tables;
      cnt := counts;
    }

    lemma Codes(mask: seq<bool>, restCnt: nat)
      requires Valid() && |mask| == w && restCnt < w
      ensures var m := MoveMask(mask);
              && m < |cnt| && cnt[m] == |Positions(mask, 0)| && restCnt + w - 1 < |idx|
              && m < |idx[restCnt]| && m < |idx[restCnt + w - 1]|
              && IsRow(w, mask, restCnt, Unpack(idx[restCnt][m], w))
              && (restCnt > 0 ==> IsRow(w, mask, restCnt - w, Unpack(idx[restCnt + w - 1][m], w)))
    {
      BitsRoundTrip(mask);
      assert GoodCodes(w, OffsetOf(w, restCnt), idx[restCnt]);
      assert GoodCodes(w, OffsetOf(w, restCnt + w - 1), idx[restCnt + w - 1]);
      assert GoodCode(w, mask, restCnt, idx[restCnt][MoveMask(mask)]);
    }

    method CompressAppend<T>(value: seq<T>, mask: seq<bool>, rest: seq<T>, restCnt: nat)
      returns (value': seq<T>, rest': seq<T>, newCnt: nat, full: bool)
      requires Valid() && |value| == |mask| == w && Carry(rest, restCnt).Ok(w)
      ensures Appends(w, Carry(rest, restCnt), Call(value, mask, value', full), Carry(rest', newCnt))
      ensures |Select(value, mask)| < w ==>
                rest[..restCnt] + Select(value, mask) == (if full then value' else []) + rest'[..newCnt]
    {
      var m := MoveMask(mask);
      Codes(mask, restCnt);
      SelectAtPositions(value, mask, 0);
      if cnt[m] == w {
        AllAppends(value, mask, rest, restCnt);
        return value, rest, restCnt, true;
      }
      var row, left := Unpack(idx[restCnt][m], w), Unpack(idx[restCnt + w - 1][m], w);
      value', rest', newCnt, full := AppendRows(value, mask, cnt[m], rest, restCnt, row, left);
    }
  }

  /** The filter that the packet size selects. */
  datatype Appender = ByTable(table: CompressMask) | ByPackedTable(packed: PackedCompressMask) | ByRotation
  {
    ghost predicate Ok(w: nat) {
      match this
      case ByTable(t) => t.Valid() && t.w == w
      case ByPackedTable(p) => p.Valid() && p.w == w
      case ByRotation => w > 0
    }

    method Append<T>(value: seq<T>, mask: seq<bool>, rest: seq<T>, restCnt: nat)
      returns (value': seq<T>, rest': seq<T>, newCnt: nat, full: bool)
      requires Ok(|value|) && |value| == |mask| && Carry(rest, restCnt).Ok(|value|)
      ensures Appends(|value|, Carry(rest, restCnt), Call(value, mask, value', full), Carry(rest', newCnt))
    {
      match this
      case ByTable(t) => value', rest', newCnt, full := t.CompressAppend(value, mask, rest, restCnt);
      case ByPackedTable(p) => value', rest', newCnt, full := p.CompressAppend(value, mask, rest, restCnt);
      case ByRotation => value', rest', newCnt, full := CompressAppendRotating(value, mask, rest, restCnt);
    }
  }
}
