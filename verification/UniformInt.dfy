/** Vectorised uniform integers by rejection: candidate bits outside the range are filtered out and
    the accepted lanes are collected across calls. */
module UniformInt {
  import opened Arithmetic
  import opened StreamCompaction
  import opened Wrappers

  const INT_RANGE := 0x8000_0000

  ghost predicate AtMost(bound: nat, s: seq<nat>) {
    forall i :: 0 <= i < |s| ==> s[i] <= bound
  }

  lemma {:induction false} SelectedAreAtMost(bound: nat, value: seq<nat>, mask: seq<bool>)
    requires |value| == |mask| && forall i :: 0 <= i < |mask| && mask[i] ==> value[i] <= bound
    ensures AtMost(bound, Select(value, mask))
  {
    if value == [] {
    } else {
      SelectedAreAtMost(bound, value[1..], mask[1..]);
    }
  }

  /** Appending keeps any bound on the lanes, whichever way the lanes are arranged. */
  lemma AppendKeepsBound(bound: nat, w: nat, before: Carry<nat>, call: Call<nat>, after: Carry<nat>)
    requires Appends(w, before, call, after)
    requires AtMost(bound, before.Lanes()) && AtMost(bound, call.Accepted())
    ensures AtMost(bound, call.Emitted()) && AtMost(bound, after.Lanes())
  {
    var all := multiset(before.Lanes()) + multiset(call.Accepted());
    forall x | x in all ensures x <= bound {
      if x in multiset(before.Lanes()) { assert x in before.Lanes(); } else { assert x in call.Accepted(); }
    }
    forall i | 0 <= i < |call.Emitted()| ensures call.Emitted()[i] <= bound {
      assert call.Emitted()[i] in multiset(call.Emitted());
      assert call.Emitted()[i] in all;
    }
    forall i | 0 <= i < |after.Lanes()| ensures after.Lanes()[i] <= bound {
      assert after.Lanes()[i] in multiset(after.Lanes());
      assert after.Lanes()[i] in all;
    }
  }

  /** Exactly the candidates up to the bound are accepted. */
  ghost predicate AcceptsUpTo(bound: nat, call: Call<nat>) {
    |call.mask| == |call.value| && forall j :: 0 <= j < |call.value| ==> (call.mask[j] <==> call.value[j] <= bound)
  }

  /** The candidates are the bits from bitsize * s up to bitsize * (s + 1) of each lane of `rx`. */
  ghost predicate Slices(bitsize: nat, rx: seq<nat>, s: nat, value: seq<nat>) {
    |value| == |rx| &&
    forall j :: 0 <= j < |rx| ==> value[j] == rx[j] / Pow2(bitsize * s) % Pow2(bitsize)
  }

  /** What is left of each lane of `rx` when `k` bits are shifted out. */
  ghost predicate Shifts(rx: seq<nat>, k: nat, rest: seq<nat>) {
    |rest| == |rx| && forall j :: 0 <= j < |rx| ==> rest[j] == rx[j] / Pow2(k)
  }

  lemma ShiftTwice(x: nat, a: nat, b: nat)
    ensures (x / Pow2(a)) / Pow2(b) == x / Pow2(a + b)
  {
    Pow2Adds(a, b);
    DivideTwice(x, Pow2(a), Pow2(b));
  }

  lemma ShiftOnce(bitsize: nat, rx: seq<nat>, k: nat, rest: seq<nat>, rest': seq<nat>)
    requires Shifts(rx, k, rest) && |rest'| == |rest|
    requires forall j :: 0 <= j < |rest| ==> rest'[j] == rest[j] / Pow2(bitsize)
    ensures Shifts(rx, k + bitsize, rest')
  {
    forall j | 0 <= j < |rx| ensures rest'[j] == rx[j] / Pow2(k + bitsize) {
      ShiftTwice(rx[j], k, bitsize);
    }
  }

  /** How many times 32 random bits are used before more are drawn. */
  ghost function Uses(bitsize: nat): (n: nat)
    requires bitsize > 0
    ensures n > 0
  {
    if bitsize >= 32 then 1 else 31 / bitsize
  }

  /** How many bits of the raw packet are used up with slice s. */
  ghost function BitsUsed(bitsize: nat, s: nat): nat {
    if s == 0 then bitsize else BitsUsed(bitsize, s - 1) + bitsize
  }

  lemma {:induction false} BitsUsedIs(bitsize: nat, s: nat)
    ensures BitsUsed(bitsize, s) == bitsize * (s + 1) == bitsize * s + bitsize
  {
    if s == 0 {
    } else {
      BitsUsedIs(bitsize, s - 1);
      assert bitsize * (s + 1) == bitsize * s + bitsize;
    }
  }

  lemma FitsIn31(b: nat, k: nat)
    requires b > 0
    ensures k * b <= 31 <==> k <= 31 / b
  {
    var n := 31 / b;
    assert 31 == n * b + 31 % b;
    if k < n {
      Ahead(k, n, b);
    } else if k > n {
      Ahead(n, k, b);
    }
  }

  lemma UsedUp(bitsize: nat, s: nat)
    requires bitsize > 0
    ensures BitsUsed(bitsize, s) + bitsize < 32 <==> s + 1 < Uses(bitsize)
  {
    BitsUsedIs(bitsize, s + 1);
    assert bitsize * (s + 2) == (s + 2) * bitsize;
    FitsIn31(bitsize, s + 2);
  }

  /** Each call is on the bits of the raw packet and the shift that are its turn. */
  ghost predicate InTurn(bitsize: nat, raw: seq<seq<nat>>, calls: seq<Call<nat>>)
    requires bitsize > 0
  {
    forall i :: 0 <= i < |calls| ==>
      && i / Uses(bitsize) < |raw|
      && Slices(bitsize, raw[i / Uses(bitsize)], i % Uses(bitsize), calls[i].value)
  }

  lemma NextTurn(bitsize: nat, raw: seq<seq<nat>>, calls: seq<Call<nat>>, call: Call<nat>, r: nat, s: nat)
    requires bitsize > 0 && InTurn(bitsize, raw, calls)
    requires r < |raw| && s < Uses(bitsize) && |calls| == r * Uses(bitsize) + s
    requires Slices(bitsize, raw[r], s, call.value)
    ensures InTurn(bitsize, raw, calls + [call])
  {
    Quotient(r, Uses(bitsize), s);
  }

  /** All calls so far have failed, and the next is on slice s of raw packet r. */
  ghost predicate AtTurn(bitsize: nat, raw: seq<seq<nat>>, calls: seq<Call<nat>>, r: nat, s: nat)
    requires bitsize > 0
  {
    && r < |raw| && s < Uses(bitsize) && |calls| == r * Uses(bitsize) + s
    && InTurn(bitsize, raw, calls) && forall i :: 0 <= i < |calls| ==> !calls[i].full
  }

  /** The last call filled the packet `out`, from raw packet number `used`; none before it filled one. */
  ghost predicate FilledBy(bitsize: nat, calls: seq<Call<nat>>, out: seq<nat>, used: nat)
    requires bitsize > 0
  {
    && calls != [] && calls[|calls| - 1].full && calls[|calls| - 1].out == out
    && (forall i :: 0 <= i < |calls| - 1 ==> !calls[i].full)
    && used == (|calls| - 1) / Uses(bitsize) + 1
  }

  /** All slices of all raw packets were tried, and none filled a packet. */
  ghost predicate UsedUpBy(bitsize: nat, raw: seq<seq<nat>>, calls: seq<Call<nat>>)
    requires bitsize > 0
  {
    |calls| == |raw| * Uses(bitsize) && forall i :: 0 <= i < |calls| ==> !calls[i].full
  }

  /** Where the next call will be. */
  ghost predicate MovesOn(bitsize: nat, raw: seq<seq<nat>>, calls: seq<Call<nat>>, r: nat, s: nat)
    requires bitsize > 0
  {
    if s + 1 < Uses(bitsize) then AtTurn(bitsize, raw, calls, r, s + 1)
    else if r + 1 < |raw| then AtTurn(bitsize, raw, calls, r + 1, 0)
    else UsedUpBy(bitsize, raw, calls)
  }

  lemma AfterTurn(bitsize: nat, raw: seq<seq<nat>>, calls: seq<Call<nat>>, call: Call<nat>, r: nat, s: nat)
    requires bitsize > 0 && AtTurn(bitsize, raw, calls, r, s) && Slices(bitsize, raw[r], s, call.value)
    ensures InTurn(bitsize, raw, calls + [call])
    ensures call.full ==> FilledBy(bitsize, calls + [call], call.out, r + 1)
    ensures !call.full ==> MovesOn(bitsize, raw, calls + [call], r, s)
  {
    NextTurn(bitsize, raw, calls, call, r, s);
    Quotient(r, Uses(bitsize), s);
    assert r * Uses(bitsize) + Uses(bitsize) == (r + 1) * Uses(bitsize);
  }

  lemma ExtendRun(w: nat, carries: seq<Carry<nat>>, calls: seq<Call<nat>>, call: Call<nat>, after: Carry<nat>)
    requires IsRun(w, carries, calls) && Appends(w, carries[|calls|], call, after)
    ensures IsRun(w, carries + [after], calls + [call])
  {
  }

  class UniformIntGen {
    const w: nat
    const cm: Appender
    const pmin: int
    const pdiff: nat
    const bitsize: nat
    const bitmask: nat
    var cache: seq<nat>
    var cacheRestCnt: nat

    /** The lanes carried over are accepted candidates, so they are in range whenever they come out. */
    ghost predicate Valid()
      reads this
    {
      && cm.Ok(w) && w > 0
      && pdiff > 0 && bitsize == CeilLog2(pdiff + 1) && bitsize > 0 && bitmask == Pow2(bitsize) - 1
      && Carry(cache, cacheRestCnt).Ok(w) && AtMost(pdiff, cache[..cacheRestCnt])
    }

    constructor (min: int, max: int, w: nat, cm: Appender)
      requires min < max && max - min + 1 < INT_RANGE && w > 0 && cm.Ok(w)
      ensures Valid() && pmin == min && pdiff == max - min && this.w == w && this.cm == cm && cacheRestCnt == 0
    {
      this.w := w;
      this.cm := cm;
      pmin, pdiff := min, max - min;
      bitsize := CeilLog2(max - min + 1);
      bitmask := Pow2(CeilLog2(max - min + 1)) - 1;
      cache, cacheRestCnt := seq(w, _ => 0), 0;
    }

    /** Lane by lane `rx & bitmask`. */
    function Low(rx: seq<nat>): (r: seq<nat>)
      ensures |r| == |rx| && forall j :: 0 <= j < |rx| ==> r[j] == rx[j] % (bitmask + 1) <= bitmask
    {
      seq(|rx|, j requires 0 <= j < |rx| => rx[j] % (bitmask + 1))
    }

    /** Lane by lane `rx >> bitsize`. */
    function Shifted(rx: seq<nat>): (r: seq<nat>)
      ensures |r| == |rx| && forall j :: 0 <= j < |rx| ==> r[j] == rx[j] / (bitmask + 1)
    {
      seq(|rx|, j requires 0 <= j < |rx| => rx[j] / (bitmask + 1))
    }

    /** Lane by lane `x + pmin`. */
    function Offset(x: seq<nat>): (r: seq<int>)
      ensures |r| == |x| && forall j :: 0 <= j < |x| ==> r[j] == x[j] + pmin
    {
      seq(|x|, j requires 0 <= j < |x| => x[j] + pmin)
    }

    function InRange(cands: seq<nat>): (mask: seq<bool>)
      ensures |mask| == |cands| && forall j :: 0 <= j < |cands| ==> (mask[j] <==> cands[j] <= pdiff)
    {
      seq(|cands|, j requires 0 <= j < |cands| => cands[j] < pdiff + 1)
    }

    ghost function Carried(): Carry<nat>
      reads this
    {
      Carry(cache, cacheRestCnt)
    }

    /** A run of filter calls from the carry `first`, each accepting the candidates in range. */
    ghost predicate FilterRun(carries: seq<Carry<nat>>, calls: seq<Call<nat>>, first: Carry<nat>)
      reads this
    {
      && IsRun(w, carries, calls) && carries[0] == first && carries[|calls|] == Carried()
      && forall i :: 0 <= i < |calls| ==> AcceptsUpTo(pdiff, calls[i])
    }

    /** Candidates in range join the carry; the rest are dropped. */
    method Filter(cands: seq<nat>, ghost carries: seq<Carry<nat>>, ghost calls: seq<Call<nat>>, ghost first: Carry<nat>)
      returns (out: seq<nat>, full: bool, ghost carries': seq<Carry<nat>>, ghost call: Call<nat>)
      requires Valid() && |cands| == w && FilterRun(carries, calls, first)
      modifies this
      ensures Valid() && |out| == w && (full ==> AtMost(pdiff, out))
      ensures call.value == cands && call.out == out && call.full == full && AcceptsUpTo(pdiff, call)
      ensures FilterRun(carries', calls + [call], first)
    {
      var mask := InRange(cands);
      SelectedAreAtMost(pdiff, cands, mask);
      var rest, cnt;
      out, rest, cnt, full := cm.Append(cands, mask, cache, cacheRestCnt);
      call := Call(cands, mask, out, full);
      AppendKeepsBound(pdiff, w, Carry(cache, cacheRestCnt), call, Carry(rest, cnt));
      ExtendRun(w, carries, calls, call, Carry(rest, cnt));
      cache, cacheRestCnt := rest, cnt;
      carries' := carries + [Carry(rest, cnt)];
    }

    /** One call of the filter, on slice s of raw packet r. */
    method Attempt(rx: seq<nat>, ghost raw: seq<seq<nat>>, ghost r: nat, ghost s: nat, ghost bitcnt: nat,
                   ghost carries: seq<Carry<nat>>, ghost calls: seq<Call<nat>>, ghost first: Carry<nat>)
      returns (out: seq<nat>, full: bool, ghost carries': seq<Carry<nat>>, ghost calls': seq<Call<nat>>)
      requires Valid() && |rx| == w && FilterRun(carries, calls, first)
      requires AtTurn(bitsize, raw, calls, r, s)
      requires bitsize <= bitcnt == BitsUsed(bitsize, s) && Shifts(raw[r], bitcnt - bitsize, rx)
      modifies this
      ensures Valid() && FilterRun(carries', calls', first) && InTurn(bitsize, raw, calls')
      ensures full ==> |out| == w && AtMost(pdiff, out) && FilledBy(bitsize, calls', out, r + 1)
      ensures !full ==> MovesOn(bitsize, raw, calls', r, s)
    {
      ghost var call;
      out, full, carries', call := Filter(Low(rx), carries, calls, first);
      BitsUsedIs(bitsize, s);
      AfterTurn(bitsize, raw, calls, call, r, s);
      calls' := calls + [call];
    }

    /** After a failed call: on to the next slice of the raw packet, or to the next raw packet. */
    method Advance(raw: seq<seq<nat>>, rx: seq<nat>, bitcnt: nat, used: nat, ghost s: nat, ghost calls: seq<Call<nat>>)
      returns (more: bool, rx': seq<nat>, bitcnt': nat, used': nat, ghost s': nat)
      requires Valid() && 1 <= used <= |raw| && forall i :: 0 <= i < |raw| ==> |raw[i]| == w
      requires s < Uses(bitsize) && bitcnt == BitsUsed(bitsize, s) && Shifts(raw[used - 1], bitcnt - bitsize, rx)
      requires MovesOn(bitsize, raw, calls, used - 1, s)
      ensures more <==> s + 1 < Uses(bitsize) || used < |raw|
      ensures used' == if s + 1 < Uses(bitsize) || !more then used else used + 1
      ensures more ==> AtTurn(bitsize, raw, calls, used' - 1, s') && bitsize <= bitcnt' == BitsUsed(bitsize, s')
      ensures more ==> Shifts(raw[used' - 1], bitcnt' - bitsize, rx')
      ensures !more ==> UsedUpBy(bitsize, raw, calls)
      ensures more ==> bitcnt' == BitsUsed(bitsize, s') && (used' == used ==> s' == s + 1)
    {
      UsedUp(bitsize, s);
      more, rx', bitcnt', used', s' := true, rx, bitcnt, used, s;
      if bitcnt + bitsize < 32 {
        ShiftOnce(bitsize, raw[used - 1], bitcnt - bitsize, rx, Shifted(rx));
        rx' := Shifted(rx);
        bitcnt' := bitcnt + bitsize;
        s' := s + 1;
      } else if used < |raw| {
        rx' := raw[used];
        used' := used + 1;
        bitcnt' := bitsize;
        s' := 0;
      } else {
        more := false;
      }
    }

    /** One turn of the loop: a call, and unless it filled a packet, on to where the next one will be. */
    method TurnOver(raw: seq<seq<nat>>, rx: seq<nat>, bitcnt: nat, used: nat, ghost s: nat,
                    ghost carries: seq<Carry<nat>>, ghost calls: seq<Call<nat>>, ghost first: Carry<nat>)
      returns (out: Option<seq<nat>>, more: bool, rx': seq<nat>, bitcnt': nat, used': nat, ghost s': nat,
               ghost carries': seq<Carry<nat>>, ghost calls': seq<Call<nat>>)
      requires Valid() && 1 <= used <= |raw| && |rx| == w && forall i :: 0 <= i < |raw| ==> |raw[i]| == w
      requires FilterRun(carries, calls, first) && AtTurn(bitsize, raw, calls, used - 1, s)
      requires bitcnt == BitsUsed(bitsize, s) && Shifts(raw[used - 1], bitcnt - bitsize, rx)
      modifies this
      ensures Valid() && FilterRun(carries', calls', first) && InTurn(bitsize, raw, calls')
      ensures out.Some? ==> used' == used && |out.value| == w && AtMost(pdiff, out.value)
      ensures out.Some? ==> FilledBy(bitsize, calls', out.value, used)
      ensures out.None? && !more ==> used' == |raw| && UsedUpBy(bitsize, raw, calls')
      ensures out.None? && more ==>
                && 1 <= used' <= |raw| && |rx'| == w && AtTurn(bitsize, raw, calls', used' - 1, s')
                && bitcnt' == BitsUsed(bitsize, s') && Shifts(raw[used' - 1], bitcnt' - bitsize, rx')
                && (used' == used + 1 || (used' == used && s' == s + 1))
    {
      var packet, full;
      BitsUsedIs(bitsize, s);
      packet, full, carries', calls' := Attempt(rx, raw, used - 1, s, bitcnt, carries, calls, first);
      if full {
        return Some(packet), false, rx, bitcnt, used, s, carries', calls';
      }
      out := None;
      more, rx', bitcnt', used', s' := Advance(raw, rx, bitcnt, used, s, calls');
    }

    /** Filter calls on successive slices of successive raw packets, until one fills a packet. */
    method Reject(raw: seq<seq<nat>>)
      returns (out: Option<seq<nat>>, used: nat, ghost carries: seq<Carry<nat>>, ghost calls: seq<Call<nat>>)
      requires Valid() && raw != [] && forall i :: 0 <= i < |raw| ==> |raw[i]| == w
      modifies this
      ensures Valid() && used <= |raw| && FilterRun(carries, calls, old(Carried())) && InTurn(bitsize, raw, calls)
      ensures out.None? ==> used == |raw| && UsedUpBy(bitsize, raw, calls)
      ensures out.Some? ==> |out.value| == w && AtMost(pdiff, out.value) && FilledBy(bitsize, calls, out.value, used)
    {
      carries, calls := [Carried()], [];
      var rx, bitcnt, more := raw[0], bitsize, true;
      used := 1;
      ghost var s := 0;
      while true
        invariant Valid() && 1 <= used <= |raw| && |rx| == w
        invariant FilterRun(carries, calls, old(Carried())) && AtTurn(bitsize, raw, calls, used - 1, s)
        invariant bitcnt == BitsUsed(bitsize, s) && Shifts(raw[used - 1], bitcnt - bitsize, rx)
        decreases |raw| - used, Uses(bitsize) - s
      {
        out, more, rx, bitcnt, used, s, carries, calls :=
          TurnOver(raw, rx, bitcnt, used, s, carries, calls, old(Carried()));
        if out.Some? || !more {
          return;
        }
      }
    }

    /** One packet of integers, reading raw 32-bit packets from `raw` until one is full; None when
        `raw` runs out first. The packet is the one that the last filter call of the run fills; the calls
        are on successive slices of each raw packet, as many as fit. */
    method PacketOp(raw: seq<seq<nat>>)
      returns (r: Option<seq<int>>, used: nat, ghost carries: seq<Carry<nat>>, ghost calls: seq<Call<nat>>)
      requires Valid() && forall i :: 0 <= i < |raw| ==> |raw[i]| == w
      modifies this
      ensures Valid() && used <= |raw| && (r.None? ==> used == |raw|)
      ensures r.Some? ==> |r.value| == w && forall j :: 0 <= j < w ==> pmin <= r.value[j] <= pmin + pdiff
      ensures FilterRun(carries, calls, old(Carried())) && InTurn(bitsize, raw, calls)
      ensures pdiff == bitmask ==>
                && calls == [] && (r.Some? <==> raw != [])
                && (r.Some? ==> used == 1 && forall j :: 0 <= j < w ==> r.value[j] == raw[0][j] % Pow2(bitsize) + pmin)
      ensures pdiff != bitmask && r.None? ==> UsedUpBy(bitsize, raw, calls)
      ensures pdiff != bitmask && r.Some? ==>
                && calls != [] && |calls[|calls| - 1].out| == w
                && FilledBy(bitsize, calls, calls[|calls| - 1].out, used)
                && forall j :: 0 <= j < w ==> r.value[j] == calls[|calls| - 1].out[j] + pmin
    {
      if raw == [] {
        return None, 0, [Carried()], [];
      }
      if pdiff == bitmask {
        return Some(Offset(Low(raw[0]))), 1, [Carried()], [];
      }
      var out;
      out, used, carries, calls := Reject(raw);
      r := if out.Some? then Some(Offset(out.value)) else None;
    }
  }
}
