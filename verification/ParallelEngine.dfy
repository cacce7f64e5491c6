/** The lane adaptor over vectorised Mersenne Twisters: whatever the SIMD width, it yields the
    interleaved streams of scalar twisters with consecutive seeds. */
module ParallelEngine {
  import opened Arithmetic
  import opened Mt19937
  import opened Twister

  // ---- Packets: sequences of `l` lanes ----

  function GrowLanes<W>(e: Engine<W>, l: nat, prev: seq<W>, i: nat): seq<W> {
    if |prev| != l then prev else seq(l, c requires 0 <= c < l => e.Grow(prev[c], i))
  }

  function TwistLanes<W>(e: Engine<W>, l: nat, hi: seq<W>, lo: seq<W>, far: seq<W>): seq<W> {
    if |hi| != l || |lo| != l || |far| != l then hi
    else seq(l, c requires 0 <= c < l => e.Twist(hi[c], lo[c], far[c]))
  }

  function TemperLanes<W>(e: Engine<W>, l: nat, x: seq<W>): seq<W> {
    if |x| != l then x else seq(l, c requires 0 <= c < l => e.Temper(x[c]))
  }

  /** The engine whose word is a packet of `l` words, every operation acting lane by lane. */
  function Lift<W>(e: Engine<W>, l: nat): Engine<seq<W>> {
    Engine(e.n, e.m,
      (prev, i) => GrowLanes(e, l, prev, i),
      (hi, lo, far) => TwistLanes(e, l, hi, lo, far),
      x => TemperLanes(e, l, x))
  }

  /** Seeding acts lane by lane. */
  lemma {:induction false} SeededLanes<W>(e: Engine<W>, l: nat, seed: seq<W>, i: nat, c: nat)
    requires e.Ok() && |seed| == l && c < l && i < e.n
    ensures |Term(Lift(e, l), seed, i)| == l && Term(Lift(e, l), seed, i)[c] == Term(e, seed[c], i)
  {
    if i == 0 {
    } else {
      SeededLanes(e, l, seed, i - 1, c);
    }
  }

  /** So does the recurrence. */
  lemma {:induction false} RecurringLanes<W>(e: Engine<W>, l: nat, xs: nat -> seq<W>, ys: nat -> W, i: nat, c: nat)
    requires e.Ok() && c < l && Recurs(Lift(e, l), xs) && Recurs(e, ys)
    requires forall j :: 0 <= j < e.n ==> |At(xs, j)| == l && At(xs, j)[c] == At(ys, j)
    ensures |At(xs, i)| == l && At(xs, i)[c] == At(ys, i)
  {
    if i < e.n {
    } else {
      RecurringLanes(e, l, xs, ys, i - e.n, c);
      RecurringLanes(e, l, xs, ys, i - e.n + 1, c);
      RecurringLanes(e, l, xs, ys, i - e.n + e.m, c);
      assert At(xs, i) == NextOf(Lift(e, l), xs, i) && At(ys, i) == NextOf(e, ys, i);
    }
  }

  /** Each lane of a packet engine is the scalar engine seeded with that lane's seed. */
  lemma LanesAreScalar<W>(e: Engine<W>, l: nat, seed: seq<W>, i: nat, c: nat)
    requires e.Ok() && |seed| == l && c < l
    ensures |Term(Lift(e, l), seed, i)| == l
    ensures Term(Lift(e, l), seed, i)[c] == Term(e, seed[c], i)
  {
    var xs, ys := Stream(Lift(e, l), seed), Stream(e, seed[c]);
    forall j | 0 <= j < e.n ensures |At(xs, j)| == l && At(xs, j)[c] == At(ys, j) {
      SeededLanes(e, l, seed, j, c);
    }
    StreamRecurs(Lift(e, l), seed);
    StreamRecurs(e, seed[c]);
    RecurringLanes(e, l, xs, ys, i, c);
  }

  // ---- Seeds ----

  function Word<W>(word: nat -> W, x: nat): W { word(x) }

  /** Lane c of a packet seed is the scalar seed plus c, in 64-bit arithmetic. */
  function PacketSeed<W>(word: nat -> W, l: nat, x0: nat): seq<W> {
    seq(l, c requires 0 <= c < l => Word(word, (x0 + c) % U64))
  }

  /** The seed of scalar stream c of an adaptor. */
  ghost function LaneSeed<W>(word: nat -> W, seed: nat, c: nat): W {
    Word(word, (seed + c) % U64)
  }

  lemma SeedOfLane<W>(word: nat -> W, l: nat, seed: nat, first: nat, c: nat)
    requires c < l
    ensures PacketSeed(word, l, (seed + first) % U64)[c] == LaneSeed(word, seed, first + c)
  {
    assert ((seed + first) % U64 + c) % U64 == (seed + (first + c)) % U64;
  }

  /** What the adaptor yields at call k: output k / numU64 of the scalar engine seeded with
      seed + k % numU64. The lane width does not occur. */
  ghost function AdaptorOutput<W>(e: Engine<W>, word: nat -> W, numU64: nat, seed: nat, k: nat): W
    requires e.Ok() && numU64 > 0
  {
    Output(e, LaneSeed(word, seed, k % numU64), k / numU64)
  }

  // ---- The adaptor ----

  ghost function StreamOf<W>(lanes: nat -> nat -> W, c: nat): nat -> W { lanes(c) }

  ghost function ScalarStreams<W>(e: Engine<W>, word: nat -> W, seed: nat): nat -> nat -> W
    requires e.Ok()
  {
    (c: nat) => Stream(e, LaneSeed(word, seed, c))
  }

  /** The packet stream `xs` carries the scalar streams from number `first` on, one a lane. */
  ghost predicate Carries<W>(xs: nat -> seq<W>, l: nat, lanes: nat -> nat -> W, first: nat) {
    forall t: nat :: |At(xs, t)| == l && forall c :: 0 <= c < l ==> At(xs, t)[c] == At(StreamOf(lanes, first + c), t)
  }

  lemma PacketCarries<W>(e: Engine<W>, word: nat -> W, l: nat, seed: nat, first: nat)
    requires e.Ok() && l > 0
    ensures var xs := Stream(Lift(e, l), PacketSeed(word, l, (seed + first) % U64));
            Carries(xs, l, ScalarStreams(e, word, seed), first)
  {
    var s := PacketSeed(word, l, (seed + first) % U64);
    var xs, lanes := Stream(Lift(e, l), s), ScalarStreams(e, word, seed);
    forall t: nat
      ensures |At(xs, t)| == l && forall c :: 0 <= c < l ==> At(xs, t)[c] == At(StreamOf(lanes, first + c), t)
    {
      LanesAreScalar(e, l, s, t, 0);
      forall c | 0 <= c < l ensures At(xs, t)[c] == At(StreamOf(lanes, first + c), t) {
        LanesAreScalar(e, l, s, t, c);
        SeedOfLane(word, l, seed, first, c);
      }
    }
  }

  /** A packet twister about to draw its packet number `k`. */
  ghost predicate Ready<W>(r: MersenneTwister<seq<W>>, e: Engine<W>, l: nat, lanes: nat -> nat -> W, first: nat, k: nat)
    reads r, r.state
  {
    r.Valid() && r.e == Lift(e, l) && r.Drawn() == k && Carries(r.xs, l, lanes, first)
  }

  /** Scalar output number k of stream c. */
  ghost function LaneOutput<W>(e: Engine<W>, lanes: nat -> nat -> W, c: nat, k: nat): W {
    e.Temper(At(StreamOf(lanes, c), e.n + k))
  }

  /** Round robin over the first `numU64` streams. */
  ghost function InterleavedOutput<W>(e: Engine<W>, lanes: nat -> nat -> W, numU64: nat, k: nat): W
    requires numU64 > 0
  {
    LaneOutput(e, lanes, k % numU64, k / numU64)
  }

  method NewTwister<W>(e: Engine<W>, word: nat -> W, l: nat, seed: nat, first: nat) returns (r: MersenneTwister<seq<W>>)
    requires e.Ok() && l > 0
    ensures fresh(r) && fresh(r.state)
    ensures Ready(r, e, l, ScalarStreams(e, word, seed), first, 0)
  {
    r := new MersenneTwister(Lift(e, l), PacketSeed(word, l, (seed + first) % U64));
    PacketCarries(e, word, l, seed, first);
  }

  method DrawPacket<W>(r: MersenneTwister<seq<W>>, e: Engine<W>, l: nat,
                       ghost lanes: nat -> nat -> W, ghost first: nat, ghost k: nat)
    returns (packet: seq<W>)
    requires l > 0 && Ready(r, e, l, lanes, first, k)
    modifies r, r.state
    ensures Ready(r, e, l, lanes, first, k + 1)
    ensures |packet| == l
    ensures forall c :: 0 <= c < l ==> packet[c] == LaneOutput(e, lanes, first + c, k)
  {
    ghost var x := At(r.xs, e.n + k);
    packet := r.Next();
    assert packet == TemperLanes(e, l, x);
  }

  ghost predicate AllDistinct<W>(rs: seq<MersenneTwister<seq<W>>>) {
    forall i, j :: 0 <= i < j < |rs| ==> rs[i] != rs[j] && rs[i].state != rs[j].state
  }

  /** Twisters for `count` packets of consecutive streams. */
  method NewTwisters<W>(e: Engine<W>, word: nat -> W, l: nat, seed: nat, count: nat)
    returns (rs: seq<MersenneTwister<seq<W>>>)
    requires e.Ok() && l > 0
    ensures |rs| == count && AllDistinct(rs)
    ensures forall j :: 0 <= j < count ==> fresh(rs[j]) && fresh(rs[j].state)
    ensures forall j :: 0 <= j < count ==> Ready(rs[j], e, l, ScalarStreams(e, word, seed), j * l, 0)
  {
    rs := [];
    for i := 0 to count
      invariant |rs| == i && AllDistinct(rs)
      invariant forall j :: 0 <= j < i ==> fresh(rs[j]) && fresh(rs[j].state)
      invariant forall j :: 0 <= j < i ==> Ready(rs[j], e, l, ScalarStreams(e, word, seed), j * l, 0)
    {
      var r := NewTwister(e, word, l, seed, i * l);
      rs := rs + [r];
    }
  }

  class ParallelRandomEngineAdaptor<W> {
    const e: Engine<W>
    const stride: nat
    const numU64: nat
    const rngs: seq<MersenneTwister<seq<W>>>
    const buf: array<W>
    var cnt: nat
    /** The scalar streams being interleaved, and how often the buffer has been refilled. */
    ghost const lanes: nat -> nat -> W
    ghost var rounds: nat

    ghost predicate Separate()
    {
      && AllDistinct(rngs)
      && (forall i :: 0 <= i < |rngs| ==> rngs[i].state as object != buf as object)
    }

    ghost function Footprint(): set<object>
    {
      (set i | 0 <= i < |rngs| :: rngs[i] as object) + (set i | 0 <= i < |rngs| :: rngs[i].state as object)
    }

    ghost predicate ReadyAt(i: nat, k: nat)
      requires i < |rngs|
      reads rngs[i], rngs[i].state
    {
      Ready(rngs[i], e, stride, lanes, i * stride, k)
    }

    ghost predicate Valid()
      reads this, Footprint(), buf
    {
      && e.Ok() && stride > 0 && numU64 > 0 && numU64 == |rngs| * stride
      && buf.Length == numU64 && cnt <= numU64 && Separate()
      && (forall i :: 0 <= i < |rngs| ==> ReadyAt(i, rounds))
      && (rounds == 0 ==> cnt == numU64)
      && (rounds > 0 ==> forall c :: 0 <= c < numU64 ==> buf[c] == LaneOutput(e, lanes, c, rounds - 1))
    }

    /** How many words have been handed out. */
    ghost function Calls(): int
      reads this
    {
      if rounds == 0 then 0 else (rounds - 1) * numU64 + cnt
    }

    constructor (e: Engine<W>, word: nat -> W, seed: nat, stride: nat, numU64: nat)
      requires e.Ok() && stride > 0 && numU64 > 0 && numU64 % stride == 0
      ensures Valid() && Calls() == 0 && fresh(Footprint()) && fresh(buf)
      ensures this.e == e && this.numU64 == numU64
      ensures lanes == ScalarStreams(e, word, seed)
    {
      var b := new W[numU64](_ => word(0));
      var rs := NewTwisters(e, word, stride, seed, numU64 / stride);
      this.e, this.stride, this.numU64 := e, stride, numU64;
      rngs := rs;
      buf := b;
      cnt := numU64;
      lanes := ScalarStreams(e, word, seed);
      rounds := 0;
    }

    /** The next packet of twister i goes to its place in the buffer. */
    method RefillFrom(i: nat, ghost k: nat)
      requires i < |rngs| && stride > 0 && buf.Length == |rngs| * stride && Separate() && ReadyAt(i, k)
      modifies rngs[i], rngs[i].state, buf
      ensures ReadyAt(i, k + 1) && 0 <= i * stride <= i * stride + stride <= buf.Length
      ensures forall c :: i * stride <= c < i * stride + stride ==> buf[c] == LaneOutput(e, lanes, c, k)
      ensures forall c :: 0 <= c < i * stride ==> buf[c] == old(buf[c])
    {
      var pos := i * stride;
      Ahead(i, |rngs|, stride);
      var packet := DrawPacket(rngs[i], e, stride, lanes, pos, k);
      Store(pos, packet);
      assert ReadyAt(i, k + 1);
      forall c | pos <= c < pos + stride ensures buf[c] == LaneOutput(e, lanes, c, k) {
        assert packet[c - pos] == LaneOutput(e, lanes, pos + (c - pos), k);
      }
    }

    /** One packet from each twister, stored side by side. */
    method RefillBuffer()
      requires Valid()
      modifies this, Footprint(), buf
      ensures Valid() && rounds == old(rounds) + 1 && cnt == 0
    {
      cnt := 0;
      ghost var now, next := rounds, rounds + 1;
      for i := 0 to |rngs|
        invariant cnt == 0 && rounds == now && i * stride <= buf.Length
        invariant forall j :: 0 <= j < i ==> ReadyAt(j, next)
        invariant forall j :: i <= j < |rngs| ==> ReadyAt(j, now)
        invariant forall c :: 0 <= c < i * stride ==> buf[c] == LaneOutput(e, lanes, c, now)
      {
        RefillFrom(i, now);
        assert (i + 1) * stride == i * stride + stride;
      }
      rounds := next;
    }

    method Store(pos: nat, packet: seq<W>)
      requires pos + |packet| <= buf.Length
      modifies buf
      ensures forall c :: pos <= c < pos + |packet| ==> buf[c] == packet[c - pos]
      ensures forall c :: 0 <= c < buf.Length && !(pos <= c < pos + |packet|) ==> buf[c] == old(buf[c])
    {
      for c := 0 to |packet|
        invariant forall d :: pos <= d < pos + c ==> buf[d] == packet[d - pos]
        invariant forall d :: 0 <= d < buf.Length && !(pos <= d < pos + c) ==> buf[d] == old(buf[d])
      {
        buf[pos + c] := packet[c];
      }
    }

    /** Call number k yields output k / numU64 of stream k % numU64. */
    method Next() returns (r: W)
      requires Valid()
      modifies this, Footprint(), buf
      ensures Valid() && Calls() == old(Calls()) + 1
      ensures r == InterleavedOutput(e, lanes, numU64, old(Calls()))
    {
      if cnt >= numU64 {
        NextRound(rounds, numU64);
        RefillBuffer();
      }
      assert old(Calls()) == (rounds - 1) * numU64 + cnt;
      Quotient(rounds - 1, numU64, cnt);
      r := buf[cnt];
      cnt := cnt + 1;
    }
  }

  lemma CallsInterleave<W>(e: Engine<W>, word: nat -> W, numU64: nat, seed: nat, k: nat)
    requires e.Ok() && numU64 > 0
    ensures InterleavedOutput(e, ScalarStreams(e, word, seed), numU64, k) == AdaptorOutput(e, word, numU64, seed, k)
  {
  }

  /** `words` are what calls from number `start` on yield. */
  ghost predicate Handed<W>(words: seq<W>, e: Engine<W>, lanes: nat -> nat -> W, numU64: nat, start: int) {
    numU64 > 0 && start >= 0 &&
    forall k :: 0 <= k < |words| ==> words[k] == InterleavedOutput(e, lanes, numU64, start + k)
  }

  lemma HandedNext<W>(words: seq<W>, r: W, e: Engine<W>, lanes: nat -> nat -> W, numU64: nat, start: int)
    requires Handed(words, e, lanes, numU64, start)
    requires r == InterleavedOutput(e, lanes, numU64, start + |words|)
    ensures Handed(words + [r], e, lanes, numU64, start)
  {
  }

  method NextWords<W>(adaptor: ParallelRandomEngineAdaptor<W>, count: nat) returns (words: seq<W>)
    requires adaptor.Valid()
    modifies adaptor, adaptor.Footprint(), adaptor.buf
    ensures adaptor.Valid() && adaptor.Calls() == old(adaptor.Calls()) + count && |words| == count
    ensures Handed(words, adaptor.e, adaptor.lanes, adaptor.numU64, old(adaptor.Calls()))
  {
    ghost var e, lanes, numU64, start := adaptor.e, adaptor.lanes, adaptor.numU64, adaptor.Calls();
    words := [];
    while |words| < count
      invariant adaptor.Valid() && adaptor.Calls() == start + |words| && |words| <= count
      invariant Handed(words, e, lanes, numU64, start)
    {
      var r := adaptor.Next();
      HandedNext(words, r, e, lanes, numU64, start);
      words := words + [r];
    }
  }

  /** The first `count` words of an adaptor, whatever the lane width: word k is output k / numU64 of
      the scalar engine seeded with seed + k % numU64. */
  method FirstWords<W>(e: Engine<W>, word: nat -> W, seed: nat, stride: nat, numU64: nat, count: nat)
    returns (words: seq<W>)
    requires e.Ok() && stride > 0 && numU64 > 0 && numU64 % stride == 0
    ensures |words| == count
    ensures forall k :: 0 <= k < count ==> words[k] == AdaptorOutput(e, word, numU64, seed, k)
  {
    var adaptor := new ParallelRandomEngineAdaptor(e, word, seed, stride, numU64);
    words := NextWords(adaptor, count);
    forall k | 0 <= k < count ensures words[k] == AdaptorOutput(e, word, numU64, seed, k) {
      CallsInterleave(e, word, numU64, seed, k);
      assert words[k] == InterleavedOutput(e, ScalarStreams(e, word, seed), numU64, 0 + k);
    }
  }

  // ---- The 64-bit adaptor of eight streams ----

  const NUM_STREAMS: nat := 8

  /** Whether the lanes are one, two, four or eight words wide, the words are the outputs of eight
      64-bit Mersenne Twisters with consecutive seeds, in turn. */
  method FirstMt19937Words(seed: nat, stride: nat, count: nat) returns (words: seq<bv64>)
    requires stride in {1, 2, 4, 8}
    ensures |words| == count
    ensures forall k :: 0 <= k < count ==> words[k] == Output64(Word64(seed + k % 8), k / 8)
  {
    words := FirstWords(Mt19937Engine64(), Word64, seed, stride, NUM_STREAMS, count);
  }

  lemma NextRound(r: nat, n: nat)
    ensures r * n == (r - 1) * n + n
  {
  }
}
