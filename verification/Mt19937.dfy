/** The 64-bit Mersenne Twister: its word operations, each with the operation that undoes it, and what
    its terms and outputs are, said through the undoing operations alone. */
module Mt19937 {
  import opened Arithmetic
  import opened Twister

  // ---- Words ----

  /** A seed or an index as a word. */
  function Word64(x: nat): bv64 { (x % U64) as bv64 }

  lemma Doubled(y: bv64)
    requires y as nat < 0x8000_0000_0000_0000
    ensures (y << 1) as nat == 2 * (y as nat)
  {
    assert y < 0x8000_0000_0000_0000;
  }

  lemma DoubledPlusOne(y: bv64)
    ensures ((y << 1) | 1) as nat == ((y << 1) as nat) + 1
  {
  }

  lemma WordOf(y: bv64, x: nat)
    requires x == y as nat
    ensures x as bv64 == y
  {
  }

  /** Every number below 2^64 is the value of a word. */
  lemma {:induction false} WordExists(x: nat) returns (y: bv64)
    requires x < U64
    ensures y as nat == x
  {
    if x == 0 {
      y := 0;
    } else {
      var h := WordExists(x / 2);
      Doubled(h);
      DoubledPlusOne(h);
      y := if x % 2 == 0 then h << 1 else (h << 1) | 1;
    }
  }

  lemma WordValue(x: nat)
    ensures Word64(x) as nat == x % U64
  {
    var y := WordExists(x % U64);
    WordOf(y, x % U64);
  }

  // ---- Seeding ----

  function Fold62(x: bv64): (r: bv64)
    ensures r ^ (r >> 62) == x
  {
    x ^ (x >> 62)
  }

  function Scale(x: bv64, c: bv64): bv64 { x * 6364136223846793005 + c }

  function Grow64(prev: bv64, i: nat): bv64 { Scale(Fold62(prev), Word64(i)) }

  /** Multiplies by the inverse of the multiplier modulo 2^64. */
  function Unscale(x: bv64, c: bv64): bv64 { (x - c) * 13877824140714322085 }

  function Ungrow64(x: bv64, i: nat): bv64 {
    var q := Unscale(x, Word64(i));
    q ^ (q >> 62)
  }

  lemma InverseMultiplier(x: bv64, c: bv64)
    ensures ((x * 6364136223846793005 + c) - c) * 13877824140714322085 == x
  {
  }

  lemma UnscaleScale(x: bv64, c: bv64)
    ensures Unscale(Scale(x, c), c) == x
  {
    InverseMultiplier(x, c);
    assert Unscale(x * 6364136223846793005 + c, c) == x;
  }

  /** The word before can be recovered from each seeded word. */
  lemma UngrowGrow(prev: bv64, i: nat)
    ensures Ungrow64(Grow64(prev, i), i) == prev
  {
    UnscaleScale(Fold62(prev), Word64(i));
  }

  // ---- Twisting ----

  const H_MASK: bv64 := 0xffff_ffff_8000_0000
  const L_MASK: bv64 := 0x0000_0000_7fff_ffff

  function Join(hi: bv64, lo: bv64): bv64 { (hi & H_MASK) | (lo & L_MASK) }

  /** The top 33 bits of one word joined to the low 31 bits of the next. */
  lemma JoinParts(hi: bv64, lo: bv64)
    ensures Join(hi, lo) >> 31 == hi >> 31 && Join(hi, lo) << 33 == lo << 33
  {
  }

  /** The constant has its top bit set and a shifted word has not, which tells whether it was mixed in. */
  function Unshake(z: bv64): bv64 {
    if z >> 63 == 1 then ((z ^ 0xb502_6f5a_a966_19e9) << 1) | 1 else z << 1
  }

  function Shake(y: bv64): (z: bv64)
    ensures Unshake(z) == y
  {
    (y >> 1) ^ (if y & 1 == 1 then 0xb502_6f5a_a966_19e9 else 0)
  }

  function Twist64(hi: bv64, lo: bv64, far: bv64): bv64 { Shake(Join(hi, lo)) ^ far }

  lemma XorTwice(a: bv64, b: bv64)
    ensures (a ^ b) ^ b == a
  {
  }

  /** Takes the far word off, and gives back the joined word. */
  function Untwist64(x: bv64, far: bv64): bv64 { Unshake(x ^ far) }

  lemma UntwistTwist(hi: bv64, lo: bv64, far: bv64)
    ensures Untwist64(Twist64(hi, lo, far), far) == Join(hi, lo)
  {
    XorTwice(Shake(Join(hi, lo)), far);
  }

  // ---- Tempering ----

  function Temper29(x: bv64): bv64 { x ^ ((x >> 29) & 0x5555_5555_5555_5555) }

  function Temper17(x: bv64): bv64 { x ^ ((x << 17) & 0x71d6_7fff_eda6_0000) }

  function Temper37(x: bv64): bv64 { x ^ ((x << 37) & 0xfff7_eee0_0000_0000) }

  function Temper43(x: bv64): bv64 { x ^ (x >> 43) }

  function Temper64(x: bv64): bv64 { Temper43(Temper37(Temper17(Temper29(x)))) }

  /** Each pass puts right as many bits again as the shift moves. */
  function Untemper29(y: bv64): bv64 { y ^ (((y ^ ((y >> 29) & 0x5555_5555_5555_5555)) >> 29) & 0x5555_5555_5555_5555) }

  function Untemper17(y: bv64): bv64 {
    var y1 := y ^ ((y << 17) & 0x71d6_7fff_eda6_0000);
    var y2 := y ^ ((y1 << 17) & 0x71d6_7fff_eda6_0000);
    y ^ ((y2 << 17) & 0x71d6_7fff_eda6_0000)
  }

  function Untemper37(y: bv64): bv64 { y ^ ((y << 37) & 0xfff7_eee0_0000_0000) }

  function Untemper43(y: bv64): bv64 { y ^ (y >> 43) }

  lemma UntemperTemper29(x: bv64)
    ensures Untemper29(Temper29(x)) == x
  {
    assert Untemper29(x ^ ((x >> 29) & 0x5555_5555_5555_5555)) == x;
  }

  lemma UntemperTemper17(x: bv64)
    ensures Untemper17(Temper17(x)) == x
  {
    assert Untemper17(x ^ ((x << 17) & 0x71d6_7fff_eda6_0000)) == x;
  }

  lemma UntemperTemper37(x: bv64)
    ensures Untemper37(Temper37(x)) == x
  {
    assert Untemper37(x ^ ((x << 37) & 0xfff7_eee0_0000_0000)) == x;
  }

  lemma UntemperTemper43(x: bv64)
    ensures Untemper43(Temper43(x)) == x
  {
    assert Untemper43(x ^ (x >> 43)) == x;
  }

  function Untemper64(y: bv64): bv64 { Untemper29(Untemper17(Untemper37(Untemper43(y)))) }

  /** Tempering loses nothing: the term can be recovered from the output. */
  lemma UntemperTemper(x: bv64)
    ensures Untemper64(Temper64(x)) == x
  {
    UntemperTemper29(x);
    UntemperTemper17(Temper29(x));
    UntemperTemper37(Temper17(Temper29(x)));
    UntemperTemper43(Temper37(Temper17(Temper29(x))));
  }

  // ---- The engine ----

  const N: nat := 312
  const M: nat := 156

  function Mt19937Engine64(): (e: Engine<bv64>)
    ensures e.Ok() && e.n == N && e.m == M
  {
    Engine(N, M, Grow64, Twist64, Temper64)
  }

  /** The i-th term of the engine seeded with `seed`. */
  ghost function Term64(seed: bv64, i: nat): bv64 { Term(Mt19937Engine64(), seed, i) }

  ghost function Output64(seed: bv64, k: nat): bv64 { Output(Mt19937Engine64(), seed, k) }

  /** The first 312 terms grow from the seed, each giving back the one before. */
  lemma SeededTerms(seed: bv64, i: nat)
    ensures Term64(seed, 0) == seed
    ensures 0 < i < 312 ==> Ungrow64(Term64(seed, i), i) == Term64(seed, i - 1)
  {
    if 0 < i < 312 {
      UngrowGrow(Term64(seed, i - 1), i);
    }
  }

  lemma TwistedTerm(e: Engine<bv64>, seed: bv64, i: nat)
    requires e.Ok() && e.twist == Twist64 && i >= e.n
    ensures Term(e, seed, i)
            == Twist64(Term(e, seed, i - e.n), Term(e, seed, i - e.n + 1), Term(e, seed, i - e.n + e.m))
  {
    TermNext(e, seed, i);
  }

  /** Every later term, less the one m places after it, gives back the join of the term n places before it
      with the one after that. */
  lemma RecurringTerm(e: Engine<bv64>, seed: bv64, i: nat)
    requires e.Ok() && e.twist == Twist64 && i >= e.n
    ensures Untwist64(Term(e, seed, i), Term(e, seed, i - e.n + e.m))
            == Join(Term(e, seed, i - e.n), Term(e, seed, i - e.n + 1))
  {
    hide Join, Twist64, Untwist64;
    TwistedTerm(e, seed, i);
    UntwistTwist(Term(e, seed, i - e.n), Term(e, seed, i - e.n + 1), Term(e, seed, i - e.n + e.m));
  }

  lemma EngineTwists()
    ensures Mt19937Engine64().twist == Twist64
  {
  }

  /** Every later term, less the one 156 before it, gives back the join of the term 312 before it with
      the one after that. */
  lemma RecurringTerms(seed: bv64, i: nat)
    requires i >= 312
    ensures Untwist64(Term64(seed, i), Term64(seed, i - 156)) == Join(Term64(seed, i - 312), Term64(seed, i - 311))
  {
    hide Grow64, Join, Temper64, Twist64, Untwist64;
    EngineTwists();
    RecurringTerm(Mt19937Engine64(), seed, i);
  }

  /** Every output gives back its term, the first being number 312. */
  lemma TemperedTerms(seed: bv64, k: nat)
    ensures Untemper64(Output64(seed, k)) == Term64(seed, 312 + k)
  {
    UntemperTemper(Term64(seed, 312 + k));
  }
}
