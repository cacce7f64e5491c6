/** The vectorised Mersenne Twister: a circular state of 2n words refilled half at a time, against
    the plain linear recurrence of section 26.5.3.2 of ISO C++11. */
module Twister {

  /** The template parameters of an engine over words `W`: the state size `n`, the shift `m`, and the
      word operations. */
  datatype Engine<!W> = Engine(n: nat, m: nat, grow: (W, nat) -> W, twist: (W, W, W) -> W, temper: W -> W)
  {
    ghost predicate Ok() { 1 <= m < n }
    function Grow(prev: W, i: nat): W { grow(prev, i) }
    function Twist(hi: W, lo: W, far: W): W { twist(hi, lo, far) }
    function Temper(x: W): W { temper(x) }
  }

  // ---- The recurrence ----

  /** The i-th term: seeding fills the first n, then X[i] comes from X[i-n], X[i-n+1] and X[i-n+m]. */
  ghost function Term<W>(e: Engine<W>, seed: W, i: nat): W
    requires e.Ok()
  {
    if i == 0 then seed
    else if i < e.n then e.Grow(Term(e, seed, i - 1), i)
    else e.Twist(Term(e, seed, i - e.n), Term(e, seed, i - e.n + 1), Term(e, seed, i - e.n + e.m))
  }

  lemma TermNext<W>(e: Engine<W>, seed: W, i: nat)
    requires e.Ok() && i >= e.n
    ensures Term(e, seed, i)
            == e.Twist(Term(e, seed, i - e.n), Term(e, seed, i - e.n + 1), Term(e, seed, i - e.n + e.m))
  {
  }

  /** Output number k of an engine. */
  ghost function Output<W>(e: Engine<W>, seed: W, k: nat): W
    requires e.Ok()
  {
    e.Temper(Term(e, seed, e.n + k))
  }

  ghost function Stream<W>(e: Engine<W>, seed: W): nat -> W
    requires e.Ok()
  {
    (i: nat) => Term(e, seed, i)
  }

  ghost function At<W>(xs: nat -> W, i: nat): W { xs(i) }

  ghost function NextOf<W>(e: Engine<W>, xs: nat -> W, i: nat): W
    requires e.Ok() && i >= e.n
  {
    e.Twist(At(xs, i - e.n), At(xs, i - e.n + 1), At(xs, i - e.n + e.m))
  }

  /** `xs` obeys the recurrence from term n on. */
  ghost predicate Recurs<W>(e: Engine<W>, xs: nat -> W)
    requires e.Ok()
  {
    forall i: nat {:trigger NextOf(e, xs, i)} :: i >= e.n ==> At(xs, i) == NextOf(e, xs, i)
  }

  lemma StreamRecurs<W>(e: Engine<W>, seed: W)
    requires e.Ok()
    ensures Recurs(e, Stream(e, seed))
  {
  }

  // ---- The engine ----

  class MersenneTwister<W> {
    const e: Engine<W>
    const state: array<W>
    var stateIdx: nat
    /** The stream being produced, and which of its terms `state[0]` holds. */
    ghost const xs: nat -> W
    ghost var base: nat

    ghost predicate Holds(lo: nat, hi: nat, shift: nat)
      requires hi <= state.Length
      reads state
    {
      forall j :: lo <= j < hi ==> state[j] == At(xs, shift + j)
    }

    ghost predicate Valid()
      reads this, state
    {
      && e.Ok() && Recurs(e, xs) && state.Length == 2 * e.n && stateIdx <= 2 * e.n
      && base + stateIdx >= e.n
      && Holds(0, if stateIdx <= e.n then e.n else 2 * e.n, base)
    }

    /** How many words have been drawn. */
    ghost function Drawn(): int
      reads this
    {
      base + stateIdx - e.n
    }

    constructor (e: Engine<W>, x0: W)
      requires e.Ok()
      ensures Valid() && fresh(state) && Drawn() == 0
      ensures this.e == e && xs == Stream(e, x0)
    {
      this.e := e;
      state := new W[2 * e.n](_ => x0);
      stateIdx := e.n;
      xs, base := Stream(e, x0), 0;
      new;
      StreamRecurs(e, x0);
      var prev := x0;
      for i := 1 to e.n
        invariant prev == At(xs, i - 1)
        invariant Holds(0, i, 0)
        modifies state
      {
        prev := e.Grow(prev, i);
        state[i] := prev;
      }
    }

    method Next() returns (r: W)
      requires Valid()
      modifies this, state
      ensures Valid() && Drawn() == old(Drawn()) + 1
      ensures r == e.Temper(At(xs, e.n + old(Drawn())))
    {
      if stateIdx == e.n {
        RefillUpper();
      } else if 2 * e.n <= stateIdx {
        RefillLower();
      }
      r := e.Temper(state[stateIdx]);
      stateIdx := stateIdx + 1;
    }

    method Discard(num: nat)
      requires Valid()
      modifies this, state
      ensures Valid() && Drawn() == old(Drawn()) + num
    {
      var left := num;
      while left > 0
        invariant Valid() && Drawn() == old(Drawn()) + num - left
      {
        var ignored := Next();
        left := left - 1;
      }
    }

    /** Word i becomes term t from three words that hold terms t-n, t-n+1 and t-n+m. */
    method Refill(i: nat, hi: nat, lo: nat, far: nat, ghost t: nat)
      requires e.Ok() && Recurs(e, xs) && t >= e.n
      requires i < state.Length && hi < state.Length && lo < state.Length && far < state.Length
      requires state[hi] == At(xs, t - e.n) && state[lo] == At(xs, t - e.n + 1) && state[far] == At(xs, t - e.n + e.m)
      modifies state
      ensures state[i] == At(xs, t)
      ensures forall j :: 0 <= j < state.Length && j != i ==> state[j] == old(state[j])
    {
      assert At(xs, t) == NextOf(e, xs, t);
      state[i] := e.Twist(state[hi], state[lo], state[far]);
    }

    /** The upper half continues the lower half; its last words need its own first ones. */
    method RefillUpper()
      requires e.Ok() && Recurs(e, xs) && state.Length == 2 * e.n && Holds(0, e.n, base)
      modifies state
      ensures Holds(0, 2 * e.n, base)
    {
      for i := e.n to 2 * e.n
        invariant Holds(0, i, base)
      {
        Refill(i, i - e.n, i - e.n + 1, i - e.n + e.m, base + i);
      }
    }

    /** The first n - m words of the lower half, drawn from the upper half alone. */
    method RefillFromUpper(ghost next: nat)
      requires e.Ok() && Recurs(e, xs) && state.Length == 2 * e.n && next == base + 2 * e.n && Holds(e.n, 2 * e.n, base)
      modifies state
      ensures Holds(0, e.n - e.m, next) && Holds(e.n, 2 * e.n, base)
    {
      for i := 0 to e.n - e.m
        invariant Holds(0, i, next) && Holds(e.n, 2 * e.n, base)
      {
        Refill(i, i + e.n, i + e.n + 1, i + e.n + e.m, next + i);
      }
    }

    /** The next words, which also need the new first words of the lower half. */
    method RefillFromBoth(ghost next: nat)
      requires e.Ok() && Recurs(e, xs) && state.Length == 2 * e.n && next == base + 2 * e.n
      requires Holds(0, e.n - e.m, next) && Holds(e.n, 2 * e.n, base)
      modifies state
      ensures Holds(0, e.n - 1, next) && Holds(e.n, 2 * e.n, base)
    {
      for i := e.n - e.m to e.n - 1
        invariant Holds(0, i, next) && Holds(e.n, 2 * e.n, base)
      {
        Refill(i, i + e.n, i + e.n + 1, i + e.m - e.n, next + i);
      }
    }

    /** The lower half continues the upper half, wrapping round at its last word. */
    method RefillLower()
      requires Valid() && stateIdx == 2 * e.n
      modifies this, state
      ensures Valid() && stateIdx == 0 && Drawn() == old(Drawn())
    {
      ghost var next := base + 2 * e.n;
      RefillFromUpper(next);
      RefillFromBoth(next);
      assert state[2 * e.n - 1] == At(xs, base + (2 * e.n - 1));
      assert state[0] == At(xs, next + 0) && state[e.m - 1] == At(xs, next + (e.m - 1));
      Refill(e.n - 1, 2 * e.n - 1, 0, e.m - 1, next + e.n - 1);
      assert Holds(0, e.n, next);
      base := next;
      stateIdx := 0;
    }
  }
}
