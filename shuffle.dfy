/**
  The in-place Fisher-Yates shuffle.  The browser's random number generator
  is replaced by a caller-supplied stream `rnd` of reals, read from position
  `pos` on: the k-th value drawn is `rnd(k)`, which lies in [0, 1) as every
  value `Math.random()` returns does.
*/
module Shuffling {

  /** Every value of the stream lies in [0, 1). */
  ghost predicate IsRandomSource(rnd: nat -> real) {
    forall k :: 0.0 <= rnd(k) < 1.0
  }

  /**
    `r * n`, written as `n` additions of `r`: `ScaledIsProduct` proves the
    two equal, and this form keeps products of two unknowns out of every
    proof that unfolds a draw.
  */
  function Scaled(r: real, n: nat): (x: real)
    requires 0.0 <= r < 1.0
    ensures 0.0 <= x && (n > 0 ==> x < n as real)
  {
    if n == 0 then 0.0 else Scaled(r, n - 1) + r
  }

  lemma {:induction false} ScaledIsProduct(r: real, n: nat)
    requires 0.0 <= r < 1.0
    ensures Scaled(r, n) == r * n as real
  {
    if n > 0 {
      ScaledIsProduct(r, n - 1);
      assert r * n as real == r * (n - 1) as real + r;
    }
  }

  /**
    The largest index below `n` that does not exceed `x`: for `x` in
    [0, n) this is `x.Floor` (`FloorBelowIsFloor`), found without an
    integer-real conversion of `x`.
  */
  function FloorBelow(x: real, n: nat): (i: nat)
    requires n > 0
    ensures i < n
  {
    if n == 1 then 0
    else if (n - 1) as real <= x then n - 1
    else FloorBelow(x, n - 1)
  }

  lemma {:induction false} FloorBelowIsFloor(x: real, n: nat)
    requires n > 0 && 0.0 <= x < n as real
    ensures FloorBelow(x, n) == x.Floor
  {
    if n > 1 && x < (n - 1) as real {
      FloorBelowIsFloor(x, n - 1);
    }
  }

  /** `Math.floor(r * bound)`: a uniform draw in [0, bound) when `r` is uniform in [0, 1). */
  function DrawIndex(r: real, bound: nat): (i: nat)
    requires 0.0 <= r < 1.0 && bound > 0
    ensures i < bound
  {
    FloorBelow(Scaled(r, bound), bound)
  }

  /** The draw is the floor of `r * bound`. */
  lemma DrawIndexIsFloor(r: real, bound: nat)
    requires 0.0 <= r < 1.0 && bound > 0
    ensures DrawIndex(r, bound) == (r * bound as real).Floor
    ensures DrawIndex(r, bound) as real <= r * bound as real < DrawIndex(r, bound) as real + 1.0
  {
    ScaledIsProduct(r, bound);
    FloorBelowIsFloor(Scaled(r, bound), bound);
  }

  /** Every index in [0, bound) is drawn by some value of the stream: `j / bound` draws `j`. */
  lemma DrawIndexOnto(j: nat, bound: nat)
    requires j < bound
    ensures 0.0 <= j as real / bound as real < 1.0
    ensures DrawIndex(j as real / bound as real, bound) == j
  {
    var r, b := j as real / bound as real, bound as real;
    assert r * b == j as real;
    assert (1.0 - r) * b == b - j as real > 0.0;
    DrawIndexIsFloor(r, bound);
  }

  /** The three-statement swap through `temp`: `s[j]` moves to `i` and `s[i]` to `j`. */
  function Swap<T>(s: seq<T>, i: nat, j: nat): (t: seq<T>)
    requires i < |s| && j < |s|
    ensures |t| == |s| && t[i] == s[j] && t[j] == s[i]
    ensures forall k {:trigger t[k]} :: 0 <= k < |s| && k != i && k != j ==> t[k] == s[k]
  {
    s[i := s[j]][j := s[i]]
  }

  lemma SwapIsPermutation<T>(s: seq<T>, i: nat, j: nat)
    requires i < |s| && j < |s|
    ensures multiset(Swap(s, i, j)) == multiset(s)
  {
  }

  /**
    The shuffle loop as a function: `counter` steps remain, and the next
    draw is `rnd(k)`.  Each step draws `index` in [0, counter), decrements
    `counter` and swaps the elements at `counter` and `index`.
  */
  function Shuffled<T>(s: seq<T>, counter: nat, rnd: nat -> real, k: nat): seq<T>
    requires counter <= |s| && IsRandomSource(rnd)
    decreases counter
  {
    if counter == 0 then s
    else
      var index := DrawIndex(rnd(k), counter);
      Shuffled(Swap(s, counter - 1, index), counter - 1, rnd, k + 1)
  }

  /** One step of the loop: the first draw, then the swap it selects. */
  lemma ShuffledStep<T>(s: seq<T>, counter: nat, rnd: nat -> real, k: nat)
    requires 0 < counter <= |s| && IsRandomSource(rnd)
    ensures Shuffled(s, counter, rnd, k) ==
      Shuffled(Swap(s, counter - 1, DrawIndex(rnd(k), counter)), counter - 1, rnd, k + 1)
  {
  }

  /** The shuffle is a permutation: same length, same multiset of elements. */
  lemma {:induction false} ShuffledIsPermutation<T>(s: seq<T>, counter: nat, rnd: nat -> real, k: nat)
    requires counter <= |s| && IsRandomSource(rnd)
    ensures |Shuffled(s, counter, rnd, k)| == |s|
    ensures multiset(Shuffled(s, counter, rnd, k)) == multiset(s)
    decreases counter
  {
    if counter > 0 {
      var index := DrawIndex(rnd(k), counter);
      SwapIsPermutation(s, counter - 1, index);
      ShuffledIsPermutation(Swap(s, counter - 1, index), counter - 1, rnd, k + 1);
    }
  }

  /** Position `i`, at or beyond `counter`, is already final and is never touched again. */
  lemma {:induction false} ShuffledKeepsAt<T>(s: seq<T>, counter: nat, rnd: nat -> real, k: nat, i: nat)
    requires counter <= i < |s| && IsRandomSource(rnd)
    ensures |Shuffled(s, counter, rnd, k)| == |s|
    ensures Shuffled(s, counter, rnd, k)[i] == s[i]
    decreases counter
  {
    ShuffledIsPermutation(s, counter, rnd, k);
    if counter > 0 {
      var index := DrawIndex(rnd(k), counter);
      ShuffledKeepsAt(Swap(s, counter - 1, index), counter - 1, rnd, k + 1, i);
    }
  }

  /** Positions at or beyond `counter` are already final and are never touched again. */
  lemma ShuffledKeepsSuffix<T>(s: seq<T>, counter: nat, rnd: nat -> real, k: nat)
    requires counter <= |s| && IsRandomSource(rnd)
    ensures |Shuffled(s, counter, rnd, k)| == |s|
    ensures forall i {:trigger Shuffled(s, counter, rnd, k)[i]} :: counter <= i < |s| ==> Shuffled(s, counter, rnd, k)[i] == s[i]
  {
    ShuffledIsPermutation(s, counter, rnd, k);
    forall i | counter <= i < |s|
      ensures Shuffled(s, counter, rnd, k)[i] == s[i]
    {
      ShuffledKeepsAt(s, counter, rnd, k, i);
    }
  }

  /**
    The first draw decides the last position: the element there at the end
    is the one at the drawn index at the start.  With `DrawIndexOnto`, every
    element can be chosen, since the draw reaches all of [0, counter).
  */
  lemma LastPositionIsFirstDraw<T>(s: seq<T>, counter: nat, rnd: nat -> real, k: nat)
    requires 0 < counter <= |s| && IsRandomSource(rnd)
    ensures |Shuffled(s, counter, rnd, k)| == |s|
    ensures Shuffled(s, counter, rnd, k)[counter - 1] == s[DrawIndex(rnd(k), counter)]
  {
    var index := DrawIndex(rnd(k), counter);
    var swapped := Swap(s, counter - 1, index);
    assert swapped[counter - 1] == s[index];
    ShuffledKeepsAt(swapped, counter - 1, rnd, k + 1, counter - 1);
    ShuffledStep(s, counter, rnd, k);
  }

  /**
    Shuffles `a` in place and returns the position of the next unused draw.
    The loop runs exactly `a.Length` times, drawing once per iteration.
  */
  method Shuffle<T>(a: array<T>, rnd: nat -> real, pos: nat) returns (next: nat)
    requires IsRandomSource(rnd)
    modifies a
    ensures a[..] == Shuffled(old(a[..]), a.Length, rnd, pos)
    ensures multiset(a[..]) == multiset(old(a[..]))
    ensures next == pos + a.Length
  {
    var counter := a.Length;
    next := pos;
    while counter > 0
      invariant 0 <= counter <= a.Length
      invariant next == pos + (a.Length - counter)
      invariant Shuffled(a[..], counter, rnd, next) == Shuffled(old(a[..]), a.Length, rnd, pos)
    {
      var index := DrawIndex(rnd(next), counter);
      ghost var swapped := Swap(a[..], counter - 1, index);
      ShuffledStep(a[..], counter, rnd, next);
      assert Shuffled(swapped, counter - 1, rnd, next + 1) == Shuffled(old(a[..]), a.Length, rnd, pos);
      next := next + 1;
      counter := counter - 1;
      var temp := a[counter];
      a[counter] := a[index];
      a[index] := temp;
      assert a[..] == swapped;
    }
    ShuffledIsPermutation(old(a[..]), a.Length, rnd, pos);
  }
}
