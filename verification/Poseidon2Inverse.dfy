/** The Poseidon2 permutation is a bijection: running the inverse layers backwards undoes it. */
module Poseidon2Inverse {
  import opened NumberTheory
  import opened Poseidon2

  // ------------------------------------------------------------------ linear layers

  lemma Combine(a1: int, b1: int, k1: int, a2: int, b2: int, k2: int, a3: int, b3: int, k3: int, p: int)
    requires p > 0 && Congruent(a1, b1, p) && Congruent(a2, b2, p) && Congruent(a3, b3, p)
    ensures Congruent(k1 * a1 + k2 * a2 + k3 * a3, k1 * b1 + k2 * b2 + k3 * b3, p)
  {
    CongruentScale(a1, b1, k1, p);
    CongruentScale(a2, b2, k2, p);
    CongruentScale(a3, b3, k3, p);
    CongruentAdd(k1 * a1, k1 * b1, k2 * a2, k2 * b2, p);
    CongruentAdd(k1 * a1 + k2 * a2, k1 * b1 + k2 * b2, k3 * a3, k3 * b3, p);
  }

  lemma CongruentScale(a: int, b: int, k: int, p: int)
    requires p > 0 && Congruent(a, b, p)
    ensures Congruent(k * a, k * b, p)
  {
    ResidueCongruent(0, p);
    CongruentLinear(0, 0, a, b, k, p);
  }

  lemma CongruentAdd(a: int, b: int, c: int, d: int, p: int)
    requires p > 0 && Congruent(a, b, p) && Congruent(c, d, p)
    ensures Congruent(a + c, b + d, p)
  {
    CongruentLinear(a, b, c, d, 1, p);
  }

  lemma Settle(v: int, x: int, p: int)
    requires 0 <= x < p && Congruent(v, x, p)
    ensures v % p == x
  {
    CongruentResidue(v, x, p);
    ModSmall(x, p);
  }

  lemma OffSum(x: int, v: int, sum: int, w: int, p: int)
    requires p > 1 && 0 <= x < p && Congruent(v, x + sum, p) && Congruent(w, sum, p)
    ensures (v - w) % p == x
  {
    CongruentLinear(v, x + sum, w, sum, -1, p);
    Settle(v - w, x, p);
  }

  lemma ExternalUndone(s: State, p: int)
    requires Prime(p) && p != 2 && p != 7 && InField(s, p)
    ensures ExternalInverse(External(s, p), p) == s
  {
    SmallUnits(p);
    UnitInverseIs(4, p);
    var u, sum, y := UnitInverse(4, p), s.a + s.b + s.c, External(s, p);
    ResidueCongruent(s.a + sum, p);
    ResidueCongruent(s.b + sum, p);
    ResidueCongruent(s.c + sum, p);
    Combine(y.a, s.a + sum, 1, y.b, s.b + sum, 1, y.c, s.c + sum, 1, p);
    var z := y.a + y.b + y.c;
    UnitCancels(4, u, sum, z, p);
    OffSum(s.a, y.a, sum, u * z, p);
    OffSum(s.b, y.b, sum, u * z, p);
    OffSum(s.c, y.c, sum, u * z, p);
  }

  lemma ExternalRedone(y: State, p: int)
    requires Prime(p) && p != 2 && p != 7 && InField(y, p)
    ensures External(ExternalInverse(y, p), p) == y
  {
    SmallUnits(p);
    UnitInverseIs(4, p);
    var u, z, s := UnitInverse(4, p), y.a + y.b + y.c, ExternalInverse(y, p);
    var t := u * z;
    InverseTimes(4, u, z, p);
    ResidueCongruent(y.a - t, p);
    ResidueCongruent(y.b - t, p);
    ResidueCongruent(y.c - t, p);
    Combine(s.a, y.a - t, 1, s.b, y.b - t, 1, s.c, y.c - t, 1, p);
    var sum := s.a + s.b + s.c;
    assert Congruent(sum, z - 3 * t, p);
    ReturnsTo(s.a, y.a, sum, z, t, p);
    ReturnsTo(s.b, y.b, sum, z, t, p);
    ReturnsTo(s.c, y.c, sum, z, t, p);
  }

  /** v·u·z is congruent to z. */
  lemma InverseTimes(v: int, u: int, z: int, p: int)
    requires p > 1 && (v * u) % p == 1
    ensures Congruent(v * (u * z), z, p)
  {
    var w := (v * u) / p;
    assert v * u == w * p + 1;
    assert v * (u * z) == (w * p + 1) * z == (w * z) * p + z;
    ModMultiple(w * z, p);
  }

  lemma ReturnsTo(x: int, y: int, sum: int, z: int, t: int, p: int)
    requires 0 <= y < p && Congruent(x, y - t, p) && Congruent(sum, z - 3 * t, p) && Congruent(4 * t, z, p)
    ensures (x + sum) % p == y
  {
    SameDifference(4 * t, z, 4 * t - z, 0, p);
    Combine(x, y - t, 1, sum, z - 3 * t, 1, 4 * t - z, 0, -1, p);
    SameDifference(x + sum - (4 * t - z), y - t + (z - 3 * t), x + sum, y, p);
    Settle(x + sum, y, p);
  }

  lemma SameDifference(x: int, y: int, v: int, w: int, p: int)
    requires p > 0 && Congruent(x, y, p) && x - y == v - w
    ensures Congruent(v, w, p)
  {
  }

  lemma InternalUndone(s: State, p: int)
    requires Prime(p) && p != 2 && p != 7 && InField(s, p)
    ensures InternalInverse(Internal(s, p), p) == s
  {
    SmallUnits(p);
    UnitInverseIs(7, p);
    var u, sum, y := UnitInverse(7, p), s.a + s.b + s.c, Internal(s, p);
    ResidueCongruent(s.a + sum, p);
    ResidueCongruent(s.b + sum, p);
    ResidueCongruent(2 * s.c + sum, p);
    Combine(y.a, s.a + sum, 2, y.b, s.b + sum, 2, y.c, 2 * s.c + sum, 1, p);
    var z := 2 * y.a + 2 * y.b + y.c;
    UnitCancels(7, u, sum, z, p);
    SubtractSum(s, y, sum, u * z, p);
  }

  /** The last layer of the inverse: the recovered sum is taken off each cell. */
  lemma SubtractSum(s: State, y: State, sum: int, w: int, p: int)
    requires p > 1 && InField(s, p) && sum == s.a + s.b + s.c
    requires Congruent(w, sum, p) && Congruent(y.a, s.a + sum, p) && Congruent(y.b, s.b + sum, p)
    ensures (y.a - w) % p == s.a && (y.b - w) % p == s.b && (3 * w - y.a - y.b) % p == s.c
  {
    OffSum(s.a, y.a, sum, w, p);
    OffSum(s.b, y.b, sum, w, p);
    Combine(w, sum, 3, y.a, s.a + sum, -1, y.b, s.b + sum, -1, p);
    Settle(3 * w - y.a - y.b, s.c, p);
  }

  lemma InternalRedone(y: State, p: int)
    requires Prime(p) && p != 2 && p != 7 && InField(y, p)
    ensures Internal(InternalInverse(y, p), p) == y
  {
    SmallUnits(p);
    UnitInverseIs(7, p);
    var u, z, s := UnitInverse(7, p), 2 * y.a + 2 * y.b + y.c, InternalInverse(y, p);
    var t := u * z;
    InverseTimes(7, u, z, p);
    ResidueCongruent(y.a - t, p);
    ResidueCongruent(y.b - t, p);
    ResidueCongruent(3 * t - y.a - y.b, p);
    Combine(s.a, y.a - t, 1, s.b, y.b - t, 1, s.c, 3 * t - y.a - y.b, 1, p);
    var sum := s.a + s.b + s.c;
    assert Congruent(sum, t, p);
    CongruentLinear(s.a, y.a - t, sum, t, 1, p);
    CongruentLinear(s.b, y.b - t, sum, t, 1, p);
    Settle(s.a + sum, y.a, p);
    Settle(s.b + sum, y.b, p);
    ReturnsToThird(s.c, y.a, y.b, y.c, sum, t, p);
  }

  lemma ReturnsToThird(x: int, a: int, b: int, c: int, sum: int, t: int, p: int)
    requires 0 <= c < p && Congruent(x, 3 * t - a - b, p) && Congruent(sum, t, p)
    requires Congruent(7 * t, 2 * a + 2 * b + c, p)
    ensures (2 * x + sum) % p == c
  {
    var z := 2 * a + 2 * b + c;
    SameDifference(7 * t, z, 7 * t - z, 0, p);
    Combine(x, 3 * t - a - b, 2, sum, t, 1, 7 * t - z, 0, 1, p);
    SameDifference(2 * x + sum + (7 * t - z), 2 * (3 * t - a - b) + t, 2 * x + sum, c, p);
    Settle(2 * x + sum, c, p);
  }

  // ------------------------------------------------------------------------- rounds

  function Unshift(x: Element, constant: Element, p: int): Element
    requires p > 0
  {
    (x - constant) % p
  }

  lemma ShiftedSbox(x: Element, constant: Element, p: int)
    requires Prime(p) && (p - 1) % 5 != 0 && 0 <= x < p
    ensures Unshift(FifthRoot(Sbox(x + constant, p), p), constant, p) == x
    ensures Sbox(Unshift(FifthRoot(x, p), constant, p) + constant, p) == x
  {
    var v := (x + constant) % p;
    SboxResidue(x + constant, p);
    SboxInverse(v, p);
    ResidueCongruent(x + constant, p);
    SameDifference(v, x + constant, v - constant, x, p);
    Settle(v - constant, x, p);
    var root := FifthRoot(x, p);
    SboxInverse(x, p);
    var w := Unshift(root, constant, p);
    ResidueCongruent(root - constant, p);
    SameDifference(w, root - constant, w + constant, root, p);
    Settle(w + constant, root, p);
    SboxResidue(w + constant, p);
  }

  lemma SboxResidue(x: Element, p: int)
    requires p > 0
    ensures Sbox(x, p) == Sbox(x % p, p)
  {
    SboxIsFifthPower(x, p);
    SboxIsFifthPower(x % p, p);
    PowMod(x, 5, p);
  }

  function ExternalRoundInverse(y: State, k: State, p: int): (r: State)
    requires p > 1
    ensures InField(r, p)
  {
    var s := ExternalInverse(y, p);
    State(Unshift(FifthRoot(s.a, p), k.a, p), Unshift(FifthRoot(s.b, p), k.b, p), Unshift(FifthRoot(s.c, p), k.c, p))
  }

  function InternalRoundInverse(y: State, constant: Element, p: int): (r: State)
    requires p > 1
    ensures InField(r, p)
  {
    var s := InternalInverse(y, p);
    State(Unshift(FifthRoot(s.a, p), constant, p), s.b, s.c)
  }

  ghost predicate GoodPrime(p: int) {
    Prime(p) && (p - 1) % 5 != 0 && p != 2 && p != 7
  }

  lemma ExternalRoundInverts(s: State, k: State, p: int)
    requires GoodPrime(p) && InField(s, p)
    ensures ExternalRoundInverse(ExternalRound(s, k, p), k, p) == s
    ensures ExternalRound(ExternalRoundInverse(s, k, p), k, p) == s
  {
    var mid := State(Sbox(s.a + k.a, p), Sbox(s.b + k.b, p), Sbox(s.c + k.c, p));
    ExternalUndone(mid, p);
    ExternalRedone(s, p);
    ShiftedSbox(s.a, k.a, p);
    ShiftedSbox(s.b, k.b, p);
    ShiftedSbox(s.c, k.c, p);
    var back := ExternalInverse(s, p);
    ShiftedSbox(back.a, k.a, p);
    ShiftedSbox(back.b, k.b, p);
    ShiftedSbox(back.c, k.c, p);
  }

  lemma InternalRoundInverts(s: State, constant: Element, p: int)
    requires GoodPrime(p) && InField(s, p)
    ensures InternalRoundInverse(InternalRound(s, constant, p), constant, p) == s
    ensures InternalRound(InternalRoundInverse(s, constant, p), constant, p) == s
  {
    InternalUndone(State(Sbox(s.a + constant, p), s.b, s.c), p);
    InternalRedone(s, p);
    ShiftedSbox(s.a, constant, p);
    ShiftedSbox(InternalInverse(s, p).a, constant, p);
  }

  function ExternalRoundsInverse(y: State, rounds: seq<State>, p: int): (r: State)
    requires p > 1
    ensures InField(y, p) ==> InField(r, p)
    decreases |rounds|
  {
    if rounds == [] then y
    else
      var n := |rounds| - 1;
      ExternalRoundsInverse(ExternalRoundInverse(y, rounds[n], p), rounds[..n], p)
  }

  function InternalRoundsInverse(y: State, rounds: seq<Element>, p: int): (r: State)
    requires p > 1
    ensures InField(y, p) ==> InField(r, p)
    decreases |rounds|
  {
    if rounds == [] then y
    else
      var n := |rounds| - 1;
      InternalRoundsInverse(InternalRoundInverse(y, rounds[n], p), rounds[..n], p)
  }

  lemma {:induction false} ExternalRoundsInvert(s: State, rounds: seq<State>, p: int)
    requires GoodPrime(p) && InField(s, p)
    ensures ExternalRoundsInverse(ExternalRounds(s, rounds, p), rounds, p) == s
    ensures ExternalRounds(ExternalRoundsInverse(s, rounds, p), rounds, p) == s
    decreases |rounds|
  {
    if rounds == [] {
    } else {
      var n := |rounds| - 1;
      ExternalRoundInverts(ExternalRounds(s, rounds[..n], p), rounds[n], p);
      ExternalRoundsInvert(s, rounds[..n], p);
      ExternalRoundInverts(s, rounds[n], p);
      ExternalRoundsInvert(ExternalRoundInverse(s, rounds[n], p), rounds[..n], p);
    }
  }

  lemma {:induction false} InternalRoundsInvert(s: State, rounds: seq<Element>, p: int)
    requires GoodPrime(p) && InField(s, p)
    ensures InternalRoundsInverse(InternalRounds(s, rounds, p), rounds, p) == s
    ensures InternalRounds(InternalRoundsInverse(s, rounds, p), rounds, p) == s
    decreases |rounds|
  {
    if rounds == [] {
    } else {
      var n := |rounds| - 1;
      InternalRoundInverts(InternalRounds(s, rounds[..n], p), rounds[n], p);
      InternalRoundsInvert(s, rounds[..n], p);
      InternalRoundInverts(s, rounds[n], p);
      InternalRoundsInvert(InternalRoundInverse(s, rounds[n], p), rounds[..n], p);
    }
  }

  // -------------------------------------------------------------------- permutation

  /** The inverse run: last rounds first, constants in reverse. */
  function PermutationInverse(k: Parameters, y: State): (s: State)
    requires k.p > 1 && |k.external| == 8
    ensures InField(s, k.p)
  {
    var y3 := ExternalRoundsInverse(y, k.external[4..], k.p);
    var y2 := InternalRoundsInverse(y3, k.inner, k.p);
    var y1 := ExternalRoundsInverse(y2, k.external[..4], k.p);
    ExternalInverse(y1, k.p)
  }

  /** The inverse run undoes the 4 + 56 + 4 rounds from every state. */
  lemma PermutationUndone(k: Parameters, s: State)
    requires Invertible(k) && InField(s, k.p)
    ensures PermutationInverse(k, Permutation(k, s)) == s
  {
    var p := k.p;
    var s1 := External(s, p);
    var s2 := ExternalRounds(s1, k.external[..4], p);
    var s3 := InternalRounds(s2, k.inner, p);
    ExternalRoundsInvert(s3, k.external[4..], p);
    InternalRoundsInvert(s2, k.inner, p);
    ExternalRoundsInvert(s1, k.external[..4], p);
    ExternalUndone(s, p);
  }

  /** And every state is reached: the permutation is onto as well as one-to-one. */
  lemma PermutationRedone(k: Parameters, y: State)
    requires Invertible(k) && InField(y, k.p)
    ensures Permutation(k, PermutationInverse(k, y)) == y
  {
    var p := k.p;
    var y3 := ExternalRoundsInverse(y, k.external[4..], p);
    var y2 := InternalRoundsInverse(y3, k.inner, p);
    var y1 := ExternalRoundsInverse(y2, k.external[..4], p);
    ExternalRedone(y1, p);
    ExternalRoundsInvert(y2, k.external[..4], p);
    InternalRoundsInvert(y3, k.inner, p);
    ExternalRoundsInvert(y, k.external[4..], p);
  }
}
