/** The Poseidon2 permutation over three field elements, and its explicit inverse. */
module Poseidon2 {
  import opened NumberTheory

  type Element = int

  datatype State = State(a: Element, b: Element, c: Element)

  /** The field order and the round constants, arbitrary but of the source's shape. */
  datatype Parameters = Parameters(p: int, external: seq<State>, inner: seq<Element>)

  ghost predicate Valid(k: Parameters) {
    Prime(k.p) && |k.external| == 8 && |k.inner| == 56
  }

  /** x^5 and both linear layers are invertible: 5 does not divide p - 1, and p is not 2 or 7. */
  ghost predicate Invertible(k: Parameters) {
    Valid(k) && (k.p - 1) % 5 != 0 && k.p != 2 && k.p != 7
  }

  predicate InField(s: State, p: int) {
    0 <= s.a < p && 0 <= s.b < p && 0 <= s.c < p
  }

  function Reduce(a: int, b: int, c: int, p: int): (s: State)
    requires p > 0
    ensures InField(s, p)
  {
    State(a % p, b % p, c % p)
  }

  // ---------------------------------------------------------------------- the layers

  /** `value.square().square() * value`. */
  function Sbox(x: Element, p: int): (r: Element)
    requires p > 0
    ensures 0 <= r < p
  {
    var square := (x * x) % p;
    var fourth := (square * square) % p;
    (fourth * x) % p
  }

  function External(s: State, p: int): (r: State)
    requires p > 0
    ensures InField(r, p)
  {
    var sum := s.a + s.b + s.c;
    Reduce(s.a + sum, s.b + sum, s.c + sum, p)
  }

  function Internal(s: State, p: int): (r: State)
    requires p > 0
    ensures InField(r, p)
  {
    var sum := s.a + s.b + s.c;
    Reduce(s.a + sum, s.b + sum, 2 * s.c + sum, p)
  }

  function ExternalRound(s: State, constants: State, p: int): (r: State)
    requires p > 0
    ensures InField(r, p)
  {
    External(State(Sbox(s.a + constants.a, p), Sbox(s.b + constants.b, p), Sbox(s.c + constants.c, p)), p)
  }

  function InternalRound(s: State, constant: Element, p: int): (r: State)
    requires p > 0
    ensures InField(r, p)
  {
    Internal(State(Sbox(s.a + constant, p), s.b, s.c), p)
  }

  function ExternalRounds(s: State, rounds: seq<State>, p: int): (r: State)
    requires p > 0
    ensures InField(s, p) ==> InField(r, p)
  {
    if rounds == [] then s
    else ExternalRound(ExternalRounds(s, rounds[..|rounds| - 1], p), rounds[|rounds| - 1], p)
  }

  function InternalRounds(s: State, rounds: seq<Element>, p: int): (r: State)
    requires p > 0
    ensures InField(s, p) ==> InField(r, p)
  {
    if rounds == [] then s
    else InternalRound(InternalRounds(s, rounds[..|rounds| - 1], p), rounds[|rounds| - 1], p)
  }

  function Permutation(k: Parameters, s: State): (r: State)
    requires k.p > 0 && |k.external| == 8
    ensures InField(r, k.p)
  {
    ExternalRounds(InternalRounds(ExternalRounds(External(s, k.p), k.external[..4], k.p), k.inner, k.p),
                   k.external[4..], k.p)
  }

  // ------------------------------------------------------------------- in-place form

  ghost predicate Stores(state: seq<Element>, s: State) {
    state == [s.a, s.b, s.c]
  }

  method ExternalInPlace(state: array<Element>, p: int, ghost s: State)
    requires p > 0 && Stores(state[..], s)
    modifies state
    ensures Stores(state[..], External(s, p))
  {
    assert state.Length == |state[..]| == 3;
    assert state[0] == s.a && state[1] == s.b && state[2] == s.c;
    var sum := state[0] + state[1] + state[2];
    for i := 0 to 3
      invariant state.Length == 3
      invariant forall j | 0 <= j < 3 ::
                  state[j] == if j < i then [s.a, s.b, s.c][j] + sum else [s.a, s.b, s.c][j]
    {
      state[i] := state[i] + sum;
    }
    state[0], state[1], state[2] := state[0] % p, state[1] % p, state[2] % p;
  }

  method InternalInPlace(state: array<Element>, p: int, ghost s: State)
    requires p > 0 && Stores(state[..], s)
    modifies state
    ensures Stores(state[..], Internal(s, p))
  {
    assert state.Length == |state[..]| == 3;
    assert state[0] == s.a && state[1] == s.b && state[2] == s.c;
    var sum := state[0] + state[1] + state[2];
    state[0] := (state[0] + sum) % p;
    state[1] := (state[1] + sum) % p;
    state[2] := (2 * state[2] + sum) % p;
  }

  method ExternalRoundsInPlace(state: array<Element>, rounds: seq<State>, p: int, ghost s: State)
    requires p > 0 && Stores(state[..], s)
    modifies state
    ensures Stores(state[..], ExternalRounds(s, rounds, p))
  {
    for i := 0 to |rounds|
      invariant Stores(state[..], ExternalRounds(s, rounds[..i], p))
    {
      ghost var now := ExternalRounds(s, rounds[..i], p);
      assert state.Length == |state[..]| == 3;
      assert state[0] == now.a && state[1] == now.b && state[2] == now.c;
      state[0] := Sbox(state[0] + rounds[i].a, p);
      state[1] := Sbox(state[1] + rounds[i].b, p);
      state[2] := Sbox(state[2] + rounds[i].c, p);
      ExternalInPlace(state, p, State(state[0], state[1], state[2]));
      assert rounds[..i + 1][..i] == rounds[..i];
    }
    assert rounds[..|rounds|] == rounds;
  }

  method InternalRoundsInPlace(state: array<Element>, rounds: seq<Element>, p: int, ghost s: State)
    requires p > 0 && Stores(state[..], s)
    modifies state
    ensures Stores(state[..], InternalRounds(s, rounds, p))
  {
    for i := 0 to |rounds|
      invariant Stores(state[..], InternalRounds(s, rounds[..i], p))
    {
      ghost var now := InternalRounds(s, rounds[..i], p);
      assert state.Length == |state[..]| == 3;
      assert state[0] == now.a && state[1] == now.b && state[2] == now.c;
      state[0] := Sbox(state[0] + rounds[i], p);
      InternalInPlace(state, p, State(state[0], state[1], state[2]));
      assert rounds[..i + 1][..i] == rounds[..i];
    }
    assert rounds[..|rounds|] == rounds;
  }

  /** `poseidon2_permutation`: 4 external, 56 internal and 4 external rounds in place. */
  method Permute(k: Parameters, state: array<Element>, ghost s: State)
    requires k.p > 0 && |k.external| == 8 && Stores(state[..], s)
    modifies state
    ensures Stores(state[..], Permutation(k, s))
  {
    ExternalInPlace(state, k.p, s);
    ghost var s1 := External(s, k.p);
    ExternalRoundsInPlace(state, k.external[..4], k.p, s1);
    ghost var s2 := ExternalRounds(s1, k.external[..4], k.p);
    InternalRoundsInPlace(state, k.inner, k.p, s2);
    ghost var s3 := InternalRounds(s2, k.inner, k.p);
    ExternalRoundsInPlace(state, k.external[4..], k.p, s3);
  }

  // ---------------------------------------------------------------- inverse of x^5

  /** m with m·(p-1) + 1 divisible by 5. */
  function Multiplier(p: int): nat {
    var r := (p - 1) % 5;
    if r == 1 then 4 else if r == 2 then 2 else if r == 3 then 3 else 1
  }

  /** The exponent d with 5·d = m·(p-1) + 1. */
  function RootExponent(p: int): (d: nat)
    requires p > 1
  {
    (Multiplier(p) * (p - 1) + 1) / 5
  }

  lemma RootExponentFits(p: int)
    requires p > 1 && (p - 1) % 5 != 0
    ensures 5 * RootExponent(p) == Multiplier(p) * (p - 1) + 1
  {
    var q, r := (p - 1) / 5, (p - 1) % 5;
    assert p - 1 == 5 * q + r;
    if r == 1 {
      FifthOf(4, p - 1, 4 * q + 1);
    } else if r == 2 {
      FifthOf(2, p - 1, 2 * q + 1);
    } else if r == 3 {
      FifthOf(3, p - 1, 3 * q + 2);
    } else {
      FifthOf(1, p - 1, q + 1);
    }
  }

  lemma FifthOf(m: int, x: int, y: int)
    requires m * x + 1 == 5 * y
    ensures (m * x + 1) / 5 == y
  {
  }

  lemma SboxIsFifthPower(x: Element, p: int)
    requires p > 0
    ensures Sbox(x, p) == Pow(x, 5) % p
  {
    var square := x * x;
    ModMulBoth(square, square, p);
    ModMul(((square % p) * (square % p)), x, p);
    ModMulCongruent((square % p) * (square % p), square * square, x, p);
    assert Pow(x, 5) == square * square * x by {
      assert Pow(x, 1) == x * Pow(x, 0);
      assert Pow(x, 2) == x * Pow(x, 1);
      PowAdd(x, 2, 2);
      PowAdd(x, 4, 1);
    }
  }

  /** Raising to 5·d returns every residue. */
  lemma FifthRootPower(x: Element, p: int)
    requires Prime(p) && (p - 1) % 5 != 0 && 0 <= x < p
    ensures Pow(x, 5 * RootExponent(p)) % p == x
  {
    var m, e := Multiplier(p), 5 * RootExponent(p);
    RootExponentFits(p);
    if x == 0 {
      assert Pow(0, e) == 0 * Pow(0, e - 1);
    } else {
      ModSmall(x, p);
      Fermat(p, x);
      PowMul(x, p - 1, m);
      assert (p - 1) * m == m * (p - 1);
      PowAdd(x, 1, m * (p - 1));
      assert Pow(x, 1) == x * Pow(x, 0);
      PowMod(Pow(x, p - 1), m, p);
      PowOne(m);
      assert Pow(x, e) == x * Pow(Pow(x, p - 1), m);
      ModMulCongruent(Pow(Pow(x, p - 1), m), 1, x, p);
      assert Pow(Pow(x, p - 1), m) * x == x * Pow(Pow(x, p - 1), m);
    }
  }

  function FifthRoot(y: Element, p: int): (x: Element)
    requires p > 1
    ensures 0 <= x < p
  {
    Pow(y, RootExponent(p)) % p
  }

  lemma SboxInverse(x: Element, p: int)
    requires Prime(p) && (p - 1) % 5 != 0 && 0 <= x < p
    ensures FifthRoot(Sbox(x, p), p) == x
    ensures Sbox(FifthRoot(x, p), p) == x
  {
    var d := RootExponent(p);
    SboxIsFifthPower(x, p);
    PowMod(Pow(x, 5), d, p);
    PowMul(x, 5, d);
    FifthRootPower(x, p);
    SboxIsFifthPower(FifthRoot(x, p), p);
    PowMod(Pow(x, d), 5, p);
    PowMul(x, d, 5);
    assert d * 5 == 5 * d;
  }

  // ------------------------------------------------------------ inverse linear layers

  /** The residue with v·u = 1. */
  function UnitInverse(v: int, p: int): (u: int)
    requires p > 1
    ensures 0 <= u < p
  {
    Pow(v, p - 2) % p
  }

  lemma UnitInverseIs(v: int, p: int)
    requires Prime(p) && v % p != 0
    ensures (v * UnitInverse(v, p)) % p == 1
  {
    Fermat(p, v);
    var w := Pow(v, p - 2);
    ModMul(w, v, p);
    assert w * v == v * w && (w % p) * v == v * (w % p);
    assert Pow(v, p - 1) == v * w;
  }

  lemma SmallUnits(p: int)
    requires Prime(p) && p != 2 && p != 7
    ensures 4 % p != 0 && 7 % p != 0
  {
    assert 2 % p != 0 by {
      if p > 2 { ModSmall(2, p); }
    }
    EuclidAny(p, 2, 2);
    if p < 7 {
      assert p == 3 || p == 4 || p == 5 || p == 6;
    } else {
      ModSmall(7, p);
    }
  }

  /** Undoes the external layer: its matrix has determinant 4. */
  function ExternalInverse(s: State, p: int): (r: State)
    requires p > 1
    ensures InField(r, p)
  {
    var sum := UnitInverse(4, p) * (s.a + s.b + s.c);
    Reduce(s.a - sum, s.b - sum, s.c - sum, p)
  }

  /** Undoes the internal layer: its matrix has determinant 7. */
  function InternalInverse(s: State, p: int): (r: State)
    requires p > 1
    ensures InField(r, p)
  {
    var sum := UnitInverse(7, p) * (2 * s.a + 2 * s.b + s.c);
    Reduce(s.a - sum, s.b - sum, 3 * sum - s.a - s.b, p)
  }

  ghost predicate Congruent(x: int, y: int, p: int)
    requires p > 0
  {
    (x - y) % p == 0
  }

  lemma CongruentResidue(x: int, y: int, p: int)
    requires p > 0 && Congruent(x, y, p)
    ensures x % p == y % p
  {
    ModEqual(x, y, p);
  }

  lemma CongruentLinear(x1: int, y1: int, x2: int, y2: int, k: int, p: int)
    requires p > 0 && Congruent(x1, y1, p) && Congruent(x2, y2, p)
    ensures Congruent(x1 + k * x2, y1 + k * y2, p)
  {
    var q1, q2 := (x1 - y1) / p, (x2 - y2) / p;
    assert x1 - y1 == q1 * p && x2 - y2 == q2 * p;
    assert (x1 + k * x2) - (y1 + k * y2) == (q1 + k * q2) * p by {
      assert k * x2 - k * y2 == k * (q2 * p);
      assert (q1 + k * q2) * p == q1 * p + (k * q2) * p;
      assert (k * q2) * p == k * (q2 * p);
    }
    ModMultiple(q1 + k * q2, p);
  }

  lemma ResidueCongruent(x: int, p: int)
    requires p > 0
    ensures Congruent(x % p, x, p) && Congruent(x, x % p, p) && Congruent(x, x, p)
  {
    assert x % p - x == -(x / p) * p && x - x % p == (x / p) * p;
    ModMultiple(-(x / p), p);
    ModMultiple(x / p, p);
    ModMultiple(0, p);
  }

  lemma Reassociate(a: int, b: int, c: int)
    ensures a * (b * c) == (a * b) * c == (b * a) * c == (a * c) * b
  {
  }

  lemma CancelledDifference(v: int, u: int, x: int, z: int, q: int, w: int, p: int)
    requires z == v * x + q * p && v * u == w * p + 1
    ensures u * z - x == (u * q + w * x) * p
  {
    Reassociate(u, v, x);
    Reassociate(u, q, p);
    Reassociate(w, p, x);
    assert u * z == u * (v * x) + u * (q * p);
    assert (w * p + 1) * x == (w * p) * x + x;
    assert (u * q + w * x) * p == (u * q) * p + (w * x) * p;
  }

  /** u inverts v, and z is congruent to v·x: then u·z is congruent to x. */
  lemma UnitCancels(v: int, u: int, x: int, z: int, p: int)
    requires p > 1 && (v * u) % p == 1 && Congruent(z, v * x, p)
    ensures Congruent(u * z, x, p)
  {
    var q, w := (z - v * x) / p, (v * u) / p;
    assert z == v * x + q * p && v * u == w * p + 1;
    CancelledDifference(v, u, x, z, q, w, p);
    ModMultiple(u * q + w * x, p);
  }
}
