/** The permutation layer by layer, each layer as one formula per element. */
module Poseidon2Reference {
  import opened NumberTheory
  import opened Poseidon2

  datatype Layer = Mix | Full(constants: State) | Partial(constant: Element)

  /** One external layer, four full rounds, all the partial rounds, and four more full rounds. */
  ghost function LayerAt(k: Parameters, i: nat): Layer
    requires |k.external| == 8 && i < |k.inner| + 9
  {
    var n := |k.inner|;
    if i == 0 then Mix
    else if i < 5 then Full(k.external[i - 1])
    else if i < n + 5 then Partial(k.inner[i - 5])
    else Full(k.external[i - n - 1])
  }

  ghost function Fifth(x: Element, p: int): Element
    requires p > 0
  {
    Pow(x, 5) % p
  }

  /** The matrix with 2, 2 and d on its diagonal and 1 elsewhere. */
  ghost function Mixed(x: State, d: int, p: int): State
    requires p > 0
  {
    State((2 * x.a + x.b + x.c) % p, (x.a + 2 * x.b + x.c) % p, (x.a + x.b + d * x.c) % p)
  }

  /** A full round powers every element, a partial round the first; their matrices differ in the last entry. */
  ghost function After(layer: Layer, x: State, p: int): State
    requires p > 0
  {
    match layer
    case Mix => Mixed(x, 2, p)
    case Full(c) => Mixed(State(Fifth(x.a + c.a, p), Fifth(x.b + c.b, p), Fifth(x.c + c.c, p)), 2, p)
    case Partial(c) => Mixed(State(Fifth(x.a + c, p), x.b, x.c), 3, p)
  }

  ghost function AfterLayers(k: Parameters, s: State, i: nat): State
    requires k.p > 0 && |k.external| == 8 && i <= |k.inner| + 9
  {
    if i == 0 then s else After(LayerAt(k, i - 1), AfterLayers(k, s, i - 1), k.p)
  }

  lemma LayersAre(x: State, c: State, d: Element, p: int)
    requires p > 0
    ensures External(x, p) == After(Mix, x, p)
    ensures ExternalRound(x, c, p) == After(Full(c), x, p)
    ensures InternalRound(x, d, p) == After(Partial(d), x, p)
  {
    SboxIsFifthPower(x.a + c.a, p);
    SboxIsFifthPower(x.b + c.b, p);
    SboxIsFifthPower(x.c + c.c, p);
    SboxIsFifthPower(x.a + d, p);
  }

  lemma {:induction false} FullRoundsAre(k: Parameters, s: State, start: nat, rounds: seq<State>)
    requires k.p > 0 && |k.external| == 8 && start + |rounds| <= |k.inner| + 9
    requires forall i | 0 <= i < |rounds| :: LayerAt(k, start + i) == Full(rounds[i])
    ensures AfterLayers(k, s, start + |rounds|) == ExternalRounds(AfterLayers(k, s, start), rounds, k.p)
  {
    if rounds == [] {
    } else {
      var n := |rounds| - 1;
      FullRoundsAre(k, s, start, rounds[..n]);
      LayersAre(AfterLayers(k, s, start + n), rounds[n], 0, k.p);
      assert LayerAt(k, start + n) == Full(rounds[n]);
    }
  }

  lemma {:induction false} PartialRoundsAre(k: Parameters, s: State, start: nat, rounds: seq<Element>)
    requires k.p > 0 && |k.external| == 8 && start + |rounds| <= |k.inner| + 9
    requires forall i | 0 <= i < |rounds| :: LayerAt(k, start + i) == Partial(rounds[i])
    ensures AfterLayers(k, s, start + |rounds|) == InternalRounds(AfterLayers(k, s, start), rounds, k.p)
  {
    if rounds == [] {
    } else {
      var n := |rounds| - 1;
      PartialRoundsAre(k, s, start, rounds[..n]);
      LayersAre(AfterLayers(k, s, start + n), State(0, 0, 0), rounds[n], k.p);
      assert LayerAt(k, start + n) == Partial(rounds[n]);
    }
  }

  /** The permutation is the state after all the layers, for any field and any constants of the source's shape. */
  lemma PermutationIsLayers(k: Parameters, s: State)
    requires k.p > 0 && |k.external| == 8
    ensures Permutation(k, s) == AfterLayers(k, s, |k.inner| + 9)
  {
    var n := |k.inner|;
    LayersAre(s, State(0, 0, 0), 0, k.p);
    assert AfterLayers(k, s, 0) == s && AfterLayers(k, s, 1) == External(s, k.p);
    FullRoundsAre(k, s, 1, k.external[..4]);
    PartialRoundsAre(k, s, 5, k.inner);
    FullRoundsAre(k, s, n + 5, k.external[4..]);
  }
}
