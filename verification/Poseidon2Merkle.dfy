/** The half-split Poseidon2 Merkle fold over digest lists, and why it loses nothing. */
module Poseidon2Merkle {
  import opened Integers
  import opened NumberTheory
  import opened Sums
  import opened Bytes
  import opened Types
  import opened Poseidon2

  // ------------------------------------------------------------------ powers of two

  /** `next_power_of_two` of n, counted up from w. */
  function NextPowerOfTwo(n: nat, w: nat): (r: nat)
    requires PowerOfTwo(w)
    ensures PowerOfTwo(r) && r >= n && r >= w && (r == w || r < 2 * n)
    decreases if w >= n then 0 else n - w
  {
    if w >= n then w
    else
      assert PowerOfTwo(2 * w) by { assert (2 * w) / 2 == w; }
      NextPowerOfTwo(n, 2 * w)
  }

  function Width(count: nat): (w: nat)
    ensures PowerOfTwo(w) && w >= 4 && w >= count && (w == 4 || w < 2 * count)
  {
    assert PowerOfTwo(4) by { assert PowerOfTwo(2); }
    NextPowerOfTwo(count, 4)
  }

  /** Number of folds down to one element. */
  function Height(n: nat): (h: nat)
    requires PowerOfTwo(n)
    ensures h < n
    ensures n > 1 ==> h > 0
  {
    if n == 1 then 0 else 1 + Height(n / 2)
  }

  lemma {:induction false} HeightInjective(m: nat, n: nat)
    requires PowerOfTwo(m) && PowerOfTwo(n) && Height(m) == Height(n)
    ensures m == n
  {
    if m > 1 && n > 1 {
      HeightInjective(m / 2, n / 2);
    }
  }

  // --------------------------------------------------------------- leaves and folding

  function Zeros(n: nat): seq<Element> {
    seq(n, _ => 0)
  }

  /** `poseidon2_merkle_leaves`: a domain, length and marker half, then the padded fields. */
  function MerkleLeaves(p: int, domain: u64, fields: seq<Element>): (level: seq<Element>)
    requires p > 1
    ensures |level| == 2 * Width(|fields|) && PowerOfTwo(|level|)
  {
    var width := Width(|fields|);
    assert PowerOfTwo(2 * width) by { assert (2 * width) / 2 == width; }
    [domain % p, |fields| % p, 1 % p] + Zeros(width - 3) + fields + Zeros(width - |fields|)
  }

  /** A 3-to-1 compression into the field of order p. */
  datatype Compression = Compression(p: int, apply: State -> Element)

  ghost predicate Ranged(k: Compression) {
    k.p > 1 && forall s: State :: 0 <= k.apply(s) < k.p
  }

  predicate Shaped(q: Parameters) {
    q.p > 1 && |q.external| == 8
  }

  /** The first output element of the permutation. */
  function FirstOutput(q: Parameters, s: State): (r: Element)
    ensures Shaped(q) ==> 0 <= r < q.p
  {
    if Shaped(q) then Permutation(q, s).a else 0
  }

  function PermutationCompression(q: Parameters): (k: Compression)
    requires Shaped(q)
    ensures k.p == q.p && Ranged(k)
    ensures forall s: State :: k.apply(s) == FirstOutput(q, s) == Permutation(q, s).a
  {
    Compression(q.p, (s: State) => FirstOutput(q, s))
  }

  function Tag(p: int, domain: u64, depth: nat): Element
    requires p > 1
  {
    (domain % p + depth % p) % p
  }

  function FoldInput(level: seq<Element>, tag: Element, i: nat): State
    requires i < |level| / 2
  {
    State(level[i], level[|level| / 2 + i], tag)
  }

  /** One pass: element i is compressed with its partner in the other half. */
  function Fold(k: Compression, level: seq<Element>, tag: Element): (next: seq<Element>)
    ensures |next| == |level| / 2
  {
    seq(|level| / 2, i requires 0 <= i < |level| / 2 => k.apply(FoldInput(level, tag, i)))
  }

  function RootFrom(k: Compression, domain: u64, level: seq<Element>, depth: nat): Element
    requires k.p > 1 && PowerOfTwo(|level|)
    decreases |level|
  {
    if |level| == 1 then level[0]
    else RootFrom(k, domain, Fold(k, level, Tag(k.p, domain, depth)), depth + 1)
  }

  lemma {:induction false} RootInField(k: Compression, domain: u64, level: seq<Element>, depth: nat)
    requires Ranged(k) && PowerOfTwo(|level|) && |level| > 1
    ensures 0 <= RootFrom(k, domain, level, depth) < k.p
    decreases |level|
  {
    var next := Fold(k, level, Tag(k.p, domain, depth));
    if |next| == 1 {
      assert next[0] == k.apply(FoldInput(level, Tag(k.p, domain, depth), 0));
    } else {
      RootInField(k, domain, next, depth + 1);
    }
  }

  function FieldsRoot(k: Compression, domain: u64, fields: seq<Element>): (root: Element)
    requires Ranged(k)
    ensures 0 <= root < k.p
  {
    RootInField(k, domain, MerkleLeaves(k.p, domain, fields), 0);
    RootFrom(k, domain, MerkleLeaves(k.p, domain, fields), 0)
  }

  // ----------------------------------------------------- the root, from the level alone

  ghost function Evens(level: seq<Element>): (r: seq<Element>)
    ensures |r| == |level| / 2
  {
    seq(|level| / 2, i requires 0 <= i < |level| / 2 => level[2 * i])
  }

  ghost function Odds(level: seq<Element>): (r: seq<Element>)
    ensures |r| == |level| / 2
  {
    seq(|level| / 2, i requires 0 <= i < |level| / 2 => level[2 * i + 1])
  }

  /** The root of a level of 2^h elements: the roots of its elements at even and at odd positions are compressed
      last, with a tag that counts the folds. */
  ghost function Interleaved(k: Compression, domain: u64, level: seq<Element>, depth: nat, h: nat): Element
    requires k.p > 1 && |level| == Pow(2, h)
    decreases h
  {
    if h == 0 then level[0]
    else
      k.apply(State(Interleaved(k, domain, Evens(level), depth, h - 1),
                    Interleaved(k, domain, Odds(level), depth, h - 1), (domain + depth + h - 1) % k.p))
  }

  lemma {:induction false} HeightIsLog(n: nat)
    requires PowerOfTwo(n)
    ensures Pow(2, Height(n)) == n
  {
    if n == 1 {
    } else {
      HeightIsLog(n / 2);
    }
  }

  lemma TagIs(p: int, domain: u64, depth: nat)
    requires p > 1
    ensures Tag(p, domain, depth) == (domain + depth) % p
  {
    ModAdd(domain, depth % p, p);
    ModAdd(depth, domain, p);
  }

  /** Folding keeps even positions apart from odd ones. */
  lemma FoldSplits(k: Compression, level: seq<Element>, tag: Element)
    requires |level| % 4 == 0
    ensures Evens(Fold(k, level, tag)) == Fold(k, Evens(level), tag)
    ensures Odds(Fold(k, level, tag)) == Fold(k, Odds(level), tag)
  {
    var q := |level| / 4;
    forall i | 0 <= i < q
      ensures FoldInput(level, tag, 2 * i) == FoldInput(Evens(level), tag, i)
      ensures FoldInput(level, tag, 2 * i + 1) == FoldInput(Odds(level), tag, i)
    {
    }
    assert Evens(Fold(k, level, tag)) == Fold(k, Evens(level), tag);
    assert Odds(Fold(k, level, tag)) == Fold(k, Odds(level), tag);
  }

  lemma {:induction false} FoldInterleaved(k: Compression, domain: u64, level: seq<Element>, depth: nat, h: nat)
    requires k.p > 1 && h > 0 && |level| == Pow(2, h)
    ensures |level| / 2 == Pow(2, h - 1)
    ensures Interleaved(k, domain, level, depth, h)
            == Interleaved(k, domain, Fold(k, level, Tag(k.p, domain, depth)), depth + 1, h - 1)
    decreases h
  {
    var tag := Tag(k.p, domain, depth);
    TagIs(k.p, domain, depth);
    if h == 1 {
      assert Pow(2, 1) == 2 * Pow(2, 0);
      assert Evens(level)[0] == level[0] && Odds(level)[0] == level[1];
      assert FoldInput(level, tag, 0) == State(level[0], level[1], tag);
    } else {
      assert Pow(2, h) == 2 * Pow(2, h - 1) && Pow(2, h - 1) == 2 * Pow(2, h - 2);
      FoldSplits(k, level, tag);
      FoldInterleaved(k, domain, Evens(level), depth, h - 1);
      FoldInterleaved(k, domain, Odds(level), depth, h - 1);
    }
  }

  /** The half-split fold computes that root. */
  lemma {:induction false} RootIsInterleaved(k: Compression, domain: u64, level: seq<Element>, depth: nat, h: nat)
    requires k.p > 1 && |level| == Pow(2, h) && PowerOfTwo(|level|)
    ensures RootFrom(k, domain, level, depth) == Interleaved(k, domain, level, depth, h)
    decreases h
  {
    if h == 0 {
    } else {
      assert Pow(2, h) == 2 * Pow(2, h - 1);
      FoldInterleaved(k, domain, level, depth, h);
      RootIsInterleaved(k, domain, Fold(k, level, Tag(k.p, domain, depth)), depth + 1, h - 1);
    }
  }

  /** The level that is hashed, position by position: half of it holds domain, length and a one, the other half the
      fields, and each half is as wide as the least power of two, four at least, that the fields fit in. */
  ghost predicate IsLevel(p: int, domain: u64, fields: seq<Element>, level: seq<Element>, h: nat)
    requires p > 1
  {
    var w := Pow(2, h);
    && |level| == 2 * w && 4 <= w && |fields| <= w && (w == 4 || w < 2 * |fields|)
    && level[0] == domain % p && level[1] == |fields| % p && level[2] == 1
    && (forall i | 3 <= i < w :: level[i] == 0)
    && (forall i | 0 <= i < |fields| :: level[w + i] == fields[i])
    && forall i | w + |fields| <= i < 2 * w :: level[i] == 0
  }

  /** The hash of these fields, from the level alone. */
  ghost predicate IsFieldsHash(k: Compression, domain: u64, fields: seq<Element>, root: Element)
    requires k.p > 1
  {
    exists level, h: nat ::
      IsLevel(k.p, domain, fields, level, h) && root == Interleaved(k, domain, level, 0, h + 1)
  }

  lemma LeavesAre(p: int, domain: u64, fields: seq<Element>)
    requires p > 1
    ensures IsLevel(p, domain, fields, MerkleLeaves(p, domain, fields), Height(Width(|fields|)))
  {
    HeightIsLog(Width(|fields|));
    ModSmall(1, p);
  }

  lemma FieldsRootIs(k: Compression, domain: u64, fields: seq<Element>)
    requires Ranged(k)
    ensures IsFieldsHash(k, domain, fields, FieldsRoot(k, domain, fields))
  {
    var level, h := MerkleLeaves(k.p, domain, fields), Height(Width(|fields|));
    LeavesAre(k.p, domain, fields);
    RootIsInterleaved(k, domain, level, 0, h + 1);
    assert IsLevel(k.p, domain, fields, level, h);
    assert FieldsRoot(k, domain, fields) == Interleaved(k, domain, level, 0, h + 1);
  }

  method CompressInPlace(q: Parameters, left: Element, right: Element, tag: Element) returns (r: Element)
    requires Shaped(q)
    ensures r == FirstOutput(q, State(left, right, tag))
  {
    var state := new Element[3];
    state[0], state[1], state[2] := left, right, tag;
    assert state[..] == [left, right, tag];
    Permute(q, state, State(left, right, tag));
    r := state[0];
    assert r == state[..][0];
  }

  method FoldLevel(q: Parameters, ghost k: Compression, level: seq<Element>, tag: Element) returns (next: seq<Element>)
    requires Shaped(q) && forall s: State :: k.apply(s) == FirstOutput(q, s)
    ensures next == Fold(k, level, tag)
  {
    var half := |level| / 2;
    next := [];
    for i := 0 to half
      invariant |next| == i && forall j | 0 <= j < i :: next[j] == k.apply(FoldInput(level, tag, j))
    {
      var element := CompressInPlace(q, level[i], level[half + i], tag);
      assert FoldInput(level, tag, i) == State(level[i], level[half + i], tag);
      next := next + [element];
    }
  }

  /** `hash_fields` before its final encoding: the loop terminates and halves evenly every time. */
  method HashFields(q: Parameters, domain: u64, fields: seq<Element>) returns (root: Element)
    requires Shaped(q)
    ensures root == FieldsRoot(PermutationCompression(q), domain, fields)
    ensures IsFieldsHash(PermutationCompression(q), domain, fields, root)
  {
    FieldsRootIs(PermutationCompression(q), domain, fields);
    ghost var k := PermutationCompression(q);
    var level := MerkleLeaves(q.p, domain, fields);
    var depth: nat := 0;
    while |level| > 1
      invariant PowerOfTwo(|level|) && RootFrom(k, domain, level, depth) == FieldsRoot(k, domain, fields)
      decreases |level|
    {
      level := FoldLevel(q, k, level, Tag(q.p, domain, depth));
      depth := depth + 1;
    }
    root := level[0];
  }

  // --------------------------------------------------------------------- collisions

  /** The triples one pass compresses. */
  ghost function FoldTriples(level: seq<Element>, tag: Element): set<State> {
    set i | 0 <= i < |level| / 2 :: FoldInput(level, tag, i)
  }

  ghost function Triples(k: Compression, domain: u64, level: seq<Element>, depth: nat): set<State>
    requires k.p > 1 && PowerOfTwo(|level|)
    decreases |level|
  {
    if |level| == 1 then {}
    else
      var tag := Tag(k.p, domain, depth);
      FoldTriples(level, tag) + Triples(k, domain, Fold(k, level, tag), depth + 1)
  }

  ghost predicate CollisionFree(k: Compression, triples: set<State>)
    requires k.p > 1
  {
    forall s, t | s in triples && t in triples && k.apply(s) == k.apply(t) :: s == t
  }

  function LastTag(p: int, domain: u64, depth: nat, size: nat): Element
    requires p > 1 && PowerOfTwo(size) && size > 1
  {
    Tag(p, domain, depth + Height(size) - 1)
  }

  /** The root is a compression tagged with the last depth. */
  lemma Uncollided(k: Compression, ss: set<State>, ts: set<State>, s: State, t: State)
    requires k.p > 1 && CollisionFree(k, ss + ts) && s in ss && t in ts && k.apply(s) == k.apply(t)
    ensures s == t
  {
  }

  lemma {:induction false} LastCompression(k: Compression, domain: u64, level: seq<Element>, depth: nat)
    returns (s: State)
    requires k.p > 1 && PowerOfTwo(|level|) && |level| > 1
    ensures s in Triples(k, domain, level, depth) && s.c == LastTag(k.p, domain, depth, |level|)
    ensures RootFrom(k, domain, level, depth) == k.apply(s)
    decreases |level|
  {
    var tag := Tag(k.p, domain, depth);
    var next := Fold(k, level, tag);
    if |level| == 2 {
      s := FoldInput(level, tag, 0);
      assert next == [k.apply(s)];
      assert s in FoldTriples(level, tag);
      assert Height(2) == 1 + Height(1);
    } else {
      s := LastCompression(k, domain, next, depth + 1);
    }
  }

  lemma TagInjective(p: int, domain: u64, d: nat, e: nat)
    requires p > 1 && d < p && e < p && Tag(p, domain, d) == Tag(p, domain, e)
    ensures d == e
  {
    var x := domain % p;
    ModSmall(d, p);
    ModSmall(e, p);
    ModEqual(x + d, x + e, p);
    assert x + d - (x + e) == d - e;
    if d - e >= 0 {
      ModSmall(d - e, p);
    } else {
      ModEqual(0, d - e, p);
      ModSmall(e - d, p);
    }
  }

  lemma FoldInjective(k: Compression, tag: Element, a: seq<Element>, b: seq<Element>)
    requires k.p > 1 && |a| == |b| && |a| % 2 == 0 && Fold(k, a, tag) == Fold(k, b, tag)
    requires CollisionFree(k, FoldTriples(a, tag) + FoldTriples(b, tag))
    ensures a == b
  {
    var half := |a| / 2;
    forall j | 0 <= j < |a| ensures a[j] == b[j] {
      var i := if j < half then j else j - half;
      assert Fold(k, a, tag)[i] == Fold(k, b, tag)[i];
      assert FoldInput(a, tag, i) in FoldTriples(a, tag) && FoldInput(b, tag, i) in FoldTriples(b, tag);
      assert FoldInput(a, tag, i) == FoldInput(b, tag, i);
    }
  }

  lemma {:induction false} RootInjective(k: Compression, domain: u64, a: seq<Element>, b: seq<Element>, depth: nat)
    requires k.p > 1 && |a| == |b| && PowerOfTwo(|a|)
    requires RootFrom(k, domain, a, depth) == RootFrom(k, domain, b, depth)
    requires CollisionFree(k, Triples(k, domain, a, depth) + Triples(k, domain, b, depth))
    ensures a == b
    decreases |a|
  {
    if |a| <= 1 {
    } else {
      var tag := Tag(k.p, domain, depth);
      RootInjective(k, domain, Fold(k, a, tag), Fold(k, b, tag), depth + 1);
      FoldInjective(k, tag, a, b);
    }
  }

  lemma LeavesInjective(p: int, domain: u64, f: seq<Element>, g: seq<Element>)
    requires p > 1 && |f| < p && |g| < p && MerkleLeaves(p, domain, f) == MerkleLeaves(p, domain, g)
    ensures f == g
  {
    var a, b := MerkleLeaves(p, domain, f), MerkleLeaves(p, domain, g);
    assert a[1] == |f| % p && b[1] == |g| % p;
    ModSmall(|f|, p);
    ModSmall(|g|, p);
    var width := Width(|f|);
    assert a[width..width + |f|] == f && b[width..width + |g|] == g;
  }

  /** Equal roots of two field lists, of whatever lengths, come from equal lists. */
  lemma FieldsInjective(k: Compression, domain: u64, f: seq<Element>, g: seq<Element>)
    requires Ranged(k) && 4 * |f| < k.p && 4 * |g| < k.p && 8 < k.p
    requires FieldsRoot(k, domain, f) == FieldsRoot(k, domain, g)
    requires CollisionFree(k, Triples(k, domain, MerkleLeaves(k.p, domain, f), 0)
                              + Triples(k, domain, MerkleLeaves(k.p, domain, g), 0))
    ensures f == g
  {
    var a, b := MerkleLeaves(k.p, domain, f), MerkleLeaves(k.p, domain, g);
    SameHeight(k, domain, a, b);
    RootInjective(k, domain, a, b, 0);
    LeavesInjective(k.p, domain, f, g);
  }

  lemma SameHeight(k: Compression, domain: u64, a: seq<Element>, b: seq<Element>)
    requires k.p > 1 && PowerOfTwo(|a|) && PowerOfTwo(|b|) && 1 < |a| <= k.p && 1 < |b| <= k.p
    requires RootFrom(k, domain, a, 0) == RootFrom(k, domain, b, 0)
    requires CollisionFree(k, Triples(k, domain, a, 0) + Triples(k, domain, b, 0))
    ensures |a| == |b|
  {
    LastTagsMeet(k, domain, domain, a, b);
    EqualTagsEqualSizes(k.p, domain, |a|, |b|);
  }

  /** Equal roots end in one and the same compression, so the last tags agree. */
  lemma LastTagsMeet(k: Compression, c: u64, d: u64, a: seq<Element>, b: seq<Element>)
    requires k.p > 1 && PowerOfTwo(|a|) && PowerOfTwo(|b|) && |a| > 1 && |b| > 1
    requires RootFrom(k, c, a, 0) == RootFrom(k, d, b, 0)
    requires CollisionFree(k, Triples(k, c, a, 0) + Triples(k, d, b, 0))
    ensures LastTag(k.p, c, 0, |a|) == LastTag(k.p, d, 0, |b|)
  {
    var s := LastCompression(k, c, a, 0);
    var t := LastCompression(k, d, b, 0);
    Uncollided(k, Triples(k, c, a, 0), Triples(k, d, b, 0), s, t);
  }

  lemma EqualTagsEqualSizes(p: int, domain: u64, m: nat, n: nat)
    requires p > 1 && PowerOfTwo(m) && PowerOfTwo(n) && 1 < m <= p && 1 < n <= p
    requires Tag(p, domain, Height(m) - 1) == Tag(p, domain, Height(n) - 1)
    ensures m == n
  {
    TagInjective(p, domain, Height(m) - 1, Height(n) - 1);
    HeightInjective(m, n);
  }

  // ------------------------------------------------------------------ digests as limbs

  /** Each digest as two 128-bit limbs. */
  function Limbs(p: int, digests: seq<Hash32>): (fields: seq<Element>)
    requires p > 1
    ensures |fields| == 2 * |digests|
  {
    if digests == [] then []
    else
      [LittleEndian(digests[0][..16]) % p, LittleEndian(digests[0][16..]) % p] + Limbs(p, digests[1..])
  }

  lemma {:induction false} LimbsInjective(p: int, xs: seq<Hash32>, ys: seq<Hash32>)
    requires p >= Pow(256, 16) && p > 1 && Limbs(p, xs) == Limbs(p, ys)
    ensures xs == ys
  {
    assert |xs| == |ys|;
    if xs != [] {
      var x, y := xs[0], ys[0];
      var f, g := Limbs(p, xs), Limbs(p, ys);
      assert f[0] == g[0] && f[1] == g[1];
      assert f[2..] == Limbs(p, xs[1..]) && g[2..] == Limbs(p, ys[1..]);
      ModSmall(LittleEndian(x[..16]), p);
      ModSmall(LittleEndian(x[16..]), p);
      ModSmall(LittleEndian(y[..16]), p);
      ModSmall(LittleEndian(y[16..]), p);
      LittleEndianInjective(x[..16], y[..16]);
      LittleEndianInjective(x[16..], y[16..]);
      assert x == x[..16] + x[16..] && y == y[..16] + y[16..];
      LimbsInjective(p, xs[1..], ys[1..]);
      assert xs == [x] + xs[1..] && ys == [y] + ys[1..];
    }
  }

  /** `poseidon2_hash_digests`. */
  function HashDigests(k: Compression, domain: u64, digests: seq<Hash32>): Hash32
    requires Ranged(k)
  {
    ToBytes(FieldsRoot(k, domain, Limbs(k.p, digests)), 32)
  }

  /** Every digest gives two fields, its two halves read with the first byte counting least. */
  ghost predicate AreLimbs(p: int, digests: seq<Hash32>, fields: seq<Element>)
    requires p > 1
  {
    && |fields| == 2 * |digests|
    && forall i | 0 <= i < |digests| ::
         fields[2 * i] == Sum(PlaceTerms(digests[i][..16])) % p
         && fields[2 * i + 1] == Sum(PlaceTerms(digests[i][16..])) % p
  }

  lemma {:induction false} LimbsAre(p: int, digests: seq<Hash32>)
    requires p > 1
    ensures AreLimbs(p, digests, Limbs(p, digests))
  {
    if digests == [] {
    } else {
      LimbsAre(p, digests[1..]);
      LittleEndianPlaces(digests[0][..16]);
      LittleEndianPlaces(digests[0][16..]);
      var rest := Limbs(p, digests[1..]);
      forall i | 1 <= i < |digests|
        ensures Limbs(p, digests)[2 * i] == rest[2 * (i - 1)]
        ensures Limbs(p, digests)[2 * i + 1] == rest[2 * (i - 1) + 1]
      {
      }
    }
  }

  /** The bytes of the hash count up, first byte least, to the root over the limbs of the digests. */
  lemma HashDigestsExactly(k: Compression, domain: u64, digests: seq<Hash32>) returns (fields: seq<Element>)
    requires Ranged(k) && k.p <= Pow(256, 32)
    ensures AreLimbs(k.p, digests, fields)
    ensures IsFieldsHash(k, domain, fields, Sum(PlaceTerms(HashDigests(k, domain, digests))))
  {
    fields := Limbs(k.p, digests);
    LimbsAre(k.p, digests);
    var root := FieldsRoot(k, domain, fields);
    FieldsRootIs(k, domain, fields);
    ToBytesValue(root, 32);
    ModSmall(root, Pow(256, 32));
    LittleEndianPlaces(ToBytes(root, 32));
  }

  ghost function DigestTriples(k: Compression, domain: u64, digests: seq<Hash32>): set<State>
    requires k.p > 1
  {
    Triples(k, domain, MerkleLeaves(k.p, domain, Limbs(k.p, digests)), 0)
  }

  /** Hashing is injective on digest lists of every length a machine can hold, for one domain,
      as long as the compressions evaluated for the two lists do not collide. */
  lemma HashDigestsInjective(k: Compression, domain: u64, xs: seq<Hash32>, ys: seq<Hash32>)
    requires Ranged(k) && Pow(256, 16) <= k.p <= Pow(256, 32)
    requires |xs| <= U64_MAX && |ys| <= U64_MAX
    requires HashDigests(k, domain, xs) == HashDigests(k, domain, ys)
    requires CollisionFree(k, DigestTriples(k, domain, xs) + DigestTriples(k, domain, ys))
    ensures xs == ys
  {
    var f, g := Limbs(k.p, xs), Limbs(k.p, ys);
    ToBytesInjective(FieldsRoot(k, domain, f), FieldsRoot(k, domain, g), 32);
    SixteenBytes();
    FieldsInjective(k, domain, f, g);
    LimbsInjective(k.p, xs, ys);
  }

  lemma EqualTagsEqualDomains(p: int, c: u64, d: u64, depth: nat)
    requires p > U64_MAX + 1 && Tag(p, c, depth) == Tag(p, d, depth)
    ensures c == d
  {
    var x := depth % p;
    ModSmall(c, p);
    ModSmall(d, p);
    ModEqual(c + x, d + x, p);
    assert c + x - (d + x) == c - d;
    if c >= d {
      ModSmall(c - d, p);
    } else {
      ModEqual(0, c - d, p);
      ModSmall(d - c, p);
    }
  }

  /** For lists of equal length the hash determines the domain as well. */
  lemma HashDigestsSeparateDomains(k: Compression, c: u64, d: u64, xs: seq<Hash32>, ys: seq<Hash32>)
    requires Ranged(k) && Pow(256, 16) <= k.p <= Pow(256, 32)
    requires |xs| == |ys| <= U64_MAX && HashDigests(k, c, xs) == HashDigests(k, d, ys)
    requires CollisionFree(k, DigestTriples(k, c, xs) + DigestTriples(k, d, ys))
    ensures c == d && xs == ys
  {
    var a, b := MerkleLeaves(k.p, c, Limbs(k.p, xs)), MerkleLeaves(k.p, d, Limbs(k.p, ys));
    SixteenBytes();
    ToBytesInjective(FieldsRoot(k, c, Limbs(k.p, xs)), FieldsRoot(k, d, Limbs(k.p, ys)), 32);
    LastTagsMeet(k, c, d, a, b);
    EqualTagsEqualDomains(k.p, c, d, Height(|a|) - 1);
    HashDigestsInjective(k, c, xs, ys);
  }

  lemma SixteenBytes()
    ensures Pow(256, 16) > 8 * (U64_MAX + 1)
  {
    PowAdd(256, 8, 8);
    PowMul(256, 2, 4);
    PowMul(256, 1, 2);
    assert Pow(256, 1) == 256 * Pow(256, 0);
    assert Pow(256, 2) == 65536 by { PowAdd(256, 1, 1); }
    assert Pow(256, 4) == 65536 * 65536 by { PowAdd(256, 2, 2); }
    assert Pow(256, 8) == 0x1_0000_0000 * 0x1_0000_0000 by { PowAdd(256, 4, 4); }
  }
}
