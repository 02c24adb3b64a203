/** Domain-framed hashing and the gateway Merkle root. */
module Commitment {
  import opened Integers
  import opened NumberTheory
  import opened Bytes
  import opened Types

  // ------------------------------------------------------------------ domain framing

  const HASH_DOMAIN := Ascii("pocomp/hash/v1")
  const LEAF_DOMAIN := Ascii("pocomp/gateway-leaf/v1")
  const NODE_DOMAIN := Ascii("pocomp/merkle-node/v1")
  const EMPTY_ROOT_DOMAIN := Ascii("pocomp/merkle-empty/v1")

  /** What `domain_hash` feeds to SHA-256. */
  function Frame(domain: seq<u8>, payload: seq<u8>): seq<u8> {
    HASH_DOMAIN + BigEndian(|domain|, 8) + domain + BigEndian(|payload|, 8) + payload
  }

  /** The framing loses nothing: domains separate, and within a domain payloads do. */
  lemma FrameInjective(d1: seq<u8>, p1: seq<u8>, d2: seq<u8>, p2: seq<u8>)
    requires |d1| < Pow(256, 8) && |d2| < Pow(256, 8) && Frame(d1, p1) == Frame(d2, p2)
    ensures d1 == d2 && p1 == p2
  {
    var h := |HASH_DOMAIN|;
    FrameParts(d1, p1);
    FrameParts(d2, p2);
    BigEndianInjective(|d1|, |d2|, 8);
  }

  lemma FrameParts(d: seq<u8>, p: seq<u8>)
    ensures var f, h := Frame(d, p), |HASH_DOMAIN|;
            |f| >= h + 16 + |d| && f[h..h + 8] == BigEndian(|d|, 8)
            && f[h + 8..h + 8 + |d|] == d && f[h + 16 + |d|..] == p
  {
  }

  /** The bytes of a frame, part by part: prefix, length and name of the domain, length of the payload, payload. */
  ghost predicate IsFrame(input: seq<u8>, domain: string, payload: seq<u8>) {
    var d := |domain|;
    && |input| == 30 + d + |payload| && input[..14] == Ascii("pocomp/hash/v1")
    && ValueOf(input[14..22]) == d && input[22..22 + d] == Ascii(domain)
    && (|payload| < Pow(256, 8) ==> ValueOf(input[22 + d..30 + d]) == |payload|)
    && input[30 + d..] == payload
  }

  lemma FrameIs(domain: string, payload: seq<u8>)
    requires |domain| < Pow(256, 8)
    ensures IsFrame(Frame(Ascii(domain), payload), domain, payload)
  {
    var input, d := Frame(Ascii(domain), payload), |domain|;
    BigEndianValue(d, 8);
    BigEndianValue(|payload|, 8);
    ModSmall(d, Pow(256, 8));
    if |payload| < Pow(256, 8) { ModSmall(|payload|, Pow(256, 8)); }
    assert input[14..22] == BigEndian(d, 8) && input[22 + d..30 + d] == BigEndian(|payload|, 8);
  }

  // ---------------------------------------------------------------------- the hasher

  /** SHA-256 and the canonical leaf encoding, both left uninterpreted. */
  datatype Hasher = Hasher(sha256: seq<u8> -> Hash32, leafBytes: GatewayLeaf -> seq<u8>)
  {
    function LeafInput(leaf: GatewayLeaf): seq<u8> {
      Frame(LEAF_DOMAIN, leafBytes(leaf))
    }

    function NodeInput(left: Hash32, right: Hash32): seq<u8> {
      Frame(NODE_DOMAIN, left + right)
    }

    function LeafHash(leaf: GatewayLeaf): Hash32 {
      sha256(LeafInput(leaf))
    }

    function NodeHash(left: Hash32, right: Hash32): Hash32 {
      sha256(NodeInput(left, right))
    }

    function EmptyInput(): seq<u8> {
      Frame(EMPTY_ROOT_DOMAIN, [])
    }

    function EmptyRoot(): Hash32 {
      sha256(EmptyInput())
    }
  }

  lemma NodeInputInjective(h: Hasher, a: Hash32, b: Hash32, c: Hash32, d: Hash32)
    requires h.NodeInput(a, b) == h.NodeInput(c, d)
    ensures a == c && b == d
  {
    DomainsShort();
    FrameInjective(NODE_DOMAIN, a + b, NODE_DOMAIN, c + d);
    assert (a + b)[..32] == a && (c + d)[..32] == c && (a + b)[32..] == b && (c + d)[32..] == d;
  }

  lemma DomainsShort()
    ensures |NODE_DOMAIN| < Pow(256, 8) && |LEAF_DOMAIN| < Pow(256, 8) && |EMPTY_ROOT_DOMAIN| < Pow(256, 8)
    ensures NODE_DOMAIN != LEAF_DOMAIN && NODE_DOMAIN != EMPTY_ROOT_DOMAIN && LEAF_DOMAIN != EMPTY_ROOT_DOMAIN
  {
    PowAdd(256, 1, 7);
    PowPositive(7);
    assert Pow(256, 1) == 256 * Pow(256, 0);
    assert |NODE_DOMAIN| == 21 && |LEAF_DOMAIN| == |EMPTY_ROOT_DOMAIN| == 22;
    assert LEAF_DOMAIN[7] == 'g' as int && EMPTY_ROOT_DOMAIN[7] == 'm' as int;
    MulLe(1, Pow(256, 7), 256);
  }

  // ------------------------------------------------------------------- the level loop

  /** One pass of the loop: pairs in order, an odd last node paired with itself. */
  function NextLevel(h: Hasher, level: seq<Hash32>): (next: seq<Hash32>)
    ensures |next| == (|level| + 1) / 2
  {
    if level == [] then []
    else if |level| == 1 then [h.NodeHash(level[0], level[0])]
    else [h.NodeHash(level[0], level[1])] + NextLevel(h, level[2..])
  }

  function RootOfLevel(h: Hasher, level: seq<Hash32>): Hash32
    requires level != []
    decreases |level|
  {
    if |level| == 1 then level[0] else RootOfLevel(h, NextLevel(h, level))
  }

  function LeafLevel(h: Hasher, leaves: seq<GatewayLeaf>): seq<Hash32> {
    seq(|leaves|, i requires 0 <= i < |leaves| => h.LeafHash(leaves[i]))
  }

  function MerkleRoot(h: Hasher, leaves: seq<GatewayLeaf>): Hash32 {
    if leaves == [] then h.EmptyRoot() else RootOfLevel(h, LeafLevel(h, leaves))
  }

  lemma NextLevelPair(h: Hasher, level: seq<Hash32>, k: nat)
    requires 2 * k < |level|
    ensures NextLevel(h, level)[k]
            == h.NodeHash(level[2 * k], if 2 * k + 1 < |level| then level[2 * k + 1] else level[2 * k])
  {
    if k > 0 {
      NextLevelPair(h, level[2..], k - 1);
    }
  }

  /** `gateway_root`: the while loop with its inner push loop. */
  method ComputeGatewayRoot(h: Hasher, leaves: seq<GatewayLeaf>) returns (root: Hash32)
    ensures root == MerkleRoot(h, leaves)
  {
    if leaves == [] {
      return h.EmptyRoot();
    }
    var level := LeafLevel(h, leaves);
    while |level| > 1
      invariant level != [] && RootOfLevel(h, level) == MerkleRoot(h, leaves)
      decreases |level|
    {
      var next: seq<Hash32> := [];
      var start := 0;
      while start < |level|
        invariant start == 2 * |next| || (start == |level| + 1 && start == 2 * |next|)
        invariant |next| <= (|level| + 1) / 2 && next == NextLevel(h, level)[..|next|]
        decreases |level| - start
      {
        NextLevelPair(h, level, |next|);
        var right := if start + 1 < |level| then level[start + 1] else level[start];
        next := next + [h.NodeHash(level[start], right)];
        start := start + 2;
      }
      assert next == NextLevel(h, level);
      level := next;
    }
    root := level[0];
  }

  // ------------------------------------------------------------------- collisions

  ghost predicate CollisionFree(sha256: seq<u8> -> Hash32, inputs: set<seq<u8>>) {
    forall a, b | a in inputs && b in inputs && sha256(a) == sha256(b) :: a == b
  }

  /** The inputs hashed in one pass of the loop. */
  ghost function PassInputs(h: Hasher, level: seq<Hash32>): set<seq<u8>> {
    if level == [] then {}
    else if |level| == 1 then {h.NodeInput(level[0], level[0])}
    else {h.NodeInput(level[0], level[1])} + PassInputs(h, level[2..])
  }

  ghost function LevelInputs(h: Hasher, level: seq<Hash32>): set<seq<u8>>
    decreases |level|
  {
    if |level| <= 1 then {} else PassInputs(h, level) + LevelInputs(h, NextLevel(h, level))
  }

  ghost function LeafInputs(h: Hasher, leaves: seq<GatewayLeaf>): set<seq<u8>> {
    set leaf | leaf in leaves :: h.LeafInput(leaf)
  }

  /** Everything SHA-256 is applied to while computing a root. */
  ghost function RootInputs(h: Hasher, leaves: seq<GatewayLeaf>): set<seq<u8>> {
    if leaves == [] then {h.EmptyInput()} else LeafInputs(h, leaves) + LevelInputs(h, LeafLevel(h, leaves))
  }

  /** Distinct leaves among these have distinct canonical encodings. */
  ghost predicate CanonicalOn(h: Hasher, leaves: seq<GatewayLeaf>) {
    forall a, b | a in leaves && b in leaves && h.leafBytes(a) == h.leafBytes(b) :: a == b
  }
}
