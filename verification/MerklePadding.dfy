/** Which leaf lists share a gateway root: exactly those with one padded form. */
module MerklePadding {
  import opened Integers
  import opened NumberTheory
  import opened Bytes
  import opened Types
  import opened Commitment

  // ------------------------------------------------------------------ the padded form

  /** One pass over blocks of leaves: neighbours are joined and an odd last block is doubled. */
  function NextBlocks<T>(blocks: seq<seq<T>>): (next: seq<seq<T>>)
    ensures |next| == (|blocks| + 1) / 2
  {
    if blocks == [] then []
    else if |blocks| == 1 then [blocks[0] + blocks[0]]
    else [blocks[0] + blocks[1]] + NextBlocks(blocks[2..])
  }

  function Fill<T>(blocks: seq<seq<T>>): seq<T>
    requires blocks != []
    decreases |blocks|
  {
    if |blocks| == 1 then blocks[0] else Fill(NextBlocks(blocks))
  }

  function Singles<T>(xs: seq<T>): seq<seq<T>> {
    seq(|xs|, i requires 0 <= i < |xs| => [xs[i]])
  }

  /** The list with its odd tails doubled until its length is a power of two. */
  function Padded<T>(xs: seq<T>): seq<T> {
    if xs == [] then [] else Fill(Singles(xs))
  }

  ghost predicate Even<T>(blocks: seq<seq<T>>, width: nat) {
    width > 0 && forall i | 0 <= i < |blocks| :: |blocks[i]| == width
  }

  lemma {:induction false} NextEven<T>(blocks: seq<seq<T>>, width: nat)
    requires Even(blocks, width)
    ensures Even(NextBlocks(blocks), 2 * width)
  {
    if |blocks| <= 1 {
    } else {
      NextEven(blocks[2..], width);
    }
  }

  lemma Regroup(width: nat, half: nat)
    ensures (2 * width) * half == width * (2 * half)
  {
  }

  lemma {:induction false} FillLength<T>(blocks: seq<seq<T>>, width: nat) returns (count: nat)
    requires Even(blocks, width) && blocks != []
    ensures |Fill(blocks)| == width * count && PowerOfTwo(count) && |blocks| <= count < 2 * |blocks|
    decreases |blocks|
  {
    if |blocks| == 1 {
      count := 1;
    } else {
      NextEven(blocks, width);
      var half := FillLength(NextBlocks(blocks), 2 * width);
      count := 2 * half;
      assert count / 2 == half && count % 2 == 0;
      Regroup(width, half);
    }
  }

  function Joined<T>(blocks: seq<seq<T>>): seq<T> {
    if blocks == [] then [] else blocks[0] + Joined(blocks[1..])
  }

  lemma {:induction false} NextJoined<T>(blocks: seq<seq<T>>)
    ensures Joined(blocks) <= Joined(NextBlocks(blocks))
  {
    if |blocks| == 1 {
      assert Joined(blocks) == blocks[0] + Joined([]);
      assert Joined(NextBlocks(blocks)) == (blocks[0] + blocks[0]) + Joined([]);
    } else if |blocks| > 1 {
      NextJoined(blocks[2..]);
      assert blocks[1..][1..] == blocks[2..];
      assert Joined(blocks) == blocks[0] + (blocks[1] + Joined(blocks[2..]));
      assert NextBlocks(blocks)[1..] == NextBlocks(blocks[2..]);
    }
  }

  lemma {:induction false} FillJoined<T>(blocks: seq<seq<T>>)
    requires blocks != []
    ensures Joined(blocks) <= Fill(blocks)
    decreases |blocks|
  {
    if |blocks| == 1 {
      assert Joined(blocks) == blocks[0] + Joined([]);
    } else {
      NextJoined(blocks);
      FillJoined(NextBlocks(blocks));
    }
  }

  lemma {:induction false} JoinedSingles<T>(xs: seq<T>)
    ensures Joined(Singles(xs)) == xs
  {
    if xs == [] {
    } else {
      assert Singles(xs)[1..] == Singles(xs[1..]);
      JoinedSingles(xs[1..]);
    }
  }

  /** The padded form extends the list to the least power of two. */
  lemma PaddedExtends<T>(xs: seq<T>)
    ensures xs <= Padded(xs)
    ensures xs != [] ==> PowerOfTwo(|Padded(xs)|) && |Padded(xs)| < 2 * |xs|
  {
    if xs != [] {
      JoinedSingles(xs);
      FillJoined(Singles(xs));
      var count := FillLength(Singles(xs), 1);
    }
  }

  // -------------------------------------------------------------------- halving trees

  function TreeRoot(h: Hasher, block: seq<GatewayLeaf>): Hash32
    requires block != []
    decreases |block|
  {
    if |block| == 1 then h.LeafHash(block[0])
    else h.NodeHash(TreeRoot(h, block[..|block| / 2]), TreeRoot(h, block[|block| / 2..]))
  }

  ghost function TreeInputs(h: Hasher, block: seq<GatewayLeaf>): set<seq<u8>>
    requires block != []
    decreases |block|
  {
    if |block| == 1 then {h.LeafInput(block[0])}
    else {h.NodeInput(TreeRoot(h, block[..|block| / 2]), TreeRoot(h, block[|block| / 2..]))}
         + TreeInputs(h, block[..|block| / 2]) + TreeInputs(h, block[|block| / 2..])
  }

  function Roots(h: Hasher, blocks: seq<seq<GatewayLeaf>>): seq<Hash32>
    requires forall i | 0 <= i < |blocks| :: blocks[i] != []
  {
    seq(|blocks|, i requires 0 <= i < |blocks| => TreeRoot(h, blocks[i]))
  }

  lemma JoinTree(h: Hasher, a: seq<GatewayLeaf>, b: seq<GatewayLeaf>)
    requires |a| == |b| > 0
    ensures TreeRoot(h, a + b) == h.NodeHash(TreeRoot(h, a), TreeRoot(h, b))
    ensures TreeInputs(h, a + b)
            == {h.NodeInput(TreeRoot(h, a), TreeRoot(h, b))} + TreeInputs(h, a) + TreeInputs(h, b)
  {
  }

  ghost function BlockInputs(h: Hasher, blocks: seq<seq<GatewayLeaf>>): set<seq<u8>>
    requires forall i | 0 <= i < |blocks| :: blocks[i] != []
  {
    set i, x | 0 <= i < |blocks| && x in TreeInputs(h, blocks[i]) :: x
  }

  lemma {:induction false} NextBlocksPair<T>(blocks: seq<seq<T>>, k: nat)
    requires 2 * k < |blocks|
    ensures NextBlocks(blocks)[k] == blocks[2 * k] + blocks[Partner(|blocks|, k)]
  {
    if k == 0 {
    } else {
      NextBlocksPair(blocks[2..], k - 1);
    }
  }

  /** The node that node 2k is paired with. */
  function Partner(count: nat, k: nat): nat
    requires 2 * k < count
  {
    if 2 * k + 1 < count then 2 * k + 1 else 2 * k
  }

  lemma {:induction false} PassInputAt(h: Hasher, level: seq<Hash32>, k: nat)
    requires 2 * k < |level|
    ensures h.NodeInput(level[2 * k], level[Partner(|level|, k)]) in PassInputs(h, level)
  {
    if k == 0 {
    } else {
      PassInputAt(h, level[2..], k - 1);
    }
  }

  lemma PairTree(h: Hasher, blocks: seq<seq<GatewayLeaf>>, width: nat, k: nat)
    requires Even(blocks, width) && 2 * k < |blocks|
    ensures NextBlocks(blocks)[k] != []
    ensures NextLevel(h, Roots(h, blocks))[k] == TreeRoot(h, NextBlocks(blocks)[k])
    ensures TreeInputs(h, NextBlocks(blocks)[k]) <= BlockInputs(h, blocks) + PassInputs(h, Roots(h, blocks))
  {
    NextBlocksPair(blocks, k);
    NextLevelPair(h, Roots(h, blocks), k);
    PassInputAt(h, Roots(h, blocks), k);
    JoinTree(h, blocks[2 * k], blocks[Partner(|blocks|, k)]);
  }

  /** One pass of the level loop is one pass over the blocks. */
  lemma NextRoots(h: Hasher, blocks: seq<seq<GatewayLeaf>>, width: nat)
    requires Even(blocks, width) && Even(NextBlocks(blocks), 2 * width)
    ensures NextLevel(h, Roots(h, blocks)) == Roots(h, NextBlocks(blocks))
    ensures BlockInputs(h, NextBlocks(blocks)) <= BlockInputs(h, blocks) + PassInputs(h, Roots(h, blocks))
  {
    forall k | 0 <= k < |NextBlocks(blocks)|
      ensures NextLevel(h, Roots(h, blocks))[k] == TreeRoot(h, NextBlocks(blocks)[k])
      ensures TreeInputs(h, NextBlocks(blocks)[k]) <= BlockInputs(h, blocks) + PassInputs(h, Roots(h, blocks))
    {
      PairTree(h, blocks, width, k);
    }
  }

  lemma {:induction false} LevelIsTree(h: Hasher, blocks: seq<seq<GatewayLeaf>>, width: nat)
    requires Even(blocks, width) && blocks != []
    ensures Fill(blocks) != [] && RootOfLevel(h, Roots(h, blocks)) == TreeRoot(h, Fill(blocks))
    ensures TreeInputs(h, Fill(blocks)) <= BlockInputs(h, blocks) + LevelInputs(h, Roots(h, blocks))
    decreases |blocks|
  {
    if |blocks| > 1 {
      NextEven(blocks, width);
      NextRoots(h, blocks, width);
      LevelIsTree(h, NextBlocks(blocks), 2 * width);
    } else {
      assert Roots(h, blocks) == [TreeRoot(h, blocks[0])];
    }
  }

  lemma SingleInputs(h: Hasher, xs: seq<GatewayLeaf>)
    ensures BlockInputs(h, Singles(xs)) <= LeafInputs(h, xs)
  {
  }

  /** The root of a list is the root of the halving tree over its padded form. */
  lemma RootIsPaddedTree(h: Hasher, xs: seq<GatewayLeaf>)
    requires xs != []
    ensures Padded(xs) != [] && MerkleRoot(h, xs) == TreeRoot(h, Padded(xs))
    ensures TreeInputs(h, Padded(xs)) <= RootInputs(h, xs)
  {
    LevelIsTree(h, Singles(xs), 1);
    SingleInputs(h, xs);
    assert Roots(h, Singles(xs)) == LeafLevel(h, xs);
  }

  /** The root of a halving tree, down to the bytes that are hashed. */
  ghost predicate IsTreeRoot(h: Hasher, block: seq<GatewayLeaf>, root: Hash32)
    requires block != []
    decreases |block|
  {
    if |block| == 1 then IsHashOf(h, "pocomp/gateway-leaf/v1", h.leafBytes(block[0]), root)
    else
      exists l: Hash32, r: Hash32 ::
        && IsTreeRoot(h, block[..|block| / 2], l) && IsTreeRoot(h, block[|block| / 2..], r)
        && IsHashOf(h, "pocomp/merkle-node/v1", Children(l, r), root)
  }

  ghost predicate IsHashOf(h: Hasher, domain: string, payload: seq<u8>, hash: Hash32) {
    exists input :: IsFrame(input, domain, payload) && hash == h.sha256(input)
  }

  ghost function Children(left: Hash32, right: Hash32): seq<u8> {
    left + right
  }

  lemma EmptyRootIs(h: Hasher)
    ensures IsHashOf(h, "pocomp/merkle-empty/v1", [], h.EmptyRoot())
  {
    DomainsShort();
    FrameIs("pocomp/merkle-empty/v1", []);
  }

  lemma HashesAre(h: Hasher, leaf: GatewayLeaf, left: Hash32, right: Hash32)
    ensures IsHashOf(h, "pocomp/gateway-leaf/v1", h.leafBytes(leaf), h.LeafHash(leaf))
    ensures IsHashOf(h, "pocomp/merkle-node/v1", Children(left, right), h.NodeHash(left, right))
  {
    DomainsShort();
    FrameIs("pocomp/gateway-leaf/v1", h.leafBytes(leaf));
    FrameIs("pocomp/merkle-node/v1", Children(left, right));
  }

  lemma {:induction false} TreeRootIs(h: Hasher, block: seq<GatewayLeaf>)
    requires block != []
    ensures IsTreeRoot(h, block, TreeRoot(h, block))
    decreases |block|
  {
    if |block| == 1 {
      HashesAre(h, block[0], ZERO_HASH, ZERO_HASH);
    } else {
      var l, r := block[..|block| / 2], block[|block| / 2..];
      TreeRootIs(h, l);
      TreeRootIs(h, r);
      HashesAre(h, block[0], TreeRoot(h, l), TreeRoot(h, r));
    }
  }

  /** The gateway root, down to its bytes: the halving tree over the padded list, children left and right. */
  lemma RootIsFramedTree(h: Hasher, xs: seq<GatewayLeaf>)
    ensures xs != [] ==> Padded(xs) != [] && IsTreeRoot(h, Padded(xs), MerkleRoot(h, xs))
    ensures xs == [] ==> IsHashOf(h, "pocomp/merkle-empty/v1", [], MerkleRoot(h, xs))
  {
    if xs == [] {
      EmptyRootIs(h);
    } else {
      RootIsPaddedTree(h, xs);
      TreeRootIs(h, Padded(xs));
    }
  }

  // ---------------------------------------------------------------------- injectivity

  /** Inputs made for different purposes differ. */
  lemma DomainsApart(h: Hasher, leaf: GatewayLeaf, a: Hash32, b: Hash32)
    ensures h.LeafInput(leaf) != h.NodeInput(a, b)
    ensures h.LeafInput(leaf) != h.EmptyInput() && h.NodeInput(a, b) != h.EmptyInput()
  {
    DomainsShort();
    if h.LeafInput(leaf) == h.NodeInput(a, b) { FrameInjective(LEAF_DOMAIN, h.leafBytes(leaf), NODE_DOMAIN, a + b); }
    if h.LeafInput(leaf) == h.EmptyInput() { FrameInjective(LEAF_DOMAIN, h.leafBytes(leaf), EMPTY_ROOT_DOMAIN, []); }
    if h.NodeInput(a, b) == h.EmptyInput() { FrameInjective(NODE_DOMAIN, a + b, EMPTY_ROOT_DOMAIN, []); }
  }

  lemma SameLeaf(h: Hasher, a: GatewayLeaf, b: GatewayLeaf)
    requires h.LeafInput(a) == h.LeafInput(b)
    ensures h.leafBytes(a) == h.leafBytes(b)
  {
    DomainsShort();
    FrameInjective(LEAF_DOMAIN, h.leafBytes(a), LEAF_DOMAIN, h.leafBytes(b));
  }

  ghost predicate Within<T(!new)>(xs: seq<T>, ys: seq<T>) {
    forall x | x in xs :: x in ys
  }

  /** The two halves of a block, and what is hashed to join them. */
  lemma Halves(h: Hasher, block: seq<GatewayLeaf>) returns (l: seq<GatewayLeaf>, r: seq<GatewayLeaf>)
    requires |block| > 1
    ensures l != [] && r != [] && |l| < |block| && |r| < |block| && block == l + r
    ensures TreeRoot(h, block) == h.sha256(h.NodeInput(TreeRoot(h, l), TreeRoot(h, r)))
    ensures h.NodeInput(TreeRoot(h, l), TreeRoot(h, r)) in TreeInputs(h, block)
    ensures TreeInputs(h, l) <= TreeInputs(h, block) && TreeInputs(h, r) <= TreeInputs(h, block)
    ensures Within(l, block) && Within(r, block)
  {
    l, r := block[..|block| / 2], block[|block| / 2..];
  }

  /** Equal roots of halving trees come from equal blocks, whatever their lengths. */
  lemma {:induction false} TreeInjective(h: Hasher, a: seq<GatewayLeaf>, b: seq<GatewayLeaf>,
                                         inputs: set<seq<u8>>, leaves: seq<GatewayLeaf>)
    requires a != [] && b != [] && TreeRoot(h, a) == TreeRoot(h, b)
    requires CollisionFree(h.sha256, inputs) && TreeInputs(h, a) <= inputs && TreeInputs(h, b) <= inputs
    requires CanonicalOn(h, leaves) && Within(a, leaves) && Within(b, leaves)
    ensures a == b
    decreases |a|
  {
    if |a| == 1 && |b| == 1 {
      SameLeaf(h, a[0], b[0]);
      assert a[0] in leaves && b[0] in leaves;
    } else if |a| == 1 {
      var l, r := Halves(h, b);
      DomainsApart(h, a[0], TreeRoot(h, l), TreeRoot(h, r));
      assert false;
    } else if |b| == 1 {
      var l, r := Halves(h, a);
      DomainsApart(h, b[0], TreeRoot(h, l), TreeRoot(h, r));
      assert false;
    } else {
      var l, r := Halves(h, a);
      var l', r' := Halves(h, b);
      NodeInputInjective(h, TreeRoot(h, l), TreeRoot(h, r), TreeRoot(h, l'), TreeRoot(h, r'));
      TreeInjective(h, l, l', inputs, leaves);
      TreeInjective(h, r, r', inputs, leaves);
    }
  }

  lemma {:induction false} NextWithin<T(!new)>(blocks: seq<seq<T>>, ys: seq<T>)
    requires forall i | 0 <= i < |blocks| :: Within(blocks[i], ys)
    ensures forall i | 0 <= i < (|blocks| + 1) / 2 :: Within(NextBlocks(blocks)[i], ys)
  {
    if |blocks| <= 1 {
    } else {
      NextWithin(blocks[2..], ys);
    }
  }

  lemma {:induction false} FillWithin<T(!new)>(blocks: seq<seq<T>>, ys: seq<T>)
    requires blocks != [] && forall i | 0 <= i < |blocks| :: Within(blocks[i], ys)
    ensures Within(Fill(blocks), ys)
    decreases |blocks|
  {
    if |blocks| <= 1 {
    } else {
      NextWithin(blocks, ys);
      FillWithin(NextBlocks(blocks), ys);
    }
  }

  lemma PaddedWithin<T(!new)>(xs: seq<T>)
    ensures Within(Padded(xs), xs)
  {
    if xs != [] {
      FillWithin(Singles(xs), xs);
    }
  }

  lemma EmptyApart(h: Hasher, xs: seq<GatewayLeaf>)
    requires xs != [] && CollisionFree(h.sha256, RootInputs(h, xs) + RootInputs(h, []))
    ensures MerkleRoot(h, xs) != MerkleRoot(h, [])
  {
    RootIsPaddedTree(h, xs);
    var block := Padded(xs);
    DomainsApart(h, block[0], h.EmptyRoot(), h.EmptyRoot());
    if |block| > 1 {
      DomainsApart(h, block[0], TreeRoot(h, block[..|block| / 2]), TreeRoot(h, block[|block| / 2..]));
    }
    assert h.EmptyInput() in RootInputs(h, []);
  }

  /** Two lists have one root exactly when their padded forms agree. */
  lemma SameRootExactly(h: Hasher, xs: seq<GatewayLeaf>, ys: seq<GatewayLeaf>)
    requires CollisionFree(h.sha256, RootInputs(h, xs) + RootInputs(h, ys)) && CanonicalOn(h, xs + ys)
    ensures MerkleRoot(h, xs) == MerkleRoot(h, ys) <==> Padded(xs) == Padded(ys)
  {
    PaddedExtends(xs);
    PaddedExtends(ys);
    if xs != [] && ys != [] {
      RootIsPaddedTree(h, xs);
      RootIsPaddedTree(h, ys);
      PaddedWithin(xs);
      PaddedWithin(ys);
      if MerkleRoot(h, xs) == MerkleRoot(h, ys) {
        TreeInjective(h, Padded(xs), Padded(ys), RootInputs(h, xs) + RootInputs(h, ys), xs + ys);
      }
    } else if xs != [] {
      EmptyApart(h, xs);
    } else if ys != [] {
      EmptyApart(h, ys);
    }
  }

  /** So a root alone fixes the ledger up to a doubled tail: one list begins the other. */
  lemma SameRootPrefix(h: Hasher, xs: seq<GatewayLeaf>, ys: seq<GatewayLeaf>)
    requires |xs| <= |ys| && MerkleRoot(h, xs) == MerkleRoot(h, ys)
    requires CollisionFree(h.sha256, RootInputs(h, xs) + RootInputs(h, ys)) && CanonicalOn(h, xs + ys)
    ensures xs <= ys
  {
    SameRootExactly(h, xs, ys);
    PaddedExtends(xs);
    PaddedExtends(ys);
  }

  /** And with the leaf count it fixes the ledger. */
  lemma RootDeterminesLeaves(h: Hasher, xs: seq<GatewayLeaf>, ys: seq<GatewayLeaf>)
    requires |xs| == |ys| && MerkleRoot(h, xs) == MerkleRoot(h, ys)
    requires CollisionFree(h.sha256, RootInputs(h, xs) + RootInputs(h, ys)) && CanonicalOn(h, xs + ys)
    ensures xs == ys
  {
    SameRootPrefix(h, xs, ys);
  }

  ghost predicate Numbered(leaves: seq<GatewayLeaf>) {
    forall k | 0 <= k < |leaves| :: leaves[k].descriptor.sequence == k
  }

  /** So do the sequence numbers: numbered lists with one root are one list, whatever their lengths. */
  lemma RootDeterminesNumbered(h: Hasher, xs: seq<GatewayLeaf>, ys: seq<GatewayLeaf>)
    requires Numbered(xs) && Numbered(ys) && MerkleRoot(h, xs) == MerkleRoot(h, ys)
    requires CollisionFree(h.sha256, RootInputs(h, xs) + RootInputs(h, ys)) && CanonicalOn(h, xs + ys)
    ensures xs == ys
  {
    SameRootExactly(h, xs, ys);
    if |xs| <= |ys| {
      SameRootPrefix(h, xs, ys);
      NumberedExtension(xs, ys);
    } else {
      SameRootPrefix(h, ys, xs);
      NumberedExtension(ys, xs);
    }
  }

  lemma NumberedExtension(xs: seq<GatewayLeaf>, ys: seq<GatewayLeaf>)
    requires Numbered(ys) && xs <= ys && Padded(xs) == Padded(ys)
    ensures xs == ys
  {
    PaddedExtends(ys);
    PaddedWithin(xs);
    if ys != [] {
      var n := |ys| - 1;
      assert ys[n] == Padded(ys)[n] == Padded(xs)[n];
      assert ys[n] in Padded(xs);
      var k :| 0 <= k < |xs| && xs[k] == ys[n];
      assert ys[k] == ys[n];
    }
  }

  /** With neither the root does not: the odd last node is paired with itself. */
  lemma OddLeafDuplicates(h: Hasher, a: GatewayLeaf, b: GatewayLeaf, c: GatewayLeaf)
    ensures MerkleRoot(h, [a, b, c]) == MerkleRoot(h, [a, b, c, c])
  {
    var x, y, z := h.LeafHash(a), h.LeafHash(b), h.LeafHash(c);
    assert LeafLevel(h, [a, b, c]) == [x, y, z] && LeafLevel(h, [a, b, c, c]) == [x, y, z, z];
    assert [x, y, z][2..] == [z] && [x, y, z, z][2..] == [z, z];
    assert [z, z][2..] == [];
    assert NextLevel(h, [z, z]) == [h.NodeHash(z, z)];
    assert NextLevel(h, [x, y, z]) == NextLevel(h, [x, y, z, z]);
  }
}
