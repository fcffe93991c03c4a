/** CPartialMerkleTree as the source keeps it: vectors of bits and hashes filled and read by
    recursive traversals, and flag bits packed eight to a byte on the wire. */
module MerkleBlock {
  import opened Powers
  import opened MerkleTree
  import opened MerkleProof

  /** The byte with only bit k set. */
  function Bit(k: nat): bv8
    requires k < 8
  {
    if k == 0 then 0x01 else if k == 1 then 0x02 else if k == 2 then 0x04 else if k == 3 then 0x08
    else if k == 4 then 0x10 else if k == 5 then 0x20 else if k == 6 then 0x40 else 0x80
  }

  predicate BitAt(bytes: seq<bv8>, p: nat)
    requires p / 8 < |bytes|
  {
    bytes[p / 8] & Bit(p % 8) != 0
  }

  lemma SetBit(x: bv8, k: nat, j: nat)
    requires k < 8 && j < 8
    ensures (x | Bit(k)) & Bit(j) != 0 <==> j == k || x & Bit(j) != 0
  {
    assert Bit(k) & Bit(j) == (if j == k then Bit(j) else 0) && Bit(j) != 0 by {
      assert j == 0 || j == 1 || j == 2 || j == 3 || j == 4 || j == 5 || j == 6 || j == 7;
      assert k == 0 || k == 1 || k == 2 || k == 3 || k == 4 || k == 5 || k == 6 || k == 7;
    }
    assert (x | Bit(k)) & Bit(j) == (x & Bit(j)) | (Bit(k) & Bit(j));
  }

  /** Least significant bit first; the unused bits of the last byte are zero. */
  method PackBits(bits: seq<bool>) returns (bytes: seq<bv8>)
    ensures |bytes| == (|bits| + 7) / 8
    ensures forall p: nat :: p < 8 * |bytes| ==> BitAt(bytes, p) == (p < |bits| && bits[p])
  {
    bytes := seq((|bits| + 7) / 8, _ => 0);
    for p := 0 to |bits|
      invariant |bytes| == (|bits| + 7) / 8
      invariant forall q: nat :: q < 8 * |bytes| ==> BitAt(bytes, q) == (q < p && bits[q])
    {
      if bits[p] {
        ghost var before := bytes;
        bytes := bytes[p / 8 := bytes[p / 8] | Bit(p % 8)];
        forall q: nat | q < 8 * |bytes| ensures BitAt(bytes, q) == (q < p + 1 && bits[q]) {
          assert BitAt(before, q) == (q < p && bits[q]);
          if q / 8 == p / 8 {
            SetBit(before[p / 8], p % 8, q % 8);
            assert q % 8 == p % 8 <==> q == p;
          }
        }
      }
    }
  }

  method UnpackBits(bytes: seq<bv8>) returns (bits: seq<bool>)
    ensures |bits| == 8 * |bytes|
    ensures forall p: nat :: p < |bits| ==> bits[p] == BitAt(bytes, p)
  {
    bits := [];
    for p := 0 to 8 * |bytes|
      invariant |bits| == p
      invariant forall q: nat :: q < p ==> bits[q] == BitAt(bytes, q)
    {
      bits := bits + [bytes[p / 8] & Bit(p % 8) != 0];
    }
  }

  /** The loop that counts levels until the width is at most one. */
  method TreeHeight(n: nat) returns (nHeight: nat)
    requires 0 < n < UINT32_LIMIT
    ensures nHeight == HeightOf(n)
  {
    CalcTreeWidthAt31(n);
    nHeight := 0;
    while CalcTreeWidth(n, nHeight) > 1
      invariant nHeight <= 31 && HeightFrom(n, nHeight) == HeightFrom(n, 0)
      decreases 31 - nHeight
    {
      nHeight := nHeight + 1;
    }
  }

  lemma ConcatAssoc<T>(a: seq<T>, b: seq<T>, c: seq<T>)
    ensures a + b + c == a + (b + c)
  {
  }

  lemma ConcatFour<T>(a: seq<T>, b: seq<T>, c: seq<T>, d: seq<T>)
    ensures a + b + c + d == a + (b + c + d)
  {
    ConcatAssoc(a, b, c);
    ConcatAssoc(a, b + c, d);
  }

  lemma ConcatEmpty<T>(a: seq<T>)
    ensures a + [] == a && [] + a == a
  {
  }

  /** Appending a node's proof is appending its flag and then its children's proofs, one after the other. */
  lemma AppendedBuild<H>(hash: (H, H) -> H, txids: seq<H>, mask: seq<bool>, height: nat, pos: nat, bits: seq<bool>,
                         hashes: seq<H>)
    requires |mask| == |txids| && pos < Width(|txids|, height)
    ensures var b := Build(hash, txids, mask, height, pos);
            var flag := ParentOfMatch(|txids|, mask, height, pos);
            if height == 0 || !flag then
              bits + b.bits == bits + [flag] && hashes + b.hashes == hashes + [CalcHash(hash, txids, height, pos)]
            else
              var l := Build(hash, txids, mask, height - 1, pos * 2);
              if pos * 2 + 1 < Width(|txids|, height - 1) then
                var r := Build(hash, txids, mask, height - 1, pos * 2 + 1);
                && bits + b.bits == bits + [flag] + l.bits + r.bits
                && hashes + b.hashes == hashes + l.hashes + r.hashes
              else bits + b.bits == bits + [flag] + l.bits && hashes + b.hashes == hashes + l.hashes
  {
    BuildCases(hash, txids, mask, height, pos);
    if height > 0 && ParentOfMatch(|txids|, mask, height, pos) {
      hide *;
      ChildLeaves(|txids|, height, pos);
      var l := Build(hash, txids, mask, height - 1, 2 * pos);
      if 2 * pos + 1 < Width(|txids|, height - 1) {
        var r := Build(hash, txids, mask, height - 1, 2 * pos + 1);
        ConcatFour(bits, [true], l.bits, r.bits);
        ConcatAssoc(hashes, l.hashes, r.hashes);
      } else {
        ConcatFour(bits, [true], l.bits, []);
        ConcatEmpty(bits + [true] + l.bits);
        ConcatEmpty(l.hashes);
      }
    }
  }

  /** Appending what a node yields is appending what its children yield, one after the other. */
  lemma DescendedExtract<H>(hash: (H, H) -> H, nul: H, n: nat, bits: seq<bool>, hashes: seq<H>,
                            height: nat, pos: nat, nb: nat, nh: nat, ids: seq<H>, indices: seq<nat>)
    requires nb < |bits| && height > 0 && bits[nb]
    ensures var w := Extract(hash, nul, n, bits, hashes, height, pos, nb, nh);
            var l := Extract(hash, nul, n, bits, hashes, height - 1, pos * 2, nb + 1, nh);
            if pos * 2 + 1 < Width(n, height - 1) then
              var r := Extract(hash, nul, n, bits, hashes, height - 1, pos * 2 + 1, l.bits, l.hashes);
              && w.hash == hash(l.hash, r.hash) && w.bits == r.bits && w.hashes == r.hashes
              && w.bad == (l.bad || r.bad || r.hash == l.hash)
              && ids + w.ids == ids + l.ids + r.ids && indices + w.indices == indices + l.indices + r.indices
            else w == l.(hash := hash(l.hash, l.hash))
  {
    ExtractCases(hash, nul, n, bits, hashes, height, pos, nb, nh);
    hide *;
    var l := Extract(hash, nul, n, bits, hashes, height - 1, 2 * pos, nb + 1, nh);
    var r := Extract(hash, nul, n, bits, hashes, height - 1, 2 * pos + 1, l.bits, l.hashes);
    ConcatAssoc(ids, l.ids, r.ids);
    ConcatAssoc(indices, l.indices, r.indices);
  }

  lemma WidthsOfChildren(n: nat, height: nat)
    requires height > 0 && TrueWidthsBelow(n, height)
    ensures TrueWidthsBelow(n, height - 1) && CalcTreeWidth(n, height - 1) == Width(n, height - 1)
  {
  }

  class PartialMerkleTree<H(==)> {
    const hash: (H, H) -> H
    const nul: H
    var nTransactions: nat
    var vBits: seq<bool>
    var vHash: seq<H>
    var fBad: bool

    /** Build the proof for a list of ids and a mask over it. */
    constructor (hash: (H, H) -> H, nul: H, vTxid: seq<H>, vMatch: seq<bool>)
      requires 0 < |vTxid| < UINT32_LIMIT && |vMatch| == |vTxid|
      ensures this.hash == hash && this.nul == nul
      ensures nTransactions == |vTxid| && !fBad
      ensures Partial(vBits, vHash) == BuildRoot(hash, vTxid, vMatch)
    {
      this.hash := hash;
      this.nul := nul;
      nTransactions := |vTxid|;
      vBits := [];
      vHash := [];
      fBad := false;
      new;
      hide Build;
      var nHeight := TreeHeight(nTransactions);
      TraverseAndBuild(nHeight, 0, vTxid, vMatch);
      ConcatEmpty(BuildRoot(hash, vTxid, vMatch).bits);
      ConcatEmpty(BuildRoot(hash, vTxid, vMatch).hashes);
    }

    /** A proof received from the wire. */
    constructor FromWire(hash: (H, H) -> H, nul: H, nTransactions: nat, vHash: seq<H>, vBytes: seq<bv8>)
      requires nTransactions < UINT32_LIMIT
      ensures this.hash == hash && this.nul == nul
      ensures this.nTransactions == nTransactions && this.vHash == vHash && !fBad
      ensures |vBits| == 8 * |vBytes| && forall p: nat :: p < |vBits| ==> vBits[p] == BitAt(vBytes, p)
    {
      this.hash := hash;
      this.nul := nul;
      this.nTransactions := nTransactions;
      this.vHash := vHash;
      var bits := UnpackBits(vBytes);
      vBits := bits;
      fBad := false;
    }

    /** Scan the leaves under a node for a match. */
    method ScanForMatch(height: nat, pos: nat, vMatch: seq<bool>) returns (fParentOfMatch: bool)
      requires |vMatch| == nTransactions && pos < Width(nTransactions, height)
      ensures fParentOfMatch == ParentOfMatch(nTransactions, vMatch, height, pos)
    {
      Span(nTransactions, height, pos);
      MatchedInIsExact(vMatch, Lo(height, pos), Hi(nTransactions, height, pos));
      fParentOfMatch := false;
      var p := pos * Pow2(height);
      while p < (pos + 1) * Pow2(height) && p < nTransactions
        invariant Lo(height, pos) <= p <= Hi(nTransactions, height, pos)
        invariant fParentOfMatch <==> exists q :: Lo(height, pos) <= q < p && vMatch[q]
      {
        fParentOfMatch := fParentOfMatch || vMatch[p];
        p := p + 1;
      }
      ghost var m := Matched(nTransactions, vMatch, height, pos);
      assert m != [] ==> m[0] in m;
    }

    method TraverseAndBuild(height: nat, pos: nat, vTxid: seq<H>, vMatch: seq<bool>)
      requires 0 < |vTxid| == |vMatch| == nTransactions
      requires TrueWidthsBelow(nTransactions, height) && pos < Width(nTransactions, height)
      modifies this`vBits, this`vHash
      ensures var b := Build(hash, vTxid, vMatch, height, pos);
              vBits == old(vBits) + b.bits && vHash == old(vHash) + b.hashes
      decreases height
    {
      hide *;
      AppendedBuild(hash, vTxid, vMatch, height, pos, vBits, vHash);
      var fParentOfMatch := ScanForMatch(height, pos, vMatch);
      vBits := vBits + [fParentOfMatch];
      if height == 0 || !fParentOfMatch {
        vHash := vHash + [CalcHash(hash, vTxid, height, pos)];
      } else {
        ChildLeaves(nTransactions, height, pos);
        WidthsOfChildren(nTransactions, height);
        TraverseAndBuild(height - 1, pos * 2, vTxid, vMatch);
        if pos * 2 + 1 < CalcTreeWidth(nTransactions, height - 1) {
          TraverseAndBuild(height - 1, pos * 2 + 1, vTxid, vMatch);
        }
      }
    }

    method TraverseAndExtract(height: nat, pos: nat, nBitsUsed: nat, nHashUsed: nat, vMatch: seq<H>, vnIndex: seq<nat>)
      returns (node: H, nBitsUsed': nat, nHashUsed': nat, vMatch': seq<H>, vnIndex': seq<nat>)
      requires TrueWidthsBelow(nTransactions, height)
      modifies this`fBad
      ensures var w := Extract(hash, nul, nTransactions, vBits, vHash, height, pos, nBitsUsed, nHashUsed);
              && node == w.hash && nBitsUsed' == w.bits && nHashUsed' == w.hashes
              && vMatch' == vMatch + w.ids && vnIndex' == vnIndex + w.indices
              && fBad == (old(fBad) || w.bad)
      decreases height
    {
      hide *;
      ExtractCases(hash, nul, nTransactions, vBits, vHash, height, pos, nBitsUsed, nHashUsed);
      ConcatEmpty(vMatch);
      ConcatEmpty(vnIndex);
      node, nBitsUsed', nHashUsed', vMatch', vnIndex' := nul, nBitsUsed, nHashUsed, vMatch, vnIndex;
      if nBitsUsed' >= |vBits| {
        fBad := true;
        return;
      }
      var fParentOfMatch := vBits[nBitsUsed'];
      nBitsUsed' := nBitsUsed' + 1;
      if height == 0 || !fParentOfMatch {
        if nHashUsed' >= |vHash| {
          fBad := true;
          return;
        }
        node := vHash[nHashUsed'];
        nHashUsed' := nHashUsed' + 1;
        if height == 0 && fParentOfMatch {
          vMatch', vnIndex' := vMatch' + [node], vnIndex' + [pos];
        }
        return;
      }
      WidthsOfChildren(nTransactions, height);
      DescendedExtract(hash, nul, nTransactions, vBits, vHash, height, pos, nBitsUsed, nHashUsed, vMatch, vnIndex);
      var left;
      left, nBitsUsed', nHashUsed', vMatch', vnIndex' :=
        TraverseAndExtract(height - 1, pos * 2, nBitsUsed', nHashUsed', vMatch', vnIndex');
      var right := left;
      if pos * 2 + 1 < CalcTreeWidth(nTransactions, height - 1) {
        right, nBitsUsed', nHashUsed', vMatch', vnIndex' :=
          TraverseAndExtract(height - 1, pos * 2 + 1, nBitsUsed', nHashUsed', vMatch', vnIndex');
        if right == left {
          fBad := true;
        }
      }
      node := hash(left, right);
    }

    /** The root, or the null hash when a check fails. The id list starts afresh; the index list is
        only appended to, also when a check after the traversal fails. */
    method ExtractMatches(vnIndex: seq<nat>) returns (root: H, vMatch: seq<H>, vnIndex': seq<nat>)
      requires nTransactions < UINT32_LIMIT
      modifies this`fBad
      ensures Plausible(nTransactions, vBits, vHash) ==>
                var w := Reading(hash, nul, nTransactions, vBits, vHash);
                && root == (if Accepts(hash, nul, nTransactions, vBits, vHash) && !old(fBad) then w.hash else nul)
                && vMatch == w.ids && vnIndex' == vnIndex + w.indices
                && fBad == (old(fBad) || w.bad)
      ensures !Plausible(nTransactions, vBits, vHash) ==>
                root == nul && vMatch == [] && vnIndex' == vnIndex && fBad == old(fBad)
    {
      vMatch, vnIndex' := [], vnIndex;
      if nTransactions == 0 || |vHash| > nTransactions || |vBits| < |vHash| {
        return nul, vMatch, vnIndex';
      }
      var nHeight := TreeHeight(nTransactions);
      var nBitsUsed, nHashUsed;
      root, nBitsUsed, nHashUsed, vMatch, vnIndex' :=
        TraverseAndExtract(nHeight, 0, 0, 0, vMatch, vnIndex');
      if fBad || (nBitsUsed + 7) / 8 != (|vBits| + 7) / 8 || nHashUsed != |vHash| {
        root := nul;
      }
    }
  }

  /** What the far end of the wire sees: the proof is accepted, and what it yields is the root and
      exactly the matched ids with their indices. */
  lemma FarEnd<H(!new)>(hash: (H, H) -> H, nul: H, txids: seq<H>, mask: seq<bool>, bits: seq<bool>)
    requires Injective(hash) && Distinct(txids)
    requires 0 < |txids| <= 0x8000_0000 && |mask| == |txids|
    requires var b := BuildRoot(hash, txids, mask);
             |bits| == (|b.bits| + 7) / 8 * 8 && b.bits <= bits
    ensures var b := BuildRoot(hash, txids, mask);
            var w := Reading(hash, nul, |txids|, bits, b.hashes);
            && Plausible(|txids|, bits, b.hashes) && Accepts(hash, nul, |txids|, bits, b.hashes)
            && w.hash == Root(hash, txids) && ExactMatches(txids, mask, w.ids, w.indices)
  {
    assert |txids| < UINT32_LIMIT;
    hide *;
    Completeness(hash, nul, txids, mask, bits);
    RootMatchesAll(mask);
    ExactFromSelect(txids, mask, MatchedUnderRoot(mask));
  }

  lemma ExactFromSelect<H>(txids: seq<H>, mask: seq<bool>, indices: seq<nat>)
    requires |mask| == |txids|
    requires forall i: nat :: i in indices <==> i < |txids| && mask[i]
    requires forall a, b :: 0 <= a < b < |indices| ==> indices[a] < indices[b]
    ensures ExactMatches(txids, mask, Select(txids, indices), indices)
  {
    assert forall k :: 0 <= k < |indices| ==> indices[k] in indices;
  }

  /** The indices are the set positions of the mask in increasing order, the ids the list's entries there. */
  ghost predicate ExactMatches<H>(txids: seq<H>, mask: seq<bool>, ids: seq<H>, indices: seq<nat>)
    requires |mask| == |txids|
  {
    && Genuine(txids, ids, indices)
    && forall i: nat :: i in indices <==> i < |txids| && mask[i]
  }

  /** Writer, wire and reader together. */
  method ProveAndVerify<H(==, !new)>(hash: (H, H) -> H, nul: H, vTxid: seq<H>, vMask: seq<bool>)
    returns (root: H, vMatch: seq<H>, vnIndex: seq<nat>)
    requires Injective(hash) && Distinct(vTxid)
    requires 0 < |vTxid| <= 0x8000_0000 && |vMask| == |vTxid|
    ensures root == Root(hash, vTxid) && ExactMatches(vTxid, vMask, vMatch, vnIndex)
  {
    hide Build, Extract, Reading, Accepts, Plausible, Root, CalcHash, ExactMatches, Injective, Distinct, BuildRoot;
    var sent := new PartialMerkleTree<H>(hash, nul, vTxid, vMask);
    var wire := PackBits(sent.vBits);
    var received := new PartialMerkleTree<H>.FromWire(hash, nul, sent.nTransactions, sent.vHash, wire);
    assert sent.vBits <= received.vBits;
    FarEnd(hash, nul, vTxid, vMask, received.vBits);
    ghost var w := Reading(hash, nul, |vTxid|, received.vBits, received.vHash);
    ConcatEmpty(w.indices);
    root, vMatch, vnIndex := received.ExtractMatches([]);
  }

  /** A built proof with hashes or bytes added on the way gives the null root, unless nothing was added. */
  method ReadWithMore<H(==, !new)>(hash: (H, H) -> H, nul: H, vTxid: seq<H>, vMask: seq<bool>, moreHashes: seq<H>,
                                   moreBytes: seq<bv8>)
    returns (root: H, vMatch: seq<H>, vnIndex: seq<nat>)
    requires Injective(hash) && Distinct(vTxid)
    requires 0 < |vTxid| < UINT32_LIMIT && |vMask| == |vTxid|
    ensures root == if moreHashes == [] && moreBytes == [] then Root(hash, vTxid) else nul
  {
    hide Build, Extract, Reading, Accepts, Plausible, Root, CalcHash, Injective, Distinct, BuildRoot, BitAt;
    var sent := new PartialMerkleTree<H>(hash, nul, vTxid, vMask);
    var wire := PackBits(sent.vBits);
    var arrived, hashes := wire + moreBytes, sent.vHash + moreHashes;
    var received := new PartialMerkleTree<H>.FromWire(hash, nul, sent.nTransactions, hashes, arrived);
    forall p: nat | p < |sent.vBits| ensures received.vBits[p] == sent.vBits[p] {
      SameBit(wire, moreBytes, p);
    }
    ReadsMore(hash, nul, vTxid, vMask, received.vBits, hashes, |moreBytes|);
    root, vMatch, vnIndex := received.ExtractMatches([]);
  }

  lemma ReadsMore<H(!new)>(hash: (H, H) -> H, nul: H, txids: seq<H>, mask: seq<bool>, bits: seq<bool>,
                           hashes: seq<H>, more: nat)
    requires Injective(hash) && Distinct(txids)
    requires 0 < |txids| < UINT32_LIMIT && |mask| == |txids|
    requires BuildRoot(hash, txids, mask).bits <= bits && BuildRoot(hash, txids, mask).hashes <= hashes
    requires |bits| == 8 * ((|BuildRoot(hash, txids, mask).bits| + 7) / 8 + more)
    ensures var b := BuildRoot(hash, txids, mask);
            && (Accepts(hash, nul, |txids|, bits, hashes) <==> |hashes| == |b.hashes| && more == 0)
            && (|hashes| == |b.hashes| && more == 0 ==>
                  && Plausible(|txids|, bits, hashes)
                  && Reading(hash, nul, |txids|, bits, hashes).hash == Root(hash, txids))
  {
    hide Build, Extract, Reading, Accepts, Plausible, Root, CalcHash, Injective, Distinct, BuildRoot;
    var b := BuildRoot(hash, txids, mask);
    AcceptsIffNothingLeft(hash, nul, txids, mask, bits, hashes);
    assert (|bits| + 7) / 8 == (|b.bits| + 7) / 8 + more;
    if |hashes| == |b.hashes| && more == 0 {
      assert hashes == b.hashes;
      Completeness(hash, nul, txids, mask, bits);
    }
  }

  lemma SameBit(wire: seq<bv8>, more: seq<bv8>, p: nat)
    requires p < 8 * |wire|
    ensures BitAt(wire + more, p) == BitAt(wire, p)
  {
  }

  /** A reader's whole guarantee: whatever arrives, if what `ExtractMatches` returns is not null and is the
      root of a list of the claimed length, every pair it extracted is that list's entry at that index. */
  method ReadProof<H(==, !new)>(hash: (H, H) -> H, nul: H, nTransactions: nat, vHash: seq<H>, wire: seq<bv8>,
                                ghost txids: seq<H>)
    returns (root: H, vMatch: seq<H>, vnIndex: seq<nat>)
    requires Injective(hash) && |txids| == nTransactions < UINT32_LIMIT
    ensures txids == [] ==> root == nul
    ensures txids != [] && root != nul && root == Root(hash, txids) ==> Genuine(txids, vMatch, vnIndex)
  {
    hide Build, Extract, Root, CalcHash, Genuine, Injective;
    var received := new PartialMerkleTree<H>.FromWire(hash, nul, nTransactions, vHash, wire);
    root, vMatch, vnIndex := received.ExtractMatches([]);
    if txids != [] && root != nul && root == Root(hash, txids) {
      Soundness(hash, nul, txids, received.vBits, received.vHash);
      ConcatEmpty(Reading(hash, nul, nTransactions, received.vBits, received.vHash).indices);
    }
  }
}
