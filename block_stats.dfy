/** The redundancy statistics of the splitter: one frequency table keyed by
    raw endpoint value, shared by endpoints A and B, and one keyed by raw
    index field; and the "shared" counts derived from their sizes. */
module BlockStats {
  import opened Bits
  import opened Dxt1Block
  import opened Frequency

  /** The endpoint table after counting the blocks in order, endpoint A
      before endpoint B of each block, both into the same table. */
  function ColorCounts(bs: seq<Block>): map<u16, nat>
  {
    if bs == [] then map[]
    else
      var last := bs[|bs| - 1];
      AddCount(AddCount(ColorCounts(bs[..|bs| - 1]), last.endPointA), last.endPointB)
  }

  /** The index-field table after counting the blocks in order. */
  function IndexCounts(bs: seq<Block>): map<u32, nat>
  {
    if bs == [] then map[]
    else AddCount(IndexCounts(bs[..|bs| - 1]), bs[|bs| - 1].indices)
  }

  /** Reference definition: every endpoint value of every block, A and B
      alike, with repetitions. */
  function Endpoints(bs: seq<Block>): multiset<u16>
  {
    multiset(seq(|bs|, i requires 0 <= i < |bs| => bs[i].endPointA))
      + multiset(seq(|bs|, i requires 0 <= i < |bs| => bs[i].endPointB))
  }

  /** Reference definition: every index field, with repetitions. */
  function IndexFields(bs: seq<Block>): multiset<u32>
  {
    multiset(seq(|bs|, i requires 0 <= i < |bs| => bs[i].indices))
  }

  lemma EndpointsSnoc(bs: seq<Block>)
    requires bs != []
    ensures Endpoints(bs) == Endpoints(bs[..|bs| - 1])
      + multiset{bs[|bs| - 1].endPointA, bs[|bs| - 1].endPointB}
  {
    var n := |bs|;
    var init := bs[..n - 1];
    assert seq(n, i requires 0 <= i < n => bs[i].endPointA)
      == seq(n - 1, i requires 0 <= i < n - 1 => init[i].endPointA) + [bs[n - 1].endPointA];
    assert seq(n, i requires 0 <= i < n => bs[i].endPointB)
      == seq(n - 1, i requires 0 <= i < n - 1 => init[i].endPointB) + [bs[n - 1].endPointB];
  }

  lemma IndexFieldsSnoc(bs: seq<Block>)
    requires bs != []
    ensures IndexFields(bs) == IndexFields(bs[..|bs| - 1]) + multiset{bs[|bs| - 1].indices}
  {
    var n := |bs|;
    var init := bs[..n - 1];
    assert seq(n, i requires 0 <= i < n => bs[i].indices)
      == seq(n - 1, i requires 0 <= i < n - 1 => init[i].indices) + [bs[n - 1].indices];
  }

  /** Each key of the endpoint table counts exactly the occurrences of that
      raw value among all A and B endpoints, and the keys are exactly the
      values that occur. */
  lemma {:induction false} ColorCountsAreMultiplicities(bs: seq<Block>, k: u16)
    ensures CountOf(ColorCounts(bs), k) == Endpoints(bs)[k]
    ensures k in ColorCounts(bs) <==> k in Endpoints(bs)
  {
    if bs != [] {
      ColorCountsAreMultiplicities(bs[..|bs| - 1], k);
      EndpointsSnoc(bs);
    }
  }

  /** Each key of the index table counts exactly the blocks with that raw
      index field. */
  lemma {:induction false} IndexCountsAreMultiplicities(bs: seq<Block>, k: u32)
    ensures CountOf(IndexCounts(bs), k) == IndexFields(bs)[k]
    ensures k in IndexCounts(bs) <==> k in IndexFields(bs)
  {
    if bs != [] {
      IndexCountsAreMultiplicities(bs[..|bs| - 1], k);
      IndexFieldsSnoc(bs);
    }
  }

  /** The endpoint counts add up to two per block. */
  lemma {:induction false} SumColorCounts(bs: seq<Block>)
    ensures SumCounts(ColorCounts(bs)) == 2 * |bs|
  {
    if bs != [] {
      var last := bs[|bs| - 1];
      var m := ColorCounts(bs[..|bs| - 1]);
      SumColorCounts(bs[..|bs| - 1]);
      SumCountsAddCount(m, last.endPointA);
      SumCountsAddCount(AddCount(m, last.endPointA), last.endPointB);
    } else {
      assert ColorCounts(bs) == map[];
    }
  }

  /** The index counts add up to one per block. */
  lemma {:induction false} SumIndexCounts(bs: seq<Block>)
    ensures SumCounts(IndexCounts(bs)) == |bs|
  {
    if bs != [] {
      SumIndexCounts(bs[..|bs| - 1]);
      SumCountsAddCount(IndexCounts(bs[..|bs| - 1]), bs[|bs| - 1].indices);
    } else {
      assert IndexCounts(bs) == map[];
    }
  }

  /** There are at most as many distinct index fields as blocks, and at
      least one when there is a block. */
  lemma {:induction false} IndexTableSize(bs: seq<Block>)
    ensures |IndexCounts(bs)| <= |bs|
    ensures bs != [] ==> |IndexCounts(bs)| >= 1
  {
    if bs != [] {
      IndexTableSize(bs[..|bs| - 1]);
      SizeAddCount(IndexCounts(bs[..|bs| - 1]), bs[|bs| - 1].indices);
    }
  }

  /** There are at most two distinct endpoint values per block. */
  lemma {:induction false} ColorTableSize(bs: seq<Block>)
    ensures |ColorCounts(bs)| <= 2 * |bs|
    ensures bs != [] ==> |ColorCounts(bs)| >= 1
  {
    if bs != [] {
      var last := bs[|bs| - 1];
      var m := ColorCounts(bs[..|bs| - 1]);
      ColorTableSize(bs[..|bs| - 1]);
      SizeAddCount(m, last.endPointA);
      SizeAddCount(AddCount(m, last.endPointA), last.endPointB);
    }
  }

  /** `blockCount - (uint32_t)table.size()` evaluated in uint32_t, as the
      source computes both "shared" statistics. */
  function SharedBlocks(blockCount: nat, distinct: nat): (shared: u32)
    ensures distinct <= blockCount < U32Modulus ==> shared == blockCount - distinct
    ensures blockCount < distinct < U32Modulus ==> shared == U32Modulus - (distinct - blockCount)
  {
    (blockCount - distinct) % U32Modulus
  }

  /** The shared-indices statistic never wraps: the index table has no more
      keys than there are blocks. */
  lemma SharedIndicesNeverWraps(bs: seq<Block>)
    requires |bs| < U32Modulus
    ensures SharedBlocks(|bs|, |IndexCounts(bs)|) == |bs| - |IndexCounts(bs)|
    ensures bs != [] ==> SharedBlocks(|bs|, |IndexCounts(bs)|) < |bs|
  {
    IndexTableSize(bs);
  }

  /** The shared-colour statistic as written wraps around: a single block
      with two different endpoints leaves two keys in the table, and
      1 - 2 in uint32_t is 4294967295. */
  lemma SharedColorBlocksWraps()
    ensures var bs := [Block(0xF800, 0x001F, 0)];
      |ColorCounts(bs)| == 2 && SharedBlocks(|bs|, |ColorCounts(bs)|) == 0xFFFF_FFFF
  {
    var bs := [Block(0xF800, 0x001F, 0)];
    assert bs[..0] == [];
    assert ColorCounts(bs) == map[0xF800 := 1, 0x001F := 1];
    assert ColorCounts(bs).Keys == {0xF800, 0x001F};
  }

  /** Corrected shared-colour statistic: the endpoint occurrences (two per
      block) that repeat a value already counted. It never wraps, and it is
      zero exactly when no endpoint value occurs twice. */
  function SharedEndpointColors(bs: seq<Block>): (shared: nat)
    ensures shared + |ColorCounts(bs)| == 2 * |bs|
    ensures bs != [] ==> shared < 2 * |bs|
    ensures shared == 0 <==> forall k :: k in ColorCounts(bs) ==> ColorCounts(bs)[k] == 1
  {
    ColorTableSize(bs);
    SumColorCounts(bs);
    PositiveCounts(bs);
    SumCountsAtLeastSize(ColorCounts(bs));
    2 * |bs| - |ColorCounts(bs)|
  }

  lemma {:induction false} PositiveCounts(bs: seq<Block>)
    ensures forall k :: k in ColorCounts(bs) ==> ColorCounts(bs)[k] >= 1
  {
    if bs != [] {
      PositiveCounts(bs[..|bs| - 1]);
    }
  }

  /** With every count positive, the counts sum to at least the number of
      keys, with equality exactly when every count is one. */
  lemma {:induction false} SumCountsAtLeastSize<K>(m: map<K, nat>)
    requires forall k :: k in m ==> m[k] >= 1
    ensures SumCounts(m) >= |m|
    ensures SumCounts(m) == |m| <==> forall k :: k in m ==> m[k] == 1
    decreases |m|
  {
    if m != map[] {
      var k :| k in m;
      var rest := m - {k};
      assert rest.Keys == m.Keys - {k};
      SumCountsRemove(m, k);
      SumCountsAtLeastSize(rest);
      if SumCounts(m) == |m| {
        forall j | j in m ensures m[j] == 1 {
          if j != k {
            assert j in rest;
          }
        }
      }
    } else {
      assert m.Keys == {};
    }
  }
}
