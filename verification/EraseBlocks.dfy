/** Geometry of the erase layout (erasure_layout.c: calculate_block_count,
    init_eraseblock, create_erase_layout; flashrom.c: selfcheck_eraseblocks).

    A layout has one level per usable eraser, finest first; every level lists the
    blocks of that eraser and links each block to the blocks of the next finer
    level that it is made of. */
module EraseBlocks {

  /** An erase block `[start, end]` with the index range of its sub-blocks. */
  datatype Block = Block(start: nat, end: nat, first: int, last: int)

  type Level = seq<Block>

  // ----- What a well-formed layout is ------------------------------------------

  /** The blocks cover `[0, size)` in order, without gap or overlap. */
  ghost predicate Tiling(lv: Level, size: nat) {
    && |lv| > 0 && lv[0].start == 0 && lv[|lv| - 1].end + 1 == size
    && TilesUpTo(lv, size)
  }

  ghost predicate TilesUpTo(lv: Level, size: nat) {
    && (forall i | 0 <= i < |lv| :: lv[i].start <= lv[i].end < size)
    && (forall i, j | 0 <= i < j < |lv| && j == i + 1 :: lv[j].start == lv[i].end + 1)
  }

  /** Every coarse boundary is a fine boundary. */
  ghost predicate Nested(fine: Level, coarse: Level) {
    forall j | 0 <= j < |coarse| :: exists i :: 0 <= i < |fine| && fine[i].start == coarse[j].start
  }

  /** The sub-block ranges partition the fine level in order, and every coarse block
      is exactly the concatenation of its sub-blocks. */
  ghost predicate Linked(fine: Level, coarse: Level) {
    && |fine| > 0 && |coarse| > 0
    && coarse[0].first == 0 && coarse[|coarse| - 1].last == |fine| - 1
    && (forall i, j | 0 <= i < j < |coarse| && j == i + 1 :: coarse[j].first == coarse[i].last + 1)
    && (forall j | 0 <= j < |coarse| ::
          && 0 <= coarse[j].first <= coarse[j].last < |fine|
          && fine[coarse[j].first].start == coarse[j].start
          && fine[coarse[j].last].end == coarse[j].end)
  }

  /** Every level tiles the chip and is linked to the next finer one. */
  ghost predicate ValidLayout(levels: seq<Level>, size: nat) {
    |levels| > 0 && ValidUpTo(levels, size, |levels|)
  }

  ghost predicate ValidUpTo(levels: seq<Level>, size: nat, n: nat)
    requires n <= |levels|
  {
    n > 0 ==>
      && ValidUpTo(levels, size, n - 1)
      && Tiling(levels[n - 1], size)
      && (n > 1 ==> Linked(levels[n - 2], levels[n - 1]))
  }

  lemma {:induction false} LevelFacts(levels: seq<Level>, size: nat, n: nat, k: nat)
    requires k < n <= |levels| && ValidUpTo(levels, size, n)
    ensures Tiling(levels[k], size)
    ensures k > 0 ==> Linked(levels[k - 1], levels[k])
  {
    if k < n - 1 {
      LevelFacts(levels, size, n - 1, k);
    }
  }

  lemma IsTiling(levels: seq<Level>, size: nat, k: nat)
    requires ValidLayout(levels, size) && k < |levels|
    ensures Tiling(levels[k], size)
  {
    LevelFacts(levels, size, |levels|, k);
  }

  lemma IsLinked(levels: seq<Level>, size: nat, k: nat)
    requires ValidLayout(levels, size) && 0 < k < |levels|
    ensures Linked(levels[k - 1], levels[k])
  {
    LevelFacts(levels, size, |levels|, k);
  }

  lemma IsBlock(levels: seq<Level>, size: nat, k: nat, j: nat)
    requires ValidLayout(levels, size) && k < |levels| && j < |levels[k]|
    ensures levels[k][j].start <= levels[k][j].end < size
  {
    IsTiling(levels, size, k);
  }

  predicate Within(b: Block, lo: int, hi: int) {
    lo <= b.start && b.end <= hi
  }

  predicate Holds(b: Block, a: int) {
    b.start <= a <= b.end
  }

  // ----- Tilings ---------------------------------------------------------------

  lemma {:induction false} TilingOrdered(lv: Level, size: nat, i: nat, j: nat)
    requires TilesUpTo(lv, size) && i < j < |lv|
    ensures lv[i].end < lv[j].start
    decreases j
  {
    if i < j - 1 {
      TilingOrdered(lv, size, i, j - 1);
    }
  }

  /** The block that holds an address. */
  lemma {:induction false} TilingFind(lv: Level, size: nat, a: nat) returns (i: nat)
    requires Tiling(lv, size) && a < size
    ensures i < |lv| && Holds(lv[i], a)
  {
    i := 0;
    while lv[i].end < a
      invariant i < |lv| && lv[i].start <= a
      decreases |lv| - i
    {
      i := i + 1;
    }
  }

  lemma TilingUnique(lv: Level, size: nat, i: nat, j: nat, a: nat)
    requires TilesUpTo(lv, size) && i < |lv| && j < |lv|
    requires Holds(lv[i], a) && Holds(lv[j], a)
    ensures i == j
  {
    if i < j {
      TilingOrdered(lv, size, i, j);
    } else if j < i {
      TilingOrdered(lv, size, j, i);
    }
  }

  // ----- Linked levels ---------------------------------------------------------

  /** In linked levels, the sub-blocks of block `j` are exactly the fine blocks inside
      it, and every other fine block is disjoint from it. */
  lemma SubBlocks(fine: Level, coarse: Level, size: nat, j: nat, i: nat)
    requires Tiling(fine, size) && Tiling(coarse, size) && Linked(fine, coarse)
    requires j < |coarse| && i < |fine|
    ensures coarse[j].first <= i <= coarse[j].last ==> Within(fine[i], coarse[j].start, coarse[j].end)
    ensures i < coarse[j].first ==> fine[i].end < coarse[j].start
    ensures i > coarse[j].last ==> fine[i].start > coarse[j].end
  {
    var f, l := coarse[j].first, coarse[j].last;
    if i < f { TilingOrdered(fine, size, i, f); }
    if f < i { TilingOrdered(fine, size, f, i); }
    if i < l { TilingOrdered(fine, size, i, l); }
    if l < i { TilingOrdered(fine, size, l, i); }
  }

  /** The block of level `k` that contains block `i` of a finer level `m`. */
  lemma {:induction false} Enclosing(levels: seq<Level>, size: nat, m: nat, i: nat, k: nat) returns (j: nat)
    requires ValidLayout(levels, size) && m <= k < |levels| && i < |levels[m]|
    ensures j < |levels[k]| && Within(levels[m][i], levels[k][j].start, levels[k][j].end)
    decreases k
  {
    if m == k {
      j := i;
    } else {
      var p := Enclosing(levels, size, m, i, k - 1);
      j := Parent(levels, size, k, p);
    }
  }

  lemma Parent(levels: seq<Level>, size: nat, k: nat, p: nat) returns (j: nat)
    requires ValidLayout(levels, size) && 0 < k < |levels| && p < |levels[k - 1]|
    ensures j < |levels[k]| && Within(levels[k - 1][p], levels[k][j].start, levels[k][j].end)
  {
    IsLinked(levels, size, k);
    IsTiling(levels, size, k);
    IsTiling(levels, size, k - 1);
    j := TilingFind(levels[k], size, levels[k - 1][p].start);
    SubBlocks(levels[k - 1], levels[k], size, j, p);
  }

  /** Blocks of different levels are nested or disjoint. */
  lemma {:induction false} Laminar(levels: seq<Level>, size: nat, m: nat, i: nat, k: nat, j: nat)
    requires ValidLayout(levels, size) && m <= k < |levels| && i < |levels[m]| && j < |levels[k]|
    ensures var b, c := levels[m][i], levels[k][j];
            Within(b, c.start, c.end) || b.end < c.start || c.end < b.start
  {
    var p := Enclosing(levels, size, m, i, k);
    IsTiling(levels, size, k);
    if p < j {
      TilingOrdered(levels[k], size, p, j);
    } else if j < p {
      TilingOrdered(levels[k], size, j, p);
    }
  }

  /** Every block starts where some smallest block starts, and ends where one ends. */
  lemma {:induction false} SmallestAtEnds(levels: seq<Level>, size: nat, k: nat, j: nat) returns (i: nat, i': nat)
    requires ValidLayout(levels, size) && k < |levels| && j < |levels[k]|
    ensures i < |levels[0]| && levels[0][i].start == levels[k][j].start
    ensures i' < |levels[0]| && levels[0][i'].end == levels[k][j].end
    decreases k
  {
    if k == 0 {
      i, i' := j, j;
    } else {
      var b := levels[k][j];
      IsLinked(levels, size, k);
      var x;
      i, x := SmallestAtEnds(levels, size, k - 1, b.first);
      x, i' := SmallestAtEnds(levels, size, k - 1, b.last);
    }
  }

  // ----- What the sub-block scan computes --------------------------------------

  /** The links that the running sub-block index of init_eraseblock produces: each
      block takes the longest run of following fine blocks that lie inside it. */
  ghost predicate Scanned(fine: Level, coarse: Level, next: nat) {
    && next <= |fine|
    && (|coarse| > 0 ==> coarse[0].first == 0 && coarse[|coarse| - 1].last + 1 == next)
    && (|coarse| == 0 ==> next == 0)
    && (forall i, j | 0 <= i < j < |coarse| && j == i + 1 :: coarse[j].first == coarse[i].last + 1)
    && (forall j | 0 <= j < |coarse| :: ScannedBlock(fine, coarse[j]))
  }

  ghost predicate IsScan(fine: Level, coarse: Level) {
    exists next :: Scanned(fine, coarse, next)
  }

  ghost predicate ScannedBlock(fine: Level, b: Block) {
    && 0 <= b.first <= b.last + 1 <= |fine|
    && (forall i | b.first <= i <= b.last :: Within(fine[i], b.start, b.end))
    && (b.last + 1 < |fine| ==> !Within(fine[b.last + 1], b.start, b.end))
  }

  /** The scan produces a proper linking exactly when the two levels nest. */
  lemma ScanLinksNestedLevels(fine: Level, coarse: Level, size: nat, next: nat)
    requires Tiling(fine, size) && Tiling(coarse, size) && Scanned(fine, coarse, next)
    ensures Nested(fine, coarse) <==> Linked(fine, coarse)
  {
    if Nested(fine, coarse) {
      forall j | 0 <= j < |coarse|
        ensures ScanBlockExact(fine, coarse[j])
      {
        ScanFollowsBoundaries(fine, coarse, size, next, j);
      }
      var z := |coarse| - 1;
      assert ScanBlockExact(fine, coarse[z]);
      if coarse[z].last < |fine| - 1 {
        TilingOrdered(fine, size, coarse[z].last, |fine| - 1);
      }
    }
    if Linked(fine, coarse) {
      forall j | 0 <= j < |coarse|
        ensures exists i :: 0 <= i < |fine| && fine[i].start == coarse[j].start
      {
        assert fine[coarse[j].first].start == coarse[j].start;
      }
    }
  }

  ghost predicate ScanBlockExact(fine: Level, b: Block) {
    && 0 <= b.first <= b.last < |fine|
    && fine[b.first].start == b.start && fine[b.last].end == b.end
  }

  lemma {:induction false} ScanFollowsBoundaries(fine: Level, coarse: Level, size: nat, next: nat, j: nat)
    requires Tiling(fine, size) && Tiling(coarse, size) && Scanned(fine, coarse, next)
    requires Nested(fine, coarse) && j < |coarse|
    ensures ScanBlockExact(fine, coarse[j])
  {
    var b := coarse[j];
    if j > 0 {
      ScanFollowsBoundaries(fine, coarse, size, next, j - 1);
      assert b.first < |fine|;
    }
    assert ScannedBlock(fine, b);
    var e := BlockEndIsBoundary(fine, coarse, size, j);
    ScanReaches(fine, size, b, e);
  }

  lemma BlockEndIsBoundary(fine: Level, coarse: Level, size: nat, j: nat) returns (e: nat)
    requires Tiling(fine, size) && Tiling(coarse, size) && Nested(fine, coarse) && j < |coarse|
    ensures e < |fine| && fine[e].end == coarse[j].end
  {
    e := TilingFind(fine, size, coarse[j].end);
    if fine[e].end > coarse[j].end {
      var i :| 0 <= i < |fine| && fine[i].start == coarse[j + 1].start;
      TilingUnique(fine, size, e, i, fine[i].start);
    }
  }

  /** A scan that starts at the block's first byte stops after its last one. */
  lemma ScanReaches(fine: Level, size: nat, b: Block, e: nat)
    requires Tiling(fine, size) && ScannedBlock(fine, b) && b.start <= b.end
    requires b.first < |fine| && fine[b.first].start == b.start
    requires e < |fine| && fine[e].end == b.end
    ensures b.last == e && b.first <= e
  {
    var l := b.last + 1;
    if e < b.first {
      TilingOrdered(fine, size, e, b.first);
    }
    if l <= e {
      if b.first < l { TilingOrdered(fine, size, b.first, l); }
      if l < e { TilingOrdered(fine, size, l, e); }
    } else if e < b.last {
      TilingOrdered(fine, size, e, b.last);
    }
  }

  // ----- Eraser tables ---------------------------------------------------------

  const NUM_ERASEREGIONS := 5
  const NUM_ERASEFUNCTIONS := 8

  datatype EraseRegion = EraseRegion(size: nat, count: nat)

  /** `function` is 0 for "no erase function"; `supported` says that the bus master
      can send the opcodes of that function. */
  datatype BlockEraser = BlockEraser(function_: nat, supported: bool, regions: seq<EraseRegion>)

  ghost predicate WellSized(erasers: seq<BlockEraser>) {
    && |erasers| == NUM_ERASEFUNCTIONS
    && forall k | 0 <= k < |erasers| :: |erasers[k].regions| == NUM_ERASEREGIONS
  }

  /** check_block_eraser, with the sense of the result inverted. */
  predicate Usable(e: BlockEraser)
    requires |e.regions| == NUM_ERASEREGIONS
  {
    e.function_ != 0 && e.regions[0].count != 0 && e.supported
  }

  function Bytes(rs: seq<EraseRegion>): nat {
    if rs == [] then 0 else Bytes(rs[..|rs| - 1]) + rs[|rs| - 1].count * rs[|rs| - 1].size
  }

  function Blocks(rs: seq<EraseRegion>): nat {
    if rs == [] then 0 else Blocks(rs[..|rs| - 1]) + rs[|rs| - 1].count
  }

  function Repeat(x: nat, n: nat): (s: seq<nat>)
    ensures |s| == n && forall i | 0 <= i < n :: s[i] == x
  {
    seq(n, _ => x)
  }

  /** The block sizes of an eraser, in order of address. */
  function Sizes(rs: seq<EraseRegion>): (s: seq<nat>)
    ensures |s| == Blocks(rs)
  {
    if rs == [] then [] else Sizes(rs[..|rs| - 1]) + Repeat(rs[|rs| - 1].size, rs[|rs| - 1].count)
  }

  /** The blocks of a level have these sizes. */
  ghost predicate HasSizes(lv: Level, sizes: seq<nat>) {
    |lv| == |sizes| && forall i | 0 <= i < |lv| :: lv[i].end - lv[i].start + 1 == sizes[i]
  }

  /** Regions without blocks add no sizes. */
  lemma {:induction false} PrefixSizes(rs: seq<EraseRegion>, i: nat)
    requires i <= |rs| && NoHalfEmpty(rs) && Blocks(rs[..i]) == Blocks(rs)
    ensures Sizes(rs[..i]) == Sizes(rs)
    decreases |rs| - i
  {
    if i == |rs| {
      assert rs[..i] == rs;
    } else {
      PrefixSums(rs, i + 1);
      assert rs[..i + 1][..i] == rs[..i];
      PrefixSizes(rs, i + 1);
    }
  }

  predicate NoHalfEmpty(rs: seq<EraseRegion>) {
    forall i | 0 <= i < |rs| :: rs[i].count == 0 <==> rs[i].size == 0
  }

  lemma AppendSums(rs: seq<EraseRegion>, r: EraseRegion)
    ensures Bytes(rs + [r]) == Bytes(rs) + r.count * r.size
    ensures Blocks(rs + [r]) == Blocks(rs) + r.count
    ensures NoHalfEmpty(rs + [r]) <==> NoHalfEmpty(rs) && (r.count == 0 <==> r.size == 0)
  {
    var rs' := rs + [r];
    assert rs'[..|rs'| - 1] == rs;
    assert NoHalfEmpty(rs') ==> NoHalfEmpty(rs) && (rs'[|rs|].count == 0 <==> rs'[|rs|].size == 0);
  }

  lemma {:induction false} PrefixSums(rs: seq<EraseRegion>, i: nat)
    requires i <= |rs| && NoHalfEmpty(rs)
    ensures Bytes(rs[..i]) <= Bytes(rs) && Blocks(rs[..i]) <= Blocks(rs)
    ensures Bytes(rs[..i]) == Bytes(rs) <==> Blocks(rs[..i]) == Blocks(rs)
    decreases |rs| - i
  {
    if i == |rs| {
      assert rs[..i] == rs;
    } else {
      PrefixSums(rs, i + 1);
      assert rs[..i + 1][..i] == rs[..i];
      var r := rs[i];
      assert r.count * r.size >= 0 && (r.count * r.size == 0 <==> r.count == 0);
    }
  }

  /** What one accepted eraser looks like. */
  predicate Accepted(e: BlockEraser, total: nat) {
    NoHalfEmpty(e.regions) && (Bytes(e.regions) == 0 || Bytes(e.regions) == total)
  }

  /** The eraser takes part in the order and uniqueness checks. */
  predicate Ranked(e: BlockEraser) {
    Bytes(e.regions) != 0 && e.function_ != 0
  }

  /** Block count of the last ranked eraser before `k`. */
  function PreviousCount(erasers: seq<BlockEraser>, total: nat, k: nat): nat
    requires k <= |erasers|
  {
    if k == 0 then total
    else if Ranked(erasers[k - 1]) then Blocks(erasers[k - 1].regions)
    else PreviousCount(erasers, total, k - 1)
  }

  predicate EraserOk(erasers: seq<BlockEraser>, total: nat, k: nat)
    requires k < |erasers|
  {
    && Accepted(erasers[k], total)
    && (Ranked(erasers[k]) ==>
          && Blocks(erasers[k].regions) <= PreviousCount(erasers, total, k)
          && forall j | k < j < |erasers| :: erasers[j].function_ != erasers[k].function_)
  }

  /** Accepts exactly the tables whose erasers are all consistent. */
  method SelfcheckEraseblocks(erasers: seq<BlockEraser>, total: nat) returns (ret: int)
    requires WellSized(erasers)
    ensures ret == 0 <==> Consistent(erasers, total)
  {
    ret := 0;
    var prevCount := total;
    for k := 0 to NUM_ERASEFUNCTIONS
      invariant prevCount == PreviousCount(erasers, total, k)
      invariant ret == 0 <==> forall m | 0 <= m < k :: EraserOk(erasers, total, m)
    {
      var bad;
      bad, prevCount := SelfcheckEraser(erasers, total, k, prevCount);
      if bad {
        ret := 1;
      }
    }
    ConsistentIff(erasers, total);
  }

  /** What the check is for: every eraser is well formed and covers the chip or nothing; those
      that cover it and have a function have no more blocks than any such eraser before them,
      nor than the chip has bytes, and share their function with no later eraser. */
  ghost predicate Consistent(erasers: seq<BlockEraser>, total: nat) {
    && (forall k | 0 <= k < |erasers| ::
          NoHalfEmpty(erasers[k].regions) && Bytes(erasers[k].regions) in {0, total})
    && (forall k | 0 <= k < |erasers| && Bytes(erasers[k].regions) != 0 && erasers[k].function_ != 0 ::
          Blocks(erasers[k].regions) <= total)
    && (forall i, k | 0 <= i < k < |erasers| && Bytes(erasers[i].regions) != 0 && erasers[i].function_ != 0
                      && Bytes(erasers[k].regions) != 0 && erasers[k].function_ != 0 ::
          Blocks(erasers[k].regions) <= Blocks(erasers[i].regions))
    && (forall k, j | 0 <= k < j < |erasers| && Bytes(erasers[k].regions) != 0 && erasers[k].function_ != 0 ::
          erasers[j].function_ != erasers[k].function_)
  }

  lemma ConsistentIff(erasers: seq<BlockEraser>, total: nat)
    ensures Consistent(erasers, total) <==> forall k | 0 <= k < |erasers| :: EraserOk(erasers, total, k)
  {
    if Consistent(erasers, total) {
      forall k | 0 <= k < |erasers| ensures EraserOk(erasers, total, k) {
        var i := PreviousIs(erasers, total, k);
      }
    } else if forall k | 0 <= k < |erasers| :: EraserOk(erasers, total, k) {
      forall k | 0 <= k < |erasers|
        ensures Accepted(erasers[k], total) && PreviousCount(erasers, total, k) <= total
        ensures forall i | 0 <= i < k && Ranked(erasers[i]) ::
                  PreviousCount(erasers, total, k) <= Blocks(erasers[i].regions)
      {
        assert EraserOk(erasers, total, k);
        PreviousLeast(erasers, total, k);
      }
      forall k | 0 <= k < |erasers| && Ranked(erasers[k])
        ensures Blocks(erasers[k].regions) <= PreviousCount(erasers, total, k)
        ensures forall j | k < j < |erasers| :: erasers[j].function_ != erasers[k].function_
      {
        assert EraserOk(erasers, total, k);
      }
      assert false;
    }
  }

  lemma {:induction false} PreviousIs(erasers: seq<BlockEraser>, total: nat, k: nat) returns (i: int)
    requires k <= |erasers|
    ensures -1 <= i < k && (i >= 0 ==> Ranked(erasers[i]))
    ensures PreviousCount(erasers, total, k) == if i < 0 then total else Blocks(erasers[i].regions)
  {
    if k == 0 {
      i := -1;
    } else if Ranked(erasers[k - 1]) {
      i := k - 1;
    } else {
      i := PreviousIs(erasers, total, k - 1);
    }
  }

  lemma {:induction false} PreviousLeast(erasers: seq<BlockEraser>, total: nat, k: nat)
    requires k <= |erasers| && forall m | 0 <= m < k :: EraserOk(erasers, total, m)
    ensures PreviousCount(erasers, total, k) <= total
    ensures forall i | 0 <= i < k && Ranked(erasers[i]) ::
              PreviousCount(erasers, total, k) <= Blocks(erasers[i].regions)
  {
    if k > 0 {
      PreviousLeast(erasers, total, k - 1);
      assert EraserOk(erasers, total, k - 1);
    }
  }

  /** One round of the check; `next` is the block count the next round compares with. */
  method SelfcheckEraser(erasers: seq<BlockEraser>, total: nat, k: nat, prevCount: nat) returns (bad: bool, next: nat)
    requires WellSized(erasers) && k < |erasers| && prevCount == PreviousCount(erasers, total, k)
    ensures bad <==> !EraserOk(erasers, total, k)
    ensures next == PreviousCount(erasers, total, k + 1)
  {
    var e := erasers[k];
    var done, count;
    bad, done, count := SumRegions(e.regions);
    next := prevCount;
    if done == 0 {
      return;
    }
    if done != total {
      bad := true;
    }
    if e.function_ == 0 {
      return;
    }
    ghost var before := bad;
    for j := k + 1 to NUM_ERASEFUNCTIONS
      invariant bad <==> before || exists m :: k < m < j && erasers[m].function_ == e.function_
    {
      if e.function_ == erasers[j].function_ {
        bad := true;
      }
    }
    if count > prevCount {
      bad := true;
    }
    next := count;
  }

  method SumRegions(rs: seq<EraseRegion>) returns (bad: bool, done: nat, count: nat)
    ensures bad <==> !NoHalfEmpty(rs)
    ensures done == Bytes(rs) && count == Blocks(rs)
  {
    bad, done, count := false, 0, 0;
    for i := 0 to |rs|
      invariant done == Bytes(rs[..i]) && count == Blocks(rs[..i])
      invariant bad <==> !NoHalfEmpty(rs[..i])
    {
      var r := rs[i];
      if r.count != 0 && r.size == 0 {
        bad := true;
      }
      if r.count == 0 && r.size != 0 {
        bad := true;
      }
      done := done + r.count * r.size;
      count := count + r.count;
      assert rs[..i + 1] == rs[..i] + [r];
      AppendSums(rs[..i], r);
    }
    assert rs[..|rs|] == rs;
  }

  // ----- create_erase_layout ---------------------------------------------------

  /** Never indexes past the region array of an accepted eraser. */
  method CalculateBlockCount(e: BlockEraser, total: nat) returns (blockCount: nat)
    requires |e.regions| == NUM_ERASEREGIONS && Accepted(e, total) && Usable(e)
    ensures blockCount == Blocks(e.regions)
  {
    UsableIsSized(e, total);
    blockCount := 0;
    var addr, i := 0, 0;
    while addr < total
      invariant 0 <= i <= NUM_ERASEREGIONS && addr == Bytes(e.regions[..i])
      invariant blockCount == Blocks(e.regions[..i])
      decreases NUM_ERASEREGIONS - i
    {
      assert i < NUM_ERASEREGIONS by {
        assert e.regions[..NUM_ERASEREGIONS] == e.regions;
      }
      assert e.regions[..i + 1][..i] == e.regions[..i];
      blockCount := blockCount + e.regions[i].count;
      addr := addr + e.regions[i].count * e.regions[i].size;
      i := i + 1;
    }
    PrefixSums(e.regions, i);
  }

  lemma UsableIsSized(e: BlockEraser, total: nat)
    requires |e.regions| == NUM_ERASEREGIONS && Accepted(e, total) && Usable(e)
    ensures Bytes(e.regions) == total && total > 0
  {
    PrefixSums(e.regions, 1);
    var r := e.regions[0];
    assert e.regions[..1] == [r] && [r][..0] == [];
    assert Bytes([r]) == r.count * r.size;
    assert r.count * r.size > 0;
  }

  /** Advances the running sub-block index past the sub-blocks of one new block. */
  method InitEraseblock(fine: Level, start: nat, end: nat, sub: nat) returns (b: Block, sub': nat)
    requires sub <= |fine|
    ensures b.start == start && b.end == end
    ensures fine == [] ==> sub' == sub && b.first == b.last == 0
    ensures fine != [] ==> ScannedBlock(fine, b) && b.first == sub && b.last + 1 == sub'
    ensures sub' <= |fine|
  {
    if fine == [] {
      return Block(start, end, 0, 0), sub;
    }
    sub' := sub;
    while sub' < |fine| && fine[sub'].start >= start && fine[sub'].end <= end
      invariant sub <= sub' <= |fine|
      invariant forall i | sub <= i < sub' :: Within(fine[i], start, end)
    {
      sub' := sub' + 1;
    }
    b := Block(start, end, sub, sub' - 1);
  }

  /** The blocks listed so far tile `[0, start)` and are linked up to `sub`. */
  ghost predicate Partial(fine: Level, lv: Level, start: nat, sub: nat) {
    && TilesUpTo(lv, start) && sub <= |fine|
    && start == (if |lv| == 0 then 0 else lv[|lv| - 1].end + 1)
    && (|lv| > 0 ==> lv[0].start == 0)
    && (fine != [] ==> Scanned(fine, lv, sub))
  }

  lemma PartialAppend(fine: Level, lv: Level, start: nat, sub: nat, b: Block, sub': nat)
    requires Partial(fine, lv, start, sub)
    requires b.start == start <= b.end
    requires fine == [] ==> sub' == sub
    requires fine != [] ==> ScannedBlock(fine, b) && b.first == sub && b.last + 1 == sub'
    ensures Partial(fine, lv + [b], b.end + 1, sub')
  {
    if fine != [] {
      var lv' := lv + [b];
      forall i, j | 0 <= i < j < |lv'| && j == i + 1 ensures lv'[j].first == lv'[i].last + 1 {
        if j == |lv| {
          assert lv'[j] == b && lv'[i] == lv[|lv| - 1];
        }
      }
    }
  }

  /** Lists one more block. */
  method AppendBlock(size: nat, fine: Level, lv0: Level, start0: nat, sub0: nat, ghost sizes: seq<nat>)
    returns (lv: Level, start: nat, sub: nat)
    requires Partial(fine, lv0, start0, sub0) && size > 0 && HasSizes(lv0, sizes)
    ensures Partial(fine, lv, start, sub) && HasSizes(lv, sizes + [size])
    ensures |lv| == |lv0| + 1 && start == start0 + size
  {
    var end := start0 + size - 1;
    var b;
    b, sub := InitEraseblock(fine, start0, end, sub0);
    PartialAppend(fine, lv0, start0, sub0, b, sub);
    lv, start := lv0 + [b], end + 1;
  }

  /** Lists the blocks of one region of equally sized blocks. */
  method AppendRegion(r: EraseRegion, fine: Level, lv0: Level, start0: nat, sub0: nat, ghost sizes: seq<nat>)
    returns (lv: Level, start: nat, sub: nat)
    requires Partial(fine, lv0, start0, sub0) && (r.count > 0 ==> r.size > 0) && HasSizes(lv0, sizes)
    ensures Partial(fine, lv, start, sub) && HasSizes(lv, sizes + Repeat(r.size, r.count))
    ensures |lv| == |lv0| + r.count && start == start0 + r.count * r.size
  {
    lv, start, sub := lv0, start0, sub0;
    for num := 0 to r.count
      invariant |lv| == |lv0| + num && start == start0 + num * r.size
      invariant Partial(fine, lv, start, sub) && HasSizes(lv, sizes + Repeat(r.size, num))
    {
      OneMore(sizes, r.size, num);
      lv, start, sub := AppendBlock(r.size, fine, lv, start, sub, sizes + Repeat(r.size, num));
    }
  }

  lemma OneMore(sizes: seq<nat>, size: nat, n: nat)
    ensures sizes + Repeat(size, n) + [size] == sizes + Repeat(size, n + 1)
    ensures (n + 1) * size == n * size + size
  {
  }

  lemma NextRegion(rs: seq<EraseRegion>, i: nat)
    requires i < |rs|
    ensures Blocks(rs[..i + 1]) == Blocks(rs[..i]) + rs[i].count
    ensures Bytes(rs[..i + 1]) == Bytes(rs[..i]) + rs[i].count * rs[i].size
    ensures Sizes(rs[..i + 1]) == Sizes(rs[..i]) + Repeat(rs[i].size, rs[i].count)
  {
    assert rs[..i + 1][..i] == rs[..i];
  }

  /** Where the listing of an eraser's blocks stands before region `i`. */
  ghost predicate Listed(rs: seq<EraseRegion>, i: nat, fine: Level, lv: Level, start: nat, sub: nat)
    requires i <= |rs|
  {
    && |lv| == Blocks(rs[..i]) && start == Bytes(rs[..i])
    && Partial(fine, lv, start, sub) && HasSizes(lv, Sizes(rs[..i]))
  }

  /** Lists the blocks of one eraser; `fine` is the level below, empty for the finest. */
  method CreateLevel(e: BlockEraser, total: nat, fine: Level) returns (lv: Level)
    requires |e.regions| == NUM_ERASEREGIONS && Accepted(e, total) && Usable(e)
    ensures Tiling(lv, total) && HasSizes(lv, Sizes(e.regions))
    ensures fine != [] ==> IsScan(fine, lv)
  {
    var blockCount := CalculateBlockCount(e, total);
    lv := [];
    var sub: nat, start: nat, i: nat := 0, 0, 0;
    while |lv| < blockCount
      invariant i <= NUM_ERASEREGIONS && Listed(e.regions, i, fine, lv, start, sub)
      decreases NUM_ERASEREGIONS - i
    {
      lv, start, sub := ListRegion(e.regions, i, fine, lv, start, sub);
      i := i + 1;
    }
    ListedAll(e, total, i, fine, lv, start, sub);
  }

  /** One turn of the loop; as long as blocks are missing there is a region left. */
  method ListRegion(rs: seq<EraseRegion>, i: nat, fine: Level, lv0: Level, start0: nat, sub0: nat)
    returns (lv: Level, start: nat, sub: nat)
    requires NoHalfEmpty(rs) && i <= |rs| && Listed(rs, i, fine, lv0, start0, sub0) && |lv0| < Blocks(rs)
    ensures i < |rs| && Listed(rs, i + 1, fine, lv, start, sub)
  {
    assert i < |rs| by {
      assert rs[..|rs|] == rs;
    }
    NextRegion(rs, i);
    lv, start, sub := AppendRegion(rs[i], fine, lv0, start0, sub0, Sizes(rs[..i]));
  }

  lemma ListedAll(e: BlockEraser, total: nat, i: nat, fine: Level, lv: Level, start: nat, sub: nat)
    requires |e.regions| == NUM_ERASEREGIONS && Accepted(e, total) && Usable(e) && i <= NUM_ERASEREGIONS
    requires Listed(e.regions, i, fine, lv, start, sub) && |lv| >= Blocks(e.regions)
    ensures Tiling(lv, total) && HasSizes(lv, Sizes(e.regions))
    ensures fine != [] ==> IsScan(fine, lv)
  {
    UsableIsSized(e, total);
    PrefixSums(e.regions, i);
    PrefixSizes(e.regions, i);
  }

  /** One tiling level per usable eraser, each linked to the one below if they nest. */
  ghost predicate LevelsFor(levels: seq<Level>, us: seq<BlockEraser>, total: nat) {
    && |levels| == |us|
    && (forall k | 0 <= k < |levels| :: LevelFor(levels[k], us[k], total))
    && (forall m, k | 0 <= m < k < |levels| && k == m + 1 :: LinkedIfNested(levels[m], levels[k]))
  }

  ghost predicate LevelFor(lv: Level, e: BlockEraser, total: nat) {
    Tiling(lv, total) && HasSizes(lv, Sizes(e.regions))
  }

  ghost predicate LinkedIfNested(fine: Level, coarse: Level) {
    Nested(fine, coarse) <==> Linked(fine, coarse)
  }

  ghost predicate AllNested(levels: seq<Level>) {
    forall m, k | 0 <= m < k < |levels| && k == m + 1 :: Nested(levels[m], levels[k])
  }

  /** `idx` lists, in order, the erasers before `n` that have a function, a first region with
      blocks and opcodes that the bus master can send. */
  ghost predicate Picks(erasers: seq<BlockEraser>, n: nat, idx: seq<nat>)
    requires WellSized(erasers) && n <= |erasers|
  {
    && (forall m | 0 <= m < |idx| :: idx[m] < n)
    && (forall m, m' | 0 <= m < m' < |idx| :: idx[m] < idx[m'])
    && (forall k: nat | k < n ::
          k in idx <==> erasers[k].function_ != 0 && erasers[k].regions[0].count != 0 && erasers[k].supported)
  }

  ghost function Picked(erasers: seq<BlockEraser>, idx: seq<nat>): (us: seq<BlockEraser>)
    requires forall m | 0 <= m < |idx| :: idx[m] < |erasers|
    ensures |us| == |idx| && forall m | 0 <= m < |idx| :: us[m] == erasers[idx[m]]
  {
    seq(|idx|, m requires 0 <= m < |idx| => erasers[idx[m]])
  }

  /** For every accepted table the layout has one level per usable eraser, each level
      tiles the chip with blocks of the sizes listed, and the levels are properly linked
      exactly when they nest.  `idx` says which erasers they come from. */
  method CreateEraseLayout(erasers: seq<BlockEraser>, total: nat) returns (levels: seq<Level>, ghost idx: seq<nat>)
    requires WellSized(erasers)
    requires Consistent(erasers, total)
    ensures Picks(erasers, |erasers|, idx) && LevelsFor(levels, Picked(erasers, idx), total)
    ensures |levels| > 0 ==>
              (ValidLayout(levels, total) <==> AllNested(levels))
  {
    levels, idx := [], [];
    for n := 0 to NUM_ERASEFUNCTIONS
      invariant Picks(erasers, n, idx) && LevelsFor(levels, Picked(erasers, idx), total)
    {
      ghost var us := Picked(erasers, idx);
      levels := AddEraser(erasers[n], total, levels, us);
      if Usable(erasers[n]) {
        idx := idx + [n];
        assert Picked(erasers, idx) == us + [erasers[n]];
      } else {
        assert us + [] == us;
      }
    }
    if |levels| > 0 {
      ValidIffNested(levels, Picked(erasers, idx), total);
    }
  }

  /** One turn of the loop: an eraser that cannot be used adds no level. */
  method AddEraser(e: BlockEraser, total: nat, levels: seq<Level>, ghost us: seq<BlockEraser>)
                   returns (levels': seq<Level>)
    requires |e.regions| == NUM_ERASEREGIONS && Accepted(e, total) && LevelsFor(levels, us, total)
    ensures LevelsFor(levels', us + if Usable(e) then [e] else [], total)
  {
    if !Usable(e) {
      assert us + [] == us;
      return levels;
    }
    var fine := if levels == [] then [] else levels[|levels| - 1];
    var lv := CreateLevel(e, total, fine);
    if levels != [] {
      LastLevel(levels, us, total);
    }
    AddLevel(levels, us, total, lv, e);
    return levels + [lv];
  }

  lemma LastLevel(levels: seq<Level>, us: seq<BlockEraser>, total: nat)
    requires LevelsFor(levels, us, total) && levels != []
    ensures Tiling(levels[|levels| - 1], total) && levels[|levels| - 1] != []
  {
    assert LevelFor(levels[|levels| - 1], us[|levels| - 1], total);
  }

  lemma ValidIffNested(levels: seq<Level>, us: seq<BlockEraser>, total: nat)
    requires LevelsFor(levels, us, total) && |levels| > 0
    ensures ValidLayout(levels, total) <==> AllNested(levels)
  {
    if AllNested(levels) {
      NestedIsValid(levels, us, total, |levels|);
    }
    if ValidLayout(levels, total) {
      forall m, k | 0 <= m < k < |levels| && k == m + 1 ensures Nested(levels[m], levels[k]) {
        IsLinked(levels, total, k);
        assert LinkedIfNested(levels[m], levels[k]);
      }
    }
  }

  lemma {:induction false} NestedIsValid(levels: seq<Level>, us: seq<BlockEraser>, total: nat, n: nat)
    requires LevelsFor(levels, us, total) && AllNested(levels) && n <= |levels|
    ensures ValidUpTo(levels, total, n)
  {
    if n > 0 {
      NestedIsValid(levels, us, total, n - 1);
      assert LevelFor(levels[n - 1], us[n - 1], total);
      if n > 1 {
        assert LinkedIfNested(levels[n - 2], levels[n - 1]) && Nested(levels[n - 2], levels[n - 1]);
      }
    }
  }

  lemma AddLevel(levels: seq<Level>, us: seq<BlockEraser>, total: nat, lv: Level, e: BlockEraser)
    requires LevelsFor(levels, us, total) && LevelFor(lv, e, total)
    requires levels != [] ==> IsScan(levels[|levels| - 1], lv)
    ensures LevelsFor(levels + [lv], us + [e], total)
  {
    if levels != [] {
      var fine := levels[|levels| - 1];
      LastLevel(levels, us, total);
      ScanIsLink(fine, lv, total);
    }
    var levels', us' := levels + [lv], us + [e];
    forall k | 0 <= k < |levels'| ensures LevelFor(levels'[k], us'[k], total) {
      if k < |levels| {
        assert levels'[k] == levels[k] && us'[k] == us[k];
      }
    }
    forall m, k | 0 <= m < k < |levels'| && k == m + 1 ensures LinkedIfNested(levels'[m], levels'[k]) {
      assert levels'[m] == levels[m];
      if k < |levels| {
        assert levels'[k] == levels[k];
      } else {
        assert levels'[k] == lv;
      }
    }
  }

  lemma ScanIsLink(fine: Level, lv: Level, total: nat)
    requires Tiling(fine, total) && Tiling(lv, total) && IsScan(fine, lv)
    ensures LinkedIfNested(fine, lv)
  {
    var next :| Scanned(fine, lv, next);
    ScanLinksNestedLevels(fine, lv, total, next);
  }
}
