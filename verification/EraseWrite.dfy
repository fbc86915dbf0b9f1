/** Widening a region to erase-block borders and writing it stretch by stretch
    (erasure_layout.c: align_region, erase_write). */
module EraseWrite {
  import opened Granularity
  import opened Helpers
  import opened EraseBlocks
  import opened Planner
  import opened Flash
  import opened RegionWalk
  import opened WritePhase
  import opened EraseHelper

  // ----- align_region ---------------------------------------------------------------

  /** Index of the smallest block that holds `a`. */
  ghost function BlockAt(levels: seq<Level>, size: nat, a: nat): (i: nat)
    requires ValidLayout(levels, size) && a < size
    ensures i < |levels[0]| && Holds(levels[0][i], a)
  {
    HasBlock(levels, size, a);
    var i: nat :| i < |levels[0]| && Holds(levels[0][i], a);
    i
  }

  lemma HasBlock(levels: seq<Level>, size: nat, a: nat)
    requires ValidLayout(levels, size) && a < size
    ensures exists i: nat :: i < |levels[0]| && Holds(levels[0][i], a)
  {
    IsTiling(levels, size, 0);
    var i := TilingFind(levels[0], size, a);
  }

  lemma OneBlock(levels: seq<Level>, size: nat, i: nat, j: nat, a: nat)
    requires ValidLayout(levels, size) && i < |levels[0]| && j < |levels[0]|
    requires Holds(levels[0][i], a) && Holds(levels[0][j], a)
    ensures i == j
  {
    IsTiling(levels, size, 0);
    TilingUnique(levels[0], size, i, j, a);
  }

  /** Start of the smallest block that holds `a`. */
  ghost function AlignedStart(levels: seq<Level>, size: nat, a: nat): (s: nat)
    requires ValidLayout(levels, size) && a < size
    ensures s <= a
  {
    levels[0][BlockAt(levels, size, a)].start
  }

  /** End of the smallest block that holds `a`. */
  ghost function AlignedEnd(levels: seq<Level>, size: nat, a: nat): (e: nat)
    requires ValidLayout(levels, size) && a < size
    ensures a <= e < size
  {
    IsBlock(levels, size, 0, BlockAt(levels, size, a));
    levels[0][BlockAt(levels, size, a)].end
  }

  const UINT_MAX: nat := 0xFFFF_FFFF

  /** `d` is the distance back to the nearest block start among those visited so far
      (all of levels below `k` and the first `j` blocks of level `k`). */
  ghost predicate NearestStart(levels: seq<Level>, k: nat, j: nat, a: nat, d: nat) {
    && (forall m: nat, i: nat | Visited(levels, k, j, m, i) && levels[m][i].start <= a :: d <= a - levels[m][i].start)
    && (d == UINT_MAX || exists m: nat, i: nat :: Visited(levels, k, j, m, i) && levels[m][i].start + d == a)
  }

  ghost predicate NearestEnd(levels: seq<Level>, k: nat, j: nat, a: nat, d: nat) {
    && (forall m: nat, i: nat | Visited(levels, k, j, m, i) && levels[m][i].end >= a :: d <= levels[m][i].end - a)
    && (d == UINT_MAX || exists m: nat, i: nat :: Visited(levels, k, j, m, i) && levels[m][i].end == a + d)
  }

  ghost predicate Visited(levels: seq<Level>, k: nat, j: nat, m: nat, i: nat) {
    m < |levels| && i < |levels[m]| && (m < k || (m == k && i < j))
  }

  /** Widens `[start, end]` to the borders of the smallest blocks at its two ends. */
  method AlignRegion(levels: seq<Level>, size: nat, start: nat, end: nat) returns (start': nat, end': nat)
    requires ValidLayout(levels, size) && start <= end < size <= UINT_MAX
    ensures start' == AlignedStart(levels, size, start) && end' == AlignedEnd(levels, size, end)
  {
    var startDiff: nat, endDiff: nat := UINT_MAX, UINT_MAX;
    for k := 0 to |levels|
      invariant NearestStart(levels, k, 0, start, startDiff) && NearestEnd(levels, k, 0, end, endDiff)
    {
      for j := 0 to |levels[k]|
        invariant NearestStart(levels, k, j, start, startDiff) && NearestEnd(levels, k, j, end, endDiff)
      {
        var b := levels[k][j];
        ghost var d0, e0 := startDiff, endDiff;
        if b.start <= start && start - b.start < startDiff {
          startDiff := start - b.start;
        }
        if b.end >= end && b.end - end < endDiff {
          endDiff := b.end - end;
        }
        StartStep(levels, k, j, start, d0, startDiff);
        EndStep(levels, k, j, end, e0, endDiff);
      }
      NextLevel(levels, k, start, startDiff, end, endDiff);
    }
    NearestIsAligned(levels, size, start, startDiff, end, endDiff);
    start', end' := start - startDiff, end + endDiff;
  }

  lemma StartStep(levels: seq<Level>, k: nat, j: nat, a: nat, d: nat, d': nat)
    requires k < |levels| && j < |levels[k]| && NearestStart(levels, k, j, a, d)
    requires var s := levels[k][j].start; d' == if s <= a && a - s < d then a - s else d
    ensures NearestStart(levels, k, j + 1, a, d')
  {
    assert Visited(levels, k, j + 1, k, j);
    if d' == d && d != UINT_MAX {
      var m: nat, i: nat :| Visited(levels, k, j, m, i) && levels[m][i].start + d == a;
      assert Visited(levels, k, j + 1, m, i);
    }
    forall m: nat, i: nat | Visited(levels, k, j + 1, m, i) && levels[m][i].start <= a
      ensures d' <= a - levels[m][i].start
    {
      assert (m == k && i == j) || Visited(levels, k, j, m, i);
    }
  }

  lemma EndStep(levels: seq<Level>, k: nat, j: nat, a: nat, d: nat, d': nat)
    requires k < |levels| && j < |levels[k]| && NearestEnd(levels, k, j, a, d)
    requires var e := levels[k][j].end; d' == if e >= a && e - a < d then e - a else d
    ensures NearestEnd(levels, k, j + 1, a, d')
  {
    assert Visited(levels, k, j + 1, k, j);
    if d' == d && d != UINT_MAX {
      var m: nat, i: nat :| Visited(levels, k, j, m, i) && levels[m][i].end == a + d;
      assert Visited(levels, k, j + 1, m, i);
    }
    forall m: nat, i: nat | Visited(levels, k, j + 1, m, i) && levels[m][i].end >= a
      ensures d' <= levels[m][i].end - a
    {
      assert (m == k && i == j) || Visited(levels, k, j, m, i);
    }
  }

  lemma NextLevel(levels: seq<Level>, k: nat, a: nat, d: nat, b: nat, e: nat)
    requires k < |levels| && NearestStart(levels, k, |levels[k]|, a, d) && NearestEnd(levels, k, |levels[k]|, b, e)
    ensures NearestStart(levels, k + 1, 0, a, d) && NearestEnd(levels, k + 1, 0, b, e)
  {
    forall m: nat, i: nat ensures Visited(levels, k + 1, 0, m, i) <==> Visited(levels, k, |levels[k]|, m, i) {
    }
  }

  /** The nearest border of any level is a border of the smallest block. */
  lemma NearestIsAligned(levels: seq<Level>, size: nat, a: nat, d: nat, b: nat, e: nat)
    requires ValidLayout(levels, size) && a < size <= UINT_MAX && b < size
    requires NearestStart(levels, |levels|, 0, a, d) && NearestEnd(levels, |levels|, 0, b, e)
    ensures a - d == AlignedStart(levels, size, a) && b + e == AlignedEnd(levels, size, b)
  {
    var i, j := BlockAt(levels, size, a), BlockAt(levels, size, b);
    IsBlock(levels, size, 0, i);
    IsBlock(levels, size, 0, j);
    assert Visited(levels, |levels|, 0, 0, i) && Visited(levels, |levels|, 0, 0, j);
    var m: nat, p: nat :| Visited(levels, |levels|, 0, m, p) && levels[m][p].start + d == a;
    var x, y := SmallestAtEnds(levels, size, m, p);
    IsBlock(levels, size, 0, x);
    OneBlock(levels, size, x, i, levels[0][x].start);
    var m': nat, p': nat :| Visited(levels, |levels|, 0, m', p') && levels[m'][p'].end == b + e;
    var x', y' := SmallestAtEnds(levels, size, m', p');
    IsBlock(levels, size, 0, y');
    OneBlock(levels, size, y', j, levels[0][y'].end);
  }

  // ----- Stretches of one protection region --------------------------------------------

  /** The smallest erase block of `a` lies inside the protection region of `a`. */
  ghost predicate Uncut(ctx: Ctx, lv: Level, a: nat) {
    Whole(lv, ctx.regionAt(a).start, ctx.regionAt(a).end, a)
  }

  /** A byte whose chunk needs an erase while its erase block crosses a region border. */
  ghost predicate CutBad(ctx: Ctx, lv: Level, have: Image, want: Image, a: nat) {
    Bad(ctx.gran, ctx.ev, have, want, a) && !Uncut(ctx, lv, a)
  }

  ghost predicate NoneCutBad(ctx: Ctx, lv: Level, have: Image, want: Image, lo: nat, hi: nat) {
    forall a: nat | lo <= a < hi && ctx.Writable(a) :: !CutBad(ctx, lv, have, want, a)
  }

  /** `addr` is where a stretch of `[rs, re]` starts: at `rs` or at a region border. */
  ghost predicate StretchStart(ctx: Ctx, rs: nat, addr: nat) {
    addr == rs || (addr > rs && ctx.regionAt(addr).start == addr)
  }

  lemma NextStretch(ctx: Ctx, rs: nat, re: nat, addr: nat, next: nat)
    requires ctx.Honest() && rs <= addr <= re < ctx.size && next == Min(re + 1, ctx.regionAt(addr).end + 1)
    ensures addr < next <= re + 1 && OneRegion(ctx, addr, next)
    ensures next <= re ==> next == ctx.regionAt(addr).end + 1 && StretchStart(ctx, rs, next)
    ensures OnGrid(re + 1, Stride(ctx.gran)) ==> OnGrid(next, Stride(ctx.gran))
  {
    WalkStep(ctx, addr, re + 1, next);
    if next <= re {
      assert ctx.HonestAt(next) && ctx.HonestAt(addr);
      assert ctx.regionAt(next - 1) == ctx.regionAt(addr);
    }
  }

  /** Inside a stretch, a block is whole exactly if no region border cuts it. */
  lemma WholeIffUncut(ctx: Ctx, levels: seq<Level>, start: nat, end: nat, addr: nat, next: nat, a: nat)
    requires ctx.Honest() && ValidLayout(levels, ctx.size) && start <= end < ctx.size
    requires var rs, re := AlignedStart(levels, ctx.size, start), AlignedEnd(levels, ctx.size, end);
             && rs <= addr <= re && StretchStart(ctx, rs, addr) && next == Min(re + 1, ctx.regionAt(addr).end + 1)
    requires addr <= a < next
    ensures Whole(levels[0], addr, next - 1, a) <==> Uncut(ctx, levels[0], a)
  {
    var rs, re := AlignedStart(levels, ctx.size, start), AlignedEnd(levels, ctx.size, end);
    NextStretch(ctx, rs, re, addr, next);
    assert ctx.regionAt(a) == ctx.regionAt(addr) && ctx.HonestAt(addr);
    if Uncut(ctx, levels[0], a) {
      var r := ctx.regionAt(a);
      var i :| 0 <= i < |levels[0]| && Holds(levels[0][i], a) && Within(levels[0][i], r.start, r.end);
      BlockInside(levels, ctx.size, start, end, i, a);
      assert Within(levels[0][i], addr, next - 1);
    }
  }

  /** A smallest block that meets an aligned region lies inside it. */
  lemma BlockInside(levels: seq<Level>, size: nat, start: nat, end: nat, i: nat, a: nat)
    requires ValidLayout(levels, size) && start <= end < size && i < |levels[0]| && Holds(levels[0][i], a)
    requires AlignedStart(levels, size, start) <= a <= AlignedEnd(levels, size, end)
    ensures Within(levels[0][i], AlignedStart(levels, size, start), AlignedEnd(levels, size, end))
  {
    var s, e := BlockAt(levels, size, start), BlockAt(levels, size, end);
    if levels[0][i].start < levels[0][s].start {
      OneBlock(levels, size, i, s, levels[0][s].start);
    }
    if levels[0][e].end < levels[0][i].end {
      OneBlock(levels, size, i, e, levels[0][e].end);
    }
  }

  // ----- The loop over stretches -------------------------------------------------------

  ghost predicate StretchImage(ctx: Ctx, m0: Image, m1: Image, c0: Image, c1: Image, want: Image, a: nat)
    requires a < |m0| && a < |m1| && a < |c0| && a < |c1| && a < |want|
  {
    if ctx.Writable(a) then c1[a] == want[a] else c1[a] == c0[a] && m1[a] == m0[a]
  }

  /** What the loop makes of one writable byte, whatever the image said.  `w` are the bytes
      of erased blocks: no region border cuts them, and they include every chunk of an uncut
      block that needs an erase. */
  ghost predicate StretchByte(ctx: Ctx, lv: Level, m0: Image, m1: Image, have: Image, want: Image, w: set<nat>, a: nat)
    requires |m1| == |m0| == |want| && a < |m0|
  {
    ctx.Writable(a) ==>
      if a in w then
        Uncut(ctx, lv, a) && m1[a] == want[a]
      else
        && !(Uncut(ctx, lv, a) && Bad(ctx.gran, ctx.ev, have, want, a))
        && LoopByte(ctx.gran, ctx.ev, m0, m1, have, want, a)
  }

  ghost predicate StretchLegal(ctx: Ctx, mem: Image, have: Image, want: Image, w: set<nat>, a: nat) {
    ctx.Writable(a) ==> SparedLegal(ctx, mem, have, want, w, a)
  }

  /** The same for all of `[lo, hi)`; recursive, to keep the quantifier out of the way. */
  ghost predicate StretchesLegal(ctx: Ctx, mem: Image, have: Image, want: Image, w: set<nat>, lo: nat, hi: nat) {
    lo >= hi || (StretchesLegal(ctx, mem, have, want, w, lo, hi - 1) && StretchLegal(ctx, mem, have, want, w, hi - 1))
  }

  lemma {:induction false} StretchesLegalMeans(ctx: Ctx, mem: Image, have: Image, want: Image, w: set<nat>, lo: nat,
                                               hi: nat)
    ensures StretchesLegal(ctx, mem, have, want, w, lo, hi) <==> forall a: nat | lo <= a < hi ::
            StretchLegal(ctx, mem, have, want, w, a)
  {
    if lo < hi {
      StretchesLegalMeans(ctx, mem, have, want, w, lo, hi - 1);
    }
  }

  lemma {:induction false} StretchesLegalJoin(ctx: Ctx, mem: Image, have: Image, want: Image, w: set<nat>, lo: nat,
                                              mid: nat, hi: nat)
    requires lo <= mid <= hi
    ensures StretchesLegal(ctx, mem, have, want, w, lo, hi) <==>
              StretchesLegal(ctx, mem, have, want, w, lo, mid) && StretchesLegal(ctx, mem, have, want, w, mid, hi)
  {
    if mid < hi {
      StretchesLegalJoin(ctx, mem, have, want, w, lo, mid, hi - 1);
    }
  }

  lemma {:induction false} StretchesLegalSame(ctx: Ctx, mem: Image, have: Image, want: Image, w: set<nat>, v: set<nat>,
                                              lo: nat, hi: nat)
    requires forall a: nat | lo <= a < hi :: a in w <==> a in v
    ensures StretchesLegal(ctx, mem, have, want, w, lo, hi) <==> StretchesLegal(ctx, mem, have, want, v, lo, hi)
  {
    if lo < hi {
      StretchesLegalSame(ctx, mem, have, want, w, v, lo, hi - 1);
    }
  }

  /** Every byte that can be written is already as wanted. */
  ghost predicate NoneDiffer(ctx: Ctx, have: Image, want: Image, lo: nat, hi: nat) {
    && hi <= |have| && hi <= |want|
    && forall a: nat | lo <= a < hi && ctx.Writable(a) :: have[a] == want[a]
  }

  /** No command so far means that nothing differed and the chip is as it was; and if nothing
      differs, no command is issued. */
  ghost predicate StretchQuiet(ctx: Ctx, m0: Image, m1: Image, have: Image, want: Image, ops: seq<Op>, lo: nat,
                               hi: nat) {
    && (ops == [] ==> NoneDiffer(ctx, have, want, lo, hi) && m1 == m0)
    && (ctx.ratio < 100 && NoneDiffer(ctx, have, want, lo, hi) ==> ops == [])
  }

  /** State of the loop after `[rs, addr)`; `ops` are the commands issued so far. */
  ghost predicate StretchWith(ctx: Ctx, lv: Level, m0: Image, m1: Image, c0: Image, c1: Image, want: Image,
                              l0: seq<Op>, l1: seq<Op>, rs: nat, addr: nat, ops: seq<Op>, w: set<nat>)
  {
    && rs <= addr <= |m0| == |c0| == |want| && OnGrid(rs, Stride(ctx.gran)) && OnGrid(addr, Stride(ctx.gran))
    && OnlyWithin(m0, m1, rs, addr) && OnlyWithin(c0, c1, rs, addr)
    && l1 == l0 + ops && OpsWithin(ctx, ops, 0, rs, addr)
    && (forall a: nat | rs <= a < addr :: StretchImage(ctx, m0, m1, c0, c1, want, a))
    && (forall a: nat | rs <= a < addr :: StretchByte(ctx, lv, m0, m1, c0, want, w, a))
    && (Lawful(ops, 0) <==> StretchesLegal(ctx, m0, c0, want, w, rs, addr))
    && StretchQuiet(ctx, m0, m1, c0, want, ops, rs, addr)
  }

  ghost predicate Stretches(ctx: Ctx, lv: Level, m0: Image, m1: Image, c0: Image, c1: Image, want: Image,
                            l0: seq<Op>, l1: seq<Op>, rs: nat, addr: nat)
  {
    exists ops, w :: StretchWith(ctx, lv, m0, m1, c0, c1, want, l0, l1, rs, addr, ops, w)
  }

  lemma StretchesStart(ctx: Ctx, lv: Level, m0: Image, c0: Image, want: Image, l0: seq<Op>, rs: nat)
    requires rs <= |m0| == |c0| == |want| && OnGrid(rs, Stride(ctx.gran))
    ensures Stretches(ctx, lv, m0, m0, c0, c0, want, l0, l0, rs, rs)
  {
    assert l0 == l0 + [];
    assert StretchWith(ctx, lv, m0, m0, c0, c0, want, l0, l0, rs, rs, [], {});
  }

  /** A protected stretch is passed over. */
  lemma SkipStretch(ctx: Ctx, lv: Level, m0: Image, m1: Image, c0: Image, c1: Image, want: Image,
                    l0: seq<Op>, l1: seq<Op>, rs: nat, addr: nat, next: nat)
    requires Stretches(ctx, lv, m0, m1, c0, c1, want, l0, l1, rs, addr) && OneRegion(ctx, addr, next)
    requires addr < next <= |m0| && !ctx.Writable(addr) && OnGrid(next, Stride(ctx.gran))
    ensures Stretches(ctx, lv, m0, m1, c0, c1, want, l0, l1, rs, next)
  {
    var ops, w :| StretchWith(ctx, lv, m0, m1, c0, c1, want, l0, l1, rs, addr, ops, w);
    forall a: nat | addr <= a < next ensures !ctx.Writable(a) && StretchLegal(ctx, m0, c0, want, w, a) {
      assert ctx.regionAt(a) == ctx.regionAt(addr);
    }
    StretchesLegalMeans(ctx, m0, c0, want, w, addr, next);
    StretchesLegalJoin(ctx, m0, c0, want, w, rs, addr, next);
    assert StretchWith(ctx, lv, m0, m1, c0, c1, want, l0, l1, rs, next, ops, w);
  }

  /** The geometry of one stretch of the aligned region. */
  ghost predicate StretchOf(ctx: Ctx, levels: seq<Level>, start: nat, end: nat, addr: nat, next: nat) {
    && ctx.Honest() && ValidLayout(levels, ctx.size) && start <= end < ctx.size
    && var rs, re := AlignedStart(levels, ctx.size, start), AlignedEnd(levels, ctx.size, end);
       rs <= addr <= re && StretchStart(ctx, rs, addr) && next == Min(re + 1, ctx.regionAt(addr).end + 1)
  }

  /** What the helper achieved on one byte of the stretch, in terms of the images before the
      loop. */
  lemma StretchMemByte(ctx: Ctx, levels: seq<Level>, start: nat, end: nat, addr: nat, next: nat,
                       m0: Image, m1: Image, m2: Image, c0: Image, c1: Image, want: Image, w: set<nat>, a: nat)
    requires StretchOf(ctx, levels, start, end, addr, next) && addr <= a < next <= |m0| == |m2| == |c0| == |want|
    requires OnGrid(addr, Stride(ctx.gran)) && OneRegion(ctx, addr, next) && ctx.Writable(addr)
    requires var rs := AlignedStart(levels, ctx.size, start);
             OnlyWithin(m0, m1, rs, addr) && OnlyWithin(c0, c1, rs, addr)
    requires HelperByte(ctx, levels[0], m1, m2, c1, want, addr, next - 1, w, a)
    ensures StretchByte(ctx, levels[0], m0, m2, c0, want, w, a)
    ensures StretchLegal(ctx, m0, c0, want, w, a) <==> SparedLegal(ctx, m1, c1, want, w, a)
  {
    var rs := AlignedStart(levels, ctx.size, start);
    assert ctx.regionAt(a) == ctx.regionAt(addr) && m1[a] == m0[a];
    WholeIffUncut(ctx, levels, start, end, addr, next, a);
    ChunkFrame(ctx.gran, ctx.ev, c0, c1, want, rs, addr, a);
    ChunkFrame(ctx.gran, ctx.ev, m0, m1, want, rs, addr, a);
    ByteTransfer(ctx, levels[0], m0, m1, m2, c0, c1, want, addr, next - 1, w, a);
  }

  lemma ByteTransfer(ctx: Ctx, lv: Level, m0: Image, m1: Image, m2: Image, c0: Image, c1: Image, want: Image,
                     lo: nat, hi: nat, w: set<nat>, a: nat)
    requires ctx.Writable(a) && |m0| == |m1| == |m2| == |want| && a < |m0| && m1[a] == m0[a]
    requires Whole(lv, lo, hi, a) <==> Uncut(ctx, lv, a)
    requires Diff(ctx.gran, c0, want, a) <==> Diff(ctx.gran, c1, want, a)
    requires Bad(ctx.gran, ctx.ev, c0, want, a) <==> Bad(ctx.gran, ctx.ev, c1, want, a)
    requires Legal(ctx.gran, ctx.ev, m0, want, a) <==> Legal(ctx.gran, ctx.ev, m1, want, a)
    requires HelperByte(ctx, lv, m1, m2, c1, want, lo, hi, w, a)
    ensures StretchByte(ctx, lv, m0, m2, c0, want, w, a)
    ensures StretchLegal(ctx, m0, c0, want, w, a) <==> SparedLegal(ctx, m1, c1, want, w, a)
  {
  }

  lemma StretchMem(ctx: Ctx, levels: seq<Level>, start: nat, end: nat, addr: nat, next: nat,
                   m0: Image, m1: Image, m2: Image, c0: Image, c1: Image, want: Image, l1: seq<Op>, l2: seq<Op>,
                     w: set<nat>)
    requires StretchOf(ctx, levels, start, end, addr, next) && addr < next <= |m0| == |c0| == |want|
    requires OnGrid(addr, Stride(ctx.gran)) && OneRegion(ctx, addr, next) && ctx.Writable(addr)
    requires var rs := AlignedStart(levels, ctx.size, start);
             OnlyWithin(m0, m1, rs, addr) && OnlyWithin(c0, c1, rs, addr)
    requires HelperResult(ctx, levels[0], m1, m2, c1, want, l1, l2, addr, next - 1, w)
    ensures |m2| == |m0| && forall a: nat | addr <= a < next :: StretchByte(ctx, levels[0], m0, m2, c0, want, w, a)
    ensures Lawful(l2, |l1|) <==> StretchesLegal(ctx, m0, c0, want, w, addr, next)
  {
    forall a: nat | addr <= a < next
      ensures StretchByte(ctx, levels[0], m0, m2, c0, want, w, a)
      ensures StretchLegal(ctx, m0, c0, want, w, a) <==> SparedLegal(ctx, m1, c1, want, w, a)
    {
      assert HelperByte(ctx, levels[0], m1, m2, c1, want, addr, next - 1, w, a);
      StretchMemByte(ctx, levels, start, end, addr, next, m0, m1, m2, c0, c1, want, w, a);
    }
    StretchesLegalMeans(ctx, m0, c0, want, w, addr, next);
  }

  lemma StretchDone(ctx: Ctx, levels: seq<Level>, start: nat, end: nat, addr: nat, next: nat,
                    m0: Image, m1: Image, m2: Image, c0: Image, c1: Image, c2: Image, want: Image,
                    l0: seq<Op>, l1: seq<Op>, l2: seq<Op>, rs: nat)
    requires StretchOf(ctx, levels, start, end, addr, next) && rs == AlignedStart(levels, ctx.size, start)
    requires addr < next <= |m0| && OnGrid(next, Stride(ctx.gran)) && OneRegion(ctx, addr, next) && ctx.Writable(addr)
    requires Stretches(ctx, levels[0], m0, m1, c0, c1, want, l0, l1, rs, addr)
    requires HelperSafe(ctx, m1, m2, c1, c2, l1, l2, addr, next - 1)
    requires HelperOutcome(ctx, levels[0], m1, m2, c1, c2, want, l1, l2, addr, next - 1)
    ensures Stretches(ctx, levels[0], m0, m2, c0, c2, want, l0, l2, rs, next)
  {
    var lv := levels[0];
    var ops, w :| StretchWith(ctx, lv, m0, m1, c0, c1, want, l0, l1, rs, addr, ops, w);
    var v: set<nat> :| HelperResult(ctx, lv, m1, m2, c1, want, l1, l2, addr, next - 1, v);
    var more := l2[|l1|..];
    LogSplit(l0, ops, l2);
    StretchImages(ctx, levels, addr, next, m0, m1, m2, c0, c1, c2, want, l1, l2, rs);
    OpsJoin(ctx, l1, l2, ops, rs, addr, next);
    StretchMem(ctx, levels, start, end, addr, next, m0, m1, m2, c0, c1, want, l1, l2, v);
    LawfulJoin(l1, l2, ops);
    RunWritable(ctx, addr, next, addr, next);
    QuietJoin(ctx, m0, m1, m2, c0, c1, want, l1, l2, ops, rs, addr, next);
    var u := Spliced(w, v, addr);
    StretchBytes(ctx, lv, m0, m1, m2, c0, want, rs, addr, next, w, v);
    assert StretchWith(ctx, lv, m0, m2, c0, c2, want, l0, l2, rs, next, ops + more, u);
  }

  lemma QuietJoin(ctx: Ctx, m0: Image, m1: Image, m2: Image, c0: Image, c1: Image, want: Image,
                  l1: seq<Op>, l2: seq<Op>, ops: seq<Op>, rs: nat, addr: nat, next: nat)
    requires rs <= addr < next <= |m0| == |c0| == |want| && l1 <= l2 && AllWritable(ctx, addr, next)
    requires OnlyWithin(c0, c1, rs, addr) && OnlyWithin(m1, m2, addr, next)
    requires StretchQuiet(ctx, m0, m1, c0, want, ops, rs, addr)
    requires HelperQuiet(ctx, m1, m2, c1, want, l1, l2, addr, next - 1)
    ensures StretchQuiet(ctx, m0, m2, c0, want, ops + l2[|l1|..], rs, next)
  {
    assert NoneDiffer(ctx, c0, want, rs, next) <==>
           NoneDiffer(ctx, c0, want, rs, addr) && Granularity.Same(c1, want, addr, next) by {
      forall a: nat | addr <= a < next ensures ctx.Writable(a) && c1[a] == c0[a] {
      }
    }
    if ops + l2[|l1|..] == [] {
      assert l2 == l1;
      forall a: nat | a < |m1| ensures m2[a] == m1[a] {
      }
      assert m2 == m1;
    }
  }

  /** `w` below `addr` and `v` from there on. */
  ghost function Spliced(w: set<nat>, v: set<nat>, addr: nat): (u: set<nat>)
    ensures forall a: nat :: a in u <==> if a < addr then a in w else a in v
  {
    (set a | a in w && a < addr) + (set a | a in v && a >= addr)
  }

  lemma LogSplit(l0: seq<Op>, ops: seq<Op>, l2: seq<Op>)
    requires l0 + ops <= l2
    ensures l2 == l0 + (ops + l2[|l0 + ops|..])
  {
  }

  lemma StretchBytes(ctx: Ctx, lv: Level, m0: Image, m1: Image, m2: Image, c0: Image, want: Image, rs: nat, addr: nat,
                     next: nat, w: set<nat>, v: set<nat>)
    requires rs <= addr <= next <= |m0| == |m1| == |m2| == |want| && OnlyWithin(m1, m2, addr, next)
    requires forall a: nat | rs <= a < addr :: StretchByte(ctx, lv, m0, m1, c0, want, w, a)
    requires forall a: nat | addr <= a < next :: StretchByte(ctx, lv, m0, m2, c0, want, v, a)
    ensures forall a: nat | rs <= a < next :: StretchByte(ctx, lv, m0, m2, c0, want, Spliced(w, v, addr), a)
    ensures StretchesLegal(ctx, m0, c0, want, Spliced(w, v, addr), rs, next) <==>
              StretchesLegal(ctx, m0, c0, want, w, rs, addr) && StretchesLegal(ctx, m0, c0, want, v, addr, next)
  {
    var u := Spliced(w, v, addr);
    forall a: nat | rs <= a < next ensures StretchByte(ctx, lv, m0, m2, c0, want, u, a) {
      if a < addr {
        assert StretchByte(ctx, lv, m0, m1, c0, want, w, a) && m2[a] == m1[a];
      } else {
        assert StretchByte(ctx, lv, m0, m2, c0, want, v, a);
      }
    }
    StretchesLegalJoin(ctx, m0, c0, want, u, rs, addr, next);
    StretchesLegalSame(ctx, m0, c0, want, u, w, rs, addr);
    StretchesLegalSame(ctx, m0, c0, want, u, v, addr, next);
  }

  lemma StretchImages(ctx: Ctx, levels: seq<Level>, addr: nat, next: nat, m0: Image, m1: Image, m2: Image,
                      c0: Image, c1: Image, c2: Image, want: Image, l1: seq<Op>, l2: seq<Op>, rs: nat)
    requires rs <= addr < next <= |m0| == |c0| == |want| && OneRegion(ctx, addr, next) && ctx.Writable(addr)
    requires OnlyWithin(m0, m1, rs, addr) && OnlyWithin(c0, c1, rs, addr)
    requires forall a: nat | rs <= a < addr :: StretchImage(ctx, m0, m1, c0, c1, want, a)
    requires HelperSafe(ctx, m1, m2, c1, c2, l1, l2, addr, next - 1)
    requires Granularity.Same(c2, want, addr, next)
    ensures OnlyWithin(m0, m2, rs, next) && OnlyWithin(c0, c2, rs, next)
    ensures forall a: nat | rs <= a < next :: StretchImage(ctx, m0, m2, c0, c2, want, a)
  {
    forall a: nat | rs <= a < next ensures StretchImage(ctx, m0, m2, c0, c2, want, a) {
      if a < addr {
        assert StretchImage(ctx, m0, m1, c0, c1, want, a);
      } else {
        assert ctx.regionAt(a) == ctx.regionAt(addr);
      }
    }
  }

  lemma OpsJoin(ctx: Ctx, l1: seq<Op>, l2: seq<Op>, ops: seq<Op>, rs: nat, addr: nat, next: nat)
    requires l1 <= l2 && rs <= addr <= next && OpsWithin(ctx, ops, 0, rs, addr) && OpsWithin(ctx, l2, |l1|, addr, next)
    ensures OpsWithin(ctx, ops + l2[|l1|..], 0, rs, next)
  {
    var all := ops + l2[|l1|..];
    forall i | 0 <= i < |all|
      ensures rs <= all[i].start && all[i].end <= next && AllWritable(ctx, all[i].start, all[i].end)
    {
      assert all[i] == if i < |ops| then ops[i] else l2[|l1| + (i - |ops|)];
    }
  }

  lemma LawfulJoin(l1: seq<Op>, l2: seq<Op>, ops: seq<Op>)
    requires l1 <= l2
    ensures Lawful(ops + l2[|l1|..], 0) <==> Lawful(ops, 0) && Lawful(l2, |l1|)
  {
    var all := ops + l2[|l1|..];
    if Lawful(all, 0) {
      forall i | 0 <= i < |ops| ensures ops[i].Program? ==> ops[i].legal {
        assert all[i] == ops[i];
      }
      forall i | |l1| <= i < |l2| ensures l2[i].Program? ==> l2[i].legal {
        assert all[|ops| + (i - |l1|)] == l2[i];
      }
    }
    if Lawful(ops, 0) && Lawful(l2, |l1|) {
      forall i | 0 <= i < |all| ensures all[i].Program? ==> all[i].legal {
        assert all[i] == if i < |ops| then ops[i] else l2[|l1| + (i - |ops|)];
      }
    }
  }

  ghost predicate Setup(ctx: Ctx, chip: Chip, layout: EraseLayout, cur: array<byte>, new': array<byte>)
    reads chip, layout
  {
    && ctx.Honest() && ctx.size <= UINT_MAX && Attached(ctx, chip) && layout.Valid() && layout.size == ctx.size
    && cur.Length == new'.Length == ctx.size && cur != new'
    && BlocksOnGrid(layout.levels[0], ctx.gran) && ErasedOk(ctx.gran, ctx.ev)
    && layout.Flags() == {}
  }

  /** What every run keeps, also one that stops with an error. */
  ghost predicate Safe(ctx: Ctx, m0: Image, m1: Image, c0: Image, c1: Image, l0: seq<Op>, l1: seq<Op>, rs: nat,
                       re: nat) {
    && OnlyWithin(m0, m1, rs, re + 1) && OnlyWithin(c0, c1, rs, re + 1)
    && l0 <= l1 && OpsWithin(ctx, l1, |l0|, rs, re + 1)
    && forall a: nat | a < |m0| && !ctx.Writable(a) :: m1[a] == m0[a]
  }

  /** The loop of erase_write over the protection regions of the aligned region. */
  method WriteStretches(ctx: Ctx, chip: Chip, layout: EraseLayout, cur: array<byte>, new': array<byte>,
                        rs: nat, re: nat, skipped: bool, ghost start: nat, ghost end: nat)
    returns (ret: int, skipped': bool)
    requires Setup(ctx, chip, layout, cur, new') && start <= end < ctx.size
    requires rs == AlignedStart(layout.levels, ctx.size, start) && re == AlignedEnd(layout.levels, ctx.size, end)
    modifies chip, layout`selected, cur
    ensures ret == 0 || ret == -1
    ensures Attached(ctx, chip) && layout.Valid()
    ensures Safe(ctx, old(chip.mem), chip.mem, old(cur[..]), cur[..], old(chip.log), chip.log, rs, re)
    ensures ret == 0 ==> layout.Flags() == {}
    ensures chip.readFaults >= old(chip.readFaults) && chip.faults >= old(chip.faults)
    ensures ret == 0 <==> chip.Failures() == old(chip.Failures())
    ensures !ctx.verifyAfterWrite ==> chip.readFaults == old(chip.readFaults)
    ensures ret == 0 ==> (skipped' <==> skipped && chip.log == old(chip.log))
    ensures ret == 0 ==> Stretches(ctx, layout.levels[0], old(chip.mem), chip.mem, old(cur[..]), cur[..], new'[..],
                                   old(chip.log), chip.log, rs, re + 1)
  {
    ghost var m0, c0, l0, want := chip.mem, cur[..], chip.log, new'[..];
    AlignedOnGrid(ctx, layout.levels, start, end);
    StretchesStart(ctx, layout.levels[0], m0, c0, want, l0, rs);
    ret, skipped' := 0, skipped;
    var addr := rs;
    while addr <= re
      invariant rs <= addr <= re + 1 && Setup(ctx, chip, layout, cur, new') && new'[..] == want
      invariant ret == 0 && chip.readFaults == old(chip.readFaults) && chip.faults == old(chip.faults)
      invariant addr <= re ==> StretchStart(ctx, rs, addr)
      invariant Stretches(ctx, layout.levels[0], m0, chip.mem, c0, cur[..], want, l0, chip.log, rs, addr)
      invariant skipped' <==> skipped && chip.log == l0
    {
      var next := Min(re + 1, ctx.regionAt(addr).end + 1);
      NextStretch(ctx, rs, re, addr, next);
      ret, skipped' := WriteStretch(ctx, chip, layout, cur, new', addr, next, skipped', start, end, rs, re, m0, c0,
        want, l0);
      if ret != 0 {
        return;
      }
      addr := next;
    }
    StretchesSafe(ctx, layout.levels[0], m0, chip.mem, c0, cur[..], want, l0, chip.log, rs, re + 1);
  }

  /** The helper on one stretch, with only what the loop over the stretches needs. */
  method HelpStretch(ctx: Ctx, chip: Chip, layout: EraseLayout, cur: array<byte>, new': array<byte>, lo: nat, hi: nat,
                     skipped: bool) returns (ret: int, skipped': bool)
    requires Setup(ctx, chip, layout, cur, new') && lo <= hi < ctx.size && WriteReady(ctx, lo, hi + 1)
    modifies chip, layout`selected, cur
    ensures ret == 0 || ret == -1
    ensures Attached(ctx, chip) && layout.Valid()
    ensures HelperSafe(ctx, old(chip.mem), chip.mem, old(cur[..]), cur[..], old(chip.log), chip.log, lo, hi)
    ensures ret == 0 ==> layout.Flags() == {}
    ensures chip.readFaults >= old(chip.readFaults) && chip.faults >= old(chip.faults)
    ensures ret == 0 <==> chip.Failures() == old(chip.Failures())
    ensures !ctx.verifyAfterWrite ==> chip.readFaults == old(chip.readFaults)
    ensures ret == 0 ==> HelperOutcome(ctx, layout.levels[0], old(chip.mem), chip.mem, old(cur[..]), cur[..], new'[..],
                                       old(chip.log), chip.log, lo, hi)
    ensures ret == 0 ==> (skipped' <==> skipped && chip.log == old(chip.log))
  {
    ghost var m0, c0, l0 := chip.mem, cur[..], chip.log;
    ret, skipped' := EraseWriteHelper(ctx, chip, layout, cur, new', lo, hi, skipped);
    if ret == 0 {
      HelperFacts(ctx, layout.levels, m0, chip.mem, c0, cur[..], new'[..], l0, chip.log, lo, hi);
    }
  }

  /** One iteration: writes the stretch, or skips it if it is write-protected. */
  method WriteStretch(ctx: Ctx, chip: Chip, layout: EraseLayout, cur: array<byte>, new': array<byte>,
                      addr: nat, next: nat, skipped: bool, ghost start: nat, ghost end: nat, ghost rs: nat,
                        ghost re: nat,
                      ghost m0: Image, ghost c0: Image, ghost want: Image, ghost l0: seq<Op>)
    returns (ret: int, skipped': bool)
    requires Setup(ctx, chip, layout, cur, new') && new'[..] == want && start <= end < ctx.size
    requires rs == AlignedStart(layout.levels, ctx.size, start) && re == AlignedEnd(layout.levels, ctx.size, end)
    requires StretchOf(ctx, layout.levels, start, end, addr, next) && addr < next <= re + 1
    requires OneRegion(ctx, addr, next) && OnGrid(next, Stride(ctx.gran))
    requires Stretches(ctx, layout.levels[0], m0, chip.mem, c0, cur[..], want, l0, chip.log, rs, addr)
    modifies chip, layout`selected, cur
    ensures ret == 0 || ret == -1
    ensures Attached(ctx, chip) && layout.Valid() && new'[..] == want
    ensures ret != 0 ==> Safe(ctx, m0, chip.mem, c0, cur[..], l0, chip.log, rs, re)
    ensures ret == 0 ==> layout.Flags() == {}
    ensures chip.readFaults >= old(chip.readFaults) && chip.faults >= old(chip.faults)
    ensures ret == 0 <==> chip.Failures() == old(chip.Failures())
    ensures !ctx.verifyAfterWrite ==> chip.readFaults == old(chip.readFaults)
    ensures ret == 0 ==> Stretches(ctx, layout.levels[0], m0, chip.mem, c0, cur[..], want, l0, chip.log, rs, next)
    ensures ret == 0 ==> (skipped' <==> skipped && chip.log == old(chip.log)) && old(chip.log) <= chip.log
  {
    ghost var m1, c1, l1 := chip.mem, cur[..], chip.log;
    StretchesSafe(ctx, layout.levels[0], m0, m1, c0, c1, want, l0, l1, rs, addr);
    if ctx.regionAt(addr).writeProt {
      SkipStretch(ctx, layout.levels[0], m0, m1, c0, c1, want, l0, l1, rs, addr, next);
      return 0, skipped;
    }
    ret, skipped' := HelpStretch(ctx, chip, layout, cur, new', addr, next - 1, skipped);
    if ret == 0 {
      StretchDone(ctx, layout.levels, start, end, addr, next, m0, m1, chip.mem, c0, c1, cur[..], want,
                  l0, l1, chip.log, rs);
    } else {
      SafeExtend(ctx, m0, m1, chip.mem, c0, c1, cur[..], l0, l1, chip.log, rs, re, addr, next);
    }
  }

  lemma AlignedOnGrid(ctx: Ctx, levels: seq<Level>, start: nat, end: nat)
    requires ValidLayout(levels, ctx.size) && start <= end < ctx.size && BlocksOnGrid(levels[0], ctx.gran)
    ensures OnGrid(AlignedStart(levels, ctx.size, start), Stride(ctx.gran))
    ensures OnGrid(AlignedEnd(levels, ctx.size, end) + 1, Stride(ctx.gran))
  {
  }

  lemma StretchesSafe(ctx: Ctx, lv: Level, m0: Image, m1: Image, c0: Image, c1: Image, want: Image,
                      l0: seq<Op>, l1: seq<Op>, rs: nat, addr: nat)
    requires Stretches(ctx, lv, m0, m1, c0, c1, want, l0, l1, rs, addr)
    ensures OnGrid(addr, Stride(ctx.gran)) && OnlyWithin(m0, m1, rs, addr) && OnlyWithin(c0, c1, rs, addr)
    ensures l0 <= l1 && OpsWithin(ctx, l1, |l0|, rs, addr) && |m0| == |c0| == |want|
    ensures forall a: nat | a < |m0| && !ctx.Writable(a) :: m1[a] == m0[a]
  {
    var ops, w :| StretchWith(ctx, lv, m0, m1, c0, c1, want, l0, l1, rs, addr, ops, w);
    forall i | |l0| <= i < |l1|
      ensures rs <= l1[i].start && l1[i].end <= addr && AllWritable(ctx, l1[i].start, l1[i].end)
    {
      assert l1[i] == ops[i - |l0|];
    }
    forall a: nat | a < |m0| && !ctx.Writable(a) ensures m1[a] == m0[a] {
      if rs <= a < addr {
        assert StretchImage(ctx, m0, m1, c0, c1, want, a);
      }
    }
  }

  lemma SafeExtend(ctx: Ctx, m0: Image, m1: Image, m2: Image, c0: Image, c1: Image, c2: Image,
                   l0: seq<Op>, l1: seq<Op>, l2: seq<Op>, rs: nat, re: nat, addr: nat, next: nat)
    requires rs <= addr < next <= re + 1 && OneRegion(ctx, addr, next) && ctx.Writable(addr)
    requires OnlyWithin(m0, m1, rs, addr) && OnlyWithin(c0, c1, rs, addr)
    requires l0 <= l1 && OpsWithin(ctx, l1, |l0|, rs, addr)
    requires forall a: nat | a < |m0| && !ctx.Writable(a) :: m1[a] == m0[a]
    requires HelperSafe(ctx, m1, m2, c1, c2, l1, l2, addr, next - 1)
    ensures Safe(ctx, m0, m2, c0, c2, l0, l2, rs, re)
  {
    forall i | |l0| <= i < |l2|
      ensures rs <= l2[i].start && l2[i].end <= re + 1 && AllWritable(ctx, l2[i].start, l2[i].end)
    {
      if i < |l1| {
        assert l2[i] == l1[i];
      }
    }
    forall a: nat | addr <= a < next ensures ctx.Writable(a) {
      assert ctx.regionAt(a) == ctx.regionAt(addr);
    }
  }

  // ----- erase_write -------------------------------------------------------------------

  /** `x` with the alignment padding of `[start, end]` inside `[rs, re]` taken from the chip. */
  ghost function Padded(x: Image, mem: Image, start: nat, end: nat, rs: nat, re: nat): (p: Image)
    requires |x| == |mem|
    ensures |p| == |x|
    ensures forall a: nat | a < |x| :: p[a] == if rs <= a < start || end < a <= re then mem[a] else x[a]
  {
    seq(|x|, a requires 0 <= a < |x| => if rs <= a < start || end < a <= re then mem[a] else x[a])
  }

  /** What erase_write achieves: with the padding taken from the chip on both sides, all
      stretches of the aligned region are written. */
  ghost predicate EraseWriteOk(ctx: Ctx, lv: Level, m0: Image, m1: Image, c0: Image, c1: Image, want: Image,
                               l0: seq<Op>, l1: seq<Op>, start: nat, end: nat, rs: nat, re: nat)
    requires |m0| == |c0| == |want|
  {
    var have', want' := Padded(c0, m0, start, end, rs, re), Padded(want, m0, start, end, rs, re);
    Stretches(ctx, lv, m0, m1, have', c1, want', l0, l1, rs, re + 1)
  }

  /** No read failed and the padding is readable. */
  ghost predicate PaddingRead(ctx: Ctx, faults0: nat, faults1: nat, start: nat, end: nat, rs: nat, re: nat) {
    faults0 == faults1 && AllReadable(ctx, rs, start) && AllReadable(ctx, end + 1, re + 1)
  }

  /** Reads the padding `[from, til)` and makes it part of the wanted image; returns what
      the caller's buffer held there.  The result of the read is ignored. */
  method Extend(ctx: Ctx, chip: Chip, cur: array<byte>, new': array<byte>, from: nat, til: nat)
                returns (saved: seq<byte>)
    requires ctx.Honest() && Attached(ctx, chip) && cur.Length == new'.Length == ctx.size && cur != new'
    requires from <= til <= ctx.size
    modifies chip`step, chip`readFaults, cur, new'
    ensures saved == old(new'[from..til])
    ensures OnlyWithin(old(cur[..]), cur[..], from, til) && OnlyWithin(old(new'[..]), new'[..], from, til)
    ensures Attached(ctx, chip) && chip.readFaults >= old(chip.readFaults)
    ensures chip.readFaults == old(chip.readFaults) && AllReadable(ctx, from, til) ==>
              Granularity.Same(cur[..], chip.mem, from, til) && Granularity.Same(new'[..], chip.mem, from, til)
  {
    saved := new'[from..til];
    if from < til {
      var ret := ReadFlash(ctx, chip, cur, from, til - from);
      if ret == 0 {
        ReadableBack(ctx, chip.mem, cur[..], from, til);
      }
      forall a | from <= a < til {
        new'[a] := cur[a];
      }
    }
  }

  lemma ReadableBack(ctx: Ctx, mem: Image, buf: Image, lo: nat, hi: nat)
    requires ReadBack(ctx, mem, buf, lo, hi)
    ensures AllReadable(ctx, lo, hi) ==> Granularity.Same(buf, mem, lo, hi)
  {
    forall a: nat | lo <= a < hi && AllReadable(ctx, lo, hi) ensures buf[a] == mem[a] {
      assert ReadByte(ctx, mem, buf, a) && ctx.Readable(a);
    }
  }

  /** Both extensions; afterwards both buffers are padded from the chip if it could be read. */
  method ExtendBoth(ctx: Ctx, chip: Chip, cur: array<byte>, new': array<byte>, start: nat, end: nat, rs: nat, re: nat)
    returns (oldStart: seq<byte>, oldEnd: seq<byte>)
    requires ctx.Honest() && Attached(ctx, chip) && cur.Length == new'.Length == ctx.size && cur != new'
    requires rs <= start <= end <= re < ctx.size
    modifies chip`step, chip`readFaults, cur, new'
    ensures OnlyWithin(old(cur[..]), cur[..], rs, re + 1)
    ensures Unpadded(old(new'[..]), new'[..], oldStart, oldEnd, start, end, rs, re)
    ensures Attached(ctx, chip) && chip.readFaults >= old(chip.readFaults)
    ensures PaddingRead(ctx, old(chip.readFaults), chip.readFaults, start, end, rs, re) ==>
              && cur[..] == Padded(old(cur[..]), chip.mem, start, end, rs, re)
              && new'[..] == Padded(old(new'[..]), chip.mem, start, end, rs, re)
  {
    oldStart := Extend(ctx, chip, cur, new', rs, start);
    oldEnd := Extend(ctx, chip, cur, new', end + 1, re + 1);
  }

  /** `x0` is `x1` with the two saved pieces put back. */
  ghost predicate Unpadded(x0: Image, x1: Image, oldStart: seq<byte>, oldEnd: seq<byte>, start: nat, end: nat, rs: nat,
                           re: nat) {
    && |x1| == |x0| && rs <= start <= end <= re < |x0|
    && oldStart == x0[rs..start] && oldEnd == x0[end + 1..re + 1]
    && forall a: nat | a < |x0| && !(rs <= a < start) && !(end < a <= re) :: x1[a] == x0[a]
  }

  method Restore(new': array<byte>, oldStart: seq<byte>, oldEnd: seq<byte>, start: nat, end: nat, rs: nat, re: nat,
                 ghost want: Image)
    requires Unpadded(want, new'[..], oldStart, oldEnd, start, end, rs, re)
    modifies new'
    ensures new'[..] == want
  {
    forall a | rs <= a < start {
      new'[a] := oldStart[a - rs];
    }
    forall a | end + 1 <= a < re + 1 {
      new'[a] := oldEnd[a - (end + 1)];
    }
  }

  /** erase_write refuses to start: the aligned region holds a write-protected byte and such
      bytes are not to be skipped. */
  ghost predicate Refused(ctx: Ctx, levels: seq<Level>, start: nat, end: nat)
    requires ValidLayout(levels, ctx.size) && start <= end < ctx.size
  {
    && !ctx.skipUnwritable
    && !AllWritable(ctx, AlignedStart(levels, ctx.size, start), AlignedEnd(levels, ctx.size, end) + 1)
  }

  /** Writes `new'` to `[start, end]`.  In every run the caller's buffer comes back
      unchanged, only bytes of the aligned region change, and no write-protected byte is
      touched; a successful run leaves no block selected.  It fails only if the region is
      refused or the device fails. */
  method WriteRegion(ctx: Ctx, chip: Chip, layout: EraseLayout, cur: array<byte>, new': array<byte>, start: nat,
                     end: nat, skipped: bool) returns (ret: int, skipped': bool)
    requires Setup(ctx, chip, layout, cur, new') && start <= end < ctx.size
    modifies chip, layout`selected, cur, new'
    ensures ret == 0 || ret == -1
    ensures Attached(ctx, chip) && layout.Valid() && new'[..] == old(new'[..])
    ensures Safe(ctx, old(chip.mem), chip.mem, old(cur[..]), cur[..], old(chip.log), chip.log,
                 AlignedStart(layout.levels, ctx.size, start), AlignedEnd(layout.levels, ctx.size, end))
    ensures ret == 0 ==> layout.Flags() == {} && chip.faults == old(chip.faults)
    ensures chip.readFaults >= old(chip.readFaults) && chip.faults >= old(chip.faults)
    ensures ret != 0 && chip.Failures() == old(chip.Failures()) <==> Refused(ctx, layout.levels, start, end)
    ensures ret != 0 && !ctx.verifyAfterWrite ==>
              chip.faults > old(chip.faults) || Refused(ctx, layout.levels, start, end)
    ensures Refused(ctx, layout.levels, start, end) ==>
              chip.mem == old(chip.mem) && chip.log == old(chip.log) && cur[..] == old(cur[..])
    ensures ret == 0 ==> (skipped' <==> skipped && chip.log == old(chip.log))
    ensures var rs, re := AlignedStart(layout.levels, ctx.size, start), AlignedEnd(layout.levels, ctx.size, end);
            ret == 0 && PaddingRead(ctx, old(chip.readFaults), chip.readFaults, start, end, rs, re) ==>
              EraseWriteOk(ctx, layout.levels[0], old(chip.mem), chip.mem, old(cur[..]), cur[..], old(new'[..]),
                           old(chip.log), chip.log, start, end, rs, re)
  {
    var rs, re := AlignRegion(layout.levels, ctx.size, start, end);
    skipped' := skipped;
    if !ctx.skipUnwritable {
      var bad := CheckForUnwritableRegions(ctx, rs, re - rs + 1);
      if bad != 0 {
        return -1, skipped';
      }
    }
    ret, skipped' := EraseWriteAligned(ctx, chip, layout, cur, new', start, end, rs, re, skipped);
  }

  /** erase_write after the region has been aligned and checked. */
  method EraseWriteAligned(ctx: Ctx, chip: Chip, layout: EraseLayout, cur: array<byte>, new': array<byte>,
                           start: nat, end: nat, rs: nat, re: nat, skipped: bool) returns (ret: int, skipped': bool)
    requires Setup(ctx, chip, layout, cur, new') && start <= end < ctx.size
    requires rs == AlignedStart(layout.levels, ctx.size, start) && re == AlignedEnd(layout.levels, ctx.size, end)
    modifies chip, layout`selected, cur, new'
    ensures ret == 0 || ret == -1
    ensures Attached(ctx, chip) && layout.Valid() && new'[..] == old(new'[..])
    ensures Safe(ctx, old(chip.mem), chip.mem, old(cur[..]), cur[..], old(chip.log), chip.log, rs, re)
    ensures ret == 0 ==> layout.Flags() == {} && chip.faults == old(chip.faults)
    ensures chip.readFaults >= old(chip.readFaults) && chip.faults >= old(chip.faults)
    ensures ret != 0 ==> chip.Failures() > old(chip.Failures())
    ensures ret != 0 && !ctx.verifyAfterWrite ==> chip.faults > old(chip.faults)
    ensures ret == 0 ==> (skipped' <==> skipped && chip.log == old(chip.log))
    ensures ret == 0 && PaddingRead(ctx, old(chip.readFaults), chip.readFaults, start, end, rs, re) ==>
              EraseWriteOk(ctx, layout.levels[0], old(chip.mem), chip.mem, old(cur[..]), cur[..], old(new'[..]),
                           old(chip.log), chip.log, start, end, rs, re)
  {
    ghost var m0, c0, l0, want := chip.mem, cur[..], chip.log, new'[..];
    var oldStart, oldEnd := ExtendBoth(ctx, chip, cur, new', start, end, rs, re);
    ghost var c1, want1 := cur[..], new'[..];
    ret, skipped' := WriteStretches(ctx, chip, layout, cur, new', rs, re, skipped, start, end);
    SafeAfterPadding(ctx, m0, chip.mem, c0, c1, cur[..], l0, chip.log, rs, re);
    Restore(new', oldStart, oldEnd, start, end, rs, re, want);
  }

  lemma SafeAfterPadding(ctx: Ctx, m0: Image, m1: Image, c0: Image, c1: Image, c2: Image,
                         l0: seq<Op>, l1: seq<Op>, rs: nat, re: nat)
    requires Safe(ctx, m0, m1, c1, c2, l0, l1, rs, re) && OnlyWithin(c0, c1, rs, re + 1)
    ensures Safe(ctx, m0, m1, c0, c2, l0, l1, rs, re)
  {
  }
}
