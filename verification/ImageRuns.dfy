/** Concrete runs of the layout operations on chips that never fail, most of which report
    success over a byte that is not as asked. */
module ImageRuns {
  import opened Granularity
  import opened Helpers
  import opened EraseBlocks
  import opened Planner
  import opened Flash
  import opened RegionWalk
  import opened EraseWrite
  import opened EraseWriteTheorems
  import opened Layout
  import opened LayoutSteps
  import opened LayoutTheorems
  import opened ImageWrite

  /** Erasing everything reports success on a chip that never fails, and erases nothing: the
      only erase block is cut by the region border. */
  method CutBlockSurvivesErase() returns (chip: Chip, ret: int)
    ensures ret == 0 && chip.Reliable() && chip.mem == [0x00, 0xFF]
  {
    CutFacts();
    chip := new Chip([0x00, 0xFF], Gran1Bit, 0xFF, n => Outcome(true, _ => 0));
    assert chip.Reliable();
    ghost var m0, l0 := chip.mem, chip.log;
    var l := [Entry(0, 1, true)];
    ret := EraseByLayout(CutCtx, chip, CutLevels, l);
    assert AllWritable(CutCtx, 0, 2) && AllReadable(CutCtx, 0, 2);
    assert EraseResult(CutCtx, CutLevels, l, m0, chip.mem, l0, chip.log);
    assert chip.mem == m0;
  }

  function HalfRegions(a: nat): Region {
    if a < 2 then Region(0, 1, false, false) else Region(2, 3, false, false)
  }

  const HalfCtx := Ctx(4, GranBytes(2), 0xFF, 0, false, false, false, HalfRegions)
  const HalfLevels: seq<Level> := [[Block(0, 3, 0, 0)]]

  /** A cut block can be clean without being erased: the first entry reads byte 0 as padding,
      so that the second one finds nothing to do there.  In the other order it would program
      a chunk that is not erased. */
  lemma SparedChunk()
    ensures ValidLayout(HalfLevels, 4) && HalfCtx.Honest() && BlocksOnGrid(HalfLevels[0], HalfCtx.gran)
    ensures HalfCtx.Writable(0) && !Uncut(HalfCtx, HalfLevels[0], 0)
    ensures !ErasedChunk(HalfCtx, [0xFF, 0x00, 0xFF, 0xFF], 0)
    ensures EraseClean(HalfCtx, HalfLevels, [Entry(2, 3, true), Entry(0, 0, true)], [0xFF, 0x00, 0xFF, 0xFF])
    ensures !EraseClean(HalfCtx, HalfLevels, [Entry(0, 0, true), Entry(2, 3, true)], [0xFF, 0x00, 0xFF, 0xFF])
  {
    var m0: Image, x, y := [0xFF, 0x00, 0xFF, 0xFF], Entry(2, 3, true), Entry(0, 0, true);
    HalfFacts();
    forall a: nat | a < 4 && InUnion([x, y], a)
      ensures ErasedChunk(HalfCtx, m0, a) || Spared(HalfCtx, HalfLevels, [x, y], m0, a)
    {
      if a == 0 {
        assert Reaches(HalfCtx, HalfLevels, [x, y], 0, 0);
        assert ReachedBefore(HalfCtx, HalfLevels, [x, y], 1, 0);
      } else {
        assert Base(a, 2) == 2;
      }
    }
    assert Covers([y, x][0], 0) && InUnion([y, x], 0);
    assert Reaches(HalfCtx, HalfLevels, [y, x], 0, 0) && !ReachedBefore(HalfCtx, HalfLevels, [y, x], 0, 0);
    assert SameChunk(HalfCtx.gran, 0, 0);
  }

  lemma HalfFacts()
    ensures ValidLayout(HalfLevels, 4) && HalfCtx.Honest() && BlocksOnGrid(HalfLevels[0], HalfCtx.gran)
    ensures forall a: nat | a < 4 :: HalfCtx.Writable(a) && !Uncut(HalfCtx, HalfLevels[0], a)
    ensures forall a: nat | a < 4 :: AlignedStart(HalfLevels, 4, a) == 0 && AlignedEnd(HalfLevels, 4, a) == 3
    ensures !ErasedChunk(HalfCtx, [0xFF, 0x00, 0xFF, 0xFF], 0)
  {
    assert Tiling(HalfLevels[0], 4) && ValidUpTo(HalfLevels, 4, 1);
    forall a: nat | a < 4 ensures HalfCtx.HonestAt(a) {
    }
    var m0: Image := [0xFF, 0x00, 0xFF, 0xFF];
    assert m0[1] != 0xFF;
  }

  /** Byte 0 is write-protected; each byte is an erase block. */
  function GuardedFirst(a: nat): Region {
    if a == 0 then Region(0, 0, false, true) else Region(1, 1, false, false)
  }

  const GuardedCtx := Ctx(2, Gran1Bit, 0xFF, 0, true, false, true, GuardedFirst)
  const GuardedLevels: seq<Level> := [[Block(0, 0, 0, 0), Block(1, 1, 0, 0)]]

  lemma GuardedLayout()
    ensures GuardedCtx.Honest() && ValidLayout(GuardedLevels, 2) && BlocksOnGrid(GuardedLevels[0], Gran1Bit)
    ensures forall a: nat | a < 2 :: Uncut(GuardedCtx, GuardedLevels[0], a) && InUnion([Entry(0, 1, true)], a)
  {
    var l, lv := [Entry(0, 1, true)], GuardedLevels[0];
    assert Tiling(lv, 2) && ValidUpTo(GuardedLevels, 2, 1);
    forall a: nat | a < 2
      ensures GuardedCtx.HonestAt(a) && Uncut(GuardedCtx, lv, a) && InUnion(l, a)
    {
      assert Holds(lv[a], a) && Covers(l[0], a);
    }
  }

  lemma GuardedReads()
    ensures ValidLayout(GuardedLevels, 2) && Sane([Entry(0, 1, true)], 2)
    ensures PaddingReadable(GuardedCtx, GuardedLevels, [Entry(0, 1, true)])
    ensures ReadableEnough(GuardedCtx, [Entry(0, 1, true)], false) && AnyIncluded([Entry(0, 1, true)])
  {
    GuardedLayout();
    assert [Entry(0, 1, true)][0].included;
  }

  lemma GuardedClean(m0: Image, want: Image)
    requires |m0| == |want| == 2
    ensures Fits(GuardedCtx, GuardedLevels, [Entry(0, 1, true)], m0, m0, want)
    ensures Clean(GuardedCtx, GuardedLevels, [Entry(0, 1, true)], m0, want)
  {
    GuardedLayout();
    UncutIsClean(GuardedCtx, GuardedLevels, [Entry(0, 1, true)], m0, want);
  }

  lemma GuardedFacts(m0: Image, want: Image)
    requires |m0| == |want| == 2
    ensures Withheld(GuardedCtx, [Entry(0, 1, true)], m0, want) <==> m0[0] != want[0]
    ensures AsWanted(GuardedCtx, [Entry(0, 1, true)], m0, want) <==> m0[1] == want[1]
  {
    var l := [Entry(0, 1, true)];
    assert Covers(l[0], 0) && Covers(l[0], 1) && !GuardedCtx.Writable(0) && GuardedCtx.Writable(1);
  }

  /** A byte is written and another one withheld: the comparison fails. */
  method WithheldIsReported() returns (chip: Chip, ret: int)
    ensures ret == 3 && chip.Reliable()
  {
    chip, ret := GuardedWrite(0x00);
  }

  /** Nothing can be written: success is reported over a byte that was not changed as asked,
      because nothing is compared. */
  method WithheldIsOverlooked() returns (chip: Chip, ret: int)
    ensures ret == 0 && chip.Reliable() && chip.mem == [0xFF, 0xFF]
  {
    chip, ret := GuardedWrite(0xFF);
  }

  /** Writes 0x00 and `second` over an erased chip. */
  method GuardedWrite(second: byte) returns (chip: Chip, ret: int)
    ensures chip.Reliable() && |chip.mem| == 2 && chip.mem[0] == 0xFF && chip.mem[1] == second
    ensures ret == if second == 0xFF then 0 else 3
  {
    var l := [Entry(0, 1, true)];
    chip := new Chip([0xFF, 0xFF], Gran1Bit, 0xFF, n => Outcome(true, _ => 0));
    assert chip.Reliable();
    var new' := new byte[2](i => if i == 0 then 0x00 else second);
    ghost var m0, want, l0 := chip.mem, new'[..], chip.log;
    GuardedLayout();
    GuardedReads();
    GuardedClean(m0, want);
    GuardedFacts(m0, want);
    ret := FlashromImageWrite(GuardedCtx, chip, GuardedLevels, l, new', None, false, true);
    assert ImageWritten(GuardedCtx, GuardedLevels, l, m0, chip.mem, want, l0, chip.log, ret);
    assert Overlaid(GuardedCtx, l, m0, chip.mem, want);
  }

  /** The headline: on a programmer without protection and a chip that never fails, writing an
      image leaves exactly the included regions of it over the old contents, and succeeds. */
  method WriteUnprotected(ctx: Ctx, chip: Chip, levels: seq<Level>, l: seq<Entry>, new': array<byte>, all: bool)
    returns (ret: int)
    requires Prepared(ctx, chip, levels) && Sane(l, ctx.size) && new'.Length == ctx.size
    requires Unprotected(ctx) && chip.Reliable() && AnyIncluded(l)
    modifies chip, new'
    ensures ret == 0 && chip.mem == Overlay(l, old(chip.mem), old(new'[..]))
  {
    ghost var m0, want := chip.mem, new'[..];
    UnprotectedOverlay(ctx, levels, l, m0, m0, want);
    ret := FlashromImageWrite(ctx, chip, levels, l, new', None, all, true);
    UnprotectedOverlay(ctx, levels, l, m0, chip.mem, want);
  }
}
