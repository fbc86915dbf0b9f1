/** Exactly when writing or erasing by layout obeys the NOR rule, in terms of the old contents
    of the chip, the wanted bytes and the layout. */
module LayoutTheorems {
  import opened Granularity
  import opened EraseBlocks
  import opened Planner
  import opened Flash
  import opened RegionWalk
  import opened WritePhase
  import opened EraseWrite
  import opened EraseWriteTheorems
  import opened Layout
  import opened LayoutSteps

  // ----- Writing with an exact image -----------------------------------------------------------

  lemma {:induction false} StaysExact(ctx: Ctx, levels: seq<Level>, l: seq<Entry>, n: nat, m0: Image, c0: Image,
                                      want: Image)
    requires n <= |l| && Fits(ctx, levels, l, m0, c0, want) && UnionExact(l, m0, c0)
    ensures UnionExact(l, After(ctx, l, n, m0, want), ImageAt(ctx, levels, l, n, m0, c0, want))
  {
    if n > 0 {
      StaysExact(ctx, levels, l, n - 1, m0, c0, want);
      var m', c' := After(ctx, l, n, m0, want), ImageAt(ctx, levels, l, n, m0, c0, want);
      forall a: nat | a < |m0| && InUnion(l, a) ensures m'[a] == c'[a] {
        AfterGrows(ctx, l, n - 1, m0, want, a);
      }
    } else {
      assert l[..0] == [];
    }
  }

  /** Entry `n`, reached with the entries before it written, needs no erase in a cut block. */
  ghost predicate EntryClean(ctx: Ctx, levels: seq<Level>, l: seq<Entry>, n: nat, m0: Image, want: Image)
    requires n < |l| && Fits(ctx, levels, l, m0, m0, want)
  {
    l[n].included ==> RegionClean(ctx, levels, After(ctx, l, n, m0, want), want, l[n].start, l[n].end)
  }

  ghost predicate Clean(ctx: Ctx, levels: seq<Level>, l: seq<Entry>, m0: Image, want: Image)
    requires Fits(ctx, levels, l, m0, m0, want)
  {
    forall n: nat | n < |l| :: EntryClean(ctx, levels, l, n, m0, want)
  }

  lemma ExactStep(ctx: Ctx, levels: seq<Level>, l: seq<Entry>, n: nat, m0: Image, c0: Image, want: Image)
    requires n < |l| && Fits(ctx, levels, l, m0, c0, want) && UnionExact(l, m0, c0)
    requires ctx.Honest() && BlocksOnGrid(levels[0], ctx.gran)
    ensures StepLegal(ctx, levels, l, n, m0, c0, want) <==> EntryClean(ctx, levels, l, n, m0, want)
  {
    if l[n].included {
      StaysExact(ctx, levels, l, n, m0, c0, want);
      var m, c := After(ctx, l, n, m0, want), ImageAt(ctx, levels, l, n, m0, c0, want);
      forall a: nat | l[n].start <= a < l[n].end + 1 ensures m[a] == c[a] {
        UnionGrows(l, n, a);
      }
      ExactRegionLegal(ctx, levels, m, c, want, l[n].start, l[n].end);
    }
  }

  /** With an exact image, the run is legal exactly if every entry is clean. */
  lemma ExactSteps(ctx: Ctx, levels: seq<Level>, l: seq<Entry>, m0: Image, c0: Image, want: Image)
    requires Fits(ctx, levels, l, m0, c0, want) && UnionExact(l, m0, c0)
    requires ctx.Honest() && BlocksOnGrid(levels[0], ctx.gran)
    ensures StepsLegal(ctx, levels, l, |l|, m0, c0, want) <==> Clean(ctx, levels, l, m0, want)
  {
    if StepsLegal(ctx, levels, l, |l|, m0, c0, want) {
      forall n: nat | n < |l| ensures EntryClean(ctx, levels, l, n, m0, want) {
        StepsLegalAt(ctx, levels, l, |l|, m0, c0, want, n);
        ExactStep(ctx, levels, l, n, m0, c0, want);
      }
    }
    if Clean(ctx, levels, l, m0, want) {
      CleanIsLegal(ctx, levels, l, |l|, m0, c0, want);
    }
  }

  lemma {:induction false} CleanIsLegal(ctx: Ctx, levels: seq<Level>, l: seq<Entry>, n: nat, m0: Image, c0: Image,
                                        want: Image)
    requires n <= |l| && Fits(ctx, levels, l, m0, c0, want) && UnionExact(l, m0, c0)
    requires ctx.Honest() && BlocksOnGrid(levels[0], ctx.gran) && Clean(ctx, levels, l, m0, want)
    ensures StepsLegal(ctx, levels, l, n, m0, c0, want)
  {
    if n > 0 {
      CleanIsLegal(ctx, levels, l, n - 1, m0, c0, want);
      CleanStepIsLegal(ctx, levels, l, n - 1, m0, c0, want);
    }
  }

  lemma CleanStepIsLegal(ctx: Ctx, levels: seq<Level>, l: seq<Entry>, n: nat, m0: Image, c0: Image, want: Image)
    requires n < |l| && Fits(ctx, levels, l, m0, c0, want) && UnionExact(l, m0, c0)
    requires ctx.Honest() && BlocksOnGrid(levels[0], ctx.gran) && Clean(ctx, levels, l, m0, want)
    ensures StepLegal(ctx, levels, l, n, m0, c0, want)
  {
    assert EntryClean(ctx, levels, l, n, m0, want);
    ExactStep(ctx, levels, l, n, m0, c0, want);
  }

  /** The smallest erase block of `a` meets an included region. */
  ghost predicate Touched(lv: Level, l: seq<Entry>, a: nat) {
    exists i, b: nat :: 0 <= i < |lv| && Holds(lv[i], a) && Holds(lv[i], b) && InUnion(l, b)
  }

  lemma UnionTouched(levels: seq<Level>, size: nat, l: seq<Entry>, a: nat)
    requires ValidLayout(levels, size) && a < size && InUnion(l, a)
    ensures Touched(levels[0], l, a)
  {
    IsTiling(levels, size, 0);
    var i := TilingFind(levels[0], size, a);
  }

  /** All of an aligned entry is touched. */
  lemma ExtentTouched(levels: seq<Level>, size: nat, l: seq<Entry>, n: nat, a: nat)
    requires ValidLayout(levels, size) && n < |l| && l[n].included && l[n].start <= l[n].end < size
    requires AlignedStart(levels, size, l[n].start) <= a <= AlignedEnd(levels, size, l[n].end)
    ensures Touched(levels[0], l, a)
  {
    var start, end := l[n].start, l[n].end;
    assert Covers(l[n], start) && Covers(l[n], end);
    if start <= a <= end {
      assert Covers(l[n], a);
      UnionTouched(levels, size, l, a);
    } else {
      var b := if a < start then start else end;
      var i := BlockAt(levels, size, b);
      assert Holds(levels[0][i], a) && Holds(levels[0][i], b) && InUnion(l, b);
    }
  }

  /** If no region border cuts a block that meets an included region, everything is clean. */
  lemma UncutIsClean(ctx: Ctx, levels: seq<Level>, l: seq<Entry>, m0: Image, want: Image)
    requires Fits(ctx, levels, l, m0, m0, want)
    requires forall a: nat | a < ctx.size && Touched(levels[0], l, a) :: Uncut(ctx, levels[0], a)
    ensures Clean(ctx, levels, l, m0, want)
  {
    forall n: nat | n < |l| ensures EntryClean(ctx, levels, l, n, m0, want) {
      if l[n].included {
        var rs, re := AlignedStart(levels, ctx.size, l[n].start), AlignedEnd(levels, ctx.size, l[n].end);
        forall a: nat | rs <= a < re + 1 ensures Uncut(ctx, levels[0], a) {
          ExtentTouched(levels, ctx.size, l, n, a);
        }
      }
    }
  }

  // ----- Erasing with a false image --------------------------------------------------------------

  ghost predicate SameChunk(g: WriteGranularity, a: nat, b: nat) {
    Base(b, Stride(g)) == Base(a, Stride(g))
  }

  /** The bytes of a chunk share their region, their erase block and the entries that reach
      them. */
  lemma ChunkTogether(ctx: Ctx, levels: seq<Level>, a: nat, b: nat)
    requires ctx.Honest() && ValidLayout(levels, ctx.size) && BlocksOnGrid(levels[0], ctx.gran)
    requires a < ctx.size && b < ctx.size && SameChunk(ctx.gran, a, b)
    ensures ctx.regionAt(a) == ctx.regionAt(b) && (Uncut(ctx, levels[0], a) <==> Uncut(ctx, levels[0], b))
  {
    RegionOfChunk(ctx, a, b);
    BlockOfChunk(ctx, levels, a, b);
    BlockOfChunk(ctx, levels, b, a);
  }

  lemma RegionOfChunk(ctx: Ctx, a: nat, b: nat)
    requires ctx.Honest() && a < ctx.size && b < ctx.size && SameChunk(ctx.gran, a, b)
    ensures ctx.regionAt(a) == ctx.regionAt(b)
  {
    assert ctx.HonestAt(a);
    var r := ctx.regionAt(a);
    var til := if r.end + 1 < ctx.size then r.end + 1 else ctx.size;
    BaseWithin(a, r.start, til, Stride(ctx.gran));
  }

  lemma BlockOfChunk(ctx: Ctx, levels: seq<Level>, a: nat, b: nat)
    requires ValidLayout(levels, ctx.size) && BlocksOnGrid(levels[0], ctx.gran)
    requires a < ctx.size && b < ctx.size && SameChunk(ctx.gran, a, b) && ctx.regionAt(a) == ctx.regionAt(b)
    ensures Uncut(ctx, levels[0], a) ==> Uncut(ctx, levels[0], b)
  {
    if Uncut(ctx, levels[0], a) {
      var r := ctx.regionAt(a);
      var i :| 0 <= i < |levels[0]| && Holds(levels[0][i], a) && Within(levels[0][i], r.start, r.end);
      IsBlock(levels, ctx.size, 0, i);
      BaseWithin(a, levels[0][i].start, levels[0][i].end + 1, Stride(ctx.gran));
      assert Holds(levels[0][i], b);
    }
  }

  /** Entry `n` is included and its aligned region holds `a`. */
  ghost predicate Reaches(ctx: Ctx, levels: seq<Level>, l: seq<Entry>, n: nat, a: nat)
    requires ValidLayout(levels, ctx.size) && Sane(l, ctx.size) && n < |l|
  {
    l[n].included && AlignedStart(levels, ctx.size, l[n].start) <= a <= AlignedEnd(levels, ctx.size, l[n].end)
  }

  ghost predicate ReachedBefore(ctx: Ctx, levels: seq<Level>, l: seq<Entry>, n: nat, a: nat)
    requires ValidLayout(levels, ctx.size) && Sane(l, ctx.size) && n <= |l|
  {
    exists k: nat :: k < n && Reaches(ctx, levels, l, k, a)
  }

  lemma ReachesChunk(ctx: Ctx, levels: seq<Level>, l: seq<Entry>, n: nat, a: nat, b: nat)
    requires ValidLayout(levels, ctx.size) && BlocksOnGrid(levels[0], ctx.gran) && Sane(l, ctx.size) && n < |l|
    requires SameChunk(ctx.gran, a, b) && Reaches(ctx, levels, l, n, a)
    ensures Reaches(ctx, levels, l, n, b)
  {
    AlignedOnGrid(ctx, levels, l[n].start, l[n].end);
    BaseWithin(a, AlignedStart(levels, ctx.size, l[n].start), AlignedEnd(levels, ctx.size, l[n].end) + 1,
               Stride(ctx.gran));
  }

  /** What the image says about a writable byte: the truth once an entry has reached it. */
  lemma {:induction false} ImageSeen(ctx: Ctx, levels: seq<Level>, l: seq<Entry>, n: nat, m0: Image, c0: Image,
                                     want: Image, a: nat)
    requires n <= |l| && Fits(ctx, levels, l, m0, c0, want) && a < ctx.size && ctx.Writable(a)
    ensures ReachedBefore(ctx, levels, l, n, a) ==>
              ImageAt(ctx, levels, l, n, m0, c0, want)[a] == After(ctx, l, n, m0, want)[a]
    ensures !ReachedBefore(ctx, levels, l, n, a) ==>
              ImageAt(ctx, levels, l, n, m0, c0, want)[a] == c0[a] && After(ctx, l, n, m0, want)[a] == m0[a]
  {
    if n > 0 {
      var k: nat := n - 1;
      ImageSeen(ctx, levels, l, k, m0, c0, want, a);
      AfterGrows(ctx, l, k, m0, want, a);
      assert ReachedBefore(ctx, levels, l, n, a) <==>
             ReachedBefore(ctx, levels, l, k, a) || Reaches(ctx, levels, l, k, a);
    } else {
      assert l[..0] == [];
    }
  }

  /** Erasing by layout: `c0` claims every byte to be unerased. */
  ghost predicate EraseFits(ctx: Ctx, levels: seq<Level>, l: seq<Entry>, m0: Image, c0: Image) {
    && Fits(ctx, levels, l, m0, c0, Blank(ctx)) && ctx.Honest() && BlocksOnGrid(levels[0], ctx.gran)
    && forall a: nat | a < ctx.size :: c0[a] != ctx.ev
  }

  /** The chunk of `a` may be programmed with the erased value. */
  ghost predicate ErasedChunk(ctx: Ctx, mem: Image, a: nat) {
    Legal(ctx.gran, ctx.ev, mem, Blank(ctx), a)
  }

  /** The chunk of `a` is left alone: its included bytes are erased already, and the first
      entry that reaches it does not contain any of its bytes, but reads them as padding. */
  ghost predicate Spared(ctx: Ctx, levels: seq<Level>, l: seq<Entry>, m0: Image, a: nat)
    requires ValidLayout(levels, ctx.size) && Sane(l, ctx.size) && |m0| == ctx.size
  {
    && (forall b: nat | b < ctx.size && SameChunk(ctx.gran, a, b) && InUnion(l, b) :: m0[b] == ctx.ev)
    && (forall n: nat, b: nat | n < |l| && Reaches(ctx, levels, l, n, a) && !ReachedBefore(ctx, levels, l, n, a)
                                && SameChunk(ctx.gran, a, b) :: !Covers(l[n], b))
  }

  /** Every included writable byte of a cut block sits in an erased or spared chunk. */
  ghost predicate EraseClean(ctx: Ctx, levels: seq<Level>, l: seq<Entry>, m0: Image)
    requires ValidLayout(levels, ctx.size) && Sane(l, ctx.size) && |m0| == ctx.size
  {
    forall a: nat | a < ctx.size && InUnion(l, a) && ctx.Writable(a) && !Uncut(ctx, levels[0], a) ::
      ErasedChunk(ctx, m0, a) || Spared(ctx, levels, l, m0, a)
  }

  lemma ErasedChunkByte(ctx: Ctx, mem: Image, a: nat, b: nat)
    requires |mem| == ctx.size && ErasedOk(ctx.gran, ctx.ev) && SameChunk(ctx.gran, a, b)
    requires ErasedChunk(ctx, mem, a) && !ctx.gran.Gran1ByteImplicitErase?
    ensures b < ctx.size && mem[b] == ctx.ev
  {
    if ctx.gran.Gran1Bit? {
      OneByteChunk(a);
      OneByteChunk(b);
      assert mem[a] & 0xFF == mem[a];
    }
  }

  /** Erased chunks stay erased in the intended run. */
  lemma StaysErased(ctx: Ctx, l: seq<Entry>, n: nat, m0: Image, a: nat)
    requires n <= |l| && |m0| == ctx.size && ErasedOk(ctx.gran, ctx.ev) && ErasedChunk(ctx, m0, a)
    ensures ErasedChunk(ctx, After(ctx, l, n, m0, Blank(ctx)), a)
  {
    var m := After(ctx, l, n, m0, Blank(ctx));
    var c := Base(a, Stride(ctx.gran));
    if !ctx.gran.Gran1ByteImplicitErase? {
      forall b: nat | c <= b < c + Stride(ctx.gran) ensures m[b] == m0[b] {
        BaseUnique(b, c, Stride(ctx.gran));
        ErasedChunkByte(ctx, m0, a, b);
      }
      ChunkSame(ctx.gran, ctx.ev, m0, m, Blank(ctx), a);
    }
  }

  /** The two images that erase_write compares for entry `n`. */
  ghost function HaveAt(ctx: Ctx, levels: seq<Level>, l: seq<Entry>, n: nat, m0: Image, c0: Image): (x: Image)
    requires n < |l| && l[n].included && EraseFits(ctx, levels, l, m0, c0)
  {
    Padded(ImageAt(ctx, levels, l, n, m0, c0, Blank(ctx)), After(ctx, l, n, m0, Blank(ctx)), l[n].start, l[n].end,
           AlignedStart(levels, ctx.size, l[n].start), AlignedEnd(levels, ctx.size, l[n].end))
  }

  ghost function WantAt(ctx: Ctx, levels: seq<Level>, l: seq<Entry>, n: nat, m0: Image): (x: Image)
    requires n < |l| && l[n].included && ValidLayout(levels, ctx.size) && Sane(l, ctx.size) && |m0| == ctx.size
  {
    Padded(Blank(ctx), After(ctx, l, n, m0, Blank(ctx)), l[n].start, l[n].end,
           AlignedStart(levels, ctx.size, l[n].start), AlignedEnd(levels, ctx.size, l[n].end))
  }

  /** The chunk of `a` differs for entry `n` exactly if the entry holds one of its bytes that
      the image does not show as erased. */
  lemma EraseDiff(ctx: Ctx, levels: seq<Level>, l: seq<Entry>, n: nat, m0: Image, c0: Image, a: nat)
    requires n < |l| && EraseFits(ctx, levels, l, m0, c0) && Reaches(ctx, levels, l, n, a)
    ensures Diff(ctx.gran, HaveAt(ctx, levels, l, n, m0, c0), WantAt(ctx, levels, l, n, m0), a) <==>
              exists b: nat :: b < ctx.size && SameChunk(ctx.gran, a, b) && Covers(l[n], b)
                               && ImageAt(ctx, levels, l, n, m0, c0, Blank(ctx))[b] != ctx.ev
  {
    if Diff(ctx.gran, HaveAt(ctx, levels, l, n, m0, c0), WantAt(ctx, levels, l, n, m0), a) {
      var b := DiffByte(ctx, levels, l, n, m0, c0, a);
    }
    if b: nat :| b < ctx.size && SameChunk(ctx.gran, a, b) && Covers(l[n], b)
                 && ImageAt(ctx, levels, l, n, m0, c0, Blank(ctx))[b] != ctx.ev {
      ByteDiff(ctx, levels, l, n, m0, c0, a, b);
    }
  }

  lemma DiffByte(ctx: Ctx, levels: seq<Level>, l: seq<Entry>, n: nat, m0: Image, c0: Image, a: nat) returns (b: nat)
    requires n < |l| && EraseFits(ctx, levels, l, m0, c0) && Reaches(ctx, levels, l, n, a)
    requires Diff(ctx.gran, HaveAt(ctx, levels, l, n, m0, c0), WantAt(ctx, levels, l, n, m0), a)
    ensures b < ctx.size && SameChunk(ctx.gran, a, b) && Covers(l[n], b)
    ensures ImageAt(ctx, levels, l, n, m0, c0, Blank(ctx))[b] != ctx.ev
  {
    var x, y, c := HaveAt(ctx, levels, l, n, m0, c0), WantAt(ctx, levels, l, n, m0), Base(a, Stride(ctx.gran));
    AlignedOnGrid(ctx, levels, l[n].start, l[n].end);
    BaseWithin(a, AlignedStart(levels, ctx.size, l[n].start), AlignedEnd(levels, ctx.size, l[n].end) + 1,
               Stride(ctx.gran));
    b :| c <= b < c + Stride(ctx.gran) && x[b] != y[b];
    BaseUnique(b, c, Stride(ctx.gran));
  }

  lemma ByteDiff(ctx: Ctx, levels: seq<Level>, l: seq<Entry>, n: nat, m0: Image, c0: Image, a: nat, b: nat)
    requires n < |l| && EraseFits(ctx, levels, l, m0, c0) && Reaches(ctx, levels, l, n, a)
    requires b < ctx.size && SameChunk(ctx.gran, a, b) && Covers(l[n], b)
    requires ImageAt(ctx, levels, l, n, m0, c0, Blank(ctx))[b] != ctx.ev
    ensures Diff(ctx.gran, HaveAt(ctx, levels, l, n, m0, c0), WantAt(ctx, levels, l, n, m0), a)
  {
    var x, y, c := HaveAt(ctx, levels, l, n, m0, c0), WantAt(ctx, levels, l, n, m0), Base(a, Stride(ctx.gran));
    AlignedOnGrid(ctx, levels, l[n].start, l[n].end);
    BaseWithin(a, AlignedStart(levels, ctx.size, l[n].start), AlignedEnd(levels, ctx.size, l[n].end) + 1,
               Stride(ctx.gran));
    assert c <= b < c + Stride(ctx.gran) && x[b] != y[b];
  }

  /** Where the entry holds a byte of the chunk, legal to program means erased. */
  lemma EraseLegal(ctx: Ctx, levels: seq<Level>, l: seq<Entry>, n: nat, m0: Image, a: nat, b: nat)
    requires n < |l| && ValidLayout(levels, ctx.size) && Sane(l, ctx.size) && |m0| == ctx.size
    requires a < ctx.size && SameChunk(ctx.gran, a, b) && Covers(l[n], b)
    ensures var m := After(ctx, l, n, m0, Blank(ctx));
            Legal(ctx.gran, ctx.ev, m, WantAt(ctx, levels, l, n, m0), a) <==> ErasedChunk(ctx, m, a)
  {
    if ctx.gran.Gran1Bit? {
      OneByteChunk(a);
      OneByteChunk(b);
      OneBitChunk(ctx.ev, After(ctx, l, n, m0, Blank(ctx)), WantAt(ctx, levels, l, n, m0), a);
      OneBitChunk(ctx.ev, After(ctx, l, n, m0, Blank(ctx)), Blank(ctx), a);
    }
  }

  /** A byte that the image of a legal entry shows as unerased needs an erased chunk. */
  lemma EraseNeeds(ctx: Ctx, levels: seq<Level>, l: seq<Entry>, n: nat, m0: Image, c0: Image, a: nat, b: nat)
    requires n < |l| && EraseFits(ctx, levels, l, m0, c0) && StepLegal(ctx, levels, l, n, m0, c0, Blank(ctx))
    requires a < ctx.size && b < ctx.size && SameChunk(ctx.gran, a, b) && Covers(l[n], b)
    requires ctx.Writable(a) && !Uncut(ctx, levels[0], a)
    requires ImageAt(ctx, levels, l, n, m0, c0, Blank(ctx))[b] != ctx.ev
    ensures ErasedChunk(ctx, After(ctx, l, n, m0, Blank(ctx)), a)
  {
    assert Reaches(ctx, levels, l, n, b);
    ReachesChunk(ctx, levels, l, n, b, a);
    EraseDiff(ctx, levels, l, n, m0, c0, a);
    EraseLegal(ctx, levels, l, n, m0, a, b);
    assert CutLegal(ctx, levels[0], After(ctx, l, n, m0, Blank(ctx)), HaveAt(ctx, levels, l, n, m0, c0),
                    WantAt(ctx, levels, l, n, m0), a);
  }

  /** In a legal run no unerased included byte sits in the chunk of a cut byte that is not
      erased from the start. */
  lemma {:induction false} IncludedErased(ctx: Ctx, levels: seq<Level>, l: seq<Entry>, n: nat, m0: Image, c0: Image,
                                          a: nat, b: nat)
    requires n <= |l| && EraseFits(ctx, levels, l, m0, c0) && StepsLegal(ctx, levels, l, |l|, m0, c0, Blank(ctx))
    requires a < ctx.size && ctx.Writable(a) && !Uncut(ctx, levels[0], a) && !ErasedChunk(ctx, m0, a)
    requires b < ctx.size && SameChunk(ctx.gran, a, b) && InUnion(l[..n], b)
    ensures m0[b] == ctx.ev
  {
    var k: nat := n - 1;
    UnionGrows(l, k, b);
    if InUnion(l[..k], b) {
      IncludedErased(ctx, levels, l, k, m0, c0, a, b);
    } else if m0[b] != ctx.ev {
      ChunkTogether(ctx, levels, a, b);
      ImageSeen(ctx, levels, l, k, m0, c0, Blank(ctx), b);
      StepsLegalAt(ctx, levels, l, |l|, m0, c0, Blank(ctx), k);
      EraseNeeds(ctx, levels, l, k, m0, c0, a, b);
      NotImplicit(ctx, m0, a);
      ErasedChunkByte(ctx, After(ctx, l, k, m0, Blank(ctx)), a, b);
    }
  }

  lemma NotImplicit(ctx: Ctx, m0: Image, a: nat)
    requires ctx.Honest() && |m0| == ctx.size && a < ctx.size && !ErasedChunk(ctx, m0, a)
    ensures !ctx.gran.Gran1ByteImplicitErase?
  {
    OneByteChunk(a);
  }

  /** Nor does the first entry that reaches such a chunk hold any of its bytes. */
  lemma FirstReachSpares(ctx: Ctx, levels: seq<Level>, l: seq<Entry>, n: nat, m0: Image, c0: Image, a: nat, b: nat)
    requires n < |l| && EraseFits(ctx, levels, l, m0, c0) && StepsLegal(ctx, levels, l, |l|, m0, c0, Blank(ctx))
    requires a < ctx.size && ctx.Writable(a) && !Uncut(ctx, levels[0], a) && !ErasedChunk(ctx, m0, a)
    requires Reaches(ctx, levels, l, n, a) && !ReachedBefore(ctx, levels, l, n, a) && SameChunk(ctx.gran, a, b)
    ensures !Covers(l[n], b)
  {
    if Covers(l[n], b) {
      var m, c := After(ctx, l, n, m0, Blank(ctx)), Base(a, Stride(ctx.gran));
      ReachesChunk(ctx, levels, l, n, a, b);
      Unreached(ctx, levels, l, n, m0, c0, a, b);
      StepsLegalAt(ctx, levels, l, |l|, m0, c0, Blank(ctx), n);
      EraseNeeds(ctx, levels, l, n, m0, c0, a, b);
      forall d: nat | c <= d < c + Stride(ctx.gran) && d < ctx.size ensures m[d] == m0[d] {
        BaseUnique(d, c, Stride(ctx.gran));
        Unreached(ctx, levels, l, n, m0, c0, a, d);
      }
      ChunkSame(ctx.gran, ctx.ev, m0, m, Blank(ctx), a);
    }
  }

  lemma Unreached(ctx: Ctx, levels: seq<Level>, l: seq<Entry>, n: nat, m0: Image, c0: Image, a: nat, b: nat)
    requires n < |l| && EraseFits(ctx, levels, l, m0, c0) && a < ctx.size && b < ctx.size && SameChunk(ctx.gran, a, b)
    requires ctx.Writable(a) && !ReachedBefore(ctx, levels, l, n, a)
    ensures ImageAt(ctx, levels, l, n, m0, c0, Blank(ctx))[b] != ctx.ev && After(ctx, l, n, m0, Blank(ctx))[b] == m0[b]
  {
    ChunkTogether(ctx, levels, a, b);
    ImageSeen(ctx, levels, l, n, m0, c0, Blank(ctx), b);
    if ReachedBefore(ctx, levels, l, n, b) {
      var k: nat :| k < n && Reaches(ctx, levels, l, k, b);
      ReachesChunk(ctx, levels, l, k, b, a);
    }
  }

  /** A clean layout makes every entry legal. */
  lemma CleanStep(ctx: Ctx, levels: seq<Level>, l: seq<Entry>, n: nat, m0: Image, c0: Image, a: nat)
    requires n < |l| && EraseFits(ctx, levels, l, m0, c0) && EraseClean(ctx, levels, l, m0)
    requires Reaches(ctx, levels, l, n, a) && ctx.Writable(a) && !Uncut(ctx, levels[0], a)
    ensures LegalIfDiff(ctx.gran, ctx.ev, After(ctx, l, n, m0, Blank(ctx)), HaveAt(ctx, levels, l, n, m0, c0),
                        WantAt(ctx, levels, l, n, m0), a)
  {
    EraseDiff(ctx, levels, l, n, m0, c0, a);
    if Diff(ctx.gran, HaveAt(ctx, levels, l, n, m0, c0), WantAt(ctx, levels, l, n, m0), a) {
      var b: nat :| b < ctx.size && SameChunk(ctx.gran, a, b) && Covers(l[n], b)
                    && ImageAt(ctx, levels, l, n, m0, c0, Blank(ctx))[b] != ctx.ev;
      ChunkTogether(ctx, levels, a, b);
      UnionGrows(l, n, b);
      EraseLegal(ctx, levels, l, n, m0, a, b);
      if ErasedChunk(ctx, m0, b) {
        StaysErased(ctx, l, n, m0, b);
      } else {
        assert Spared(ctx, levels, l, m0, b);
        ImageSeen(ctx, levels, l, n, m0, c0, Blank(ctx), b);
        assert SameChunk(ctx.gran, b, b) && Reaches(ctx, levels, l, n, b);
        assert false;
      }
    }
  }

  lemma {:induction false} CleanSteps(ctx: Ctx, levels: seq<Level>, l: seq<Entry>, n: nat, m0: Image, c0: Image)
    requires n <= |l| && EraseFits(ctx, levels, l, m0, c0) && EraseClean(ctx, levels, l, m0)
    ensures StepsLegal(ctx, levels, l, n, m0, c0, Blank(ctx))
  {
    if n > 0 {
      var k: nat := n - 1;
      CleanSteps(ctx, levels, l, k, m0, c0);
      CleanEntry(ctx, levels, l, k, m0, c0);
    }
  }

  lemma CleanEntry(ctx: Ctx, levels: seq<Level>, l: seq<Entry>, n: nat, m0: Image, c0: Image)
    requires n < |l| && EraseFits(ctx, levels, l, m0, c0) && EraseClean(ctx, levels, l, m0)
    ensures StepLegal(ctx, levels, l, n, m0, c0, Blank(ctx))
  {
    if l[n].included {
      var m, x, y := After(ctx, l, n, m0, Blank(ctx)), HaveAt(ctx, levels, l, n, m0, c0), WantAt(ctx, levels, l, n, m0);
      var rs, re := AlignedStart(levels, ctx.size, l[n].start), AlignedEnd(levels, ctx.size, l[n].end);
      forall a: nat | rs <= a < re + 1 ensures CutLegal(ctx, levels[0], m, x, y, a) {
        if ctx.Writable(a) && !Uncut(ctx, levels[0], a) {
          CleanStep(ctx, levels, l, n, m0, c0, a);
        }
      }
      assert CutsLegal(ctx, levels[0], m, x, y, rs, re + 1);
    }
  }

  /** Erasing by layout obeys the NOR rule exactly if the layout is clean in this sense. */
  lemma EraseSteps(ctx: Ctx, levels: seq<Level>, l: seq<Entry>, m0: Image, c0: Image)
    requires EraseFits(ctx, levels, l, m0, c0)
    ensures StepsLegal(ctx, levels, l, |l|, m0, c0, Blank(ctx)) <==> EraseClean(ctx, levels, l, m0)
  {
    if StepsLegal(ctx, levels, l, |l|, m0, c0, Blank(ctx)) {
      assert l[..|l|] == l;
      forall a: nat | a < ctx.size && InUnion(l, a) && ctx.Writable(a) && !Uncut(ctx, levels[0], a)
          && !ErasedChunk(ctx, m0, a)
        ensures Spared(ctx, levels, l, m0, a)
      {
        forall b: nat | b < ctx.size && SameChunk(ctx.gran, a, b) && InUnion(l, b) ensures m0[b] == ctx.ev {
          IncludedErased(ctx, levels, l, |l|, m0, c0, a, b);
        }
        forall n: nat, b: nat | n < |l| && Reaches(ctx, levels, l, n, a) && !ReachedBefore(ctx, levels, l, n, a)
                                && SameChunk(ctx.gran, a, b)
          ensures !Covers(l[n], b)
        {
          FirstReachSpares(ctx, levels, l, n, m0, c0, a, b);
        }
      }
    }
    if EraseClean(ctx, levels, l, m0) {
      CleanSteps(ctx, levels, l, |l|, m0, c0);
    }
  }

  /** At one-bit granularity the condition is that no included writable byte of a cut block is
      unerased. */
  lemma OneBitEraseClean(ctx: Ctx, levels: seq<Level>, l: seq<Entry>, m0: Image)
    requires ValidLayout(levels, ctx.size) && Sane(l, ctx.size) && |m0| == ctx.size && ctx.gran.Gran1Bit?
             && ErasedOk(ctx.gran, ctx.ev)
    ensures EraseClean(ctx, levels, l, m0) <==>
              forall a: nat | a < ctx.size && InUnion(l, a) && ctx.Writable(a) && !Uncut(ctx, levels[0], a) ::
                  m0[a] == ctx.ev
  {
    forall a: nat | a < ctx.size && InUnion(l, a)
      ensures ErasedChunk(ctx, m0, a) || Spared(ctx, levels, l, m0, a) <==> m0[a] == ctx.ev
    {
      OneBitChunk(ctx.ev, m0, Blank(ctx), a);
      assert m0[a] & 0xFF == m0[a];
      assert SameChunk(ctx.gran, a, a);
    }
  }

  /** Without cut blocks erasing by layout is always clean. */
  lemma UncutEraseClean(ctx: Ctx, levels: seq<Level>, l: seq<Entry>, m0: Image)
    requires ValidLayout(levels, ctx.size) && Sane(l, ctx.size) && |m0| == ctx.size
    requires forall a: nat | a < ctx.size && Touched(levels[0], l, a) :: Uncut(ctx, levels[0], a)
    ensures EraseClean(ctx, levels, l, m0)
  {
    forall a: nat | a < ctx.size && InUnion(l, a) ensures Uncut(ctx, levels[0], a) {
      UnionTouched(levels, ctx.size, l, a);
    }
  }
}
