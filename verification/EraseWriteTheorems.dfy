/** What a successful erase_write means for the chip, and exactly when it obeys the NOR
    programming rule. */
module EraseWriteTheorems {
  import opened Granularity
  import opened EraseBlocks
  import opened Planner
  import opened Flash
  import opened RegionWalk
  import opened WritePhase
  import opened EraseHelper
  import opened EraseWrite

  /** The byte that `[start, end]` should hold after writing `want`: protected bytes and
      everything outside keep what the chip held. */
  ghost function Goal(ctx: Ctx, mem: Image, want: Image, start: nat, end: nat, a: nat): byte
    requires a < |mem| && a < |want|
  {
    if start <= a <= end && ctx.Writable(a) then want[a] else mem[a]
  }

  /** The image after erase_write: the padding as read from the chip, the writable bytes of
      the region as wanted. */
  ghost function NextImage(ctx: Ctx, mem: Image, have: Image, want: Image, start: nat, end: nat, rs: nat,
                           re: nat): (p: Image)
    requires |mem| == |have| == |want|
    ensures |p| == |mem|
    ensures forall a: nat | a < |p| :: p[a] == if rs <= a < start || end < a <= re then mem[a]
                                              else if start <= a <= end && ctx.Writable(a) then want[a] else have[a]
  {
    seq(|mem|, a requires 0 <= a < |mem| =>
      if rs <= a < start || end < a <= re then mem[a] else if start <= a <= end && ctx.Writable(a) then want[a]
          else have[a])
  }

  /** The image is right about the byte, or shows as unerased a byte that is to be erased. */
  ghost predicate Plausible(ctx: Ctx, mem: Image, have: Image, want: Image, a: nat)
    requires a < |mem| && a < |have| && a < |want|
  {
    mem[a] == have[a] || (want[a] == ctx.ev && have[a] != ctx.ev)
  }

  ghost predicate AllPlausible(ctx: Ctx, mem: Image, have: Image, want: Image, lo: nat, hi: nat) {
    && hi <= |mem| && hi <= |have| && hi <= |want|
    && forall a: nat | lo <= a < hi :: Plausible(ctx, mem, have, want, a)
  }

  /** If the byte can be written but its block is cut, so that it is never erased, its chunk
      may be programmed whenever it differs from the image. */
  ghost predicate CutLegal(ctx: Ctx, lv: Level, mem: Image, have: Image, want: Image, a: nat) {
    ctx.Writable(a) && !Uncut(ctx, lv, a) ==> LegalIfDiff(ctx.gran, ctx.ev, mem, have, want, a)
  }

  ghost predicate CutsLegal(ctx: Ctx, lv: Level, mem: Image, have: Image, want: Image, lo: nat, hi: nat) {
    forall a: nat | lo <= a < hi :: CutLegal(ctx, lv, mem, have, want, a)
  }

  // ----- One byte ------------------------------------------------------------------------

  /** A byte to be erased that the image shows as unerased makes its chunk bad. */
  lemma DistrustedIsBad(g: WriteGranularity, ev: byte, have: Image, want: Image, a: nat)
    requires Base(a, Stride(g)) + Stride(g) <= |have| == |want| && ErasedOk(g, ev)
    requires !g.Gran1ByteImplicitErase? && want[a] == ev && have[a] != ev
    ensures Bad(g, ev, have, want, a)
  {
    if g.Gran1Bit? {
      assert have[a] & 0xFF == have[a];
    }
  }

  /** Where a plausible image asks for no erase, programming is legal. */
  lemma NotBadIsLegal(ctx: Ctx, mem: Image, have: Image, want: Image, lo: nat, hi: nat, a: nat)
    requires ErasedOk(ctx.gran, ctx.ev) && OnGrid(lo, Stride(ctx.gran)) && OnGrid(hi, Stride(ctx.gran)) && lo <= a < hi
    requires |mem| == |have| == |want| && AllPlausible(ctx, mem, have, want, lo, hi)
    requires !Bad(ctx.gran, ctx.ev, have, want, a)
    ensures LegalIfDiff(ctx.gran, ctx.ev, mem, have, want, a)
  {
    var g, c := ctx.gran, Base(a, Stride(ctx.gran));
    BaseWithin(a, lo, hi, Stride(g));
    if Diff(g, have, want, a) && !g.Gran1ByteImplicitErase? {
      forall b: nat | c <= b < c + Stride(g) ensures mem[b] == have[b] {
        BaseUnique(b, c, Stride(g));
        assert Plausible(ctx, mem, have, want, b);
        if mem[b] != have[b] {
          DistrustedIsBad(g, ctx.ev, have, want, b);
        }
      }
      DifferingChunkLegal(g, ctx.ev, mem, have, want, c);
    }
  }

  /** A byte that is legal to program if it differs ends up as wanted. */
  lemma LoopWrites(ctx: Ctx, m0: Image, m1: Image, have: Image, want: Image, lo: nat, hi: nat, a: nat)
    requires OnGrid(lo, Stride(ctx.gran)) && OnGrid(hi, Stride(ctx.gran))
             && lo <= a < hi <= |m0| == |m1| == |have| == |want|
    requires Plausible(ctx, m0, have, want, a) && LoopByte(ctx.gran, ctx.ev, m0, m1, have, want, a)
    requires LegalIfDiff(ctx.gran, ctx.ev, m0, have, want, a)
    ensures m1[a] == want[a]
  {
    BaseWithin(a, lo, hi, Stride(ctx.gran));
    if !Diff(ctx.gran, have, want, a) {
      assert have[a] == want[a];
    }
  }

  /** What the loop over the stretches does under a plausible image. */
  lemma StretchOutcome(ctx: Ctx, lv: Level, m0: Image, m1: Image, have: Image, c1: Image, want: Image,
                       l0: seq<Op>, l1: seq<Op>, rs: nat, addr: nat, ops: seq<Op>, w: set<nat>)
    requires StretchWith(ctx, lv, m0, m1, have, c1, want, l0, l1, rs, addr, ops, w)
    requires ErasedOk(ctx.gran, ctx.ev) && AllPlausible(ctx, m0, have, want, rs, addr)
    ensures Lawful(ops, 0) <==> CutsLegal(ctx, lv, m0, have, want, rs, addr)
    ensures CutsLegal(ctx, lv, m0, have, want, rs, addr) ==> forall a: nat | rs <= a < addr && ctx.Writable(a) ::
            m1[a] == want[a]
  {
    forall a: nat | rs <= a < addr
      ensures StretchLegal(ctx, m0, have, want, w, a) <==> CutLegal(ctx, lv, m0, have, want, a)
      ensures ctx.Writable(a) && CutLegal(ctx, lv, m0, have, want, a) ==> m1[a] == want[a]
    {
      assert StretchByte(ctx, lv, m0, m1, have, want, w, a) && Plausible(ctx, m0, have, want, a);
      if ctx.Writable(a) && a !in w {
        if Uncut(ctx, lv, a) {
          NotBadIsLegal(ctx, m0, have, want, rs, addr, a);
        }
        if LegalIfDiff(ctx.gran, ctx.ev, m0, have, want, a) {
          LoopWrites(ctx, m0, m1, have, want, rs, addr, a);
        }
      }
    }
    StretchesLegalMeans(ctx, m0, have, want, w, rs, addr);
  }

  // ----- One call of erase_write ------------------------------------------------------------

  ghost predicate RegionOk(ctx: Ctx, levels: seq<Level>, m0: Image, m1: Image, c0: Image, c1: Image, want: Image,
                           l0: seq<Op>, l1: seq<Op>, start: nat, end: nat)
  {
    && ValidLayout(levels, ctx.size) && start <= end < ctx.size == |m0| == |c0| == |want| && ErasedOk(ctx.gran, ctx.ev)
    && var rs, re := AlignedStart(levels, ctx.size, start), AlignedEnd(levels, ctx.size, end);
       EraseWriteOk(ctx, levels[0], m0, m1, c0, c1, want, l0, l1, start, end, rs, re)
  }

  /** The condition of `CutsLegal` for one call: the padding is taken from the chip. */
  ghost predicate RegionLegal(ctx: Ctx, levels: seq<Level>, mem: Image, have: Image, want: Image, start: nat, end: nat)
    requires ValidLayout(levels, ctx.size) && start <= end < ctx.size == |mem| == |have| == |want|
  {
    var rs, re := AlignedStart(levels, ctx.size, start), AlignedEnd(levels, ctx.size, end);
    CutsLegal(ctx, levels[0], mem, Padded(have, mem, start, end, rs, re), Padded(want, mem, start, end, rs, re), rs,
              re + 1)
  }

  lemma PaddedPlausible(ctx: Ctx, m0: Image, c0: Image, want: Image, start: nat, end: nat, rs: nat, re: nat)
    requires rs <= start <= end <= re < |m0| == |c0| == |want| && AllPlausible(ctx, m0, c0, want, start, end + 1)
    ensures AllPlausible(ctx, m0, Padded(c0, m0, start, end, rs, re), Padded(want, m0, start, end, rs, re), rs, re + 1)
  {
    var have', want' := Padded(c0, m0, start, end, rs, re), Padded(want, m0, start, end, rs, re);
    forall a: nat | rs <= a < re + 1 ensures Plausible(ctx, m0, have', want', a) {
      if start <= a <= end {
        assert Plausible(ctx, m0, c0, want, a);
      }
    }
  }

  /** The image after the call, whatever it was before. */
  lemma ImageStep(ctx: Ctx, levels: seq<Level>, m0: Image, m1: Image, c0: Image, c1: Image, want: Image,
                  l0: seq<Op>, l1: seq<Op>, start: nat, end: nat)
    requires RegionOk(ctx, levels, m0, m1, c0, c1, want, l0, l1, start, end)
    ensures l0 <= l1 && |m1| == |m0|
    ensures c1 == NextImage(ctx, m0, c0, want, start, end,
                            AlignedStart(levels, ctx.size, start), AlignedEnd(levels, ctx.size, end))
  {
    var rs, re, lv := AlignedStart(levels, ctx.size, start), AlignedEnd(levels, ctx.size, end), levels[0];
    var have', want' := Padded(c0, m0, start, end, rs, re), Padded(want, m0, start, end, rs, re);
    var ops: seq<Op>, w: set<nat> :| StretchWith(ctx, lv, m0, m1, have', c1, want', l0, l1, rs, re + 1, ops, w);
    forall a: nat | a < |c1| ensures c1[a] == NextImage(ctx, m0, c0, want, start, end, rs, re)[a] {
      if rs <= a < re + 1 {
        assert StretchImage(ctx, m0, m1, have', c1, want', a);
      }
    }
  }

  /** A successful erase_write with a plausible image obeys the NOR rule exactly if no cut
      block has to be programmed where that is illegal. */
  lemma LawfulIffCutsLegal(ctx: Ctx, levels: seq<Level>, m0: Image, m1: Image, c0: Image, c1: Image, want: Image,
                           l0: seq<Op>, l1: seq<Op>, start: nat, end: nat)
    requires RegionOk(ctx, levels, m0, m1, c0, c1, want, l0, l1, start, end)
    requires AllPlausible(ctx, m0, c0, want, start, end + 1)
    ensures l0 <= l1 && (Lawful(l1, |l0|) <==> RegionLegal(ctx, levels, m0, c0, want, start, end))
  {
    var rs, re, lv := AlignedStart(levels, ctx.size, start), AlignedEnd(levels, ctx.size, end), levels[0];
    var have', want' := Padded(c0, m0, start, end, rs, re), Padded(want, m0, start, end, rs, re);
    PaddedPlausible(ctx, m0, c0, want, start, end, rs, re);
    var ops: seq<Op>, w: set<nat> :| StretchWith(ctx, lv, m0, m1, have', c1, want', l0, l1, rs, re + 1, ops, w);
    StretchOutcome(ctx, lv, m0, m1, have', c1, want', l0, l1, rs, re + 1, ops, w);
    LawfulOps(l0, ops);
  }

  lemma LawfulOps(l0: seq<Op>, ops: seq<Op>)
    ensures Lawful(l0 + ops, |l0|) <==> Lawful(ops, 0)
  {
    if Lawful(ops, 0) {
      forall i | |l0| <= i < |l0 + ops| ensures (l0 + ops)[i].Program? ==> (l0 + ops)[i].legal {
        assert (l0 + ops)[i] == ops[i - |l0|];
      }
    }
    if Lawful(l0 + ops, |l0|) {
      forall i | 0 <= i < |ops| ensures ops[i].Program? ==> ops[i].legal {
        assert ops[i] == (l0 + ops)[|l0| + i];
      }
    }
  }

  /** If that condition holds, every byte of the chip is what it should be and all commands
      obey the NOR rule. */
  lemma EraseWriteMeaning(ctx: Ctx, levels: seq<Level>, m0: Image, m1: Image, c0: Image, c1: Image, want: Image,
                          l0: seq<Op>, l1: seq<Op>, start: nat, end: nat)
    requires RegionOk(ctx, levels, m0, m1, c0, c1, want, l0, l1, start, end)
    requires AllPlausible(ctx, m0, c0, want, start, end + 1) && RegionLegal(ctx, levels, m0, c0, want, start, end)
    ensures |m1| == ctx.size && forall a: nat | a < ctx.size :: m1[a] == Goal(ctx, m0, want, start, end, a)
    ensures l0 <= l1 && Lawful(l1, |l0|)
  {
    var rs, re, lv := AlignedStart(levels, ctx.size, start), AlignedEnd(levels, ctx.size, end), levels[0];
    var have', want' := Padded(c0, m0, start, end, rs, re), Padded(want, m0, start, end, rs, re);
    PaddedPlausible(ctx, m0, c0, want, start, end, rs, re);
    var ops: seq<Op>, w: set<nat> :| StretchWith(ctx, lv, m0, m1, have', c1, want', l0, l1, rs, re + 1, ops, w);
    StretchOutcome(ctx, lv, m0, m1, have', c1, want', l0, l1, rs, re + 1, ops, w);
    LawfulOps(l0, ops);
    forall a: nat | a < ctx.size ensures m1[a] == Goal(ctx, m0, want, start, end, a) {
      if rs <= a < re + 1 {
        assert StretchImage(ctx, m0, m1, have', c1, want', a);
      }
    }
  }

  /** A run without commands had nothing to do and left the chip alone; and where there is
      nothing to do, no command is issued. */
  lemma CommandsIffDiffering(ctx: Ctx, levels: seq<Level>, m0: Image, m1: Image, c0: Image, c1: Image, want: Image,
                             l0: seq<Op>, l1: seq<Op>, start: nat, end: nat)
    requires RegionOk(ctx, levels, m0, m1, c0, c1, want, l0, l1, start, end)
    ensures l1 == l0 ==> NoneDiffer(ctx, c0, want, start, end + 1) && m1 == m0
    ensures ctx.ratio < 100 && NoneDiffer(ctx, c0, want, start, end + 1) ==> l1 == l0
  {
    var rs, re, lv := AlignedStart(levels, ctx.size, start), AlignedEnd(levels, ctx.size, end), levels[0];
    var have', want' := Padded(c0, m0, start, end, rs, re), Padded(want, m0, start, end, rs, re);
    var ops: seq<Op>, w: set<nat> :| StretchWith(ctx, lv, m0, m1, have', c1, want', l0, l1, rs, re + 1, ops, w);
    assert NoneDiffer(ctx, have', want', rs, re + 1) <==> NoneDiffer(ctx, c0, want, start, end + 1) by {
      forall a: nat | start <= a < end + 1 ensures have'[a] == c0[a] && want'[a] == want[a] {
      }
    }
    assert l1 == l0 <==> ops == [];
  }

  // ----- An exact image ---------------------------------------------------------------------

  /** With an exact image, the condition is that no writable byte of the aligned region needs
      an erase in an erase block that a protection-region border cuts. */
  lemma ExactRegionLegal(ctx: Ctx, levels: seq<Level>, m0: Image, c0: Image, want: Image, start: nat, end: nat)
    requires ValidLayout(levels, ctx.size) && start <= end < ctx.size == |m0| == |c0| == |want|
    requires ctx.Honest() && BlocksOnGrid(levels[0], ctx.gran) && Granularity.Same(m0, c0, start, end + 1)
    ensures RegionLegal(ctx, levels, m0, c0, want, start, end) <==> RegionClean(ctx, levels, m0, want, start, end)
  {
    var rs, re, lv := AlignedStart(levels, ctx.size, start), AlignedEnd(levels, ctx.size, end), levels[0];
    var have', want' := Padded(c0, m0, start, end, rs, re), Padded(want, m0, start, end, rs, re);
    AlignedOnGrid(ctx, levels, start, end);
    forall a: nat | rs <= a < re + 1
      ensures CutLegal(ctx, lv, m0, have', want', a) <==> !(ctx.Writable(a) && CutBad(ctx, lv, m0, want', a))
    {
      BaseWithin(a, rs, re + 1, Stride(ctx.gran));
      ExactLegal(ctx.gran, ctx.ev, m0, have', want', a);
    }
  }

  lemma ExactLegal(g: WriteGranularity, ev: byte, mem: Image, have: Image, want: Image, a: nat)
    requires |mem| == |have| == |want|
    requires var c := Base(a, Stride(g)); c + Stride(g) <= |mem| && Granularity.Same(mem, have, c, c + Stride(g))
    ensures LegalIfDiff(g, ev, mem, have, want, a) <==> !Bad(g, ev, mem, want, a)
  {
    var c := Base(a, Stride(g));
    ChunkSame(g, ev, mem, have, want, a);
    if Diff(g, have, want, a) {
      DifferingChunkLegal(g, ev, mem, have, want, c);
    } else if Bad(g, ev, mem, want, a) {
      BadDiffers(g, ev, mem, want, c);
    }
  }

  /** No writable byte of the aligned region needs an erase in a cut erase block.  It speaks
      about the chip and the wanted bytes only. */
  ghost predicate RegionClean(ctx: Ctx, levels: seq<Level>, mem: Image, want: Image, start: nat, end: nat)
    requires ValidLayout(levels, ctx.size) && start <= end < ctx.size == |mem| == |want|
  {
    var rs, re := AlignedStart(levels, ctx.size, start), AlignedEnd(levels, ctx.size, end);
    NoneCutBad(ctx, levels[0], mem, Padded(want, mem, start, end, rs, re), rs, re + 1)
  }

  lemma LawfulIffNothingCut(ctx: Ctx, levels: seq<Level>, m0: Image, m1: Image, c0: Image, c1: Image, want: Image,
                            l0: seq<Op>, l1: seq<Op>, start: nat, end: nat)
    requires RegionOk(ctx, levels, m0, m1, c0, c1, want, l0, l1, start, end)
    requires ctx.Honest() && BlocksOnGrid(levels[0], ctx.gran) && Granularity.Same(m0, c0, start, end + 1)
    ensures l0 <= l1 && (Lawful(l1, |l0|) <==> RegionClean(ctx, levels, m0, want, start, end))
  {
    LawfulIffCutsLegal(ctx, levels, m0, m1, c0, c1, want, l0, l1, start, end);
    ExactRegionLegal(ctx, levels, m0, c0, want, start, end);
  }

  // ----- One-bit granularity -----------------------------------------------------------------

  /** What is needed of the image of a byte on a chip that only clears bits: if no erase can
      help, it must not hide bits that are still to be cleared. */
  ghost predicate Fair(ctx: Ctx, lv: Level, mem: Image, have: Image, want: Image, a: nat)
    requires a < |mem| && a < |have| && a < |want|
  {
    if Uncut(ctx, lv, a) then Plausible(ctx, mem, have, want, a)
    else have[a] == want[a] ==> mem[a] & want[a] == mem[a]
  }

  /** The exact result at one-bit granularity: uncut bytes are as wanted, cut ones have the
      wanted bits cleared and no bit set. */
  ghost function OneBitGoal(ctx: Ctx, lv: Level, mem: Image, want: Image, a: nat): byte
    requires a < |mem| && a < |want|
  {
    if Uncut(ctx, lv, a) then want[a] else mem[a] & want[a]
  }

  lemma OneBitMeaning(ctx: Ctx, levels: seq<Level>, m0: Image, m1: Image, c0: Image, c1: Image, want: Image,
                      l0: seq<Op>, l1: seq<Op>, start: nat, end: nat, a: nat)
    requires RegionOk(ctx, levels, m0, m1, c0, c1, want, l0, l1, start, end) && ctx.gran.Gran1Bit? && a < ctx.size
    requires start <= a <= end && ctx.Writable(a) ==> Fair(ctx, levels[0], m0, c0, want, a)
    ensures |m1| == |m0|
    ensures m1[a] == if start <= a <= end && ctx.Writable(a) then OneBitGoal(ctx, levels[0], m0, want, a) else m0[a]
  {
    var rs, re, lv := AlignedStart(levels, ctx.size, start), AlignedEnd(levels, ctx.size, end), levels[0];
    var have', want' := Padded(c0, m0, start, end, rs, re), Padded(want, m0, start, end, rs, re);
    var ops: seq<Op>, w: set<nat> :| StretchWith(ctx, lv, m0, m1, have', c1, want', l0, l1, rs, re + 1, ops, w);
    if rs <= a < re + 1 {
      assert StretchImage(ctx, m0, m1, have', c1, want', a) && StretchByte(ctx, lv, m0, m1, have', want', w, a);
      if ctx.Writable(a) {
        OneBitByte(ctx, lv, m0, m1, have', want', w, a);
      }
    }
  }

  lemma OneBitByte(ctx: Ctx, lv: Level, m0: Image, m1: Image, have: Image, want: Image, w: set<nat>, a: nat)
    requires ctx.gran.Gran1Bit? && ErasedOk(ctx.gran, ctx.ev) && ctx.Writable(a)
    requires |m0| == |m1| == |have| == |want| && a < |m0| && StretchByte(ctx, lv, m0, m1, have, want, w, a)
    ensures have[a] == want[a] == m0[a] ==> m1[a] == m0[a]
    ensures Fair(ctx, lv, m0, have, want, a) ==> m1[a] == OneBitGoal(ctx, lv, m0, want, a)
  {
    OneBitChunk(ctx.ev, have, want, a);
    OneBitChunk(ctx.ev, m0, want, a);
    AndSelf(want[a]);
    if Fair(ctx, lv, m0, have, want, a) && Uncut(ctx, lv, a) && m0[a] != have[a] {
      DistrustedIsBad(ctx.gran, ctx.ev, have, want, a);
    }
  }

  lemma AndSelf(x: byte)
    ensures x & x == x
  {
  }

  /** On a chip that only clears bits, the data is right exactly under the condition for an
      exact image. */
  lemma OneBitRightIffNothingCut(ctx: Ctx, levels: seq<Level>, m0: Image, m1: Image, c0: Image, c1: Image, want: Image,
                                 l0: seq<Op>, l1: seq<Op>, start: nat, end: nat)
    requires RegionOk(ctx, levels, m0, m1, c0, c1, want, l0, l1, start, end) && ctx.gran.Gran1Bit?
    requires Granularity.Same(m0, c0, start, end + 1)
    ensures |m1| == |m0| &&
            ((forall a: nat | start <= a <= end && ctx.Writable(a) :: m1[a] == want[a]) <==>
              RegionClean(ctx, levels, m0, want, start, end))
  {
    var rs, re, lv := AlignedStart(levels, ctx.size, start), AlignedEnd(levels, ctx.size, end), levels[0];
    var want' := Padded(want, m0, start, end, rs, re);
    forall a: nat | rs <= a < re + 1 && ctx.Writable(a)
      ensures CutBad(ctx, lv, m0, want', a) <==> start <= a <= end && m1[a] != want[a]
    {
      OneBitMeaning(ctx, levels, m0, m1, c0, c1, want, l0, l1, start, end, a);
      OneBitCutBad(ctx, lv, m0, m1, want, want', start, end, a);
    }
  }

  lemma OneBitCutBad(ctx: Ctx, lv: Level, m0: Image, m1: Image, want: Image, want': Image, start: nat, end: nat, a: nat)
    requires ctx.gran.Gran1Bit? && a < |m0| == |m1| == |want| == |want'|
    requires want'[a] == if start <= a <= end then want[a] else m0[a]
    requires start <= a <= end ==> m1[a] == OneBitGoal(ctx, lv, m0, want, a)
    ensures CutBad(ctx, lv, m0, want', a) <==> start <= a <= end && m1[a] != want[a]
  {
    AndSelf(m0[a]);
    OneBitChunk(ctx.ev, m0, want', a);
  }

  // ----- A run that goes wrong ----------------------------------------------------------

  /** One erase block of two bytes across two writable regions of one byte each. */
  function TwoRegions(a: nat): Region {
    if a == 0 then Region(0, 0, false, false) else Region(1, 1, false, false)
  }

  const CutCtx := Ctx(2, Gran1Bit, 0xFF, 0, false, false, false, TwoRegions)
  const CutLevels: seq<Level> := [[Block(0, 1, 0, 0)]]

  lemma CutFacts()
    ensures CutCtx.Honest() && ValidLayout(CutLevels, 2) && BlocksOnGrid(CutLevels[0], Gran1Bit)
    ensures AlignedStart(CutLevels, 2, 0) == 0 && AlignedEnd(CutLevels, 2, 1) == 1
    ensures forall a: nat | a < 2 :: !Uncut(CutCtx, CutLevels[0], a)
  {
    assert Tiling(CutLevels[0], 2) && ValidUpTo(CutLevels, 2, 1);
    forall a: nat | a < 2 ensures CutCtx.HonestAt(a) {
    }
    assert BlockAt(CutLevels, 2, 0) == 0 && BlockAt(CutLevels, 2, 1) == 0;
  }

  /** Asked to turn byte 0 from 0x00 into 0x01, erase_write reports success on a chip that
      never fails, and leaves 0x00: the only erase block is cut by the region border. */
  method CutBlockIsNotErased() returns (chip: Chip, ret: int)
    ensures ret == 0 && chip.Reliable() && |chip.mem| == 2 && chip.mem[0] == 0x00
  {
    CutFacts();
    chip := new Chip([0x00, 0xFF], Gran1Bit, 0xFF, n => Outcome(true, _ => 0));
    assert chip.Reliable();
    var layout := new EraseLayout(CutLevels, 2);
    var cur := new byte[2](i => if i == 0 then 0x00 else 0xFF);
    var new' := new byte[2](i => if i == 0 then 0x01 else 0xFF);
    ghost var m0, c0, want, l0 := chip.mem, cur[..], new'[..], chip.log;
    assert m0 == c0;
    var skipped;
    ret, skipped := WriteRegion(CutCtx, chip, layout, cur, new', 0, 1, true);
    assert AllWritable(CutCtx, 0, 2) && AllReadable(CutCtx, 0, 2);
    assert RegionOk(CutCtx, CutLevels, m0, chip.mem, c0, cur[..], want, l0, chip.log, 0, 1);
    OneBitMeaning(CutCtx, CutLevels, m0, chip.mem, c0, cur[..], want, l0, chip.log, 0, 1, 0);
    assert (0x00 as bv8) & (0x01 as bv8) == 0x00;
  }
}
