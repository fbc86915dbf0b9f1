/** The write loop of erase_write_helper (erasure_layout.c): programs the chunks that
    differ, as maximal runs, until the image of the chip equals the wanted one. */
module WritePhase {
  import opened Granularity
  import opened Flash
  import opened RegionWalk

  ghost predicate InRuns(runs: seq<Op>, a: nat) {
    exists i :: 0 <= i < |runs| && runs[i].start <= a < runs[i].end
  }

  /** The runs consist of differing chunks only, contain every differing chunk exactly
      once, and are separated by chunks that do not differ. */
  ghost predicate MaximalRuns(g: WriteGranularity, have: Image, want: Image, lo: nat, hi: nat, runs: seq<Op>)
    requires hi <= |have| && hi <= |want|
  {
    && (forall i | 0 <= i < |runs| ::
          && runs[i].Program? && lo <= runs[i].start < runs[i].end <= hi
          && DiffRun(g, have, want, runs[i].start, runs[i].end))
    && (forall i, j | 0 <= i < j < |runs| :: runs[i].end < runs[j].start)
    && (forall a: nat | lo <= a < hi && Diff(g, have, want, a) :: InRuns(runs, a))
  }

  ghost predicate AllLawful(runs: seq<Op>) {
    forall i | 0 <= i < |runs| :: runs[i].Program? && runs[i].legal
  }

  /** What the write loop makes of one byte of the chip, whatever the image said: chunks
      that differed from the image are programmed, all others keep their bytes. */
  ghost predicate LoopByte(g: WriteGranularity, ev: byte, m0: Image, m1: Image, have: Image, want: Image, a: nat)
    requires |m1| == |m0| == |want| && a < |m0|
  {
    if Diff(g, have, want, a) then ProgrammedByte(g, ev, m0, m1, want, a) else m1[a] == m0[a]
  }

  ghost predicate Looped(g: WriteGranularity, ev: byte, m0: Image, m1: Image, have: Image, want: Image, lo: nat,
                         hi: nat) {
    && |m1| == |m0| == |want| && hi <= |m0|
    && forall a: nat | lo <= a < hi :: LoopByte(g, ev, m0, m1, have, want, a)
  }

  /** Every chunk that differs from the image may be programmed on the chip as it is. */
  ghost predicate LoopLegal(g: WriteGranularity, ev: byte, mem: Image, have: Image, want: Image, lo: nat, hi: nat) {
    forall a: nat | lo <= a < hi :: LegalIfDiff(g, ev, mem, have, want, a)
  }

  ghost predicate LegalIfDiff(g: WriteGranularity, ev: byte, mem: Image, have: Image, want: Image, a: nat) {
    Diff(g, have, want, a) ==> Legal(g, ev, mem, want, a)
  }

  /** The log tells for each command whether it was legal on the chip as it was at first. */
  ghost predicate LegalRuns(g: WriteGranularity, ev: byte, mem: Image, want: Image, runs: seq<Op>) {
    forall i | 0 <= i < |runs| :: LegalRun(g, ev, mem, want, runs[i])
  }

  ghost predicate LegalRun(g: WriteGranularity, ev: byte, mem: Image, want: Image, op: Op) {
    op.Program? && (op.legal <==> AllLegal(g, ev, mem, want, op.start, op.end))
  }

  /** The commands all obey the NOR rule exactly if every differing chunk may be programmed. */
  lemma RunsAccount(g: WriteGranularity, ev: byte, mem: Image, have: Image, want: Image, lo: nat, hi: nat,
                    runs: seq<Op>)
    requires hi <= |have| && hi <= |want|
    requires MaximalRuns(g, have, want, lo, hi, runs) && LegalRuns(g, ev, mem, want, runs)
    ensures AllLawful(runs) <==> LoopLegal(g, ev, mem, have, want, lo, hi)
  {
    if AllLawful(runs) {
      forall a: nat | lo <= a < hi ensures LegalIfDiff(g, ev, mem, have, want, a) {
        if Diff(g, have, want, a) {
          assert InRuns(runs, a);
          var i :| 0 <= i < |runs| && runs[i].start <= a < runs[i].end;
          assert LegalRun(g, ev, mem, want, runs[i]);
        }
      }
    }
    if LoopLegal(g, ev, mem, have, want, lo, hi) {
      forall i | 0 <= i < |runs| ensures runs[i].Program? && runs[i].legal {
        assert LegalRun(g, ev, mem, want, runs[i]);
        forall a: nat | runs[i].start <= a < runs[i].end ensures Legal(g, ev, mem, want, a) {
          RunDiffers(g, have, want, runs[i].start, runs[i].end, a);
          assert LegalIfDiff(g, ev, mem, have, want, a);
        }
      }
    }
  }

  // ----- One round ----------------------------------------------------------------

  /** The next run starts at or after the part that is already done. */
  lemma RunAfterFrontier(g: WriteGranularity, c0: Image, c1: Image, want: Image, lo: nat, base: nat, f: nat, hi: nat,
                         start: nat, end: nat)
    requires lo <= base <= f <= hi <= |c0| && hi <= |want| && OnGrid(f, Stride(g))
    requires OnlyWithin(c0, c1, lo, f) && Same(c1, want, lo, f) && FirstRun(g, c1, want, base, hi, start, end)
    ensures f <= start && Same(c0, want, f, start) && DiffRun(g, c0, want, start, end)
    ensures end < hi ==> end + Stride(g) <= hi && !DiffAt(g, c0, want, end)
  {
    var s := Stride(g);
    GridGap(start, end, s);
    assert DiffAt(g, c1, want, start);
    if start < f {
      GridGap(start, f, s);
    }
    forall c: nat | start <= c && c + s <= end && OnGrid(c, s) ensures DiffAt(g, c0, want, c) {
      assert DiffAt(g, c1, want, c);
    }
  }

  /** Chunks between two grid points where both images agree do not differ. */
  lemma SameNotDiff(g: WriteGranularity, ev: byte, have: Image, want: Image, lo: nat, hi: nat, a: nat)
    requires lo <= a < hi <= |have| && hi <= |want| && OnGrid(lo, Stride(g)) && OnGrid(hi, Stride(g))
    requires Same(have, want, lo, hi)
    ensures !Diff(g, have, want, a) && !Bad(g, ev, have, want, a)
  {
    BaseWithin(a, lo, hi, Stride(g));
    if Bad(g, ev, have, want, a) {
      BadDiffers(g, ev, have, want, Base(a, Stride(g)));
    }
  }

  lemma RunDiffers(g: WriteGranularity, have: Image, want: Image, start: nat, end: nat, a: nat)
    requires start <= a < end <= |have| && end <= |want| && DiffRun(g, have, want, start, end)
    ensures Diff(g, have, want, a)
  {
    BaseWithin(a, start, end, Stride(g));
    assert DiffAt(g, have, want, Base(a, Stride(g)));
  }

  /** State of the loop: everything before `f` is done, nothing from `f` on is touched.
      `runs` are the program commands issued so far. */
  ghost predicate ProgressWith(ctx: Ctx, m0: Image, m1: Image, c0: Image, c1: Image, l0: seq<Op>, l1: seq<Op>,
                               want: Image, lo: nat, f: nat, hi: nat, runs: seq<Op>)
  {
    && lo <= f <= hi <= |m0| == |c0| == |want| && OnGrid(f, Stride(ctx.gran))
    && OnlyWithin(m0, m1, lo, f) && OnlyWithin(c0, c1, lo, f) && Same(c1, want, lo, f)
    && l1 == l0 + runs && ProgramsOnly(ctx, runs, 0, lo, f)
    && MaximalRuns(ctx.gran, c0, want, lo, f, runs)
    && Looped(ctx.gran, ctx.ev, m0, m1, c0, want, lo, f)
    && LegalRuns(ctx.gran, ctx.ev, m0, want, runs)
    && (f < hi && runs != [] ==> f + Stride(ctx.gran) <= hi && !DiffAt(ctx.gran, c0, want, f))
  }

  ghost predicate Progress(ctx: Ctx, m0: Image, m1: Image, c0: Image, c1: Image, l0: seq<Op>, l1: seq<Op>, want: Image,
                           lo: nat, f: nat, hi: nat)
  {
    exists runs :: ProgressWith(ctx, m0, m1, c0, c1, l0, l1, want, lo, f, hi, runs)
  }

  lemma RoundBytes(g: WriteGranularity, ev: byte, m0: Image, m1: Image, m2: Image, c0: Image, want: Image,
                   lo: nat, f: nat, start: nat, end: nat)
    requires lo <= f <= start < end <= |m0| == |c0| == |want| && OnGrid(f, Stride(g))
    requires OnlyWithin(m0, m1, lo, f) && Looped(g, ev, m0, m1, c0, want, lo, f)
    requires Same(c0, want, f, start) && DiffRun(g, c0, want, start, end)
    requires OnlyWithin(m1, m2, start, end) && Programmed(g, ev, m1, m2, want, start, end)
    ensures OnlyWithin(m0, m2, lo, end) && Looped(g, ev, m0, m2, c0, want, lo, end)
    ensures AllLegal(g, ev, m1, want, start, end) <==> AllLegal(g, ev, m0, want, start, end)
  {
    forall a: nat | start <= a < end ensures Legal(g, ev, m0, want, a) <==> Legal(g, ev, m1, want, a) {
      ChunkFrame(g, ev, m0, m1, want, lo, f, a);
    }
    forall a: nat | lo <= a < end ensures LoopByte(g, ev, m0, m2, c0, want, a) {
      RoundByte(g, ev, m0, m1, m2, c0, want, lo, f, start, end, a);
    }
  }

  lemma RoundByte(g: WriteGranularity, ev: byte, m0: Image, m1: Image, m2: Image, c0: Image, want: Image,
                  lo: nat, f: nat, start: nat, end: nat, a: nat)
    requires lo <= f <= start < end <= |m0| == |c0| == |want| && OnGrid(f, Stride(g)) && lo <= a < end
    requires OnlyWithin(m0, m1, lo, f) && Looped(g, ev, m0, m1, c0, want, lo, f)
    requires Same(c0, want, f, start) && DiffRun(g, c0, want, start, end)
    requires OnlyWithin(m1, m2, start, end) && Programmed(g, ev, m1, m2, want, start, end)
    ensures LoopByte(g, ev, m0, m2, c0, want, a)
  {
    if a < f {
      assert LoopByte(g, ev, m0, m1, c0, want, a) && m2[a] == m1[a];
    } else if a < start {
      SameNotDiff(g, ev, c0, want, f, start, a);
    } else {
      RunDiffers(g, c0, want, start, end, a);
      ChunkFrame(g, ev, m0, m1, want, lo, f, a);
      assert ProgrammedByte(g, ev, m1, m2, want, a) && m1[a] == m0[a];
    }
  }

  lemma RoundRuns(g: WriteGranularity, ev: byte, mem: Image, have: Image, want: Image, lo: nat, f: nat, runs: seq<Op>,
                  op: Op)
    requires op.Program? && lo <= f <= op.start < op.end <= |have| == |want| && OnGrid(f, Stride(g))
    requires Same(have, want, f, op.start) && DiffRun(g, have, want, op.start, op.end)
    requires MaximalRuns(g, have, want, lo, f, runs)
    requires runs != [] ==> f + Stride(g) <= |have| && !DiffAt(g, have, want, f)
    requires LegalRuns(g, ev, mem, want, runs) && LegalRun(g, ev, mem, want, op)
    ensures MaximalRuns(g, have, want, lo, op.end, runs + [op]) && LegalRuns(g, ev, mem, want, runs + [op])
  {
    GridGap(op.start, op.end, Stride(g));
    assert DiffAt(g, have, want, op.start);
    forall a: nat | f <= a < op.start ensures !Diff(g, have, want, a) {
      SameNotDiff(g, ev, have, want, f, op.start, a);
    }
    RunsExtend(g, have, want, lo, f, runs, op);
    LegalRunsExtend(g, ev, mem, want, runs, op);
  }

  lemma LegalRunsExtend(g: WriteGranularity, ev: byte, mem: Image, want: Image, runs: seq<Op>, op: Op)
    requires LegalRuns(g, ev, mem, want, runs) && LegalRun(g, ev, mem, want, op)
    ensures LegalRuns(g, ev, mem, want, runs + [op])
  {
  }

  lemma RunsExtend(g: WriteGranularity, have: Image, want: Image, lo: nat, f: nat, runs: seq<Op>, op: Op)
    requires op.Program? && lo <= f <= op.start < op.end <= |have| && op.end <= |want|
    requires MaximalRuns(g, have, want, lo, f, runs) && DiffRun(g, have, want, op.start, op.end)
    requires runs != [] ==> f < op.start
    requires forall a: nat | f <= a < op.start :: !Diff(g, have, want, a)
    ensures MaximalRuns(g, have, want, lo, op.end, runs + [op])
  {
    var runs' := runs + [op];
    forall a: nat | lo <= a < op.end && Diff(g, have, want, a) ensures InRuns(runs', a) {
      if a < f {
        var i :| 0 <= i < |runs| && runs[i].start <= a < runs[i].end;
        assert runs'[i] == runs[i];
      } else {
        assert runs'[|runs|] == op;
      }
    }
  }

  /** One round of the loop advances the state past the run it programmed. */
  lemma Round(ctx: Ctx, m0: Image, m1: Image, m2: Image, c0: Image, c1: Image, c2: Image,
              l0: seq<Op>, l1: seq<Op>, l2: seq<Op>, want: Image, lo: nat, base: nat, f: nat, hi: nat, op: Op, end: nat)
    requires Progress(ctx, m0, m1, c0, c1, l0, l1, want, lo, f, hi)
    requires op.Program? && op.end == end && l2 == l1 + [op] && AllWritable(ctx, op.start, op.end)
    requires lo <= base <= f && FirstRun(ctx.gran, c1, want, base, hi, op.start, op.end)
    requires OnlyWithin(m1, m2, op.start, op.end) && Programmed(ctx.gran, ctx.ev, m1, m2, want, op.start, op.end)
    requires OnlyWithin(c1, c2, op.start, op.end) && Same(c2, want, op.start, op.end)
    requires op.legal == AllLegal(ctx.gran, ctx.ev, m1, want, op.start, op.end)
    ensures f < end && |l2| > |l0| && Progress(ctx, m0, m2, c0, c2, l0, l2, want, lo, end, hi)
  {
    var g, ev, start := ctx.gran, ctx.ev, op.start;
    var runs :| ProgressWith(ctx, m0, m1, c0, c1, l0, l1, want, lo, f, hi, runs);
    RunAfterFrontier(g, c0, c1, want, lo, base, f, hi, start, end);
    RoundBytes(g, ev, m0, m1, m2, c0, want, lo, f, start, end);
    RoundRuns(g, ev, m0, c0, want, lo, f, runs, op);
    RoundImage(c0, c1, c2, want, lo, f, start, end);
    AppendToLog(l0, runs, op);
    assert ProgressWith(ctx, m0, m2, c0, c2, l0, l2, want, lo, end, hi, runs + [op]);
  }

  lemma AppendToLog(l0: seq<Op>, runs: seq<Op>, op: Op)
    ensures l0 + runs + [op] == l0 + (runs + [op])
  {
  }

  lemma RoundImage(c0: Image, c1: Image, c2: Image, want: Image, lo: nat, f: nat, start: nat, end: nat)
    requires lo <= f <= start < end <= |c0| == |want| && OnlyWithin(c0, c1, lo, f) && Same(c1, want, lo, f)
    requires Same(c0, want, f, start) && OnlyWithin(c1, c2, start, end) && Same(c2, want, start, end)
    ensures OnlyWithin(c0, c2, lo, end) && Same(c2, want, lo, end)
  {
  }

  /** The last part, after which nothing differs any more. */
  lemma Finish(ctx: Ctx, m0: Image, m1: Image, c0: Image, c1: Image, l0: seq<Op>, l1: seq<Op>, want: Image,
               lo: nat, base: nat, f: nat, hi: nat)
    requires Progress(ctx, m0, m1, c0, c1, l0, l1, want, lo, f, hi)
    requires base <= f && OnGrid(hi, Stride(ctx.gran)) && hi <= |c1| && hi <= |want| && Same(c1, want, base, hi)
    ensures Progress(ctx, m0, m1, c0, c1, l0, l1, want, lo, hi, hi)
  {
    var g, ev := ctx.gran, ctx.ev;
    var runs :| ProgressWith(ctx, m0, m1, c0, c1, l0, l1, want, lo, f, hi, runs);
    forall a: nat | f <= a < hi ensures !Diff(g, c0, want, a) {
      SameNotDiff(g, ev, c0, want, f, hi, a);
    }
    FinishBytes(g, ev, m0, m1, c0, want, lo, f, hi);
    assert MaximalRuns(g, c0, want, lo, hi, runs);
    assert ProgressWith(ctx, m0, m1, c0, c1, l0, l1, want, lo, hi, hi, runs);
  }

  lemma FinishBytes(g: WriteGranularity, ev: byte, m0: Image, m1: Image, c0: Image, want: Image, lo: nat, f: nat,
                    hi: nat)
    requires lo <= f <= hi <= |m0| == |c0| == |want| && OnlyWithin(m0, m1, lo, f)
    requires Looped(g, ev, m0, m1, c0, want, lo, f) && forall a: nat | f <= a < hi :: !Diff(g, c0, want, a)
    ensures Looped(g, ev, m0, m1, c0, want, lo, hi)
  {
    forall a: nat | lo <= a < hi ensures LoopByte(g, ev, m0, m1, c0, want, a) {
      if a < f {
        assert LoopByte(g, ev, m0, m1, c0, want, a);
      }
    }
  }

  lemma Start(ctx: Ctx, m0: Image, c0: Image, l0: seq<Op>, want: Image, lo: nat, hi: nat)
    requires lo <= hi <= |m0| == |c0| == |want| && OnGrid(lo, Stride(ctx.gran))
    ensures Progress(ctx, m0, m0, c0, c0, l0, l0, want, lo, lo, hi)
  {
    assert l0 == l0 + [];
    assert ProgressWith(ctx, m0, m0, c0, c0, l0, l0, want, lo, lo, hi, []);
  }

  // ----- The loop -----------------------------------------------------------------

  /** What holds of every run, also of one that stops with an error. */
  ghost predicate Confined(ctx: Ctx, m0: Image, m1: Image, c0: Image, c1: Image, l0: seq<Op>, l1: seq<Op>, lo: nat,
                           hi: nat) {
    && OnlyWithin(m0, m1, lo, hi) && OnlyWithin(c0, c1, lo, hi)
    && l0 <= l1 && ProgramsOnly(ctx, l1, |l0|, lo, hi)
  }

  ghost predicate WriteReady(ctx: Ctx, lo: nat, hi: nat) {
    && ctx.Honest() && lo < hi <= ctx.size && OnGrid(lo, Stride(ctx.gran)) && OnGrid(hi, Stride(ctx.gran))
    && OneRegion(ctx, lo, hi) && ctx.Writable(lo)
  }

  method WriteDiffering(ctx: Ctx, chip: Chip, cur: array<byte>, new': array<byte>, lo: nat, hi: nat, skipped: bool)
    returns (ok: bool, skipped': bool)
    requires WriteReady(ctx, lo, hi) && Attached(ctx, chip) && cur.Length == new'.Length == ctx.size && cur != new'
    modifies chip, cur
    ensures Attached(ctx, chip) && chip.readFaults == old(chip.readFaults)
    ensures Confined(ctx, old(chip.mem), chip.mem, old(cur[..]), cur[..], old(chip.log), chip.log, lo, hi)
    ensures ok ==> Progress(ctx, old(chip.mem), chip.mem, old(cur[..]), cur[..], old(chip.log), chip.log, new'[..],
                            lo, hi, hi)
    ensures ok ==> (skipped' <==> skipped && chip.log == old(chip.log))
    ensures ok <==> chip.faults == old(chip.faults)
    ensures chip.faults >= old(chip.faults)
  {
    ghost var m0, c0, l0, want := chip.mem, cur[..], chip.log, new'[..];
    ghost var f := lo;
    var startHere, done := 0, false;
    ok, skipped' := true, skipped;
    Start(ctx, m0, c0, l0, want, lo, hi);
    while !done
      invariant Attached(ctx, chip) && chip.readFaults == old(chip.readFaults) && new'[..] == want
      invariant ok && chip.faults == old(chip.faults)
      invariant 0 <= startHere && lo + startHere <= f && OnGrid(lo + startHere, Stride(ctx.gran))
      invariant Progress(ctx, m0, chip.mem, c0, cur[..], l0, chip.log, want, lo, f, hi)
      invariant done ==> f == hi
      invariant skipped' <==> skipped && chip.log == l0
      decreases !done, hi - f
    {
      ok, done, startHere, f := WriteNext(ctx, chip, cur, new', lo, hi, startHere, m0, c0, l0, want, f);
      if !ok {
        return;
      }
      if !done {
        skipped' := false;
      }
    }
  }

  /** One round: finds the next run, programs it and copies it into the image. */
  method WriteNext(ctx: Ctx, chip: Chip, cur: array<byte>, new': array<byte>, lo: nat, hi: nat, startHere: nat,
                   ghost m0: Image, ghost c0: Image, ghost l0: seq<Op>, ghost want: Image, ghost f: nat)
    returns (ok: bool, done: bool, start': nat, ghost f': nat)
    requires WriteReady(ctx, lo, hi) && Attached(ctx, chip) && cur.Length == new'.Length == ctx.size && cur != new'
    requires lo + startHere <= f && OnGrid(lo + startHere, Stride(ctx.gran))
    requires Progress(ctx, m0, chip.mem, c0, cur[..], l0, chip.log, want, lo, f, hi)
    requires new'[..] == want
    modifies chip, cur
    ensures Attached(ctx, chip) && chip.readFaults == old(chip.readFaults) && new'[..] == want
    ensures (ok <==> chip.faults == old(chip.faults)) && chip.faults >= old(chip.faults)
    ensures !ok ==> Confined(ctx, m0, chip.mem, c0, cur[..], l0, chip.log, lo, hi)
    ensures ok ==> Progress(ctx, m0, chip.mem, c0, cur[..], l0, chip.log, want, lo, f', hi)
    ensures ok ==> if done then f' == hi && chip.log == old(chip.log) else f < f' && |chip.log| > |l0|
    ensures lo + start' <= f' && OnGrid(lo + start', Stride(ctx.gran))
  {
    var base := lo + startHere;
    ProgressBounds(ctx, m0, chip.mem, c0, cur[..], l0, chip.log, want, lo, f, hi);
    var len, start;
    start', len, start := NextRun(cur, new', lo, hi, startHere, ctx.gran, want);
    if len == 0 {
      Finish(ctx, m0, chip.mem, c0, cur[..], l0, chip.log, want, lo, base, f, hi);
      return true, true, startHere, hi;
    }
    ok := WriteRun(ctx, chip, cur, new', lo, hi, start, len, m0, c0, l0, want, base, f);
    done, f' := false, start + len;
  }

  lemma ProgressBounds(ctx: Ctx, m0: Image, m1: Image, c0: Image, c1: Image, l0: seq<Op>, l1: seq<Op>, want: Image,
                       lo: nat, f: nat, hi: nat)
    requires Progress(ctx, m0, m1, c0, c1, l0, l1, want, lo, f, hi)
    ensures lo <= f <= hi
  {
  }

  /** get_next_write on the rest of the stretch, with the result as an address too. */
  method NextRun(cur: array<byte>, new': array<byte>, lo: nat, hi: nat, startHere: nat, g: WriteGranularity,
                 ghost want: Image) returns (start': nat, len: nat, start: nat)
    requires lo + startHere <= hi <= cur.Length && hi <= new'.Length && new'[..] == want
    requires OnGrid(lo + startHere, Stride(g)) && OnGrid(hi, Stride(g))
    ensures start == lo + start' && OnGrid(start, Stride(g))
    ensures len == 0 ==> start' == startHere && Same(cur[..], want, lo + startHere, hi)
    ensures len > 0 ==> FirstRun(g, cur[..], want, lo + startHere, hi, start, start + len)
  {
    ghost var base := lo + startHere;
    BaseUnique(hi, hi, Stride(g));
    start', len := GetNextWrite(cur, new', lo + startHere, hi - lo - startHere, startHere, g);
    assert base + (hi - lo - startHere) == hi && base + (start' - startHere) == lo + start';
    start := lo + start';
  }

  method WriteRun(ctx: Ctx, chip: Chip, cur: array<byte>, new': array<byte>, lo: nat, hi: nat, start: nat, len: nat,
                  ghost m0: Image, ghost c0: Image, ghost l0: seq<Op>, ghost want: Image, ghost base: nat, ghost f: nat)
    returns (ok: bool)
    requires WriteReady(ctx, lo, hi) && Attached(ctx, chip) && cur.Length == new'.Length == ctx.size && cur != new'
    requires |want| == ctx.size && lo <= base <= f && FirstRun(ctx.gran, cur[..], want, base, hi, start, start + len)
    requires Progress(ctx, m0, chip.mem, c0, cur[..], l0, chip.log, want, lo, f, hi)
    requires new'[..] == want
    modifies chip, cur
    ensures Attached(ctx, chip) && chip.readFaults == old(chip.readFaults) && new'[..] == want
    ensures (ok <==> chip.faults == old(chip.faults)) && chip.faults >= old(chip.faults)
    ensures !ok ==> Confined(ctx, m0, chip.mem, c0, cur[..], l0, chip.log, lo, hi)
    ensures ok ==> f < start + len && |chip.log| > |l0|
    ensures ok ==> Progress(ctx, m0, chip.mem, c0, cur[..], l0, chip.log, want, lo, start + len, hi)
  {
    ghost var m1, c1, l1, end := chip.mem, cur[..], chip.log, start + len;
    FrontierOrder(ctx, m0, m1, c0, c1, l0, l1, want, lo, base, f, hi, start, end);
    RunWritable(ctx, lo, hi, start, end);
    ok := ProgramRun(ctx, chip, cur, new', want, start, len);
    if ok {
      Round(ctx, m0, m1, chip.mem, c0, c1, cur[..], l0, l1, chip.log, want, lo, base, f, hi,
            Program(start, end, AllLegal(ctx.gran, ctx.ev, m1, want, start, end)), start + len);
    } else {
      Interrupted(ctx, m0, m1, chip.mem, c0, c1, l0, l1, chip.log, lo, f, start, end, hi);
    }
  }

  /** The device part of a round. */
  method ProgramRun(ctx: Ctx, chip: Chip, cur: array<byte>, new': array<byte>, ghost want: Image,
                    start: nat, len: nat) returns (ok: bool)
    requires ctx.Honest() && Attached(ctx, chip) && cur.Length == new'.Length == ctx.size && cur != new'
    requires new'[..] == want && len > 0 && start + len <= ctx.size
    requires OnGrid(start, Stride(ctx.gran)) && OnGrid(start + len, Stride(ctx.gran))
    requires OneRegion(ctx, start, start + len) && AllWritable(ctx, start, start + len)
    modifies chip, cur
    ensures Attached(ctx, chip) && chip.readFaults == old(chip.readFaults) && new'[..] == want
    ensures OnlyWithin(old(chip.mem), chip.mem, start, start + len)
    ensures old(chip.log) <= chip.log && ProgramsOnly(ctx, chip.log, |old(chip.log)|, start, start + len)
    ensures (ok <==> chip.faults == old(chip.faults)) && chip.faults >= old(chip.faults)
    ensures !ok ==> cur[..] == old(cur[..])
    ensures ok ==> Programmed(ctx.gran, ctx.ev, old(chip.mem), chip.mem, want, start, start + len)
    ensures ok ==> OnlyWithin(old(cur[..]), cur[..], start, start + len) && Same(cur[..], want, start, start + len)
    ensures ok ==> chip.log == old(chip.log)
                     + [Program(start, start + len,
                                AllLegal(ctx.gran, ctx.ev, old(chip.mem), want, start, start + len))]
  {
    assert ctx.Writable(start);
    var ret := WriteFlash(ctx, chip, new'[..], start, len);
    if ret != 0 {
      return false;
    }
    WrittenIsProgrammed(ctx, old(chip.mem), chip.mem, want, start, start + len);
    forall a | start <= a < start + len {
      cur[a] := new'[a];
    }
    ok := true;
  }

  lemma Interrupted(ctx: Ctx, m0: Image, m1: Image, m2: Image, c0: Image, c1: Image,
                    l0: seq<Op>, l1: seq<Op>, l2: seq<Op>, lo: nat, f: nat, start: nat, end: nat, hi: nat)
    requires lo <= f <= start <= end <= hi && Confined(ctx, m0, m1, c0, c1, l0, l1, lo, f)
    requires OnlyWithin(m1, m2, start, end) && l1 <= l2 && ProgramsOnly(ctx, l2, |l1|, start, end)
    ensures Confined(ctx, m0, m2, c0, c1, l0, l2, lo, hi)
  {
    ProgramsJoin(ctx, l0, l1, l2, lo, f, start, end, hi);
  }

  lemma FrontierOrder(ctx: Ctx, m0: Image, m1: Image, c0: Image, c1: Image, l0: seq<Op>, l1: seq<Op>, want: Image,
                      lo: nat, base: nat, f: nat, hi: nat, start: nat, end: nat)
    requires Progress(ctx, m0, m1, c0, c1, l0, l1, want, lo, f, hi)
    requires lo <= base <= f && FirstRun(ctx.gran, c1, want, base, hi, start, end)
    ensures f <= start && OnGrid(start, Stride(ctx.gran)) && OnGrid(end, Stride(ctx.gran))
    ensures Confined(ctx, m0, m1, c0, c1, l0, l1, lo, f)
  {
    var runs :| ProgressWith(ctx, m0, m1, c0, c1, l0, l1, want, lo, f, hi, runs);
    RunAfterFrontier(ctx.gran, c0, c1, want, lo, base, f, hi, start, end);
    ProgramsShift(ctx, l0, runs, lo, f);
  }

  lemma ProgramsShift(ctx: Ctx, l0: seq<Op>, runs: seq<Op>, lo: nat, hi: nat)
    requires ProgramsOnly(ctx, runs, 0, lo, hi)
    ensures ProgramsOnly(ctx, l0 + runs, |l0|, lo, hi)
  {
    forall i | |l0| <= i < |l0 + runs|
      ensures var op := (l0 + runs)[i];
              op.Program? && lo <= op.start && op.end <= hi && AllWritable(ctx, op.start, op.end)
    {
      assert (l0 + runs)[i] == runs[i - |l0|];
    }
  }

  lemma RunWritable(ctx: Ctx, lo: nat, hi: nat, start: nat, end: nat)
    requires OneRegion(ctx, lo, hi) && ctx.Writable(lo) && lo <= start < end <= hi
    ensures OneRegion(ctx, start, end) && AllWritable(ctx, start, end)
  {
    forall a: nat | start <= a < end ensures ctx.regionAt(a) == ctx.regionAt(start) && ctx.Writable(a) {
      assert ctx.regionAt(a) == ctx.regionAt(lo) && ctx.regionAt(start) == ctx.regionAt(lo);
    }
  }

  lemma WrittenIsProgrammed(ctx: Ctx, m1: Image, m2: Image, img: Image, start: nat, end: nat)
    requires Written(ctx, m1, m2, img, start, end) && AllWritable(ctx, start, end)
    ensures Programmed(ctx.gran, ctx.ev, m1, m2, img, start, end)
  {
    forall a: nat | start <= a < end ensures ProgrammedByte(ctx.gran, ctx.ev, m1, m2, img, a) {
      assert WrittenByte(ctx, m1, m2, img, a) && ctx.Writable(a);
    }
  }

  lemma ProgramsJoin(ctx: Ctx, l0: seq<Op>, l1: seq<Op>, l2: seq<Op>, lo: nat, f: nat, start: nat, end: nat, hi: nat)
    requires l0 <= l1 <= l2 && lo <= f <= start <= end <= hi
    requires ProgramsOnly(ctx, l1, |l0|, lo, f) && ProgramsOnly(ctx, l2, |l1|, start, end)
    ensures ProgramsOnly(ctx, l2, |l0|, lo, hi)
  {
    forall i | |l0| <= i < |l2|
      ensures l2[i].Program? && lo <= l2[i].start && l2[i].end <= hi && AllWritable(ctx, l2[i].start, l2[i].end)
    {
      if i < |l1| {
        assert l2[i] == l1[i];
      }
    }
  }
}
