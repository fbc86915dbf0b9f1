/** Writing, erasing, reading and verifying by layout (flashrom.c: read_by_layout,
    erase_by_layout, write_by_layout, verify_by_layout, flashrom_image_write). */
module ImageWrite {
  import opened Granularity
  import opened Helpers
  import opened EraseBlocks
  import opened Planner
  import opened Flash
  import opened RegionWalk
  import opened EraseHelper
  import opened EraseWrite
  import opened EraseWriteTheorems
  import opened Layout
  import opened LayoutSteps
  import opened LayoutTheorems

  /** The contents a layout write aims at: included writable bytes are new, all others old. */
  ghost predicate Overlaid(ctx: Ctx, l: seq<Entry>, m0: Image, m1: Image, want: Image) {
    && |m1| == |m0| == |want|
    && forall a: nat | a < |m0| :: m1[a] == if InUnion(l, a) && ctx.Writable(a) then want[a] else m0[a]
  }

  /** No write-protected byte was changed or touched by a command. */
  ghost predicate ProtectionKept(ctx: Ctx, m0: Image, m1: Image, l0: seq<Op>, l1: seq<Op>) {
    && |m1| == |m0| && l0 <= l1
    && (forall a: nat | a < |m0| && !ctx.Writable(a) :: m1[a] == m0[a])
    && (forall i | |l0| <= i < |l1| :: AllWritable(ctx, l1[i].start, l1[i].end))
  }

  lemma ProtectionJoin(ctx: Ctx, m0: Image, m1: Image, m2: Image, c1: Image, c2: Image,
                       l0: seq<Op>, l1: seq<Op>, l2: seq<Op>, rs: nat, re: nat)
    requires ProtectionKept(ctx, m0, m1, l0, l1) && Safe(ctx, m1, m2, c1, c2, l1, l2, rs, re)
    ensures ProtectionKept(ctx, m0, m2, l0, l2)
  {
    forall i | |l0| <= i < |l2| ensures AllWritable(ctx, l2[i].start, l2[i].end) {
      if i < |l1| {
        assert l2[i] == l1[i];
      }
    }
  }

  /** At one-bit granularity: the exact result of any successful run.  Cut bytes have bits
      cleared, but never set. */
  ghost predicate OneBitOverlaid(ctx: Ctx, lv: Level, l: seq<Entry>, m0: Image, m1: Image, want: Image) {
    && |m1| == |m0| == |want|
    && forall a: nat | a < |m0| ::
         m1[a] == if InUnion(l, a) && ctx.Writable(a) then OneBitGoal(ctx, lv, m0, want, a) else m0[a]
  }

  // ----- The included regions ----------------------------------------------------------

  /** The padding of the included regions can be read. */
  ghost predicate PaddingReadable(ctx: Ctx, levels: seq<Level>, l: seq<Entry>)
    requires ValidLayout(levels, ctx.size) && Sane(l, ctx.size)
  {
    forall n: nat | n < |l| && l[n].included :: EntryReadable(ctx, levels, l[n])
  }

  ghost predicate EntryReadable(ctx: Ctx, levels: seq<Level>, e: Entry)
    requires ValidLayout(levels, ctx.size) && e.start <= e.end < ctx.size
  {
    && AllReadable(ctx, AlignedStart(levels, ctx.size, e.start), e.start)
    && AllReadable(ctx, e.end + 1, AlignedEnd(levels, ctx.size, e.end) + 1)
  }

  ghost predicate AnyIncluded(l: seq<Entry>) {
    exists n: nat :: n < |l| && l[n].included
  }

  /** erase_write refuses one of the included regions. */
  ghost predicate AnyRefused(ctx: Ctx, levels: seq<Level>, l: seq<Entry>)
    requires ValidLayout(levels, ctx.size) && Sane(l, ctx.size)
  {
    exists n: nat :: n < |l| && l[n].included && Refused(ctx, levels, l[n].start, l[n].end)
  }

  /** Every included writable byte is already as wanted. */
  ghost predicate AsWanted(ctx: Ctx, l: seq<Entry>, m0: Image, want: Image) {
    |m0| == |want| && forall a: nat | a < |m0| && InUnion(l, a) && ctx.Writable(a) :: m0[a] == want[a]
  }

  /** No command is issued exactly if there is nothing to do; then the chip is as it was.  A
      ratio of 100 or more may sacrifice blocks even so. */
  ghost predicate QuietRun(ctx: Ctx, l: seq<Entry>, m0: Image, m1: Image, want: Image, l0: seq<Op>, l1: seq<Op>) {
    && (l1 == l0 ==> AsWanted(ctx, l, m0, want) && m1 == m0)
    && (ctx.ratio < 100 && AsWanted(ctx, l, m0, want) ==> l1 == l0)
  }

  /** What a successful run achieves under a plausible image: it is lawful exactly if the
      intended run is, and then every byte is right. */
  ghost predicate EntriesDone(ctx: Ctx, levels: seq<Level>, l: seq<Entry>, m0: Image, m1: Image, c0: Image, want: Image,
                              l0: seq<Op>, l1: seq<Op>)
    requires Fits(ctx, levels, l, m0, c0, want)
  {
    && (Lawful(l1, |l0|) <==> StepsLegal(ctx, levels, l, |l|, m0, c0, want))
    && (StepsLegal(ctx, levels, l, |l|, m0, c0, want) ==> Overlaid(ctx, l, m0, m1, want))
    && (ctx.gran.Gran1Bit? ==> OneBitOverlaid(ctx, levels[0], l, m0, m1, want))
    && (UnionExact(l, m0, c0) ==> QuietRun(ctx, l, m0, m1, want, l0, l1))
  }

  /** The state of the walk after `n` entries. */
  ghost predicate Tracks(ctx: Ctx, levels: seq<Level>, l: seq<Entry>, n: nat, m0: Image, m1: Image, c0: Image,
                         c1: Image, want: Image,
                         l0: seq<Op>, l1: seq<Op>)
    requires n <= |l| && Fits(ctx, levels, l, m0, c0, want)
  {
    && Walk(ctx, levels, l, n, m0, m1, c0, c1, want, l0, l1)
    && (ctx.gran.Gran1Bit? ==> OneBitWalk(ctx, levels[0], l, n, m0, m1, c1, want))
    && (UnionExact(l, m0, c0) ==> QuietWalk(ctx, l, n, m0, m1, c1, want, l0, l1))
  }

  /** The same as one opaque fact. */
  ghost predicate OnTrack(ctx: Ctx, levels: seq<Level>, l: seq<Entry>, n: nat, m0: Image, m1: Image, c0: Image,
                          c1: Image, want: Image,
                          l0: seq<Op>, l1: seq<Op>)
    requires n <= |l| && Fits(ctx, levels, l, m0, c0, want)
  {
    exists c :: c == c1 && Tracks(ctx, levels, l, n, m0, m1, c0, c, want, l0, l1)
  }

  lemma TracksFrom(ctx: Ctx, levels: seq<Level>, l: seq<Entry>, i: nat, m0: Image, c0: Image, want: Image, l0: seq<Op>)
    requires i <= |l| && Fits(ctx, levels, l, m0, c0, want) && UnionPlausible(ctx, l, m0, c0, want)
    requires forall j | 0 <= j < i :: !l[j].included
    ensures OnTrack(ctx, levels, l, i, m0, m0, c0, c0, want, l0, l0)
  {
    WalkStarts(ctx, levels, l, m0, c0, want, l0);
    WalkSkips(ctx, levels, l, 0, i, m0, m0, c0, c0, want, l0, l0);
    if ctx.gran.Gran1Bit? {
      OneBitStarts(ctx, levels[0], l, m0, c0, want);
      OneBitSkips(ctx, levels[0], l, 0, i, m0, m0, c0, want);
    }
    if UnionExact(l, m0, c0) {
      QuietStarts(ctx, l, m0, c0, want, l0);
      QuietSkips(ctx, l, 0, i, m0, m0, c0, want, l0, l0);
    }
    assert Tracks(ctx, levels, l, i, m0, m0, c0, c0, want, l0, l0);
  }

  /** One more entry written, and those after it that are not included passed over. */
  lemma TracksOn(ctx: Ctx, levels: seq<Level>, l: seq<Entry>, n: nat, i: nat, m0: Image, m1: Image, m2: Image,
                 c0: Image, c1: Image, c2: Image, want: Image, l0: seq<Op>, l1: seq<Op>, l2: seq<Op>)
    requires n < i <= |l| && l[n].included && Fits(ctx, levels, l, m0, c0, want) && UnionPlausible(ctx, l, m0, c0, want)
    requires OnTrack(ctx, levels, l, n, m0, m1, c0, c1, want, l0, l1) && forall j | n + 1 <= j < i :: !l[j].included
    requires RegionOk(ctx, levels, m1, m2, c1, c2, want, l1, l2, l[n].start, l[n].end)
    ensures OnTrack(ctx, levels, l, i, m0, m2, c0, c2, want, l0, l2)
  {
    WalkStepsOn(ctx, levels, l, n, m0, m1, m2, c0, c1, c2, want, l0, l1, l2);
    WalkSkips(ctx, levels, l, n + 1, i, m0, m2, c0, c2, want, l0, l2);
    if ctx.gran.Gran1Bit? {
      OneBitStepsOn(ctx, levels, l, n, m0, m1, m2, c1, c2, want, l1, l2);
      OneBitSkips(ctx, levels[0], l, n + 1, i, m0, m2, c2, want);
    }
    if UnionExact(l, m0, c0) {
      QuietStepsOn(ctx, levels, l, n, m0, m1, m2, c1, c2, want, l0, l1, l2);
      QuietSkips(ctx, l, n + 1, i, m0, m2, c2, want, l0, l2);
    }
    assert Tracks(ctx, levels, l, i, m0, m2, c0, c2, want, l0, l2);
  }

  lemma TracksDone(ctx: Ctx, levels: seq<Level>, l: seq<Entry>, m0: Image, m1: Image, c0: Image, c1: Image, want: Image,
                   l0: seq<Op>, l1: seq<Op>)
    requires Fits(ctx, levels, l, m0, c0, want) && OnTrack(ctx, levels, l, |l|, m0, m1, c0, c1, want, l0, l1)
    ensures EntriesDone(ctx, levels, l, m0, m1, c0, want, l0, l1)
  {
    assert l[..|l|] == l;
    if ctx.gran.Gran1Bit? {
      forall a: nat | a < |m0|
        ensures m1[a] == if InUnion(l, a) && ctx.Writable(a) then OneBitGoal(ctx, levels[0], m0, want, a) else m0[a]
      {
        assert OneBitAt(ctx, levels[0], l, |l|, m0, m1, c1, want, a);
      }
    }
  }

  // ----- write_by_layout and erase_by_layout -------------------------------------------

  /** The loop that write_by_layout and erase_by_layout share; `ret0` is the result if no
      entry is included. */
  method WriteEntries(ctx: Ctx, chip: Chip, layout: EraseLayout, l: seq<Entry>, cur: array<byte>, new': array<byte>,
                      ret0: int, skipped: bool) returns (ret: int, skipped': bool)
    requires Setup(ctx, chip, layout, cur, new') && Sane(l, ctx.size)
    modifies chip, layout`selected, cur, new'
    ensures if AnyIncluded(l) then ret == 0 || ret == -1 else ret == ret0
    ensures Attached(ctx, chip) && new'[..] == old(new'[..])
    ensures ProtectionKept(ctx, old(chip.mem), chip.mem, old(chip.log), chip.log)
    ensures chip.readFaults >= old(chip.readFaults) && chip.faults >= old(chip.faults)
    ensures ret == 0 ==> chip.faults == old(chip.faults) && (skipped' <==> skipped && chip.log == old(chip.log))
    ensures ret == 0 && ret0 != 0 ==> AnyIncluded(l)
    ensures AnyRefused(ctx, layout.levels, l) ==> ret != 0
    ensures ret != 0 ==> || chip.Failures() > old(chip.Failures()) || AnyRefused(ctx, layout.levels, l)
                         || (ret == ret0 && !AnyIncluded(l))
    ensures ret != 0 && !ctx.verifyAfterWrite ==>
              chip.faults > old(chip.faults) || AnyRefused(ctx, layout.levels, l) || (ret == ret0 && !AnyIncluded(l))
    ensures ret == 0 && chip.readFaults == old(chip.readFaults) && PaddingReadable(ctx, layout.levels, l)
            && UnionPlausible(ctx, l, old(chip.mem), old(cur[..]), new'[..]) ==>
              EntriesDone(ctx, layout.levels, l, old(chip.mem), chip.mem, old(cur[..]), new'[..], old(chip.log),
                          chip.log)
  {
    ghost var m0, c0, l0, want := chip.mem, cur[..], chip.log, new'[..];
    ghost var fit := PaddingReadable(ctx, layout.levels, l) && UnionPlausible(ctx, l, m0, c0, want);
    ret, skipped' := EntriesLoop(ctx, chip, layout, l, cur, new', ret0, skipped, fit);
    if ret == 0 && fit && chip.readFaults == old(chip.readFaults) {
      TracksDone(ctx, layout.levels, l, m0, chip.mem, c0, cur[..], want, l0, chip.log);
    }
  }

  method EntriesLoop(ctx: Ctx, chip: Chip, layout: EraseLayout, l: seq<Entry>, cur: array<byte>, new': array<byte>,
                     ret0: int, skipped: bool, ghost fit: bool) returns (ret: int, skipped': bool)
    requires Setup(ctx, chip, layout, cur, new') && Sane(l, ctx.size)
    requires fit ==> PaddingReadable(ctx, layout.levels, l) && UnionPlausible(ctx, l, chip.mem, cur[..], new'[..])
    modifies chip, layout`selected, cur, new'
    ensures if AnyIncluded(l) then ret == 0 || ret == -1 else ret == ret0
    ensures Attached(ctx, chip) && new'[..] == old(new'[..])
    ensures ProtectionKept(ctx, old(chip.mem), chip.mem, old(chip.log), chip.log)
    ensures chip.readFaults >= old(chip.readFaults) && chip.faults >= old(chip.faults)
    ensures ret == 0 ==> chip.faults == old(chip.faults) && (skipped' <==> skipped && chip.log == old(chip.log))
    ensures ret == 0 && ret0 != 0 ==> AnyIncluded(l)
    ensures AnyRefused(ctx, layout.levels, l) ==> ret != 0
    ensures ret != 0 ==> || chip.Failures() > old(chip.Failures()) || AnyRefused(ctx, layout.levels, l)
                         || (ret == ret0 && !AnyIncluded(l))
    ensures ret != 0 && !ctx.verifyAfterWrite ==>
              chip.faults > old(chip.faults) || AnyRefused(ctx, layout.levels, l) || (ret == ret0 && !AnyIncluded(l))
    ensures ret == 0 && fit && chip.readFaults == old(chip.readFaults) ==>
              OnTrack(ctx, layout.levels, l, |l|, old(chip.mem), chip.mem, old(cur[..]), cur[..], new'[..],
                      old(chip.log), chip.log)
  {
    ghost var m0, c0, l0, want, f0 := chip.mem, cur[..], chip.log, new'[..], chip.readFaults;
    ret, skipped' := ret0, skipped;
    var i := LayoutNextIncluded(l, 0);
    NoneRefusedSkips(ctx, layout.levels, l, 0, i);
    ghost var started := false;
    if fit {
      TracksFrom(ctx, layout.levels, l, i, m0, c0, want, l0);
    }
    while i < |l|
      invariant 0 <= i <= |l| && (i < |l| ==> l[i].included)
      invariant Setup(ctx, chip, layout, cur, new') && new'[..] == want
      invariant ProtectionKept(ctx, m0, chip.mem, l0, chip.log)
      invariant chip.readFaults >= f0 && chip.faults == old(chip.faults) && (skipped' <==> skipped && chip.log == l0)
      invariant if started then ret == 0 && AnyIncluded(l) else ret == ret0 && forall j | 0 <= j < i :: !l[j].included
      invariant NoneRefusedBefore(ctx, layout.levels, l, i)
      invariant fit && chip.readFaults == f0 ==>
                  OnTrack(ctx, layout.levels, l, i, m0, chip.mem, c0, cur[..], want, l0, chip.log)
      decreases |l| - i
    {
      ghost var l1 := chip.log;
      ret, skipped', i := EntryTurn(ctx, chip, layout, l, i, cur, new', skipped', m0, c0, want, l0, f0, fit);
      if ret != 0 {
        return;
      }
      LogGrew(l0, l1, chip.log);
      started := true;
    }
    NoneRefused(ctx, layout.levels, l);
  }

  /** One turn of the loop: writes entry `i` and finds the next one. */
  method EntryTurn(ctx: Ctx, chip: Chip, layout: EraseLayout, l: seq<Entry>, i: nat, cur: array<byte>,
                   new': array<byte>, skipped: bool,
                   ghost m0: Image, ghost c0: Image, ghost want: Image, ghost l0: seq<Op>, ghost f0: nat,
                     ghost fit: bool)
    returns (ret: int, skipped': bool, next: nat)
    requires Setup(ctx, chip, layout, cur, new') && new'[..] == want && Sane(l, ctx.size)
    requires i < |l| && l[i].included && ProtectionKept(ctx, m0, chip.mem, l0, chip.log)
    requires chip.readFaults >= f0 && NoneRefusedBefore(ctx, layout.levels, l, i)
    requires Fits(ctx, layout.levels, l, m0, c0, want)
    requires fit ==> PaddingReadable(ctx, layout.levels, l) && UnionPlausible(ctx, l, m0, c0, want)
    requires fit && chip.readFaults == f0 ==>
               OnTrack(ctx, layout.levels, l, i, m0, chip.mem, c0, cur[..], want, l0, chip.log)
    modifies chip, layout`selected, cur, new'
    ensures ret == 0 || ret == -1
    ensures Attached(ctx, chip) && layout.Valid() && new'[..] == want && ProtectionKept(ctx, m0, chip.mem, l0, chip.log)
    ensures chip.readFaults >= old(chip.readFaults) && chip.faults >= old(chip.faults)
    ensures ret == 0 ==> layout.Flags() == {} && chip.faults == old(chip.faults)
    ensures ret != 0 ==> chip.Failures() > old(chip.Failures()) || AnyRefused(ctx, layout.levels, l)
    ensures ret != 0 && !ctx.verifyAfterWrite ==> chip.faults > old(chip.faults) || AnyRefused(ctx, layout.levels, l)
    ensures ret == 0 ==> (skipped' <==> skipped && chip.log == old(chip.log)) && old(chip.log) <= chip.log
    ensures ret == 0 ==> i < next <= |l| && (next < |l| ==> l[next].included)
    ensures ret == 0 ==> NoneRefusedBefore(ctx, layout.levels, l, next)
    ensures ret == 0 ==> forall j | i < j < next :: !l[j].included
    ensures ret == 0 && fit && chip.readFaults == f0 ==>
              OnTrack(ctx, layout.levels, l, next, m0, chip.mem, c0, cur[..], want, l0, chip.log)
  {
    ghost var m1, c1, l1 := chip.mem, cur[..], chip.log;
    next := i;
    ret, skipped' := WriteEntry(ctx, chip, layout, l, i, cur, new', skipped, m0, want, l0);
    if ret != 0 {
      return;
    }
    next := LayoutNextIncluded(l, i + 1);
    NoneRefusedSkips(ctx, layout.levels, l, i + 1, next);
    if fit && chip.readFaults == f0 {
      TracksOn(ctx, layout.levels, l, i, next, m0, m1, chip.mem, c0, c1, cur[..], want, l0, l1, chip.log);
    }
  }

  ghost predicate NoneRefusedBefore(ctx: Ctx, levels: seq<Level>, l: seq<Entry>, i: nat)
    requires ValidLayout(levels, ctx.size) && Sane(l, ctx.size) && i <= |l|
  {
    i == 0
    || (NoneRefusedBefore(ctx, levels, l, i - 1)
        && (l[i - 1].included ==> !Refused(ctx, levels, l[i - 1].start, l[i - 1].end)))
  }

  lemma {:induction false} NoneRefusedSkips(ctx: Ctx, levels: seq<Level>, l: seq<Entry>, n: nat, i: nat)
    requires ValidLayout(levels, ctx.size) && Sane(l, ctx.size) && n <= i <= |l| && NoneRefusedBefore(ctx, levels, l, n)
    requires forall j | n <= j < i :: !l[j].included
    ensures NoneRefusedBefore(ctx, levels, l, i)
    decreases i
  {
    if n < i {
      NoneRefusedSkips(ctx, levels, l, n, i - 1);
    }
  }

  lemma NoneRefused(ctx: Ctx, levels: seq<Level>, l: seq<Entry>)
    requires ValidLayout(levels, ctx.size) && Sane(l, ctx.size) && NoneRefusedBefore(ctx, levels, l, |l|)
    ensures !AnyRefused(ctx, levels, l)
  {
    forall n: nat | n < |l| && l[n].included ensures !Refused(ctx, levels, l[n].start, l[n].end) {
      NoneRefusedMeans(ctx, levels, l, |l|, n);
    }
  }

  lemma {:induction false} NoneRefusedMeans(ctx: Ctx, levels: seq<Level>, l: seq<Entry>, i: nat, n: nat)
    requires ValidLayout(levels, ctx.size) && Sane(l, ctx.size) && n < i <= |l| && l[n].included
    requires NoneRefusedBefore(ctx, levels, l, i)
    ensures !Refused(ctx, levels, l[n].start, l[n].end)
    decreases i
  {
    if n < i - 1 {
      NoneRefusedMeans(ctx, levels, l, i - 1, n);
    }
  }

  method WriteEntry(ctx: Ctx, chip: Chip, layout: EraseLayout, l: seq<Entry>, i: nat, cur: array<byte>,
                    new': array<byte>, skipped: bool, ghost m0: Image, ghost want: Image, ghost l0: seq<Op>)
    returns (ret: int, skipped': bool)
    requires Setup(ctx, chip, layout, cur, new') && new'[..] == want
    requires i < |l| && l[i].included && l[i].start <= l[i].end < ctx.size
    requires ProtectionKept(ctx, m0, chip.mem, l0, chip.log)
    modifies chip, layout`selected, cur, new'
    ensures ret == 0 || ret == -1
    ensures Attached(ctx, chip) && layout.Valid() && new'[..] == want
    ensures ProtectionKept(ctx, m0, chip.mem, l0, chip.log)
    ensures chip.readFaults >= old(chip.readFaults) && chip.faults >= old(chip.faults)
    ensures ret == 0 ==> layout.Flags() == {} && chip.faults == old(chip.faults)
    ensures ret != 0 && chip.Failures() == old(chip.Failures()) <==> Refused(ctx, layout.levels, l[i].start, l[i].end)
    ensures ret != 0 && !ctx.verifyAfterWrite ==>
              chip.faults > old(chip.faults) || Refused(ctx, layout.levels, l[i].start, l[i].end)
    ensures ret == 0 ==> (skipped' <==> skipped && chip.log == old(chip.log)) && old(chip.log) <= chip.log
    ensures ret == 0 && chip.readFaults == old(chip.readFaults) && EntryReadable(ctx, layout.levels, l[i]) ==>
              RegionOk(ctx, layout.levels, old(chip.mem), chip.mem, old(cur[..]), cur[..], want, old(chip.log),
                       chip.log, l[i].start, l[i].end)
  {
    ghost var m1, c1, l1, f1 := chip.mem, cur[..], chip.log, chip.readFaults;
    ghost var rs := AlignedStart(layout.levels, ctx.size, l[i].start);
    ghost var re := AlignedEnd(layout.levels, ctx.size, l[i].end);
    ret, skipped' := WriteRegion(ctx, chip, layout, cur, new', l[i].start, l[i].end, skipped);
    ProtectionJoin(ctx, m0, m1, chip.mem, c1, cur[..], l0, l1, chip.log, rs, re);
  }

  /** What the callers guarantee about chip, context and eraser table. */
  ghost predicate Prepared(ctx: Ctx, chip: Chip, levels: seq<Level>)
    reads chip
  {
    && ctx.Honest() && 0 < ctx.size <= UINT_MAX && Attached(ctx, chip) && ValidLayout(levels, ctx.size)
    && BlocksOnGrid(levels[0], ctx.gran) && ErasedOk(ctx.gran, ctx.ev)
  }

  /** For any included regions in any order: writes the included part of `new'` and keeps
      all the rest, lawfully, exactly if no entry needs an erase in a cut block.  Fails only
      if the device fails, a region is refused, or nothing is included. */
  method WriteByLayout(ctx: Ctx, chip: Chip, levels: seq<Level>, l: seq<Entry>, cur: array<byte>, new': array<byte>,
                       skipped: bool)
    returns (ret: int, skipped': bool)
    requires Prepared(ctx, chip, levels) && Sane(l, ctx.size) && cur.Length == new'.Length == ctx.size && cur != new'
    modifies chip, cur, new'
    ensures if AnyIncluded(l) then ret == 0 || ret == -1 else ret == 1
    ensures Attached(ctx, chip) && new'[..] == old(new'[..])
    ensures ProtectionKept(ctx, old(chip.mem), chip.mem, old(chip.log), chip.log)
    ensures chip.readFaults >= old(chip.readFaults) && chip.faults >= old(chip.faults)
    ensures ret == 0 ==> chip.faults == old(chip.faults) && (skipped' <==> skipped && chip.log == old(chip.log))
    ensures !AnyIncluded(l) || AnyRefused(ctx, levels, l) ==> ret != 0
    ensures ret != 0 ==> chip.Failures() > old(chip.Failures()) || AnyRefused(ctx, levels, l) || !AnyIncluded(l)
    ensures ret != 0 && !ctx.verifyAfterWrite ==>
              chip.faults > old(chip.faults) || AnyRefused(ctx, levels, l) || !AnyIncluded(l)
    ensures ret == 0 && chip.readFaults == old(chip.readFaults) && PaddingReadable(ctx, levels, l)
            && UnionPlausible(ctx, l, old(chip.mem), old(cur[..]), new'[..]) ==>
              EntriesDone(ctx, levels, l, old(chip.mem), chip.mem, old(cur[..]), new'[..], old(chip.log), chip.log)
    ensures ret == 0 && chip.readFaults == old(chip.readFaults) && PaddingReadable(ctx, levels, l)
            && UnionExact(l, old(chip.mem), old(cur[..])) ==>
              WriteResult(ctx, levels, l, old(chip.mem), chip.mem, new'[..], old(chip.log), chip.log)
  {
    ghost var m0, c0, l0 := chip.mem, cur[..], chip.log;
    var layout := new EraseLayout(levels, ctx.size);
    ret, skipped' := WriteEntries(ctx, chip, layout, l, cur, new', 1, skipped);
    ExactResult(ctx, levels, l, m0, chip.mem, c0, new'[..], l0, chip.log);
  }

  /** A lawful and right result exactly if the layout is clean; at one-bit granularity the
      contents are known in any case. */
  ghost predicate WriteResult(ctx: Ctx, levels: seq<Level>, l: seq<Entry>, m0: Image, m1: Image, want: Image,
                              l0: seq<Op>, l1: seq<Op>)
    requires Fits(ctx, levels, l, m0, m0, want)
  {
    && (Lawful(l1, |l0|) <==> Clean(ctx, levels, l, m0, want))
    && (Clean(ctx, levels, l, m0, want) ==> Overlaid(ctx, l, m0, m1, want))
    && (ctx.gran.Gran1Bit? ==> OneBitOverlaid(ctx, levels[0], l, m0, m1, want))
    && QuietRun(ctx, l, m0, m1, want, l0, l1)
  }

  lemma ExactResult(ctx: Ctx, levels: seq<Level>, l: seq<Entry>, m0: Image, m1: Image, c0: Image, want: Image,
                    l0: seq<Op>, l1: seq<Op>)
    requires Fits(ctx, levels, l, m0, c0, want) && ctx.Honest() && BlocksOnGrid(levels[0], ctx.gran)
    ensures UnionExact(l, m0, c0) ==> UnionPlausible(ctx, l, m0, c0, want)
    ensures UnionExact(l, m0, c0) && EntriesDone(ctx, levels, l, m0, m1, c0, want, l0, l1) ==>
              WriteResult(ctx, levels, l, m0, m1, want, l0, l1)
  {
    if UnionExact(l, m0, c0) {
      ExactSteps(ctx, levels, l, m0, c0, want);
    }
  }

  /** Where a cut byte would need more bits set, the contents are not what they should be. */
  lemma OneBitRight(ctx: Ctx, lv: Level, l: seq<Entry>, m0: Image, m1: Image, want: Image)
    requires OneBitOverlaid(ctx, lv, l, m0, m1, want)
    ensures Overlaid(ctx, l, m0, m1, want) <==>
              forall a: nat | a < |m0| && InUnion(l, a) && ctx.Writable(a) && !Uncut(ctx, lv, a) ::
                  m0[a] & want[a] == want[a]
  {
    if Overlaid(ctx, l, m0, m1, want) {
      forall a: nat | a < |m0| && InUnion(l, a) && ctx.Writable(a) && !Uncut(ctx, lv, a)
        ensures m0[a] & want[a] == want[a]
      {
        assert m1[a] == want[a];
      }
    }
  }

  /** What erasing by layout achieves: `EraseClean` is the exact condition for lawful commands,
      and then the included writable bytes are erased and all others kept.  At one-bit
      granularity exactly the uncut ones are erased, in any case. */
  ghost predicate EraseResult(ctx: Ctx, levels: seq<Level>, l: seq<Entry>, m0: Image, m1: Image, l0: seq<Op>,
                              l1: seq<Op>)
    requires ValidLayout(levels, ctx.size) && Sane(l, ctx.size) && |m0| == |m1| == ctx.size
  {
    && (Lawful(l1, |l0|) <==> EraseClean(ctx, levels, l, m0))
    && (EraseClean(ctx, levels, l, m0) ==>
          forall a: nat | a < ctx.size :: m1[a] == if InUnion(l, a) && ctx.Writable(a) then ctx.ev else m0[a])
    && (ctx.gran.Gran1Bit? ==>
          forall a: nat | a < ctx.size ::
            m1[a] == if InUnion(l, a) && ctx.Writable(a) && Uncut(ctx, levels[0], a) then ctx.ev else m0[a])
  }

  /** Starts from an image that claims every byte to be unerased, whatever the chip holds. */
  method EraseByLayout(ctx: Ctx, chip: Chip, levels: seq<Level>, l: seq<Entry>) returns (ret: int)
    requires Prepared(ctx, chip, levels) && Sane(l, ctx.size)
    modifies chip
    ensures ret == 0 || ret == 1
    ensures Attached(ctx, chip)
    ensures ProtectionKept(ctx, old(chip.mem), chip.mem, old(chip.log), chip.log)
    ensures chip.readFaults >= old(chip.readFaults) && chip.faults >= old(chip.faults)
    ensures AnyRefused(ctx, levels, l) ==> ret != 0
    ensures ret == 0 ==> chip.faults == old(chip.faults)
    ensures ret != 0 ==> chip.Failures() > old(chip.Failures()) || AnyRefused(ctx, levels, l)
    ensures ret != 0 && !ctx.verifyAfterWrite ==> chip.faults > old(chip.faults) || AnyRefused(ctx, levels, l)
    ensures ret == 0 && chip.readFaults == old(chip.readFaults) && PaddingReadable(ctx, levels, l) ==>
              EraseResult(ctx, levels, l, old(chip.mem), chip.mem, old(chip.log), chip.log)
  {
    var curcontents := new byte[ctx.size](_ => !ctx.ev);
    var newcontents := new byte[ctx.size](_ => ctx.ev);
    var layout := new EraseLayout(levels, ctx.size);
    ghost var m0, c0, l0, want := chip.mem, curcontents[..], chip.log, newcontents[..];
    EraseImages(ctx, levels, l, m0, c0, want);
    var skipped;
    ret, skipped := WriteEntries(ctx, chip, layout, l, curcontents, newcontents, 0, true);
    if ret != 0 {
      ret := 1;
    } else if chip.readFaults == old(chip.readFaults) && PaddingReadable(ctx, levels, l) {
      EraseOutcome(ctx, levels, l, m0, chip.mem, c0, l0, chip.log);
    }
  }

  /** The two images that an erase starts from. */
  lemma EraseImages(ctx: Ctx, levels: seq<Level>, l: seq<Entry>, m0: Image, c0: Image, want: Image)
    requires ValidLayout(levels, ctx.size) && Sane(l, ctx.size) && |m0| == |c0| == |want| == ctx.size
    requires forall a: nat | a < ctx.size :: c0[a] == !ctx.ev && want[a] == ctx.ev
    ensures want == Blank(ctx) && UnionPlausible(ctx, l, m0, c0, want)
  {
    NegationDiffers(ctx.ev);
  }

  lemma NegationDiffers(x: byte)
    ensures !x != x
  {
  }

  lemma EraseOutcome(ctx: Ctx, levels: seq<Level>, l: seq<Entry>, m0: Image, m1: Image, c0: Image, l0: seq<Op>,
                     l1: seq<Op>)
    requires EraseFits(ctx, levels, l, m0, c0) && |m1| == |m0|
    requires EntriesDone(ctx, levels, l, m0, m1, c0, Blank(ctx), l0, l1)
    ensures EraseResult(ctx, levels, l, m0, m1, l0, l1)
  {
    EraseSteps(ctx, levels, l, m0, c0);
    if ctx.gran.Gran1Bit? {
      forall a: nat | a < ctx.size
        ensures m1[a] == if InUnion(l, a) && ctx.Writable(a) && Uncut(ctx, levels[0], a) then ctx.ev else m0[a]
      {
        AndOnes(m0[a]);
      }
    }
  }

  lemma AndOnes(x: byte)
    ensures x & 0xFF == x
  {
  }

  // ----- read_by_layout and verify_by_layout -------------------------------------------

  /** What a read of byte `a` delivers. */
  ghost function ReadValue(ctx: Ctx, mem: Image, a: nat): byte
    requires a < |mem|
  {
    if ctx.Readable(a) then mem[a] else ctx.ev
  }

  ghost predicate UnionRead(ctx: Ctx, l: seq<Entry>, n: nat, mem: Image, buf: Image)
    requires n <= |l|
  {
    |mem| == |buf| && forall a: nat | a < |mem| && InUnion(l[..n], a) :: buf[a] == ReadValue(ctx, mem, a)
  }

  ghost predicate UnionReadable(ctx: Ctx, l: seq<Entry>) {
    forall a: nat | a < ctx.size && InUnion(l, a) :: ctx.Readable(a)
  }

  lemma EntryInUnion(ctx: Ctx, l: seq<Entry>, n: nat)
    requires n < |l| && l[n].included && l[n].end < ctx.size && UnionReadable(ctx, l)
    ensures AllReadable(ctx, l[n].start, l[n].end + 1)
  {
    forall a: nat | l[n].start <= a < l[n].end + 1 ensures ctx.Readable(a) {
      UnionGrows(l, n, a);
    }
  }

  lemma ReadableGrows(ctx: Ctx, l: seq<Entry>, n: nat)
    requires n < |l| && l[n].included
    ensures UnionReadable(ctx, l[..n]) && AllReadable(ctx, l[n].start, l[n].end + 1) ==> UnionReadable(ctx, l[..n + 1])
  {
    forall a: nat | InUnion(l[..n + 1], a) ensures InUnion(l[..n], a) || Covers(l[n], a) {
      UnionGrows(l, n, a);
    }
  }

  /** How many commands it takes to read the first `n` entries. */
  ghost function EntryReads(ctx: Ctx, l: seq<Entry>, n: nat): nat
    requires ctx.Honest() && Sane(l, ctx.size) && n <= |l|
  {
    if n == 0 then 0
    else
      EntryReads(ctx, l, n - 1) + if l[n - 1].included then Reads(ctx, l[n - 1].start, l[n - 1].end + 1) else 0
  }

  lemma {:induction false} ReadsSkip(ctx: Ctx, l: seq<Entry>, n: nat, i: nat)
    requires ctx.Honest() && Sane(l, ctx.size) && n <= i <= |l| && forall j | n <= j < i :: !l[j].included
    ensures EntryReads(ctx, l, i) == EntryReads(ctx, l, n)
  {
    if n < i {
      ReadsSkip(ctx, l, n, i - 1);
    }
  }

  lemma {:induction false} ReadsGrow(ctx: Ctx, l: seq<Entry>, n: nat, i: nat)
    requires ctx.Honest() && Sane(l, ctx.size) && n <= i <= |l|
    ensures EntryReads(ctx, l, n) <= EntryReads(ctx, l, i)
  {
    if n < i {
      ReadsGrow(ctx, l, n, i - 1);
    }
  }

  method ReadByLayout(ctx: Ctx, chip: Chip, l: seq<Entry>, buf: array<byte>) returns (ret: int)
    requires ctx.Honest() && Attached(ctx, chip) && Sane(l, ctx.size) && buf.Length == ctx.size
    modifies chip`step, chip`readFaults, buf
    ensures ret == 0 || ret == 1
    ensures ret == 0 ==> UnionRead(ctx, l, |l|, chip.mem, buf[..])
    ensures Attached(ctx, chip) && chip.readFaults >= old(chip.readFaults)
    ensures ret == 0 <==> chip.readFaults == old(chip.readFaults) && (ctx.skipUnreadable || UnionReadable(ctx, l))
    ensures ret == 0 <==> chip.Completes(old(chip.step), EntryReads(ctx, l, |l|))
                          && (ctx.skipUnreadable || UnionReadable(ctx, l))
    ensures ret == 0 ==> chip.step == old(chip.step) + EntryReads(ctx, l, |l|)
  {
    assert l[..|l|] == l;
    var i := LayoutNextIncluded(l, 0);
    UnionSkips(l, 0, i);
    ReadsSkip(ctx, l, 0, i);
    while i < |l|
      invariant 0 <= i <= |l| && (i < |l| ==> l[i].included)
      invariant chip.step == old(chip.step) + EntryReads(ctx, l, i)
      invariant chip.Completes(old(chip.step), EntryReads(ctx, l, i))
      invariant Attached(ctx, chip) && chip.readFaults == old(chip.readFaults)
                && UnionRead(ctx, l, i, chip.mem, buf[..])
      invariant ctx.skipUnreadable || UnionReadable(ctx, l[..i])
      decreases |l| - i
    {
      ReadsGrow(ctx, l, i + 1, |l|);
      var ok := ReadEntry(ctx, chip, l, i, buf);
      if !ok {
        return 1;
      }
      ReadableGrows(ctx, l, i);
      var next := LayoutNextIncluded(l, i + 1);
      UnionSkips(l, i + 1, next);
      ReadsSkip(ctx, l, i + 1, next);
      i := next;
    }
    return 0;
  }

  /** One turn of the loop: entry `i` is read. */
  method ReadEntry(ctx: Ctx, chip: Chip, l: seq<Entry>, i: nat, buf: array<byte>) returns (ok: bool)
    requires ctx.Honest() && Attached(ctx, chip) && Sane(l, ctx.size) && buf.Length == ctx.size
    requires i < |l| && l[i].included && UnionRead(ctx, l, i, chip.mem, buf[..])
    modifies chip`step, chip`readFaults, buf
    ensures Attached(ctx, chip) && chip.readFaults >= old(chip.readFaults)
    ensures !ok ==> chip.readFaults > old(chip.readFaults) || (!ctx.skipUnreadable && !UnionReadable(ctx, l))
    ensures !ok ==> !chip.Completes(old(chip.step), Reads(ctx, l[i].start, l[i].end + 1))
                    || (!ctx.skipUnreadable && !UnionReadable(ctx, l))
    ensures ok ==> chip.readFaults == old(chip.readFaults) && UnionRead(ctx, l, i + 1, chip.mem, buf[..])
    ensures ok ==> chip.Completes(old(chip.step), Reads(ctx, l[i].start, l[i].end + 1))
    ensures ok ==> chip.step == old(chip.step) + Reads(ctx, l[i].start, l[i].end + 1)
    ensures ok ==> ctx.skipUnreadable || AllReadable(ctx, l[i].start, l[i].end + 1)
  {
    var e := l[i];
    ghost var b0 := buf[..];
    var r := ReadFlash(ctx, chip, buf, e.start, e.end - e.start + 1);
    ok := r == 0;
    if ok {
      UnionReadGrows(ctx, l, i, chip.mem, b0, buf[..]);
    } else if UnionReadable(ctx, l) {
      EntryInUnion(ctx, l, i);
    }
  }

  lemma UnionSkips(l: seq<Entry>, n: nat, i: nat)
    requires n <= i <= |l| && forall j | n <= j < i :: !l[j].included
    ensures forall a: nat :: InUnion(l[..i], a) ==> InUnion(l[..n], a)
  {
    forall a: nat | InUnion(l[..i], a) ensures InUnion(l[..n], a) {
      var j :| 0 <= j < |l[..i]| && Covers(l[..i][j], a);
      assert l[..n][j] == l[..i][j];
    }
  }

  lemma UnionReadGrows(ctx: Ctx, l: seq<Entry>, n: nat, mem: Image, b0: Image, b1: Image)
    requires n < |l| && l[n].included && l[n].start <= l[n].end < |mem| && UnionRead(ctx, l, n, mem, b0)
    requires OnlyWithin(b0, b1, l[n].start, l[n].end + 1) && ReadBack(ctx, mem, b1, l[n].start, l[n].end + 1)
    ensures UnionRead(ctx, l, n + 1, mem, b1)
  {
    forall a: nat | a < |mem| && InUnion(l[..n + 1], a) ensures b1[a] == ReadValue(ctx, mem, a) {
      UnionGrows(l, n, a);
      if l[n].start <= a <= l[n].end {
        assert ReadByte(ctx, mem, b1, a);
      }
    }
  }

  ghost predicate Matches(ctx: Ctx, l: seq<Entry>, n: nat, mem: Image, want: Image)
    requires n <= |l|
  {
    |mem| == |want| && forall a: nat | a < |mem| && InUnion(l[..n], a) :: want[a] == ReadValue(ctx, mem, a)
  }

  /** Returns 0 exactly if nothing was unreadable and all included bytes read back as wanted, 3
      only if one does not, and 1 only if a read failed or was refused. */
  method VerifyByLayout(ctx: Ctx, chip: Chip, l: seq<Entry>, cur: array<byte>, want: array<byte>) returns (ret: int)
    requires ctx.Honest() && Attached(ctx, chip) && Sane(l, ctx.size) && cur.Length == want.Length == ctx.size
             && cur != want
    modifies chip`step, chip`readFaults, cur
    ensures ret in {0, 1, 3} && Attached(ctx, chip) && chip.readFaults >= old(chip.readFaults)
    ensures ret == 0 ==> Matches(ctx, l, |l|, chip.mem, want[..])
    ensures ret == 3 ==> !Matches(ctx, l, |l|, chip.mem, want[..])
    ensures ret == 1 ==> chip.readFaults > old(chip.readFaults) || (!ctx.skipUnreadable && !UnionReadable(ctx, l))
    ensures ret == 0 <==> chip.readFaults == old(chip.readFaults) && (ctx.skipUnreadable || UnionReadable(ctx, l))
                          && Matches(ctx, l, |l|, chip.mem, want[..])
    ensures ret == 0 <==>
              && chip.Completes(old(chip.step), EntryReads(ctx, l, |l|))
              && (ctx.skipUnreadable || UnionReadable(ctx, l)) && Matches(ctx, l, |l|, chip.mem, want[..])
    ensures ret == 0 ==> chip.step == old(chip.step) + EntryReads(ctx, l, |l|)
  {
    assert l[..|l|] == l;
    var i := LayoutNextIncluded(l, 0);
    UnionSkips(l, 0, i);
    ReadsSkip(ctx, l, 0, i);
    while i < |l|
      invariant 0 <= i <= |l| && (i < |l| ==> l[i].included)
      invariant chip.step == old(chip.step) + EntryReads(ctx, l, i)
      invariant chip.Completes(old(chip.step), EntryReads(ctx, l, i))
      invariant Attached(ctx, chip) && chip.readFaults == old(chip.readFaults) && Matches(ctx, l, i, chip.mem, want[..])
      invariant ctx.skipUnreadable || UnionReadable(ctx, l[..i])
      decreases |l| - i
    {
      ReadsGrow(ctx, l, i + 1, |l|);
      ret := VerifyEntry(ctx, chip, l, i, cur, want);
      if ret != 0 {
        return;
      }
      ReadableGrows(ctx, l, i);
      var next := LayoutNextIncluded(l, i + 1);
      UnionSkips(l, i + 1, next);
      ReadsSkip(ctx, l, i + 1, next);
      i := next;
    }
    return 0;
  }

  /** One turn of the loop: entry `i` is read and compared. */
  method VerifyEntry(ctx: Ctx, chip: Chip, l: seq<Entry>, i: nat, cur: array<byte>, want: array<byte>)
    returns (ret: int)
    requires ctx.Honest() && Attached(ctx, chip) && Sane(l, ctx.size) && cur.Length == want.Length == ctx.size
    requires cur != want && i < |l| && l[i].included && Matches(ctx, l, i, chip.mem, want[..])
    modifies chip`step, chip`readFaults, cur
    ensures ret in {0, 1, 3} && Attached(ctx, chip) && chip.readFaults >= old(chip.readFaults)
    ensures ret == 1 ==> chip.readFaults > old(chip.readFaults) || !AllReadable(ctx, l[i].start, l[i].end + 1)
    ensures ret == 1 <==> !(chip.Completes(old(chip.step), Reads(ctx, l[i].start, l[i].end + 1))
                            && (ctx.skipUnreadable || AllReadable(ctx, l[i].start, l[i].end + 1)))
    ensures ret == 1 && !ctx.skipUnreadable && UnionReadable(ctx, l) ==> chip.readFaults > old(chip.readFaults)
    ensures ret == 1 && ctx.skipUnreadable ==> chip.readFaults > old(chip.readFaults)
    ensures ret != 1 ==> chip.readFaults == old(chip.readFaults)
    ensures ret == 0 ==> Matches(ctx, l, i + 1, chip.mem, want[..])
    ensures ret == 0 ==> chip.step == old(chip.step) + Reads(ctx, l[i].start, l[i].end + 1)
    ensures ret == 3 ==> !Matches(ctx, l, |l|, chip.mem, want[..])
  {
    var e := l[i];
    ret := ReadFlash(ctx, chip, cur, e.start, e.end - e.start + 1);
    if ret != 0 {
      if UnionReadable(ctx, l) {
        EntryInUnion(ctx, l, i);
      }
      return 1;
    }
    var c := CompareRange(want[..], cur[..], e.start, e.end - e.start + 1);
    EntryMatches(ctx, l, i, chip.mem, cur[..], want[..]);
    ret := if c != 0 then 3 else 0;
  }

  lemma EntryMatches(ctx: Ctx, l: seq<Entry>, n: nat, mem: Image, buf: Image, want: Image)
    requires n < |l| && l[n].included && l[n].start <= l[n].end < |mem| == |want| == |buf|
             && Matches(ctx, l, n, mem, want)
    requires ReadBack(ctx, mem, buf, l[n].start, l[n].end + 1)
    ensures Granularity.Same(want, buf, l[n].start, l[n].end + 1) ==> Matches(ctx, l, n + 1, mem, want)
    ensures !Granularity.Same(want, buf, l[n].start, l[n].end + 1) ==> !Matches(ctx, l, |l|, mem, want)
  {
    assert l[..|l|] == l;
    forall a: nat | a < |mem|
      ensures InUnion(l[..n + 1], a) <==> InUnion(l[..n], a) || l[n].start <= a <= l[n].end
      ensures l[n].start <= a <= l[n].end ==> InUnion(l, a) && buf[a] == ReadValue(ctx, mem, a)
    {
      UnionGrows(l, n, a);
      if l[n].start <= a <= l[n].end {
        assert ReadByte(ctx, mem, buf, a);
      }
    }
  }

  // ----- flashrom_image_write ----------------------------------------------------------

  /** What the operation reads can be read: the included regions, or with `all` the chip. */
  ghost predicate ReadableEnough(ctx: Ctx, l: seq<Entry>, all: bool) {
    (all ==> AllReadable(ctx, 0, ctx.size)) && UnionReadable(ctx, l)
  }

  /** How many commands it takes to read them once. */
  ghost function ScopeReads(ctx: Ctx, l: seq<Entry>, all: bool): nat
    requires ctx.Honest() && Sane(l, ctx.size)
  {
    if all then Reads(ctx, 0, ctx.size) else EntryReads(ctx, l, |l|)
  }

  /** They can be read once, from command number `step` on: every command completes, and
      unreadable bytes, if there are any, are to be skipped. */
  ghost predicate ReadsWell(ctx: Ctx, chip: Chip, step: nat, l: seq<Entry>, all: bool)
    requires ctx.Honest() && Sane(l, ctx.size)
  {
    && chip.Completes(step, ScopeReads(ctx, l, all))
    && (ctx.skipUnreadable || if all then AllReadable(ctx, 0, ctx.size) else UnionReadable(ctx, l))
  }

  /** The present contents are given, or can be read. */
  ghost predicate Loads(ctx: Ctx, chip: Chip, step: nat, l: seq<Entry>, refcontents: Option<Image>, all: bool)
    requires ctx.Honest() && Sane(l, ctx.size)
  {
    refcontents.Some? || ReadsWell(ctx, chip, step, l, all)
  }

  /** Fills the image of the chip from the reference contents or from the chip.  With
      `all`, `oldcontents` becomes a copy of the whole chip. */
  method LoadCurrent(ctx: Ctx, chip: Chip, l: seq<Entry>, refcontents: Option<Image>, all: bool,
                     cur: array<byte>, oldcontents: array<byte>) returns (ret: int)
    requires ctx.Honest() && Attached(ctx, chip) && Sane(l, ctx.size)
    requires cur.Length == oldcontents.Length == ctx.size && cur != oldcontents
    requires refcontents.Some? ==> |refcontents.value| == ctx.size
    modifies chip`step, chip`readFaults, cur, oldcontents
    ensures Attached(ctx, chip) && chip.readFaults >= old(chip.readFaults)
    ensures ret == 0 ==> chip.readFaults == old(chip.readFaults)
    ensures ret != 0 ==> chip.readFaults > old(chip.readFaults) || !ReadableEnough(ctx, l, all)
    ensures ret == 0 <==> Loads(ctx, chip, old(chip.step), l, refcontents, all)
    ensures ret == 0 && ReadableEnough(ctx, l, all) && (refcontents.Some? ==> refcontents.value == chip.mem) ==>
              && (forall a: nat | a < ctx.size && InUnion(l, a) :: cur[a] == chip.mem[a])
              && (all ==> oldcontents[..] == chip.mem)
  {
    if refcontents.Some? {
      forall a | 0 <= a < ctx.size {
        cur[a] := refcontents.value[a];
      }
      if all {
        forall a | 0 <= a < ctx.size {
          oldcontents[a] := refcontents.value[a];
        }
      }
      return 0;
    }
    if all {
      ret := ReadFlash(ctx, chip, oldcontents, 0, ctx.size);
      if ret != 0 {
        return;
      }
      ReadableBack(ctx, chip.mem, oldcontents[..], 0, ctx.size);
      forall a | 0 <= a < ctx.size {
        cur[a] := oldcontents[a];
      }
    } else {
      ret := ReadByLayout(ctx, chip, l, cur);
      assert l[..|l|] == l;
    }
  }

  /** An included byte that the write could not reach although it should change. */
  ghost predicate Withheld(ctx: Ctx, l: seq<Entry>, m0: Image, want: Image) {
    exists a: nat :: a < |m0| && a < |want| && InUnion(l, a) && !ctx.Writable(a) && want[a] != m0[a]
  }

  /** After a layout write, verification finds a mismatch exactly if a byte was withheld. */
  lemma MismatchIffWithheld(ctx: Ctx, l: seq<Entry>, m0: Image, m1: Image, want: Image, all: bool)
    requires |m0| == |want| == ctx.size && ctx.size > 0 && Overlaid(ctx, l, m0, m1, want) && ReadableEnough(ctx, l, all)
    ensures var vl := if all then [Entry(0, ctx.size - 1, true)] else l;
            var image := if all then Overlay(l, m0, want) else want;
            Matches(ctx, vl, |vl|, m1, image) <==> !Withheld(ctx, l, m0, want)
  {
    var vl := if all then [Entry(0, ctx.size - 1, true)] else l;
    var image := if all then Overlay(l, m0, want) else want;
    assert vl[..|vl|] == vl;
    forall a: nat | a < ctx.size
      ensures all ==> InUnion(vl, a)
      ensures InUnion(vl, a) ==> ReadValue(ctx, m1, a) == m1[a]
    {
      assert all ==> Covers(vl[0], a);
      assert InUnion(vl, a) ==> ctx.Readable(a);
    }
    if Withheld(ctx, l, m0, want) {
      var a: nat :| a < |m0| && a < |want| && InUnion(l, a) && !ctx.Writable(a) && want[a] != m0[a];
      assert InUnion(vl[..|vl|], a) && image[a] != ReadValue(ctx, m1, a);
    }
  }

  /** The region map of a programmer that protects nothing: one region, the whole chip. */
  ghost predicate Unprotected(ctx: Ctx) {
    forall a: nat | a < ctx.size :: ctx.regionAt(a) == Region(0, ctx.size - 1, false, false)
  }

  /** On such a programmer nothing is cut or withheld, and the contents a layout write aims
      at are exactly the image that combine_image_by_layout builds from the old contents. */
  lemma UnprotectedOverlay(ctx: Ctx, levels: seq<Level>, l: seq<Entry>, m0: Image, m1: Image, want: Image)
    requires Unprotected(ctx) && Fits(ctx, levels, l, m0, m0, want) && ctx.size > 0
    ensures PaddingReadable(ctx, levels, l) && ReadableEnough(ctx, l, true) && !AnyRefused(ctx, levels, l)
    ensures Clean(ctx, levels, l, m0, want) && EraseClean(ctx, levels, l, m0) && !Withheld(ctx, l, m0, want)
    ensures Overlaid(ctx, l, m0, m1, want) <==> m1 == Overlay(l, m0, want)
  {
    forall a: nat | a < ctx.size ensures Uncut(ctx, levels[0], a) {
      IsTiling(levels, ctx.size, 0);
      var i := TilingFind(levels[0], ctx.size, a);
      IsBlock(levels, ctx.size, 0, i);
    }
    UncutIsClean(ctx, levels, l, m0, want);
    UncutEraseClean(ctx, levels, l, m0);
  }

  /** Reading the whole chip by layout. */
  lemma WholeChip(ctx: Ctx, vl: seq<Entry>)
    requires ctx.Honest() && ctx.size > 0 && vl == [Entry(0, ctx.size - 1, true)]
    ensures Sane(vl, ctx.size) && EntryReads(ctx, vl, 1) == Reads(ctx, 0, ctx.size)
    ensures UnionReadable(ctx, vl) <==> AllReadable(ctx, 0, ctx.size)
  {
    assert EntryReads(ctx, vl, 0) == 0;
    forall a: nat | a < ctx.size ensures InUnion(vl, a) {
      assert Covers(vl[0], a);
    }
  }

  /** The verification step: combines the image if the whole chip is to be compared. */
  method VerifyWritten(ctx: Ctx, chip: Chip, l: seq<Entry>, all: bool, cur: array<byte>, new': array<byte>,
                       oldcontents: array<byte>, ghost m0: Image)
    returns (ret: int)
    requires ctx.Honest() && Attached(ctx, chip) && Sane(l, ctx.size) && 0 < ctx.size <= UINT_MAX
    requires cur.Length == new'.Length == oldcontents.Length == ctx.size
    requires cur != new' && cur != oldcontents && new' != oldcontents
    modifies chip`step, chip`readFaults, cur, new'
    ensures Attached(ctx, chip) && chip.readFaults >= old(chip.readFaults)
    ensures new'[..] == if all then Overlay(l, oldcontents[..], old(new'[..])) else old(new'[..])
    ensures var vl := if all then [Entry(0, ctx.size - 1, true)] else l;
            && (ret == 0 ==> Matches(ctx, vl, |vl|, chip.mem, new'[..]))
            && (ret == 3 ==> !Matches(ctx, vl, |vl|, chip.mem, new'[..]))
    ensures ret == 1 ==> chip.readFaults > old(chip.readFaults) || !ReadableEnough(ctx, l, all)
    ensures ret == 0 ==>
              ReadsWell(ctx, chip, old(chip.step), l, all) && chip.step == old(chip.step) + ScopeReads(ctx, l, all)
    ensures ret in {0, 1, 3} && forall a: nat | a < ctx.size && InUnion(l, a) :: new'[a] == old(new'[a])
    ensures ret == 0 ==> IncludedRead(ctx, l, chip.mem, old(new'[..]))
    ensures ret != 1 && ReadableEnough(ctx, l, all) && (all ==> oldcontents[..] == m0)
            && Overlaid(ctx, l, m0, chip.mem, old(new'[..])) ==>
              (ret == 3 <==> Withheld(ctx, l, m0, old(new'[..])))
  {
    ghost var want := new'[..];
    var vl := l;
    if all {
      CombineImageByLayout(l, new', oldcontents);
      vl := [Entry(0, ctx.size - 1, true)];
      WholeChip(ctx, vl);
    }
    ret := VerifyByLayout(ctx, chip, vl, cur, new');
    if ret == 0 {
      IncludedMatch(ctx, l, all, chip.mem, new'[..], want);
    }
    if ReadableEnough(ctx, l, all) && (all ==> oldcontents[..] == m0) && Overlaid(ctx, l, m0, chip.mem, want) {
      MismatchIffWithheld(ctx, l, m0, chip.mem, want, all);
    }
  }

  /** The included bytes read back as given. */
  ghost predicate IncludedRead(ctx: Ctx, l: seq<Entry>, mem: Image, want: Image) {
    |mem| == |want| && forall a: nat | a < |mem| && InUnion(l, a) :: want[a] == ReadValue(ctx, mem, a)
  }

  /** Writes an image.  `prepared` is the verdict of prepare_flash_access; `all` is the
      verify_whole_chip flag.  Result 2 is a failed write, 3 a failed comparison.

      Protected bytes are never touched.  Result 1 needs a failed or refused read or
      preparation, result 2 a failed command, a refused region or an empty layout.  If the
      chip has to be read first and that cannot be done, the result is 1 and nothing is
      written.  Otherwise a failed command, a refusal or an empty layout gives 2; and if
      something was written, success means that it was read back without a failure.  On a
      chip that reads faithfully and once the write has succeeded, its commands are lawful
      exactly if the layout is clean; then the included writable bytes are new and
      everything else is old, and the result is 3 exactly if verification is asked for, an
      included byte was withheld because it is write-protected and another one had to change. */
  method FlashromImageWrite(ctx: Ctx, chip: Chip, levels: seq<Level>, l: seq<Entry>, new': array<byte>,
                            refcontents: Option<Image>, all: bool, prepared: bool) returns (ret: int)
    requires Prepared(ctx, chip, levels) && Sane(l, ctx.size)
    requires refcontents.Some? ==> |refcontents.value| == ctx.size
    modifies chip, new'
    ensures ProtectionKept(ctx, old(chip.mem), chip.mem, old(chip.log), chip.log)
    ensures ret == 4 <==> new'.Length != ctx.size
    ensures new'.Length == ctx.size && !prepared ==> ret == 1
    ensures new'.Length == ctx.size && !Loads(ctx, chip, old(chip.step), l, refcontents, all) ==>
              ret == 1 && chip.mem == old(chip.mem) && chip.log == old(chip.log)
    ensures ret == 4 || !prepared ==> chip.mem == old(chip.mem) && chip.log == old(chip.log)
    ensures ret in {0, 1, 2, 3, 4}
    ensures forall a: nat | a < new'.Length && InUnion(l, a) :: new'[a] == old(new'[a])
    ensures !all ==> new'[..] == old(new'[..])
    ensures Attached(ctx, chip) && chip.readFaults >= old(chip.readFaults) && chip.faults >= old(chip.faults)
    ensures ret == 1 ==> !prepared || chip.readFaults > old(chip.readFaults) || !ReadableEnough(ctx, l, all)
    ensures ret == 2 ==> chip.Failures() > old(chip.Failures()) || AnyRefused(ctx, levels, l) || !AnyIncluded(l)
    ensures ret == 2 && !ctx.verifyAfterWrite ==>
              chip.faults > old(chip.faults) || AnyRefused(ctx, levels, l) || !AnyIncluded(l)
    ensures new'.Length == ctx.size && prepared && Loads(ctx, chip, old(chip.step), l, refcontents, all) ==>
              && (!AnyIncluded(l) || AnyRefused(ctx, levels, l) ==> ret == 2)
              && (ret in {1, 3} ==> ctx.verifyAfterWrite && chip.log != old(chip.log))
    ensures ret in {0, 1, 3} ==> chip.faults == old(chip.faults)
    ensures ret == 0 && ctx.verifyAfterWrite && chip.log != old(chip.log) ==>
              IncludedRead(ctx, l, chip.mem, old(new'[..]))
    ensures ret == 0 && ctx.verifyAfterWrite && chip.log != old(chip.log) ==>
              var n := ScopeReads(ctx, l, all); chip.step >= n && ReadsWell(ctx, chip, chip.step - n, l, all)
    ensures chip.readFaults == old(chip.readFaults) && PaddingReadable(ctx, levels, l) && ReadableEnough(ctx, l, all)
            && (refcontents.Some? ==> refcontents.value == old(chip.mem)) && (ret == 0 || ret == 3) ==>
              ImageWritten(ctx, levels, l, old(chip.mem), chip.mem, old(new'[..]), old(chip.log), chip.log, ret)
  {
    if new'.Length != ctx.size {
      return 4;
    }
    if !prepared {
      return 1;
    }
    var curcontents := new byte[ctx.size](_ => 0);
    var oldcontents := new byte[ctx.size](_ => 0);
    ret := LoadCurrent(ctx, chip, l, refcontents, all, curcontents, oldcontents);
    if ret != 0 {
      return 1;
    }
    ret := WriteAndVerify(ctx, chip, levels, l, curcontents, new', oldcontents, all);
  }

  /** A written image: lawful exactly if the layout is clean, and then the result is a failed
      comparison exactly if the comparison is asked for, a byte was withheld and another one
      had to be written.  If nothing had to be written, nothing is compared. */
  ghost predicate ImageWritten(ctx: Ctx, levels: seq<Level>, l: seq<Entry>, m0: Image, m1: Image, want: Image,
                               l0: seq<Op>, l1: seq<Op>, ret: int)
    requires Fits(ctx, levels, l, m0, m0, want)
  {
    && WriteResult(ctx, levels, l, m0, m1, want, l0, l1)
    && (Clean(ctx, levels, l, m0, want) ==>
          && (ret == 3 <==> ctx.verifyAfterWrite && Withheld(ctx, l, m0, want) && l1 != l0)
          && (ctx.ratio < 100 ==>
                (ret == 3 <==> ctx.verifyAfterWrite && Withheld(ctx, l, m0, want) && !AsWanted(ctx, l, m0, want))))
  }

  /** A comparison of all or of the included bytes covers the included ones. */
  lemma IncludedMatch(ctx: Ctx, l: seq<Entry>, all: bool, mem: Image, image: Image, want: Image)
    requires ctx.size > 0 && |mem| == |image| == |want| == ctx.size
    requires var vl := if all then [Entry(0, ctx.size - 1, true)] else l; Matches(ctx, vl, |vl|, mem, image)
    requires forall a: nat | a < ctx.size && InUnion(l, a) :: image[a] == want[a]
    ensures IncludedRead(ctx, l, mem, want)
  {
    var vl := if all then [Entry(0, ctx.size - 1, true)] else l;
    assert vl[..|vl|] == vl;
    forall a: nat | a < ctx.size && InUnion(l, a) ensures want[a] == ReadValue(ctx, mem, a) {
      assert all ==> Covers(vl[0], a);
      assert InUnion(vl, a);
    }
  }

  /** The part of flashrom_image_write after the current contents are known. */
  method WriteAndVerify(ctx: Ctx, chip: Chip, levels: seq<Level>, l: seq<Entry>, cur: array<byte>, new': array<byte>,
                        oldcontents: array<byte>, all: bool) returns (ret: int)
    requires Prepared(ctx, chip, levels) && Sane(l, ctx.size)
    requires cur.Length == new'.Length == oldcontents.Length == ctx.size
    requires cur != new' && cur != oldcontents && new' != oldcontents
    modifies chip, cur, new'
    ensures Attached(ctx, chip) && ProtectionKept(ctx, old(chip.mem), chip.mem, old(chip.log), chip.log)
    ensures ret in {0, 1, 2, 3} && chip.readFaults >= old(chip.readFaults) && chip.faults >= old(chip.faults)
    ensures forall a: nat | a < ctx.size && InUnion(l, a) :: new'[a] == old(new'[a])
    ensures !all ==> new'[..] == old(new'[..])
    ensures ret == 1 ==> chip.readFaults > old(chip.readFaults) || !ReadableEnough(ctx, l, all)
    ensures ret == 2 ==> chip.Failures() > old(chip.Failures()) || AnyRefused(ctx, levels, l) || !AnyIncluded(l)
    ensures ret == 2 && !ctx.verifyAfterWrite ==>
              chip.faults > old(chip.faults) || AnyRefused(ctx, levels, l) || !AnyIncluded(l)
    ensures !AnyIncluded(l) || AnyRefused(ctx, levels, l) ==> ret == 2
    ensures ret in {1, 3} ==> ctx.verifyAfterWrite && chip.log != old(chip.log)
    ensures ret in {0, 1, 3} ==> chip.faults == old(chip.faults)
    ensures ret == 0 && ctx.verifyAfterWrite && chip.log != old(chip.log) ==>
              IncludedRead(ctx, l, chip.mem, old(new'[..]))
    ensures ret == 0 && ctx.verifyAfterWrite && chip.log != old(chip.log) ==>
              var n := ScopeReads(ctx, l, all); chip.step >= n && ReadsWell(ctx, chip, chip.step - n, l, all)
    ensures chip.readFaults == old(chip.readFaults) && PaddingReadable(ctx, levels, l) && ReadableEnough(ctx, l, all)
            && UnionExact(l, old(chip.mem), old(cur[..])) && (all ==> oldcontents[..] == old(chip.mem))
               && (ret == 0 || ret == 3) ==>
              ImageWritten(ctx, levels, l, old(chip.mem), chip.mem, old(new'[..]), old(chip.log), chip.log, ret)
  {
    ghost var m0, c0, l0, want, old' := chip.mem, cur[..], chip.log, new'[..], oldcontents[..];
    var allSkipped;
    ret, allSkipped := WriteByLayout(ctx, chip, levels, l, cur, new', true);
    if ret != 0 {
      if all {
        ret := ReadFlash(ctx, chip, cur, 0, ctx.size);
      }
      return 2;
    }
    ghost var m1 := chip.mem;
    assert oldcontents[..] == old';
    if ctx.verifyAfterWrite && !allSkipped {
      ret := VerifyWritten(ctx, chip, l, all, cur, new', oldcontents, m0);
    }
    if chip.readFaults == old(chip.readFaults) && PaddingReadable(ctx, levels, l) && ReadableEnough(ctx, l, all)
       && UnionExact(l, m0, c0) && (all ==> old' == m0) && ret != 1 {
      Judged(ctx, levels, l, m0, m1, want, l0, chip.log, ret);
    }
  }

  lemma Judged(ctx: Ctx, levels: seq<Level>, l: seq<Entry>, m0: Image, m1: Image, want: Image,
               l0: seq<Op>, l1: seq<Op>, ret: int)
    requires Fits(ctx, levels, l, m0, m0, want) && WriteResult(ctx, levels, l, m0, m1, want, l0, l1)
    requires Overlaid(ctx, l, m0, m1, want) ==>
               (ret == 3 <==> ctx.verifyAfterWrite && l1 != l0 && Withheld(ctx, l, m0, want))
    ensures ImageWritten(ctx, levels, l, m0, m1, want, l0, l1, ret)
  {
  }
}
