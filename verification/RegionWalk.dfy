/** Walks over the access-protection regions of a chip (flashrom.c:
    check_for_unwritable_regions, read_flash, write_flash, compare_range, verify_range,
    check_erased_range). */
module RegionWalk {
  import opened Granularity
  import opened Helpers
  import opened Flash

  ghost predicate Attached(ctx: Ctx, chip: Chip)
    reads chip
  {
    chip.Valid() && chip.size == ctx.size && chip.gran == ctx.gran && chip.ev == ctx.ev
  }

  ghost predicate AllWritable(ctx: Ctx, lo: nat, hi: nat) {
    forall a: nat | lo <= a < hi :: ctx.Writable(a)
  }

  ghost predicate AllReadable(ctx: Ctx, lo: nat, hi: nat) {
    forall a: nat | lo <= a < hi :: ctx.Readable(a)
  }

  /** All addresses of `[lo, hi)` lie in the region of `lo`. */
  ghost predicate OneRegion(ctx: Ctx, lo: nat, hi: nat) {
    forall a: nat | lo <= a < hi :: ctx.regionAt(a) == ctx.regionAt(lo)
  }

  /** One step of a region walk stays in one region and ends on a chunk border. */
  lemma WalkStep(ctx: Ctx, addr: nat, end: nat, next: nat)
    requires ctx.Honest() && addr < end <= ctx.size && next == Min(end, ctx.regionAt(addr).end + 1)
    ensures addr < next <= end && OneRegion(ctx, addr, next)
    ensures OnGrid(end, Stride(ctx.gran)) ==> OnGrid(next, Stride(ctx.gran))
    ensures OneRegion(ctx, addr, end) ==> next == end
  {
    assert ctx.HonestAt(addr);
    if next < end {
      assert ctx.HonestAt(next);
    }
  }

  /** Fails exactly if some byte of the range is write-protected. */
  method CheckForUnwritableRegions(ctx: Ctx, start: nat, len: nat) returns (ret: int)
    requires ctx.Honest() && start + len <= ctx.size
    ensures ret == 0 || ret == -1
    ensures ret == 0 <==> AllWritable(ctx, start, start + len)
  {
    var addr := start;
    while addr < start + len
      invariant start <= addr
      invariant AllWritable(ctx, start, Min(addr, start + len))
    {
      var region := ctx.regionAt(addr);
      WalkStep(ctx, addr, start + len, Min(start + len, region.end + 1));
      if region.writeProt {
        assert !ctx.Writable(addr);
        return -1;
      }
      addr := region.end + 1;
    }
    return 0;
  }

  /** Byte `a` of a successful read: the chip's byte, or the erased value if it is
      unreadable and such regions are skipped. */
  ghost predicate ReadByte(ctx: Ctx, mem: Image, buf: Image, a: nat)
    requires a < |mem| && a < |buf|
  {
    buf[a] == if ctx.Readable(a) then mem[a] else ctx.ev
  }

  ghost predicate ReadBack(ctx: Ctx, mem: Image, buf: Image, lo: nat, hi: nat) {
    hi <= |mem| && hi <= |buf| && forall a: nat | lo <= a < hi :: ReadByte(ctx, mem, buf, a)
  }

  /** How many commands read_flash needs for `[lo, hi)`: one for each readable region. */
  ghost function Reads(ctx: Ctx, lo: nat, hi: nat): nat
    requires ctx.Honest() && hi <= ctx.size
    decreases hi - lo
  {
    if lo >= hi then 0
    else
      var r := ctx.regionAt(lo);
      assert ctx.HonestAt(lo);
      Reads(ctx, Min(hi, r.end + 1), hi) + if r.readProt then 0 else 1
  }

  method ReadFlash(ctx: Ctx, chip: Chip, buf: array<byte>, start: nat, len: nat) returns (ret: int)
    requires ctx.Honest() && Attached(ctx, chip) && start + len <= ctx.size == buf.Length
    modifies chip`step, chip`readFaults, buf
    ensures ret == 0 || ret == -1
    ensures Attached(ctx, chip) && OnlyWithin(old(buf[..]), buf[..], start, start + len)
    ensures ret == 0 ==> ReadBack(ctx, chip.mem, buf[..], start, start + len) && chip.readFaults == old(chip.readFaults)
    ensures chip.readFaults >= old(chip.readFaults)
    ensures ret == 0 <==> chip.readFaults == old(chip.readFaults)
                          && (ctx.skipUnreadable || AllReadable(ctx, start, start + len))
    ensures ret == 0 <==> chip.Completes(old(chip.step), Reads(ctx, start, start + len))
                          && (ctx.skipUnreadable || AllReadable(ctx, start, start + len))
    ensures ret == 0 ==> chip.step == old(chip.step) + Reads(ctx, start, start + len)
  {
    var addr := start;
    var end := start + len;
    while addr < end
      invariant start <= addr <= end && Attached(ctx, chip)
      invariant OnlyWithin(old(buf[..]), buf[..], start, addr)
      invariant ReadBack(ctx, chip.mem, buf[..], start, addr) && chip.readFaults == old(chip.readFaults)
      invariant ctx.skipUnreadable || AllReadable(ctx, start, addr)
      invariant chip.step + Reads(ctx, addr, end) == old(chip.step) + Reads(ctx, start, end)
      invariant old(chip.step) <= chip.step && chip.Completes(old(chip.step), chip.step - old(chip.step))
    {
      var region := ctx.regionAt(addr);
      var next := Min(end, region.end + 1);
      WalkStep(ctx, addr, end, next);
      if region.readProt && !ctx.skipUnreadable {
        assert !ctx.Readable(addr);
        return -1;
      }
      ghost var b0 := buf[..];
      var ok := ReadPiece(ctx, chip, buf, addr, next, region.readProt);
      if !ok {
        WithinJoin(old(buf[..]), b0, buf[..], start, addr, next, end);
        assert !chip.oracle(chip.step - 1).done;
        return -1;
      }
      ReadExtend(ctx, chip.mem, b0, buf[..], start, addr, next);
      WithinJoin(old(buf[..]), b0, buf[..], start, addr, next, next);
      addr := next;
    }
    return 0;
  }

  /** Part of one region: read, or filled if it is unreadable. */
  method ReadPiece(ctx: Ctx, chip: Chip, buf: array<byte>, addr: nat, next: nat, readProt: bool) returns (ok: bool)
    requires Attached(ctx, chip) && addr < next <= ctx.size == buf.Length
    modifies chip`step, chip`readFaults, buf
    ensures Attached(ctx, chip) && OnlyWithin(old(buf[..]), buf[..], addr, next)
    ensures ok ==> if readProt then Filled(buf[..], ctx.ev, addr, next) else Same(buf[..], chip.mem, addr, next)
    ensures ok <==> readProt || chip.oracle(old(chip.step)).done
    ensures chip.step == old(chip.step) + if readProt then 0 else 1
    ensures chip.readFaults >= old(chip.readFaults) && (ok <==> chip.readFaults == old(chip.readFaults))
  {
    if readProt {
      forall a | addr <= a < next {
        buf[a] := ctx.ev;
      }
      return true;
    }
    ok := chip.ReadRange(addr, next, buf);
  }

  lemma WithinJoin(m0: Image, m1: Image, m2: Image, lo: nat, mid: nat, hi: nat, top: nat)
    requires lo <= mid <= hi <= top && OnlyWithin(m0, m1, lo, mid) && OnlyWithin(m1, m2, mid, hi)
    ensures OnlyWithin(m0, m2, lo, top)
  {
  }

  lemma ReadExtend(ctx: Ctx, mem: Image, b0: Image, b1: Image, start: nat, addr: nat, next: nat)
    requires start <= addr < next <= |mem| && next <= |b0| && OnlyWithin(b0, b1, addr, next)
    requires ReadBack(ctx, mem, b0, start, addr) && OneRegion(ctx, addr, next)
    requires if ctx.regionAt(addr).readProt then Filled(b1, ctx.ev, addr, next) else Same(b1, mem, addr, next)
    ensures ReadBack(ctx, mem, b1, start, next)
  {
    forall a: nat | start <= a < next ensures ReadByte(ctx, mem, b1, a) {
      if a < addr {
        assert ReadByte(ctx, mem, b0, a);
      } else {
        assert ctx.regionAt(a) == ctx.regionAt(addr);
      }
    }
  }

  // ----- write_flash ------------------------------------------------------------

  /** Every new entry of the log programs writable bytes of `[lo, hi)` only. */
  ghost predicate ProgramsOnly(ctx: Ctx, log: seq<Op>, from: nat, lo: nat, hi: nat) {
    forall i | from <= i < |log| :: log[i].Program? && lo <= log[i].start && log[i].end <= hi
                                    && AllWritable(ctx, log[i].start, log[i].end)
  }

  ghost predicate WrittenByte(ctx: Ctx, m0: Image, m1: Image, img: Image, a: nat)
    requires |m1| == |m0| == |img| && a < |m0|
  {
    if ctx.Writable(a) then ProgrammedByte(ctx.gran, ctx.ev, m0, m1, img, a) else m1[a] == m0[a]
  }

  ghost predicate Written(ctx: Ctx, m0: Image, m1: Image, img: Image, lo: nat, hi: nat) {
    && |m1| == |m0| == |img| && hi <= |m0|
    && forall a: nat | lo <= a < hi :: WrittenByte(ctx, m0, m1, img, a)
  }

  method WriteFlash(ctx: Ctx, chip: Chip, img: Image, start: nat, len: nat) returns (ret: int)
    requires ctx.Honest() && Attached(ctx, chip) && start + len <= ctx.size == |img|
    requires OnGrid(start, Stride(ctx.gran)) && OnGrid(start + len, Stride(ctx.gran))
    modifies chip
    ensures ret == 0 || ret == -1
    ensures Attached(ctx, chip) && chip.readFaults == old(chip.readFaults)
    ensures OnlyWithin(old(chip.mem), chip.mem, start, start + len)
    ensures old(chip.log) <= chip.log && ProgramsOnly(ctx, chip.log, |old(chip.log)|, start, start + len)
    ensures ret == 0 ==> Written(ctx, old(chip.mem), chip.mem, img, start, start + len)
    ensures !ctx.skipUnwritable && !AllWritable(ctx, start, start + len) ==> ret != 0 && chip.log == old(chip.log)
    ensures ret == 0 <==>
            chip.faults == old(chip.faults) && (ctx.skipUnwritable || AllWritable(ctx, start, start + len))
    ensures chip.faults >= old(chip.faults)
    ensures ret == 0 && len > 0 && OneRegion(ctx, start, start + len) && ctx.Writable(start) ==>
              chip.log == old(chip.log)
                + [Program(start, start + len, AllLegal(ctx.gran, ctx.ev, old(chip.mem), img, start, start + len))]
  {
    if !ctx.skipUnwritable {
      var c := CheckForUnwritableRegions(ctx, start, len);
      if c != 0 {
        return -1;
      }
    }
    ghost var m0, l0 := chip.mem, chip.log;
    var addr := start;
    var end := start + len;
    while addr < end
      invariant start <= addr <= end && OnGrid(addr, Stride(ctx.gran))
      invariant Attached(ctx, chip) && chip.readFaults == old(chip.readFaults) && chip.faults == old(chip.faults)
      invariant Walked(ctx, m0, l0, chip.mem, chip.log, img, start, addr)
      invariant addr == start ==> chip.log == l0 && chip.mem == m0
      invariant addr > start && OneRegion(ctx, start, end) ==> addr == end
      invariant addr > start && OneRegion(ctx, start, end) && ctx.Writable(start) ==>
                  chip.log == l0 + [Program(start, end, AllLegal(ctx.gran, ctx.ev, m0, img, start, end))]
    {
      var next := Min(end, ctx.regionAt(addr).end + 1);
      WalkStep(ctx, addr, end, next);
      ghost var m1, l1 := chip.mem, chip.log;
      var ok := WriteSegment(ctx, chip, img, addr, next);
      WithinJoin(m0, m1, chip.mem, start, addr, next, end);
      LogExtend(ctx, l0, l1, chip.log, start, addr, next);
      if !ok {
        return -1;
      }
      WithinJoin(m0, m1, chip.mem, start, addr, next, next);
      WriteExtend(ctx, m0, m1, chip.mem, img, start, addr, next);
      addr := next;
    }
    return 0;
  }

  ghost predicate Walked(ctx: Ctx, m0: Image, l0: seq<Op>, m1: Image, l1: seq<Op>, img: Image, start: nat, addr: nat) {
    && OnlyWithin(m0, m1, start, addr) && Written(ctx, m0, m1, img, start, addr)
    && l0 <= l1 && ProgramsOnly(ctx, l1, |l0|, start, addr)
  }

  /** The part of write_flash that deals with one region. */
  method WriteSegment(ctx: Ctx, chip: Chip, img: Image, addr: nat, next: nat) returns (ok: bool)
    requires Attached(ctx, chip) && addr < next <= ctx.size == |img| && OneRegion(ctx, addr, next)
    modifies chip
    ensures Attached(ctx, chip) && chip.readFaults == old(chip.readFaults)
    ensures OnlyWithin(old(chip.mem), chip.mem, addr, next)
    ensures chip.faults == old(chip.faults) + if ok then 0 else 1
    ensures if ctx.Writable(addr) then
              && chip.log == old(chip.log) + [Program(addr, next,
                 AllLegal(ctx.gran, ctx.ev, old(chip.mem), img, addr, next))]
              && (ok ==> Programmed(ctx.gran, ctx.ev, old(chip.mem), chip.mem, img, addr, next))
            else ok && chip.mem == old(chip.mem) && chip.log == old(chip.log)
  {
    if ctx.regionAt(addr).writeProt {
      return true;
    }
    ok := chip.ProgramRange(addr, next, img);
  }

  lemma LogExtend(ctx: Ctx, l0: seq<Op>, l1: seq<Op>, l2: seq<Op>, start: nat, addr: nat, next: nat)
    requires l0 <= l1 && start <= addr <= next && ProgramsOnly(ctx, l1, |l0|, start, addr) && OneRegion(ctx, addr, next)
    requires l2 == l1 || (ctx.Writable(addr) && exists legal :: l2 == l1 + [Program(addr, next, legal)])
    ensures l0 <= l2 && forall hi: nat | hi >= next :: ProgramsOnly(ctx, l2, |l0|, start, hi)
  {
    forall a: nat | addr <= a < next ensures ctx.Writable(a) <==> ctx.Writable(addr) {
      assert ctx.regionAt(a) == ctx.regionAt(addr);
    }
  }

  /** Chunks at or after a chunk border do not see what happened before it. */
  lemma ChunkFrame(g: WriteGranularity, ev: byte, x: Image, x': Image, want: Image, lo: nat, mid: nat, a: nat)
    requires OnlyWithin(x, x', lo, mid) && OnGrid(mid, Stride(g)) && mid <= a
    ensures Diff(g, x, want, a) <==> Diff(g, x', want, a)
    ensures Bad(g, ev, x, want, a) <==> Bad(g, ev, x', want, a)
    ensures Legal(g, ev, x, want, a) <==> Legal(g, ev, x', want, a)
  {
    var c := Base(a, Stride(g));
    if c < mid {
      GridGap(c, mid, Stride(g));
    }
    ChunkSame(g, ev, x, x', want, a);
  }

  lemma WriteExtend(ctx: Ctx, m0: Image, m1: Image, m2: Image, img: Image, start: nat, addr: nat, next: nat)
    requires start <= addr < next <= |m0| == |img| && OnGrid(addr, Stride(ctx.gran))
    requires OnlyWithin(m0, m1, start, addr) && Written(ctx, m0, m1, img, start, addr)
    requires OneRegion(ctx, addr, next) && OnlyWithin(m1, m2, addr, next)
    requires if ctx.Writable(addr) then Programmed(ctx.gran, ctx.ev, m1, m2, img, addr, next) else m2 == m1
    ensures Written(ctx, m0, m2, img, start, next)
  {
    forall a: nat | start <= a < next ensures WrittenByte(ctx, m0, m2, img, a) {
      if a < addr {
        assert WrittenByte(ctx, m0, m1, img, a);
      } else {
        assert ctx.regionAt(a) == ctx.regionAt(addr);
        if ctx.Writable(addr) {
          ChunkFrame(ctx.gran, ctx.ev, m0, m1, img, start, addr, a);
          assert ProgrammedByte(ctx.gran, ctx.ev, m1, m2, img, a);
        }
      }
    }
  }

  // ----- Verification -----------------------------------------------------------

  method CompareRange(want: Image, have: Image, start: nat, len: nat) returns (ret: int)
    requires start + len <= |want| && start + len <= |have|
    ensures ret == 0 || ret == -1
    ensures ret == 0 <==> Same(want, have, start, start + len)
  {
    var failcount := 0;
    for i := start to start + len
      invariant failcount >= 0
      invariant failcount == 0 <==> Same(want, have, start, i)
    {
      if want[i] != have[i] {
        failcount := failcount + 1;
      }
    }
    ret := if failcount != 0 then -1 else 0;
  }

  /** A byte that verification does not look at. */
  ghost predicate Ignored(ctx: Ctx, a: nat) {
    (ctx.skipUnwritable && !ctx.Writable(a)) || (ctx.skipUnreadable && !ctx.Readable(a))
  }

  /** An unreadable byte that is not to be ignored: verification ends here, with success. */
  ghost predicate GivesUp(ctx: Ctx, a: nat) {
    !Ignored(ctx, a) && !ctx.Readable(a)
  }

  /** Everything before `stop` matches or is ignored, and `stop` is the end or a byte at
      which verification gives up. */
  ghost predicate AcceptedUpTo(ctx: Ctx, cmp: Image, mem: Image, start: nat, stop: nat, end: nat) {
    && start <= stop <= end <= |cmp| == |mem|
    && (stop < end ==> GivesUp(ctx, stop))
    && forall a: nat | start <= a < stop :: cmp[a] == mem[a] || Ignored(ctx, a)
  }

  ghost predicate Verified(ctx: Ctx, cmp: Image, mem: Image, start: nat, end: nat) {
    exists stop: nat :: AcceptedUpTo(ctx, cmp, mem, start, stop, end)
  }

  /** How many reads verification of `[lo, hi)` needs if everything matches: one for each
      region that is not ignored, up to the one at which it gives up. */
  ghost function Checks(ctx: Ctx, lo: nat, hi: nat): nat
    requires ctx.Honest() && hi <= ctx.size
    decreases hi - lo
  {
    if lo >= hi || GivesUp(ctx, lo) then 0
    else
      assert ctx.HonestAt(lo);
      Checks(ctx, Min(hi, ctx.regionAt(lo).end + 1), hi) + if Ignored(ctx, lo) then 0 else 1
  }

  /** Success means exactly that everything matches up to the first byte at which the code
      gives up, and that no read until then fails. */
  method VerifyRange(ctx: Ctx, chip: Chip, cmp: Image, start: nat, len: nat) returns (ret: int)
    requires ctx.Honest() && Attached(ctx, chip) && |cmp| == ctx.size
    modifies chip`step, chip`readFaults
    ensures ret == 0 || ret == -1
    ensures Attached(ctx, chip) && chip.readFaults >= old(chip.readFaults)
    ensures ret == 0 ==> chip.readFaults == old(chip.readFaults)
    ensures chip.readFaults == old(chip.readFaults) ==>
              (ret == 0 <==> 0 < len && start + len <= ctx.size && Verified(ctx, cmp, chip.mem, start, start + len))
    ensures ret == 0 <==>
              && 0 < len && start + len <= ctx.size && Verified(ctx, cmp, chip.mem, start, start + len)
              && chip.Completes(old(chip.step), Checks(ctx, start, start + len))
  {
    if len == 0 || start + len > ctx.size {
      return -1;
    }
    var readbuf := new byte[ctx.size](_ => 0);
    var addr := start;
    var end := start + len;
    while addr < end
      invariant start <= addr <= end && fresh(readbuf) && Attached(ctx, chip)
      invariant chip.readFaults == old(chip.readFaults)
      invariant Passed(ctx, cmp, chip.mem, start, addr)
      invariant chip.step + Checks(ctx, addr, end) == old(chip.step) + Checks(ctx, start, end)
      invariant old(chip.step) <= chip.step && chip.Completes(old(chip.step), chip.step - old(chip.step))
    {
      var region := ctx.regionAt(addr);
      var next := Min(end, region.end + 1);
      WalkStep(ctx, addr, end, next);
      if (region.writeProt && ctx.skipUnwritable) || (region.readProt && ctx.skipUnreadable) {
        PassOn(ctx, cmp, chip.mem, start, addr, next);
        addr := next;
        continue;
      }
      if region.readProt {
        assert AcceptedUpTo(ctx, cmp, chip.mem, start, addr, end);
        return 0;
      }
      ghost var n := chip.step;
      ret := VerifyPiece(ctx, chip, cmp, readbuf, addr, next);
      if ret != 0 {
        if chip.oracle(n).done {
          MismatchFound(ctx, cmp, chip.mem, start, addr, next, end);
        }
        return -1;
      }
      PassOn(ctx, cmp, chip.mem, start, addr, next);
      addr := next;
    }
    var stop: nat := end;
    assert AcceptedUpTo(ctx, cmp, chip.mem, start, stop, stop);
    return 0;
  }

  /** Part of one readable region: read and compared. */
  method VerifyPiece(ctx: Ctx, chip: Chip, cmp: Image, readbuf: array<byte>, addr: nat, next: nat) returns (ret: int)
    requires ctx.Honest() && Attached(ctx, chip) && |cmp| == ctx.size == readbuf.Length && ctx.Readable(addr)
    requires addr < next <= ctx.size && next <= ctx.regionAt(addr).end + 1 && OneRegion(ctx, addr, next)
    modifies chip`step, chip`readFaults, readbuf
    ensures Attached(ctx, chip) && chip.readFaults >= old(chip.readFaults)
    ensures ret == 0 ==> chip.step == old(chip.step) + 1
    ensures chip.readFaults == old(chip.readFaults) <==> chip.oracle(old(chip.step)).done
    ensures ret == 0 <==> chip.oracle(old(chip.step)).done && Same(cmp, chip.mem, addr, next)
  {
    OneRead(ctx, addr, next);
    ret := ReadFlash(ctx, chip, readbuf, addr, next - addr);
    if ret != 0 {
      return -1;
    }
    ret := CompareRange(cmp, readbuf[..], addr, next - addr);
    SegmentRead(ctx, cmp, chip.mem, readbuf[..], addr, next);
  }

  lemma OneRead(ctx: Ctx, addr: nat, next: nat)
    requires ctx.Honest() && addr < next <= ctx.size && next <= ctx.regionAt(addr).end + 1 && ctx.Readable(addr)
    ensures Reads(ctx, addr, next) == 1
  {
    assert Reads(ctx, next, next) == 0;
  }

  lemma MismatchFound(ctx: Ctx, cmp: Image, mem: Image, start: nat, addr: nat, next: nat, end: nat)
    requires start <= addr < next <= end <= |cmp| == |mem| && !Same(cmp, mem, addr, next)
    requires Passed(ctx, cmp, mem, start, addr) && OneRegion(ctx, addr, next)
    requires !Ignored(ctx, addr) && !GivesUp(ctx, addr)
    ensures !Verified(ctx, cmp, mem, start, end)
  {
    forall a: nat | addr <= a < next ensures !Ignored(ctx, a) && !GivesUp(ctx, a) {
      assert ctx.regionAt(a) == ctx.regionAt(addr);
    }
  }

  /** Bytes that verification has passed. */
  ghost predicate Passed(ctx: Ctx, cmp: Image, mem: Image, lo: nat, hi: nat) {
    && hi <= |cmp| == |mem|
    && forall a: nat | lo <= a < hi :: (cmp[a] == mem[a] || Ignored(ctx, a)) && !GivesUp(ctx, a)
  }

  lemma PassOn(ctx: Ctx, cmp: Image, mem: Image, lo: nat, addr: nat, next: nat)
    requires Passed(ctx, cmp, mem, lo, addr) && addr < next <= |cmp| && OneRegion(ctx, addr, next)
    requires Ignored(ctx, addr) || (!GivesUp(ctx, addr) && Same(cmp, mem, addr, next))
    ensures Passed(ctx, cmp, mem, lo, next)
  {
    forall a: nat | addr <= a < next
      ensures (cmp[a] == mem[a] || Ignored(ctx, a)) && !GivesUp(ctx, a)
    {
      assert ctx.regionAt(a) == ctx.regionAt(addr);
    }
  }

  lemma SegmentRead(ctx: Ctx, cmp: Image, mem: Image, buf: Image, addr: nat, next: nat)
    requires addr < next <= |cmp| && OneRegion(ctx, addr, next) && ctx.Readable(addr)
    requires ReadBack(ctx, mem, buf, addr, next)
    ensures Same(cmp, buf, addr, next) <==> Same(cmp, mem, addr, next)
  {
    forall a: nat | addr <= a < next ensures buf[a] == mem[a] {
      assert ReadByte(ctx, mem, buf, a) && ctx.regionAt(a) == ctx.regionAt(addr);
    }
  }

  /** Unless a read fails, success means erased in the sense of verify_range. */
  method CheckErasedRange(ctx: Ctx, chip: Chip, start: nat, len: nat) returns (ret: int)
    requires ctx.Honest() && Attached(ctx, chip)
    modifies chip`step, chip`readFaults
    ensures ret == 0 || ret == -1
    ensures Attached(ctx, chip) && chip.readFaults >= old(chip.readFaults)
    ensures ret == 0 ==> chip.readFaults == old(chip.readFaults)
    ensures chip.readFaults == old(chip.readFaults) ==>
              (ret == 0 <==>
                0 < len && start + len <= ctx.size && Verified(ctx, Blank(ctx), chip.mem, start, start + len))
    ensures ret != 0 && 0 < len && start + len <= ctx.size && Filled(chip.mem, ctx.ev, start, start + len) ==>
              chip.readFaults > old(chip.readFaults)
    ensures ret == 0 <==>
              && 0 < len && start + len <= ctx.size && Verified(ctx, Blank(ctx), chip.mem, start, start + len)
              && chip.Completes(old(chip.step), Checks(ctx, start, start + len))
    ensures 0 < len && start + len <= ctx.size && Filled(chip.mem, ctx.ev, start, start + len) ==>
              (ret == 0 <==> chip.Completes(old(chip.step), Checks(ctx, start, start + len)))
  {
    var cmp := seq(ctx.size, _ => ctx.ev);
    assert cmp == Blank(ctx);
    ret := VerifyRange(ctx, chip, cmp, start, len);
    if start + len <= ctx.size && Filled(chip.mem, ctx.ev, start, start + len) {
      var stop: nat := start + len;
      assert AcceptedUpTo(ctx, cmp, chip.mem, start, stop, stop);
    }
  }

  /** The image of an erased chip. */
  function Blank(ctx: Ctx): (b: Image)
    ensures |b| == ctx.size && Filled(b, ctx.ev, 0, ctx.size)
  {
    seq(ctx.size, _ => ctx.ev)
  }

  // ----- A run that stops too early -----------------------------------------------------

  /** Byte 0 cannot be read. */
  function HiddenFirst(a: nat): Region {
    if a == 0 then Region(0, 0, true, false) else Region(1, 1, false, false)
  }

  const HiddenCtx := Ctx(2, Gran1Bit, 0xFF, 0, false, false, false, HiddenFirst)

  /** verify_range accepts a chip whose readable byte 1 differs from what is wanted. */
  method VerifyOverlooks() returns (chip: Chip, cmp: Image, ret: int)
    ensures HiddenCtx.Honest() && Attached(HiddenCtx, chip) && |cmp| == |chip.mem| == 2 && chip.readFaults == 0
    ensures ret == 0 && HiddenCtx.Readable(1) && cmp[1] != chip.mem[1]
  {
    chip := new Chip([0x00, 0x00], Gran1Bit, 0xFF, n => Outcome(true, _ => 0));
    forall a: nat | a < 2 ensures HiddenCtx.HonestAt(a) {
    }
    cmp := [0x00, 0x01];
    ret := VerifyRange(HiddenCtx, chip, cmp, 0, 2);
    assert chip.Reliable();
    assert AcceptedUpTo(HiddenCtx, cmp, chip.mem, 0, 0, 2);
  }
}
