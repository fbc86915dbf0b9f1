/** Erasing the selected blocks of one writable stretch of the chip and programming the
    chunks that differ (erasure_layout.c: erase_write_helper). */
module EraseHelper {
  import opened Granularity
  import opened EraseBlocks
  import opened Selection
  import opened Planner
  import opened Flash
  import opened RegionWalk
  import opened WritePhase

  // ----- Log predicates ----------------------------------------------------------

  /** Every log entry from `from` on touches writable bytes of `[lo, hi)` only. */
  ghost predicate OpsWithin(ctx: Ctx, log: seq<Op>, from: nat, lo: nat, hi: nat) {
    forall i | from <= i < |log| :: lo <= log[i].start && log[i].end <= hi && AllWritable(ctx, log[i].start, log[i].end)
  }

  /** Every program command from entry `from` on obeyed the NOR rule. */
  ghost predicate Lawful(log: seq<Op>, from: nat) {
    forall i | from <= i < |log| :: log[i].Program? ==> log[i].legal
  }

  ghost predicate ErasesOnly(log: seq<Op>, from: nat) {
    forall i | from <= i < |log| :: log[i].Erase?
  }

  /** The commands from entry `from` on. */
  ghost function Issued(log: seq<Op>, from: nat): set<Op> {
    set i | from <= i < |log| :: log[i]
  }

  // ----- Erase phase --------------------------------------------------------------

  /** `m1` is `m0` with the blocks of `s` erased. */
  ghost predicate WipedBy(q: Job, s: set<Node>, m0: Image, m1: Image, ev: byte) {
    && |m1| == |m0|
    && forall a: nat | a < |m0| :: m1[a] == if Covered(q, s, a) then ev else m0[a]
  }

  lemma WipeOne(q: Job, s: set<Node>, n: Node, m0: Image, m1: Image, m2: Image, ev: byte)
    requires q.Has(n) && WipedBy(q, s, m0, m1, ev) && q.At(n).end < |m0|
    requires OnlyWithin(m1, m2, q.At(n).start, q.At(n).end + 1)
    requires Filled(m2, ev, q.At(n).start, q.At(n).end + 1)
    ensures WipedBy(q, s + {n}, m0, m2, ev)
  {
    forall a: nat | a < |m0| ensures m2[a] == if Covered(q, s + {n}, a) then ev else m0[a] {
      CoveredByOneMore(q, s, n, a);
    }
  }

  lemma CoveredByOneMore(q: Job, s: set<Node>, n: Node, a: nat)
    requires q.Has(n)
    ensures Covered(q, s + {n}, a) <==> Covered(q, s, a) || Holds(q.At(n), a)
  {
    assert n in s + {n};
    if Covered(q, s, a) {
      var m :| m in s && q.Has(m) && Holds(q.At(m), a);
      assert m in s + {n};
    }
  }

  ghost function EraseOp(q: Job, n: Node): Op
    requires q.Has(n)
  {
    Erase(q.At(n).start, q.At(n).end + 1)
  }

  /** The commands that erase the blocks of `s`. */
  ghost function EraseOps(q: Job, s: set<Node>): set<Op> {
    set n | n in s && q.Has(n) :: EraseOp(q, n)
  }

  /** One command for each block of `s` and nothing else. */
  ghost predicate ErasesExactly(q: Job, s: set<Node>, l0: seq<Op>, l1: seq<Op>) {
    l0 <= l1 && |l1| == |l0| + |s| && Issued(l1, |l0|) == EraseOps(q, s)
  }

  lemma ErasesOneMore(q: Job, s: set<Node>, n: Node, l0: seq<Op>, l1: seq<Op>)
    requires q.Has(n) && n !in s && ErasesExactly(q, s, l0, l1)
    ensures ErasesExactly(q, s + {n}, l0, l1 + [EraseOp(q, n)])
  {
    var op, l2 := EraseOp(q, n), l1 + [EraseOp(q, n)];
    assert Issued(l2, |l0|) == Issued(l1, |l0|) + {op} by {
      assert l2[|l1|] == op;
      assert forall i | |l0| <= i < |l1| :: l2[i] == l1[i];
    }
    assert EraseOps(q, s + {n}) == EraseOps(q, s) + {op};
  }

  /** What holds of every erase loop, also of one that stops with an error: only writable
      bytes of the region change, and only erase commands are issued. */
  ghost predicate EraseConfined(ctx: Ctx, lo: nat, hi: nat, m0: Image, m1: Image, c0: Image, c1: Image, l0: seq<Op>,
                                l1: seq<Op>) {
    && OnlyWithin(m0, m1, lo, hi + 1) && OnlyWithin(c0, c1, lo, hi + 1)
    && l0 <= l1 && OpsWithin(ctx, l1, |l0|, lo, hi + 1) && ErasesOnly(l1, |l0|)
  }

  /** State of the erase loop: the selected blocks `done` have been erased, by one command
      each, on the chip and in its image, and their flags are cleared. */
  ghost predicate ErasedSoFar(ctx: Ctx, q: Job, flags: set<Node>, m0: Image, m1: Image, c0: Image, c1: Image,
                              l0: seq<Op>, l1: seq<Op>, done: set<Node>)
    requires q.Ok()
  {
    && done <= SelAll(q) && flags == SelAll(q) - done
    && WipedBy(q, done, m0, m1, ctx.ev) && WipedBy(q, done, c0, c1, ctx.ev)
    && ErasesExactly(q, done, l0, l1)
    && EraseConfined(ctx, q.lo, q.hi, m0, m1, c0, c1, l0, l1)
  }

  ghost predicate EraseProgress(ctx: Ctx, q: Job, flags: set<Node>, m0: Image, m1: Image, c0: Image, c1: Image,
                                l0: seq<Op>, l1: seq<Op>)
    requires q.Ok()
  {
    exists done :: ErasedSoFar(ctx, q, flags, m0, m1, c0, c1, l0, l1, done)
  }

  lemma EraseStart(ctx: Ctx, q: Job, m0: Image, c0: Image, l0: seq<Op>)
    requires q.Ok()
    ensures EraseProgress(ctx, q, SelAll(q), m0, m0, c0, c0, l0, l0)
  {
    assert ErasedSoFar(ctx, q, SelAll(q), m0, m0, c0, c0, l0, l0, {});
  }

  /** One more erase command. */
  lemma EraseStep(ctx: Ctx, q: Job, flags: set<Node>, n: Node, m0: Image, m1: Image, m2: Image,
                  c0: Image, c1: Image, c2: Image, l0: seq<Op>, l1: seq<Op>, op: Op)
    requires q.Ok() && |m0| == |c0| == q.size && EraseProgress(ctx, q, flags, m0, m1, c0, c1, l0, l1)
    requires n in flags && q.Has(n) && op == Erase(q.At(n).start, q.At(n).end + 1) && AllWritable(ctx, q.lo, q.hi + 1)
    requires op.end <= |m2| && op.end <= |c2|
    requires OnlyWithin(m1, m2, op.start, op.end) && Filled(m2, ctx.ev, op.start, op.end)
    requires OnlyWithin(c1, c2, op.start, op.end) && Filled(c2, ctx.ev, op.start, op.end)
    ensures EraseProgress(ctx, q, flags - {n}, m0, m2, c0, c2, l0, l1 + [op])
  {
    var done :| ErasedSoFar(ctx, q, flags, m0, m1, c0, c1, l0, l1, done);
    IsBlock(q.levels, q.size, n.level, n.index);
    WipeOne(q, done, n, m0, m1, m2, ctx.ev);
    WipeOne(q, done, n, c0, c1, c2, ctx.ev);
    ErasesOneMore(q, done, n, l0, l1);
    EraseStepConfined(ctx, q, n, m0, m1, m2, c0, c1, c2, l0, l1, op);
    assert ErasedSoFar(ctx, q, flags - {n}, m0, m2, c0, c2, l0, l1 + [op], done + {n});
  }

  lemma EraseStepConfined(ctx: Ctx, q: Job, n: Node, m0: Image, m1: Image, m2: Image,
                          c0: Image, c1: Image, c2: Image, l0: seq<Op>, l1: seq<Op>, op: Op)
    requires q.Ok() && n in SelAll(q) && q.Has(n) && op == Erase(q.At(n).start, q.At(n).end + 1)
    requires AllWritable(ctx, q.lo, q.hi + 1) && EraseConfined(ctx, q.lo, q.hi, m0, m1, c0, c1, l0, l1)
    requires OnlyWithin(m1, m2, op.start, op.end) && OnlyWithin(c1, c2, op.start, op.end)
    ensures EraseConfined(ctx, q.lo, q.hi, m0, m2, c0, c2, l0, l1 + [op])
  {
    SelectionUseful(q, n);
    var l2 := l1 + [op];
    assert AllWritable(ctx, op.start, op.end);
    forall i | |l0| <= i < |l2|
      ensures l2[i].Erase? && q.lo <= l2[i].start && l2[i].end <= q.hi + 1 && AllWritable(ctx, l2[i].start, l2[i].end)
    {
      if i < |l1| {
        assert l2[i] == l1[i];
      }
    }
  }

  /** The erase command number `step` completes, and if it is to be verified so do the reads
      that follow. */
  ghost predicate EraseWorks(ctx: Ctx, chip: Chip, step: nat, b: Block)
    requires ctx.Honest() && b.end < ctx.size
  {
    chip.oracle(step).done && (ctx.verifyAfterWrite ==> chip.Completes(step + 1, Checks(ctx, b.start, b.end + 1)))
  }

  /** Issues one erase command and, if asked to, reads the block back. */
  method EraseDevice(ctx: Ctx, chip: Chip, b: Block) returns (ok: bool)
    requires ctx.Honest() && Attached(ctx, chip) && b.start <= b.end < ctx.size
    modifies chip
    ensures Attached(ctx, chip) && chip.log == old(chip.log) + [Erase(b.start, b.end + 1)]
    ensures OnlyWithin(old(chip.mem), chip.mem, b.start, b.end + 1)
    ensures ok ==> Filled(chip.mem, ctx.ev, b.start, b.end + 1)
    ensures chip.readFaults >= old(chip.readFaults) && chip.faults >= old(chip.faults)
    ensures ok <==> chip.Failures() == old(chip.Failures())
    ensures !ctx.verifyAfterWrite ==> chip.readFaults == old(chip.readFaults)
    ensures ok <==> EraseWorks(ctx, chip, old(chip.step), b)
  {
    var len := b.end - b.start + 1;
    ok := chip.EraseBlock(b.start, len);
    if ok && ctx.verifyAfterWrite {
      var bad := CheckErasedRange(ctx, chip, b.start, len);
      ok := bad == 0;
    }
  }

  /** Erases one block if it is flagged. */
  method EraseIfSelected(ctx: Ctx, chip: Chip, layout: EraseLayout, cur: array<byte>, k: nat, j: nat, skipped: bool,
                         ghost q: Job, ghost m0: Image, ghost c0: Image, ghost l0: seq<Op>)
                           returns (ok: bool, skipped': bool)
    requires EraseReady(ctx, chip, layout, cur, q) && |m0| == |c0| == ctx.size
    requires k < |layout.levels| && j < |layout.levels[k]|
    requires EraseProgress(ctx, q, layout.Flags(), m0, chip.mem, c0, cur[..], l0, chip.log)
    modifies chip, layout`selected, cur
    ensures Attached(ctx, chip) && layout.Valid()
    ensures !ok ==> EraseConfined(ctx, q.lo, q.hi, m0, chip.mem, c0, cur[..], l0, chip.log)
    ensures ok ==> layout.Flags() == old(layout.Flags()) - {Node(k, j)}
    ensures chip.readFaults >= old(chip.readFaults) && chip.faults >= old(chip.faults)
    ensures ok <==> chip.Failures() == old(chip.Failures())
    ensures !ctx.verifyAfterWrite ==> chip.readFaults == old(chip.readFaults)
    ensures old(chip.log) <= chip.log
    ensures ok ==> EraseProgress(ctx, q, layout.Flags(), m0, chip.mem, c0, cur[..], l0, chip.log)
    ensures ok ==> (skipped' <==> skipped && chip.log == old(chip.log))
    ensures layout.levels[k][j].end < ctx.size
    ensures ok <==> Node(k, j) !in old(layout.Flags()) || EraseWorks(ctx, chip, old(chip.step), layout.levels[k][j])
  {
    IsBlock(q.levels, q.size, k, j);
    skipped' := skipped;
    var chosen := layout.IsSelected(k, j);
    if !chosen {
      return true, skipped';
    }
    var b := layout.levels[k][j];
    ghost var n, flags := Node(k, j), layout.Flags();
    ghost var m1, c1, l1, op := chip.mem, cur[..], chip.log, Erase(b.start, b.end + 1);
    ok := EraseDevice(ctx, chip, b);
    if !ok {
      ghost var done :| ErasedSoFar(ctx, q, flags, m0, m1, c0, c1, l0, l1, done);
      EraseStepConfined(ctx, q, n, m0, m1, chip.mem, c0, c1, c1, l0, l1, op);
      return;
    }
    forall a | b.start <= a < b.end + 1 {
      cur[a] := ctx.ev;
    }
    EraseStep(ctx, q, flags, n, m0, m1, chip.mem, c0, c1, cur[..], l0, l1, op);
    layout.Mark(k, j, false);
    skipped' := false;
  }

  ghost predicate EraseReady(ctx: Ctx, chip: Chip, layout: EraseLayout, cur: array<byte>, q: Job)
    reads chip, layout
  {
    && ctx.Honest() && Attached(ctx, chip) && layout.Valid() && layout.size == ctx.size == cur.Length
    && q.Ok() && q.levels == layout.levels && q.size == ctx.size && AllWritable(ctx, q.lo, q.hi + 1)
  }

  /** Where the erase loop stands: nothing before block `j` of level `k` is flagged. */
  ghost predicate Passed(flags: set<Node>, k: nat, j: nat) {
    forall n | n in flags :: n.level > k || (n.level == k && n.index >= j)
  }

  /** The erase loop: erases all flagged blocks, one command each, and clears their flags. */
  method EraseSelected(ctx: Ctx, chip: Chip, layout: EraseLayout, cur: array<byte>, skipped: bool, ghost q: Job)
    returns (ok: bool, skipped': bool)
    requires EraseReady(ctx, chip, layout, cur, q) && layout.Flags() == SelAll(q)
    modifies chip, layout`selected, cur
    ensures Attached(ctx, chip) && layout.Valid()
    ensures EraseConfined(ctx, q.lo, q.hi, old(chip.mem), chip.mem, old(cur[..]), cur[..], old(chip.log), chip.log)
    ensures ok ==> layout.Flags() == {} && ErasesExactly(q, SelAll(q), old(chip.log), chip.log)
    ensures ok ==> WipedBy(q, SelAll(q), old(chip.mem), chip.mem, ctx.ev)
    ensures ok ==> WipedBy(q, SelAll(q), old(cur[..]), cur[..], ctx.ev)
    ensures ok ==> (skipped' <==> skipped && chip.log == old(chip.log))
    ensures chip.readFaults >= old(chip.readFaults) && chip.faults >= old(chip.faults)
    ensures ok <==> chip.Failures() == old(chip.Failures())
    ensures !ctx.verifyAfterWrite ==> chip.readFaults == old(chip.readFaults)
  {
    ghost var m0, c0, l0 := chip.mem, cur[..], chip.log;
    ok, skipped' := true, skipped;
    EraseStart(ctx, q, m0, c0, l0);
    for k := 0 to |layout.levels|
      invariant EraseReady(ctx, chip, layout, cur, q)
      invariant chip.readFaults == old(chip.readFaults) && chip.faults == old(chip.faults)
      invariant EraseProgress(ctx, q, layout.Flags(), m0, chip.mem, c0, cur[..], l0, chip.log)
      invariant Passed(layout.Flags(), k, 0) && l0 <= chip.log
      invariant ok && (skipped' <==> skipped && chip.log == l0)
    {
      ok, skipped' := EraseLevel(ctx, chip, layout, cur, k, skipped', q, m0, c0, l0);
      if !ok {
        return;
      }
    }
    FlagsExist(layout, |layout.levels|);
    EraseFinish(ctx, q, layout.Flags(), m0, chip.mem, c0, cur[..], l0, chip.log);
  }

  /** No flag left means that the whole selection is erased. */
  lemma EraseFinish(ctx: Ctx, q: Job, flags: set<Node>, m0: Image, m1: Image, c0: Image, c1: Image, l0: seq<Op>,
                    l1: seq<Op>)
    requires q.Ok() && flags == {} && EraseProgress(ctx, q, flags, m0, m1, c0, c1, l0, l1)
    ensures WipedBy(q, SelAll(q), m0, m1, ctx.ev) && WipedBy(q, SelAll(q), c0, c1, ctx.ev)
    ensures ErasesExactly(q, SelAll(q), l0, l1) && EraseConfined(ctx, q.lo, q.hi, m0, m1, c0, c1, l0, l1)
  {
    var done :| ErasedSoFar(ctx, q, flags, m0, m1, c0, c1, l0, l1, done);
    forall n | n in SelAll(q) ensures n in done {
      assert n !in flags;
    }
    assert done == SelAll(q);
  }

  method EraseLevel(ctx: Ctx, chip: Chip, layout: EraseLayout, cur: array<byte>, k: nat, skipped: bool,
                    ghost q: Job, ghost m0: Image, ghost c0: Image, ghost l0: seq<Op>)
                      returns (ok: bool, skipped': bool)
    requires EraseReady(ctx, chip, layout, cur, q) && |m0| == |c0| == ctx.size && k < |layout.levels|
    requires EraseProgress(ctx, q, layout.Flags(), m0, chip.mem, c0, cur[..], l0, chip.log)
    requires Passed(layout.Flags(), k, 0) && l0 <= chip.log
    modifies chip, layout`selected, cur
    ensures Attached(ctx, chip) && layout.Valid()
    ensures !ok ==> EraseConfined(ctx, q.lo, q.hi, m0, chip.mem, c0, cur[..], l0, chip.log)
    ensures ok ==> EraseProgress(ctx, q, layout.Flags(), m0, chip.mem, c0, cur[..], l0, chip.log)
    ensures ok ==> Passed(layout.Flags(), k + 1, 0)
    ensures chip.readFaults >= old(chip.readFaults) && chip.faults >= old(chip.faults)
    ensures ok <==> chip.Failures() == old(chip.Failures())
    ensures !ctx.verifyAfterWrite ==> chip.readFaults == old(chip.readFaults)
    ensures ok ==> (skipped' <==> skipped && chip.log == old(chip.log)) && old(chip.log) <= chip.log
  {
    ok, skipped' := true, skipped;
    ghost var l1 := chip.log;
    for j := 0 to |layout.levels[k]|
      invariant EraseReady(ctx, chip, layout, cur, q) && ok
      invariant chip.readFaults == old(chip.readFaults) && chip.faults == old(chip.faults)
      invariant EraseProgress(ctx, q, layout.Flags(), m0, chip.mem, c0, cur[..], l0, chip.log)
      invariant Passed(layout.Flags(), k, j)
      invariant l1 <= chip.log && (skipped' <==> skipped && chip.log == l1)
    {
      ok, skipped' := EraseIfSelected(ctx, chip, layout, cur, k, j, skipped', q, m0, c0, l0);
      if !ok {
        return;
      }
    }
    FlagsExist(layout, k);
  }

  /** No flag lies past the last block of a level. */
  lemma FlagsExist(layout: EraseLayout, k: nat)
    requires layout.Valid()
    ensures k < |layout.levels| && Passed(layout.Flags(), k, |layout.levels[k]|) ==> Passed(layout.Flags(), k + 1, 0)
    ensures k == |layout.levels| && Passed(layout.Flags(), k, 0) ==> layout.Flags() == {}
  {
    forall n | n in layout.Flags() ensures n.level < |layout.levels| && n.index < |layout.levels[n.level]| {
    }
  }

  // ----- What the erase phase leaves to the write phase -----------------------------

  /** The smallest block that holds `a` lies inside `[lo, hi]`. */
  ghost predicate Whole(lv: Level, lo: nat, hi: nat, a: nat) {
    exists i :: 0 <= i < |lv| && Holds(lv[i], a) && Within(lv[i], lo, hi)
  }

  /** A byte whose chunk needs an erase that it does not get, because its smallest
      erase block sticks out of `[lo, hi]`. */
  ghost predicate Stuck(ctx: Ctx, lv: Level, have: Image, want: Image, lo: nat, hi: nat, a: nat) {
    Bad(ctx.gran, ctx.ev, have, want, a) && !Whole(lv, lo, hi, a)
  }

  /** The planning problem of a stretch. */
  ghost predicate Poses(q: Job, ctx: Ctx, have: Image, want: Image) {
    && q.Ok() && q.size == ctx.size == |have| == |want| && BlocksOnGrid(q.levels[0], ctx.gran)
    && q.lo <= q.hi < q.size && OnGrid(q.lo, Stride(ctx.gran)) && OnGrid(q.hi + 1, Stride(ctx.gran))
    && q.need == Needs(q.levels, q.size, have, want, ctx.gran, ctx.ev)
  }

  /** Two bytes of one smallest block are erased together. */
  lemma CoverUniform(q: Job, s: set<Node>, i: nat, a: nat, b: nat)
    requires q.Ok() && i < |q.levels[0]| && Holds(q.levels[0][i], a) && Holds(q.levels[0][i], b)
    requires Covered(q, s, a)
    ensures Covered(q, s, b)
  {
    var n :| n in s && q.Has(n) && Holds(q.At(n), a);
    Laminar(q.levels, q.size, 0, i, n.level, n.index);
  }

  /** The chunk of a byte lies inside its smallest block. */
  lemma ChunkInBlock(q: Job, g: WriteGranularity, i: nat, a: nat)
    requires q.Ok() && BlocksOnGrid(q.levels[0], g) && i < |q.levels[0]| && Holds(q.levels[0][i], a)
    ensures q.levels[0][i].start <= Base(a, Stride(g)) && Base(a,
            Stride(g)) + Stride(g) <= q.levels[0][i].end + 1 <= q.size
  {
    IsBlock(q.levels, q.size, 0, i);
    BaseWithin(a, q.levels[0][i].start, q.levels[0][i].end + 1, Stride(g));
  }

  lemma CoveredIsWhole(q: Job, a: nat)
    requires q.Ok() && a < q.size && Covered(q, SelAll(q), a)
    ensures Whole(q.levels[0], q.lo, q.hi, a)
  {
    var n :| n in SelAll(q) && q.Has(n) && Holds(q.At(n), a);
    SelectionUseful(q, n);
    IsTiling(q.levels, q.size, 0);
    var i := TilingFind(q.levels[0], q.size, a);
    Laminar(q.levels, q.size, 0, i, n.level, n.index);
  }

  lemma BadIsCovered(q: Job, ctx: Ctx, have: Image, want: Image, a: nat)
    requires Poses(q, ctx, have, want) && a < q.size
    requires Whole(q.levels[0], q.lo, q.hi, a) && Bad(ctx.gran, ctx.ev, have, want, a)
    ensures Covered(q, SelAll(q), a)
  {
    var i :| 0 <= i < |q.levels[0]| && Holds(q.levels[0][i], a) && Within(q.levels[0][i], q.lo, q.hi);
    ChunkInBlock(q, ctx.gran, i, a);
    assert q.need[i];
    SelectionCovers(q, i);
    var n :| n in SelAll(q) && q.Has(n) && Contains(q, n, i);
    assert Holds(q.At(n), a);
  }

  /** After the erases, a chunk is bad exactly if it was stuck. */
  lemma BadAfterErase(q: Job, ctx: Ctx, c0: Image, c1: Image, want: Image, a: nat)
    requires Poses(q, ctx, c0, want) && ErasedOk(ctx.gran, ctx.ev) && q.lo <= a <= q.hi
    requires WipedBy(q, SelAll(q), c0, c1, ctx.ev)
    ensures Bad(ctx.gran, ctx.ev, c1, want, a) <==> Stuck(ctx, q.levels[0], c0, want, q.lo, q.hi, a)
  {
    IsTiling(q.levels, q.size, 0);
    var i := TilingFind(q.levels[0], q.size, a);
    ChunkInBlock(q, ctx.gran, i, a);
    var c := Base(a, Stride(ctx.gran));
    if Covered(q, SelAll(q), a) {
      CoveredIsWhole(q, a);
      forall b: nat | c <= b < c + Stride(ctx.gran) ensures c1[b] == ctx.ev {
        CoverUniform(q, SelAll(q), i, a, b);
      }
      ErasedNotBad(ctx.gran, ctx.ev, c1, want, c);
    } else {
      forall b: nat | c <= b < c + Stride(ctx.gran) ensures c1[b] == c0[b] {
        if Covered(q, SelAll(q), b) {
          CoverUniform(q, SelAll(q), i, b, a);
        }
      }
      ChunkSame(ctx.gran, ctx.ev, c0, c1, want, a);
      if Bad(ctx.gran, ctx.ev, c0, want, a) && Whole(q.levels[0], q.lo, q.hi, a) {
        BadIsCovered(q, ctx, c0, want, a);
      }
    }
  }

  // ----- erase_write_helper ---------------------------------------------------------

  /** What every run of the helper keeps, also one that stops with an error. */
  ghost predicate HelperSafe(ctx: Ctx, m0: Image, m1: Image, c0: Image, c1: Image, l0: seq<Op>, l1: seq<Op>, lo: nat,
                             hi: nat) {
    && OnlyWithin(m0, m1, lo, hi + 1) && OnlyWithin(c0, c1, lo, hi + 1)
    && l0 <= l1 && OpsWithin(ctx, l1, |l0|, lo, hi + 1)
  }

  /** What a successful run makes of one byte of the chip: erased chunks hold the wanted
      bytes, the others are what the write loop makes of them. */
  ghost predicate PlannedByte(ctx: Ctx, q: Job, m0: Image, m1: Image, have: Image, want: Image, a: nat)
    requires q.Ok() && |m1| == |m0| == |want| && a < |m0|
  {
    if Covered(q, SelAll(q), a) then m1[a] == want[a] else LoopByte(ctx.gran, ctx.ev, m0, m1, have, want, a)
  }

  /** An erased chunk, or one that may be programmed if it differs from the image. */
  ghost predicate PlannedLegal(ctx: Ctx, q: Job, mem: Image, have: Image, want: Image, a: nat)
    requires q.Ok()
  {
    Covered(q, SelAll(q), a) || LegalIfDiff(ctx.gran, ctx.ev, mem, have, want, a)
  }

  /** What a successful run achieves, for any image of the chip: the commands are one erase
      per selected block followed by the maximal runs of chunks that then differ; they all
      obey the NOR rule exactly if every differing chunk that was not erased allows it. */
  ghost predicate HelperDone(ctx: Ctx, q: Job, m0: Image, m1: Image, have: Image, c1: Image, want: Image, l0: seq<Op>,
                             l1: seq<Op>)
    requires Poses(q, ctx, have, want)
  {
    && |m0| == |m1| == |c1| == q.size
    && Granularity.Same(c1, want, q.lo, q.hi + 1)
    && Commands(ctx, q, have, want, l0, l1)
    && (forall a: nat | q.lo <= a <= q.hi :: PlannedByte(ctx, q, m0, m1, have, want, a))
    && (Lawful(l1, |l0|) <==> forall a: nat | q.lo <= a <= q.hi :: PlannedLegal(ctx, q, m0, have, want, a))
  }

  /** The helper has solved the planning problem of its stretch. */
  ghost predicate HelperOk(ctx: Ctx, levels: seq<Level>, m0: Image, m1: Image, have: Image, c1: Image, want: Image,
                           l0: seq<Op>, l1: seq<Op>, lo: nat, hi: nat)
  {
    exists q: Job ::
      && q.levels == levels && q.lo == lo && q.hi == hi && q.ratio == ctx.ratio
      && Poses(q, ctx, have, want)
      && HelperDone(ctx, q, m0, m1, have, c1, want, l0, l1)
  }

  ghost predicate Commands(ctx: Ctx, q: Job, have: Image, want: Image, l0: seq<Op>, l1: seq<Op>)
    requires Poses(q, ctx, have, want)
  {
    exists erases: seq<Op>, runs: seq<Op>, wiped: Image ::
      && l1 == l0 + erases + runs
      && ErasesExactly(q, SelAll(q), l0, l0 + erases)
      && WipedBy(q, SelAll(q), have, wiped, ctx.ev)
      && MaximalRuns(ctx.gran, wiped, want, q.lo, q.hi + 1, runs)
  }

  /** The erase phase has carried out the plan, on the chip and in its image. */
  ghost predicate ErasedAsPlanned(ctx: Ctx, q: Job, m0: Image, m1: Image, c0: Image, c1: Image, want: Image,
                                  l0: seq<Op>, l1: seq<Op>) {
    && Poses(q, ctx, c0, want) && |m0| == q.size
    && WipedBy(q, SelAll(q), c0, c1, ctx.ev) && WipedBy(q, SelAll(q), m0, m1, ctx.ev)
    && ErasesExactly(q, SelAll(q), l0, l1) && ErasesOnly(l1, |l0|)
  }

  lemma CombinePhases(ctx: Ctx, q: Job, m0: Image, m1: Image, m2: Image, c0: Image, c1: Image, c2: Image, want: Image,
                      l0: seq<Op>, l1: seq<Op>, l2: seq<Op>)
    requires ErasedOk(ctx.gran, ctx.ev) && ErasedAsPlanned(ctx, q, m0, m1, c0, c1, want, l0, l1)
    requires Progress(ctx, m1, m2, c1, c2, l1, l2, want, q.lo, q.hi + 1, q.hi + 1)
    ensures HelperDone(ctx, q, m0, m2, c0, c2, want, l0, l2)
  {
    var lo, hi := q.lo, q.hi;
    var runs :| ProgressWith(ctx, m1, m2, c1, c2, l1, l2, want, lo, hi + 1, hi + 1, runs);
    LogShape(ctx, q, c0, c1, want, l0, l1, l2, runs);
    RunsAccount(ctx.gran, ctx.ev, m1, c1, want, lo, hi + 1, runs);
    LawfulRuns(ctx, l0, l1, runs);
    CombineBytes(ctx, q, m0, m1, m2, c0, c1, want);
  }

  lemma CombineBytes(ctx: Ctx, q: Job, m0: Image, m1: Image, m2: Image, c0: Image, c1: Image, want: Image)
    requires Poses(q, ctx, c0, want) && ErasedOk(ctx.gran, ctx.ev) && |m0| == |m2| == q.size
    requires WipedBy(q, SelAll(q), c0, c1, ctx.ev) && WipedBy(q, SelAll(q), m0, m1, ctx.ev)
    requires Looped(ctx.gran, ctx.ev, m1, m2, c1, want, q.lo, q.hi + 1)
    ensures forall a: nat | q.lo <= a <= q.hi :: PlannedByte(ctx, q, m0, m2, c0, want, a)
    ensures LoopLegal(ctx.gran, ctx.ev, m1, c1, want, q.lo, q.hi + 1) <==>
              forall a: nat | q.lo <= a <= q.hi :: PlannedLegal(ctx, q, m0, c0, want, a)
  {
    forall a: nat | q.lo <= a <= q.hi
      ensures PlannedByte(ctx, q, m0, m2, c0, want, a)
      ensures LegalIfDiff(ctx.gran, ctx.ev, m1, c1, want, a) <==> PlannedLegal(ctx, q, m0, c0, want, a)
    {
      assert LoopByte(ctx.gran, ctx.ev, m1, m2, c1, want, a);
      CombineByte(ctx, q, m0, m1, m2, c0, c1, want, a);
    }
  }

  lemma CombineByte(ctx: Ctx, q: Job, m0: Image, m1: Image, m2: Image, c0: Image, c1: Image, want: Image, a: nat)
    requires Poses(q, ctx, c0, want) && ErasedOk(ctx.gran, ctx.ev) && |m0| == |m2| == q.size && q.lo <= a <= q.hi
    requires WipedBy(q, SelAll(q), c0, c1, ctx.ev) && WipedBy(q, SelAll(q), m0, m1, ctx.ev)
    requires LoopByte(ctx.gran, ctx.ev, m1, m2, c1, want, a)
    ensures PlannedByte(ctx, q, m0, m2, c0, want, a)
    ensures LegalIfDiff(ctx.gran, ctx.ev, m1, c1, want, a) <==> PlannedLegal(ctx, q, m0, c0, want, a)
  {
    var s := SelAll(q);
    WipedChunk(q, ctx, s, m0, m1, a);
    WipedChunk(q, ctx, s, c0, c1, a);
    if Covered(q, s, a) {
      LoopOverErased(ctx.gran, ctx.ev, m1, m2, c1, want, a);
    } else {
      LoopFrame(ctx.gran, ctx.ev, m0, m1, m2, c0, c1, want, a);
    }
  }

  /** A chunk that is erased on the chip and in the image ends up as wanted, legally. */
  lemma LoopOverErased(g: WriteGranularity, ev: byte, m1: Image, m2: Image, c1: Image, want: Image, a: nat)
    requires ErasedOk(g, ev) && |m1| == |m2| == |c1| == |want| && a < |m1|
    requires var c := Base(a, Stride(g));
             c + Stride(g) <= |m1| && Filled(m1, ev, c, c + Stride(g)) && Filled(c1, ev, c, c + Stride(g))
    requires LoopByte(g, ev, m1, m2, c1, want, a)
    ensures m2[a] == want[a] && LegalIfDiff(g, ev, m1, c1, want, a)
  {
    ErasedLegal(g, ev, m1, want, a);
    if !Diff(g, c1, want, a) {
      assert c1[a] == want[a];
    }
  }

  /** A chunk that the erase phase left alone is treated as before it. */
  lemma LoopFrame(g: WriteGranularity, ev: byte, m0: Image, m1: Image, m2: Image, c0: Image, c1: Image, want: Image,
                  a: nat)
    requires |m0| == |m1| == |m2| == |c0| == |c1| == |want| && a < |m0|
    requires var c := Base(a, Stride(g));
             c + Stride(g) <= |m0| && Granularity.Same(m0, m1, c, c + Stride(g))
               && Granularity.Same(c0, c1, c, c + Stride(g))
    ensures LoopByte(g, ev, m1, m2, c1, want, a) <==> LoopByte(g, ev, m0, m2, c0, want, a)
    ensures LegalIfDiff(g, ev, m1, c1, want, a) <==> LegalIfDiff(g, ev, m0, c0, want, a)
  {
    ChunkSame(g, ev, c0, c1, want, a);
    ChunkSame(g, ev, m0, m1, want, a);
    assert m1[a] == m0[a];
  }

  /** A chunk is wiped as a whole or not at all. */
  lemma WipedChunk(q: Job, ctx: Ctx, s: set<Node>, x: Image, x': Image, a: nat)
    requires q.Ok() && BlocksOnGrid(q.levels[0], ctx.gran) && a < q.size == |x| && WipedBy(q, s, x, x', ctx.ev)
    ensures var c := Base(a, Stride(ctx.gran));
            && c + Stride(ctx.gran) <= |x|
            && if Covered(q, s, a) then Filled(x', ctx.ev, c, c + Stride(ctx.gran))
               else Granularity.Same(x, x', c, c + Stride(ctx.gran))
  {
    IsTiling(q.levels, q.size, 0);
    var i := TilingFind(q.levels[0], q.size, a);
    ChunkInBlock(q, ctx.gran, i, a);
    var c := Base(a, Stride(ctx.gran));
    forall b: nat | c <= b < c + Stride(ctx.gran) ensures Covered(q, s, b) <==> Covered(q, s, a) {
      if Covered(q, s, a) {
        CoverUniform(q, s, i, a, b);
      } else if Covered(q, s, b) {
        CoverUniform(q, s, i, b, a);
      }
    }
  }

  lemma ErasedLegal(g: WriteGranularity, ev: byte, mem: Image, want: Image, a: nat)
    requires var c := Base(a, Stride(g)); c + Stride(g) <= |mem| == |want| && Filled(mem, ev, c, c + Stride(g))
    requires ErasedOk(g, ev)
    ensures Legal(g, ev, mem, want, a)
  {
    if g.Gran1Bit? {
      assert mem[Base(a, Stride(g))] == 0xFF;
    }
  }

  lemma LawfulRuns(ctx: Ctx, l0: seq<Op>, l1: seq<Op>, runs: seq<Op>)
    requires l0 <= l1 && ErasesOnly(l1, |l0|) && forall i | 0 <= i < |runs| :: runs[i].Program?
    ensures Lawful(l1 + runs, |l0|) <==> AllLawful(runs)
  {
    var l2 := l1 + runs;
    if Lawful(l2, |l0|) {
      forall i | 0 <= i < |runs| ensures runs[i].Program? && runs[i].legal {
        assert l2[|l1| + i] == runs[i];
      }
    }
    if AllLawful(runs) {
      forall i | |l0| <= i < |l2| ensures l2[i].Program? ==> l2[i].legal {
        assert l2[i] == if i < |l1| then l1[i] else runs[i - |l1|];
      }
    }
  }

  lemma LogShape(ctx: Ctx, q: Job, have: Image, wiped: Image, want: Image, l0: seq<Op>, l1: seq<Op>, l2: seq<Op>,
                 runs: seq<Op>)
    requires Poses(q, ctx, have, want) && WipedBy(q, SelAll(q), have, wiped, ctx.ev)
    requires ErasesExactly(q, SelAll(q), l0, l1) && l2 == l1 + runs
    requires MaximalRuns(ctx.gran, wiped, want, q.lo, q.hi + 1, runs)
    ensures Commands(ctx, q, have, want, l0, l2)
  {
    var erases := l1[|l0|..];
    assert l1 == l0 + erases && l2 == l0 + erases + runs;
  }

  method EraseWriteHelper(ctx: Ctx, chip: Chip, layout: EraseLayout, cur: array<byte>, new': array<byte>, lo: nat,
                          hi: nat, skipped: bool) returns (ret: int, skipped': bool)
    requires ctx.Honest() && Attached(ctx, chip) && layout.Valid() && layout.size == ctx.size
    requires cur.Length == new'.Length == ctx.size && cur != new' && layout.Flags() == {}
    requires BlocksOnGrid(layout.levels[0], ctx.gran) && ErasedOk(ctx.gran, ctx.ev)
    requires lo <= hi < ctx.size && WriteReady(ctx, lo, hi + 1)
    modifies chip, layout`selected, cur
    ensures ret == 0 || ret == -1
    ensures Attached(ctx, chip) && layout.Valid()
    ensures HelperSafe(ctx, old(chip.mem), chip.mem, old(cur[..]), cur[..], old(chip.log), chip.log, lo, hi)
    ensures ret == 0 ==> layout.Flags() == {}
    ensures chip.readFaults >= old(chip.readFaults) && chip.faults >= old(chip.faults)
    ensures ret == 0 <==> chip.Failures() == old(chip.Failures())
    ensures !ctx.verifyAfterWrite ==> chip.readFaults == old(chip.readFaults)
    ensures ret == 0 ==> HelperOk(ctx, layout.levels, old(chip.mem), chip.mem, old(cur[..]), cur[..], new'[..],
                                  old(chip.log), chip.log, lo, hi)
    ensures ret == 0 ==> (skipped' <==> skipped && chip.log == old(chip.log))
  {
    ghost var m0, c0, l0, want := chip.mem, cur[..], chip.log, new'[..];
    var ok;
    ok, skipped' := SelectAndErase(ctx, chip, layout, cur, new', lo, hi, skipped);
    ghost var m1, c1, l1 := chip.mem, cur[..], chip.log;
    if !ok {
      return -1, skipped';
    }
    ok, skipped' := WriteDiffering(ctx, chip, cur, new', lo, hi + 1, skipped');
    SafeJoin(ctx, m0, m1, chip.mem, c0, c1, cur[..], l0, l1, chip.log, lo, hi);
    if !ok {
      return -1, skipped';
    }
    JoinPhases(ctx, layout.levels, m0, m1, chip.mem, c0, c1, cur[..], want, l0, l1, chip.log, lo, hi);
    ret := 0;
  }

  /** The planned blocks are erased, on the chip and in its image. */
  ghost predicate ErasePhaseDone(ctx: Ctx, levels: seq<Level>, m0: Image, m1: Image, c0: Image, c1: Image, want: Image,
                                 l0: seq<Op>, l1: seq<Op>, lo: nat, hi: nat)
  {
    exists q: Job ::
      && q.levels == levels && q.lo == lo && q.hi == hi && q.ratio == ctx.ratio
      && ErasedAsPlanned(ctx, q, m0, m1, c0, c1, want, l0, l1)
  }

  /** The selection and erase loops of erase_write_helper. */
  method SelectAndErase(ctx: Ctx, chip: Chip, layout: EraseLayout, cur: array<byte>, new': array<byte>, lo: nat,
                        hi: nat, skipped: bool) returns (ok: bool, skipped': bool)
    requires ctx.Honest() && Attached(ctx, chip) && layout.Valid() && layout.size == ctx.size
    requires cur.Length == new'.Length == ctx.size && cur != new' && layout.Flags() == {}
    requires BlocksOnGrid(layout.levels[0], ctx.gran) && ErasedOk(ctx.gran, ctx.ev)
    requires lo <= hi < ctx.size && WriteReady(ctx, lo, hi + 1)
    modifies chip, layout`selected, cur
    ensures Attached(ctx, chip) && layout.Valid()
    ensures EraseConfined(ctx, lo, hi, old(chip.mem), chip.mem, old(cur[..]), cur[..], old(chip.log), chip.log)
    ensures ok ==> layout.Flags() == {}
    ensures chip.readFaults >= old(chip.readFaults) && chip.faults >= old(chip.faults)
    ensures ok <==> chip.Failures() == old(chip.Failures())
    ensures !ctx.verifyAfterWrite ==> chip.readFaults == old(chip.readFaults)
    ensures ok ==> ErasePhaseDone(ctx, layout.levels, old(chip.mem), chip.mem, old(cur[..]), cur[..], new'[..],
                                  old(chip.log), chip.log, lo, hi)
    ensures ok ==> (skipped' <==> skipped && chip.log == old(chip.log))
  {
    ghost var q := layout.JobFor(cur[..], new'[..], ctx.gran, ctx.ev, lo, hi, ctx.ratio);
    layout.SelectAll(cur, new', ctx.gran, ctx.ev, lo, hi, ctx.ratio);
    StretchWritable(ctx, lo, hi);
    ghost var m0, c0, l0 := chip.mem, cur[..], chip.log;
    ok, skipped' := EraseSelected(ctx, chip, layout, cur, skipped, q);
    if ok {
      assert ErasedAsPlanned(ctx, q, m0, chip.mem, c0, cur[..], new'[..], l0, chip.log);
    }
  }

  lemma JoinPhases(ctx: Ctx, levels: seq<Level>, m0: Image, m1: Image, m2: Image, c0: Image, c1: Image, c2: Image,
                   want: Image, l0: seq<Op>, l1: seq<Op>, l2: seq<Op>, lo: nat, hi: nat)
    requires ErasedOk(ctx.gran, ctx.ev) && ErasePhaseDone(ctx, levels, m0, m1, c0, c1, want, l0, l1, lo, hi)
    requires Progress(ctx, m1, m2, c1, c2, l1, l2, want, lo, hi + 1, hi + 1)
    ensures HelperOk(ctx, levels, m0, m2, c0, c2, want, l0, l2, lo, hi)
  {
    var q: Job :|
      && q.levels == levels && q.lo == lo && q.hi == hi && q.ratio == ctx.ratio
      && ErasedAsPlanned(ctx, q, m0, m1, c0, c1, want, l0, l1);
    CombinePhases(ctx, q, m0, m1, m2, c0, c1, c2, want, l0, l1, l2);
  }

  lemma StretchWritable(ctx: Ctx, lo: nat, hi: nat)
    requires OneRegion(ctx, lo, hi + 1) && ctx.Writable(lo)
    ensures AllWritable(ctx, lo, hi + 1)
  {
    forall a: nat | lo <= a < hi + 1 ensures ctx.Writable(a) {
      assert ctx.regionAt(a) == ctx.regionAt(lo);
    }
  }

  lemma SafeJoin(ctx: Ctx, m0: Image, m1: Image, m2: Image, c0: Image, c1: Image, c2: Image,
                 l0: seq<Op>, l1: seq<Op>, l2: seq<Op>, lo: nat, hi: nat)
    requires EraseConfined(ctx, lo, hi, m0, m1, c0, c1, l0, l1) && Confined(ctx, m1, m2, c1, c2, l1, l2, lo, hi + 1)
    ensures HelperSafe(ctx, m0, m2, c0, c2, l0, l2, lo, hi)
  {
    forall i | |l0| <= i < |l2|
      ensures lo <= l2[i].start && l2[i].end <= hi + 1 && AllWritable(ctx, l2[i].start, l2[i].end)
    {
      if i < |l1| {
        assert l2[i] == l1[i];
      }
    }
  }

  /** The result without the plan: `w` are the bytes of erased blocks.  They lie in blocks
      inside the stretch, and include every chunk there that needs an erase. */
  ghost predicate HelperByte(ctx: Ctx, lv: Level, m0: Image, m1: Image, have: Image, want: Image, lo: nat, hi: nat,
                             w: set<nat>, a: nat)
    requires |m1| == |m0| == |want| && a < |m0|
  {
    if a in w then
      Whole(lv, lo, hi, a) && m1[a] == want[a]
    else
      && !(Whole(lv, lo, hi, a) && Bad(ctx.gran, ctx.ev, have, want, a))
      && LoopByte(ctx.gran, ctx.ev, m0, m1, have, want, a)
  }

  ghost predicate HelperResult(ctx: Ctx, lv: Level, m0: Image, m1: Image, have: Image, want: Image,
                               l0: seq<Op>, l1: seq<Op>, lo: nat, hi: nat, w: set<nat>)
  {
    && |m1| == |m0| == |want| && hi < |m0|
    && (forall a: nat | lo <= a <= hi :: HelperByte(ctx, lv, m0, m1, have, want, lo, hi, w, a))
    && (Lawful(l1, |l0|) <==> forall a: nat | lo <= a <= hi :: SparedLegal(ctx, m0, have, want, w, a))
  }

  ghost predicate SparedLegal(ctx: Ctx, mem: Image, have: Image, want: Image, w: set<nat>, a: nat) {
    a in w || LegalIfDiff(ctx.gran, ctx.ev, mem, have, want, a)
  }

  /** What the caller goes on with. */
  ghost predicate HelperOutcome(ctx: Ctx, lv: Level, m0: Image, m1: Image, have: Image, c1: Image, want: Image,
                                l0: seq<Op>, l1: seq<Op>, lo: nat, hi: nat)
  {
    && |m1| == |m0| == |c1| == |want| && lo <= hi < |m0| && Granularity.Same(c1, want, lo, hi + 1)
    && HelperQuiet(ctx, m0, m1, have, want, l0, l1, lo, hi)
    && exists w: set<nat> :: HelperResult(ctx, lv, m0, m1, have, want, l0, l1, lo, hi, w)
  }

  /** No command means that nothing differed and the chip is as it was; and if nothing
      differs, no command is issued, unless the ratio lets whole blocks be sacrificed. */
  ghost predicate HelperQuiet(ctx: Ctx, m0: Image, m1: Image, have: Image, want: Image, l0: seq<Op>, l1: seq<Op>,
                              lo: nat, hi: nat)
  {
    && |m1| == |m0| == |have| == |want| && hi < |m0|
    && (l1 == l0 ==> Granularity.Same(have, want, lo, hi + 1) && Granularity.Same(m1, m0, lo, hi + 1))
    && (ctx.ratio < 100 && Granularity.Same(have, want, lo, hi + 1) ==> l1 == l0)
  }

  /** Where the images agree, no block is due, so none is selected. */
  lemma NothingSelected(ctx: Ctx, q: Job, have: Image, want: Image)
    requires Poses(q, ctx, have, want) && q.ratio < 100 && Granularity.Same(have, want, q.lo, q.hi + 1)
    ensures SelAll(q) == {}
  {
    forall i: nat | i < |q.levels[0]| ensures !q.Due(i) {
      IsBlock(q.levels, q.size, 0, i);
      NotDue(ctx, q, have, want, i);
    }
    forall n | n in SelAll(q) ensures false {
      SelectionUseful(q, n);
    }
  }

  lemma NotDue(ctx: Ctx, q: Job, have: Image, want: Image, i: nat)
    requires Poses(q, ctx, have, want) && Granularity.Same(have, want, q.lo, q.hi + 1) && i < |q.levels[0]|
    requires q.levels[0][i].start <= q.levels[0][i].end < q.size
    ensures !q.Due(i)
  {
    var b := q.levels[0][i];
    if q.Inside(b) {
      forall c: nat | b.start <= c && c + Stride(ctx.gran) <= b.end + 1
        ensures !BadAt(ctx.gran, ctx.ev, have, want, c)
      {
        if BadAt(ctx.gran, ctx.ev, have, want, c) {
          BadDiffers(ctx.gran, ctx.ev, have, want, c);
        }
      }
    }
  }

  lemma NothingErased(q: Job, s: set<Node>, x: Image, x': Image, ev: byte)
    requires s == {} && WipedBy(q, s, x, x', ev)
    ensures x' == x
  {
  }

  /** A run of the helper that issues no command. */
  lemma NoCommands(ctx: Ctx, q: Job, m0: Image, m1: Image, have: Image, c1: Image, want: Image, l0: seq<Op>)
    requires Poses(q, ctx, have, want) && HelperDone(ctx, q, m0, m1, have, c1, want, l0, l0)
    ensures Granularity.Same(have, want, q.lo, q.hi + 1) && Granularity.Same(m1, m0, q.lo, q.hi + 1)
  {
    var erases: seq<Op>, runs: seq<Op>, wiped: Image :|
      && l0 == l0 + erases + runs
      && ErasesExactly(q, SelAll(q), l0, l0 + erases)
      && WipedBy(q, SelAll(q), have, wiped, ctx.ev)
      && MaximalRuns(ctx.gran, wiped, want, q.lo, q.hi + 1, runs);
    assert |erases| == 0 && |runs| == 0 && SelAll(q) == {};
    NothingErased(q, SelAll(q), have, wiped, ctx.ev);
    forall a: nat | q.lo <= a < q.hi + 1 ensures have[a] == want[a] && m1[a] == m0[a] {
      assert !InRuns(runs, a) && !Diff(ctx.gran, have, want, a);
      BaseWithin(a, q.lo, q.hi + 1, Stride(ctx.gran));
      assert PlannedByte(ctx, q, m0, m1, have, want, a);
    }
  }

  /** Where nothing differs, no command is issued. */
  lemma NothingToDo(ctx: Ctx, q: Job, have: Image, want: Image, l0: seq<Op>, l1: seq<Op>)
    requires Poses(q, ctx, have, want) && Commands(ctx, q, have, want, l0, l1)
    requires q.ratio < 100 && Granularity.Same(have, want, q.lo, q.hi + 1)
    ensures l1 == l0
  {
    NothingSelected(ctx, q, have, want);
    var erases: seq<Op>, runs: seq<Op>, wiped: Image :|
      && l1 == l0 + erases + runs
      && ErasesExactly(q, SelAll(q), l0, l0 + erases)
      && WipedBy(q, SelAll(q), have, wiped, ctx.ev)
      && MaximalRuns(ctx.gran, wiped, want, q.lo, q.hi + 1, runs);
    NothingErased(q, SelAll(q), have, wiped, ctx.ev);
    if runs != [] {
      var op := runs[0];
      RunDiffers(ctx.gran, have, want, op.start, op.end, op.start);
      SameNotDiff(ctx.gran, ctx.ev, have, want, q.lo, q.hi + 1, op.start);
      assert false;
    }
  }

  lemma HelperFacts(ctx: Ctx, levels: seq<Level>, m0: Image, m1: Image, have: Image, c1: Image, want: Image,
                    l0: seq<Op>, l1: seq<Op>, lo: nat, hi: nat)
    requires HelperOk(ctx, levels, m0, m1, have, c1, want, l0, l1, lo, hi) && |levels| > 0
    ensures HelperOutcome(ctx, levels[0], m0, m1, have, c1, want, l0, l1, lo, hi)
  {
    var q: Job :|
      && q.levels == levels && q.lo == lo && q.hi == hi && q.ratio == ctx.ratio
      && Poses(q, ctx, have, want)
      && HelperDone(ctx, q, m0, m1, have, c1, want, l0, l1);
    var w := set a: nat | a < q.size && Covered(q, SelAll(q), a);
    forall a: nat | lo <= a <= hi
      ensures HelperByte(ctx, levels[0], m0, m1, have, want, lo, hi, w, a)
      ensures PlannedLegal(ctx, q, m0, have, want, a) <==> SparedLegal(ctx, m0, have, want, w, a)
    {
      assert PlannedByte(ctx, q, m0, m1, have, want, a);
      ForgetPlan(ctx, q, m0, m1, have, want, w, a);
    }
    assert HelperResult(ctx, levels[0], m0, m1, have, want, l0, l1, lo, hi, w);
    QuietFacts(ctx, q, m0, m1, have, c1, want, l0, l1);
  }

  lemma QuietFacts(ctx: Ctx, q: Job, m0: Image, m1: Image, have: Image, c1: Image, want: Image, l0: seq<Op>,
                   l1: seq<Op>)
    requires Poses(q, ctx, have, want) && q.ratio == ctx.ratio && HelperDone(ctx, q, m0, m1, have, c1, want, l0, l1)
    ensures HelperQuiet(ctx, m0, m1, have, want, l0, l1, q.lo, q.hi)
  {
    if l1 == l0 {
      NoCommands(ctx, q, m0, m1, have, c1, want, l0);
    }
    if ctx.ratio < 100 && Granularity.Same(have, want, q.lo, q.hi + 1) {
      NothingToDo(ctx, q, have, want, l0, l1);
    }
  }

  lemma ForgetPlan(ctx: Ctx, q: Job, m0: Image, m1: Image, have: Image, want: Image, w: set<nat>, a: nat)
    requires Poses(q, ctx, have, want) && |m0| == |m1| == q.size && q.lo <= a <= q.hi
    requires a in w <==> Covered(q, SelAll(q), a)
    requires PlannedByte(ctx, q, m0, m1, have, want, a)
    ensures HelperByte(ctx, q.levels[0], m0, m1, have, want, q.lo, q.hi, w, a)
  {
    if a in w {
      CoveredIsWhole(q, a);
    } else if Whole(q.levels[0], q.lo, q.hi, a) && Bad(ctx.gran, ctx.ev, have, want, a) {
      BadIsCovered(q, ctx, have, want, a);
    }
  }
}
