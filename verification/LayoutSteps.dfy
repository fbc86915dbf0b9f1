/** Writing the included entries of a layout one after the other: the run that succeeds
    everywhere, computed beforehand, and how a real run compares with it (flashrom.c: the
    loops of erase_by_layout and write_by_layout). */
module LayoutSteps {
  import opened Granularity
  import opened EraseBlocks
  import opened Flash
  import opened EraseHelper
  import opened EraseWrite
  import opened EraseWriteTheorems
  import opened Layout

  ghost predicate Fits(ctx: Ctx, levels: seq<Level>, l: seq<Entry>, m0: Image, c0: Image, want: Image) {
    && ValidLayout(levels, ctx.size) && Sane(l, ctx.size) && |m0| == |c0| == |want| == ctx.size
    && ErasedOk(ctx.gran, ctx.ev)
  }

  // ----- The intended run ------------------------------------------------------------------

  /** The chip after the first `n` entries, if all goes well. */
  ghost function After(ctx: Ctx, l: seq<Entry>, n: nat, m0: Image, want: Image): (m: Image)
    requires n <= |l| && |m0| == |want|
    ensures |m| == |m0|
    ensures forall a: nat | a < |m0| :: m[a] == if InUnion(l[..n], a) && ctx.Writable(a) then want[a] else m0[a]
  {
    seq(|m0|, a requires 0 <= a < |m0| => if InUnion(l[..n], a) && ctx.Writable(a) then want[a] else m0[a])
  }

  /** The image of the chip after the first `n` entries, if all goes well. */
  ghost function ImageAt(ctx: Ctx, levels: seq<Level>, l: seq<Entry>, n: nat, m0: Image, c0: Image,
                         want: Image): (c: Image)
    requires n <= |l| && Fits(ctx, levels, l, m0, c0, want)
    ensures |c| == |m0|
  {
    if n == 0 then c0
    else
      var e, c := l[n - 1], ImageAt(ctx, levels, l, n - 1, m0, c0, want);
      if !e.included then c
      else
        NextImage(ctx, After(ctx, l, n - 1, m0, want), c, want, e.start, e.end,
                  AlignedStart(levels, ctx.size, e.start), AlignedEnd(levels, ctx.size, e.end))
  }

  /** Entry `n` obeys the NOR rule in the intended run. */
  ghost predicate StepLegal(ctx: Ctx, levels: seq<Level>, l: seq<Entry>, n: nat, m0: Image, c0: Image, want: Image)
    requires n < |l| && Fits(ctx, levels, l, m0, c0, want)
  {
    l[n].included ==>
      RegionLegal(ctx, levels, After(ctx, l, n, m0, want), ImageAt(ctx, levels, l, n, m0, c0, want), want, l[n].start,
                  l[n].end)
  }

  ghost predicate StepsLegal(ctx: Ctx, levels: seq<Level>, l: seq<Entry>, n: nat, m0: Image, c0: Image, want: Image)
    requires n <= |l| && Fits(ctx, levels, l, m0, c0, want)
  {
    n == 0 || (StepsLegal(ctx, levels, l, n - 1, m0, c0, want) && StepLegal(ctx, levels, l, n - 1, m0, c0, want))
  }

  lemma {:induction false} StepsLegalAt(ctx: Ctx, levels: seq<Level>, l: seq<Entry>, n: nat, m0: Image, c0: Image,
                                        want: Image, i: nat)
    requires i < n <= |l| && Fits(ctx, levels, l, m0, c0, want) && StepsLegal(ctx, levels, l, n, m0, c0, want)
    ensures StepLegal(ctx, levels, l, i, m0, c0, want)
  {
    if i < n - 1 {
      StepsLegalAt(ctx, levels, l, n - 1, m0, c0, want, i);
    }
  }

  lemma UnionGrows(l: seq<Entry>, n: nat, a: nat)
    requires n < |l|
    ensures InUnion(l[..n + 1], a) <==> InUnion(l[..n], a) || Covers(l[n], a)
    ensures Covers(l[n], a) ==> InUnion(l, a)
  {
    if InUnion(l[..n], a) {
      var j :| 0 <= j < |l[..n]| && Covers(l[..n][j], a);
      assert l[..n + 1][j] == l[..n][j];
    }
    if Covers(l[n], a) {
      assert l[..n + 1][n] == l[n];
    }
    if InUnion(l[..n + 1], a) {
      var j :| 0 <= j < |l[..n + 1]| && Covers(l[..n + 1][j], a);
      assert j < n ==> l[..n][j] == l[..n + 1][j];
    }
  }

  /** The next state of the chip is what erase_write aims at. */
  lemma AfterGrows(ctx: Ctx, l: seq<Entry>, n: nat, m0: Image, want: Image, a: nat)
    requires n < |l| && |m0| == |want| && a < |m0|
    ensures var m := After(ctx, l, n, m0, want);
            After(ctx, l, n + 1, m0, want)[a] == if l[n].included then Goal(ctx, m, want, l[n].start, l[n].end, a)
                  else m[a]
  {
    UnionGrows(l, n, a);
  }

  // ----- Plausible images -------------------------------------------------------------------

  ghost predicate UnionPlausible(ctx: Ctx, l: seq<Entry>, mem: Image, have: Image, want: Image) {
    && |mem| == |have| == |want|
    && forall a: nat | a < |mem| && InUnion(l, a) :: Plausible(ctx, mem, have, want, a)
  }

  /** The image stays plausible for the entries still to come, even if they overlap or share
      erase blocks with those already written. */
  lemma {:induction false} StaysPlausible(ctx: Ctx, levels: seq<Level>, l: seq<Entry>, n: nat, m0: Image, c0: Image,
                                          want: Image)
    requires n <= |l| && Fits(ctx, levels, l, m0, c0, want) && UnionPlausible(ctx, l, m0, c0, want)
    ensures UnionPlausible(ctx, l, After(ctx, l, n, m0, want), ImageAt(ctx, levels, l, n, m0, c0, want), want)
  {
    if n > 0 {
      StaysPlausible(ctx, levels, l, n - 1, m0, c0, want);
      var m, c := After(ctx, l, n - 1, m0, want), ImageAt(ctx, levels, l, n - 1, m0, c0, want);
      var m', c' := After(ctx, l, n, m0, want), ImageAt(ctx, levels, l, n, m0, c0, want);
      forall a: nat | a < |m0| && InUnion(l, a) ensures Plausible(ctx, m', c', want, a) {
        AfterGrows(ctx, l, n - 1, m0, want, a);
        assert Plausible(ctx, m, c, want, a);
      }
    } else {
      forall a: nat | a < |m0| ensures After(ctx, l, 0, m0, want)[a] == m0[a] {
        assert l[..0] == [];
      }
    }
  }

  lemma EntryPlausible(ctx: Ctx, l: seq<Entry>, n: nat, mem: Image, have: Image, want: Image)
    requires n < |l| && l[n].included && l[n].end < |mem| && UnionPlausible(ctx, l, mem, have, want)
    ensures AllPlausible(ctx, mem, have, want, l[n].start, l[n].end + 1)
  {
    forall a: nat | l[n].start <= a < l[n].end + 1 ensures Plausible(ctx, mem, have, want, a) {
      UnionGrows(l, n, a);
    }
  }

  // ----- The real run ------------------------------------------------------------------------

  /** After `n` entries: the commands were lawful exactly if the intended run is legal so far,
      and then the chip and its image are where it is. */
  ghost predicate Walk(ctx: Ctx, levels: seq<Level>, l: seq<Entry>, n: nat, m0: Image, m1: Image, c0: Image, c1: Image,
                       want: Image, l0: seq<Op>, l1: seq<Op>)
    requires n <= |l| && Fits(ctx, levels, l, m0, c0, want)
  {
    && l0 <= l1 && |m1| == |c1| == ctx.size
    && (Lawful(l1, |l0|) <==> StepsLegal(ctx, levels, l, n, m0, c0, want))
    && (StepsLegal(ctx, levels, l, n, m0, c0, want) ==>
          m1 == After(ctx, l, n, m0, want) && c1 == ImageAt(ctx, levels, l, n, m0, c0, want))
  }

  lemma WalkStarts(ctx: Ctx, levels: seq<Level>, l: seq<Entry>, m0: Image, c0: Image, want: Image, l0: seq<Op>)
    requires Fits(ctx, levels, l, m0, c0, want)
    ensures Walk(ctx, levels, l, 0, m0, m0, c0, c0, want, l0, l0)
  {
    assert l[..0] == [] && After(ctx, l, 0, m0, want) == m0;
  }

  lemma {:induction false} WalkSkips(ctx: Ctx, levels: seq<Level>, l: seq<Entry>, n: nat, i: nat, m0: Image, m1: Image,
                                     c0: Image, c1: Image, want: Image, l0: seq<Op>, l1: seq<Op>)
    requires n <= i <= |l| && Fits(ctx, levels, l, m0, c0, want)
             && Walk(ctx, levels, l, n, m0, m1, c0, c1, want, l0, l1)
    requires forall j | n <= j < i :: !l[j].included
    ensures Walk(ctx, levels, l, i, m0, m1, c0, c1, want, l0, l1)
    decreases i - n
  {
    if n < i {
      forall a: nat | a < |m0| ensures After(ctx, l, n + 1, m0, want)[a] == After(ctx, l, n, m0, want)[a] {
        AfterGrows(ctx, l, n, m0, want, a);
      }
      assert After(ctx, l, n + 1, m0, want) == After(ctx, l, n, m0, want);
      WalkSkips(ctx, levels, l, n + 1, i, m0, m1, c0, c1, want, l0, l1);
    }
  }

  lemma LawfulSplit(l0: seq<Op>, l1: seq<Op>, l2: seq<Op>)
    requires l0 <= l1 <= l2
    ensures Lawful(l2, |l0|) <==> Lawful(l1, |l0|) && Lawful(l2, |l1|)
  {
    if Lawful(l2, |l0|) {
      forall i | |l0| <= i < |l1| ensures l1[i].Program? ==> l1[i].legal {
        assert l1[i] == l2[i];
      }
    }
    if Lawful(l1, |l0|) && Lawful(l2, |l1|) {
      forall i | |l0| <= i < |l2| ensures l2[i].Program? ==> l2[i].legal {
        if i < |l1| {
          assert l2[i] == l1[i];
        }
      }
    }
  }

  /** One successful erase_write of an included entry extends the walk. */
  lemma WalkStepsOn(ctx: Ctx, levels: seq<Level>, l: seq<Entry>, n: nat, m0: Image, m1: Image, m2: Image,
                    c0: Image, c1: Image, c2: Image, want: Image, l0: seq<Op>, l1: seq<Op>, l2: seq<Op>)
    requires n < |l| && l[n].included && Fits(ctx, levels, l, m0, c0, want) && UnionPlausible(ctx, l, m0, c0, want)
    requires Walk(ctx, levels, l, n, m0, m1, c0, c1, want, l0, l1)
    requires RegionOk(ctx, levels, m1, m2, c1, c2, want, l1, l2, l[n].start, l[n].end)
    ensures Walk(ctx, levels, l, n + 1, m0, m2, c0, c2, want, l0, l2)
  {
    var start, end := l[n].start, l[n].end;
    ImageStep(ctx, levels, m1, m2, c1, c2, want, l1, l2, start, end);
    LawfulSplit(l0, l1, l2);
    if StepsLegal(ctx, levels, l, n, m0, c0, want) {
      StaysPlausible(ctx, levels, l, n, m0, c0, want);
      EntryPlausible(ctx, l, n, m1, c1, want);
      LawfulIffCutsLegal(ctx, levels, m1, m2, c1, c2, want, l1, l2, start, end);
      if StepLegal(ctx, levels, l, n, m0, c0, want) {
        EraseWriteMeaning(ctx, levels, m1, m2, c1, c2, want, l1, l2, start, end);
        forall a: nat | a < |m0| ensures m2[a] == After(ctx, l, n + 1, m0, want)[a] {
          AfterGrows(ctx, l, n, m0, want, a);
        }
        assert m2 == After(ctx, l, n + 1, m0, want);
      }
    }
  }

  // ----- Runs without commands -------------------------------------------------------------------

  ghost predicate UnionExact(l: seq<Entry>, mem: Image, have: Image) {
    |mem| == |have| && forall a: nat | a < |mem| && InUnion(l, a) :: mem[a] == have[a]
  }

  /** Every writable byte of the first `n` entries is already as wanted. */
  ghost predicate NothingNew(ctx: Ctx, l: seq<Entry>, n: nat, m0: Image, want: Image)
    requires n <= |l|
  {
    |m0| == |want| && forall a: nat | a < |m0| && InUnion(l[..n], a) && ctx.Writable(a) :: m0[a] == want[a]
  }

  /** The log is unchanged exactly if there was nothing to do; then the chip is unchanged and
      the image still exact. */
  ghost predicate QuietWalk(ctx: Ctx, l: seq<Entry>, n: nat, m0: Image, m1: Image, c1: Image, want: Image,
                            l0: seq<Op>, l1: seq<Op>)
    requires n <= |l|
  {
    && l0 <= l1
    && (l1 == l0 ==> NothingNew(ctx, l, n, m0, want) && m1 == m0 && UnionExact(l, m1, c1))
    && (ctx.ratio < 100 && NothingNew(ctx, l, n, m0, want) ==> l1 == l0)
  }

  lemma QuietStarts(ctx: Ctx, l: seq<Entry>, m0: Image, c0: Image, want: Image, l0: seq<Op>)
    requires |m0| == |want| && UnionExact(l, m0, c0)
    ensures QuietWalk(ctx, l, 0, m0, m0, c0, want, l0, l0)
  {
    assert l[..0] == [];
  }

  lemma {:induction false} QuietSkips(ctx: Ctx, l: seq<Entry>, n: nat, i: nat, m0: Image, m1: Image, c1: Image,
                                      want: Image, l0: seq<Op>, l1: seq<Op>)
    requires n <= i <= |l| && QuietWalk(ctx, l, n, m0, m1, c1, want, l0, l1) && forall j | n <= j < i :: !l[j].included
    ensures QuietWalk(ctx, l, i, m0, m1, c1, want, l0, l1)
    decreases i - n
  {
    if n < i {
      NothingNewGrows(ctx, l, n, m0, want);
      QuietSkips(ctx, l, n + 1, i, m0, m1, c1, want, l0, l1);
    }
  }

  lemma NothingNewGrows(ctx: Ctx, l: seq<Entry>, n: nat, m0: Image, want: Image)
    requires n < |l| && (l[n].included ==> l[n].end < |m0|)
    ensures NothingNew(ctx, l, n + 1, m0, want) <==>
              NothingNew(ctx, l, n, m0, want) && (l[n].included ==> NoneDiffer(ctx, m0, want, l[n].start, l[n].end + 1))
  {
    forall a: nat ensures InUnion(l[..n + 1], a) <==> InUnion(l[..n], a) || Covers(l[n], a) {
      UnionGrows(l, n, a);
    }
  }

  lemma QuietStepsOn(ctx: Ctx, levels: seq<Level>, l: seq<Entry>, n: nat, m0: Image, m1: Image, m2: Image,
                     c1: Image, c2: Image, want: Image, l0: seq<Op>, l1: seq<Op>, l2: seq<Op>)
    requires n < |l| && l[n].included && |m0| == ctx.size && QuietWalk(ctx, l, n, m0, m1, c1, want, l0, l1)
    requires RegionOk(ctx, levels, m1, m2, c1, c2, want, l1, l2, l[n].start, l[n].end)
    ensures QuietWalk(ctx, l, n + 1, m0, m2, c2, want, l0, l2)
  {
    var start, end := l[n].start, l[n].end;
    ImageStep(ctx, levels, m1, m2, c1, c2, want, l1, l2, start, end);
    CommandsIffDiffering(ctx, levels, m1, m2, c1, c2, want, l1, l2, start, end);
    NothingNewGrows(ctx, l, n, m0, want);
    LogGrew(l0, l1, l2);
    if l1 == l0 {
      QuietEntry(ctx, l, n, m0, c1, want);
      if l2 == l1 {
        forall a: nat | a < |m0| && InUnion(l, a) ensures m2[a] == c2[a] {
        }
      }
    }
  }

  lemma QuietEntry(ctx: Ctx, l: seq<Entry>, n: nat, m0: Image, c1: Image, want: Image)
    requires n < |l| && l[n].included && l[n].end < |m0| == |want| && UnionExact(l, m0, c1)
    ensures NoneDiffer(ctx, c1, want, l[n].start, l[n].end + 1) <==> NoneDiffer(ctx, m0, want, l[n].start, l[n].end + 1)
  {
    forall a: nat | l[n].start <= a < l[n].end + 1 ensures c1[a] == m0[a] {
      UnionGrows(l, n, a);
    }
  }

  lemma LogGrew(l0: seq<Op>, l1: seq<Op>, l2: seq<Op>)
    requires l0 <= l1 <= l2
    ensures l2 == l0 <==> l1 == l0 && l2 == l1
  {
  }

  // ----- One-bit granularity -------------------------------------------------------------------

  /** The exact contents after the first `n` entries on a chip that only clears bits. */
  ghost function OneBitAfter(ctx: Ctx, lv: Level, l: seq<Entry>, n: nat, m0: Image, want: Image, a: nat): byte
    requires n <= |l| && a < |m0| == |want|
  {
    if InUnion(l[..n], a) && ctx.Writable(a) then OneBitGoal(ctx, lv, m0, want, a) else m0[a]
  }

  ghost predicate OneBitAt(ctx: Ctx, lv: Level, l: seq<Entry>, n: nat, m0: Image, m1: Image, c1: Image, want: Image,
                           a: nat)
    requires n <= |l| && a < |m0| == |m1| == |c1| == |want|
  {
    && m1[a] == OneBitAfter(ctx, lv, l, n, m0, want, a)
    && (InUnion(l, a) && ctx.Writable(a) ==> Fair(ctx, lv, m1, c1, want, a))
  }

  ghost predicate OneBitWalk(ctx: Ctx, lv: Level, l: seq<Entry>, n: nat, m0: Image, m1: Image, c1: Image, want: Image)
    requires n <= |l|
  {
    && |m0| == |m1| == |c1| == |want|
    && forall a: nat | a < |m0| :: OneBitAt(ctx, lv, l, n, m0, m1, c1, want, a)
  }

  lemma OneBitStarts(ctx: Ctx, lv: Level, l: seq<Entry>, m0: Image, c0: Image, want: Image)
    requires UnionPlausible(ctx, l, m0, c0, want) && ctx.gran.Gran1Bit? && ErasedOk(ctx.gran, ctx.ev)
    ensures OneBitWalk(ctx, lv, l, 0, m0, m0, c0, want)
  {
    forall a: nat | a < |m0| ensures OneBitAt(ctx, lv, l, 0, m0, m0, c0, want, a) {
      assert l[..0] == [];
      AndSelf(m0[a]);
    }
  }

  lemma OneBitSkips(ctx: Ctx, lv: Level, l: seq<Entry>, n: nat, i: nat, m0: Image, m1: Image, c1: Image, want: Image)
    requires n <= i <= |l| && OneBitWalk(ctx, lv, l, n, m0, m1, c1, want) && forall j | n <= j < i :: !l[j].included
    ensures OneBitWalk(ctx, lv, l, i, m0, m1, c1, want)
    decreases i - n
  {
    if n < i {
      var n' := n + 1;
      forall a: nat | a < |m0| ensures OneBitAt(ctx, lv, l, n', m0, m1, c1, want, a) {
        UnionGrows(l, n, a);
        assert OneBitAt(ctx, lv, l, n, m0, m1, c1, want, a);
      }
      OneBitSkips(ctx, lv, l, n', i, m0, m1, c1, want);
    }
  }

  lemma OneBitStepsOn(ctx: Ctx, levels: seq<Level>, l: seq<Entry>, n: nat, m0: Image, m1: Image, m2: Image,
                      c1: Image, c2: Image, want: Image, l1: seq<Op>, l2: seq<Op>)
    requires n < |l| && l[n].included && |levels| > 0 && OneBitWalk(ctx, levels[0], l, n, m0, m1, c1, want)
    requires RegionOk(ctx, levels, m1, m2, c1, c2, want, l1, l2, l[n].start, l[n].end) && ctx.gran.Gran1Bit?
    ensures OneBitWalk(ctx, levels[0], l, n + 1, m0, m2, c2, want)
  {
    var n', lv := n + 1, levels[0];
    ImageStep(ctx, levels, m1, m2, c1, c2, want, l1, l2, l[n].start, l[n].end);
    forall a: nat | a < |m0| ensures OneBitAt(ctx, lv, l, n', m0, m2, c2, want, a) {
      assert OneBitAt(ctx, lv, l, n, m0, m1, c1, want, a);
      OneBitStepAt(ctx, levels, l, n, m0, m1, m2, c1, c2, want, l1, l2, a);
    }
  }

  lemma OneBitStepAt(ctx: Ctx, levels: seq<Level>, l: seq<Entry>, n: nat, m0: Image, m1: Image, m2: Image,
                     c1: Image, c2: Image, want: Image, l1: seq<Op>, l2: seq<Op>, a: nat)
    requires n < |l| && l[n].included && |levels| > 0 && a < |m0| == |m1| == |m2| == |c1| == |c2| == |want|
    requires OneBitAt(ctx, levels[0], l, n, m0, m1, c1, want, a)
    requires RegionOk(ctx, levels, m1, m2, c1, c2, want, l1, l2, l[n].start, l[n].end) && ctx.gran.Gran1Bit?
    ensures OneBitAt(ctx, levels[0], l, n + 1, m0, m2, c2, want, a)
  {
    UnionGrows(l, n, a);
    ImageStep(ctx, levels, m1, m2, c1, c2, want, l1, l2, l[n].start, l[n].end);
    OneBitMeaning(ctx, levels, m1, m2, c1, c2, want, l1, l2, l[n].start, l[n].end, a);
    OneBitStep(ctx, levels[0], l, n, m0, m1, m2, c1, c2, want, a);
  }

  lemma OneBitStep(ctx: Ctx, lv: Level, l: seq<Entry>, n: nat, m0: Image, m1: Image, m2: Image, c1: Image, c2: Image,
                   want: Image, a: nat)
    requires n < |l| && l[n].included && a < |m0| == |m1| == |m2| == |c1| == |c2| == |want|
    requires OneBitAt(ctx, lv, l, n, m0, m1, c1, want, a)
    requires InUnion(l[..n + 1], a) <==> InUnion(l[..n], a) || Covers(l[n], a)
    requires m2[a] == if Covers(l[n], a) && ctx.Writable(a) then OneBitGoal(ctx, lv, m1, want, a) else m1[a]
    requires if Covers(l[n], a) then
               c2[a] == if ctx.Writable(a) then want[a] else c1[a]
             else
               c2[a] == c1[a] || c2[a] == m1[a]
    ensures OneBitAt(ctx, lv, l, n + 1, m0, m2, c2, want, a)
  {
    if Covers(l[n], a) && ctx.Writable(a) {
      OneBitWritten(ctx, lv, l, n, m0, m1, m2, want, a);
      FairWritten(ctx, lv, m1, m2, c2, want, a);
    } else {
      FairKept(ctx, lv, m1, m2, c1, c2, want, a);
    }
  }

  lemma OneBitWritten(ctx: Ctx, lv: Level, l: seq<Entry>, n: nat, m0: Image, m1: Image, m2: Image, want: Image, a: nat)
    requires n < |l| && a < |m0| == |m1| == |m2| == |want| && InUnion(l[..n + 1], a) && ctx.Writable(a)
    requires m1[a] == OneBitAfter(ctx, lv, l, n, m0, want, a) && m2[a] == OneBitGoal(ctx, lv, m1, want, a)
    ensures m2[a] == OneBitAfter(ctx, lv, l, n + 1, m0, want, a)
  {
    AndTwice(m0[a], want[a]);
  }

  lemma FairWritten(ctx: Ctx, lv: Level, m1: Image, m2: Image, c2: Image, want: Image, a: nat)
    requires a < |m1| == |m2| == |c2| == |want| && m2[a] == OneBitGoal(ctx, lv, m1, want, a) && c2[a] == want[a]
    ensures Fair(ctx, lv, m2, c2, want, a)
  {
    AndTwice(m1[a], want[a]);
  }

  lemma FairKept(ctx: Ctx, lv: Level, m1: Image, m2: Image, c1: Image, c2: Image, want: Image, a: nat)
    requires a < |m1| == |m2| == |c1| == |c2| == |want| && m2[a] == m1[a] && (c2[a] == c1[a] || c2[a] == m1[a])
    ensures Fair(ctx, lv, m1, c1, want, a) ==> Fair(ctx, lv, m2, c2, want, a)
  {
    AndSelf(want[a]);
  }

  lemma AndTwice(x: byte, y: byte)
    ensures (x & y) & y == x & y
  {
  }
}
