/** Flash layouts: lists of address ranges, some of them included in the operation
    (layout.c). */
module Layout {
  import opened Granularity
  import opened Helpers

  /** A layout entry `[start, end]`. */
  datatype Entry = Entry(start: nat, end: nat, included: bool)

  ghost predicate Covers(e: Entry, a: nat) {
    e.included && e.start <= a <= e.end
  }

  /** Address `a` lies in an included region. */
  ghost predicate InUnion(l: seq<Entry>, a: nat) {
    exists i :: 0 <= i < |l| && Covers(l[i], a)
  }

  /** What layout_sanity_checks accepts. */
  ghost predicate Sane(l: seq<Entry>, size: nat) {
    forall i | 0 <= i < |l| :: l[i].start <= l[i].end && (l[i].included ==> l[i].end < size)
  }

  method LayoutSanityChecks(l: seq<Entry>, size: nat) returns (ret: int)
    ensures ret == 0 <==> Sane(l, size)
  {
    ret := 0;
    for i := 0 to |l|
      invariant ret == 0 <==> Sane(l[..i], size)
    {
      var e := l[i];
      if e.start >= size || e.end >= size {
        if e.included {
          ret := 1;
        }
      }
      if e.start > e.end {
        ret := 1;
      }
      assert l[..i + 1] == l[..i] + [e];
    }
    assert l[..|l|] == l;
  }

  /** Detects exactly whether two included entries meet; if no entry is inverted, that is
      whether some address lies in both. */
  method IncludedRegionsOverlap(l: seq<Entry>) returns (overlap: bool)
    ensures overlap <==> exists i, j :: 0 <= i < j < |l| && Meet(l[i], l[j])
    ensures (forall i | 0 <= i < |l| :: l[i].start <= l[i].end) ==>
              (overlap <==> exists i, j, a: nat :: 0 <= i < j < |l| && Covers(l[i], a) && Covers(l[j], a))
  {
    overlap := false;
    for i := 0 to |l|
      invariant overlap <==> exists p, j :: 0 <= p < i && p < j < |l| && Meet(l[p], l[j])
    {
      if !l[i].included {
        continue;
      }
      for j := i + 1 to |l|
        invariant overlap <==>
                  || (exists p, r :: 0 <= p < i && p < r < |l| && Meet(l[p], l[r]))
                  || exists r :: i < r < j && Meet(l[i], l[r])
      {
        if !l[j].included || l[i].start > l[j].end || l[i].end < l[j].start {
          continue;
        }
        assert Meet(l[i], l[j]);
        overlap := true;
      }
    }
    if overlap && forall i | 0 <= i < |l| :: l[i].start <= l[i].end {
      var p, j :| 0 <= p < |l| && p < j < |l| && Meet(l[p], l[j]);
      var a := if l[p].start < l[j].start then l[j].start else l[p].start;
      assert Covers(l[p], a) && Covers(l[j], a);
    }
  }

  predicate Meet(x: Entry, y: Entry) {
    x.included && y.included && x.start <= y.end && y.start <= x.end
  }

  /** Index of the next included entry at or after `from`, in list order. */
  method LayoutNextIncluded(l: seq<Entry>, from: nat) returns (i: nat)
    requires from <= |l|
    ensures from <= i <= |l| && (i < |l| ==> l[i].included)
    ensures forall j | from <= j < i :: !l[j].included
  {
    i := from;
    while i < |l| && !l[i].included
      invariant from <= i <= |l| && forall j | from <= j < i :: !l[j].included
    {
      i := i + 1;
    }
  }

  /** The included entry with the lowest start among those that end at or after `position`, the
      first of them in list order. */
  method LayoutNextIncludedRegion(l: seq<Entry>, position: nat) returns (lowest: Option<Entry>)
    ensures lowest.None? ==> forall i | 0 <= i < |l| && l[i].included :: l[i].end < position
    ensures lowest.Some? ==> lowest.value in l && lowest.value.included && lowest.value.end >= position
    ensures lowest.Some? ==> forall i | 0 <= i < |l| && l[i].included && l[i].end >= position ::
            lowest.value.start <= l[i].start
    ensures lowest.Some? ==> exists i :: 0 <= i < |l| && l[i] == lowest.value && NoneAsLow(l, i, position)
  {
    lowest := None;
    for i := 0 to |l|
      invariant lowest.None? ==> forall j | 0 <= j < i && l[j].included :: l[j].end < position
      invariant lowest.Some? ==> lowest.value in l && lowest.value.included && lowest.value.end >= position
      invariant lowest.Some? ==> forall j | 0 <= j < i && l[j].included && l[j].end >= position ::
                lowest.value.start <= l[j].start
      invariant lowest.Some? ==> exists j :: 0 <= j < i && l[j] == lowest.value && NoneAsLow(l, j, position)
    {
      if !l[i].included || l[i].end < position {
        continue;
      }
      if lowest.None? || lowest.value.start > l[i].start {
        lowest := Some(l[i]);
        assert NoneAsLow(l, i, position);
      }
    }
  }

  ghost predicate NoneAsLow(l: seq<Entry>, i: nat, position: nat)
    requires i < |l|
  {
    forall j | 0 <= j < i && l[j].included && l[j].end >= position :: l[j].start > l[i].start
  }

  const CHIPOFF_RANGE: nat := 0x1_0000_0000

  /** The image that verification of the whole chip compares with: included regions of
      the new contents over the old contents. */
  ghost function Overlay(l: seq<Entry>, old': Image, new': Image): (r: Image)
    requires |old'| == |new'|
    ensures |r| == |new'| && forall a: nat | a < |r| :: r[a] == if InUnion(l, a) then new'[a] else old'[a]
  {
    seq(|new'|, a requires 0 <= a < |new'| => if InUnion(l, a) then new'[a] else old'[a])
  }

  /** Whatever the order of the entries and however they overlap, fills everything outside
      the included regions with the old contents.  Offsets are 32 bits wide, so the
      address after the last byte of a 4 GiB chip wraps to 0. */
  method CombineImageByLayout(l: seq<Entry>, new': array<byte>, oldcontents: array<byte>)
    requires new'.Length == oldcontents.Length <= CHIPOFF_RANGE && new' != oldcontents && Sane(l, new'.Length)
    modifies new'
    ensures new'[..] == Overlay(l, oldcontents[..], old(new'[..]))
  {
    var start := 0;
    ghost var n0 := new'[..];
    var included := LayoutNextIncludedRegion(l, start);
    while included.Some?
      invariant 0 <= start <= new'.Length
      invariant Combined(l, oldcontents[..], n0, new'[..], start)
      invariant Below(l, included, start)
      decreases new'.Length - start
    {
      var region := included.value;
      forall a: nat | start <= a < region.start ensures !InUnion(l, a) {
      }
      forall a: nat | start <= a <= region.end && region.start <= a ensures InUnion(l, a) {
        var i :| 0 <= i < |l| && l[i] == region;
        assert Covers(l[i], a);
      }
      if region.start > start {
        forall a | start <= a < region.start {
          new'[a] := oldcontents[a];
        }
      }
      var next := (region.end + 1) % CHIPOFF_RANGE;
      if next == 0 {
        assert region.end + 1 == new'.Length;
        return;
      }
      start := next;
      included := LayoutNextIncludedRegion(l, start);
    }
    forall a: nat | start <= a < new'.Length ensures !InUnion(l, a) {
    }
    forall a | start <= a < new'.Length {
      new'[a] := oldcontents[a];
    }
  }

  /** Everything below `start` is combined, nothing from `start` on is touched. */
  ghost predicate Combined(l: seq<Entry>, old': Image, n0: Image, n1: Image, start: nat) {
    && |n1| == |n0| == |old'|
    && forall a: nat | a < |n0| :: n1[a] == if a < start && !InUnion(l, a) then old'[a] else n0[a]
  }

  ghost predicate Below(l: seq<Entry>, lowest: Option<Entry>, start: nat) {
    && (lowest.None? ==> forall i | 0 <= i < |l| && l[i].included :: l[i].end < start)
    && (lowest.Some? ==> lowest.value in l && lowest.value.included && lowest.value.end >= start)
    && (lowest.Some? ==> forall i | 0 <= i < |l| && l[i].included && l[i].end >= start ::
       lowest.value.start <= l[i].start)
  }
}
