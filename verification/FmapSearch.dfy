/** The halving-stride search for a flash map in the chip (fmap.c: fmap_bsearch_rom) and the
    linear search in a buffer (fmap_lsearch). */
module FmapSearch {
  import opened Granularity
  import opened Numerals
  import opened Helpers

  /** sizeof(struct fmap). */
  const HEADER: nat := 56

  /** The last stride of the halving sequence that starts at `s` and stays at or above
      `minStride`. */
  function FinalStride(s: nat, minStride: nat): (f: nat)
    requires 0 < minStride <= s
    ensures minStride <= f <= s
  {
    if s / 2 >= minStride then FinalStride(s / 2, minStride) else s
  }

  lemma {:induction false} FinalStrideTight(s: nat, minStride: nat)
    requires 0 < minStride <= s
    ensures FinalStride(s, minStride) < 2 * minStride
  {
    if s / 2 >= minStride {
      FinalStrideTight(s / 2, minStride);
    }
  }

  /** Multiples of twice the stride are multiples of the stride. */
  lemma {:induction false} CoarserGrid(x: nat, s: nat)
    requires s > 0 && OnGrid(x, 2 * s)
    ensures OnGrid(x, s)
  {
    if x >= 2 * s {
      CoarserGrid(x - 2 * s, s);
      assert OnGrid(x - s, s);
    }
  }

  /** How often offset `x` has been probed. */
  ghost function Times(probes: seq<nat>, x: nat): nat {
    multiset(probes)[x]
  }

  /** The offsets probed are exactly the multiples of `s` up to `top`, each of them once. */
  ghost predicate Complete(probes: seq<nat>, s: nat, top: nat)
    requires s > 0
  {
    forall x: nat :: Times(probes, x) == if x <= top && OnGrid(x, s) then 1 else 0
  }

  /** The same in the middle of the pass with stride `s`: multiples of `2 * s` come from
      earlier passes unless this is the first. */
  ghost predicate Partial(probes: seq<nat>, s: nat, top: nat, offset: nat, first: bool)
    requires s > 0
  {
    forall x: nat :: Times(probes, x) == if x <= top && ((x < offset && OnGrid(x, s)) || (!first && OnGrid(x, 2 * s)))
        then 1 else 0
  }

  /** Offsets that lie in the range searched and hold no valid header. */
  ghost predicate AllRejected(probes: seq<nat>, romOffset: nat, top: nat, valid: nat -> bool) {
    forall x | x in probes :: romOffset <= x <= romOffset + top && !valid(x)
  }

  /** The pass with stride `s` over a range that starts at `from`, not 0, probes offset `x`. */
  ghost predicate Hit(s: nat, from: nat, top: nat, x: nat)
    requires s > 0
  {
    from <= x <= from + top && OnGrid(x - from, s) && x % (s * 2) != 0
  }

  /** How many passes probe it, from stride `s` down. */
  ghost function Hits(s: nat, minStride: nat, from: nat, len: nat, x: nat): (n: nat)
    requires minStride > 0 && HEADER <= len
  {
    if s < minStride then 0
    else (if s <= len && Hit(s, from, len - HEADER, x) then 1 else 0) + Hits(s / 2, minStride, from, len, x)
  }

  /** The passes so far and those from stride `s` on make up the whole search. */
  ghost predicate Counted(probes: seq<nat>, chipSize: nat, s: nat, minStride: nat, from: nat, len: nat)
    requires minStride > 0 && HEADER <= len
  {
    forall x: nat ::
      Times(probes, x) + Hits(s, minStride, from, len, x) == Hits(chipSize / 2, minStride, from, len, x)
  }

  /** The pass has added the offsets it hits before `offset`. */
  ghost predicate Adds(p: seq<nat>, p': seq<nat>, s: nat, from: nat, top: nat, offset: nat)
    requires s > 0
  {
    forall x: nat :: Times(p', x) == Times(p, x) + if x < offset && Hit(s, from, top, x) then 1 else 0
  }

  lemma AddsOn(p: seq<nat>, p1: seq<nat>, p2: seq<nat>, s: nat, from: nat, top: nat, offset: nat)
    requires s > 0 && from <= offset <= from + top && OnGrid(offset - from, s) && Adds(p, p1, s, from, top, offset)
    requires p2 == if offset % (s * 2) == 0 then p1 else p1 + [offset]
    ensures Adds(p, p2, s, from, top, offset + s)
  {
    forall x: nat
      ensures Times(p2, x) == Times(p, x) + if x < offset + s && Hit(s, from, top, x) then 1 else 0
    {
      assert Times(p1, x) == Times(p, x) + if x < offset && Hit(s, from, top, x) then 1 else 0;
      if offset < x < offset + s && OnGrid(x - from, s) {
        GridGap(offset - from, x - from, s);
      }
    }
  }

  lemma CountedOn(p: seq<nat>, p': seq<nat>, chipSize: nat, s: nat, minStride: nat, from: nat, len: nat)
    requires minStride > 0 && HEADER <= len && s >= minStride && Counted(p, chipSize, s, minStride, from, len)
    requires if s > len then p' == p else Adds(p, p', s, from, len - HEADER, from + len)
    ensures Counted(p', chipSize, s / 2, minStride, from, len)
  {
    forall x: nat
      ensures Times(p', x) + Hits(s / 2, minStride, from, len, x) == Hits(chipSize / 2, minStride, from, len, x)
    {
      assert Times(p, x) + Hits(s, minStride, from, len, x) == Hits(chipSize / 2, minStride, from, len, x);
      if s <= len {
        assert Times(p', x)
            == Times(p, x) + if x < from + len && Hit(s, from, len - HEADER, x) then 1 else 0;
      }
    }
  }

  /** One pass from `romOffset` on.  `exact` is the case in which it is known which offsets are
      left: the search starts at 0 and the earlier passes, if any, probed every multiple of
      `2 * s`. */
  method Pass(s: nat, romOffset: nat, top: nat, checkOffset0: bool, valid: nat -> bool, probes: seq<nat>,
              ghost first: bool, ghost exact: bool)
    returns (found: Option<nat>, check': bool, probes': seq<nat>)
    requires s > 0 && AllRejected(probes, romOffset, top, valid)
    requires exact ==> romOffset == 0 && (checkOffset0 <==> first)
    requires exact && first ==> probes == [] && top < 2 * s
    requires exact && !first ==> Complete(probes, 2 * s, top)
    ensures found.None? ==> AllRejected(probes', romOffset, top, valid)
    ensures found.None? && exact ==> !check' && Complete(probes', s, top)
    ensures found.None? && romOffset > 0 ==> Adds(probes, probes', s, romOffset, top, romOffset + top + HEADER)
    ensures found.Some? ==> romOffset <= found.value <= romOffset + top && valid(found.value)
    ensures found.Some? && romOffset > 0 ==> Hit(s, romOffset, top, found.value)
  {
    found, check', probes' := None, checkOffset0, probes;
    var offset := romOffset;
    if exact {
      Begin(probes, s, top, first);
    }
    while offset <= romOffset + top
      invariant romOffset <= offset && AllRejected(probes', romOffset, top, valid)
      invariant exact ==> OnGrid(offset, s) && Partial(probes', s, top, offset, first)
      invariant exact ==> (check' <==> first && offset == 0)
      invariant romOffset > 0 ==> OnGrid(offset - romOffset, s) && Adds(probes, probes', s, romOffset, top, offset)
      decreases romOffset + top + s - offset
    {
      if exact {
        StepGrid(offset, s);
      }
      var skip := (offset % (s * 2) == 0 && offset != 0) || (offset == 0 && !check');
      if !skip {
        check' := false;
        if valid(offset) {
          found := Some(offset);
          return;
        }
      }
      ghost var p := probes';
      if !skip {
        probes' := probes' + [offset];
      }
      if exact {
        Advance(p, probes', s, top, offset, first);
      }
      if romOffset > 0 {
        AddsOn(probes, p, probes', s, romOffset, top, offset);
      }
      offset := offset + s;
    }
    if exact {
      Finish(probes', s, top, offset, first);
    }
    if romOffset > 0 {
      AddsAll(probes, probes', s, romOffset, top, offset);
    }
  }

  lemma AddsAll(p: seq<nat>, p': seq<nat>, s: nat, from: nat, top: nat, offset: nat)
    requires s > 0 && offset > from + top && Adds(p, p', s, from, top, offset)
    ensures Adds(p, p', s, from, top, from + top + HEADER)
  {
    forall x: nat
      ensures Times(p', x) == Times(p, x) + if x < from + top + HEADER && Hit(s, from, top, x) then 1 else 0
    {
      assert Times(p', x) == Times(p, x) + if x < offset && Hit(s, from, top, x) then 1 else 0;
    }
  }

  lemma Begin(p: seq<nat>, s: nat, top: nat, first: bool)
    requires s > 0 && (first ==> p == []) && (!first ==> Complete(p, 2 * s, top))
    ensures Partial(p, s, top, 0, first)
  {
    forall x: nat ensures Times(p, x) == if x <= top && !first && OnGrid(x, 2 * s) then 1 else 0 {
    }
  }

  lemma StepGrid(offset: nat, s: nat)
    requires s > 0 && OnGrid(offset, s)
    ensures OnGrid(offset + s, s)
    ensures offset % (s * 2) == 0 <==> OnGrid(offset, 2 * s)
  {
    OnGridIsMultiple(offset, 2 * s);
    assert s * 2 == 2 * s;
  }

  lemma Advance(p: seq<nat>, p': seq<nat>, s: nat, top: nat, offset: nat, first: bool)
    requires s > 0 && offset <= top && OnGrid(offset, s) && Partial(p, s, top, offset, first)
    requires first ==> top < 2 * s
    requires p' == if !first && OnGrid(offset, 2 * s) then p else p + [offset]
    ensures Partial(p', s, top, offset + s, first)
  {
    forall x: nat
      ensures Times(p', x) == if x <= top && ((x < offset + s && OnGrid(x, s)) || (!first && OnGrid(x, 2 * s))) then 1
              else 0
    {
      assert Times(p, x) == if x <= top && ((x < offset && OnGrid(x, s)) || (!first && OnGrid(x, 2 * s))) then 1 else 0;
      if offset < x < offset + s && OnGrid(x, s) {
        GridGap(offset, x, s);
      }
    }
  }

  lemma Finish(p: seq<nat>, s: nat, top: nat, offset: nat, first: bool)
    requires s > 0 && offset > top && Partial(p, s, top, offset, first)
    ensures Complete(p, s, top)
  {
    forall x: nat ensures Times(p, x) == if x <= top && OnGrid(x, s) then 1 else 0 {
      if OnGrid(x, 2 * s) {
        CoarserGrid(x, s);
      }
    }
  }

  /** What is known about a search without result that starts at 0, on a chip whose size is a
      power of two: if the last stride does not exceed `len`, every multiple of it that leaves
      room for a header was probed exactly once; otherwise nothing was. */
  ghost predicate Searched(chipSize: nat, len: nat, minStride: nat, valid: nat -> bool, probes: seq<nat>)
    requires 0 < minStride && HEADER <= len
  {
    if minStride > chipSize / 2 || FinalStride(chipSize / 2, minStride) > len then probes == []
    else
      var f := FinalStride(chipSize / 2, minStride);
      Complete(probes, f, len - HEADER) && forall x: nat | x <= len - HEADER && OnGrid(x, f) :: !valid(x)
  }

  /** `valid` says at which offsets a valid header can be read. */
  method Bsearch(chipSize: nat, romOffset: nat, len: nat, minStride: nat, valid: nat -> bool)
    returns (found: Option<nat>, probes: seq<nat>)
    requires 0 < minStride
    ensures romOffset + len > chipSize || len < HEADER || len < minStride ==> found.None? && probes == []
    ensures found.Some? ==> romOffset <= found.value && found.value + HEADER <= romOffset + len && valid(found.value)
    ensures found.None? && HEADER <= len ==> AllRejected(probes, romOffset, len - HEADER, valid)
    ensures found.None? && HEADER <= len <= chipSize && romOffset == 0 && IsPowerOfTwo(chipSize) ==>
              Searched(chipSize, len, minStride, valid, probes)
    ensures found.None? && HEADER <= len && 0 < romOffset && romOffset + len <= chipSize ==>
              forall x: nat :: Times(probes, x) == Hits(chipSize / 2, minStride, romOffset, len, x)
    ensures found.Some? && 0 < romOffset ==>
              HEADER <= len && Hits(chipSize / 2, minStride, romOffset, len, found.value) > 0
  {
    found, probes := None, [];
    if romOffset + len > chipSize || len < HEADER {
      return;
    }
    ghost var exact := romOffset == 0 && IsPowerOfTwo(chipSize);
    var checkOffset0 := true;
    var stride := chipSize / 2;
    var top := len - HEADER;
    ghost var last: nat := chipSize;
    while stride >= minStride
      invariant found.None? && stride >= 0 && stride == last / 2 && AllRejected(probes, romOffset, top, valid)
      invariant len < minStride ==> probes == []
      invariant romOffset > 0 ==> Counted(probes, chipSize, stride, minStride, romOffset, len)
      invariant exact ==> Halving(chipSize, minStride, stride, last)
      invariant exact && minStride > chipSize / 2 ==> probes == []
      invariant exact && checkOffset0 ==> probes == [] && top < last && (last > len || last == chipSize)
      invariant exact && !checkOffset0 ==> last <= len && Complete(probes, last, top)
      decreases stride
    {
      last := stride;
      ghost var q := probes;
      if stride <= len {
        var p;
        found, checkOffset0, p := Pass(stride, romOffset, top, checkOffset0, valid, probes, checkOffset0, exact);
        if found.Some? {
          if romOffset > 0 {
            assert Times(q, found.value) + Hits(stride, minStride, romOffset, len, found.value)
                == Hits(chipSize / 2, minStride, romOffset, len, found.value);
          }
          return;
        }
        probes := p;
      }
      if romOffset > 0 {
        CountedOn(q, probes, chipSize, stride, minStride, romOffset, len);
      }
      stride := stride / 2;
    }
    if exact && !checkOffset0 {
      NoneValid(probes, last, top, valid);
    }
  }

  /** The halving sequence: `last` is the stride before `stride`. */
  ghost predicate Halving(chipSize: nat, minStride: nat, stride: nat, last: nat)
    requires minStride > 0
  {
    && IsPowerOfTwo(last)
    && (minStride > chipSize / 2 ==> last == chipSize)
    && (stride >= minStride ==>
          minStride <= chipSize / 2 && FinalStride(chipSize / 2, minStride) == FinalStride(stride, minStride))
    && (stride < minStride && minStride <= chipSize / 2 ==> FinalStride(chipSize / 2, minStride) == last)
  }

  // ----- The one call of the search -------------------------------------------------------------

  const MIN_STRIDE: nat := 256

  /** Between powers of two the halving ends exactly at the smaller one. */
  lemma {:induction false} PowerStride(s: nat, m: nat)
    requires IsPowerOfTwo(s) && IsPowerOfTwo(m) && m <= s
    ensures FinalStride(s, m) == m
  {
    if m < s {
      HalfFits(s, m);
      PowerStride(s / 2, m);
    }
  }

  lemma {:induction false} HalfFits(s: nat, m: nat)
    requires IsPowerOfTwo(s) && IsPowerOfTwo(m) && m < s
    ensures m <= s / 2 && IsPowerOfTwo(s / 2)
  {
    if m > 1 {
      HalfFits(s / 2, m / 2);
    }
  }

  /** fmap_read_from_rom searches with the smallest stride 256.  On a chip of at least 512 bytes
      a search of the first `len` bytes without result is complete exactly if `len` is at least
      256. */
  method SearchRom(chipSize: nat, len: nat, valid: nat -> bool) returns (found: Option<nat>, probes: seq<nat>)
    requires IsPowerOfTwo(chipSize) && 512 <= chipSize && HEADER <= len <= chipSize
    ensures found.Some? ==> found.value + HEADER <= len && valid(found.value)
    ensures found.None? ==> (Complete(probes, MIN_STRIDE, len - HEADER) <==> len >= MIN_STRIDE)
    ensures found.None? && len >= MIN_STRIDE ==> forall x: nat | x <= len - HEADER && OnGrid(x, MIN_STRIDE) :: !valid(x)
    ensures len < MIN_STRIDE ==> found.None? && probes == []
  {
    assert IsPowerOfTwo(MIN_STRIDE) && IsPowerOfTwo(chipSize / 2);
    PowerStride(chipSize / 2, MIN_STRIDE);
    found, probes := Bsearch(chipSize, 0, len, MIN_STRIDE, valid);
    assert Times([], 0) == 0 && OnGrid(0, MIN_STRIDE);
  }

  /** A header at offset 0 of a range that is too short for any stride is not found. */
  method ShortRangeMissed(valid: nat -> bool) returns (found: Option<nat>)
    requires valid(0)
    ensures found.None?
  {
    var probes;
    found, probes := SearchRom(1024, 100, valid);
  }

  lemma NoneValid(probes: seq<nat>, s: nat, top: nat, valid: nat -> bool)
    requires s > 0 && Complete(probes, s, top) && forall x | x in probes :: !valid(x)
    ensures forall x: nat | x <= top && OnGrid(x, s) :: !valid(x)
  {
    forall x: nat | x <= top && OnGrid(x, s) ensures !valid(x) {
      assert Times(probes, x) == 1;
      assert x in multiset(probes);
    }
  }

  /** The first offset with a valid header; -1 if there is none, -2 if the map found there
      does not fit.  `size` gives the size of the map at an offset. */
  method Lsearch(len: nat, valid: nat -> bool, size: nat -> nat) returns (r: int)
    ensures r == -1 <==> forall x: nat | x + HEADER <= len :: !valid(x)
    ensures r >= 0 ==> r + HEADER <= len && valid(r) && r + size(r) <= len
    ensures r != -1 ==> exists x: nat :: x + HEADER <= len && valid(x) && (forall y: nat | y < x :: !valid(y))
                                         && r == if x + size(x) > len then -2 else x
  {
    if len < HEADER {
      return -1;
    }
    var offset := 0;
    while offset <= len - HEADER && !valid(offset)
      invariant 0 <= offset <= len - HEADER + 1
      invariant forall x: nat | x < offset :: !valid(x)
    {
      offset := offset + 1;
    }
    if offset > len - HEADER {
      return -1;
    }
    if offset + size(offset) > len {
      return -2;
    }
    return offset;
  }
}
