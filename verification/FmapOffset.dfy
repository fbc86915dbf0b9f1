/** The halving-stride search of a range that does not start at offset 0 (fmap.c:
    fmap_bsearch_rom with a rom_offset): exactly which offsets it probes, and how often. */
module FmapOffset {
  import opened Granularity
  import opened Numerals
  import opened Helpers
  import opened FmapSearch

  /** The largest power of two that divides `x`. */
  function LowBit(x: nat): (b: nat)
    requires x > 0
    ensures 0 < b <= x && IsPowerOfTwo(b)
  {
    if x % 2 == 1 then 1 else 2 * LowBit(x / 2)
  }

  lemma {:induction false} HalfGrid(x: nat, t: nat)
    requires t > 0
    ensures OnGrid(x, 2 * t) <==> x % 2 == 0 && OnGrid(x / 2, t)
  {
    if x >= 2 * t {
      HalfGrid(x - 2 * t, t);
    }
  }

  lemma {:induction false} UnitGrid(x: nat)
    ensures OnGrid(x, 1)
  {
    if x > 0 {
      UnitGrid(x - 1);
    }
  }

  lemma {:induction false} GridSum(a: nat, b: nat, s: nat)
    requires s > 0 && OnGrid(a, s)
    ensures OnGrid(a + b, s) <==> OnGrid(b, s)
  {
    if a > 0 {
      GridSum(a - s, b, s);
    }
  }

  /** A power of two divides a number exactly if it is at most its lowest bit. */
  lemma {:induction false} DividesIff(s: nat, x: nat)
    requires IsPowerOfTwo(s) && x > 0
    ensures OnGrid(x, s) <==> s <= LowBit(x)
  {
    if s == 1 {
      UnitGrid(x);
    } else {
      HalfGrid(x, s / 2);
      if x % 2 == 0 {
        DividesIff(s / 2, x / 2);
      }
    }
  }

  lemma {:induction false} NextPower(s: nat, t: nat)
    requires IsPowerOfTwo(s) && IsPowerOfTwo(t)
    ensures t < 2 * s <==> t <= s
    ensures IsPowerOfTwo(2 * s)
  {
    if s < t {
      HalfFits(t, s);
    }
  }

  /** A pass probes the offsets on its grid that have no higher power of two as divisor. */
  lemma {:induction false} HitIff(s: nat, from: nat, top: nat, x: nat)
    requires IsPowerOfTwo(s) && 0 < from <= x
    ensures Hit(s, from, top, x) <==> x <= from + top && OnGrid(x - from, s) && LowBit(x) <= s
  {
    NextPower(s, LowBit(x));
    DividesIff(2 * s, x);
    OnGridIsMultiple(x, 2 * s);
    assert s * 2 == 2 * s;
  }

  /** A stride of the sequence that hits. */
  lemma {:induction false} HitCounts(s: nat, t: nat, minStride: nat, from: nat, len: nat, x: nat)
    requires 0 < minStride <= s && HEADER <= len && IsPowerOfTwo(s) && IsPowerOfTwo(t)
    requires FinalStride(s, minStride) <= t <= s && t <= len && Hit(t, from, len - HEADER, x)
    ensures Hits(s, minStride, from, len, x) > 0
  {
    if t < s {
      HalfFits(s, t);
      HitCounts(s / 2, t, minStride, from, len, x);
    }
  }

  /** Two of them. */
  lemma {:induction false} HitsTwice(s: nat, t: nat, minStride: nat, from: nat, len: nat, x: nat)
    requires 0 < minStride <= s && HEADER <= len && IsPowerOfTwo(s) && IsPowerOfTwo(t)
    requires FinalStride(s, minStride) <= t && 2 * t <= s && 2 * t <= len
    requires Hit(t, from, len - HEADER, x) && Hit(2 * t, from, len - HEADER, x)
    ensures Hits(s, minStride, from, len, x) > 1
  {
    if 2 * t == s {
      HitCounts(t, t, minStride, from, len, x);
    } else {
      NextPower(t, t);
      HalfFits(s, 2 * t);
      HitsTwice(s / 2, t, minStride, from, len, x);
    }
  }

  /** No stride up to `s` hits. */
  ghost predicate NoneHits(s: nat, minStride: nat, from: nat, len: nat, x: nat)
    requires minStride > 0 && HEADER <= len
  {
    forall t: nat | minStride <= t <= s && t <= len && IsPowerOfTwo(t) :: !Hit(t, from, len - HEADER, x)
  }

  lemma {:induction false} NoHits(s: nat, minStride: nat, from: nat, len: nat, x: nat)
    requires minStride > 0 && HEADER <= len && IsPowerOfTwo(s) && NoneHits(s, minStride, from, len, x)
    ensures Hits(s, minStride, from, len, x) == 0
  {
    if s >= minStride && s > 1 {
      NoHits(s / 2, minStride, from, len, x);
    }
  }

  /** What the searches below have in common: a range that does not start at 0 on a chip whose
      size is a power of two, and a last stride that does not exceed its length. */
  ghost predicate Posed(chipSize: nat, from: nat, len: nat, minStride: nat) {
    && IsPowerOfTwo(chipSize) && 0 < minStride <= chipSize / 2
    && 0 < from && from + len <= chipSize && HEADER <= len
    && FinalStride(chipSize / 2, minStride) <= len
  }

  ghost function Last(chipSize: nat, minStride: nat): nat
    requires 0 < minStride <= chipSize / 2
  {
    FinalStride(chipSize / 2, minStride)
  }

  /** An offset that should be probed: a multiple of the last stride away from the start. */
  ghost predicate Candidate(chipSize: nat, from: nat, len: nat, minStride: nat, x: nat)
    requires 0 < minStride <= chipSize / 2 && HEADER <= len
  {
    from <= x <= from + len - HEADER && OnGrid(x - from, Last(chipSize, minStride))
  }

  lemma {:induction false} FinalIsPower(s: nat, minStride: nat)
    requires IsPowerOfTwo(s) && 0 < minStride <= s
    ensures IsPowerOfTwo(FinalStride(s, minStride))
  {
    if s / 2 >= minStride {
      FinalIsPower(s / 2, minStride);
    }
  }

  /** Powers of two from `minStride` on are not below the last stride. */
  lemma {:induction false} FinalLeast(s: nat, minStride: nat, t: nat)
    requires IsPowerOfTwo(s) && 0 < minStride <= s && IsPowerOfTwo(t) && minStride <= t
    ensures FinalStride(s, minStride) <= t
  {
    if s / 2 >= minStride {
      FinalLeast(s / 2, minStride, t);
    } else if t < s {
      HalfFits(s, t);
    }
  }

  /** Exactly which offsets are probed: the start if its lowest bit does not exceed the length,
      another one if its lowest bit does not exceed that of its distance from the start. */
  lemma {:induction false} ProbedIff(chipSize: nat, from: nat, len: nat, minStride: nat, x: nat)
    requires Posed(chipSize, from, len, minStride) && Candidate(chipSize, from, len, minStride, x)
    ensures Hits(chipSize / 2, minStride, from, len, x) > 0 <==>
            if x == from then LowBit(x) <= len else LowBit(x) <= LowBit(x - from)
  {
    var s, f, b, top := chipSize / 2, Last(chipSize, minStride), LowBit(x), len - HEADER;
    FinalIsPower(s, minStride);
    if x > from {
      DividesIff(f, x - from);
    }
    if if x == from then b <= len else b <= LowBit(x - from) {
      var t := if f <= b then b else f;
      HalfFits(chipSize, t);
      if x > from {
        DividesIff(t, x - from);
      }
      HitIff(t, from, top, x);
      HitCounts(s, t, minStride, from, len, x);
    } else {
      forall t: nat | minStride <= t <= s && t <= len && IsPowerOfTwo(t) ensures !Hit(t, from, top, x) {
        HitIff(t, from, top, x);
        if x > from {
          DividesIff(t, x - from);
        }
      }
      NoHits(s, minStride, from, len, x);
    }
  }

  /** Every candidate is probed. */
  ghost predicate AllProbed(chipSize: nat, from: nat, len: nat, minStride: nat)
    requires 0 < minStride <= chipSize / 2 && HEADER <= len
  {
    forall x: nat | Candidate(chipSize, from, len, minStride, x) :: Hits(chipSize / 2, minStride, from, len, x) > 0
  }

  /** That is the case exactly if the start is not a multiple of the last stride, or if its
      lowest bit just fits the range. */
  lemma {:induction false} AllProbedIff(chipSize: nat, from: nat, len: nat, minStride: nat)
    requires Posed(chipSize, from, len, minStride)
    ensures AllProbed(chipSize, from, len, minStride) <==>
            !OnGrid(from, Last(chipSize, minStride)) || len - HEADER < LowBit(from) <= len
  {
    if !OnGrid(from, Last(chipSize, minStride)) || len - HEADER < LowBit(from) <= len {
      forall x: nat | Candidate(chipSize, from, len, minStride, x)
        ensures Hits(chipSize / 2, minStride, from, len, x) > 0
      {
        IsProbed(chipSize, from, len, minStride, x);
      }
    } else {
      var x := IsMissed(chipSize, from, len, minStride);
    }
  }

  lemma {:induction false} IsProbed(chipSize: nat, from: nat, len: nat, minStride: nat, x: nat)
    requires Posed(chipSize, from, len, minStride) && Candidate(chipSize, from, len, minStride, x)
    requires !OnGrid(from, Last(chipSize, minStride)) || len - HEADER < LowBit(from) <= len
    ensures Hits(chipSize / 2, minStride, from, len, x) > 0
  {
    var f := Last(chipSize, minStride);
    ProbedIff(chipSize, from, len, minStride, x);
    if !OnGrid(from, f) {
      FinalIsPower(chipSize / 2, minStride);
      OffGrid(from, x, f);
    } else if x > from {
      SmallDistance(from, x);
    }
  }

  lemma {:induction false} IsMissed(chipSize: nat, from: nat, len: nat, minStride: nat) returns (x: nat)
    requires Posed(chipSize, from, len, minStride) && OnGrid(from, Last(chipSize, minStride))
    requires !(len - HEADER < LowBit(from) <= len)
    ensures Candidate(chipSize, from, len, minStride, x) && Hits(chipSize / 2, minStride, from, len, x) == 0
  {
    var f, v := Last(chipSize, minStride), LowBit(from);
    if v > len {
      x := from;
    } else {
      x := from + v;
      FinalIsPower(chipSize / 2, minStride);
      DividesIff(f, from);
      DoubleBit(from);
      DividesIff(f, v);
    }
    ProbedIff(chipSize, from, len, minStride, x);
  }

  lemma {:induction false} OffGrid(from: nat, x: nat, f: nat)
    requires IsPowerOfTwo(f) && 0 < from <= x && OnGrid(x - from, f) && !OnGrid(from, f)
    ensures LowBit(x) < f && (x > from ==> LowBit(x) < LowBit(x - from))
  {
    GridSum(x - from, from, f);
    DividesIff(f, x);
    if x > from {
      DividesIff(f, x - from);
    }
  }

  /** A distance below the lowest bit of the start decides the lowest bit. */
  lemma {:induction false} SmallDistance(from: nat, x: nat)
    requires 0 < from < x && LowBit(x - from) < LowBit(from)
    ensures LowBit(x) == LowBit(x - from)
  {
    var w, v := LowBit(x - from), LowBit(from);
    NextPower(w, v);
    NextPower(w, LowBit(x));
    DividesIff(w, from);
    DividesIff(2 * w, from);
    DividesIff(w, x - from);
    DividesIff(2 * w, x - from);
    GridSum(from, x - from, w);
    GridSum(from, x - from, 2 * w);
    DividesIff(w, x);
    DividesIff(2 * w, x);
  }

  lemma {:induction false} DoubleBit(x: nat)
    requires x > 0
    ensures LowBit(x + LowBit(x)) > LowBit(x) && LowBit(LowBit(x)) == LowBit(x)
  {
    if x % 2 == 0 {
      DoubleBit(x / 2);
    }
  }

  /** No offset is probed again. */
  ghost predicate NoneTwice(chipSize: nat, from: nat, len: nat, minStride: nat)
    requires 0 < minStride <= chipSize / 2 && HEADER <= len
  {
    forall x: nat :: Hits(chipSize / 2, minStride, from, len, x) <= 1
  }

  /** Each offset is probed once at most exactly if no two strides that are at least the lowest
      bit of the start fit the range. */
  lemma {:induction false} NoneTwiceIff(chipSize: nat, from: nat, len: nat, minStride: nat)
    requires Posed(chipSize, from, len, minStride)
    ensures NoneTwice(chipSize, from, len, minStride) <==>
            2 * Last(chipSize, minStride) > len || 2 * LowBit(from) > len
  {
    var s, f := chipSize / 2, Last(chipSize, minStride);
    var t := if f <= LowBit(from) then LowBit(from) else f;
    FinalIsPower(s, minStride);
    NextPower(t, t);
    if 2 * t <= len {
      HalfFits(chipSize, 2 * t);
      HitIff(t, from, len - HEADER, from);
      HitIff(2 * t, from, len - HEADER, from);
      HitsTwice(s, t, minStride, from, len, from);
    } else {
      forall x: nat ensures Hits(s, minStride, from, len, x) <= 1 {
        AtMostOnce(chipSize, s, from, len, minStride, x);
      }
    }
  }

  lemma {:induction false} AtMostOnce(chipSize: nat, s: nat, from: nat, len: nat, minStride: nat, x: nat)
    requires Posed(chipSize, from, len, minStride) && IsPowerOfTwo(s)
    requires 2 * Last(chipSize, minStride) > len || 2 * LowBit(from) > len
    ensures Hits(s, minStride, from, len, x) <= 1
  {
    if s >= minStride && s > 1 {
      if s <= len && Hit(s, from, len - HEADER, x) {
        forall t: nat | minStride <= t <= s / 2 && t <= len && IsPowerOfTwo(t)
          ensures !Hit(t, from, len - HEADER, x)
        {
          FinalLeast(chipSize / 2, minStride, t);
          assert t < LowBit(from);
          OneOfTwo(from, len, t, s, x);
        }
        NoHits(s / 2, minStride, from, len, x);
      } else {
        AtMostOnce(chipSize, s / 2, from, len, minStride, x);
      }
    }
  }

  /** A stride below the lowest bit of the start does not share a hit with a larger one. */
  lemma {:induction false} OneOfTwo(from: nat, len: nat, t: nat, s: nat, x: nat)
    requires HEADER <= len && 0 < from && IsPowerOfTwo(t) && IsPowerOfTwo(s) && t < s && t < LowBit(from)
    requires Hit(s, from, len - HEADER, x)
    ensures !Hit(t, from, len - HEADER, x)
  {
    HitIff(t, from, len - HEADER, x);
    HitIff(s, from, len - HEADER, x);
    NextPower(t, s);
    NextPower(t, LowBit(from));
    CommonGrid(from, 2 * t, s, x);
  }

  lemma {:induction false} CommonGrid(from: nat, t: nat, s: nat, x: nat)
    requires 0 < from <= x && IsPowerOfTwo(t) && IsPowerOfTwo(s) && t <= s && t <= LowBit(from)
    requires OnGrid(x - from, s)
    ensures t <= LowBit(x)
  {
    if x > from {
      var d := x - from;
      DividesIff(s, d);
      GridOfSum(d, from, t);
    }
  }

  lemma {:induction false} GridOfSum(d: nat, from: nat, t: nat)
    requires 0 < d && 0 < from && IsPowerOfTwo(t) && t <= LowBit(d) && t <= LowBit(from)
    ensures t <= LowBit(d + from)
  {
    DividesIff(t, d);
    DividesIff(t, from);
    GridSum(d, from, t);
    DividesIff(t, d + from);
  }

  // ----- The one call of the search -------------------------------------------------------------

  /** Every offset of the range that is a multiple of 256 away from its start was probed. */
  ghost predicate NoneLeft(probes: seq<nat>, from: nat, len: nat)
    requires HEADER <= len
  {
    forall x: nat | from <= x <= from + len - HEADER && OnGrid(x - from, MIN_STRIDE) :: x in probes
  }

  lemma {:induction false} LastIs256(chipSize: nat, from: nat, len: nat)
    requires IsPowerOfTwo(chipSize) && 512 <= chipSize && MIN_STRIDE <= len && 0 < from && from + len <= chipSize
    ensures Posed(chipSize, from, len, MIN_STRIDE) && Last(chipSize, MIN_STRIDE) == MIN_STRIDE
  {
    assert IsPowerOfTwo(MIN_STRIDE) && IsPowerOfTwo(chipSize / 2);
    PowerStride(chipSize / 2, MIN_STRIDE);
  }

  /** fmap_read_from_rom with a start other than 0: the search leaves no offset out exactly if
      the start is not a multiple of 256 or its lowest bit just fits the range, and probes none
      twice exactly if the range is shorter than 512 bytes or twice that bit. */
  method SearchFrom(chipSize: nat, romOffset: nat, len: nat, valid: nat -> bool)
    returns (found: Option<nat>, probes: seq<nat>)
    requires IsPowerOfTwo(chipSize) && 512 <= chipSize && MIN_STRIDE <= len
    requires 0 < romOffset && romOffset + len <= chipSize
    ensures found.Some? ==> valid(found.value) && Hits(chipSize / 2, MIN_STRIDE, romOffset, len, found.value) > 0
    ensures found.None? ==>
              (NoneLeft(probes, romOffset, len) <==>
                !OnGrid(romOffset, MIN_STRIDE) || len - HEADER < LowBit(romOffset) <= len)
    ensures found.None? ==>
              ((forall x: nat :: Times(probes, x) <= 1) <==> len < 2 * MIN_STRIDE || len < 2 * LowBit(romOffset))
  {
    LastIs256(chipSize, romOffset, len);
    AllProbedIff(chipSize, romOffset, len, MIN_STRIDE);
    NoneTwiceIff(chipSize, romOffset, len, MIN_STRIDE);
    found, probes := Bsearch(chipSize, romOffset, len, MIN_STRIDE, valid);
    if found.None? {
      AsCounted(chipSize, romOffset, len, probes);
    }
  }

  lemma {:induction false} AsCounted(chipSize: nat, from: nat, len: nat, probes: seq<nat>)
    requires 512 <= chipSize && MIN_STRIDE <= len && Last(chipSize, MIN_STRIDE) == MIN_STRIDE
    requires forall x: nat :: Times(probes, x) == Hits(chipSize / 2, MIN_STRIDE, from, len, x)
    ensures NoneLeft(probes, from, len) <==> AllProbed(chipSize, from, len, MIN_STRIDE)
    ensures (forall x: nat :: Times(probes, x) <= 1) <==> NoneTwice(chipSize, from, len, MIN_STRIDE)
  {
    forall x: nat ensures x in probes <==> Hits(chipSize / 2, MIN_STRIDE, from, len, x) > 0 {
      assert x in probes <==> Times(probes, x) > 0;
    }
    forall x: nat
      ensures Candidate(chipSize, from, len, MIN_STRIDE, x) <==>
              from <= x <= from + len - HEADER && OnGrid(x - from, MIN_STRIDE)
    {
    }
    if NoneTwice(chipSize, from, len, MIN_STRIDE) {
      forall x: nat ensures Times(probes, x) <= 1 {
        assert Hits(chipSize / 2, MIN_STRIDE, from, len, x) <= 1;
      }
    } else {
      var x: nat :| Hits(chipSize / 2, MIN_STRIDE, from, len, x) > 1;
      assert Times(probes, x) > 1;
    }
  }

  lemma {:induction false} StartUnprobed()
    ensures Hits(2048, MIN_STRIDE, 1024, 256, 1024) == 0
  {
    LastIs256(4096, 1024, 256);
    HighBit();
    ProbedIff(4096, 1024, 256, MIN_STRIDE, 1024);
  }

  lemma {:induction false} HighBit()
    ensures LowBit(1024) > 256
  {
    assert OnGrid(512, 512) && OnGrid(1024, 512);
    DividesIff(512, 1024);
  }

  /** A header at the very start of the range is not found. */
  method StartMissed() returns (found: Option<nat>)
    ensures found.None?
  {
    var probes;
    StartUnprobed();
    found, probes := SearchFrom(4096, 1024, 256, x => x == 1024);
  }
}
