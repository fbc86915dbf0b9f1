/** Write granularity of a flash chip: which chunks can be programmed without an
    erase, and which run of chunks has to be programmed next
    (flashrom.c: need_erase, get_next_write).

    All addresses are absolute chip addresses.  A chunk is `Stride(g)` bytes long
    and starts at a multiple of the stride. */
module Granularity {
  import Numerals

  type byte = bv8
  type Image = seq<byte>

  type positive = n: nat | n > 0 witness 1

  /** The write granularities of enum write_granularity.  `GranBytes(n)` stands for the
      members that count bytes (n = 1, 128, 256, 264, 512, 528, 1024, 1056); nothing
      below depends on which positive number n is. */
  datatype WriteGranularity = Gran1Bit | GranBytes(bytes: positive) | Gran1ByteImplicitErase

  function Stride(g: WriteGranularity): (s: positive) {
    if g.GranBytes? then g.bytes else 1
  }

  // ----- The chunk grid -------------------------------------------------------

  /** `a` is a multiple of `s`; recursive, so that proofs about it stay linear. */
  predicate OnGrid(a: nat, s: nat)
    requires s > 0
  {
    if a < s then a == 0 else OnGrid(a - s, s)
  }

  /** Start of the chunk that holds address `a`. */
  function Base(a: nat, s: nat): (c: nat)
    requires s > 0
    ensures c <= a < c + s && OnGrid(c, s)
  {
    if a < s then 0 else s + Base(a - s, s)
  }

  lemma {:induction false} OnGridIsMultiple(a: nat, s: nat)
    requires s > 0
    ensures OnGrid(a, s) <==> a % s == 0
  {
    if a >= s {
      OnGridIsMultiple(a - s, s);
      assert (a - s) % s == a % s by {
        var q, r := a / s, a % s;
        assert a == s * q + r;
        assert a - s == s * (q - 1) + r;
        Numerals.DivMod(r, s, q - 1);
      }
    }
  }

  /** Two grid points are at least one stride apart. */
  lemma {:induction false} GridGap(a: nat, b: nat, s: nat)
    requires s > 0 && OnGrid(a, s) && OnGrid(b, s) && a < b
    ensures a + s <= b
  {
    if a >= s {
      GridGap(a - s, b - s, s);
    }
  }

  /** The chunk of `a` is the only chunk that holds it. */
  lemma {:induction false} BaseUnique(a: nat, c: nat, s: nat)
    requires s > 0 && OnGrid(c, s) && c <= a < c + s
    ensures Base(a, s) == c
  {
    if Base(a, s) < c {
      GridGap(Base(a, s), c, s);
    } else if c < Base(a, s) {
      GridGap(c, Base(a, s), s);
    }
  }

  /** A chunk does not stick out of an interval whose ends are grid points. */
  lemma {:induction false} BaseWithin(a: nat, lo: nat, hi: nat, s: nat)
    requires s > 0 && OnGrid(lo, s) && OnGrid(hi, s) && lo <= a < hi
    ensures lo <= Base(a, s) && Base(a, s) + s <= hi
  {
    GridGap(Base(a, s), hi, s);
    if Base(a, s) < lo {
      GridGap(Base(a, s), lo, s);
    }
  }

  // ----- Chunk predicates -----------------------------------------------------

  predicate Same(x: Image, y: Image, lo: nat, hi: nat)
    requires hi <= |x| && hi <= |y|
  {
    forall i | lo <= i < hi :: x[i] == y[i]
  }

  predicate Filled(x: Image, v: byte, lo: nat, hi: nat)
    requires hi <= |x|
  {
    forall i | lo <= i < hi :: x[i] == v
  }

  /** The chunk at `c` has to be programmed to turn `have` into `want`. */
  predicate DiffAt(g: WriteGranularity, have: Image, want: Image, c: nat)
    requires c + Stride(g) <= |have| && c + Stride(g) <= |want|
  {
    !Same(have, want, c, c + Stride(g))
  }

  /** The chunk at `c` cannot be turned into `want` by programming alone. */
  predicate BadAt(g: WriteGranularity, ev: byte, have: Image, want: Image, c: nat)
    requires c + Stride(g) <= |have| && c + Stride(g) <= |want|
  {
    match g
    case Gran1Bit => have[c] & want[c] != want[c]
    case Gran1ByteImplicitErase => false
    case GranBytes(_) => DiffAt(g, have, want, c) && !Filled(have, ev, c, c + Stride(g))
  }

  /** NOR rule for one chunk of the chip: programming `want` over `mem` stores `want`. */
  predicate LegalAt(g: WriteGranularity, ev: byte, mem: Image, want: Image, c: nat)
    requires c + Stride(g) <= |mem| && c + Stride(g) <= |want|
  {
    match g
    case Gran1Bit => mem[c] & want[c] == want[c]
    case Gran1ByteImplicitErase => true
    case GranBytes(_) => Filled(mem, ev, c, c + Stride(g))
  }

  // The same predicates for the chunk that holds address `a`.

  predicate Diff(g: WriteGranularity, have: Image, want: Image, a: nat) {
    var c := Base(a, Stride(g));
    c + Stride(g) <= |have| && c + Stride(g) <= |want| && DiffAt(g, have, want, c)
  }

  predicate Bad(g: WriteGranularity, ev: byte, have: Image, want: Image, a: nat) {
    var c := Base(a, Stride(g));
    c + Stride(g) <= |have| && c + Stride(g) <= |want| && BadAt(g, ev, have, want, c)
  }

  predicate Legal(g: WriteGranularity, ev: byte, mem: Image, want: Image, a: nat) {
    var c := Base(a, Stride(g));
    c + Stride(g) <= |mem| && c + Stride(g) <= |want| && LegalAt(g, ev, mem, want, c)
  }

  /** What one-bit granularity assumes of the erased state. */
  predicate ErasedOk(g: WriteGranularity, ev: byte) {
    g.Gran1Bit? ==> ev == 0xFF
  }

  /** A differing chunk is legal to program exactly when it needs no erase first. */
  lemma DifferingChunkLegal(g: WriteGranularity, ev: byte, mem: Image, have: Image, want: Image, c: nat)
    requires c + Stride(g) <= |mem| && c + Stride(g) <= |have| && c + Stride(g) <= |want|
    requires Same(mem, have, c, c + Stride(g)) && DiffAt(g, have, want, c)
    ensures LegalAt(g, ev, mem, want, c) <==> !BadAt(g, ev, have, want, c)
  {
    if g.GranBytes? {
      assert Filled(mem, ev, c, c + Stride(g)) <==> Filled(have, ev, c, c + Stride(g));
    }
  }

  /** A bad chunk differs. */
  lemma BadDiffers(g: WriteGranularity, ev: byte, have: Image, want: Image, c: nat)
    requires c + Stride(g) <= |have| && c + Stride(g) <= |want|
    requires BadAt(g, ev, have, want, c)
    ensures DiffAt(g, have, want, c)
  {
    assert g.Gran1Bit? ==> have[c] & have[c] == have[c];
  }

  /** What is said about a chunk depends on its bytes only. */
  lemma ChunkSame(g: WriteGranularity, ev: byte, x: Image, x': Image, want: Image, a: nat)
    requires |x| == |x'|
    requires var c := Base(a, Stride(g)); c + Stride(g) <= |x| ==> Same(x, x', c, c + Stride(g))
    ensures Diff(g, x, want, a) <==> Diff(g, x', want, a)
    ensures Bad(g, ev, x, want, a) <==> Bad(g, ev, x', want, a)
    ensures Legal(g, ev, x, want, a) <==> Legal(g, ev, x', want, a)
  {
  }

  /** At one-bit granularity every byte is a chunk. */
  lemma OneBitChunk(ev: byte, have: Image, want: Image, a: nat)
    requires a < |have| && a < |want|
    ensures Base(a, 1) == a
    ensures Diff(Gran1Bit, have, want, a) <==> have[a] != want[a]
    ensures Bad(Gran1Bit, ev, have, want, a) <==> have[a] & want[a] != want[a]
    ensures Legal(Gran1Bit, ev, have, want, a) <==> have[a] & want[a] == want[a]
  {
    OneByteChunk(a);
  }

  lemma {:induction false} OneByteChunk(a: nat)
    ensures Base(a, 1) == a
  {
    if a >= 1 {
      OneByteChunk(a - 1);
    }
  }

  lemma ErasedNotBad(g: WriteGranularity, ev: byte, have: Image, want: Image, c: nat)
    requires c + Stride(g) <= |have| && c + Stride(g) <= |want|
    requires ErasedOk(g, ev) && Filled(have, ev, c, c + Stride(g))
    ensures !BadAt(g, ev, have, want, c)
  {
    if g.Gran1Bit? {
      assert have[c] == 0xFF;
    }
  }

  // ----- need_erase -----------------------------------------------------------

  /** Some whole chunk of `[lo, hi)` cannot be programmed without an erase. */
  ghost predicate NeedsErase(g: WriteGranularity, ev: byte, have: Image, want: Image, lo: nat, hi: nat)
    requires hi <= |have| && hi <= |want|
  {
    exists c: nat :: lo <= c && c + Stride(g) <= hi && OnGrid(c, Stride(g)) && BadAt(g, ev, have, want, c)
  }

  method NeedErase(have: array<byte>, want: array<byte>, lo: nat, len: nat,
                   g: WriteGranularity, ev: byte) returns (result: bool)
    requires lo + len <= have.Length && lo + len <= want.Length
    requires OnGrid(lo, Stride(g))
    ensures result <==> NeedsErase(g, ev, have[..], want[..], lo, lo + len)
  {
    var stride := Stride(g);
    result := false;
    var h, w := have[..], want[..];
    var c := lo;
    while c + stride <= lo + len
      invariant lo <= c <= lo + len && OnGrid(c, stride)
      invariant forall d: nat | lo <= d < c && d + stride <= lo + len && OnGrid(d, stride) ::
                  !BadAt(g, ev, h, w, d)
    {
      if BadAt(g, ev, h, w, c) {
        return true;
      }
      forall d: nat | c < d < c + stride && OnGrid(d, stride) ensures false {
        GridGap(c, d, stride);
      }
      c := c + stride;
      assert OnGrid(c, stride);
    }
  }

  // ----- get_next_write -------------------------------------------------------

  /** `[start, end)` is a run of chunks that all differ. */
  ghost predicate DiffRun(g: WriteGranularity, have: Image, want: Image, start: nat, end: nat)
    requires end <= |have| && end <= |want|
  {
    && OnGrid(start, Stride(g)) && OnGrid(end, Stride(g))
    && forall c: nat | start <= c && c + Stride(g) <= end && OnGrid(c, Stride(g)) :: DiffAt(g, have, want, c)
  }

  lemma ExtendRun(g: WriteGranularity, have: Image, want: Image, start: nat, c: nat)
    requires start <= c && c + Stride(g) <= |have| && c + Stride(g) <= |want|
    requires OnGrid(start, Stride(g)) && OnGrid(c, Stride(g)) && DiffRun(g, have, want, start, c)
    requires DiffAt(g, have, want, c)
    ensures DiffRun(g, have, want, start, c + Stride(g))
  {
    var s := Stride(g);
    assert OnGrid(c + s, s);
    forall d: nat | start <= d && d + s <= c + s && OnGrid(d, s) ensures DiffAt(g, have, want, d) {
      if d < c {
        GridGap(d, c, s);
      }
    }
  }

  /** `[start, end)` is the first maximal run of differing chunks of `[lo, hi)`. */
  ghost predicate FirstRun(g: WriteGranularity, have: Image, want: Image, lo: nat, hi: nat, start: nat, end: nat) {
    && lo <= start < end <= hi <= |have| && hi <= |want|
    && Same(have, want, lo, start)
    && DiffRun(g, have, want, start, end)
    && (end < hi ==> end + Stride(g) <= hi && !DiffAt(g, have, want, end))
  }

  /** The scan of get_next_write has passed `[lo, c)`; if it found a difference, the run
      of differing chunks that began at `start` still lasts. */
  ghost predicate Scanning(g: WriteGranularity, have: Image, want: Image, lo: nat, start: nat, c: nat, found: bool)
    requires c <= |have| && c <= |want|
  {
    if found then lo <= start < c && Same(have, want, lo, start) && DiffRun(g, have, want, start, c)
    else start == lo && Same(have, want, lo, c)
  }

  lemma ScanStep(g: WriteGranularity, have: Image, want: Image, lo: nat, start: nat, c: nat, found: bool)
    requires lo <= c && c + Stride(g) <= |have| && c + Stride(g) <= |want| && OnGrid(c, Stride(g))
    requires Scanning(g, have, want, lo, start, c, found)
    ensures DiffAt(g, have, want, c) ==>
              Scanning(g, have, want, lo, if found then start else c, c + Stride(g), true)
    ensures !DiffAt(g, have, want, c) && !found ==> Scanning(g, have, want, lo, start, c + Stride(g), false)
  {
    if DiffAt(g, have, want, c) {
      ExtendRun(g, have, want, if found then start else c, c);
    }
  }

  lemma ScanDone(g: WriteGranularity, have: Image, want: Image, lo: nat, hi: nat, start: nat, c: nat, found: bool)
    requires lo <= c <= hi <= |have| && hi <= |want| && OnGrid(c, Stride(g)) && OnGrid(hi, Stride(g))
    requires Scanning(g, have, want, lo, start, c, found)
    requires c + Stride(g) <= hi ==> found && !DiffAt(g, have, want, c)
    ensures if found then FirstRun(g, have, want, lo, hi, start, c) else start == lo && Same(have, want, lo, hi)
  {
    if c < hi {
      GridGap(c, hi, Stride(g));
    }
  }

  /** The whole chunks of an interval that starts on the grid. */
  lemma WholeChunks(lo: nat, hi: nat, s: nat, c: nat)
    requires s > 0 && OnGrid(lo, s) && OnGrid(c, s) && lo <= hi && lo <= c <= hi
    ensures c <= Base(hi, s) && lo <= Base(hi, s)
    ensures c + s <= Base(hi, s) <==> c + s <= hi
  {
    if Base(hi, s) < c {
      GridGap(Base(hi, s), c, s);
    } else if c < Base(hi, s) {
      GridGap(c, Base(hi, s), s);
    }
  }

  /** The end of the scan of `[lo, hi)`, whose last bytes may be less than a chunk. */
  lemma ScanEnds(g: WriteGranularity, have: Image, want: Image, lo: nat, hi: nat, start: nat, c: nat, found: bool)
    requires lo <= c <= hi <= |have| && hi <= |want| && OnGrid(lo, Stride(g)) && OnGrid(c, Stride(g))
    requires Scanning(g, have, want, lo, start, c, found)
    requires c + Stride(g) <= hi ==> found && !DiffAt(g, have, want, c)
    ensures var top := Base(hi, Stride(g));
            if found then FirstRun(g, have, want, lo, top, start, c) else start == lo && Same(have, want, lo, top)
  {
    WholeChunks(lo, hi, Stride(g), c);
    ScanDone(g, have, want, lo, Base(hi, Stride(g)), start, c, found);
  }

  /** Finds the first maximal run of differing chunks among the whole chunks of
      `[lo, lo + len)`.  Chunk `i` of the scan starts at `c`. */
  method GetNextWrite(have: array<byte>, want: array<byte>, lo: nat, len: nat, firstStart: nat,
                      g: WriteGranularity) returns (first': nat, firstLen: nat)
    requires lo + len <= have.Length && lo + len <= want.Length
    requires OnGrid(lo, Stride(g))
    ensures firstLen == 0 ==> first' == firstStart && Same(have[..], want[..], lo, Base(lo + len, Stride(g)))
    ensures firstLen > 0 ==>
              && firstStart <= first'
              && FirstRun(g, have[..], want[..], lo, Base(lo + len, Stride(g)),
                          lo + (first' - firstStart), lo + (first' - firstStart) + firstLen)
  {
    var stride := Stride(g);
    var h, w := have[..], want[..];
    var hi := lo + len;
    var needWrite := false;
    var start, c := lo, lo;   // start is the address of offset rel_start
    while c + stride <= hi
      invariant lo <= c <= hi && OnGrid(c, stride) && start >= 0
      invariant Scanning(g, h, w, lo, start, c, needWrite)
    {
      ScanStep(g, h, w, lo, start, c, needWrite);
      if DiffAt(g, h, w, c) {
        if !needWrite {
          needWrite := true;
          start := c;
        }
      } else if needWrite {
        break;
      }
      c := c + stride;
    }
    ScanEnds(g, h, w, lo, hi, start, c, needWrite);
    firstLen := if needWrite then c - start else 0;
    first' := firstStart + (start - lo);
  }
}
