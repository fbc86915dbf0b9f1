/** AT45DB DataFlash (at45db.c; address_to_bits in helpers.c): segmented addresses, page writes
    through an on-chip buffer, reads in chunks that run across pages. */
module At45db {
  import opened Numerals
  import opened Pages
  import opened Helpers

  // ----- Addresses -----------------------------------------------------------------------

  /** `bits` is the bit length of `a`. */
  ghost predicate BitLength(a: nat, bits: nat) {
    bits >= 1 && Power(2, bits - 1) <= a < Power(2, bits)
  }

  lemma {:induction false} TopBit(w: nat, n: nat)
    requires w < Power(2, n + 1)
    ensures Digit(w, 2, n) == if w < Power(2, n) then 0 else 1
    decreases n
  {
    if n > 0 {
      TopBit(w / 2, n - 1);
    }
  }

  lemma WordSize()
    ensures Power(2, 32) == 0x1_0000_0000
  {
    assert Power(2, 8) == 0x100;
    assert Power(2, 16) == 0x100 * Power(2, 8);
    assert Power(2, 24) == 0x100 * Power(2, 16);
    assert Power(2, 32) == 0x100 * Power(2, 24);
  }

  /** Counts the leading zero bits of a 32-bit word; zero, for which the count never ends, is
      no legal input. */
  method AddressToBits(addr: nat) returns (bits: nat)
    requires 0 < addr < 0x1_0000_0000
    ensures BitLength(addr, bits) && bits <= 32
  {
    var lzb: nat := 0;
    WordSize();
    while Digit(addr, 2, 31 - lzb) == 0
      invariant lzb <= 31 && addr < Power(2, 32 - lzb)
      decreases 32 - lzb
    {
      TopBit(addr, 31 - lzb);
      lzb := lzb + 1;
    }
    TopBit(addr, 31 - lzb);
    return 32 - lzb;
  }

  lemma {:induction false} PowerGrows(m: nat, n: nat)
    requires m <= n
    ensures Power(2, m) <= Power(2, n)
    decreases n
  {
    if m < n {
      PowerGrows(m, n - 1);
    }
  }

  lemma BitLengthUnique(a: nat, m: nat, n: nat)
    requires BitLength(a, m) && BitLength(a, n)
    ensures m == n
  {
    if m < n {
      PowerGrows(m, n - 1);
    } else if n < m {
      PowerGrows(n, m - 1);
    }
  }

  /** `x << n`. */
  function ShiftLeft(x: nat, n: nat): nat {
    if n == 0 then x else 2 * ShiftLeft(x, n - 1)
  }

  /** `a & (2^n - 1)`. */
  function LowBits(a: nat, n: nat): nat {
    if n == 0 then 0 else a % 2 + 2 * LowBits(a / 2, n - 1)
  }

  /** A low field that fits leaves the high field alone. */
  lemma {:induction false} FieldsApart(x: nat, y: nat, n: nat)
    requires y < Power(2, n)
    ensures LowBits(ShiftLeft(x, n) + y, n) == y && Shifted(ShiftLeft(x, n) + y, 2, n) == x
    decreases n
  {
    if n > 0 {
      var a := ShiftLeft(x, n) + y;
      assert a / 2 == ShiftLeft(x, n - 1) + y / 2 && a % 2 == y % 2;
      ShiftedAgain(a, 2, n);
      FieldsApart(x, y / 2, n - 1);
    }
  }

  lemma {:induction false} ShiftAbove(x: nat, y: nat, n: nat)
    requires x < y
    ensures ShiftLeft(x, n) + Power(2, n) <= ShiftLeft(y, n)
  {
    if n > 0 {
      ShiftAbove(x, y, n - 1);
    }
  }

  /** Page number above, offset in the page below. */
  function Segmented(addr: nat, size: nat, bits: nat): nat
    requires size > 0
  {
    ShiftLeft(addr / size, bits) + addr % size
  }

  /** The chip takes the two parts of a converted address apart again. */
  lemma SegmentedParts(addr: nat, size: nat, bits: nat)
    requires size > 1 && BitLength(size - 1, bits)
    ensures LowBits(Segmented(addr, size, bits), bits) == addr % size
    ensures Shifted(Segmented(addr, size, bits), 2, bits) == addr / size
  {
    FieldsApart(addr / size, addr % size, bits);
  }

  /** Conversion keeps the order strictly, so no two addresses collide. */
  lemma SegmentedIncreasing(a: nat, b: nat, size: nat, bits: nat)
    requires size > 1 && BitLength(size - 1, bits) && a < b
    ensures Segmented(a, size, bits) < Segmented(b, size, bits)
  {
    var p, q := a / size, b / size;
    Ordered(a, b, size);
    if p < q {
      ShiftAbove(p, q, bits);
    }
  }

  lemma Ordered(a: nat, b: nat, size: nat)
    requires size > 0 && a < b
    ensures a / size < b / size || (a / size == b / size && a % size < b % size)
  {
    var p, q := a / size, b / size;
    assert a == size * p + a % size && b == size * q + b % size;
    if p > q {
      Above(size, p, q);
    }
  }

  lemma {:induction false} ShiftOne(n: nat)
    ensures ShiftLeft(1, n) == Power(2, n)
  {
    if n > 0 {
      ShiftOne(n - 1);
    }
  }

  lemma {:induction false} ShiftTimes(x: nat, n: nat)
    ensures ShiftLeft(x, n) == Power(2, n) * x
  {
    if n > 0 {
      ShiftTimes(x, n - 1);
      assert 2 * (Power(2, n - 1) * x) == (2 * Power(2, n - 1)) * x;
    }
  }

  lemma SegmentedSame(a: nat, size: nat, bits: nat)
    requires size == Power(2, bits) && size > 0
    ensures Segmented(a, size, bits) == a
  {
    ShiftTimes(a / size, bits);
    assert a == size * (a / size) + a % size;
  }

  lemma OnePage(size: nat)
    requires size > 0
    ensures size / size == 1 && size % size == 0
  {
    DivMod(0, size, 1);
  }

  /** Addresses pass unchanged exactly when the page size is a power of two. */
  lemma SegmentedIdentity(size: nat, bits: nat)
    requires size > 1 && BitLength(size - 1, bits)
    ensures IsPowerOfTwo(size) <==> forall a: nat :: Segmented(a, size, bits) == a
  {
    if size == Power(2, bits) {
      forall a: nat ensures Segmented(a, size, bits) == a {
        SegmentedSame(a, size, bits);
      }
      PowerIsPowerOfTwo(bits);
    } else {
      ShiftOne(bits);
      OnePage(size);
      assert Segmented(size, size, bits) == Power(2, bits);
      if IsPowerOfTwo(size) {
        var k := Exponent(size);
        if k < bits {
          PowerGrows(k, bits - 1);
        } else {
          PowerGrows(bits, k);
        }
        assert false;
      }
    }
  }

  // ----- The chip ------------------------------------------------------------------------

  /** The byte at an offset of a page. */
  function ByteAt(mem: seq<octet>, size: nat, page: nat, off: nat): octet {
    var a := PageStart(page, size) + off;
    if off < size && a < |mem| then mem[a] else 0
  }

  function NextByte(size: nat, page: nat, off: nat): (r: (nat, nat))
    ensures off < size ==> r.1 < size && PageStart(r.0, size) + r.1 == PageStart(page, size) + off + 1
  {
    if off + 1 < size then (page, off + 1) else (page + 1, 0)
  }

  /** A continuous read: the offset counts up, then the next page begins. */
  function ReadOut(mem: seq<octet>, size: nat, page: nat, off: nat, n: nat): seq<octet>
    decreases n
  {
    if n == 0 then []
    else
      var (p, o) := NextByte(size, page, off);
      [ByteAt(mem, size, page, off)] + ReadOut(mem, size, p, o, n - 1)
  }

  lemma {:induction false} ReadOutRun(mem: seq<octet>, size: nat, page: nat, off: nat, n: nat, a: nat, b: nat)
    requires off < size && a == PageStart(page, size) + off && a + n == b <= |mem|
    ensures ReadOut(mem, size, page, off, n) == mem[a..b]
    decreases n
  {
    if n > 0 {
      var (p, o) := NextByte(size, page, off);
      ReadOutRun(mem, size, p, o, n - 1, a + 1, b);
      FirstByte(mem, a, b);
    }
  }

  lemma FirstByte(mem: seq<octet>, a: nat, b: nat)
    requires a < b <= |mem|
    ensures mem[a..b] == [mem[a]] + mem[a + 1..b]
  {
  }

  function Patched(b: seq<octet>, off: nat, data: seq<octet>): (r: seq<octet>)
    requires off + |data| <= |b|
    ensures |r| == |b|
  {
    b[..off] + data + b[off + |data|..]
  }

  /** `b0` with the part of `bytes` from `off` to `at` put in. */
  ghost function Filled(b0: seq<octet>, bytes: seq<octet>, off: nat, at: nat): seq<octet>
    requires off <= at <= |b0| == |bytes|
  {
    b0[..off] + bytes[off..at] + b0[at..]
  }

  lemma FilledOn(b0: seq<octet>, bytes: seq<octet>, off: nat, at: nat, til: nat)
    requires off <= at <= til <= |b0| == |bytes|
    ensures Patched(Filled(b0, bytes, off, at), at, bytes[at..til]) == Filled(b0, bytes, off, til)
  {
  }

  /** From entry `from` on the log holds chunks of `limit` bytes; with `rest` the last one may
      be shorter. */
  ghost predicate InChunks(log: seq<nat>, from: nat, limit: nat, rest: bool) {
    && from <= |log|
    && forall i | from <= i < |log| :: 0 < log[i] <= limit && (i < |log| - 1 || !rest ==> log[i] == limit)
  }

  lemma NextChunk(log: seq<nat>, from: nat, limit: nat, left: nat)
    requires InChunks(log, from, limit, false) && limit > 0 && left > 0
    ensures var n := Min(limit, left); InChunks(log + [n], from, limit, n == left)
    ensures var n := Min(limit, left); InChunks(log + [n], from, limit, true)
  {
  }

  /** Buffer writes from entry `from` on fit the programmer, with opcode and address. */
  ghost predicate Sendable(log: seq<nat>, from: nat, max: nat) {
    from <= |log| && forall i | from <= i < |log| :: 4 + log[i] <= max
  }

  lemma SendableIff(log: seq<nat>, from: nat, max: nat, size: nat)
    requires InChunks(log, from, if max > 4 then Min(max - 4, size) else size, true) && from < |log|
    ensures Sendable(log, from, max) <==> max > 4
  {
    if max <= 4 {
      assert 4 + log[from] > max;
    }
  }

  /** `fails` and `late` say which commands are not taken and which outlast the wait. */
  class Dataflash {
    const size: nat
    const bits: nat
    const maxDataRead: nat
    const maxDataWrite: nat
    const fails: nat -> bool
    const late: nat -> bool
    var count: nat
    var mem: seq<octet>
    var buffer1: seq<octet>
    /** Data bytes of each array read and each buffer write. */
    ghost var log: seq<nat>

    ghost predicate Valid()
      reads this
    {
      1 < size < 0x1_0000_0000 && BitLength(size - 1, bits) && |buffer1| == size
    }

    constructor (size: nat, bits: nat, maxDataRead: nat, maxDataWrite: nat, fails: nat -> bool, late: nat -> bool,
                 mem: seq<octet>, buffer1: seq<octet>)
      requires 1 < size < 0x1_0000_0000 && BitLength(size - 1, bits) && |buffer1| == size
      ensures Valid() && this.size == size && this.mem == mem
    {
      this.size, this.bits, this.maxDataRead, this.maxDataWrite := size, bits, maxDataRead, maxDataWrite;
      this.fails, this.late, this.mem, this.buffer1, count, log := fails, late, mem, buffer1, 0, [];
    }

    /** No command from number `i` up to `j` failed. */
    ghost predicate NoneFailed(i: nat, j: nat) {
      forall n | i <= n < j :: !fails(n)
    }

    /** No command from number `i` up to `j` failed or outlasted its wait. */
    ghost predicate AllWell(i: nat, j: nat) {
      forall n | i <= n < j :: !fails(n) && !late(n)
    }

    method ConvertAddr(addr: nat) returns (a: nat)
      requires Valid()
      ensures a == Segmented(addr, size, bits)
    {
      var pageBits := AddressToBits(size - 1);
      BitLengthUnique(size - 1, pageBits, bits);
      a := Segmented(addr, size, pageBits);
    }

    /** Continuous array read at a segmented address. */
    method CommandRead(a: nat, n: nat) returns (rc: int, data: seq<octet>)
      requires Valid()
      modifies this`count, this`log
      ensures count == old(count) + 1 && (rc == if fails(old(count)) then 1 else 0) && log == old(log) + [n]
      ensures rc == 0 ==> data == ReadOut(mem, size, Shifted(a, 2, bits), LowBits(a, bits), n)
    {
      count, log := count + 1, log + [n];
      data := ReadOut(mem, size, Shifted(a, 2, bits), LowBits(a, bits), n);
      rc := if fails(count - 1) then 1 else 0;
    }

    method CommandFill(off: nat, data: seq<octet>) returns (rc: int)
      requires Valid() && off + |data| <= size
      modifies this`count, this`buffer1, this`log
      ensures Valid() && count == old(count) + 1 && log == old(log) + [|data|]
      ensures rc == if fails(old(count)) then 1 else 0
      ensures buffer1 == if rc == 0 then Patched(old(buffer1), off, data) else old(buffer1)
    {
      count, log := count + 1, log + [|data|];
      if fails(count - 1) {
        return 1;
      }
      buffer1 := Patched(buffer1, off, data);
      rc := 0;
    }

    /** Programs buffer 1 into the page of a segmented address; the wait may still fail. */
    method CommitBuffer1(a: nat) returns (rc: int, ghost programmed: bool)
      requires Valid()
      modifies this`count, this`mem
      ensures Valid() && (rc == 0 ==> programmed) && count == old(count) + 1
      ensures rc == if fails(old(count)) || late(old(count)) then 1 else 0
      ensures mem == if programmed then ProgramAt(old(mem), PageStart(Shifted(a, 2, bits), size), buffer1) else old(mem)
    {
      var n := count;
      count := count + 1;
      if fails(n) {
        return 1, false;
      }
      mem := ProgramAt(mem, PageStart(Shifted(a, 2, bits), size), buffer1);
      return if late(n) then 1 else 0, true;
    }

    /** One read command, wherever it starts in its page. */
    method ReadChunk(at: nat, chunk: nat) returns (rc: int, part: seq<octet>)
      requires Valid() && at + chunk <= |mem|
      modifies this`count, this`log
      ensures rc == 0 ==> part == mem[at..at + chunk]
      ensures log == old(log) + [chunk] && count == old(count) + 1 && (rc == if fails(old(count)) then 1 else 0)
    {
      var a := ConvertAddr(at);
      SegmentedParts(at, size, bits);
      rc, part := CommandRead(a, chunk);
      Whole(at, size);
      ReadOutRun(mem, size, at / size, at % size, chunk, at, at + chunk);
    }

    /** Any chunk limit and any range inside the chip: success delivers the range, with reads as
        long as the programmer allows. */
    method SpiRead(addr: nat, len: nat) returns (rc: int, buf: seq<octet>)
      requires Valid()
      modifies this`count, this`log
      ensures rc == 0 ==> addr + len <= |mem| && buf == mem[addr..addr + len]
      ensures InChunks(log, |old(log)|, if maxDataRead > 0 then maxDataRead else size, true)
      ensures rc in {0, 1} && (addr + len > |mem| ==> rc == 1)
      ensures count >= old(count)
      ensures addr + len <= |mem| ==> (rc == 0 <==> NoneFailed(old(count), count))
    {
      buf := [];
      if addr + len > |mem| {
        return 1, buf;
      }
      var maxChunk := if maxDataRead > 0 then maxDataRead else size;
      var at, left := addr, len;
      while left > 0
        invariant count >= old(count) && NoneFailed(old(count), count)
        invariant left >= 0 && addr <= at && at + left == addr + len && buf == mem[addr..at]
        invariant InChunks(log, |old(log)|, maxChunk, left == 0)
      {
        var chunk := Min(maxChunk, left);
        NextChunk(log, |old(log)|, maxChunk, left);
        var part;
        rc, part := ReadChunk(at, chunk);
        if rc != 0 {
          assert fails(count - 1);
          return rc, buf;
        }
        buf := buf + part;
        at, left := at + chunk, left - chunk;
      }
      rc := 0;
    }

    /** Loads the buffer from `off` on, in chunks as long as the programmer can send; one that
        can send no more than 4 bytes, or whose limit is unknown, gets all in one command. */
    method FillBuffer1(bytes: seq<octet>, off: nat, len: nat) returns (rc: int)
      requires Valid() && |bytes| == size
      modifies this`count, this`buffer1, this`log
      ensures InChunks(log, |old(log)|, if maxDataWrite > 4 then Min(maxDataWrite - 4, size) else size, true)
      ensures off < size && off + len <= size ==> |log| > |old(log)|
      ensures Valid() && (off + len > size ==> rc == 1 && buffer1 == old(buffer1))
      ensures rc == 0 ==> buffer1 == old(buffer1)[..off] + bytes[off..]
      ensures count >= old(count)
      ensures rc in {0, 1} && (off + len <= size ==> (rc == 0 <==> NoneFailed(old(count), count)))
    {
      if off + len > size {
        return 1;
      }
      var maxChunk := if maxDataWrite > 4 && maxDataWrite - 4 <= size then maxDataWrite - 4 else size;
      ghost var b0 := buffer1;
      var at := off;
      while at < size
        invariant Valid() && off <= at <= size && count >= old(count)
        invariant NoneFailed(old(count), count) && buffer1 == Filled(b0, bytes, off, at)
        invariant InChunks(log, |old(log)|, maxChunk, at == size) && (at > off ==> |log| > |old(log)|)
      {
        rc, at := FillChunk(bytes, at, maxChunk, b0, off, |old(log)|, old(count));
        if rc != 0 {
          return;
        }
      }
      rc := 0;
    }

    /** The next chunk of the loop above. */
    method FillChunk(bytes: seq<octet>, at: nat, maxChunk: nat, ghost b0: seq<octet>, ghost off: nat, ghost from: nat,
                     ghost n: nat)
      returns (rc: int, at': nat)
      requires Valid() && |bytes| == |b0| == size && off <= at < size && maxChunk > 0 && n <= count
      requires NoneFailed(n, count) && buffer1 == Filled(b0, bytes, off, at) && InChunks(log, from, maxChunk, false)
      modifies this`count, this`buffer1, this`log
      ensures Valid() && |log| > |old(log)| && at < at' <= size && count > n
      ensures rc in {0, 1} && (rc == 0 <==> NoneFailed(n, count))
      ensures rc == 0 ==> buffer1 == Filled(b0, bytes, off, at') && InChunks(log, from, maxChunk, at' == size)
      ensures InChunks(log, from, maxChunk, true)
    {
      var chunk := Min(maxChunk, size - at);
      NextChunk(log, from, maxChunk, size - at);
      rc := CommandFill(at, bytes[at..at + chunk]);
      at' := at + chunk;
      if rc == 0 {
        FilledOn(b0, bytes, off, at, at');
      } else {
        assert fails(count - 1);
      }
    }

    /** Fills the buffer and commits it to the page that starts at `at`. */
    method ProgramPage(page: seq<octet>, at: nat) returns (rc: int, ghost programmed: bool)
      requires Valid() && |page| == size && at % size == 0
      modifies this`count, this`buffer1, this`mem, this`log
      ensures Valid() && (rc == 0 ==> programmed) && rc in {0, 1} && count >= old(count)
      ensures |old(log)| <= |log| && (Sendable(log, |old(log)|, maxDataWrite) <==> maxDataWrite > 4)
      ensures AllWell(old(count), count) ==> rc == 0
      ensures Stored(old(mem), mem, at, page, if programmed then size else 0)
    {
      programmed := false;
      rc := FillBuffer1(page, 0, size);
      SendableIff(log, |old(log)|, maxDataWrite, size);
      if rc != 0 {
        return;
      }
      assert buffer1 == page;
      var a := ConvertAddr(at);
      PageOfSegmented(at, size, bits);
      rc, programmed := CommitBuffer1(a);
    }

    /** Whole pages inside the chip only.  Success programs exactly the range; an error leaves
        a whole number of pages done and everything else as it was. */
    method SpiWrite(buf: seq<octet>, start: nat) returns (rc: int, ghost done: nat)
      requires Valid()
      modifies this`count, this`buffer1, this`mem, this`log
      ensures Valid() && (rc == 0 || rc == 1)
      ensures done <= |buf| && done % size == 0 && Stored(old(mem), mem, start, buf, done)
      ensures rc == 0 ==> done == |buf| && start + |buf| <= |mem|
      ensures count >= old(count)
      ensures start % size == 0 && |buf| % size == 0 && start + |buf| <= |mem| && AllWell(old(count), count) ==> rc == 0
      ensures start % size != 0 || |buf| % size != 0 || start + |buf| > |mem| ==> rc == 1 && mem == old(mem)
    {
      done := 0;
      if start % size != 0 || |buf| % size != 0 {
        return 1, done;
      }
      if start + |buf| > |mem| {
        return 1, done;
      }
      ghost var m0 := mem;
      ghost var pages := 0;
      PageFits(|buf|, size, 0, start);
      var i := 0;
      while i < |buf|
        invariant count >= old(count) && Valid() && i == done == PageStart(pages, size) && |mem| == |m0|
        invariant i <= |buf| && i % size == 0 && pages <= |buf| / size && Stored(m0, mem, start, buf, done)
        decreases |buf| - i
      {
        rc, done := NextPage(buf, start, i, pages, m0);
        if rc != 0 {
          return 1, done;
        }
        i := i + size;
        pages := pages + 1;
      }
      rc := 0;
    }

    /** One turn of the loop above. */
    method NextPage(buf: seq<octet>, start: nat, i: nat, ghost pages: nat, ghost m0: seq<octet>)
      returns (rc: int, ghost done: nat)
      requires Valid() && start % size == 0 && |buf| % size == 0 && start + |buf| <= |mem| == |m0|
      requires pages <= |buf| / size && i == PageStart(pages, size) < |buf| && i % size == 0
      requires Stored(m0, mem, start, buf, i)
      modifies this`count, this`buffer1, this`mem, this`log
      ensures Valid() && count >= old(count) && |mem| == |m0| && done in {i, i + size} && done % size == 0
      ensures i + size == PageStart(pages + 1, size) && i + size <= |buf| && Stored(m0, mem, start, buf, done)
      ensures (i + size) % size == 0 && pages + 1 <= |buf| / size && (rc == 0 ==> done == i + size)
      ensures AllWell(old(count), count) ==> rc == 0
    {
      PageFits(|buf|, size, pages, start);
      ghost var m, programmed := mem, false;
      rc, programmed := ProgramPage(buf[i..i + size], start + i);
      StoredMore(m0, m, mem, start, buf, i, size, programmed);
      done := if programmed then i + size else i;
    }

    /** Writing erased pages and reading the range back, whatever the two chunk limits. */
    method WriteReadBack(buf: seq<octet>, start: nat) returns (wrote: int, read: int, back: seq<octet>)
      requires Valid() && forall k | start <= k < start + |buf| && k < |mem| :: mem[k] == 0xff
      modifies this`count, this`buffer1, this`mem, this`log
      ensures wrote == 0 && read == 0 ==> back == buf
      ensures start % size == 0 && |buf| % size == 0 && start + |buf| <= |mem| && AllWell(old(count), count) ==>
                wrote == 0 && read == 0 && back == buf
    {
      ghost var m0 := mem;
      ghost var done;
      wrote, done := SpiWrite(buf, start);
      if wrote == 0 {
        StoredOnErased(m0, mem, start, buf);
      }
      read, back := SpiRead(start, |buf|);
    }
  }

  lemma PageOfSegmented(at: nat, size: nat, bits: nat)
    requires size > 1 && BitLength(size - 1, bits) && at % size == 0
    ensures PageStart(Shifted(Segmented(at, size, bits), 2, bits), size) == at
  {
    SegmentedParts(at, size, bits);
    Whole(at, size);
  }

  lemma Whole(a: nat, size: nat)
    requires size > 0
    ensures a == PageStart(a / size, size) + a % size
  {
    PageStartIs(a / size, size);
  }
}
