/** Bytes as numbers and flash memory that is programmed page by page, for the drivers that
    send whole pages. */
module Pages {
  import opened Numerals

  /** Programming only clears bits. */
  function And(a: octet, b: octet): (r: octet)
    ensures a == 0xff ==> r == b
  {
    var bits := seq(8, i requires 0 <= i < 8 => Digit(a, 2, i) * Digit(b, 2, i));
    AndFits(a, b, bits);
    Pack(bits, 2)
  }

  lemma AndFits(a: octet, b: octet, bits: seq<nat>)
    requires |bits| == 8 && forall i | 0 <= i < 8 :: bits[i] == Digit(a, 2, i) * Digit(b, 2, i)
    ensures Pack(bits, 2) < 256 && (a == 0xff ==> Pack(bits, 2) == b)
  {
    assert Power(2, 8) == 2 * Power(2, 7) == 4 * Power(2, 6) == 8 * Power(2, 5) == 16 * Power(2, 4);
    forall i | 0 <= i < 8 ensures bits[i] < 2 && (a == 0xff ==> bits[i] == Digit(b, 2, i)) {
      AndBit(a, b, i);
    }
    PackBound(bits, 2);
    if a == 0xff {
      PackOfDigits(b, 2, bits);
    }
  }

  lemma AndBit(a: octet, b: octet, i: nat)
    requires i < 8
    ensures Digit(a, 2, i) * Digit(b, 2, i) < 2 && (a == 0xff ==> Digit(a, 2, i) * Digit(b, 2, i) == Digit(b, 2, i))
  {
    DigitBound(a, 2, i);
    DigitBound(b, 2, i);
    assert Digit(a, 2, i) == 0 || Digit(a, 2, i) == 1;
    Ones(i);
  }

  lemma Ones(i: nat)
    requires i < 8
    ensures Digit(0xff, 2, i) == 1
  {
    assert Digit(0xff, 2, 7) == Digit(0x7f, 2, 6) == Digit(0x3f, 2, 5) == Digit(0x1f, 2, 4) == Digit(0x0f, 2, 3);
    assert Digit(0xff, 2, 6) == Digit(0x7f, 2, 5) == Digit(0x3f, 2, 4) == Digit(0x1f, 2, 3);
    assert Digit(0xff, 2, 5) == Digit(0x7f, 2, 4) == Digit(0x3f, 2, 3);
    assert Digit(0xff, 2, 4) == Digit(0x7f, 2, 3);
  }

  /** A page programmed at `base`. */
  function ProgramAt(mem: seq<octet>, base: nat, page: seq<octet>): (m: seq<octet>)
    ensures Stored(mem, m, base, page, |page|)
  {
    seq(|mem|, k requires 0 <= k < |mem| =>
      if base <= k < base + |page| then And(mem[k], page[k - base]) else mem[k])
  }

  /** The first `n` bytes of `buf` are programmed from `start` on, nothing else changed. */
  ghost predicate Stored(m0: seq<octet>, m: seq<octet>, start: nat, buf: seq<octet>, n: nat) {
    && |m| == |m0| && n <= |buf|
    && forall k | 0 <= k < |m| :: m[k] == if start <= k < start + n then And(m0[k], buf[k - start]) else m0[k]
  }

  lemma StoredMore(m0: seq<octet>, m: seq<octet>, m': seq<octet>, start: nat, buf: seq<octet>, n: nat, size: nat,
                   programmed: bool)
    requires n + size <= |buf| && Stored(m0, m, start, buf, n)
    requires Stored(m, m', start + n, buf[n..n + size], if programmed then size else 0)
    ensures Stored(m0, m', start, buf, if programmed then n + size else n)
  {
  }

  /** On erased flash the data is what is stored. */
  lemma StoredOnErased(m0: seq<octet>, m: seq<octet>, start: nat, buf: seq<octet>)
    requires Stored(m0, m, start, buf, |buf|) && start + |buf| <= |m0|
    requires forall k | start <= k < start + |buf| :: m0[k] == 0xff
    ensures m == m0[..start] + buf + m0[start + |buf|..]
  {
  }

  lemma InPage(address: nat, j: nat, size: nat)
    requires j < size && address % size == 0
    ensures (address + j) % size == j
  {
    var q := address / size;
    assert address == size * q;
    DivMod(j, size, q);
  }

  /** Offset of page `i`, one page after the other. */
  function PageStart(i: nat, size: nat): nat {
    if i == 0 then 0 else PageStart(i - 1, size) + size
  }

  lemma {:induction false} PageStartIs(i: nat, size: nat)
    ensures PageStart(i, size) == size * i
  {
    if i > 0 {
      PageStartIs(i - 1, size);
      assert size * (i - 1) + size == size * i;
    }
  }

  lemma PageFits(len: nat, size: nat, i: nat, start: nat)
    requires size > 0 && len % size == 0 && i <= len / size && start % size == 0
    ensures PageStart(i, size) % size == 0 && (start + PageStart(i, size)) % size == 0
    ensures if i == len / size then PageStart(i, size) == len else PageStart(i, size) + size <= len
    ensures PageStart(i + 1, size) % size == 0
  {
    var q := len / size;
    assert len == size * q;
    PageStartIs(i, size);
    PageAligned(0, i + 1, size);
    PageAligned(0, i, size);
    PageAligned(start, i, size);
    if i < q {
      Above(size, q, i);
    }
  }

  lemma {:induction false} PageAligned(start: nat, i: nat, size: nat)
    requires size > 0 && start % size == 0
    ensures (start + PageStart(i, size)) % size == 0
  {
    if i > 0 {
      PageAligned(start, i - 1, size);
      NextPage(start + PageStart(i - 1, size), size);
    }
  }

  lemma NextPage(address: nat, size: nat)
    requires size > 0 && address % size == 0
    ensures (address + size) % size == 0
  {
    var q := address / size;
    assert address == size * q && size * q + size == size * (q + 1);
    DivMod(0, size, q + 1);
  }
}
