/** SPI by driving pins (bitbang_spi.c).  Pin levels are booleans, true for high; chip select
    is active low.  The far end is any mode-0 slave: the level it puts on MISO may depend on
    the whole history of the pins. */
module BitbangSpi {
  import opened Numerals

  datatype Pins = Pins(cs: bool, sck: bool, mosi: bool)

  // ----- What a mode-0 slave sees --------------------------------------------------------

  ghost predicate Rising(p: Pins, q: Pins) {
    !p.sck && q.sck && !q.cs
  }

  /** MOSI at the rising clock edges under chip select. */
  ghost function Sampled(t: seq<Pins>): seq<bool> {
    if |t| <= 1 then []
    else
      Sampled(t[..|t| - 1]) + if Rising(t[|t| - 2], t[|t| - 1]) then [t[|t| - 1].mosi] else []
  }

  /** MISO at the same edges. */
  ghost function Answered(t: seq<Pins>, slave: seq<Pins> -> bool): seq<bool> {
    if |t| <= 1 then []
    else
      Answered(t[..|t| - 1], slave) + if Rising(t[|t| - 2], t[|t| - 1]) then [slave(t)] else []
  }

  /** MOSI changes only into a low clock, chip select only while the clock is low. */
  ghost predicate Change(p: Pins, q: Pins) {
    (p.mosi != q.mosi ==> !q.sck) && (p.cs != q.cs ==> !p.sck && !q.sck)
  }

  ghost predicate Disciplined(t: seq<Pins>) {
    |t| <= 1 || (Disciplined(t[..|t| - 1]) && Change(t[|t| - 2], t[|t| - 1]))
  }

  lemma Appended(t: seq<Pins>, q: Pins, slave: seq<Pins> -> bool)
    requires t != []
    ensures Sampled(t + [q]) == Sampled(t) + if Rising(t[|t| - 1], q) then [q.mosi] else []
    ensures Answered(t + [q], slave) == Answered(t, slave) + if Rising(t[|t| - 1], q) then [slave(t + [q])] else []
    ensures Disciplined(t + [q]) <==> Disciplined(t) && Change(t[|t| - 1], q)
  {
    assert (t + [q])[..|t|] == t;
  }

  lemma HeldOn(t: seq<Pins>, q: Pins)
    requires !q.cs
    ensures Held(t, t + [q]) && forall b :: Held(b, t) ==> Held(b, t + [q])
  {
    assert (t + [q])[..|t|] == t;
    forall b | Held(b, t) ensures Held(b, t + [q]) {
    }
  }

  /** `u` continues the history `t`, with chip select low all along. */
  ghost predicate Held(t: seq<Pins>, u: seq<Pins>)
    decreases |u|
  {
    |u| > |t| && !u[|u| - 1].cs && (u[..|u| - 1] == t || Held(t, u[..|u| - 1]))
  }

  lemma {:induction false} HeldMeans(t: seq<Pins>, u: seq<Pins>)
    requires Held(t, u)
    ensures t < u && forall k | |t| <= k < |u| :: !u[k].cs
    decreases |u|
  {
    var v := u[..|u| - 1];
    if v != t {
      HeldMeans(t, v);
    }
  }

  // ----- Bytes as bits, most significant first -------------------------------------------

  ghost function ByteBits(v: nat): (s: seq<bool>)
    ensures |s| == 8
  {
    seq(8, i requires 0 <= i < 8 => Digit(v, 2, 7 - i) == 1)
  }

  ghost function Bits(a: seq<octet>): (s: seq<bool>)
    ensures |s| == 8 * |a|
  {
    if a == [] then [] else Bits(a[..|a| - 1]) + ByteBits(a[|a| - 1])
  }

  lemma ByteFromBits(v: octet, w: octet)
    requires ByteBits(v) == ByteBits(w)
    ensures v == w
  {
    var d := seq(8, i requires 0 <= i < 8 => Digit(v, 2, i));
    assert Power(2, 8) == 2 * Power(2, 7) == 4 * Power(2, 6) == 8 * Power(2, 5) == 16 * Power(2, 4);
    forall i: nat | i < 8 ensures d[i] == Digit(w, 2, i) {
      assert ByteBits(v)[7 - i] == ByteBits(w)[7 - i];
      DigitBound(v, 2, i);
      DigitBound(w, 2, i);
    }
    PackOfDigits(v, 2, d);
    PackOfDigits(w, 2, d);
  }

  /** The bits on the wire determine the bytes. */
  lemma {:induction false} BytesFromBits(a: seq<octet>, b: seq<octet>)
    requires Bits(a) == Bits(b)
    ensures a == b
  {
    if a != [] {
      var n := |a| - 1;
      assert Bits(a)[..8 * n] == Bits(a[..n]) && Bits(b)[..8 * n] == Bits(b[..n]);
      assert Bits(a)[8 * n..] == ByteBits(a[n]) && Bits(b)[8 * n..] == ByteBits(b[n]);
      BytesFromBits(a[..n], b[..n]);
      ByteFromBits(a[n], b[n]);
      assert a == a[..n] + [a[n]] && b == b[..n] + [b[n]];
    }
  }

  lemma Joined(a: seq<bool>, b: seq<bool>, c: seq<bool>)
    ensures a + b + c == a + (b + c) && (a + b + c)[|a + b|..] == c
  {
  }

  lemma NextBit(s: seq<bool>, bits: seq<bool>, k: nat)
    requires k < |bits|
    ensures s + bits[..k] + [bits[k]] == s + bits[..k + 1]
  {
  }

  lemma BitsAppend(a: seq<octet>, v: octet, s: seq<bool>)
    ensures s + Bits(a) + ByteBits(v) == s + Bits(a + [v])
  {
    assert (a + [v])[..|a|] == a;
  }

  lemma BitsNext(a: seq<octet>, i: nat, s: seq<bool>)
    requires i < |a|
    ensures s + Bits(a[..i]) + ByteBits(a[i]) == s + Bits(a[..i + 1])
  {
    BitsAppend(a[..i], a[i], s);
    assert a[..i] + [a[i]] == a[..i + 1];
  }

  /** What the slave samples while a byte is read: MOSI as it was, and low at the last edge. */
  function Dummy(mosi: bool, n: nat): (d: seq<bool>)
    ensures |d| == n
  {
    seq(n, k => k < 7 && mosi)
  }

  lemma DummyNext(s: seq<bool>, mosi: bool, n: nat)
    ensures s + Dummy(mosi, n) + [n < 7 && mosi] == s + Dummy(mosi, n + 1)
  {
    assert Dummy(mosi, n + 1) == Dummy(mosi, n) + [n < 7 && mosi];
  }

  // ----- The bus master ------------------------------------------------------------------

  /** `joined`: the driver offers one call that sets clock and MOSI together. */
  class Master {
    const joined: bool
    const slave: seq<Pins> -> bool
    /** Pin levels after every driver call, oldest first. */
    var trace: seq<Pins>

    /** The history keeps to the rules and its last entry is the present. */
    ghost predicate Valid()
      reads this
    {
      trace != [] && Disciplined(trace)
    }

    function Now(): Pins
      requires trace != []
      reads this
    {
      trace[|trace| - 1]
    }

    /** Between commands: deselected, clock low. */
    ghost predicate Idle()
      reads this
    {
      Valid() && Now().cs && !Now().sck
    }

    /** Registration deselects the chip and parks the clock; the history starts there. */
    constructor (joined: bool, slave: seq<Pins> -> bool, pins: Pins)
      ensures Idle() && trace == [Pins(true, false, false)]
    {
      this.joined, this.slave := joined, slave;
      var p := pins.(cs := true);
      p := if joined then p.(sck := false, mosi := false) else p.(sck := false).(mosi := false);
      trace := [p];
    }

    /** A driver call. */
    method Drive(q: Pins)
      requires Valid() && Change(Now(), q)
      modifies this
      ensures Valid() && trace == old(trace) + [q]
      ensures !q.cs ==> Held(old(trace), trace) && forall b :: Held(b, old(trace)) ==> Held(b, trace)
      ensures Sampled(trace) == Sampled(old(trace)) + if Rising(old(Now()), q) then [q.mosi] else []
      ensures Answered(trace, slave) == Answered(old(trace), slave) + if Rising(old(Now()), q) then [slave(trace)]
              else []
    {
      Appended(trace, q, slave);
      if !q.cs {
        HeldOn(trace, q);
      }
      trace := trace + [q];
    }

    /** Chip select has been low in all that followed the history `t`. */
    ghost predicate HeldSince(t: seq<Pins>)
      reads this
    {
      Disciplined(trace) && Held(t, trace)
    }

    method SetSckSetMosi(mosi: bool, ghost t: seq<Pins>)
      requires HeldSince(t)
      modifies this
      ensures HeldSince(t) && Now() == Pins(false, false, mosi)
      ensures |trace| == |old(trace)| + if joined then 1 else 2
      ensures Sampled(trace) == Sampled(old(trace)) && Answered(trace, slave) == Answered(old(trace), slave)
    {
      if joined {
        Drive(Now().(sck := false, mosi := mosi));
      } else {
        Drive(Now().(sck := false));
        Drive(Now().(mosi := mosi));
      }
    }

    method SetSckGetMiso() returns (miso: bool)
      requires Valid() && !Now().sck && !Now().cs
      modifies this
      ensures Valid() && trace == old(trace) + [old(Now()).(sck := true)]
      ensures forall b :: Held(b, old(trace)) ==> Held(b, trace)
      ensures Sampled(trace) == Sampled(old(trace)) + [old(Now()).mosi]
      ensures Answered(trace, slave) == Answered(old(trace), slave) + [miso]
    {
      Drive(Now().(sck := true));
      miso := slave(trace);
    }

    /** The slave samples exactly the eight bits of `val`. */
    method WriteByte(val: octet, ghost t: seq<Pins>)
      requires HeldSince(t)
      modifies this
      ensures HeldSince(t)
      ensures Sampled(trace) == Sampled(old(trace)) + ByteBits(val)
      ensures |Answered(trace, slave)| == |Answered(old(trace), slave)| + 8
    {
      ghost var bits := ByteBits(val);
      ghost var s, a := Sampled(trace), |Answered(trace, slave)|;
      var i := 7;
      while i >= 0
        invariant -1 <= i <= 7 && HeldSince(t)
        invariant Sampled(trace) == s + bits[..7 - i] && |Answered(trace, slave)| == a + 7 - i
      {
        SetSckSetMosi(Digit(val, 2, i) == 1, t);
        Drive(Now().(sck := true));
        NextBit(s, bits, 7 - i);
        i := i - 1;
      }
      assert bits[..8] == bits;
    }

    /** One clock pulse; MOSI goes low with the last one of a byte. */
    method ReadBit(final: bool, ghost t: seq<Pins>) returns (miso: bool)
      requires HeldSince(t)
      modifies this
      ensures HeldSince(t) && Answered(trace, slave) == Answered(old(trace), slave) + [miso]
      ensures Now().mosi == (!final && old(Now()).mosi) && Sampled(trace) == Sampled(old(trace)) + [Now().mosi]
    {
      if final {
        SetSckSetMosi(false, t);
      } else {
        Drive(Now().(sck := false));
      }
      miso := SetSckGetMiso();
    }

    /** The byte is made of what the slave answers at the next eight edges. */
    method ReadByte(ghost t: seq<Pins>) returns (ret: octet)
      requires HeldSince(t)
      modifies this
      ensures HeldSince(t)
      ensures Answered(trace, slave) == Answered(old(trace), slave) + ByteBits(ret)
      ensures Sampled(trace) == Sampled(old(trace)) + Dummy(old(Now()).mosi, 8)
    {
      ghost var m := Now().mosi;
      var acc: nat := 0;
      ghost var got: seq<bool> := [];
      ghost var s, a := Sampled(trace), Answered(trace, slave);
      var i := 7;
      while i >= 0
        invariant -1 <= i <= 7 && HeldSince(t)
        invariant Answered(trace, slave) == a + got
        invariant Sampled(trace) == s + Dummy(m, 7 - i) && (i >= 0 ==> Now().mosi == m)
        invariant Received(acc, got, 7 - i)
      {
        var miso := ReadBit(i == 0, t);
        DummyNext(s, m, 7 - i);
        ReceiveBit(acc, got, 7 - i, miso);
        Joined(a, got, [miso]);
        acc := 2 * acc + if miso then 1 else 0;
        got := got + [miso];
        i := i - 1;
      }
      ReceivedByte(acc, got);
      ret := acc;
    }

    /** One command, any number of bytes each way. */
    method SendCommand(writearr: seq<octet>, readcnt: nat) returns (readarr: seq<octet>)
      requires Idle()
      modifies this
      ensures Idle() && old(trace) <= trace && |trace| >= |old(trace)| + 2
      ensures forall k | |old(trace)| <= k < |trace| - 1 :: !trace[k].cs
      ensures |readarr| == readcnt
      ensures Sampled(old(trace)) + Bits(writearr) <= Sampled(trace)
      ensures |Sampled(trace)| == |Sampled(old(trace))| + 8 * (|writearr| + readcnt)
      ensures |Answered(trace, slave)| == |Answered(old(trace), slave)| + 8 * (|writearr| + readcnt)
      ensures Answered(trace, slave)[|Answered(old(trace), slave)| + 8 * |writearr|..] == Bits(readarr)
    {
      ghost var t := trace;
      Drive(Now().(cs := false));
      WriteBytes(writearr, t);
      ghost var a1 := Answered(trace, slave);
      readarr := ReadBytes(readcnt, t);
      assert Answered(trace, slave)[|a1|..] == Bits(readarr);
      Deselect(t);
    }

    /** The clock is parked before chip select goes high. */
    method Deselect(ghost t: seq<Pins>)
      requires HeldSince(t)
      modifies this
      ensures Idle() && t <= trace && |trace| >= |t| + 2
      ensures forall k | |t| <= k < |trace| - 1 :: !trace[k].cs
      ensures Sampled(trace) == Sampled(old(trace)) && Answered(trace, slave) == Answered(old(trace), slave)
    {
      Drive(Now().(sck := false));
      HeldMeans(t, trace);
      Drive(Now().(cs := true));
    }

    method WriteBytes(writearr: seq<octet>, ghost t: seq<Pins>)
      requires HeldSince(t)
      modifies this
      ensures HeldSince(t) && Sampled(trace) == Sampled(old(trace)) + Bits(writearr)
      ensures |Answered(trace, slave)| == |Answered(old(trace), slave)| + 8 * |writearr|
    {
      ghost var s, a := Sampled(trace), |Answered(trace, slave)|;
      for i := 0 to |writearr|
        invariant HeldSince(t)
        invariant Sampled(trace) == s + Bits(writearr[..i]) && |Answered(trace, slave)| == a + 8 * i
      {
        WriteByte(writearr[i], t);
        BitsNext(writearr, i, s);
      }
      assert writearr[..|writearr|] == writearr;
    }

    method ReadBytes(readcnt: nat, ghost t: seq<Pins>) returns (readarr: seq<octet>)
      requires HeldSince(t)
      modifies this
      ensures HeldSince(t) && |readarr| == readcnt
      ensures Answered(trace, slave) == Answered(old(trace), slave) + Bits(readarr)
      ensures Sampled(old(trace)) <= Sampled(trace) && |Sampled(trace)| == |Sampled(old(trace))| + 8 * readcnt
    {
      ghost var s, a := Sampled(trace), Answered(trace, slave);
      readarr := [];
      for i := 0 to readcnt
        invariant HeldSince(t) && |readarr| == i
        invariant s <= Sampled(trace) && |Sampled(trace)| == |s| + 8 * i
        invariant Answered(trace, slave) == a + Bits(readarr)
      {
        var v := ReadByte(t);
        BitsAppend(readarr, v, a);
        readarr := readarr + [v];
      }
    }
  }

  // ----- Shifting in ---------------------------------------------------------------------

  /** `acc` holds the `m` bits received, first one most significant. */
  ghost predicate Received(acc: nat, got: seq<bool>, m: nat) {
    |got| == m && acc < Power(2, m) && forall j | 0 <= j < m :: Digit(acc, 2, m - 1 - j) == if got[j] then 1 else 0
  }

  lemma ReceiveBit(acc: nat, got: seq<bool>, m: nat, miso: bool)
    requires Received(acc, got, m)
    ensures Received(2 * acc + if miso then 1 else 0, got + [miso], m + 1)
  {
    var b := if miso then 1 else 0;
    var acc' := 2 * acc + b;
    assert acc' % 2 == b && acc' / 2 == acc;
    forall j | 0 <= j < m + 1 ensures Digit(acc', 2, m - j) == if (got + [miso])[j] then 1 else 0 {
      if j < m {
        assert Digit(acc', 2, m - j) == Digit(acc, 2, m - 1 - j);
      }
    }
  }

  lemma ReceivedByte(acc: nat, got: seq<bool>)
    requires Received(acc, got, 8)
    ensures acc < 256 && got == ByteBits(acc)
  {
    assert Power(2, 8) == 2 * Power(2, 7) == 4 * Power(2, 6) == 8 * Power(2, 5) == 16 * Power(2, 4);
    assert forall j | 0 <= j < 8 :: ByteBits(acc)[j] == got[j];
  }
}
