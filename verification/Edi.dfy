/** The ENE embedded debug interface (edi.c): reads with a growing buffer, and sequential flash
    access through address registers that are updated only where the address changed. */
module Edi {
  import opened Numerals
  import opened Helpers
  import opened Pages

  const NOT_READY: octet := 0x5f
  const READY: octet := 0x50
  const RETRY: int := -0x5f
  const BUFFER_MAX := 32

  // ----- The flash controller ------------------------------------------------------------

  datatype Register = Efa(i: nat) | Efdat | Efcmd | Efcfg

  const LATCH: octet := 0x02
  const READ: octet := 0x03
  const PROGRAM: octet := 0x70
  const CLEAR: octet := 0x80

  /** `efa` is EFA0, EFA1, EFA2; `page` the page buffer, whose length is the page size; `we`
      the bit of EFCFG that lets commands through. */
  datatype Device = Device(efa: seq<octet>, efdat: octet, page: seq<octet>, mem: seq<octet>, we: bool)

  ghost predicate Sound(d: Device) {
    |d.efa| == 3 && |d.page| > 0 && |d.mem| % |d.page| == 0
  }

  function Offset(a: nat, size: nat): (r: nat)
    requires size > 0
    ensures r < size && r <= a
  {
    a % size
  }

  /** Setting and clearing bit 3, CMD_WE, of EFCFG. */
  function WithWe(x: octet): (y: octet)
    ensures Digit(y, 2, 3) == 1 && (x == y || x + 8 == y)
  {
    WeBit(x);
    if Digit(x, 2, 3) == 1 then x else x + 8
  }

  function WithoutWe(x: octet): (y: octet)
    ensures Digit(y, 2, 3) == 0 && (x == y || x == y + 8)
  {
    WeBit(x);
    if Digit(x, 2, 3) == 1 then x - 8 else x
  }

  lemma WeBit(x: octet)
    ensures Digit(x, 2, 3) == 0 ==> x + 8 < 256 && Digit(x + 8, 2, 3) == 1
    ensures Digit(x, 2, 3) == 1 ==> x >= 8 && Digit(x - 8, 2, 3) == 0
    ensures Digit(x, 2, 3) < 2
  {
    DigitBound(x, 2, 3);
    Bit3(x);
    EightMore(x);
    if Digit(x, 2, 3) == 0 {
      Bit3(x + 8);
    } else {
      Bit3(x - 8);
    }
  }

  lemma EightMore(x: octet)
    ensures (x + 8) / 8 == x / 8 + 1
    ensures if (x / 8) % 2 == 0 then x < 248 else x >= 8 && (x - 8) / 8 == x / 8 - 1
  {
  }

  lemma Bit3(x: nat)
    ensures Digit(x, 2, 3) == (x / 8) % 2
  {
    assert Digit(x, 2, 3) == Digit(x / 2, 2, 2) == Digit(x / 2 / 2, 2, 1) == Digit(x / 2 / 2 / 2, 2, 0);
    assert x / 2 / 2 / 2 == x / 8;
  }

  /** Flash commands act at the address in EFA2:EFA1:EFA0. */
  function Command(d: Device, code: octet): (r: Device)
    requires Sound(d)
    ensures Sound(r) && r.efa == d.efa && |r.page| == |d.page| && |r.mem| == |d.mem| && r.we == d.we
  {
    var a := Pack(d.efa, 256);
    if !d.we then d
    else if code == CLEAR then d.(page := seq(|d.page|, i => 0xff))
    else if code == LATCH then d.(page := d.page[Offset(a, |d.page|) := d.efdat])
    else if code == PROGRAM then d.(mem := ProgramAt(d.mem, a - Offset(a, |d.page|), d.page))
    else if code == READ && a < |d.mem| then d.(efdat := d.mem[a])
    else d
  }

  function Step(d: Device, reg: Register, data: octet): (r: Device)
    requires Sound(d)
    ensures Sound(r) && |r.page| == |d.page| && |r.mem| == |d.mem|
  {
    match reg
    case Efa(i) => if i < 3 then d.(efa := d.efa[i := data]) else d
    case Efdat => d.(efdat := data)
    case Efcmd => Command(d, data)
    case Efcfg => d.(we := Digit(data, 2, 3) == 1)
  }

  /** Byte `i` of an address, as it is sent to EFAi. */
  function AddressByte(a: nat, i: nat): (b: octet)
    ensures b == Digit(a, 256, i)
  {
    DigitBound(a, 256, i);
    Digit(a, 256, i)
  }

  /** The address registers hold `a`. */
  ghost predicate Addressed(d: Device, a: nat) {
    |d.efa| == 3 && forall i | 0 <= i < 3 :: d.efa[i] == Digit(a, 256, i)
  }

  lemma AddressedAt(d: Device, a: nat)
    requires Addressed(d, a) && a < 0x100_0000
    ensures Pack(d.efa, 256) == a
  {
    assert Power(256, 3) == 256 * Power(256, 2) == 0x1_0000 * Power(256, 1);
    PackOfDigits(a, 256, d.efa);
  }

  // ----- Replies to a read ---------------------------------------------------------------

  ghost predicate FirstReady(buffer: seq<octet>, i: nat) {
    i < |buffer| && buffer[i] == READY && forall k | 0 <= k < i :: buffer[k] != READY
  }

  /** The scan in edi_read_byte: the byte after the first ready mark, if it arrived. */
  method ScanReply(buffer: seq<octet>) returns (rc: int, data: octet)
    requires buffer != []
    ensures rc == 0 || rc == RETRY || rc == -1
    ensures rc == 0 <==> exists i: nat :: FirstReady(buffer, i) && i < |buffer| - 1
    ensures forall i: nat | FirstReady(buffer, i) && i < |buffer| - 1 :: data == buffer[i + 1]
    ensures rc == RETRY <==> rc != 0 && (buffer[|buffer| - 1] == NOT_READY || buffer[|buffer| - 1] == READY)
  {
    data := 0;
    for i := 0 to |buffer|
      invariant forall k | 0 <= k < i :: buffer[k] != READY
    {
      if buffer[i] == READY {
        assert FirstReady(buffer, i);
        assert forall k: nat | FirstReady(buffer, k) :: k == i;
        if i == |buffer| - 1 {
          return RETRY, data;
        }
        return 0, buffer[i + 1];
      }
    }
    if buffer[|buffer| - 1] == NOT_READY {
      return RETRY, data;
    }
    return -1, data;
  }

  /** What the controller sends: `d` times not ready, ready, then the value. */
  function Reply(d: nat, value: octet, len: nat): (r: seq<octet>)
    ensures |r| == len
  {
    seq(len, i => if i < d then NOT_READY else if i == d then READY else value)
  }

  lemma ReplyReady(d: nat, value: octet, len: nat)
    ensures forall i: nat :: FirstReady(Reply(d, value, len), i) <==> i == d < len
  {
    var r := Reply(d, value, len);
    forall i: nat | i < len ensures FirstReady(r, i) <==> i == d {
      if i > d {
        assert r[d] == READY;
      }
    }
  }

  // ----- The driver ----------------------------------------------------------------------

  /** Transactions are numbered; `fails`, `delay` and `status` say how the n-th one goes.  The
      status also depends on `since`, the number of transactions up to the last PROGRAM. */
  class Driver {
    const fails: nat -> bool
    const delay: nat -> nat
    const status: (nat, nat) -> octet
    var count: nat
    var since: nat
    var bufferLength: nat
    var dev: Device

    constructor (fails: nat -> bool, delay: nat -> nat, status: (nat, nat) -> octet, dev: Device)
      requires Sound(dev)
      ensures Valid() && this.dev == dev && bufferLength == 3
    {
      this.fails, this.delay, this.status, this.dev := fails, delay, status, dev;
      count, since, bufferLength := 0, 0, 3;
    }

    ghost predicate Valid()
      reads this
    {
      Sound(dev) && 0 < bufferLength <= BUFFER_MAX && since <= count
    }

    /** Every transaction works and takes `d` bytes to become ready. */
    ghost predicate Steady(d: nat)
    {
      forall n: nat :: !fails(n) && delay(n) == d
    }

    /** No transaction from number `i` up to `j` failed. */
    ghost predicate NoneFailed(i: nat, j: nat) {
      forall n | i <= n < j :: !fails(n)
    }

    /** From transaction `n` on the link works and is fast enough for the longest buffer. */
    ghost predicate SettledFrom(n: nat)
    {
      forall m | m >= n :: !fails(m) && delay(m) + 2 <= BUFFER_MAX
    }

    method EdiWrite(reg: Register, data: octet) returns (rc: int)
      requires Valid()
      modifies this`dev, this`count, this`since
      ensures Valid() && count == old(count) + 1 && (rc == 0 || rc == -1)
      ensures dev == if rc == 0 then Step(old(dev), reg, data) else old(dev)
      ensures since == if rc == 0 && reg == Efcmd && data == PROGRAM then count else old(since)
      ensures rc == 0 <==> !fails(old(count))
    {
      count := count + 1;
      if fails(count - 1) {
        return -1;
      }
      dev := Step(dev, reg, data);
      if reg == Efcmd && data == PROGRAM {
        since := count;
      }
      return 0;
    }

    method EdiReadByte(value: nat -> octet) returns (rc: int, data: octet)
      requires Valid()
      modifies this`count
      ensures count == old(count) + 1 && (rc == 0 || rc == RETRY || rc == -1)
      ensures var n := old(count); rc == 0 <==> !fails(n) && delay(n) + 2 <= bufferLength
      ensures rc == 0 ==> data == value(old(count))
      ensures rc == -1 <==> fails(old(count))
    {
      var n := count;
      count := count + 1;
      if fails(n) {
        return -1, 0;
      }
      var reply := Reply(delay(n), value(n), bufferLength);
      ReplyReady(delay(n), value(n), bufferLength);
      rc, data := ScanReply(reply);
      if delay(n) + 2 <= bufferLength {
        assert FirstReady(reply, delay(n));
      }
    }

    /** Retries with a longer buffer while the value has not arrived.  Always ends; the length,
        kept for later reads, never shrinks; with a constant delay it succeeds exactly when the
        longest buffer suffices, with the shortest sufficient length. */
    method EdiRead(value: nat -> octet) returns (rc: int, data: octet)
      requires Valid()
      modifies this`count, this`bufferLength
      ensures Valid() && old(bufferLength) <= bufferLength && old(count) < count && (rc == 0 || rc == -1)
      ensures rc == 0 ==> data == value(count - 1)
      ensures rc == 0 <==> !LastUnread()
      ensures fails(old(count)) ==> count == old(count) + 1
      ensures SettledFrom(old(count)) ==> rc == 0
      ensures forall d: nat | Steady(d) ::
                && (rc == 0 <==> d + 2 <= BUFFER_MAX)
                && bufferLength == if d + 2 > BUFFER_MAX then BUFFER_MAX
                                   else if d + 2 > old(bufferLength) then d + 2 else old(bufferLength)
    {
      while true
        invariant Valid() && old(bufferLength) <= bufferLength && old(count) <= count
        invariant fails(old(count)) ==> count == old(count)
        invariant forall d: nat | Steady(d) :: bufferLength == old(bufferLength) || bufferLength <= d + 2
        decreases BUFFER_MAX - bufferLength
      {
        ghost var n := count;
        rc, data := EdiReadByte(value);
        assert forall d: nat | Steady(d) :: !fails(n) && delay(n) == d;
        assert rc == 0 ==> forall d: nat | Steady(d) :: d + 2 <= bufferLength <= BUFFER_MAX;
        assert rc == -1 ==> forall d: nat :: !Steady(d);
        if rc == RETRY {
          if bufferLength < BUFFER_MAX {
            bufferLength := bufferLength + 1;
          } else {
            return -1, data;
          }
        } else {
          return if rc < 0 then -1 else 0, data;
        }
      }
    }

    /** The last reply did not arrive, or not within the longest buffer. */
    ghost predicate LastUnread()
      requires count > 0
      reads this
    {
      Unread(count - 1)
    }

    /** The same for transaction number `n`. */
    ghost predicate Unread(n: nat)
      reads this
    {
      fails(n) || delay(n) + 2 > bufferLength
    }

    /** The controller is idle once `k` transactions have passed since the last PROGRAM. */
    ghost predicate IdleAfter(k: nat) {
      forall n: nat, s: nat | n >= s + k :: Digit(status(n, s), 2, 1) == 0
    }

    /** From transaction `n` on the controller is busy. */
    ghost predicate BusyFrom(n: nat) {
      forall m: nat, s: nat | m >= n :: Digit(status(m, s), 2, 1) == 1
    }

    /** What the controller answered last about being busy. */
    ghost predicate BusyNow()
      requires count > 0
      reads this
    {
      Digit(status(count - 1, since), 2, 1) == 1
    }

    /** 1 for busy, 0 for idle, -1 if the status could not be read. */
    method SpiBusy() returns (rc: int)
      requires Valid()
      modifies this`count, this`bufferLength
      ensures Valid() && old(bufferLength) <= bufferLength && old(count) < count
      ensures SettledFrom(old(count)) ==> rc != -1
      ensures rc == -1 <==> LastUnread()
      ensures rc != -1 ==> (rc == 1 <==> BusyNow()) && (rc == 0 || rc == 1)
    {
      var s := since;
      var r, buffer := EdiRead(n => status(n, s));
      if r < 0 {
        return -1;
      }
      DigitBound(buffer, 2, 1);
      return Digit(buffer, 2, 1);
    }

    /** Polls until the controller is idle or its status cannot be read, at most `timeout` times
        more; returns what is left.  Only polls that find it busy use the timeout up. */
    method WaitIdle(timeout: nat) returns (left: nat)
      requires Valid()
      modifies this`count, this`bufferLength
      ensures Valid() && old(bufferLength) <= bufferLength && old(count) < count && left <= timeout
      ensures left > 0 ==> LastUnread() || !BusyNow()
      ensures SettledFrom(old(count)) ==> !LastUnread()
      ensures forall k: nat | IdleAfter(k) :: timeout - left <= Min(count, since + k) - Min(old(count), since + k)
      ensures SettledFrom(old(count)) && BusyFrom(old(count)) ==> left == 0
    {
      left := timeout;
      var busy := SpiBusy();
      while busy == 1 && left > 0
        invariant Valid() && old(bufferLength) <= bufferLength && old(count) < count && left <= timeout
        invariant busy == -1 <==> LastUnread()
        invariant busy != -1 ==> (busy == 1 <==> BusyNow())
        invariant SettledFrom(old(count)) ==> busy != -1
        invariant forall k: nat | IdleAfter(k) ::
                    timeout - left + (if busy == 1 then 1 else 0) <= Min(count, since + k) - Min(old(count), since + k)
      {
        left := left - 1;
        busy := SpiBusy();
      }
    }

    method SpiAddressByte(i: nat, start: nat, address: nat) returns (rc: int)
      requires Valid() && i < 3 && start <= address
      modifies this`dev, this`count, this`since
      ensures Valid() && count >= old(count) && (rc == 0 || rc == -1)
      ensures SettledFrom(old(count)) ==> rc == 0
      ensures rc == 0 <==> NoneFailed(old(count), count)
      ensures dev == if rc == 0 && (address == start || AddressByte(address - 1, i) != AddressByte(address, i))
                     then old(dev).(efa := old(dev).efa[i := AddressByte(address, i)]) else old(dev)
    {
      rc := 0;
      if address == start || AddressByte(address - 1, i) != AddressByte(address, i) {
        rc := EdiWrite(Efa(i), AddressByte(address, i));
      }
    }

    /** Writing only the bytes that changed leaves the registers as writing all three would,
        for the first address of a run and for each next one. */
    method SpiAddress(start: nat, address: nat) returns (rc: int)
      requires Valid() && start <= address && (address == start || Addressed(dev, address - 1))
      modifies this`dev, this`count, this`since
      ensures Valid() && count >= old(count) && (rc == 0 || rc == -1)
      ensures SettledFrom(old(count)) ==> rc == 0
      ensures rc == 0 <==> NoneFailed(old(count), count)
      ensures dev == old(dev).(efa := dev.efa) && (rc == 0 ==> Addressed(dev, address))
    {
      rc := SpiAddressByte(0, start, address);
      if rc < 0 {
        return -1;
      }
      rc := SpiAddressByte(1, start, address);
      if rc < 0 {
        return -1;
      }
      rc := SpiAddressByte(2, start, address);
    }

    /** Lets flash commands through. */
    method SpiEnable() returns (rc: int)
      requires Valid()
      modifies this
      ensures Valid() && old(bufferLength) <= bufferLength && count >= old(count) && (rc == 0 || rc == -1)
      ensures SettledFrom(old(count)) ==> rc == 0
      ensures dev == if rc == 0 then old(dev).(we := true) else old(dev)
      ensures rc == 0 ==> count >= old(count) + 2 && !fails(count - 1) && !Unread(count - 2)
    {
      var s, buffer := since, 0;
      rc, buffer := EdiRead(n => status(n, s));
      if rc < 0 {
        return -1;
      }
      rc := EdiWrite(Efcfg, WithWe(buffer));
    }

    method SpiDisable() returns (rc: int)
      requires Valid()
      modifies this
      ensures Valid() && old(bufferLength) <= bufferLength && count >= old(count) && (rc == 0 || rc == -1)
      ensures SettledFrom(old(count)) ==> rc == 0
      ensures dev == if rc == 0 then old(dev).(we := false) else old(dev)
      ensures rc == 0 ==> count >= old(count) + 2 && !fails(count - 1) && !Unread(count - 2)
    {
      var s, buffer := since, 0;
      rc, buffer := EdiRead(n => status(n, s));
      if rc < 0 {
        return -1;
      }
      rc := EdiWrite(Efcfg, WithoutWe(buffer));
    }

    // ----- Reading -----------------------------------------------------------------------

    /** Polls the data register; the link settles eventually, after transaction `settled`, and
        that is enough if the controller is idle in time. */
    method FetchData(ghost settled: nat) returns (rc: int, data: octet)
      requires Valid() && SettledFrom(settled)
      modifies this`count, this`bufferLength
      ensures Valid() && old(bufferLength) <= bufferLength && (rc == 0 || rc == -1)
      ensures rc == 0 ==> data == dev.efdat
      ensures count >= old(count) && (SettledFrom(old(count)) ==> rc == 0)
      ensures IdleAfter(63) ==> rc == 0
      ensures fails(old(count)) && SettledFrom(old(count) + 1) && BusyFrom(old(count)) ==> rc == -1
    {
      var timeout: nat := 64;
      while true
        invariant Valid() && old(bufferLength) <= bufferLength && count >= old(count)
        invariant fails(old(count)) && SettledFrom(old(count) + 1) && BusyFrom(old(count)) ==>
                    count == old(count) && timeout == 64
        invariant IdleAfter(63) ==> 64 - timeout <= Min(count, since + 63) - Min(old(count), since + 63)
        decreases if count < settled then settled - count else 0
      {
        var v := dev.efdat;
        rc, data := EdiRead(n => v);
        if rc == 0 {
          return;
        }
        timeout := WaitIdle(timeout);
        if timeout == 0 {
          return -1, data;
        }
      }
    }

    /** A sequential read delivers the flash contents, across page and 64 KiB boundaries. */
    method ChipRead(start: nat, len: nat, ghost settled: nat) returns (rc: int, buf: seq<octet>)
      requires Valid() && start + len <= |dev.mem| <= 0x100_0000 && SettledFrom(settled)
      modifies this
      ensures Valid() && old(bufferLength) <= bufferLength && dev.mem == old(dev).mem && (rc == 0 || rc == -1)
      ensures rc == 0 ==> buf == dev.mem[start..start + len] && !dev.we
      ensures SettledFrom(old(count)) ==> rc == 0
    {
      buf := [];
      rc := SpiEnable();
      if rc < 0 {
        return;
      }
      for i := 0 to len
        invariant Valid() && old(bufferLength) <= bufferLength && dev.mem == old(dev).mem && dev.we
        invariant count >= old(count)
        invariant i == 0 || Addressed(dev, start + i - 1)
        invariant buf == dev.mem[start..start + i]
      {
        var address := start + i;
        rc := SpiAddress(start, address);
        if rc < 0 {
          return -1, buf;
        }
        AddressedAt(dev, address);
        rc := EdiWrite(Efcmd, READ);
        if rc < 0 {
          return -1, buf;
        }
        var data;
        rc, data := FetchData(settled);
        if rc < 0 {
          return -1, buf;
        }
        buf := buf + [data];
      }
      rc := SpiDisable();
    }

    // ----- Writing -----------------------------------------------------------------------

    /** One byte goes to its place in the page buffer. */
    method LatchByte(start: nat, address: nat, v: octet) returns (rc: int)
      requires Valid() && dev.we && start <= address < 0x100_0000 && (address == start || Addressed(dev, address - 1))
      modifies this`dev, this`count, this`since
      ensures Valid() && dev.we && count >= old(count) && dev.mem == old(dev).mem && |dev.page| == |old(dev).page|
              && (rc == 0 || rc == -1)
      ensures SettledFrom(old(count)) ==> rc == 0
      ensures rc == 0 <==> NoneFailed(old(count), count)
      ensures rc == 0 ==> Addressed(dev, address) && dev.page == old(dev).page[address % |dev.page| := v]
    {
      rc := SpiAddress(start, address);
      if rc < 0 {
        return -1;
      }
      AddressedAt(dev, address);
      rc := EdiWrite(Efdat, v);
      if rc < 0 {
        return -1;
      }
      rc := EdiWrite(Efcmd, LATCH);
    }

    /** Clears the page buffer and latches every byte of a page. */
    method LatchPage(part: seq<octet>, start: nat, address: nat) returns (rc: int)
      requires Valid() && dev.we && |part| == |dev.page| && start <= address && address % |part| == 0
      requires address + |part| <= 0x100_0000 && (address == start || Addressed(dev, address - 1))
      modifies this`dev, this`count, this`since
      ensures Valid() && dev.we && count >= old(count) && |dev.page| == |part| && dev.mem == old(dev).mem
              && (rc == 0 || rc == -1)
      ensures SettledFrom(old(count)) ==> rc == 0
      ensures rc == 0 <==> NoneFailed(old(count), count)
      ensures rc == 0 ==> Addressed(dev, address + |part| - 1) && dev.page == part
    {
      ghost var m0 := dev.mem;
      rc := EdiWrite(Efcmd, CLEAR);
      if rc < 0 {
        return;
      }
      for j := 0 to |part|
        invariant Valid() && dev.we && count >= old(count) && |dev.page| == |part| && dev.mem == m0
        invariant NoneFailed(old(count), count)
        invariant address + j == start || Addressed(dev, address + j - 1)
        invariant dev.page[..j] == part[..j]
      {
        InPage(address, j, |part|);
        ghost var page := dev.page;
        rc := LatchByte(start, address + j, part[j]);
        if rc < 0 {
          return;
        }
        assert dev.page[..j + 1] == page[..j] + [part[j]] == part[..j + 1];
      }
      assert dev.page == dev.page[..|part|] && part == part[..|part|];
      rc := 0;
    }

    /** Programs the page buffer at the page of the address registers. */
    method ProgramLatched(part: seq<octet>, address: nat) returns (rc: int)
      requires Valid() && dev.we && dev.page == part && address % |part| == 0
      requires address + |part| <= |dev.mem| <= 0x100_0000 && Addressed(dev, address + |part| - 1)
      modifies this`dev, this`count, this`since
      ensures Valid() && dev == old(dev).(mem := dev.mem) && count == old(count) + 1 && (rc == 0 || rc == -1)
      ensures SettledFrom(old(count)) ==> rc == 0
      ensures rc == 0 <==> NoneFailed(old(count), count)
      ensures Stored(old(dev).mem, dev.mem, address, part, if rc == 0 then |part| else 0)
    {
      ghost var d, e := dev, address + |part| - 1;
      InPage(address, |part| - 1, |part|);
      AddressedAt(d, e);
      rc := EdiWrite(Efcmd, PROGRAM);
      if rc == 0 {
        assert dev.mem == ProgramAt(d.mem, address, part);
      }
    }

    /** One page: fill the page buffer, program it, wait until the controller is idle, which it
        may be as late as the 64th poll.  A status that cannot be read counts as idle. */
    method WritePage(part: seq<octet>, start: nat, address: nat) returns (rc: int, ghost programmed: bool)
      requires Valid() && dev.we && |part| == |dev.page| && start <= address && address % |part| == 0
      requires address + |part| <= |dev.mem| <= 0x100_0000
      requires address == start || Addressed(dev, address - 1)
      modifies this
      ensures Valid() && dev.we && |dev.page| == |part| && old(bufferLength) <= bufferLength && (rc == 0 || rc == -1)
      ensures rc == 0 ==> programmed && Addressed(dev, address + |part| - 1)
      ensures count >= old(count) && (rc == 0 ==> count > 0 && (LastUnread() || !BusyNow()))
      ensures rc == 0 && SettledFrom(old(count)) ==> !LastUnread()
      ensures SettledFrom(old(count)) && IdleAfter(63) ==> rc == 0
      ensures Stored(old(dev).mem, dev.mem, address, part, if programmed then |part| else 0)
    {
      programmed := false;
      rc := LatchPage(part, start, address);
      if rc < 0 {
        return;
      }
      rc := ProgramLatched(part, address);
      if rc < 0 {
        return;
      }
      programmed := true;
      var timeout := WaitIdle(64);
      rc := if timeout == 0 then -1 else 0;
    }

    /** Whole pages only.  Success ands the data into the flash, so erased pages then hold it;
        an error leaves a whole number of pages done and everything else as it was. */
    method ChipWrite(buf: seq<octet>, start: nat) returns (rc: int, ghost done: nat)
      requires Valid() && start + |buf| <= |dev.mem| <= 0x100_0000
      modifies this
      ensures Valid() && old(bufferLength) <= bufferLength && (rc == 0 || rc == -1)
      ensures done <= |buf| && done % |old(dev).page| == 0 && Stored(old(dev).mem, dev.mem, start, buf, done)
      ensures rc == 0 ==> done == |buf| && !dev.we
      ensures start % |old(dev).page| == 0 && |buf| % |old(dev).page| == 0 ==>
                SettledFrom(old(count)) && IdleAfter(63) ==> rc == 0
      ensures start % |old(dev).page| != 0 || |buf| % |old(dev).page| != 0 ==> rc == -1 && dev == old(dev)
    {
      done := 0;
      var size := |dev.page|;
      if start % size != 0 || |buf| % size != 0 {
        return -1, done;
      }
      var pages := |buf| / size;
      rc := SpiEnable();
      if rc < 0 {
        return -1, done;
      }
      rc, done := WritePages(buf, start, pages);
      if rc < 0 {
        return;
      }
      rc := SpiDisable();
    }

    /** The loop over the pages. */
    method WritePages(buf: seq<octet>, start: nat, pages: nat) returns (rc: int, ghost done: nat)
      requires Valid() && dev.we && start + |buf| <= |dev.mem| <= 0x100_0000
      requires start % |dev.page| == 0 && |buf| % |dev.page| == 0 && pages == |buf| / |dev.page|
      modifies this
      ensures Valid() && old(bufferLength) <= bufferLength && (rc == 0 || rc == -1)
      ensures done <= |buf| && done % |old(dev).page| == 0 && Stored(old(dev).mem, dev.mem, start, buf, done)
      ensures rc == 0 ==> done == |buf|
      ensures count >= old(count) && (SettledFrom(old(count)) && IdleAfter(63) ==> rc == 0)
    {
      done := 0;
      var size, address := |dev.page|, start;
      ghost var m0 := dev.mem;
      for i := 0 to pages
        invariant count >= old(count) && Valid() && dev.we && |dev.page| == size && old(bufferLength) <= bufferLength
                  && |dev.mem| == |m0|
        invariant address == start + done && done == PageStart(i, size)
        invariant Stored(m0, dev.mem, start, buf, done)
        invariant done == 0 || Addressed(dev, address - 1)
      {
        PageFits(|buf|, size, i, start);
        ghost var m, programmed := dev.mem, false;
        rc, programmed := WritePage(buf[address - start..address - start + size], start, address);
        StoredMore(m0, m, dev.mem, start, buf, done, size, programmed);
        done := if programmed then done + size else done;
        if rc < 0 {
          return -1, done;
        }
        address := address + size;
      }
      PageFits(|buf|, size, pages, start);
      rc := 0;
    }
  }
}
