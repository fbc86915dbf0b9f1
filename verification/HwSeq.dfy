/** The ICH hardware sequencer: packing bytes into 32-bit data registers and splitting
    requests into transfers (ichspi.c: ich_fill_data, ich_read_data, ich_hwseq_read,
    ich_hwseq_write). */
module HwSeq {
  import opened Numerals
  import opened Helpers

  /** FDATA0..FDATA15. */
  const WORDS := 16
  const MAX_DATA := 64

  /** Byte `j` of the data registers. */
  ghost function RegisterByte(fdata: seq<nat>, j: nat): nat
    requires j / 4 < |fdata|
  {
    Digit(fdata[j / 4], 256, j % 4)
  }

  /** The registers hold these bytes. */
  ghost predicate Hold(fdata: seq<nat>, data: seq<octet>) {
    |data| <= 4 * |fdata| && forall j | 0 <= j < |data| :: RegisterByte(fdata, j) == data[j]
  }

  /** `x` shifted into byte `k` of a word whose higher bytes are still zero. */
  function ShiftIn(word: nat, k: nat, x: octet): nat {
    word + Power(256, k) * x
  }

  /** One more byte of the word that starts at `from`. */
  lemma WordExtend(data: seq<octet>, from: nat, i: nat, word: nat)
    requires from <= i < |data| && word == Pack(data[from..i], 256)
    ensures ShiftIn(word, i - from, data[i]) == Pack(data[from..i + 1], 256)
  {
    PackAppend(data[from..i], data[i], 256);
    assert data[from..i] + [data[i]] == data[from..i + 1];
  }

  /** Registers from number `w` on are as they were. */
  ghost predicate KeptFrom(f0: seq<nat>, f: seq<nat>, w: nat) {
    |f0| == |f| == WORDS && forall v | w <= v < WORDS :: f[v] == f0[v]
  }

  /** Before byte `from + k`: the words below `from` are stored, `word` holds the next `k`
      bytes. */
  ghost predicate Filling(f0: seq<nat>, f: seq<nat>, data: seq<octet>, from: nat, k: nat, word: nat) {
    && from % 4 == 0 && k < 4 && from + k <= |data| <= MAX_DATA
    && KeptFrom(f0, f, from / 4) && Hold(f, data[..from])
    && (k > 0 ==> word == Pack(data[from..from + k], 256))
  }

  lemma WordOf(from: nat, k: nat)
    requires from % 4 == 0 && k < 4
    ensures (from + k) % 4 == k && (from + k) / 4 == from / 4
    ensures k > 0 ==> (from + k - 1) / 4 == from / 4
  {
  }

  lemma FillStep(f0: seq<nat>, f: seq<nat>, data: seq<octet>, from: nat, k: nat, word: nat, next: nat)
    requires Filling(f0, f, data, from, k, word) && from + k < |data|
    requires next == ShiftIn(if k == 0 then 0 else word, k, data[from + k])
    ensures next == Pack(data[from..from + k + 1], 256)
    ensures if k == 3 then Filling(f0, f[from / 4 := next], data, from + 4, 0, next)
            else Filling(f0, f, data, from, k + 1, next)
  {
    assert k == 0 ==> data[from..from + k] == [];
    WordExtend(data, from, from + k, if k == 0 then 0 else word);
    if k == 3 {
      StoreWord(f, data, from, from + 4, next);
    }
  }

  /** Writes whole words and, at the end, a partial one; keeps the other registers. */
  method FillData(fdata: seq<nat>, data: seq<octet>) returns (fdata': seq<nat>)
    requires |fdata| == WORDS && |data| <= MAX_DATA
    ensures |fdata'| == WORDS && Hold(fdata', data)
    ensures forall w | (|data| + 3) / 4 <= w < WORDS :: fdata'[w] == fdata[w]
  {
    fdata' := fdata;
    var temp: nat := 0;
    ghost var from: nat, k: nat := 0, 0;
    for i := 0 to |data|
      invariant i == from + k && Filling(fdata, fdata', data, from, k, temp)
    {
      ghost var f, t := fdata', temp;
      WordOf(from, k);
      if i % 4 == 0 {
        temp := 0;
      }
      temp := ShiftIn(temp, i % 4, data[i]);
      FillStep(fdata, f, data, from, k, t, temp);
      if i % 4 == 3 {
        fdata' := fdata'[i / 4 := temp];
        from, k := from + 4, 0;
      } else {
        k := k + 1;
      }
    }
    var n := |data|;
    WordOf(from, k);
    if n % 4 != 0 {
      StoreWord(fdata', data, from, n, temp);
      fdata' := fdata'[(n - 1) / 4 := temp];
    }
    assert data[..n] == data;
  }

  /** Storing the word that holds bytes `from..til`. */
  lemma StoreWord(fdata: seq<nat>, data: seq<octet>, from: nat, til: nat, word: nat)
    requires |fdata| == WORDS && from % 4 == 0 && from < til <= from + 4 && til <= |data| <= MAX_DATA
    requires Hold(fdata, data[..from]) && word == Pack(data[from..til], 256)
    ensures Hold(fdata[from / 4 := word], data[..til])
  {
    var f := fdata[from / 4 := word];
    forall j | 0 <= j < til ensures RegisterByte(f, j) == data[j] {
      if j < from {
        assert RegisterByte(fdata, j) == data[..from][j];
      } else {
        DigitOfPack(data[from..til], 256, j - from);
      }
    }
  }

  /** Fetches a word for every four bytes. */
  method ReadData(fdata: seq<nat>, len: nat) returns (data: seq<octet>)
    requires |fdata| == WORDS && len <= MAX_DATA
    ensures |data| == len && Hold(fdata, data)
  {
    data := [];
    var temp := 0;
    for i := 0 to len
      invariant |data| == i && temp >= 0 && Hold(fdata, data)
      invariant i % 4 != 0 ==> temp == fdata[i / 4]
    {
      if i % 4 == 0 {
        temp := fdata[i / 4];
      }
      ShiftedDigit(temp, 256, i % 4);
      data := data + [Shifted(temp, 256, i % 4) % 256];
    }
  }

  /** What was filled in is read back, whatever the length. */
  lemma HoldUnique(fdata: seq<nat>, data: seq<octet>, data': seq<octet>)
    requires Hold(fdata, data) && Hold(fdata, data') && |data| == |data'|
    ensures data == data'
  {
    forall j | 0 <= j < |data| ensures data[j] == data'[j] {
      assert RegisterByte(fdata, j) == data[j];
    }
  }

  // ----- Transfers -----------------------------------------------------------------------

  datatype Transfer = Transfer(addr: nat, len: nat)

  /** Between 1 and 64 bytes inside one 256-byte page, and as many as these limits and the end
      of the request allow. */
  ghost predicate Legal(t: Transfer, end: nat) {
    && 1 <= t.len <= MAX_DATA && t.addr % 256 + t.len <= 256 && t.addr + t.len <= end
    && (t.len == MAX_DATA || t.addr % 256 + t.len == 256 || t.addr + t.len == end)
  }

  /** The transfers of a request up to `end` cover `[addr, til)` one after the other. */
  ghost predicate Chain(ts: seq<Transfer>, addr: nat, til: nat, end: nat)
    decreases |ts|
  {
    if ts == [] then addr == til
    else
      && Legal(ts[|ts| - 1], end) && addr <= ts[|ts| - 1].addr
      && ts[|ts| - 1].addr + ts[|ts| - 1].len == til
      && Chain(ts[..|ts| - 1], addr, ts[|ts| - 1].addr, end)
  }

  /** The transfers logged since `l0` cover `[addr, til)`. */
  ghost predicate Sent(l0: seq<Transfer>, log: seq<Transfer>, addr: nat, til: nat, end: nat) {
    l0 <= log && Chain(log[|l0|..], addr, til, end)
  }

  /** They cover a first part of the request. */
  ghost predicate Begun(l0: seq<Transfer>, log: seq<Transfer>, addr: nat, end: nat) {
    exists til: nat :: til <= end && Sent(l0, log, addr, til, end)
  }

  lemma SentNothing(log: seq<Transfer>, addr: nat, end: nat)
    ensures Sent(log, log, addr, addr, end)
  {
    assert log[|log|..] == [];
  }

  lemma SentMore(l0: seq<Transfer>, log: seq<Transfer>, addr: nat, til: nat, end: nat, t: Transfer)
    requires Sent(l0, log, addr, til, end) && Legal(t, end) && t.addr == til && addr <= til
    ensures Sent(l0, log + [t], addr, til + t.len, end) && Begun(l0, log + [t], addr, end)
  {
    var ts := log[|l0|..];
    var log' := log + [t];
    assert l0 <= log' && log'[|l0|..] == ts + [t] && (ts + [t])[..|ts|] == ts;
    assert Sent(l0, log', addr, til + t.len, end);
  }

  /** Chipset and chip: `fails` says which transfer does not complete. */
  class Sequencer {
    const fails: nat -> bool
    var mem: seq<octet>
    var fdata: seq<nat>
    ghost var log: seq<Transfer>
    var count: nat

    ghost predicate Valid()
      reads this
    {
      |fdata| == WORDS
    }

    /** No transfer from number `i` up to `j` failed. */
    ghost predicate NoneFailed(i: nat, j: nat) {
      forall n | i <= n < j :: !fails(n)
    }

    /** A read cycle: the chipset loads the addressed bytes into the data registers. */
    method ReadCycle(addr: nat, len: nat) returns (ok: bool)
      requires Valid() && addr + len <= |mem| && len <= MAX_DATA
      modifies this`fdata, this`log, this`count
      ensures Valid() && log == old(log) + [Transfer(addr, len)]
      ensures count == old(count) + 1 && (ok <==> !fails(old(count)))
      ensures ok ==> Hold(fdata, mem[addr..addr + len])
    {
      log := log + [Transfer(addr, len)];
      ok := !fails(count);
      count := count + 1;
      if ok {
        fdata := FillData(fdata, mem[addr..addr + len]);
      }
    }

    /** A write cycle: the chip takes `len` bytes from the data registers. */
    method WriteCycle(addr: nat, len: nat) returns (ok: bool)
      requires Valid() && addr + len <= |mem| && len <= MAX_DATA
      modifies this`mem, this`log, this`count
      ensures log == old(log) + [Transfer(addr, len)] && |mem| == |old(mem)|
      ensures count == old(count) + 1 && (ok <==> !fails(old(count)))
      ensures mem[..addr] == old(mem)[..addr] && mem[addr + len..] == old(mem)[addr + len..]
      ensures ok ==> Hold(fdata, mem[addr..addr + len])
    {
      log := log + [Transfer(addr, len)];
      ok := !fails(count);
      count := count + 1;
      if ok {
        var data := ReadData(fdata, len);
        mem := mem[..addr] + data + mem[addr + len..];
        assert mem[addr..addr + len] == data;
      }
    }

    /** Size of the next transfer: within the request, the data registers and the page. */
    static method BlockLen(addr: nat, len: nat) returns (blockLen: nat)
      requires len > 0
      ensures 1 <= blockLen <= len && Legal(Transfer(addr, blockLen), addr + len)
    {
      blockLen := Min(len, MAX_DATA);
      blockLen := Min(blockLen, 256 - addr % 256);
    }

    /** One turn of the read loop: the next legal transfer of what is left. */
    method ReadBlock(left: nat, a: nat, ghost addr: nat, ghost end: nat, ghost l0: seq<Transfer>)
      returns (blockLen: nat, ok: bool, part: seq<octet>)
      requires Valid() && left > 0 && a + left == end <= |mem|
      requires addr <= a && Sent(l0, log, addr, a, end)
      modifies this`fdata, this`log, this`count
      ensures Valid() && 1 <= blockLen <= left && Sent(l0, log, addr, a + blockLen, end)
      ensures Begun(l0, log, addr, end)
      ensures count == old(count) + 1 && (ok <==> !fails(old(count)))
      ensures ok ==> part == mem[a..a + blockLen]
    {
      blockLen := BlockLen(a, left);
      SentMore(l0, log, addr, a, end, Transfer(a, blockLen));
      ok := ReadCycle(a, blockLen);
      part := ReadData(fdata, blockLen);
      if ok {
        HoldUnique(fdata, part, mem[a..a + blockLen]);
      }
    }

    /** Reads any range of the chip in legal transfers; success delivers the range. */
    method HwseqRead(addr: nat, len: nat) returns (ret: int, buf: seq<octet>)
      requires Valid()
      modifies this`fdata, this`log, this`count
      ensures Valid() && (ret == -1 <==> addr + len > |mem|)
      ensures ret == -1 ==> log == old(log)
      ensures ret != -1 ==> Begun(old(log), log, addr, addr + len)
      ensures ret == 0 ==> Sent(old(log), log, addr, addr + len, addr + len) && buf == mem[addr..addr + len]
      ensures addr + len <= |mem| ==> ret == if NoneFailed(old(count), count) then 0 else 1
    {
      buf := [];
      if addr + len > |mem| {
        return -1, buf;
      }
      ghost var l0 := log;
      var a, left := addr, len;
      SentNothing(log, addr, addr + len);
      while left > 0
        invariant addr <= a <= addr + len <= |mem| && a + left == addr + len && Valid()
        invariant Sent(l0, log, addr, a, addr + len) && buf == mem[addr..a]
        invariant count >= old(count) && NoneFailed(old(count), count)
      {
        var blockLen, ok, part := ReadBlock(left, a, addr, addr + len, l0);
        if !ok {
          assert fails(count - 1);
          return 1, buf;
        }
        assert mem[addr..a] + mem[a..a + blockLen] == mem[addr..a + blockLen];
        buf := buf + part;
        a, left := a + blockLen, left - blockLen;
      }
      return 0, buf;
    }

    /** One turn of the write loop: the next legal transfer of what is left. */
    method WriteBlock(left: seq<octet>, a: nat, ghost addr: nat, ghost end: nat, ghost l0: seq<Transfer>)
      returns (blockLen: nat, ok: bool)
      requires Valid() && left != [] && a + |left| == end <= |mem|
      requires addr <= a && Sent(l0, log, addr, a, end)
      modifies this`mem, this`fdata, this`log, this`count
      ensures Valid() && 1 <= blockLen <= |left| && |mem| == |old(mem)|
      ensures Sent(l0, log, addr, a + blockLen, end) && Begun(l0, log, addr, end)
      ensures mem[..a] == old(mem)[..a] && mem[a + blockLen..] == old(mem)[a + blockLen..]
      ensures count == old(count) + 1 && (ok <==> !fails(old(count)))
      ensures ok ==> mem[a..a + blockLen] == left[..blockLen]
    {
      blockLen := BlockLen(a, |left|);
      SentMore(l0, log, addr, a, end, Transfer(a, blockLen));
      var part := left[..blockLen];
      fdata := FillData(fdata, part);
      ok := WriteCycle(a, blockLen);
      if ok {
        HoldUnique(fdata, part, mem[a..a + blockLen]);
      }
    }

    /** One turn with its effect on all that is written so far. */
    method WriteTurn(buf: seq<octet>, addr: nat, a: nat, ghost m0: seq<octet>, ghost l0: seq<Transfer>)
      returns (blockLen: nat, ok: bool)
      requires Valid() && Put(m0, mem, buf, addr, a) && a < addr + |buf| && Sent(l0, log, addr, a, addr + |buf|)
      modifies this`mem, this`fdata, this`log, this`count
      ensures Valid() && 1 <= blockLen <= addr + |buf| - a && KeptAround(m0, mem, addr, addr + |buf|)
      ensures Sent(l0, log, addr, a + blockLen, addr + |buf|) && Begun(l0, log, addr, addr + |buf|)
      ensures count == old(count) + 1 && (ok <==> !fails(old(count)))
      ensures ok ==> Put(m0, mem, buf, addr, a + blockLen)
    {
      ghost var m1 := mem;
      blockLen, ok := WriteBlock(buf[a - addr..], a, addr, addr + |buf|, l0);
      PutMore(m0, m1, mem, buf, addr, a, blockLen, ok);
    }

    /** Writes any range of the chip in legal transfers; success stores the bytes there and
        nowhere else. */
    method HwseqWrite(buf: seq<octet>, addr: nat) returns (ret: int)
      requires Valid()
      modifies this`mem, this`fdata, this`log, this`count
      ensures Valid() && |mem| == |old(mem)|
      ensures addr + |buf| > |old(mem)| ==> ret == -1 && mem == old(mem) && log == old(log)
      ensures addr + |buf| <= |mem| ==>
                KeptAround(old(mem), mem, addr, addr + |buf|) && Begun(old(log), log, addr, addr + |buf|)
      ensures ret == 0 ==>
                && addr + |buf| <= |mem|
                && Sent(old(log), log, addr, addr + |buf|, addr + |buf|)
                && mem[addr..addr + |buf|] == buf
      ensures addr + |buf| <= |mem| ==> ret == if NoneFailed(old(count), count) then 0 else -1
    {
      if addr + |buf| > |mem| {
        return -1;
      }
      ghost var l0, m0 := log, mem;
      var a, left := addr, |buf|;
      SentNothing(log, addr, addr + |buf|);
      while left > 0
        invariant addr <= a <= addr + |buf| <= |mem| == |m0| && a + left == addr + |buf|
        invariant Valid() && count >= old(count) && NoneFailed(old(count), count)
        invariant Sent(l0, log, addr, a, addr + |buf|)
        invariant Put(m0, mem, buf, addr, a)
      {
        var blockLen, ok := WriteTurn(buf, addr, a, m0, l0);
        if !ok {
          assert fails(count - 1);
          return -1;
        }
        a, left := a + blockLen, left - blockLen;
      }
      assert buf[..|buf|] == buf;
      return 0;
    }
  }

  /** The bytes up to `a` are stored, and nothing else. */
  ghost predicate Put(m0: seq<octet>, m: seq<octet>, buf: seq<octet>, addr: nat, a: nat) {
    && addr <= a <= addr + |buf| <= |m0| == |m|
    && m[..addr] == m0[..addr] && m[addr..a] == buf[..a - addr] && m[a..] == m0[a..]
  }

  /** Nothing outside `[lo, hi)` has changed. */
  ghost predicate KeptAround(m0: seq<octet>, m: seq<octet>, lo: nat, hi: nat) {
    lo <= hi <= |m| == |m0| && m[..lo] == m0[..lo] && m[hi..] == m0[hi..]
  }

  lemma PutMore(m0: seq<octet>, m1: seq<octet>, m2: seq<octet>, buf: seq<octet>, addr: nat, a: nat, n: nat, ok: bool)
    requires Put(m0, m1, buf, addr, a) && a + n <= addr + |buf| && |m2| == |m1|
    requires m2[..a] == m1[..a] && m2[a + n..] == m1[a + n..] && (ok ==> m2[a..a + n] == buf[a - addr..][..n])
    ensures KeptAround(m0, m2, addr, addr + |buf|)
    ensures ok ==> Put(m0, m2, buf, addr, a + n)
  {
    var b, til := a + n, addr + |buf|;
    assert m2[..addr] == m2[..a][..addr] && m1[..addr] == m1[..a][..addr];
    assert m2[addr..a] == m2[..a][addr..] && m1[addr..a] == m1[..a][addr..];
    assert m1[b..] == m1[a..][n..] && m0[b..] == m0[a..][n..];
    assert m2[til..] == m2[b..][til - b..] && m0[til..] == m0[b..][til - b..];
    if ok {
      assert m2[addr..b] == m2[addr..a] + m2[a..b];
      assert buf[..b - addr] == buf[..a - addr] + buf[a - addr..][..n];
    }
  }
}
