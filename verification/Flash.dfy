/** A flash chip behind a programmer, and the programmer's map of access-protection regions
    (flashrom.c: get_flash_region). */
module Flash {
  import opened Granularity

  /** An access-protection region `[start, end]` reported by the programmer. */
  datatype Region = Region(start: nat, end: nat, readProt: bool, writeProt: bool)

  /** The flash context: chip parameters, option flags and the programmer's region map. */
  datatype Ctx = Ctx(
    size: nat, gran: WriteGranularity, ev: byte, ratio: nat,
    skipUnwritable: bool, skipUnreadable: bool, verifyAfterWrite: bool,
    regionAt: nat -> Region)
  {
    ghost predicate Writable(a: nat) {
      !regionAt(a).writeProt
    }

    ghost predicate Readable(a: nat) {
      !regionAt(a).readProt
    }

    /** get_flash_region answers with a region around the address, and with the same
        region for every address in it; region borders do not split write chunks. */
    ghost predicate Honest() {
      OnGrid(size, Stride(gran)) && forall a: nat | a < size :: HonestAt(a)
    }

    ghost predicate HonestAt(a: nat) {
      var r := regionAt(a);
      && r.start <= a <= r.end
      && (forall b: nat | r.start <= b <= r.end && b < size :: regionAt(b) == r)
      && OnGrid(r.start, Stride(gran))
      && (r.end + 1 < size ==> OnGrid(r.end + 1, Stride(gran)))
    }
  }

  // ----- The chip ---------------------------------------------------------------

  /** What the programmer does to the chip, as half-open ranges.  `legal` records
      whether every chunk obeyed the NOR rule when it was programmed. */
  datatype Op = Erase(start: nat, end: nat) | Program(start: nat, end: nat, legal: bool)

  /** How one command turns out: it completes, or it fails and leaves arbitrary bytes.
      `junk` is also what an illegally programmed chunk ends up with. */
  datatype Outcome = Outcome(done: bool, junk: nat -> byte)

  ghost predicate AllLegal(g: WriteGranularity, ev: byte, mem: Image, img: Image, lo: nat, hi: nat) {
    forall a: nat | lo <= a < hi :: Legal(g, ev, mem, img, a)
  }

  /** `m1` equals `m0` except inside `[lo, hi)`. */
  ghost predicate OnlyWithin(m0: Image, m1: Image, lo: int, hi: int) {
    |m1| == |m0| && forall a: nat | a < |m0| && !(lo <= a < hi) :: m1[a] == m0[a]
  }

  /** What programming `img` over `[lo, hi)` guarantees: legal chunks hold the new
      bytes, and at one-bit granularity bits only ever change from 1 to 0. */
  ghost predicate Programmed(g: WriteGranularity, ev: byte, m0: Image, m1: Image, img: Image, lo: nat, hi: nat) {
    && |m1| == |m0| == |img| && hi <= |m0|
    && forall a: nat | lo <= a < hi :: ProgrammedByte(g, ev, m0, m1, img, a)
  }

  ghost predicate ProgrammedByte(g: WriteGranularity, ev: byte, m0: Image, m1: Image, img: Image, a: nat)
    requires |m1| == |m0| == |img| && a < |m0|
  {
    && (Legal(g, ev, m0, img, a) ==> m1[a] == img[a])
    && (g.Gran1Bit? ==> m1[a] == m0[a] & img[a])
  }

  /** One programmed byte: a one-bit chip clears bits, others store legal chunks. */
  function StoredByte(g: WriteGranularity, ev: byte, mem: Image, img: Image, o: Outcome, a: nat): (b: byte)
    requires |mem| == |img| && a < |mem|
    ensures o.done ==> (Legal(g, ev, mem, img, a) ==> b == img[a]) && (g.Gran1Bit? ==> b == mem[a] & img[a])
  {
    assert g.Gran1Bit? ==> Base(a, Stride(g)) == a;
    if o.done && g.Gran1Bit? then mem[a] & img[a]
    else if o.done && Legal(g, ev, mem, img, a) then img[a]
    else o.junk(a)
  }

  function AfterProgram(g: WriteGranularity, ev: byte, mem: Image, img: Image, lo: nat, hi: nat, o: Outcome): (m: Image)
    requires |mem| == |img| && lo <= hi <= |mem|
    ensures OnlyWithin(mem, m, lo, hi)
    ensures o.done ==> Programmed(g, ev, mem, m, img, lo, hi)
  {
    seq(|mem|, a requires 0 <= a < |mem| => if lo <= a < hi then StoredByte(g, ev, mem, img, o, a) else mem[a])
  }

  class Chip {
    const size: nat
    const gran: WriteGranularity
    const ev: byte
    /** The outcome of the n-th command. */
    const oracle: nat -> Outcome
    var step: nat
    var mem: Image
    ghost var log: seq<Op>
    /** Failed erase and program commands, and failed reads. */
    ghost var faults: nat
    ghost var readFaults: nat

    ghost function Failures(): nat
      reads this
    {
      faults + readFaults
    }

    /** The `n` commands from number `from` on complete. */
    ghost predicate Completes(from: nat, n: nat) {
      forall k: nat | from <= k < from + n :: oracle(k).done
    }

    /** A reliable device never fails. */
    ghost predicate Reliable() {
      forall n: nat :: oracle(n).done
    }

    ghost predicate Valid()
      reads this
    {
      |mem| == size && (Reliable() ==> faults == 0 && readFaults == 0)
    }

    constructor (mem: Image, gran: WriteGranularity, ev: byte, oracle: nat -> Outcome)
      ensures Valid() && this.mem == mem && this.size == |mem| && this.gran == gran && this.ev == ev
      ensures this.oracle == oracle && log == [] && faults == readFaults == 0
    {
      this.mem, this.size, this.gran, this.ev, this.oracle := mem, |mem|, gran, ev, oracle;
      step, log, faults, readFaults := 0, [], 0, 0;
    }

    method EraseBlock(start: nat, len: nat) returns (ok: bool)
      requires Valid() && start + len <= size
      modifies this
      ensures Valid() && readFaults == old(readFaults)
      ensures log == old(log) + [Erase(start, start + len)]
      ensures OnlyWithin(old(mem), mem, start, start + len)
      ensures ok ==> Filled(mem, ev, start, start + len)
      ensures faults == old(faults) + if ok then 0 else 1
      ensures step == old(step) + 1 && (ok <==> oracle(old(step)).done)
    {
      var o := oracle(step);
      step := step + 1;
      mem := seq(size, a requires 0 <= a < size reads this requires Valid() =>
        if start <= a < start + len then (if o.done then ev else o.junk(a)) else mem[a]);
      log := log + [Erase(start, start + len)];
      ok := o.done;
      faults := faults + if ok then 0 else 1;
    }

    method ProgramRange(start: nat, end: nat, img: Image) returns (ok: bool)
      requires Valid() && start <= end <= size && |img| == size
      modifies this
      ensures Valid() && readFaults == old(readFaults)
      ensures log == old(log) + [Program(start, end, AllLegal(gran, ev, old(mem), img, start, end))]
      ensures OnlyWithin(old(mem), mem, start, end)
      ensures ok ==> Programmed(gran, ev, old(mem), mem, img, start, end)
      ensures faults == old(faults) + if ok then 0 else 1
      ensures step == old(step) + 1 && (ok <==> oracle(old(step)).done)
    {
      var o := oracle(step);
      step := step + 1;
      log := log + [Program(start, end, AllLegal(gran, ev, mem, img, start, end))];
      mem := AfterProgram(gran, ev, mem, img, start, end, o);
      ok := o.done;
      faults := faults + if ok then 0 else 1;
    }

    /** Reads into the buffer at the chip's own offset; a failed read leaves junk there. */
    method ReadRange(start: nat, end: nat, buf: array<byte>) returns (ok: bool)
      requires Valid() && start <= end <= size == buf.Length
      modifies this`step, this`readFaults, buf
      ensures Valid()
      ensures OnlyWithin(old(buf[..]), buf[..], start, end)
      ensures ok ==> Same(buf[..], mem, start, end) && readFaults == old(readFaults)
      ensures !ok ==> readFaults > old(readFaults)
      ensures step == old(step) + 1 && (ok <==> oracle(old(step)).done)
    {
      var o := oracle(step);
      step := step + 1;
      forall a | start <= a < end {
        buf[a] := if o.done then mem[a] else o.junk(a);
      }
      ok := o.done;
      if !ok {
        readFaults := readFaults + 1;
      }
    }
  }
}
