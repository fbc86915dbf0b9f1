/** Undoing hardware register writes at programmer shutdown (flashrom.c: register_shutdown,
    programmer_shutdown; hwaccess_physmap.c: rmmio_write*, rmmio_val*, undo_mmio_write;
    pcidev.c: rpci_write_*, undo_pci_write, pci_init_common, pcidev_shutdown).

    MMIO registers and PCI configuration space are byte arrays; a write of any width is
    the sequence of its bytes. */
module Undo {

  import opened Numerals

  const SHUTDOWN_MAXFN := 32

  /** A registered shutdown function with its data. */
  datatype Record =
    | MmioUndo(addr: nat, data: seq<octet>)
    | PciUndo(hasDev: bool, addr: nat, data: seq<octet>)
    | PciShutdown

  datatype State = State(mmio: seq<octet>, pci: seq<octet>, stack: seq<Record>, mayRegister: bool, pacc: bool) {

    predicate CanRegister() {
      |stack| < SHUTDOWN_MAXFN && mayRegister
    }

    /** register_shutdown: pushes the record, or refuses without effect. */
    function Register(r: Record): State {
      if CanRegister() then this.(stack := stack + [r]) else this
    }
  }

  function Store(mem: seq<octet>, addr: nat, data: seq<octet>): (m: seq<octet>)
    requires addr + |data| <= |mem|
    ensures |m| == |mem|
    ensures forall a: nat | a < |mem| :: m[a] == if addr <= a < addr + |data| then data[a - addr] else mem[a]
  {
    mem[..addr] + data + mem[addr + |data|..]
  }

  // ----- Actions ---------------------------------------------------------------------

  /** `Write` registers an undo record and then writes; `Keep` only registers one; `Raw`
      writes without registering. */
  datatype Kind = Write | Keep | Raw

  datatype Action =
    | Mmio(kind: Kind, addr: nat, data: seq<octet>)
    | Pci(kind: Kind, addr: nat, data: seq<octet>)
    | PciInit

  ghost predicate InRange(s: State, op: Action) {
    match op
    case Mmio(_, addr, data) => addr + |data| <= |s.mmio|
    case Pci(_, addr, data) => addr + |data| <= |s.pci|
    case PciInit => true
  }

  /** The state after the undo record of an action has been pushed, if it pushes one. */
  ghost function Registered(s: State, op: Action): State
    requires InRange(s, op)
  {
    match op
    case Mmio(kind, addr, data) =>
      if kind.Raw? then s else s.Register(MmioUndo(addr, s.mmio[addr..addr + |data|]))
    case Pci(kind, addr, data) =>
      if kind.Raw? then s else s.Register(PciUndo(s.pacc, addr, s.pci[addr..addr + |data|]))
    case PciInit =>
      if s.pacc then s else s.(pacc := true).Register(PciShutdown)
  }

  ghost function Exec(s: State, op: Action): State
    requires InRange(s, op)
  {
    var r := Registered(s, op);
    match op
    case Mmio(kind, addr, data) => if kind.Keep? then r else r.(mmio := Store(s.mmio, addr, data))
    case Pci(kind, addr, data) => if kind.Keep? then r else r.(pci := Store(s.pci, addr, data))
    case PciInit => r
  }

  // ----- Shutdown --------------------------------------------------------------------

  /** The records fit the address spaces they belong to. */
  ghost predicate Sized(s: State) {
    forall i | 0 <= i < |s.stack| ::
      match s.stack[i]
      case MmioUndo(addr, data) => addr + |data| <= |s.mmio|
      case PciUndo(_, addr, data) => addr + |data| <= |s.pci|
      case PciShutdown => true
  }

  /** Runs the top record. */
  ghost function Pop(s: State): (State, int)
    requires |s.stack| > 0 && Sized(s)
  {
    var t := s.(stack := s.stack[..|s.stack| - 1]);
    match s.stack[|s.stack| - 1]
    case MmioUndo(addr, data) => (t.(mmio := Store(s.mmio, addr, data)), 0)
    case PciUndo(hasDev, addr, data) =>
      if !s.pacc || !hasDev then (t, 1) else (t.(pci := Store(s.pci, addr, data)), 0)
    case PciShutdown => if s.pacc then (t.(pacc := false), 0) else (t, 1)
  }

  lemma PopSized(s: State)
    requires |s.stack| > 0 && Sized(s)
    ensures Sized(Pop(s).0) && |Pop(s).0.stack| == |s.stack| - 1
    ensures |Pop(s).0.mmio| == |s.mmio| && |Pop(s).0.pci| == |s.pci|
  {
  }

  /** All records, last registered first; the results are or-ed. */
  ghost function Unwind(s: State): (State, bool)
    requires Sized(s)
    decreases |s.stack|
  {
    if s.stack == [] then (s, true)
    else
      PopSized(s);
      var (t, ret) := Pop(s);
      var (u, ok) := Unwind(t);
      (u, ok && ret == 0)
  }

  /** programmer_shutdown would bring back these register contents, without an error. */
  ghost predicate Restores(s: State, mmio0: seq<octet>, pci0: seq<octet>)
    requires Sized(s)
  {
    var (t, ok) := Unwind(s);
    ok && t.mmio == mmio0 && t.pci == pci0
  }

  // ----- Coverage --------------------------------------------------------------------

  ghost predicate SavesMmio(r: Record, a: nat) {
    r.MmioUndo? && r.addr <= a < r.addr + |r.data|
  }

  ghost predicate SavesPci(r: Record, a: nat) {
    r.PciUndo? && r.addr <= a < r.addr + |r.data|
  }

  ghost predicate MmioSaved(s: State, a: nat) {
    exists i :: 0 <= i < |s.stack| && SavesMmio(s.stack[i], a)
  }

  ghost predicate PciSaved(s: State, a: nat) {
    exists i :: 0 <= i < |s.stack| && SavesPci(s.stack[i], a)
  }

  /** Every PCI record has a device, and PCI access is open until they have all run: they
      lie above the record that closes it, which is registered at most once. */
  ghost predicate PciOpen(s: State) {
    && (forall i | 0 <= i < |s.stack| && s.stack[i].PciUndo? :: s.stack[i].hasDev)
    && (forall i | 0 <= i < |s.stack| && !s.stack[i].MmioUndo? :: s.pacc)
    && (forall i, j | 0 <= i < j < |s.stack| && s.stack[i].PciUndo? :: !s.stack[j].PciShutdown?)
    && (forall i, j | 0 <= i < j < |s.stack| && s.stack[i].PciShutdown? :: !s.stack[j].PciShutdown?)
  }

  ghost predicate Ready(s: State, mmio0: seq<octet>, pci0: seq<octet>) {
    Sized(s) && PciOpen(s) && Restores(s, mmio0, pci0)
  }

  lemma PopOpen(s: State)
    requires |s.stack| > 0 && Sized(s) && PciOpen(s)
    ensures PciOpen(Pop(s).0) && Pop(s).1 == 0
  {
    var n := |s.stack| - 1;
    var t := Pop(s).0;
    assert forall i | 0 <= i < n :: t.stack[i] == s.stack[i];
    assert s.stack[n].PciShutdown? ==> forall i | 0 <= i < n :: s.stack[i].MmioUndo?;
  }

  /** From `s` and `t` shutdown reached `u` and `v`: saved bytes agree, others are as they
      were. */
  ghost predicate MmioAgree(s: State, t: State, u: State, v: State)
    requires |t.mmio| == |s.mmio|
  {
    && |u.mmio| == |v.mmio| == |s.mmio|
    && forall a: nat | a < |s.mmio| :: if MmioSaved(s, a) then u.mmio[a] == v.mmio[a]
                                       else u.mmio[a] == s.mmio[a] && v.mmio[a] == t.mmio[a]
  }

  ghost predicate PciAgree(s: State, t: State, u: State, v: State)
    requires |t.pci| == |s.pci|
  {
    && |u.pci| == |v.pci| == |s.pci|
    && forall a: nat | a < |s.pci| :: if PciSaved(s, a) then u.pci[a] == v.pci[a]
                                      else u.pci[a] == s.pci[a] && v.pci[a] == t.pci[a]
  }

  /** What shutdown makes of a byte depends on its current value only if no record saves it. */
  lemma {:induction false} UnwindAgrees(s: State, t: State)
    requires Sized(s) && Sized(t) && PciOpen(s) && t.stack == s.stack && t.pacc == s.pacc
    requires |t.mmio| == |s.mmio| && |t.pci| == |s.pci|
    ensures Unwind(s).1 == Unwind(t).1 == true
    ensures MmioAgree(s, t, Unwind(s).0, Unwind(t).0) && PciAgree(s, t, Unwind(s).0, Unwind(t).0)
    decreases |s.stack|
  {
    if s.stack != [] {
      var s', t' := Pop(s).0, Pop(t).0;
      PopSized(s);
      PopSized(t);
      PopOpen(s);
      PopOpen(t);
      UnwindAgrees(s', t');
      PopAgrees(s, t, Unwind(s').0, Unwind(t').0);
    }
  }

  lemma PopAgrees(s: State, t: State, u: State, v: State)
    requires Sized(s) && Sized(t) && PciOpen(s) && t.stack == s.stack != [] && t.pacc == s.pacc
    requires |t.mmio| == |s.mmio| && |t.pci| == |s.pci| && |Pop(t).0.mmio| == |Pop(s).0.mmio|
             && |Pop(t).0.pci| == |Pop(s).0.pci|
    requires MmioAgree(Pop(s).0, Pop(t).0, u, v) && PciAgree(Pop(s).0, Pop(t).0, u, v)
    ensures MmioAgree(s, t, u, v) && PciAgree(s, t, u, v)
  {
    var n := |s.stack| - 1;
    PopSized(s);
    forall a: nat
      ensures MmioSaved(s, a) <==> MmioSaved(Pop(s).0, a) || SavesMmio(s.stack[n], a)
      ensures PciSaved(s, a) <==> PciSaved(Pop(s).0, a) || SavesPci(s.stack[n], a)
    {
      SavedByTop(s, Pop(s).0, a);
    }
  }

  lemma SavedByTop(s: State, t: State, a: nat)
    requires |s.stack| > 0 && t.stack == s.stack[..|s.stack| - 1]
    ensures MmioSaved(s, a) <==> MmioSaved(t, a) || SavesMmio(s.stack[|s.stack| - 1], a)
    ensures PciSaved(s, a) <==> PciSaved(t, a) || SavesPci(s.stack[|s.stack| - 1], a)
  {
    var n := |s.stack| - 1;
    forall i | 0 <= i < n ensures t.stack[i] == s.stack[i] {
    }
  }

  // ----- One action ------------------------------------------------------------------

  /** Bytes of `[addr, addr + |data|)` are either saved by a record or keep their value. */
  ghost predicate MmioHarmless(s: State, r: State, addr: nat, data: seq<octet>)
    requires addr + |data| <= |s.mmio|
  {
    forall a: nat | addr <= a < addr + |data| :: MmioSaved(r, a) || data[a - addr] == s.mmio[a]
  }

  ghost predicate PciHarmless(s: State, r: State, addr: nat, data: seq<octet>)
    requires addr + |data| <= |s.pci|
  {
    forall a: nat | addr <= a < addr + |data| :: PciSaved(r, a) || data[a - addr] == s.pci[a]
  }

  /** The condition under which an action can be undone: what it overwrites is saved or
      keeps its value, and a PCI record is only pushed while PCI access is open. */
  ghost predicate Undoable(s: State, op: Action)
    requires InRange(s, op)
  {
    match op
    case Mmio(kind, addr, data) => kind.Keep? || MmioHarmless(s, Registered(s, op), addr, data)
    case Pci(kind, addr, data) =>
      && (kind.Keep? || PciHarmless(s, Registered(s, op), addr, data))
      && (kind.Raw? || s.pacc || !s.CanRegister())
    case PciInit => true
  }

  /** Registering a record of the current contents changes nothing about the restoration. */
  lemma RegisterKeeps(s: State, op: Action, mmio0: seq<octet>, pci0: seq<octet>)
    requires InRange(s, op) && Ready(s, mmio0, pci0)
    requires op.Pci? ==> op.kind.Raw? || s.pacc || !s.CanRegister()
    ensures Ready(Registered(s, op), mmio0, pci0)
  {
    var r := Registered(s, op);
    if op.PciInit? && !s.pacc && !s.CanRegister() {
      OnlyMmio(s);
      PaccUnused(s, r);
    } else if r != s {
      var rec := match op
        case Mmio(_, addr, data) => MmioUndo(addr, s.mmio[addr..addr + |data|])
        case Pci(_, addr, data) => PciUndo(true, addr, s.pci[addr..addr + |data|])
        case PciInit => PciShutdown;
      if op.PciInit? {
        OnlyMmio(s);
      }
      PushOpen(r, s, rec);
      PushPop(r, s, rec);
      PushKeeps(r, s, mmio0, pci0);
    }
  }

  /** A record whose execution leads back to a state from which everything is restored. */
  lemma PushKeeps(r: State, s: State, mmio0: seq<octet>, pci0: seq<octet>)
    requires Sized(r) && PciOpen(r) && r.stack != [] && Pop(r) == (s, 0) && Ready(s, mmio0, pci0)
    ensures Ready(r, mmio0, pci0)
  {
  }

  lemma PushPop(r: State, s: State, rec: Record)
    requires Sized(r) && r == s.(stack := s.stack + [rec], pacc := r.pacc)
    requires match rec
             case MmioUndo(addr, data) => r.pacc == s.pacc && addr + |data| <= |s.mmio|
               && data == s.mmio[addr..addr + |data|]
             case PciUndo(hasDev, addr, data) => hasDev && r.pacc && s.pacc && addr + |data| <= |s.pci|
               && data == s.pci[addr..addr + |data|]
             case PciShutdown => r.pacc && !s.pacc
    ensures Pop(r) == (s, 0)
  {
    assert r.stack[..|s.stack|] == s.stack && r.stack[|s.stack|] == rec;
    if rec.MmioUndo? {
      assert Store(s.mmio, rec.addr, rec.data) == s.mmio;
    } else if rec.PciUndo? {
      assert Store(s.pci, rec.addr, rec.data) == s.pci;
    }
  }

  lemma PushOpen(r: State, s: State, rec: Record)
    requires Sized(s) && PciOpen(s) && r == s.(stack := s.stack + [rec], pacc := r.pacc)
    requires match rec
             case MmioUndo(addr, data) => r.pacc == s.pacc && addr + |data| <= |s.mmio|
             case PciUndo(hasDev, addr, data) => hasDev && r.pacc && addr + |data| <= |s.pci|
             case PciShutdown => r.pacc && forall i | 0 <= i < |s.stack| :: s.stack[i].MmioUndo?
    ensures Sized(r) && PciOpen(r)
  {
    assert forall i | 0 <= i < |s.stack| :: r.stack[i] == s.stack[i];
  }

  lemma OnlyMmio(s: State)
    requires PciOpen(s) && !s.pacc
    ensures forall i | 0 <= i < |s.stack| :: s.stack[i].MmioUndo?
  {
  }

  lemma {:induction false} PaccUnused(s: State, t: State)
    requires Sized(s) && Sized(t) && t == s.(pacc := t.pacc) && forall i | 0 <= i < |s.stack| :: s.stack[i].MmioUndo?
    ensures Unwind(t).1 == Unwind(s).1 && Unwind(t).0.mmio == Unwind(s).0.mmio && Unwind(t).0.pci == Unwind(s).0.pci
    decreases |s.stack|
  {
    if s.stack != [] {
      PopSized(s);
      PopSized(t);
      PaccUnused(Pop(s).0, Pop(t).0);
    }
  }

  lemma {:induction false} MayRegisterUnused(s: State, t: State)
    requires Sized(s) && Sized(t) && t == s.(mayRegister := t.mayRegister)
    ensures Unwind(t).1 == Unwind(s).1 && Unwind(t).0.mmio == Unwind(s).0.mmio && Unwind(t).0.pci == Unwind(s).0.pci
    decreases |s.stack|
  {
    if s.stack != [] {
      PopSized(s);
      PopSized(t);
      MayRegisterUnused(Pop(s).0, Pop(t).0);
    }
  }

  /** An action keeps the restoration possible exactly if it is undoable; and then the stack
      keeps its shape. */
  lemma RestoresIffUndoable(s: State, op: Action, mmio0: seq<octet>, pci0: seq<octet>)
    requires InRange(s, op) && Ready(s, mmio0, pci0)
    ensures Sized(Exec(s, op))
    ensures Restores(Exec(s, op), mmio0, pci0) <==> Undoable(s, op)
    ensures Ready(Exec(s, op), mmio0, pci0) <==> Undoable(s, op)
  {
    var r, e := Registered(s, op), Exec(s, op);
    if op.Pci? && !op.kind.Raw? && !s.pacc && s.CanRegister() {
      ClosedPciRecord(s, op, e);
    } else {
      RegisterKeeps(s, op, mmio0, pci0);
      UnwindAgrees(r, e);
      if Undoable(s, op) {
        UndoableRestores(s, op, mmio0, pci0);
      } else {
        LostByte(s, op, mmio0, pci0);
      }
    }
  }

  /** A PCI record pushed while PCI access is closed has no device and makes shutdown fail. */
  lemma ClosedPciRecord(s: State, op: Action, e: State)
    requires InRange(s, op) && Sized(s) && e == Exec(s, op) && op.Pci? && !op.kind.Raw? && !s.pacc && s.CanRegister()
    ensures Sized(e) && !PciOpen(e) && !Unwind(e).1
  {
    var rec := PciUndo(false, op.addr, s.pci[op.addr..op.addr + |op.data|]);
    assert e.stack == s.stack + [rec];
    assert forall i | 0 <= i < |s.stack| :: e.stack[i] == s.stack[i];
    assert e.stack[|s.stack|] == rec && Sized(e);
    assert Pop(e).1 == 1;
  }

  /** Past registration, an action only stores its data. */
  lemma ExecShape(s: State, op: Action)
    requires InRange(s, op) && Sized(Registered(s, op))
    ensures var r, e := Registered(s, op), Exec(s, op);
            && Sized(e) && e.stack == r.stack && e.pacc == r.pacc && |e.mmio| == |r.mmio| && |e.pci| == |r.pci|
            && (forall a: nat | a < |s.mmio| ::
                  e.mmio[a] == if op.Mmio? && !op.kind.Keep? && op.addr <= a < op.addr + |op.data|
                    then op.data[a - op.addr] else r.mmio[a])
            && (forall a: nat | a < |s.pci| ::
                  e.pci[a] == if op.Pci? && !op.kind.Keep? && op.addr <= a < op.addr + |op.data|
                    then op.data[a - op.addr] else r.pci[a])
            && r.mmio == s.mmio && r.pci == s.pci
  {
  }

  lemma UndoableRestores(s: State, op: Action, mmio0: seq<octet>, pci0: seq<octet>)
    requires InRange(s, op) && Ready(Registered(s, op), mmio0, pci0) && Undoable(s, op)
    ensures Ready(Exec(s, op), mmio0, pci0)
  {
    var r, e := Registered(s, op), Exec(s, op);
    ExecShape(s, op);
    UnwindAgrees(r, e);
    var u, v := Unwind(r).0, Unwind(e).0;
    assert u.mmio == v.mmio && u.pci == v.pci;
  }

  lemma LostByte(s: State, op: Action, mmio0: seq<octet>, pci0: seq<octet>)
    requires InRange(s, op) && Ready(Registered(s, op), mmio0, pci0) && !Undoable(s, op)
    requires op.Pci? ==> op.kind.Raw? || s.pacc || !s.CanRegister()
    ensures Sized(Exec(s, op)) && !Restores(Exec(s, op), mmio0, pci0)
  {
    var r, e := Registered(s, op), Exec(s, op);
    ExecShape(s, op);
    var a := LostAt(s, op, r);
    UnsavedByte(r, e, a);
  }

  ghost function LostAt(s: State, op: Action, r: State): (a: nat)
    requires InRange(s, op) && r == Registered(s, op) && !Undoable(s, op)
    requires op.Pci? ==> op.kind.Raw? || s.pacc || !s.CanRegister()
    ensures op.addr <= a < op.addr + |op.data| && !op.kind.Keep?
    ensures if op.Mmio? then !MmioSaved(r, a) && op.data[a - op.addr] != s.mmio[a]
            else op.Pci? && !PciSaved(r, a) && op.data[a - op.addr] != s.pci[a]
  {
    if op.Mmio? then
      var a: nat :| op.addr <= a < op.addr + |op.data| && !MmioSaved(r, a) && op.data[a - op.addr] != s.mmio[a];
      a
    else
      var a: nat :| op.addr <= a < op.addr + |op.data| && !PciSaved(r, a) && op.data[a - op.addr] != s.pci[a];
      a
  }

  /** A difference in a byte that no record saves survives shutdown. */
  lemma UnsavedByte(s: State, t: State, a: nat)
    requires Sized(s) && Sized(t) && PciOpen(s) && t.stack == s.stack && t.pacc == s.pacc
    requires |t.mmio| == |s.mmio| && |t.pci| == |s.pci|
    ensures a < |s.mmio| && !MmioSaved(s, a) && t.mmio[a] != s.mmio[a] ==> Unwind(t).0.mmio != Unwind(s).0.mmio
    ensures a < |s.pci| && !PciSaved(s, a) && t.pci[a] != s.pci[a] ==> Unwind(t).0.pci != Unwind(s).0.pci
  {
    UnwindAgrees(s, t);
    var u, v := Unwind(s).0, Unwind(t).0;
    assert a < |s.mmio| && !MmioSaved(s, a) ==> u.mmio[a] == s.mmio[a] && v.mmio[a] == t.mmio[a];
    assert a < |s.pci| && !PciSaved(s, a) ==> u.pci[a] == s.pci[a] && v.pci[a] == t.pci[a];
  }

  // ----- Whole runs --------------------------------------------------------------------

  ghost predicate Possible(s: State, ops: seq<Action>)
    decreases |ops|
  {
    ops == [] || (InRange(s, ops[0]) && Possible(Exec(s, ops[0]), ops[1..]))
  }

  ghost function Run(s: State, ops: seq<Action>): State
    requires Possible(s, ops)
    decreases |ops|
  {
    if ops == [] then s else Run(Exec(s, ops[0]), ops[1..])
  }

  /** The discipline that programmers follow: at most 32 registrations in all, raw writes
      only to registered locations, PCI writes only after pci_init_common. */
  ghost predicate Disciplined(s: State, ops: seq<Action>)
    requires Possible(s, ops)
    decreases |ops|
  {
    ops == [] || (
      && s.mayRegister
      && (match ops[0]
          case Mmio(Raw, addr, data) => forall a: nat | addr <= a < addr + |data| :: MmioSaved(s, a)
          case Pci(Raw, addr, data) => forall a: nat | addr <= a < addr + |data| :: PciSaved(s, a)
          case Mmio(_, _, _) => |s.stack| < SHUTDOWN_MAXFN
          case Pci(_, _, _) => |s.stack| < SHUTDOWN_MAXFN && s.pacc
          case PciInit => |s.stack| < SHUTDOWN_MAXFN)
      && Disciplined(Exec(s, ops[0]), ops[1..]))
  }

  lemma DisciplinedStep(s: State, ops: seq<Action>)
    requires Possible(s, ops) && ops != [] && Disciplined(s, ops)
    ensures Undoable(s, ops[0])
  {
    var r := Registered(s, ops[0]);
    if !ops[0].PciInit? && !ops[0].kind.Raw? {
      var top := r.stack[|s.stack|];
      assert forall a: nat | ops[0].addr <= a < ops[0].addr + |ops[0].data| :: SavesMmio(top, a) || SavesPci(top, a);
    }
  }

  /** For any interleaving of disciplined actions, overlapping or not, shutdown restores
      every byte to its value before the first action, and every undo function succeeds. */
  lemma {:induction false} ShutdownRestores(s: State, ops: seq<Action>, mmio0: seq<octet>, pci0: seq<octet>)
    requires Possible(s, ops) && Disciplined(s, ops) && Ready(s, mmio0, pci0)
    ensures Ready(Run(s, ops), mmio0, pci0)
    decreases |ops|
  {
    if ops != [] {
      DisciplinedStep(s, ops);
      RestoresIffUndoable(s, ops[0], mmio0, pci0);
      ShutdownRestores(Exec(s, ops[0]), ops[1..], mmio0, pci0);
    }
  }

  lemma FreshRunRestores(mmio: seq<octet>, pci: seq<octet>, ops: seq<Action>)
    requires var s := State(mmio, pci, [], true, false); Possible(s, ops) && Disciplined(s, ops)
    ensures Ready(Run(State(mmio, pci, [], true, false), ops), mmio, pci)
  {
    ShutdownRestores(State(mmio, pci, [], true, false), ops, mmio, pci);
  }

  const Fresh := State([0, 0], [], [], true, false)

  /** `n` registrations that save byte 1. */
  function Keeps(n: nat): (ops: seq<Action>)
    ensures |ops| == n
  {
    if n == 0 then [] else [Mmio(Keep, 1, [0])] + Keeps(n - 1)
  }

  lemma {:induction false} RunKeeps(s: State, n: nat)
    requires Ready(s, [0, 0], []) && |s.stack| + n <= SHUTDOWN_MAXFN && s.mmio == [0, 0] && s.mayRegister
             && !MmioSaved(s, 0)
    ensures Possible(s, Keeps(n))
    ensures var t := Run(s, Keeps(n));
            Ready(t, [0, 0], []) && |t.stack| == |s.stack| + n && t.mmio == [0, 0] && t.mayRegister && !MmioSaved(t, 0)
    decreases n
  {
    if n > 0 {
      var op := Mmio(Keep, 1, [0]);
      var t := Exec(s, op);
      assert Keeps(n)[0] == op && Keeps(n)[1..] == Keeps(n - 1);
      var top := MmioUndo(1, s.mmio[1..2]);
      assert t.stack == s.stack + [top] && t.stack[..|s.stack|] == s.stack;
      assert Undoable(s, op);
      RestoresIffUndoable(s, op, [0, 0], []);
      SavedByTop(t, s, 0);
      RunKeeps(t, n - 1);
    }
  }

  /** After 32 registrations the next one is refused and the refusal ignored: the write cannot
      be undone. */
  lemma FullStackLosesWrite() returns (ops: seq<Action>)
    ensures |ops| == SHUTDOWN_MAXFN && Possible(Fresh, ops) && Ready(Run(Fresh, ops), Fresh.mmio, Fresh.pci)
    ensures var s, op := Run(Fresh, ops), Mmio(Write, 0, [1]);
            InRange(s, op) && Sized(Exec(s, op)) && !Restores(Exec(s, op), Fresh.mmio, Fresh.pci)
  {
    var n: nat := SHUTDOWN_MAXFN;
    ops := Keeps(n);
    RunKeeps(Fresh, n);
    var s, op := Run(Fresh, ops), Mmio(Write, 0, [1]);
    assert Registered(s, op) == s && !MmioSaved(s, 0);
    assert op.data[0 - op.addr] != s.mmio[0];
    RestoresIffUndoable(s, op, [0, 0], []);
  }

  // ----- The programmer --------------------------------------------------------------

  class Programmer {
    var mmio: seq<octet>
    var pci: seq<octet>
    var shutdownFn: seq<Record>
    var mayRegister: bool
    var pacc: bool

    ghost function Abstract(): State
      reads this
    {
      State(mmio, pci, shutdownFn, mayRegister, pacc)
    }

    method RegisterShutdown(r: Record) returns (ret: int)
      modifies this`shutdownFn
      ensures Abstract() == old(Abstract()).Register(r)
      ensures ret == if old(Abstract()).CanRegister() then 0 else 1
    {
      if |shutdownFn| >= SHUTDOWN_MAXFN {
        return 1;
      }
      if !mayRegister {
        return 1;
      }
      shutdownFn := shutdownFn + [r];
      return 0;
    }

    method MmioWrite(addr: nat, data: seq<octet>)
      requires addr + |data| <= |mmio|
      modifies this`mmio
      ensures Abstract() == Exec(old(Abstract()), Mmio(Raw, addr, data))
    {
      mmio := Store(mmio, addr, data);
    }

    /** rmmio_valb, rmmio_valw, rmmio_vall; the result of the registration is ignored. */
    method RmmioVal(addr: nat, width: nat)
      requires addr + width <= |mmio|
      modifies this`shutdownFn
      ensures forall data: seq<octet> | |data| == width :: Abstract() == Exec(old(Abstract()), Mmio(Keep, addr, data))
    {
      var _ := RegisterShutdown(MmioUndo(addr, mmio[addr..addr + width]));
    }

    method RmmioWrite(addr: nat, data: seq<octet>)
      requires addr + |data| <= |mmio|
      modifies this`shutdownFn, this`mmio
      ensures Abstract() == Exec(old(Abstract()), Mmio(Write, addr, data))
    {
      var _ := RegisterShutdown(MmioUndo(addr, mmio[addr..addr + |data|]));
      mmio := Store(mmio, addr, data);
    }

    method PciInitCommon() returns (ret: int)
      modifies this`shutdownFn, this`pacc
      ensures Abstract() == Exec(old(Abstract()), PciInit)
      ensures ret == if !old(pacc) && old(Abstract()).CanRegister() then 0 else 1
    {
      if pacc {
        return 1;
      }
      pacc := true;
      var r := RegisterShutdown(PciShutdown);
      if r != 0 {
        return 1;
      }
      return 0;
    }

    method RpciWrite(addr: nat, data: seq<octet>)
      requires addr + |data| <= |pci|
      modifies this`shutdownFn, this`pci
      ensures Abstract() == Exec(old(Abstract()), Pci(Write, addr, data))
    {
      var _ := RegisterShutdown(PciUndo(pacc, addr, pci[addr..addr + |data|]));
      pci := Store(pci, addr, data);
    }

    /** Runs one shutdown function. */
    method RunTop() returns (ret: int)
      requires |shutdownFn| > 0 && Sized(Abstract())
      modifies this
      ensures (Abstract(), ret) == Pop(old(Abstract()))
    {
      var i := |shutdownFn| - 1;
      var r := shutdownFn[i];
      shutdownFn := shutdownFn[..i];
      match r
      case MmioUndo(addr, data) =>
        mmio := Store(mmio, addr, data);
        ret := 0;
      case PciUndo(hasDev, addr, data) =>
        if !pacc || !hasDev {
          return 1;
        }
        pci := Store(pci, addr, data);
        ret := 0;
      case PciShutdown =>
        if !pacc {
          return 1;
        }
        pacc := false;
        ret := 0;
    }

    /** Runs all registered functions, last one first. */
    method ProgrammerShutdown() returns (ret: int)
      requires Sized(Abstract())
      modifies this
      ensures !mayRegister && shutdownFn == []
      ensures Abstract() == Unwind(old(Abstract()).(mayRegister := false)).0
      ensures ret == 0 <==> Unwind(old(Abstract()).(mayRegister := false)).1
      ensures forall m: seq<octet>, p: seq<octet> | Restores(old(Abstract()), m, p) :: ret == 0 && mmio == m && pci == p
    {
      ret := 0;
      mayRegister := false;
      ghost var s0 := Abstract();
      MayRegisterUnused(old(Abstract()), s0);
      while |shutdownFn| > 0
        invariant Sized(Abstract()) && !mayRegister
        invariant Unwind(s0).0 == Unwind(Abstract()).0
        invariant Unwind(s0).1 <==> ret == 0 && Unwind(Abstract()).1
        decreases |shutdownFn|
      {
        PopSized(Abstract());
        var r := RunTop();
        if r != 0 {
          ret := 1;
        }
      }
    }
  }
}
