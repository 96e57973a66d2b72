/**
 The debugged process as the debugger can reach it: byte-addressed memory shared by all threads,
 one hardware debug register set per thread, and the general and floating-point register sets.

 Every request to the kernel may fail at any time; each failure is counted in the ghost field
 `faults`, so that callers can promise to fail only when the kernel did.
 */
module Tracees {

  type byte = x: int | 0 <= x < 256

  datatype Option<+T> = None | Some(value: T)

  // ---------- memory ranges ----------

  /** The range can be accessed; an empty range always can. */
  predicate Mapped(m: seq<byte>, at: nat, n: nat) {
    n == 0 || at + n <= |m|
  }

  function Slice(m: seq<byte>, at: nat, n: nat): (r: seq<byte>)
    requires Mapped(m, at, n)
    ensures |r| == n
  {
    if n == 0 then [] else m[at..at + n]
  }

  /** Memory with `data` stored at `at`: exactly the bytes of the range change. */
  function Splice(m: seq<byte>, at: nat, data: seq<byte>): (r: seq<byte>)
    requires Mapped(m, at, |data|)
    ensures |r| == |m|
    ensures forall i :: 0 <= i < |m| ==> r[i] == if at <= i < at + |data| then data[i - at] else m[i]
  {
    seq(|m|, i requires 0 <= i < |m| => if at <= i < at + |data| then data[i - at] else m[i])
  }

  function Min(a: nat, b: nat): nat { if a < b then a else b }

  // ---------- debug registers ----------

  const DEBUG_SLOTS: nat := 16
  const DBG_INFO: int := 16
  const DBG_INVALID: int := 18

  datatype DebugSlot = DebugSlot(addr: int, ctrl: bv32)

  /** One thread's `user_hwdebug_state`. */
  datatype HwDebug = HwDebug(info: bv32, slots: seq<DebugSlot>)

  /** The hardware implements the first `implemented` slots; the rest always read as zero. */
  predicate SaneHwDebug(h: HwDebug, implemented: nat) {
    && |h.slots| == DEBUG_SLOTS
    && forall i :: implemented <= i < DEBUG_SLOTS ==> h.slots[i] == DebugSlot(0, 0)
  }

  /** What the kernel keeps of a whole-set write: the implemented slots, nothing else. */
  function Accepted(h: HwDebug, wanted: HwDebug, implemented: nat): (r: HwDebug)
    requires |h.slots| == |wanted.slots| == DEBUG_SLOTS
    ensures SaneHwDebug(h, implemented) ==> SaneHwDebug(r, implemented)
  {
    HwDebug(h.info, seq(DEBUG_SLOTS, i requires 0 <= i < DEBUG_SLOTS =>
                          if i < implemented then wanted.slots[i] else h.slots[i]))
  }

  // ---------- general and floating-point registers ----------

  datatype RegisterClass = Gpr | Fpr

  /** Both sets hold 34 values: x0-x30, sp, pc, pstate and v0-v31, fpsr, fpcr. */
  const REGISTERS: nat := 34

  class Tracee {
    const implemented: nat
    // process_vm_writev moves a single iovec element as a whole or not at all
    const wholeElements: bool

    var memory: seq<byte>
    var debug: map<int, HwDebug>
    var registers: map<(int, RegisterClass), seq<nat>>
    ghost var faults: nat
    // the threads PTRACE_CONT was asked to send on, and whether it did
    ghost var continued: seq<(int, bool)>
    // the last waitpid: the thread it waited for, the pid it reported, and whether that had stopped
    ghost var lastWait: (int, int, bool)

    ghost predicate Valid()
      reads this
    {
      && implemented <= DEBUG_SLOTS
      && (forall tid :: tid in debug ==> SaneHwDebug(debug[tid], implemented))
      && (forall key :: key in registers ==> |registers[key]| == REGISTERS)
    }

    // PTRACE_PEEKDATA
    method Peek(tid: int, address: nat) returns (ok: bool, word: seq<byte>)
      modifies this`faults
      ensures ok ==> tid >= 1 && address + 8 <= |memory| && word == memory[address..address + 8]
      ensures faults == old(faults) + if ok then 0 else 1
    {
      var refused: bool := *;
      ok := !refused && tid >= 1 && address + 8 <= |memory|;
      if ok {
        word := memory[address..address + 8];
      } else {
        word := [];
        faults := faults + 1;
      }
    }

    // PTRACE_POKEDATA
    method Poke(tid: int, address: nat, word: seq<byte>) returns (ok: bool)
      requires |word| == 8
      modifies this`memory, this`faults
      ensures ok ==> tid >= 1 && address + 8 <= |old(memory)| && memory == Splice(old(memory), address, word)
      ensures !ok ==> memory == old(memory)
      ensures faults == old(faults) + if ok then 0 else 1
    {
      var refused: bool := *;
      ok := !refused && tid >= 1 && address + 8 <= |memory|;
      if ok {
        memory := Splice(memory, address, word);
      } else {
        faults := faults + 1;
      }
    }

    // process_vm_readv: the bytes of a prefix of the range, or -1
    method VmRead(tid: int, address: nat, size: nat) returns (n: int, data: seq<byte>)
      modifies this`faults
      ensures -1 <= n <= size
      ensures n > 0 ==> tid >= 1
      ensures n >= 0 ==> Mapped(memory, address, n) && data == Slice(memory, address, n)
      ensures faults == old(faults) + if n == size then 0 else 1
    {
      n, data := -1, [];
      var moved: int := *;
      if 0 <= moved <= size && (moved > 0 ==> tid >= 1) && Mapped(memory, address, moved) {
        n, data := moved, Slice(memory, address, moved);
      }
      if n != size {
        faults := faults + 1;
      }
    }

    // process_vm_writev: stores a prefix of the data and returns its length, or -1 with nothing stored
    method VmWrite(tid: int, address: nat, data: seq<byte>) returns (n: int)
      modifies this`memory, this`faults
      ensures -1 <= n <= |data|
      ensures n > 0 ==> tid >= 1 && Mapped(old(memory), address, n)
      ensures memory == if n <= 0 then old(memory) else Splice(old(memory), address, data[..n])
      ensures wholeElements ==> n <= 0 || n == |data|
      ensures faults == old(faults) + if n == |data| then 0 else 1
    {
      n := -1;
      var moved: int := *;
      if 0 <= moved <= |data| && (moved > 0 ==> tid >= 1) && Mapped(memory, address, moved)
         && (wholeElements ==> moved == 0 || moved == |data|) {
        n := moved;
        memory := Splice(memory, address, data[..moved]);
      }
      if n != |data| {
        faults := faults + 1;
      }
    }

    // PTRACE_GETREGSET with NT_ARM_HW_BREAK
    method GetHwDebug(tid: int) returns (r: Option<HwDebug>)
      modifies this`faults
      ensures r.Some? ==> tid >= 1 && tid in debug && r.value == debug[tid]
      ensures faults == old(faults) + if r.Some? then 0 else 1
    {
      var refused: bool := *;
      if refused || tid < 1 || tid !in debug {
        faults := faults + 1;
        return None;
      }
      return Some(debug[tid]);
    }

    // PTRACE_SETREGSET with NT_ARM_HW_BREAK: a refused write changes nothing
    method SetHwDebug(tid: int, wanted: HwDebug) returns (ok: bool)
      requires Valid() && |wanted.slots| == DEBUG_SLOTS
      modifies this`debug, this`faults
      ensures Valid()
      ensures ok ==> tid >= 1 && tid in old(debug)
                     && debug == old(debug)[tid := Accepted(old(debug)[tid], wanted, implemented)]
      ensures !ok ==> debug == old(debug)
      ensures faults == old(faults) + if ok then 0 else 1
    {
      var refused: bool := *;
      ok := !refused && tid >= 1 && tid in debug;
      if ok {
        debug := debug[tid := Accepted(debug[tid], wanted, implemented)];
      } else {
        faults := faults + 1;
      }
    }

    // PTRACE_GETREGSET with NT_PRSTATUS or NT_FPREGSET
    method GetRegisters(tid: int, kind: RegisterClass) returns (r: Option<seq<nat>>)
      modifies this`faults
      ensures r.Some? ==> (tid, kind) in registers && r.value == registers[(tid, kind)]
      ensures faults == old(faults) + if r.Some? then 0 else 1
    {
      var refused: bool := *;
      if refused || (tid, kind) !in registers {
        faults := faults + 1;
        return None;
      }
      return Some(registers[(tid, kind)]);
    }

    // PTRACE_SETREGSET with NT_PRSTATUS or NT_FPREGSET
    method SetRegisters(tid: int, kind: RegisterClass, values: seq<nat>) returns (ok: bool)
      requires Valid() && |values| == REGISTERS
      modifies this`registers, this`faults
      ensures Valid()
      ensures ok ==> (tid, kind) in old(registers) && registers == old(registers)[(tid, kind) := values]
      ensures !ok ==> registers == old(registers)
      ensures faults == old(faults) + if ok then 0 else 1
    {
      var refused: bool := *;
      ok := !refused && (tid, kind) in registers;
      if ok {
        registers := registers[(tid, kind) := values];
      } else {
        faults := faults + 1;
      }
    }

    // PTRACE_CONT
    method Continue(tid: int) returns (ok: bool)
      modifies this`faults, this`continued
      ensures faults == old(faults) + if ok then 0 else 1
      ensures continued == old(continued) + [(tid, ok)]
    {
      var refused: bool := *;
      ok := !refused && tid >= 1;
      continued := continued + [(tid, ok)];
      if !ok {
        faults := faults + 1;
      }
    }

    // A thread runs until waitpid reports it. It may write anywhere except the bytes of `code`,
    // and may change any register. Returns the reported pid and whether it reports a stop.
    method RunAndWait(tid: int, code: set<nat>) returns (reported: int, stopped: bool)
      requires Valid()
      modifies this`memory, this`registers, this`lastWait
      ensures Valid() && lastWait == (tid, reported, stopped)
      ensures |memory| == |old(memory)|
      ensures forall i :: 0 <= i < |memory| && i in code ==> memory[i] == old(memory)[i]
    {
      reported, stopped := *, *;
      lastWait := (tid, reported, stopped);
      var after: seq<byte> := *;
      if |after| == |memory| && forall i :: 0 <= i < |after| && i in code ==> after[i] == memory[i] {
        memory := after;
      }
      var values: map<(int, RegisterClass), seq<nat>> := *;
      if forall key | key in values :: |values[key]| == REGISTERS {
        registers := values;
      }
    }
  }
}
