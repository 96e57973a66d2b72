/**
 Single registers, read and written through their whole register set.
 */
module RegisterControl {
  import opened Tracees

  // ---------- debug registers ----------

  /** The set with one debug register replaced; for DBG_INFO only the control word counts. */
  function WithDbg(h: HwDebug, reg: nat, value: DebugSlot): HwDebug
    requires |h.slots| == DEBUG_SLOTS && reg <= DBG_INFO
  {
    if reg < DEBUG_SLOTS then h.(slots := h.slots[reg := value]) else h.(info := value.ctrl)
  }

  method GetDbg(t: Tracee, tid: int, reg: nat) returns (r: Option<DebugSlot>)
    requires t.Valid()
    modifies t`faults
    ensures r.Some? ==> tid >= 1 && tid in t.debug && reg <= DBG_INFO
                        && r.value == if reg < DEBUG_SLOTS then t.debug[tid].slots[reg]
                                      else DebugSlot(0, t.debug[tid].info)
    ensures reg <= DBG_INFO && r.None? ==> t.faults > old(t.faults)
    ensures t.faults >= old(t.faults)
  {
    var all := t.GetHwDebug(tid);
    if all.None? { return None; }
    if reg < DEBUG_SLOTS {
      return Some(all.value.slots[reg]);
    } else if reg == DBG_INFO {
      return Some(DebugSlot(0, all.value.info));
    }
    return None;
  }

  method SetDbg(t: Tracee, tid: int, reg: nat, value: DebugSlot) returns (ok: bool)
    requires t.Valid()
    modifies t`debug, t`faults
    ensures t.Valid()
    ensures ok ==> tid >= 1 && tid in old(t.debug) && reg <= DBG_INFO
                   && t.debug == old(t.debug)[tid := Accepted(old(t.debug)[tid],
                                                              WithDbg(old(t.debug)[tid], reg, value), t.implemented)]
    ensures !ok ==> t.debug == old(t.debug)
    ensures reg <= DBG_INFO && !ok ==> t.faults > old(t.faults)
    ensures t.faults >= old(t.faults)
  {
    var all := t.GetHwDebug(tid);
    if all.None? || reg > DBG_INFO { return false; }
    ok := t.SetHwDebug(tid, WithDbg(all.value, reg, value));
  }

  /** Rewriting the whole set through one register touches that register only. */
  lemma SetDbgTouchesOneSlot(h: HwDebug, reg: nat, value: DebugSlot, implemented: nat)
    requires SaneHwDebug(h, implemented) && reg < implemented <= DEBUG_SLOTS
    ensures Accepted(h, WithDbg(h, reg, value), implemented) == h.(slots := h.slots[reg := value])
  {
    var after := Accepted(h, WithDbg(h, reg, value), implemented);
    assert after.slots == h.slots[reg := value];
  }

  // ---------- general and floating-point registers ----------

  const GPR_NAMES: seq<string> := [
    "x0", "x1", "x2", "x3", "x4", "x5", "x6", "x7", "x8", "x9", "x10", "x11", "x12", "x13", "x14", "x15",
    "x16", "x17", "x18", "x19", "x20", "x21", "x22", "x23", "x24", "x25", "x26", "x27", "x28", "x29", "x30",
    "sp", "pc", "pstate"]

  const FPR_NAMES: seq<string> := [
    "v0", "v1", "v2", "v3", "v4", "v5", "v6", "v7", "v8", "v9", "v10", "v11", "v12", "v13", "v14", "v15",
    "v16", "v17", "v18", "v19", "v20", "v21", "v22", "v23", "v24", "v25", "v26", "v27", "v28", "v29", "v30", "v31",
    "fpsr", "fpcr"]

  const PC: nat := 32
  const REGISTER_INVALID: nat := 35

  function Names(kind: RegisterClass): (names: seq<string>)
    ensures |names| == REGISTERS
  {
    match kind case Gpr => GPR_NAMES case Fpr => FPR_NAMES
  }

  /** Vector registers are 128 bits wide, fpsr and fpcr 32, general registers 64. */
  function Width(kind: RegisterClass, reg: nat): nat {
    if kind.Gpr? then 64 else if reg < 32 then 128 else 32
  }

  /** The part of a string that the C library sees. */
  function CString(s: string): string {
    if s == [] || s[0] == '\0' then [] else [s[0]] + CString(s[1..])
  }

  function IndexFrom(names: seq<string>, wanted: string, i: nat): nat
    decreases |names| - i
  {
    if i >= |names| then REGISTER_INVALID else if names[i] == wanted then i else IndexFrom(names, wanted, i + 1)
  }

  /** The register a name stands for. */
  function RegisterNumber(kind: RegisterClass, name: string): nat {
    IndexFrom(Names(kind), CString(name), 0)
  }

  method Find(names: seq<string>, wanted: string) returns (i: nat)
    ensures i == IndexFrom(names, wanted, 0)
  {
    i := 0;
    while i < |names|
      invariant i <= |names| && IndexFrom(names, wanted, 0) == IndexFrom(names, wanted, i)
    {
      if names[i] == wanted { return; }
      i := i + 1;
    }
    i := REGISTER_INVALID;
  }

  method RegisterOf(kind: RegisterClass, name: string) returns (reg: nat)
    ensures reg == RegisterNumber(kind, name)
  {
    reg := Find(Names(kind), CString(name));
  }

  lemma {:induction false} IndexIsFirst(names: seq<string>, wanted: string, i: nat)
    requires i <= |names|
    ensures var k := IndexFrom(names, wanted, i);
            if wanted in names[i..] then i <= k < |names| && names[k] == wanted else k == REGISTER_INVALID
    decreases |names| - i
  {
    if i < |names| {
      assert names[i..] == [names[i]] + names[i + 1..];
      IndexIsFirst(names, wanted, i + 1);
    }
  }

  /** A number that tells the names of one table apart. */
  ghost function Ordinal(name: string): int {
    if |name| < 2 then -1
    else if name[0] in ['x', 'v'] then
      (if |name| == 2 then name[1] as int - '0' as int
       else 10 * (name[1] as int - '0' as int) + name[2] as int - '0' as int)
    else if name == "sp" then 31
    else if name == "pc" || name == "fpsr" then 32
    else 33
  }

  lemma GprOrder()
    ensures forall i :: 0 <= i < REGISTERS ==> Ordinal(GPR_NAMES[i]) == i
  {
  }

  lemma FprOrder()
    ensures forall i :: 0 <= i < REGISTERS ==> Ordinal(FPR_NAMES[i]) == i
  {
  }

  /** The tables and the lookup are inverse: the name of every register stands for it, and a string that stands
      for a register is, as the C library sees it, the register's name. */
  lemma NamesAndNumbers(kind: RegisterClass, name: string, reg: nat)
    requires reg < REGISTERS
    ensures RegisterNumber(kind, name) == reg <==> CString(name) == Names(kind)[reg]
  {
    match kind {
      case Gpr => GprOrder();
      case Fpr => FprOrder();
    }
    assert Names(kind)[0..] == Names(kind);
    IndexIsFirst(Names(kind), CString(name), 0);
  }

  lemma NameStandsForIt(kind: RegisterClass, reg: nat)
    requires reg < REGISTERS
    ensures RegisterNumber(kind, Names(kind)[reg]) == reg
  {
    NameIsPlain(kind, reg);
    NamesAndNumbers(kind, Names(kind)[reg], reg);
  }

  lemma NamesAreDistinct(kind: RegisterClass)
    ensures forall j, k :: 0 <= j < k < REGISTERS ==> Names(kind)[j] != Names(kind)[k]
  {
    forall j, k | 0 <= j < k < REGISTERS ensures Names(kind)[j] != Names(kind)[k] {
      NameStandsForIt(kind, j);
      NameStandsForIt(kind, k);
    }
  }

  /** No register name holds a NUL. */
  lemma NameIsPlain(kind: RegisterClass, reg: nat)
    requires reg < REGISTERS
    ensures CString(Names(kind)[reg]) == Names(kind)[reg]
  {
    var name := Names(kind)[reg];
    assert |name| <= 6;
    assert forall i :: 0 <= i < |name| ==> name[i] != '\0' by {
      match kind {
        case Gpr => GprNamesArePlain();
        case Fpr => FprNamesArePlain();
      }
    }
    PlainString(name);
  }

  predicate Plain(s: string) { |s| <= 6 && forall i :: 0 <= i < |s| ==> s[i] != '\0' }

  lemma GprNamesArePlain()
    ensures forall reg :: 0 <= reg < REGISTERS ==> Plain(GPR_NAMES[reg])
  {
  }

  lemma FprNamesArePlain()
    ensures forall reg :: 0 <= reg < REGISTERS ==> Plain(FPR_NAMES[reg])
  {
  }

  lemma {:induction false} PlainString(s: string)
    requires forall i :: 0 <= i < |s| ==> s[i] != '\0'
    ensures CString(s) == s
  {
    if s != [] { PlainString(s[1..]); }
  }

  /** A number below 100 in decimal. */
  function Decimal(n: nat): string
    requires n < 100
  {
    if n < 10 then ["0123456789"[n]] else ["0123456789"[n / 10], "0123456789"[n % 10]]
  }

  lemma GprTable()
    ensures forall i :: 0 <= i < 10 ==> GPR_NAMES[i] == "x" + Decimal(i)
    ensures GPR_NAMES[31] == "sp" && GPR_NAMES[32] == "pc" && GPR_NAMES[33] == "pstate"
  {
  }

  lemma GprTableFromTen()
    ensures forall i :: 10 <= i < 31 ==> GPR_NAMES[i] == "x" + Decimal(i)
  {
  }

  lemma FprTable()
    ensures forall i :: 0 <= i < 10 ==> FPR_NAMES[i] == "v" + Decimal(i)
    ensures FPR_NAMES[32] == "fpsr" && FPR_NAMES[33] == "fpcr"
  {
  }

  lemma FprTableFromTen()
    ensures forall i :: 10 <= i < 32 ==> FPR_NAMES[i] == "v" + Decimal(i)
  {
  }

  /** The number of every register, by its name in the manual. */
  lemma NumberedAsNamed()
    ensures forall i :: 0 <= i < 31 ==> RegisterNumber(Gpr, "x" + Decimal(i)) == i
    ensures RegisterNumber(Gpr, "sp") == 31 && RegisterNumber(Gpr, "pc") == 32 && RegisterNumber(Gpr, "pstate") == 33
    ensures forall i :: 0 <= i < 32 ==> RegisterNumber(Fpr, "v" + Decimal(i)) == i
    ensures RegisterNumber(Fpr, "fpsr") == 32 && RegisterNumber(Fpr, "fpcr") == 33
  {
    GprTable();
    GprTableFromTen();
    FprTable();
    FprTableFromTen();
    forall i | 0 <= i < 31 ensures RegisterNumber(Gpr, "x" + Decimal(i)) == i { NameStandsForIt(Gpr, i); }
    forall i | 0 <= i < 32 ensures RegisterNumber(Fpr, "v" + Decimal(i)) == i { NameStandsForIt(Fpr, i); }
    NameStandsForIt(Gpr, 31);
    NameStandsForIt(Gpr, 32);
    NameStandsForIt(Gpr, 33);
    NameStandsForIt(Fpr, 32);
    NameStandsForIt(Fpr, 33);
  }

  lemma PcIsNamed()
    ensures RegisterNumber(Gpr, "pc") == PC == 32
  {
    NumberedAsNamed();
  }

  function WithRegister(values: seq<nat>, reg: nat, value: nat): seq<nat>
    requires reg < |values|
  {
    values[reg := value]
  }

  method GetRegister(t: Tracee, tid: int, kind: RegisterClass, reg: nat) returns (r: Option<nat>)
    requires t.Valid()
    modifies t`faults
    ensures r.Some? ==> (tid, kind) in t.registers && reg < REGISTERS && r.value == t.registers[(tid, kind)][reg]
    ensures reg < REGISTERS && r.None? ==> t.faults > old(t.faults)
    ensures t.faults >= old(t.faults)
  {
    var all := t.GetRegisters(tid, kind);
    if all.None? || reg >= REGISTERS { return None; }
    return Some(all.value[reg]);
  }

  method SetRegister(t: Tracee, tid: int, kind: RegisterClass, reg: nat, value: nat) returns (ok: bool)
    requires t.Valid()
    modifies t`registers, t`faults
    ensures t.Valid()
    ensures ok ==> reg < REGISTERS && (tid, kind) in old(t.registers)
                   && t.registers == old(t.registers)[(tid, kind) :=
                        WithRegister(old(t.registers)[(tid, kind)], reg, value)]
    ensures !ok ==> t.registers == old(t.registers)
    ensures reg < REGISTERS && !ok ==> t.faults > old(t.faults)
    ensures t.faults >= old(t.faults)
  {
    var all := t.GetRegisters(tid, kind);
    if all.None? || reg >= REGISTERS { return false; }
    ok := t.SetRegisters(tid, kind, WithRegister(all.value, reg, value));
  }
}
