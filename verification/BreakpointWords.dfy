/**
 What every step keeps of one aligned word of the tracee's memory: it is the pristine word, or BRK if an enabled
 software breakpoint is there. Only a write that failed half-way, or one that poked an address instead of a word,
 can spoil a word, and it spoils no other.
 */
module BreakpointWords {
  import opened Tracees
  import opened BreakpointModel
  import opened BreakpointTables

  type Breakpoints = map<int, Breakpoint>

  predicate Patches(b: Breakpoint) { b.kind.Software? && b.enabled }

  /** An enabled software breakpoint is at the address. */
  ghost predicate PatchedAt(bps: Breakpoints, at: nat) {
    exists id :: id in bps && Patches(bps[id]) && bps[id].address == at
  }

  /** The word that belongs at an address. */
  ghost predicate RightWord(bps: Breakpoints, pristine: seq<byte>, at: nat, word: seq<byte>) {
    if PatchedAt(bps, at) then word == BRK else Mapped(pristine, at, 4) && word == Slice(pristine, at, 4)
  }

  /** The instructions saved for an address are the pristine one. */
  ghost predicate SavedRight(bps: Breakpoints, pristine: seq<byte>, at: nat) {
    forall id :: id in bps && bps[id].kind.Software? && bps[id].address == at ==>
      Mapped(pristine, at, 4) && bps[id].original == Slice(pristine, at, 4)
  }

  /** The word at `at`, or what there is of it at the end of memory, is as it should be. */
  ghost predicate WordOk(bps: Breakpoints, memory: seq<byte>, pristine: seq<byte>, at: nat) {
    && |memory| == |pristine| && SavedRight(bps, pristine, at)
    && forall i :: at <= i < at + 4 && i < |memory| ==>
         memory[i] == if PatchedAt(bps, at) then BRK[i - at] else pristine[i]
  }

  ghost predicate WordAtOk(s: State, at: nat) { WordOk(s.tables.breakpoints, s.memory, s.pristine, at) }

  lemma AlignedWordsAreDisjoint(a: nat, b: nat)
    requires a % 4 == 0 && b % 4 == 0 && a != b
    ensures a + 4 <= b || b + 4 <= a
  {
    assert a == 4 * (a / 4) && b == 4 * (b / 4);
  }

  // ---------- one write ----------

  /** The write at `a` spoils the word at `at`. */
  predicate Spoils(a: nat, residue: Residue, at: nat) {
    match residue
    case Exact => false
    case Torn(_) => at == a
    case Poked(_) => at == a || at == a + 4
  }

  /** The software breakpoints at the address are the same in both tables. */
  ghost predicate SameAt(bps: Breakpoints, bps': Breakpoints, at: nat) {
    && (forall id :: id in bps && bps[id].kind.Software? && bps[id].address == at ==>
          id in bps' && bps'[id] == bps[id])
    && (forall id :: id in bps' && bps'[id].kind.Software? && bps'[id].address == at ==>
          id in bps && bps'[id] == bps[id])
  }

  /** A word whose bytes and breakpoints stay is as right as before. */
  lemma WordStays(bps: Breakpoints, bps': Breakpoints, m: seq<byte>, m': seq<byte>, pristine: seq<byte>, at: nat)
    requires WordOk(bps, m, pristine, at) && SameAt(bps, bps', at) && |m'| == |m|
    requires forall i :: at <= i < at + 4 && i < |m| ==> m'[i] == m[i]
    ensures WordOk(bps', m', pristine, at)
  {
    assert PatchedAt(bps, at) <==> PatchedAt(bps', at);
  }

  /** A write leaves every aligned word alone but its own, and the next one if an address was poked. */
  lemma WriteLeavesWord(m: seq<byte>, a: nat, word: seq<byte>, ok: bool, residue: Residue, m': seq<byte>, at: nat)
    requires |word| == 4 && Patched(m, a, word, ok, residue, m') && a % 4 == 0 && at % 4 == 0
    requires at != a && !Spoils(a, residue, at)
    ensures |m'| == |m| && forall i :: at <= i < at + 4 && i < |m| ==> m'[i] == m[i]
  {
    AlignedWordsAreDisjoint(a, at);
    if at != a + 4 { AlignedWordsAreDisjoint(a + 4, at); }
  }

  /** Writing what belongs at an address puts its word right, whatever it was before. */
  lemma RightWordIsOk(bps: Breakpoints, m: seq<byte>, pristine: seq<byte>, at: nat, word: seq<byte>)
    requires |m| == |pristine| && |word| == 4 && Mapped(m, at, 4)
    requires RightWord(bps, pristine, at, word) && SavedRight(bps, pristine, at)
    ensures WordOk(bps, Splice(m, at, word), pristine, at)
  {
    forall i | at <= i < at + 4
      ensures Splice(m, at, word)[i] == if PatchedAt(bps, at) then BRK[i - at] else pristine[i]
    {
      assert Splice(m, at, word)[i] == word[i - at];
    }
  }

  /** Nothing is patched at an address without an enabled software breakpoint: the word there is pristine. */
  lemma UnpatchedWordIsPristine(bps: Breakpoints, m: seq<byte>, pristine: seq<byte>, at: nat)
    requires WordOk(bps, m, pristine, at) && !PatchedAt(bps, at) && Mapped(m, at, 4)
    ensures Slice(m, at, 4) == Slice(pristine, at, 4)
  {
  }

  /** An operation that writes one word: any word it does not spoil is kept right. */
  lemma WriteKeepsWord(bps: Breakpoints, bps': Breakpoints, m: seq<byte>, m': seq<byte>, pristine: seq<byte>, a: nat,
                       word: seq<byte>, ok: bool, residue: Residue, at: nat)
    requires |word| == 4 && Patched(m, a, word, ok, residue, m') && a % 4 == 0 && at % 4 == 0
    requires WordOk(bps, m, pristine, at) && !Spoils(a, residue, at)
    requires if ok then at != a ==> SameAt(bps, bps', at) else bps' == bps
    requires ok && at == a ==> RightWord(bps', pristine, at, word) && SavedRight(bps', pristine, at)
    ensures WordOk(bps', m', pristine, at)
  {
    if at != a {
      WriteLeavesWord(m, a, word, ok, residue, m', at);
      WordStays(bps, bps', m, m', pristine, at);
    } else if ok {
      RightWordIsOk(bps', m, pristine, at, word);
    }
  }

  // ---------- one step ----------

  /** The address that an operation writes at. */
  function Target(s: State, e: Event): Option<nat> {
    if e.SetSoftware? then Some(e.address)
    else if (e.Enable? || e.Disable? || e.Remove?) && e.id in s.tables.breakpoints
            && s.tables.breakpoints[e.id].kind.Software?
    then Some(s.tables.breakpoints[e.id].address)
    else None
  }

  /** The operation left something else than it should at the word. */
  predicate Damages(s: State, e: Event, at: nat) {
    Writes(e) && Target(s, e).Some? && Spoils(Target(s, e).value, e.residue, at)
  }

  lemma SetSoftwareKeepsWord(s: State, e: Event, s': State, at: nat)
    requires TablesOk(s.tables, s.implemented) && e.SetSoftware? && SetSoftwareStep(s, e, s')
    requires at % 4 == 0 && WordAtOk(s, at) && !Damages(s, e, at)
    ensures WordAtOk(s', at)
  {
    var bps, bps' := s.tables.breakpoints, s'.tables.breakpoints;
    if e.result.Created? {
      var id := e.result.id;
      assert id !in bps && id in bps' && Patches(bps'[id]) && bps'[id].address == e.address;
      if at == e.address {
        assert !PatchedAt(bps, at);
        UnpatchedWordIsPristine(bps, s.memory, s.pristine, at);
      }
      WriteKeepsWord(bps, bps', s.memory, s'.memory, s.pristine, e.address, BRK, true, e.residue, at);
    } else if e.result.Refused? && e.address % 4 == 0 {
      WriteKeepsWord(bps, bps', s.memory, s'.memory, s.pristine, e.address, BRK, false, e.residue, at);
    }
  }

  lemma SwitchSoftwareKeepsWord(s: State, id: int, on: bool, ok: bool, residue: Residue, s': State, at: nat)
    requires TablesOk(s.tables, s.implemented) && SwitchStep(s, id, on, ok, residue, s')
    requires id in s.tables.breakpoints && s.tables.breakpoints[id].kind.Software?
    requires s.tables.breakpoints[id].enabled != on
    requires at % 4 == 0 && WordAtOk(s, at) && !Spoils(s.tables.breakpoints[id].address, residue, at)
    ensures WordAtOk(s', at)
  {
    var b := s.tables.breakpoints[id];
    var bps, bps' := s.tables.breakpoints, s'.tables.breakpoints;
    if ok && at == b.address {
      assert bps'[id] == b.(enabled := on);
      assert PatchedAt(bps', at) <==> on;
    }
    WriteKeepsWord(bps, bps', s.memory, s'.memory, s.pristine, b.address, if on then BRK else b.original, ok, residue,
                   at);
  }

  lemma SwitchKeepsWord(s: State, id: int, on: bool, ok: bool, residue: Residue, s': State, at: nat)
    requires TablesOk(s.tables, s.implemented) && SwitchStep(s, id, on, ok, residue, s')
    requires at % 4 == 0 && WordAtOk(s, at)
    requires id in s.tables.breakpoints && s.tables.breakpoints[id].kind.Software? ==>
               !Spoils(s.tables.breakpoints[id].address, residue, at)
    ensures WordAtOk(s', at)
  {
    if id in s.tables.breakpoints && s.tables.breakpoints[id].enabled != on {
      if s.tables.breakpoints[id].kind.Software? {
        SwitchSoftwareKeepsWord(s, id, on, ok, residue, s', at);
      } else {
        WordStays(s.tables.breakpoints, s'.tables.breakpoints, s.memory, s'.memory, s.pristine, at);
      }
    }
  }

  lemma RemoveKeepsWord(s: State, e: Event, s': State, at: nat)
    requires TablesOk(s.tables, s.implemented) && e.Remove? && RemoveStep(s, e, s')
    requires at % 4 == 0 && WordAtOk(s, at) && !Damages(s, e, at)
    ensures WordAtOk(s', at)
  {
    var bps, bps' := s.tables.breakpoints, s'.tables.breakpoints;
    if e.id in bps {
      var b := bps[e.id];
      if b.kind.Software? {
        assert e.ok ==> bps' == bps - {e.id};
        assert e.ok && at == b.address ==> !PatchedAt(bps', at);
        WriteKeepsWord(bps, bps', s.memory, s'.memory, s.pristine, b.address, b.original, e.ok, e.residue, at);
      } else {
        assert bps' == bps - {e.id};
        WordStays(bps, bps', s.memory, s'.memory, s.pristine, at);
      }
    }
  }

  lemma SetHardwareKeepsWord(s: State, e: Event, s': State, at: nat)
    requires TablesOk(s.tables, s.implemented) && e.SetHardware? && SetHardwareStep(s, e, s') && WordAtOk(s, at)
    ensures WordAtOk(s', at)
  {
    var bps, bps' := s.tables.breakpoints, s'.tables.breakpoints;
    if e.result.Created? {
      assert e.result.id !in bps && bps' == bps[e.result.id := bps'[e.result.id]];
    }
    WordStays(bps, bps', s.memory, s'.memory, s.pristine, at);
  }

  /** A byte of an aligned word is under a breakpoint exactly when one is at that word. */
  lemma UnderAtWord(t: Tables, implemented: nat, at: nat, i: nat)
    requires Entries(t, implemented) && at % 4 == 0 && at <= i < at + 4
    ensures UnderBreakpoint(t, i)
            <==> exists id :: id in t.breakpoints && t.breakpoints[id].kind.Software?
                              && t.breakpoints[id].address == at
  {
    if UnderBreakpoint(t, i) {
      var id :| id in t.breakpoints && t.breakpoints[id].kind.Software?
                && t.breakpoints[id].address <= i < t.breakpoints[id].address + 4;
      if t.breakpoints[id].address != at { AlignedWordsAreDisjoint(t.breakpoints[id].address, at); }
    }
  }

  lemma RanKeepsWord(s: State, e: Event, s': State, at: nat)
    requires TablesOk(s.tables, s.implemented) && e.Ran? && RanStep(s, e, s') && at % 4 == 0 && WordAtOk(s, at)
    ensures WordAtOk(s', at)
  {
    forall i | at <= i < at + 4 && i < |s.memory|
      ensures s'.memory[i] == if PatchedAt(s.tables.breakpoints, at) then BRK[i - at] else s'.pristine[i]
    {
      UnderAtWord(s.tables, s.implemented, at, i);
    }
    if id :| id in s.tables.breakpoints && s.tables.breakpoints[id].kind.Software?
             && s.tables.breakpoints[id].address == at {
      forall i | at <= i < at + 4 ensures s'.pristine[i] == s.pristine[i] {
        UnderAtWord(s.tables, s.implemented, at, i);
      }
      assert Slice(s'.pristine, at, 4) == Slice(s.pristine, at, 4);
    }
  }

  /** Every operation with any outcome keeps every word right that it does not damage itself. */
  lemma StepKeepsWord(s: State, e: Event, s': State, at: nat)
    requires TablesOk(s.tables, s.implemented) && Step(s, e, s')
    requires at % 4 == 0 && WordAtOk(s, at) && !Damages(s, e, at)
    ensures WordAtOk(s', at)
  {
    match e
    case SetSoftware(_, _, _, _) => SetSoftwareKeepsWord(s, e, s', at);
    case SetHardware(_, _, _, _, _) => SetHardwareKeepsWord(s, e, s', at);
    case Enable(id, ok, residue) => SwitchKeepsWord(s, id, true, ok, residue, s', at);
    case Disable(id, ok, residue) => SwitchKeepsWord(s, id, false, ok, residue, s', at);
    case Remove(_, _, _, _) => RemoveKeepsWord(s, e, s', at);
    case Probe(_, _, _, _) =>
    case Ran(_) => RanKeepsWord(s, e, s', at);
  }
}
