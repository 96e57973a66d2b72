/**
 Reading and writing registers in batches, by name and as hexadecimal strings. Requests are taken as the JSON
 library delivers them: entries of an object in key order, items of an array in order.
 */
module RegisterBatch {
  import opened Tracees
  import opened RegisterControl
  import opened HexCodec

  datatype JsonValue = Str(s: string) | NotString

  datatype Entry = Entry(name: string, value: JsonValue)

  datatype WriteSection = NoWrite | NotObject | Object(entries: seq<Entry>)

  datatype WriteOutcome = Written | Failed | Threw

  // ---------- writing ----------

  datatype Write = Write(reg: nat, value: nat)

  /** What an entry asks for: a register and the value for it, truncated to the register's width. */
  function Resolve(kind: RegisterClass, e: Entry): (r: Option<Write>)
    ensures r.Some? ==> r.value.reg < REGISTERS
  {
    var reg := RegisterNumber(kind, e.name);
    if e.value.NotString? || reg >= REGISTERS then None
    else
      match Parsed(e.value.s, Width(kind, reg))
      case None => None
      case Some(v) => Some(Write(reg, v))
  }

  /** The writes are what the entries ask for. */
  ghost predicate Resolved(kind: RegisterClass, entries: seq<Entry>, writes: seq<Write>) {
    |writes| == |entries| && forall i :: 0 <= i < |entries| ==> Resolve(kind, entries[i]) == Some(writes[i])
  }

  /** A register set after the writes have been made in order. */
  function Applied(values: seq<nat>, writes: seq<Write>): (r: seq<nat>)
    ensures |r| == |values|
  {
    if writes == [] then values
    else
      var before, w := Applied(values, writes[..|writes| - 1]), writes[|writes| - 1];
      if w.reg < |before| then WithRegister(before, w.reg, w.value) else before
  }

  /** `i` is the last write to the register. */
  ghost predicate LastFor(writes: seq<Write>, i: nat, reg: nat) {
    i < |writes| && writes[i].reg == reg && forall j :: i < j < |writes| ==> writes[j].reg != reg
  }

  /** A register that is not written keeps its value. */
  lemma {:induction false} AppliedElsewhere(values: seq<nat>, writes: seq<Write>, reg: nat)
    requires reg < |values| && forall j :: 0 <= j < |writes| ==> writes[j].reg != reg
    ensures Applied(values, writes)[reg] == values[reg]
  {
    if writes != [] {
      AppliedElsewhere(values, writes[..|writes| - 1], reg);
    }
  }

  /** A register that is written has the value of the last write to it. */
  lemma {:induction false} AppliedAt(values: seq<nat>, writes: seq<Write>, reg: nat, i: nat)
    requires reg < |values| && LastFor(writes, i, reg)
    ensures Applied(values, writes)[reg] == writes[i].value
  {
    if i < |writes| - 1 {
      AppliedAt(values, writes[..|writes| - 1], reg, i);
    }
  }

  type Registers = map<(int, RegisterClass), seq<nat>>

  /** The writes were made to one register set of the thread, and nothing else changed. */
  ghost predicate BatchApplied(before: Registers, tid: int, kind: RegisterClass, writes: seq<Write>, after: Registers) {
    if writes == [] then after == before
    else (tid, kind) in before && after == before[(tid, kind) := Applied(before[(tid, kind)], writes)]
  }

  lemma BatchOneMore(before: Registers, tid: int, kind: RegisterClass, writes: seq<Write>, middle: Registers, w: Write,
                     after: Registers)
    requires BatchApplied(before, tid, kind, writes, middle)
    requires (tid, kind) in middle && w.reg < |middle[(tid, kind)]|
    requires after == middle[(tid, kind) := WithRegister(middle[(tid, kind)], w.reg, w.value)]
    ensures BatchApplied(before, tid, kind, writes + [w], after)
  {
    assert (writes + [w])[..|writes|] == writes;
  }

  /** The entries were resolved and written in order, and nothing else changed. */
  ghost predicate EntriesApplied(before: Registers, tid: int, kind: RegisterClass, entries: seq<Entry>,
                                 after: Registers)
  {
    exists writes {:trigger Resolved(kind, entries, writes)} ::
      Resolved(kind, entries, writes) && BatchApplied(before, tid, kind, writes, after)
  }

  method WriteOne(t: Tracee, tid: int, kind: RegisterClass, e: Entry) returns (r: WriteOutcome)
    requires t.Valid()
    modifies t`registers, t`faults
    ensures t.Valid()
    ensures r.Written? ==> Resolve(kind, e).Some? && (tid, kind) in old(t.registers)
                           && var w := Resolve(kind, e).value;
                              t.registers == old(t.registers)[(tid, kind) :=
                                WithRegister(old(t.registers)[(tid, kind)], w.reg, w.value)]
    ensures !r.Written? ==> t.registers == old(t.registers)
                            && (Resolve(kind, e).Some? ==> t.faults > old(t.faults))
    ensures r.Threw? <==> e.value.NotString?
    ensures t.faults >= old(t.faults)
  {
    if e.value.NotString? { return Threw; }
    var reg := RegisterOf(kind, e.name);
    if reg >= REGISTERS { return Failed; }
    var value := HexStrToNum(e.value.s, Width(kind, reg));
    if value.None? { return Failed; }
    var ok := SetRegister(t, tid, kind, reg, value.value);
    r := if ok then Written else Failed;
  }

  /** Applies the entries in order and stops at the first that fails: all before it have been applied. */
  method WriteEntries(t: Tracee, tid: int, kind: RegisterClass, entries: seq<Entry>)
    returns (r: WriteOutcome, ghost n: nat)
    requires t.Valid()
    modifies t`registers, t`faults
    ensures t.Valid()
    ensures n <= |entries| && EntriesApplied(old(t.registers), tid, kind, entries[..n], t.registers)
    ensures r.Written? <==> n == |entries|
    ensures !r.Written? ==> Resolve(kind, entries[n]).None? || t.faults > old(t.faults)
    ensures r.Threw? <==> n < |entries| && entries[n].value.NotString?
    ensures t.faults >= old(t.faults)
  {
    ghost var before := t.registers;
    ghost var writes := [];
    n := 0;
    var i := 0;
    while i < |entries|
      invariant n == i <= |entries| && t.Valid() && t.faults >= old(t.faults)
      invariant Resolved(kind, entries[..i], writes) && BatchApplied(before, tid, kind, writes, t.registers)
    {
      ghost var middle := t.registers;
      r := WriteOne(t, tid, kind, entries[i]);
      if !r.Written? { return; }
      ghost var w := Resolve(kind, entries[i]).value;
      BatchOneMore(before, tid, kind, writes, middle, w, t.registers);
      ResolvedOneMore(kind, entries, i, writes, w);
      writes := writes + [w];
      i, n := i + 1, n + 1;
    }
    assert entries[..i] == entries;
    r := Written;
  }

  lemma ResolvedOneMore(kind: RegisterClass, entries: seq<Entry>, i: nat, writes: seq<Write>, w: Write)
    requires i < |entries| && Resolved(kind, entries[..i], writes) && Resolve(kind, entries[i]) == Some(w)
    ensures Resolved(kind, entries[..i + 1], writes + [w])
  {
    forall j | 0 <= j < i + 1 ensures Resolve(kind, entries[..i + 1][j]) == Some((writes + [w])[j]) {
      if j < i { assert entries[..i][j] == entries[j]; }
    }
  }

  function EntriesOf(section: WriteSection): seq<Entry> {
    if section.Object? then section.entries else []
  }

  /** The first `n` entries of a section were applied, and nothing else. */
  ghost predicate SectionApplied(before: Registers, tid: int, kind: RegisterClass, section: WriteSection, n: nat,
                                 after: Registers)
  {
    if section.Object? then n <= |section.entries| && EntriesApplied(before, tid, kind, section.entries[..n], after)
    else after == before
  }

  /** The first `n` general and then the first `k` other entries were applied, and nothing else. */
  ghost predicate RequestApplied(before: Registers, tid: int, gpr: WriteSection, n: nat, fpr: WriteSection, k: nat,
                                 after: Registers)
  {
    exists middle: Registers {:trigger SectionApplied(before, tid, Gpr, gpr, n, middle)} ::
      && SectionApplied(before, tid, Gpr, gpr, n, middle)
      && SectionApplied(middle, tid, Fpr, fpr, k, after)
  }

  /** The section is of the wrong format, or its next entry names no register or has no value. */
  ghost predicate Blocked(kind: RegisterClass, section: WriteSection, n: nat) {
    section.NotObject? || (section.Object? && n < |section.entries| && Resolve(kind, section.entries[n]).None?)
  }

  /** The next entry of the section has a value that is no string. */
  predicate ThrowsAt(section: WriteSection, n: nat) {
    section.Object? && n < |section.entries| && section.entries[n].value.NotString?
  }

  method WriteOneSection(t: Tracee, tid: int, kind: RegisterClass, section: WriteSection)
    returns (r: WriteOutcome, ghost n: nat)
    requires t.Valid()
    modifies t`registers, t`faults
    ensures t.Valid() && t.faults >= old(t.faults)
    ensures SectionApplied(old(t.registers), tid, kind, section, n, t.registers) && n <= |EntriesOf(section)|
    ensures r.Written? <==> !section.NotObject? && n == |EntriesOf(section)|
    ensures !r.Written? ==> Blocked(kind, section, n) || t.faults > old(t.faults)
    ensures r.Threw? <==> ThrowsAt(section, n)
  {
    n := 0;
    match section {
      case NoWrite => r := Written;
      case NotObject => r := Failed;
      case Object(entries) => r, n := WriteEntries(t, tid, kind, entries);
    }
  }

  /** The general registers first; the others only if all of those were written. */
  method WriteRegisters(t: Tracee, tid: int, gpr: WriteSection, fpr: WriteSection)
    returns (r: WriteOutcome, ghost n: nat, ghost k: nat)
    requires t.Valid()
    modifies t`registers, t`faults
    ensures t.Valid()
    ensures RequestApplied(old(t.registers), tid, gpr, n, fpr, k, t.registers)
    ensures n <= |EntriesOf(gpr)| && k <= |EntriesOf(fpr)|
    ensures r.Written? <==> !gpr.NotObject? && n == |EntriesOf(gpr)| && !fpr.NotObject? && k == |EntriesOf(fpr)|
    ensures k > 0 ==> !gpr.NotObject? && n == |EntriesOf(gpr)|
    ensures !r.Written? ==> Blocked(Gpr, gpr, n) || Blocked(Fpr, fpr, k) || t.faults > old(t.faults)
    // it throws at a value that is no string, in either section, once everything before it has been written
    ensures r.Threw? <==>
              ThrowsAt(gpr, n) || (!gpr.NotObject? && n == |EntriesOf(gpr)| && ThrowsAt(fpr, k))
  {
    k := 0;
    r, n := WriteOneSection(t, tid, Gpr, gpr);
    ghost var middle := t.registers;
    assert SectionApplied(old(t.registers), tid, Gpr, gpr, n, middle);
    if r.Written? {
      r, k := WriteOneSection(t, tid, Fpr, fpr);
    } else if fpr.Object? {
      assert Resolved(Fpr, fpr.entries[..0], []) && BatchApplied(middle, tid, Fpr, [], t.registers);
    }
    assert SectionApplied(middle, tid, Fpr, fpr, k, t.registers);
  }

  // ---------- reading ----------

  datatype ReadSection = NoRead | All | OtherString | Items(items: seq<JsonValue>) | OtherFormat

  type Listing = map<string, string>

  function Rendered(values: seq<nat>, reg: nat): string
    requires reg < |values|
  {
    "0x" + Digits(values[reg])
  }

  /** The listing has exactly the first `n` register names, each with the text of its own register. */
  ghost predicate FirstRead(names: seq<string>, values: seq<nat>, n: nat, listing: Listing)
    requires n <= |names| == |values|
  {
    && (forall name :: name in listing <==> name in names[..n])
    && (forall i :: 0 <= i < n ==> listing[names[i]] == Rendered(values, i))
  }

  ghost predicate AllRead(kind: RegisterClass, values: seq<nat>, listing: Listing)
    requires |values| == REGISTERS
  {
    FirstRead(Names(kind), values, REGISTERS, listing)
  }

  lemma FirstReadOneMore(names: seq<string>, values: seq<nat>, i: nat, listing: Listing)
    requires i < |names| == |values| && FirstRead(names, values, i, listing)
    requires forall j, k :: 0 <= j < k < |names| ==> names[j] != names[k]
    ensures FirstRead(names, values, i + 1, listing[names[i] := Rendered(values, i)])
  {
    assert names[..i + 1] == names[..i] + [names[i]];
  }

  method ReadAll(t: Tracee, tid: int, kind: RegisterClass) returns (r: Option<Listing>)
    requires t.Valid()
    modifies t`faults
    ensures r.Some? ==> (tid, kind) in t.registers && AllRead(kind, t.registers[(tid, kind)], r.value)
    ensures r.None? ==> t.faults > old(t.faults)
    ensures t.faults >= old(t.faults)
  {
    var all := t.GetRegisters(tid, kind);
    if all.None? { return None; }
    var names := Names(kind);
    NamesAreDistinct(kind);
    var result: Listing := map[];
    for i := 0 to REGISTERS
      invariant t.faults >= old(t.faults) && FirstRead(names, all.value, i, result)
    {
      var text := NumToHexStr(all.value[i], true);
      FirstReadOneMore(names, all.value, i, result);
      result := result[names[i] := text];
    }
    return Some(result);
  }

  method ReadOne(t: Tracee, tid: int, kind: RegisterClass, name: string) returns (text: Option<string>)
    requires t.Valid()
    modifies t`faults
    ensures text.Some? ==> (tid, kind) in t.registers && text == TextOf(kind, t.registers[(tid, kind)], name)
    ensures text.None? ==> RegisterNumber(kind, name) >= REGISTERS || t.faults > old(t.faults)
    ensures t.faults >= old(t.faults)
  {
    var reg := RegisterOf(kind, name);
    if reg >= REGISTERS { return None; }
    var value := GetRegister(t, tid, kind, reg);
    if value.None? { return None; }
    var hex := NumToHexStr(value.value, true);
    return Some(hex);
  }

  /** The item names no register. */
  predicate Unreadable(kind: RegisterClass, item: JsonValue) {
    item.NotString? || RegisterNumber(kind, item.s) >= REGISTERS
  }

  /** The text of the register that a name stands for. */
  function TextOf(kind: RegisterClass, values: seq<nat>, name: string): Option<string>
    requires |values| == REGISTERS
  {
    var reg := RegisterNumber(kind, name);
    if reg < REGISTERS then Some(Rendered(values, reg)) else None
  }

  /** The listing has exactly the names asked for, each with the text of the register it stands for. */
  ghost predicate NamesRead(kind: RegisterClass, values: seq<nat>, items: seq<JsonValue>, listing: Listing)
    requires |values| == REGISTERS
  {
    && NotString !in items
    && (forall name :: name in listing <==> Str(name) in items)
    && (forall name :: name in listing ==> TextOf(kind, values, name) == Some(listing[name]))
  }

  ghost predicate ItemsRead(registers: Registers, tid: int, kind: RegisterClass, items: seq<JsonValue>,
                            listing: Listing)
  {
    if items == [] then listing == map[]
    else
      && (tid, kind) in registers && |registers[(tid, kind)]| == REGISTERS
      && NamesRead(kind, registers[(tid, kind)], items, listing)
  }

  lemma KeysOneMore(items: seq<JsonValue>, i: nat, listing: Listing, text: string)
    requires i < |items| && items[i].Str? && NotString !in items[..i]
    requires forall name :: name in listing <==> Str(name) in items[..i]
    ensures NotString !in items[..i + 1]
    ensures forall name :: name in listing[items[i].s := text] <==> Str(name) in items[..i + 1]
  {
    assert items[..i + 1] == items[..i] + [items[i]];
  }

  lemma NamesReadOneMore(kind: RegisterClass, values: seq<nat>, items: seq<JsonValue>, i: nat, listing: Listing,
                         text: string)
    requires |values| == REGISTERS && i < |items| && NamesRead(kind, values, items[..i], listing)
    requires items[i].Str? && TextOf(kind, values, items[i].s) == Some(text)
    ensures NamesRead(kind, values, items[..i + 1], listing[items[i].s := text])
  {
    KeysOneMore(items, i, listing, text);
  }

  method ReadItems(t: Tracee, tid: int, kind: RegisterClass, items: seq<JsonValue>) returns (r: Option<Listing>)
    requires t.Valid()
    modifies t`faults
    ensures r.Some? ==> ItemsRead(t.registers, tid, kind, items, r.value)
    ensures r.None? ==> (exists i :: 0 <= i < |items| && Unreadable(kind, items[i])) || t.faults > old(t.faults)
    ensures t.faults >= old(t.faults)
  {
    var result: Listing := map[];
    for i := 0 to |items|
      invariant t.faults >= old(t.faults)
      invariant ItemsRead(t.registers, tid, kind, items[..i], result)
    {
      if items[i].NotString? { return None; }
      var name := items[i].s;
      var text := ReadOne(t, tid, kind, name);
      if text.None? { return None; }
      NamesReadOneMore(kind, t.registers[(tid, kind)], items, i, result, text.value);
      result := result[name := text.value];
    }
    assert items[..|items|] == items;
    return Some(result);
  }

  /** The request can never be answered: neither `all` nor a list, or a list with an item that names no register. */
  ghost predicate Unanswerable(kind: RegisterClass, section: ReadSection) {
    || section.OtherString? || section.OtherFormat?
    || (section.Items? && exists i :: 0 <= i < |section.items| && Unreadable(kind, section.items[i]))
  }

  /** The answer is what the registers hold under the names the section asks for; none for an absent section. */
  ghost predicate SectionRead(registers: Registers, tid: int, kind: RegisterClass, section: ReadSection,
                              answer: Option<Listing>)
  {
    match section
    case NoRead => answer.None?
    case All =>
      && answer.Some? && (tid, kind) in registers && |registers[(tid, kind)]| == REGISTERS
      && AllRead(kind, registers[(tid, kind)], answer.value)
    case Items(items) => answer.Some? && ItemsRead(registers, tid, kind, items, answer.value)
    case _ => false
  }

  lemma AnsweredIsReadable(registers: Registers, tid: int, kind: RegisterClass, items: seq<JsonValue>, listing: Listing)
    requires ItemsRead(registers, tid, kind, items, listing)
    ensures !Unanswerable(kind, Items(items))
  {
    forall i | 0 <= i < |items| ensures !Unreadable(kind, items[i]) {
      assert items[i] in items && items[i].Str?;
      assert Str(items[i].s) in items && items[i].s in listing;
      assert TextOf(kind, registers[(tid, kind)], items[i].s).Some?;
    }
  }

  method ReadOneSection(t: Tracee, tid: int, kind: RegisterClass, section: ReadSection)
    returns (ok: bool, answer: Option<Listing>)
    requires t.Valid()
    modifies t`faults
    ensures ok ==> SectionRead(t.registers, tid, kind, section, answer) && !Unanswerable(kind, section)
    ensures !ok ==> answer.None? && (Unanswerable(kind, section) || t.faults > old(t.faults))
    ensures t.faults >= old(t.faults)
  {
    match section {
      case NoRead => return true, None;
      case All =>
        answer := ReadAll(t, tid, kind);
        ok := answer.Some?;
      case Items(items) =>
        answer := ReadItems(t, tid, kind, items);
        ok := answer.Some?;
        if ok { AnsweredIsReadable(t.registers, tid, kind, items, answer.value); }
      case OtherString => return false, None;
      case OtherFormat => return false, None;
    }
  }

  datatype Response = Response(gpr: Option<Listing>, fpr: Option<Listing>)

  /** The general section first; its answer stays in the response when the other section fails. */
  method ReadRegisters(t: Tracee, tid: int, gpr: ReadSection, fpr: ReadSection) returns (ok: bool, response: Response)
    requires t.Valid()
    modifies t`faults
    ensures ok ==> && SectionRead(t.registers, tid, Gpr, gpr, response.gpr)
                   && SectionRead(t.registers, tid, Fpr, fpr, response.fpr)
    ensures !ok ==> response.fpr.None?
                    && (response.gpr.None? || SectionRead(t.registers, tid, Gpr, gpr, response.gpr))
    ensures Unanswerable(Gpr, gpr) || Unanswerable(Fpr, fpr) ==> !ok
    ensures !ok && t.faults == old(t.faults) ==>
              if Unanswerable(Gpr, gpr) then response == Response(None, None)
              else Unanswerable(Fpr, fpr) && SectionRead(t.registers, tid, Gpr, gpr, response.gpr)
  {
    response := Response(None, None);
    var answer;
    ok, answer := ReadOneSection(t, tid, Gpr, gpr);
    if !ok { return; }
    response := response.(gpr := answer);
    ok, answer := ReadOneSection(t, tid, Fpr, fpr);
    if ok {
      response := response.(fpr := answer);
    }
  }

  // ---------- reading back what was written ----------

  function AsItems(names: seq<string>): (items: seq<JsonValue>)
    ensures |items| == |names| && forall i :: 0 <= i < |names| ==> items[i] == Str(names[i])
  {
    seq(|names|, i requires 0 <= i < |names| => Str(names[i]))
  }

  lemma ItemOfName(names: seq<string>, name: string)
    ensures name in names <==> Str(name) in AsItems(names)
  {
    if name in names {
      var i :| 0 <= i < |names| && names[i] == name;
      assert AsItems(names)[i] == Str(name);
    }
  }

  /** For any table in which every name stands for its place: listing the table is listing its names. */
  lemma ListedByName(kind: RegisterClass, names: seq<string>, values: seq<nat>, listing: Listing)
    requires |names| == |values| == REGISTERS
    requires forall i :: 0 <= i < REGISTERS ==> RegisterNumber(kind, names[i]) == i
    ensures FirstRead(names, values, REGISTERS, listing) <==> NamesRead(kind, values, AsItems(names), listing)
  {
    assert names[..REGISTERS] == names;
    forall name ensures name in names <==> Str(name) in AsItems(names) {
      ItemOfName(names, name);
    }
    if NamesRead(kind, values, AsItems(names), listing) {
      forall i | 0 <= i < REGISTERS ensures listing[names[i]] == Rendered(values, i) {
        assert names[i] in names;
      }
    }
  }

  /** Reading "all" answers what reading the list of every name does. */
  lemma {:induction false} AllIsEveryName(kind: RegisterClass, values: seq<nat>, listing: Listing)
    requires |values| == REGISTERS
    ensures AllRead(kind, values, listing) <==> NamesRead(kind, values, AsItems(Names(kind)), listing)
  {
    forall i | 0 <= i < REGISTERS ensures RegisterNumber(kind, Names(kind)[i]) == i {
      NameStandsForIt(kind, i);
    }
    ListedByName(kind, Names(kind), values, listing);
  }

  /** Entry `i` is the last that names the register. */
  ghost predicate LastNaming(kind: RegisterClass, entries: seq<Entry>, i: nat, reg: nat) {
    && i < |entries| && RegisterNumber(kind, entries[i].name) == reg
    && forall j :: i < j < |entries| ==> RegisterNumber(kind, entries[j].name) != reg
  }

  ghost predicate Named(kind: RegisterClass, entries: seq<Entry>, reg: nat) {
    exists i :: 0 <= i < |entries| && RegisterNumber(kind, entries[i].name) == reg
  }

  /** 0x and the canonical digits of the number. */
  ghost predicate Shows(text: string, n: nat) {
    |text| > 2 && text[..2] == "0x" && Canonical(text[2..], n)
  }

  /** What a register holds after a batch: the number that the last entry for it spells, cut to 64 bits for a general
      register, 128 for v0 to v31 and 32 for fpsr and fpcr; or what it held if no entry names it. */
  ghost predicate HoldsAfter(kind: RegisterClass, before: nat, entries: seq<Entry>, reg: nat, after: nat) {
    if Named(kind, entries, reg) then
      exists i: nat, n: nat {:trigger LastNaming(kind, entries, i, reg), Spells(entries[i].value.s, n)} ::
        && LastNaming(kind, entries, i, reg) && entries[i].value.Str? && Spells(entries[i].value.s, n)
        && after == n % Pow(2, match kind case Gpr => 64 case Fpr => if reg < 32 then 128 else 32)
    else after == before
  }

  lemma {:induction false} SomeEntryIsLast(kind: RegisterClass, entries: seq<Entry>, reg: nat, i: nat)
    returns (last: nat)
    requires i < |entries| && RegisterNumber(kind, entries[i].name) == reg
    ensures LastNaming(kind, entries, last, reg)
    decreases |entries| - i
  {
    if j :| i < j < |entries| && RegisterNumber(kind, entries[j].name) == reg {
      last := SomeEntryIsLast(kind, entries, reg, j);
    } else {
      last := i;
    }
  }

  /** An entry has a write exactly if it names a register and its value is a string of digits. */
  lemma ResolvesIff(kind: RegisterClass, e: Entry)
    ensures Resolve(kind, e).Some?
            <==> RegisterNumber(kind, e.name) < REGISTERS && e.value.Str? && exists n: nat :: Spells(e.value.s, n)
  {
    if e.value.Str? {
      ParsedIsSpelled(e.value.s, Width(kind, RegisterNumber(kind, e.name)));
    }
  }

  lemma WidthsAre(kind: RegisterClass, reg: nat)
    ensures Width(kind, reg) == match kind case Gpr => 64 case Fpr => if reg < 32 then 128 else 32
  {
  }

  lemma LastWriteHolds(kind: RegisterClass, before: nat, entries: seq<Entry>, reg: nat, i: nat, w: Write)
    requires LastNaming(kind, entries, i, reg) && Resolve(kind, entries[i]) == Some(w)
    ensures HoldsAfter(kind, before, entries, reg, w.value)
  {
    WidthsAre(kind, reg);
    ParsedIsSpelled(entries[i].value.s, Width(kind, reg));
    var n: nat :| Spells(entries[i].value.s, n) && w.value == n % Pow(2, Width(kind, reg));
    assert Named(kind, entries, reg);
    assert LastNaming(kind, entries, i, reg) && Spells(entries[i].value.s, n);
  }

  lemma AppliedHolds(kind: RegisterClass, before: seq<nat>, entries: seq<Entry>, writes: seq<Write>, reg: nat)
    requires reg < |before| && Resolved(kind, entries, writes)
    ensures HoldsAfter(kind, before[reg], entries, reg, Applied(before, writes)[reg])
  {
    forall j | 0 <= j < |writes| ensures writes[j].reg == RegisterNumber(kind, entries[j].name) {
      assert Resolve(kind, entries[j]) == Some(writes[j]);
    }
    if k :| 0 <= k < |entries| && RegisterNumber(kind, entries[k].name) == reg {
      var i := SomeEntryIsLast(kind, entries, reg, k);
      AppliedAt(before, writes, reg, i);
      LastWriteHolds(kind, before[reg], entries, reg, i, writes[i]);
    } else {
      AppliedElsewhere(before, writes, reg);
    }
  }

  lemma RenderedShows(n: nat)
    ensures Shows("0x" + Digits(n), n)
  {
    DigitsAreCanonical(n);
    assert ("0x" + Digits(n))[2..] == Digits(n);
  }

  /** After a batch was written, reading any list of names answers for each the canonical form of what its register
      then holds. */
  lemma {:induction false} WriteThenRead(kind: RegisterClass, before: seq<nat>, entries: seq<Entry>,
                                         writes: seq<Write>, items: seq<JsonValue>, listing: Listing, name: string)
    returns (n: nat)
    requires |before| == REGISTERS && Resolved(kind, entries, writes)
    requires NamesRead(kind, Applied(before, writes), items, listing) && Str(name) in items
    ensures name in listing && Shows(listing[name], n)
    ensures var reg := RegisterNumber(kind, name);
            reg < REGISTERS && n == Applied(before, writes)[reg] && HoldsAfter(kind, before[reg], entries, reg, n)
  {
    assert TextOf(kind, Applied(before, writes), name) == Some(listing[name]);
    var reg := RegisterNumber(kind, name);
    n := Applied(before, writes)[reg];
    AppliedHolds(kind, before, entries, writes, reg);
    RenderedShows(n);
  }

  lemma SectionLeaves(before: Registers, tid: int, kind: RegisterClass, section: WriteSection, n: nat, after: Registers,
                      key: (int, RegisterClass))
    requires SectionApplied(before, tid, kind, section, n, after) && key != (tid, kind)
    ensures key in after <==> key in before
    ensures key in after ==> after[key] == before[key]
  {
  }

  lemma SectionGives(before: Registers, tid: int, kind: RegisterClass, section: WriteSection, n: nat, after: Registers)
    returns (writes: seq<Write>)
    requires SectionApplied(before, tid, kind, section, n, after) && n <= |EntriesOf(section)| && (tid, kind) in after
    ensures Resolved(kind, EntriesOf(section)[..n], writes)
    ensures (tid, kind) in before && after[(tid, kind)] == Applied(before[(tid, kind)], writes)
  {
    if section.Object? {
      writes :| Resolved(kind, section.entries[..n], writes) && BatchApplied(before, tid, kind, writes, after);
    } else {
      writes := [];
    }
  }

  /** The entries of a request for one register class that were written: the first `n`, or `k`. */
  function WrittenEntries(kind: RegisterClass, gpr: WriteSection, n: nat, fpr: WriteSection, k: nat): seq<Entry>
    requires n <= |EntriesOf(gpr)| && k <= |EntriesOf(fpr)|
  {
    match kind case Gpr => EntriesOf(gpr)[..n] case Fpr => EntriesOf(fpr)[..k]
  }

  /** What a request did to one register set: its own section's writes, whichever class it is. */
  lemma RequestGives(before: Registers, tid: int, gpr: WriteSection, n: nat, fpr: WriteSection, k: nat,
                     after: Registers, kind: RegisterClass)
    returns (writes: seq<Write>)
    requires n <= |EntriesOf(gpr)| && k <= |EntriesOf(fpr)|
    requires RequestApplied(before, tid, gpr, n, fpr, k, after) && (tid, kind) in after
    ensures Resolved(kind, WrittenEntries(kind, gpr, n, fpr, k), writes)
    ensures (tid, kind) in before && after[(tid, kind)] == Applied(before[(tid, kind)], writes)
  {
    var middle: Registers :| && SectionApplied(before, tid, Gpr, gpr, n, middle)
                             && SectionApplied(middle, tid, Fpr, fpr, k, after);
    match kind {
      case Gpr =>
        SectionLeaves(middle, tid, Fpr, fpr, k, after, (tid, Gpr));
        writes := SectionGives(before, tid, Gpr, gpr, n, middle);
      case Fpr =>
        SectionLeaves(before, tid, Gpr, gpr, n, middle, (tid, Fpr));
        writes := SectionGives(middle, tid, Fpr, fpr, k, after);
    }
  }

  lemma AnsweredByName(registers: Registers, tid: int, kind: RegisterClass, section: ReadSection, listing: Listing,
                       name: string)
    returns (items: seq<JsonValue>)
    requires SectionRead(registers, tid, kind, section, Some(listing)) && name in listing
    ensures (tid, kind) in registers && |registers[(tid, kind)]| == REGISTERS
    ensures NamesRead(kind, registers[(tid, kind)], items, listing)
  {
    if section.All? {
      items := AsItems(Names(kind));
      AllIsEveryName(kind, registers[(tid, kind)], listing);
    } else {
      items := section.items;
    }
  }

  /** After a request, complete or not, every register of the thread, general or floating-point, holds what the entries
      that were written asked for. */
  lemma RequestHolds(before: Registers, tid: int, gpr: WriteSection, n: nat, fpr: WriteSection, k: nat,
                     after: Registers, kind: RegisterClass, reg: nat)
    requires n <= |EntriesOf(gpr)| && k <= |EntriesOf(fpr)|
    requires RequestApplied(before, tid, gpr, n, fpr, k, after)
    requires (tid, kind) in after && reg < |after[(tid, kind)]|
    ensures (tid, kind) in before && |before[(tid, kind)]| == |after[(tid, kind)]|
    ensures HoldsAfter(kind, before[(tid, kind)][reg], WrittenEntries(kind, gpr, n, fpr, k), reg,
                       after[(tid, kind)][reg])
  {
    var writes := RequestGives(before, tid, gpr, n, fpr, k, after, kind);
    AppliedHolds(kind, before[(tid, kind)], WrittenEntries(kind, gpr, n, fpr, k), writes, reg);
  }

  /** And every name in any later answer about the thread, listed or "all", has the canonical form of that. */
  lemma {:induction false} RequestReadsBack(before: Registers, tid: int, gpr: WriteSection, n: nat, fpr: WriteSection,
                                            k: nat, after: Registers, kind: RegisterClass, section: ReadSection,
                                            listing: Listing, name: string)
    returns (held: nat)
    requires n <= |EntriesOf(gpr)| && k <= |EntriesOf(fpr)|
    requires RequestApplied(before, tid, gpr, n, fpr, k, after)
    requires SectionRead(after, tid, kind, section, Some(listing)) && name in listing
    ensures Shows(listing[name], held)
    ensures (tid, kind) in before && RegisterNumber(kind, name) < |before[(tid, kind)]|
    ensures var reg := RegisterNumber(kind, name);
            HoldsAfter(kind, before[(tid, kind)][reg], WrittenEntries(kind, gpr, n, fpr, k), reg, held)
  {
    var items := AnsweredByName(after, tid, kind, section, listing, name);
    var writes := RequestGives(before, tid, gpr, n, fpr, k, after, kind);
    held := WriteThenRead(kind, before[(tid, kind)], WrittenEntries(kind, gpr, n, fpr, k), writes, items, listing,
                          name);
  }

  /** A number that fits comes back unchanged: below 2^64 for general registers, below 2^128 for v0 to v31 and below
      2^32 for fpsr and fpcr. */
  lemma FittingNumberIsHeld(kind: RegisterClass, before: nat, entries: seq<Entry>, reg: nat, after: nat, i: nat, n: nat)
    requires HoldsAfter(kind, before, entries, reg, after) && LastNaming(kind, entries, i, reg)
    requires entries[i].value.Str? && Spells(entries[i].value.s, n)
    requires n < Pow(2, match kind case Gpr => 64 case Fpr => if reg < 32 then 128 else 32)
    ensures after == n
  {
    var bits := match kind case Gpr => 64 case Fpr => if reg < 32 then 128 else 32;
    var j: nat, k: nat :| LastNaming(kind, entries, j, reg) && entries[j].value.Str?
                          && Spells(entries[j].value.s, k) && after == k % Pow(2, bits);
    assert i == j;
    SpelledParses(entries[i].value.s, n, bits);
    SpelledParses(entries[i].value.s, k, bits);
    RemainderIsUnique(n, 0, n, Pow(2, bits));
  }
}
