/**
 The unwind instructions of the ARM exception handling ABI, section 10: the bytes
 of a table entry, and what they do to the registers and the virtual stack pointer.
 */
module ArmExidx {
  import opened Bits
  import opened OrderedKeys
  import opened WordSizes

  const FINISH: Byte := 0xb0
  const SP: nat := 13
  const PC: nat := 15

  datatype Status =
    | NoStatus | Finish | NoUnwind | Reserved | Spare | Truncated | ReadFailed | Malformed
    | InvalidAlignment | InvalidPersonality

  /** Reads a word, if it can be read. */
  type Memory = nat -> Option<nat>

  // ----- the bytes of an entry

  function ByteOf(word: nat, k: nat): Byte {
    word / Pow2(8 * k) % 256
  }

  function WordBytes(word: nat): seq<Byte> {
    [ByteOf(word, 3), ByteOf(word, 2), ByteOf(word, 1), ByteOf(word, 0)]
  }

  function Finished(bytes: seq<Byte>): seq<Byte>
    requires bytes != []
  {
    if bytes[|bytes| - 1] == FINISH then bytes else bytes + [FINISH]
  }

  /** The address that a place-relative offset of 31 bits leads to. */
  function Prel31(place: nat, word: nat): nat {
    var v := word % 0x8000_0000;
    (place + if v < 0x4000_0000 then v else v - 0x8000_0000) % TWO_32
  }

  datatype Extracted = Bytes(data: seq<Byte>) | Failed(status: Status)

  /** The bytes of `n` words. */
  function TableWords(mem: Memory, addr: nat, n: nat): Option<seq<Byte>>
    decreases n
  {
    if n == 0 then Some([])
    else
      var word, rest := mem(addr), TableWords(mem, (addr + 4) % TWO_32, n - 1);
      if word.None? || rest.None? then None else Some(WordBytes(word.value) + rest.value)
  }

  function WithWords(mem: Memory, first: seq<Byte>, addr: nat, n: nat): Extracted
    requires first != []
  {
    if n > 5 then Failed(Malformed)
    else
      var words := TableWords(mem, addr, n);
      if words.None? then Failed(ReadFailed) else Bytes(Finished(first + words.value))
  }

  /** What the table says of a function: inline, compact or generic. */
  function EntryData(mem: Memory, entry: nat): Extracted {
    if entry % 2 == 1 then Failed(InvalidAlignment)
    else
      var place := (entry + 4) % TWO_32;
      match mem(place)
      case None => Failed(ReadFailed)
      case Some(data) =>
        if data == 1 then Failed(NoUnwind)
        else if data >= 0x8000_0000 then
          if ByteOf(data, 3) % 16 != 0 then Failed(InvalidPersonality)
          else Bytes(Finished([ByteOf(data, 2), ByteOf(data, 1), ByteOf(data, 0)]))
        else TableData(mem, Prel31(place, data))
  }

  /** An entry of the exception handling table. */
  function TableData(mem: Memory, addr: nat): Extracted {
    match mem(addr)
    case None => Failed(ReadFailed)
    case Some(first) =>
      if first >= 0x8000_0000 then
        var personality := ByteOf(first, 3) % 16;
        if personality == 0 then WithWords(mem, [ByteOf(first, 2), ByteOf(first, 1), ByteOf(first, 0)], addr, 0)
        else if personality <= 2 then
          WithWords(mem, [ByteOf(first, 1), ByteOf(first, 0)], (addr + 4) % TWO_32, ByteOf(first, 2))
        else Failed(InvalidPersonality)
      else
        match mem((addr + 4) % TWO_32)
        case None => Failed(ReadFailed)
        case Some(second) =>
          WithWords(mem, [ByteOf(second, 2), ByteOf(second, 1), ByteOf(second, 0)], ((addr + 4) % TWO_32 + 4) % TWO_32,
                    ByteOf(second, 3))
  }

  lemma {:induction false} TableWordsSize(mem: Memory, addr: nat, n: nat)
    ensures TableWords(mem, addr, n).Some? ==> |TableWords(mem, addr, n).value| == 4 * n
    decreases n
  {
    if n > 0 { TableWordsSize(mem, (addr + 4) % TWO_32, n - 1); }
  }

  lemma WithWordsSize(mem: Memory, first: seq<Byte>, addr: nat, n: nat)
    requires 2 <= |first| <= 3
    ensures var e := WithWords(mem, first, addr, n);
            e.Bytes? ==> 2 <= |e.data| <= 24 && e.data[|e.data| - 1] == FINISH
  {
    TableWordsSize(mem, addr, n);
  }

  /** An entry that is extracted has 2 to 24 bytes, of which the last is finish. */
  lemma EntryDataSize(mem: Memory, entry: nat)
    ensures var e := EntryData(mem, entry); e.Bytes? ==> 2 <= |e.data| <= 24 && e.data[|e.data| - 1] == FINISH
  {
    hide WithWords, ByteOf, Prel31;
    forall first: seq<Byte>, addr: nat, n: nat | 2 <= |first| <= 3
      ensures var e := WithWords(mem, first, addr, n);
              e.Bytes? ==> 2 <= |e.data| <= 24 && e.data[|e.data| - 1] == FINISH
    {
      WithWordsSize(mem, first, addr, n);
    }
  }

  // ----- instructions

  /** What an instruction does; a pop names its registers in the order they are read. */
  datatype Insn = AddVsp(n: nat) | SubVsp(n: nat) | SetVsp(reg: nat) | Pop(regs: seq<nat>) | Stop(status: Status)

  predicate Bit(mask: nat, reg: nat) {
    mask / Pow2(reg) % 2 == 1
  }

  /** The registers from `reg` on whose bits are set, in ascending order. */
  function Ascending(mask: nat, reg: nat, end: nat): seq<nat>
    decreases end - reg
  {
    if reg >= end then [] else (if Bit(mask, reg) then [reg] else []) + Ascending(mask, reg + 1, end)
  }

  function Range(first: nat, last: nat): seq<nat>
    decreases last - first
  {
    if first > last then [] else [first] + Range(first + 1, last)
  }

  /** What a shift beyond the word gives, which C++ leaves open. */
  type Shifter = (nat, nat) -> nat

  function Shl32(shl: Shifter, x: nat, shift: nat): nat {
    (if shift < 32 then x * Pow2(shift) else shl(x, shift)) % TWO_32
  }

  /** The number that starts the bytes, and the bytes after it. */
  function Uleb(shl: Shifter, data: seq<Byte>, shift: nat, acc: int): Option<(int, seq<Byte>)> {
    if data == [] then None
    else
      var value := Bitwise(Or, acc, Shl32(shl, data[0] % 128, shift));
      if data[0] >= 128 then Uleb(shl, data[1..], shift + 7, value) else Some((value, data[1..]))
  }

  function Count4(byte: nat): nat {
    byte % 2 + byte / 2 % 2 + byte / 4 % 2 + byte / 8 % 2
  }

  /** The instruction that starts the bytes, as table 4 of the ABI lists them, and the bytes after it. */
  function Parse(shl: Shifter, data: seq<Byte>): (Insn, seq<Byte>) {
    if data == [] then (Stop(Truncated), [])
    else
      var b: int, rest := data[0], data[1..];
      if b < 0x40 then (AddVsp(b * 4 + 4), rest)
      else if b < 0x80 then (SubVsp((b - 0x40) * 4 + 4), rest)
      else if b < 0x90 then
        if rest == [] then (Stop(Truncated), [])
        else if b == 0x80 && rest[0] == 0 then (Stop(NoUnwind), rest[1..])
        else (Pop(Ascending(((b - 0x80) * 256 + rest[0] as int) * 16, 4, 16)), rest[1..])
      else if b < 0xa0 then (if b == 0x9d || b == 0x9f then Stop(Reserved) else SetVsp(b - 0x90), rest)
      else if b < 0xa8 then (Pop(Range(4, 4 + b - 0xa0)), rest)
      else if b < 0xb0 then (Pop(Range(4, 4 + b - 0xa8) + [14]), rest)
      else if b == 0xb0 then (Stop(Finish), rest)
      else if b == 0xb2 then
        var uleb := Uleb(shl, rest, 0, 0);
        if uleb.None? then (Stop(Truncated), []) else (AddVsp((0x204 + uleb.value.0 * 4) % TWO_32), uleb.value.1)
      else if b < 0xb8 && b != 0xb1 && b != 0xb3 then (Stop(Spare), rest)
      else if 0xb8 <= b < 0xc0 then (AddVsp((b - 0xb8) * 8 + 12), rest)
      else if 0xc0 <= b < 0xc6 then (AddVsp((b - 0xc0) * 8 + 8), rest)
      else if 0xd0 <= b < 0xd8 then (AddVsp((b - 0xd0) * 8 + 8), rest)
      else if b > 0xc9 then (Stop(Spare), rest)
      else if rest == [] then (Stop(Truncated), [])
      else
        var c: int := rest[0];
        (if b == 0xb3 then AddVsp(c % 16 * 8 + 12)
         else if b == 0xc6 || b == 0xc8 || b == 0xc9 then AddVsp(c % 16 * 8 + 8)
         else if c == 0 || c >= 16 then Stop(Spare)
         else if b == 0xb1 then Pop(Ascending(c, 0, 4))
         else AddVsp(Count4(c) * 4), rest[1..])
  }

  datatype Cpu = Cpu(regs: seq<nat>, cfa: nat, pc_set: bool)

  /** Registers and address after a pop, which may have stopped at a word that cannot be read. */
  datatype Popped = Popped(ok: bool, regs: seq<nat>, cfa: nat)

  /** Reads the registers one after the other. */
  function PopAll(ram: Memory, list: seq<nat>, regs: seq<nat>, cfa: nat): (r: Popped)
    ensures |r.regs| == |regs|
  {
    if list == [] then Popped(true, regs, cfa)
    else
      var v := ram(cfa);
      if v.None? || list[0] >= |regs| then Popped(false, regs, cfa)
      else PopAll(ram, list[1..], regs[list[0] := v.value], (cfa + 4) % TWO_32)
  }

  /** The state after an instruction, or why the unwinding stops. */
  function Exec(ram: Memory, insn: Insn, cpu: Cpu): (Status, Cpu)
    requires |cpu.regs| == 16
  {
    match insn
    case AddVsp(n) => (NoStatus, cpu.(cfa := (cpu.cfa + n) % TWO_32))
    case SubVsp(n) => (NoStatus, cpu.(cfa := (cpu.cfa - n) % TWO_32))
    case SetVsp(reg) => if reg < 16 then (NoStatus, cpu.(cfa := cpu.regs[reg])) else (Reserved, cpu)
    case Stop(status) => (status, cpu)
    case Pop(list) =>
      var popped := PopAll(ram, list, cpu.regs, cpu.cfa);
      if !popped.ok then (ReadFailed, cpu.(regs := popped.regs, cfa := popped.cfa))
      else (NoStatus, Cpu(popped.regs, if SP in list then popped.regs[SP] else popped.cfa, cpu.pc_set || PC in list))
  }

  lemma {:induction false} UlebShortens(shl: Shifter, data: seq<Byte>, shift: nat, acc: int)
    ensures var r := Uleb(shl, data, shift, acc); r.Some? ==> |r.value.1| < |data|
    decreases |data|
  {
    hide Bitwise, Shl32;
    if data != [] && data[0] >= 128 {
      UlebShortens(shl, data[1..], shift + 7, Bitwise(Or, acc, Shl32(shl, data[0] % 128, shift)));
    }
  }

  /** Every instruction takes at least one byte. */
  lemma ParseShortens(shl: Shifter, data: seq<Byte>)
    requires data != []
    ensures |Parse(shl, data).1| < |data|
  {
    hide Uleb, Ascending, Range;
    UlebShortens(shl, data[1..], 0, 0);
  }

  // ----- a pop undoes a push

  /** The registers were stored at the address one after the other, in the order of the list. */
  ghost predicate Stored(ram: Memory, addr: nat, list: seq<nat>, saved: seq<nat>) {
    forall k :: 0 <= k < |list| ==> list[k] < |saved| && ram((addr + 4 * k) % TWO_32) == Some(saved[list[k]])
  }

  lemma AddsUp(a: int, b: int, c: int)
    ensures ((a + b) % TWO_32 + c) % TWO_32 == (a + b + c) % TWO_32
  {
  }

  lemma StoredRest(ram: Memory, addr: nat, list: seq<nat>, saved: seq<nat>)
    requires Stored(ram, addr, list, saved) && list != [] && addr < TWO_32
    ensures list[0] < |saved| && ram(addr) == Some(saved[list[0]]) && Stored(ram, (addr + 4) % TWO_32, list[1..], saved)
  {
    assert (addr + 4 * 0) % TWO_32 == addr;
    forall k | 0 <= k < |list| - 1
      ensures list[1..][k] < |saved| && ram(((addr + 4) % TWO_32 + 4 * k) % TWO_32) == Some(saved[list[1..][k]])
    {
      AddsUp(addr, 4, 4 * k);
      assert ram((addr + 4 * (k + 1)) % TWO_32) == Some(saved[list[k + 1]]);
    }
  }

  /**
   Popping registers that were stored gives them their values back and leaves the
   others; the address moves by 4 for each.
   */
  lemma {:induction false} PopUndoesPush(ram: Memory, addr: nat, list: seq<nat>, saved: seq<nat>, regs: seq<nat>)
    requires Stored(ram, addr, list, saved) && addr < TWO_32 && |regs| == |saved|
    ensures var r := PopAll(ram, list, regs, addr);
            && r.ok && r.cfa == (addr + 4 * |list|) % TWO_32
            && forall i :: 0 <= i < |regs| ==> r.regs[i] == if i in list then saved[i] else regs[i]
    decreases |list|
  {
    hide Stored;
    if list != [] {
      StoredRest(ram, addr, list, saved);
      var first, rest := list[0], list[1..];
      var regs' := regs[first := saved[first]];
      PopUndoesPush(ram, (addr + 4) % TWO_32, rest, saved, regs');
      AddsUp(addr, 4, 4 * |rest|);
      forall i | 0 <= i < |regs|
        ensures (if i in rest then saved[i] else regs'[i]) == if i in list then saved[i] else regs[i]
      {
        assert i in list <==> i == first || i in rest;
      }
    }
  }

  lemma {:induction false} AscendingIs(mask: nat, reg: nat, end: nat)
    ensures forall x :: x in Ascending(mask, reg, end) <==> reg <= x < end && Bit(mask, x)
    ensures forall i, j :: 0 <= i < j < |Ascending(mask, reg, end)| ==>
              Ascending(mask, reg, end)[i] < Ascending(mask, reg, end)[j]
    decreases end - reg
  {
    hide Bit;
    if reg < end {
      var rest := Ascending(mask, reg + 1, end);
      AscendingIs(mask, reg + 1, end);
      forall j | 0 <= j < |rest|
        ensures reg < rest[j]
      {
        assert rest[j] in rest;
      }
    }
  }

  lemma {:induction false} RangeIs(first: nat, last: nat)
    requires first <= last + 1
    ensures |Range(first, last)| == last + 1 - first
    ensures forall i :: 0 <= i < |Range(first, last)| ==> Range(first, last)[i] == first + i
    decreases last - first
  {
    if first <= last { RangeIs(first + 1, last); }
  }

  /**
   The pop instruction gives back what a push of the same registers, in ascending
   order below the stack pointer, has stored: the registers have their old values
   and the stack pointer is where it was before the push, unless it was itself
   among them, in which case it is the value that was stored.
   */
  lemma PopInstruction(ram: Memory, list: seq<nat>, saved: seq<nat>, vsp: nat, cpu: Cpu)
    requires |cpu.regs| == |saved| == 16 && vsp < TWO_32 && cpu.cfa == (vsp - 4 * |list|) % TWO_32
             && Stored(ram, cpu.cfa, list, saved)
    ensures var (status, after) := Exec(ram, Pop(list), cpu);
            && status == NoStatus && |after.regs| == 16
            && (forall i :: 0 <= i < 16 ==> after.regs[i] == if i in list then saved[i] else cpu.regs[i])
            && after.cfa == (if SP in list then saved[SP] else vsp)
            && after.pc_set == (cpu.pc_set || PC in list)
  {
    hide Stored;
    PopUndoesPush(ram, cpu.cfa, list, saved, cpu.regs);
    AddsUp(vsp, -4 * |list|, 4 * |list|);
  }

  lemma {:induction false} PopOneMore(ram: Memory, list: seq<nat>, last: nat, regs: seq<nat>, cfa: nat)
    ensures PopAll(ram, list + [last], regs, cfa) ==
            var r := PopAll(ram, list, regs, cfa); if !r.ok then r else PopAll(ram, [last], r.regs, r.cfa)
    decreases |list|
  {
    var all := list + [last];
    if list == [] {
      assert all == [last];
    } else {
      assert all[0] == list[0] && all[1..] == list[1..] + [last];
      var v := ram(cfa);
      if v.Some? && list[0] < |regs| { PopOneMore(ram, list[1..], last, regs[list[0] := v.value], (cfa + 4) % TWO_32); }
    }
  }

  /** A pop has been performed when its registers are read and the stack pointer and the pc are seen to. */
  lemma PopPerformed(ram: Memory, list: seq<nat>, before: Cpu, popped: Popped)
    requires |before.regs| == 16 && popped == PopAll(ram, list, before.regs, before.cfa)
    ensures Exec(ram, Pop(list), before) ==
            if !popped.ok then (ReadFailed, before.(regs := popped.regs, cfa := popped.cfa))
            else
              var cfa := if SP in list then popped.regs[SP] else popped.cfa;
              (NoStatus, Cpu(popped.regs, cfa, before.pc_set || PC in list))
  {
  }

  /** The first register is popped, and then the others. */
  lemma PopFirst(ram: Memory, first: nat, rest: seq<nat>, regs: seq<nat>, cfa: nat)
    ensures var one := PopAll(ram, [first], regs, cfa);
            PopAll(ram, [first] + rest, regs, cfa) == if one.ok then PopAll(ram, rest, one.regs, one.cfa) else one
  {
    assert ([first] + rest)[1..] == rest && [first][1..] == [];
  }

  lemma PopNone(ram: Memory, regs: seq<nat>, cfa: nat)
    ensures PopAll(ram, [], regs, cfa) == Popped(true, regs, cfa)
  {
  }

  lemma AddPerformed(ram: Memory, n: nat, cpu: Cpu)
    requires |cpu.regs| == 16
    ensures Exec(ram, AddVsp(n), cpu) == (NoStatus, cpu.(cfa := (cpu.cfa + n) % TWO_32))
  {
  }

  lemma StopPerformed(ram: Memory, status: Status, cpu: Cpu)
    requires |cpu.regs| == 16
    ensures Exec(ram, Stop(status), cpu) == (status, cpu)
  {
  }

  /** What a step has to do to the state. */
  ghost predicate Performs(ram: Memory, insn: Insn, before: Cpu, status: Status, after: Cpu)
    requires |before.regs| == 16
  {
    var (st, cpu) := Exec(ram, insn, before);
    status == st && after == cpu && |after.regs| == 16
  }

  /** The first instruction of the bytes has been taken from them and performed. */
  ghost predicate Decoded(shl: Shifter, ram: Memory, bytes: seq<Byte>, before: Cpu, data: seq<Byte>, status: Status,
                          after: Cpu)
    requires |before.regs| == 16
  {
    var (insn, rest) := Parse(shl, bytes);
    data == rest && Performs(ram, insn, before, status, after)
  }

  class ArmExidx {
    const elf_memory: Memory
    const process_memory: Memory
    const shl: Shifter
    var data: seq<Byte>
    var status: Status
    var regs: seq<nat>
    var cfa: nat
    var pc_set: bool

    constructor (elf_memory: Memory, process_memory: Memory, shl: Shifter, regs: seq<nat>)
      requires |regs| == 16
      ensures this.elf_memory == elf_memory && this.process_memory == process_memory && this.regs == regs
              && |this.regs| == 16
    {
      this.elf_memory, this.process_memory, this.shl, this.regs := elf_memory, process_memory, shl, regs;
      data, status, cfa, pc_set := [], NoStatus, 0, false;
    }

    ghost function State(): Cpu
      reads this
    {
      Cpu(regs, cfa, pc_set)
    }

    /** Collects the bytes of an entry. */
    method ExtractEntryData(entry_offset: nat) returns (ok: bool)
      modifies `data, `status
      ensures var e := EntryData(elf_memory, entry_offset);
              if ok then e == Bytes(data) && status == NoStatus else e == Failed(status)
      ensures ok ==> 2 <= |data| <= 24 && data[|data| - 1] == FINISH
    {
      hide ByteOf, Prel31, TableData;
      EntryDataSize(elf_memory, entry_offset);
      data, status := [], NoStatus;
      if entry_offset % 2 == 1 { status := InvalidAlignment; return false; }
      var place := (entry_offset + 4) % TWO_32;
      var word := elf_memory(place);
      if word.None? { status := ReadFailed; return false; }
      if word.value == 1 { status := NoUnwind; return false; }
      if word.value >= 0x8000_0000 {
        if ByteOf(word.value, 3) % 16 != 0 { status := InvalidPersonality; return false; }
        data := [ByteOf(word.value, 2), ByteOf(word.value, 1), ByteOf(word.value, 0)];
        if data[2] != FINISH { data := data + [FINISH]; }
        return true;
      }
      ok := ExtractFromTable(Prel31(place, word.value));
    }

    /** Collects the bytes of an entry that is not inline. */
    method ExtractFromTable(start: nat) returns (ok: bool)
      requires data == [] && status == NoStatus
      modifies `data, `status
      ensures var e := TableData(elf_memory, start);
              if ok then e == Bytes(data) && status == NoStatus else e == Failed(status)
    {
      hide ByteOf, WithWords;
      var addr: nat := start;
      var word := elf_memory(addr);
      if word.None? { status := ReadFailed; return false; }
      var num_table_words: nat;
      if word.value >= 0x8000_0000 {
        var personality := ByteOf(word.value, 3) % 16;
        if personality == 0 {
          num_table_words := 0;
          data := [ByteOf(word.value, 2)];
        } else if personality <= 2 {
          num_table_words := ByteOf(word.value, 2);
          addr := (addr + 4) % TWO_32;
        } else {
          status := InvalidPersonality;
          return false;
        }
        data := data + [ByteOf(word.value, 1), ByteOf(word.value, 0)];
        assert data == if personality == 0 then [ByteOf(word.value, 2), ByteOf(word.value, 1), ByteOf(word.value, 0)]
                       else [ByteOf(word.value, 1), ByteOf(word.value, 0)];
      } else {
        addr := (addr + 4) % TWO_32;
        word := elf_memory(addr);
        if word.None? { status := ReadFailed; return false; }
        num_table_words := ByteOf(word.value, 3);
        data := [ByteOf(word.value, 2), ByteOf(word.value, 1), ByteOf(word.value, 0)];
        addr := (addr + 4) % TWO_32;
      }
      ok := ExtractTable(addr, num_table_words);
    }

    /** Adds the words of the table, and a finish if there is none. */
    method ExtractTable(start: nat, num_table_words: nat) returns (ok: bool)
      requires data != [] && status == NoStatus
      modifies `data, `status
      ensures var e := WithWords(elf_memory, old(data), start, num_table_words);
              if ok then e == Bytes(data) && status == NoStatus else e == Failed(status)
    {
      hide WordBytes;
      if num_table_words > 5 { status := Malformed; return false; }
      var addr: nat := start;
      ghost var first := data;
      for i := 0 to num_table_words
        invariant data != [] && status == NoStatus
        invariant Appended(first, TableWords(elf_memory, start, num_table_words)) ==
                  Appended(data, TableWords(elf_memory, addr, num_table_words - i))
      {
        var word := elf_memory(addr);
        OneWord(elf_memory, data, addr, num_table_words - i);
        if word.None? { status := ReadFailed; return false; }
        data := data + WordBytes(word.value);
        addr := (addr + 4) % TWO_32;
      }
      assert data + [] == data;
      if data[|data| - 1] != FINISH { data := data + [FINISH]; }
      return true;
    }

    method GetByte() returns (byte: Option<Byte>)
      modifies `data, `status
      ensures old(data) == [] ==> byte.None? && data == [] && status == Truncated
      ensures old(data) != [] ==> byte == Some(old(data)[0]) && data == old(data)[1..] && status == old(status)
    {
      if data == [] { status := Truncated; return None; }
      byte := Some(data[0]);
      data := data[1..];
    }

    /** Reads one register at the virtual stack pointer. */
    method PopOne(reg: nat) returns (ok: bool)
      requires reg < 16 == |regs| && status == NoStatus
      modifies `regs, `cfa, `status
      ensures |regs| == 16 && ok == (status == NoStatus) && (!ok ==> status == ReadFailed)
      ensures PopAll(process_memory, [reg], old(regs), old(cfa)) == Popped(ok, regs, cfa)
    {
      var v := process_memory(cfa);
      assert [reg][1..] == [];
      if v.None? { status := ReadFailed; return false; }
      regs := regs[reg := v.value];
      cfa := (cfa + 4) % TWO_32;
      return true;
    }

    /** Reads the registers of the mask, from the lowest to the highest. */
    method PopMasked(mask: nat, first: nat, end: nat) returns (ok: bool)
      requires first <= end <= 16 == |regs| && status == NoStatus
      modifies `regs, `cfa, `status
      ensures |regs| == 16 && ok == (status == NoStatus) && (!ok ==> status == ReadFailed)
      ensures PopAll(process_memory, Ascending(mask, first, end), old(regs), old(cfa)) == Popped(ok, regs, cfa)
    {
      hide Bit, PopAll;
      for reg := first to end
        invariant |regs| == 16 && status == NoStatus
        invariant PopAll(process_memory, Ascending(mask, first, end), old(regs), old(cfa)) ==
                  PopAll(process_memory, Ascending(mask, reg, end), regs, cfa)
      {
        if Bit(mask, reg) {
          assert Ascending(mask, reg, end) == [reg] + Ascending(mask, reg + 1, end);
          PopFirst(process_memory, reg, Ascending(mask, reg + 1, end), regs, cfa);
          ok := PopOne(reg);
          if !ok { return; }
        } else {
          assert Ascending(mask, reg, end) == Ascending(mask, reg + 1, end);
        }
      }
      PopNone(process_memory, regs, cfa);
      return true;
    }

    /** Reads the registers from r4 up to the last one. */
    method PopRange(last: nat) returns (ok: bool)
      requires 4 <= last < 16 == |regs| && status == NoStatus
      modifies `regs, `cfa, `status
      ensures |regs| == 16 && ok == (status == NoStatus) && (!ok ==> status == ReadFailed)
      ensures PopAll(process_memory, Range(4, last), old(regs), old(cfa)) == Popped(ok, regs, cfa)
    {
      var reg := 4;
      while reg <= last
        invariant 4 <= reg <= last + 1 && |regs| == 16 && status == NoStatus
        invariant PopAll(process_memory, Range(4, last), old(regs), old(cfa)) ==
                  PopAll(process_memory, Range(reg, last), regs, cfa)
      {
        assert Range(reg, last)[1..] == Range(reg + 1, last);
        ok := PopOne(reg);
        if !ok { return; }
        reg := reg + 1;
      }
      return true;
    }

    method DecodePrefix_10_00(byte: Byte) returns (ok: bool)
      requires 0x80 <= byte < 0x90 && |regs| == 16 && status == NoStatus
      modifies this
      ensures ok == (status == NoStatus)
      ensures Decoded(shl, process_memory, [byte] + old(data), old(State()), data, status, State())
    {
      hide PopAll, Ascending, Exec, Bit;
      ghost var bytes, before := [byte] + data, State();
      assert bytes[1..] == data;
      var next := GetByte();
      StopPerformed(process_memory, Truncated, before);
      if next.None? { return false; }
      var registers: int := (byte - 0x80) as int * 256 + next.value as int;
      StopPerformed(process_memory, NoUnwind, before);
      if registers == 0 { status := NoUnwind; return false; }
      registers := registers * 16;
      AscendingIs(registers, 4, 16);
      ok := PopMasked(registers, 4, 16);
      PopPerformed(process_memory, Ascending(registers, 4, 16), before, Popped(ok, regs, cfa));
      if !ok { return; }
      if Bit(registers, SP) { cfa := regs[SP]; }
      if Bit(registers, PC) { pc_set := true; }
    }

    method DecodePrefix_10_10(byte: Byte) returns (ok: bool)
      requires 0xa0 <= byte < 0xb0 && |regs| == 16 && status == NoStatus
      modifies this
      ensures ok == (status == NoStatus)
      ensures Decoded(shl, process_memory, [byte] + old(data), old(State()), data, status, State())
    {
      hide PopAll, Range;
      ghost var bytes := [byte] + data;
      assert bytes[1..] == data;
      var last: int := 4 + byte as int % 8;
      RangeIs(4, last);
      NoSpInRange(last);
      PopOneMore(process_memory, Range(4, last), 14, regs, cfa);
      ok := PopRange(last);
      if !ok { return; }
      if byte >= 0xa8 { ok := PopOne(14); }
    }

    /** Reads a number of seven-bit groups. */
    method ReadUleb() returns (value: Option<int>)
      requires status == NoStatus
      modifies `data, `status
      ensures var r := Uleb(shl, old(data), 0, 0);
              if r.Some? then value == Some(r.value.0) && data == r.value.1 && status == NoStatus
              else value.None? && data == [] && status == Truncated
    {
      hide Bitwise, Shl32;
      var result: int, shift, byte := 0, 0, Some(0x80 as Byte);
      while byte.value >= 128
        invariant byte.Some? && status == NoStatus
        invariant Uleb(shl, old(data), 0, 0) == if byte.value >= 128 then Uleb(shl, data, shift, result)
                                                else Some((result, data))
        decreases byte.value >= 128, |data|
      {
        byte := GetByte();
        if byte.None? { return None; }
        result := Bitwise(Or, result, Shl32(shl, byte.value % 128, shift));
        shift := shift + 7;
      }
      return Some(result);
    }

    method DecodePrefix_10_11_0001() returns (ok: bool)
      requires |regs| == 16 && status == NoStatus
      modifies this
      ensures ok == (status == NoStatus)
      ensures Decoded(shl, process_memory, [0xb1] + old(data), old(State()), data, status, State())
    {
      hide PopAll, Ascending, Exec, Uleb;
      ghost var bytes: seq<Byte>, before := [0xb1] + data, State();
      assert bytes[1..] == data;
      var mask := GetByte();
      StopPerformed(process_memory, Truncated, before);
      if mask.None? { return false; }
      StopPerformed(process_memory, Spare, before);
      if mask.value == 0 || mask.value >= 16 { status := Spare; return false; }
      AscendingIs(mask.value, 0, 4);
      ok := PopMasked(mask.value, 0, 4);
      PopPerformed(process_memory, Ascending(mask.value, 0, 4), before, Popped(ok, regs, cfa));
    }

    method DecodePrefix_10_11(byte: Byte) returns (ok: bool)
      requires 0xb0 <= byte < 0xc0 && |regs| == 16 && status == NoStatus
      modifies this
      ensures ok == (status == NoStatus)
      ensures Decoded(shl, process_memory, [byte] + old(data), old(State()), data, status, State())
    {
      hide PopAll, Ascending, Uleb;
      ghost var bytes := [byte] + data;
      assert bytes[1..] == data;
      if byte == 0xb0 {
        status := Finish;
        return false;
      } else if byte == 0xb1 {
        ok := DecodePrefix_10_11_0001();
      } else if byte == 0xb2 {
        var value := ReadUleb();
        if value.None? { return false; }
        var n := (0x204 + value.value * 4) % TWO_32;
        cfa := (cfa + n) % TWO_32;
        return true;
      } else if byte == 0xb3 {
        var next := GetByte();
        if next.None? { return false; }
        cfa := (cfa + (next.value as int % 16 * 8 + 12)) % TWO_32;
        return true;
      } else if byte >= 0xb8 {
        cfa := (cfa + (byte as int % 8 * 8 + 12)) % TWO_32;
        return true;
      } else {
        status := Spare;
        return false;
      }
    }

    /** A pop of coprocessor registers under a mask. */
    method DecodePrefix_11_000_0111() returns (ok: bool)
      requires |regs| == 16 && status == NoStatus
      modifies this
      ensures ok == (status == NoStatus)
      ensures Decoded(shl, process_memory, [0xc7] + old(data), old(State()), data, status, State())
    {
      hide Exec, Ascending, Range, Uleb, Bitwise;
      ghost var bytes: seq<Byte>, before := [0xc7] + data, State();
      assert bytes[1..] == data;
      var mask := GetByte();
      StopPerformed(process_memory, Truncated, before);
      if mask.None? { return false; }
      StopPerformed(process_memory, Spare, before);
      if mask.value == 0 || mask.value >= 16 { status := Spare; return false; }
      AddPerformed(process_memory, Count4(mask.value) * 4, before);
      cfa := (cfa + Count4(mask.value) * 4) % TWO_32;
      return true;
    }

    method DecodePrefix_11(byte: Byte) returns (ok: bool)
      requires 0xc0 <= byte && |regs| == 16 && status == NoStatus
      modifies this
      ensures ok == (status == NoStatus)
      ensures Decoded(shl, process_memory, [byte] + old(data), old(State()), data, status, State())
    {
      hide Exec, Ascending, Range, Uleb, Bitwise, Count4;
      ghost var bytes, before := [byte] + data, State();
      assert bytes[1..] == data;
      if byte < 0xc6 || 0xd0 <= byte < 0xd8 {
        var n := byte as int % 8 * 8 + 8;
        AddPerformed(process_memory, n, before);
        cfa := (cfa + n) % TWO_32;
        return true;
      } else if byte == 0xc6 || byte == 0xc8 || byte == 0xc9 {
        var next := GetByte();
        StopPerformed(process_memory, Truncated, before);
        if next.None? { return false; }
        var n := next.value as int % 16 * 8 + 8;
        AddPerformed(process_memory, n, before);
        cfa := (cfa + n) % TWO_32;
        return true;
      } else if byte == 0xc7 {
        ok := DecodePrefix_11_000_0111();
      } else {
        StopPerformed(process_memory, Spare, before);
        status := Spare;
        return false;
      }
    }

    /** Takes one instruction from the bytes and performs it. */
    method Decode() returns (ok: bool)
      requires |regs| == 16
      modifies this
      ensures ok == (status == NoStatus) && Decoded(shl, process_memory, old(data), old(State()), data, status, State())
      ensures |regs| == 16 && (ok ==> |data| < |old(data)|)
    {
      hide PopAll, Ascending, Range, Uleb;
      status := NoStatus;
      ghost var bytes := data;
      if bytes != [] { ParseShortens(shl, bytes); }
      var byte := GetByte();
      if byte.None? { return false; }
      assert bytes == [byte.value] + data;
      if byte.value < 0x40 {
        cfa := (cfa + (byte.value as int * 4 + 4)) % TWO_32;
        ok := true;
      } else if byte.value < 0x80 {
        cfa := (cfa - ((byte.value as int - 0x40) * 4 + 4)) % TWO_32;
        ok := true;
      } else if byte.value < 0x90 {
        ok := DecodePrefix_10_00(byte.value);
      } else if byte.value < 0xa0 {
        if byte.value == 0x9d || byte.value == 0x9f { status := Reserved; return false; }
        cfa := regs[byte.value - 0x90];
        ok := true;
      } else if byte.value < 0xb0 {
        ok := DecodePrefix_10_10(byte.value);
      } else if byte.value < 0xc0 {
        ok := DecodePrefix_10_11(byte.value);
      } else {
        ok := DecodePrefix_11(byte.value);
      }
    }

    /** Performs instructions until one stops; there are no more of them than bytes. */
    method Eval() returns (ok: bool, ghost decodes: nat)
      requires |regs| == 16
      modifies this
      ensures ok == (status == Finish) && decodes <= |old(data)| + 1
      ensures var (st, rest, cpu) := Evaluate(shl, process_memory, old(data), Cpu(old(regs), old(cfa), false));
              status == st != NoStatus && data == rest && State() == cpu
    {
      hide Decoded, Evaluate;
      pc_set, decodes := false, 0;
      ghost var result := Evaluate(shl, process_memory, data, State());
      var more := true;
      while more
        invariant |regs| == 16 && decodes + |data| <= |old(data)| + 1 && (more ==> decodes + |data| <= |old(data)|)
        invariant if more then result == Evaluate(shl, process_memory, data, State())
                  else status == result.0 != NoStatus && data == result.1 && State() == result.2
        decreases more, |data|
      {
        ghost var bytes, before := data, State();
        more := Decode();
        decodes := decodes + 1;
        EvaluateStep(shl, process_memory, bytes, before, data, status, State());
      }
      ok := status == Finish;
    }
  }

  /** All instructions, until one stops: why, the bytes that are left, and the state. */
  function Evaluate(shl: Shifter, ram: Memory, data: seq<Byte>, cpu: Cpu): (Status, seq<Byte>, Cpu)
    requires |cpu.regs| == 16
    decreases |data|
  {
    var (insn, rest) := Parse(shl, data);
    var (status, after) := Exec(ram, insn, cpu);
    if status != NoStatus || |rest| >= |data| || |after.regs| != 16 then (status, rest, after)
    else Evaluate(shl, ram, rest, after)
  }

  lemma EvaluateStep(shl: Shifter, ram: Memory, bytes: seq<Byte>, before: Cpu, data: seq<Byte>, status: Status,
                     after: Cpu)
    requires |before.regs| == 16 && Decoded(shl, ram, bytes, before, data, status, after)
    ensures |data| <= |bytes| && (status == NoStatus ==> |data| < |bytes| && |after.regs| == 16)
    ensures var result := Evaluate(shl, ram, bytes, before);
            if status == NoStatus then |after.regs| == 16 && result == Evaluate(shl, ram, data, after)
            else status == result.0 && data == result.1 && after == result.2
  {
    hide Exec, Parse;
    if bytes != [] { ParseShortens(shl, bytes); } else { NothingLeft(shl, ram, before); }
  }

  lemma NothingLeft(shl: Shifter, ram: Memory, cpu: Cpu)
    requires |cpu.regs| == 16
    ensures Parse(shl, []) == (Stop(Truncated), []) && Exec(ram, Stop(Truncated), cpu) == (Truncated, cpu)
  {
  }

  lemma NoSpInRange(last: nat)
    requires 4 <= last < 12
    ensures SP !in Range(4, last) && PC !in Range(4, last) && SP !in Range(4, last) + [14]
            && PC !in Range(4, last) + [14]
  {
    RangeIs(4, last);
  }

  function Appended(first: seq<Byte>, rest: Option<seq<Byte>>): Option<seq<Byte>> {
    if rest.None? then None else Some(first + rest.value)
  }

  lemma OneWord(mem: Memory, first: seq<Byte>, addr: nat, n: nat)
    requires n > 0
    ensures Appended(first, TableWords(mem, addr, n)) ==
            if mem(addr).None? then None
            else Appended(first + WordBytes(mem(addr).value), TableWords(mem, (addr + 4) % TWO_32, n - 1))
  {
    hide WordBytes;
    var rest := TableWords(mem, (addr + 4) % TWO_32, n - 1);
    if mem(addr).Some? && rest.Some? {
      assert first + (WordBytes(mem(addr).value) + rest.value) == first + WordBytes(mem(addr).value) + rest.value;
    }
  }
}
