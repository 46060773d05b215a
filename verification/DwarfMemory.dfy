/**
 Reading numbers from a section: little-endian words, and the variable-length
 numbers of section 7.6 of DWARF version 4.
 */
module DwarfMemory {
  import opened Bits
  import opened OrderedKeys
  import opened WordSizes

  /** A byte that cannot be read is absent. */
  type Memory = seq<Option<Byte>>

  /** What a shift by the width of a word or more gives, which C++ leaves open. */
  type Shifter = (nat, nat) -> nat

  function ByteAt(mem: Memory, offset: nat): Option<Byte> {
    if offset < |mem| then mem[offset] else None
  }

  ghost predicate Holds(mem: Memory, offset: nat, bytes: seq<Byte>) {
    forall i :: 0 <= i < |bytes| ==> ByteAt(mem, offset + i) == Some(bytes[i])
  }

  function Shl(shl: Shifter, x: nat, shift: nat): (r: nat)
    ensures r < TWO_64
  {
    (if shift < 64 then x * Pow2(shift) else shl(x, shift)) % TWO_64
  }

  // ----- decoding

  /** The seven-bit groups of a number, with the last byte and the shift after it. */
  datatype Leb = Leb(value: nat, next: nat, last: Byte, shift: nat)

  function Groups(shl: Shifter, mem: Memory, offset: nat, shift: nat, acc: nat): Option<Leb>
    decreases |mem| - offset
  {
    match ByteAt(mem, offset)
    case None => None
    case Some(byte) =>
      var value := (acc + Shl(shl, byte % 128, shift)) % TWO_64;
      if byte >= 128 then Groups(shl, mem, offset + 1, shift + 7, value)
      else Some(Leb(value, offset + 1, byte, shift + 7))
  }

  function SignExtend(shl: Shifter, leb: Leb): int {
    if leb.last >= 64 then Bitwise(Or, leb.value, Shl(shl, TWO_64 - 1, leb.shift)) else leb.value
  }

  function ToSigned(value: int): int {
    if value < 0x8000_0000_0000_0000 then value else value - TWO_64
  }

  // ----- encoding

  function EncodeUleb(v: nat): seq<Byte> {
    if v < 128 then [v] else [128 + v % 128] + EncodeUleb(v / 128)
  }

  function EncodeSleb(v: int): seq<Byte>
    decreases Magnitude(v)
  {
    if -64 <= v < 64 then [v % 128] else [128 + v % 128] + EncodeSleb(v / 128)
  }

  lemma HoldsRest(mem: Memory, offset: nat, first: Byte, rest: seq<Byte>)
    requires Holds(mem, offset, [first] + rest)
    ensures ByteAt(mem, offset) == Some(first) && Holds(mem, offset + 1, rest)
  {
    var bytes := [first] + rest;
    assert bytes[0] == first;
    forall i | 0 <= i < |rest|
      ensures ByteAt(mem, offset + 1 + i) == Some(rest[i])
    {
      assert bytes[i + 1] == rest[i] && ByteAt(mem, offset + (i + 1)) == Some(bytes[i + 1]);
    }
  }

  lemma ShlIs(shl: Shifter, x: nat, shift: nat)
    requires shift < 64 && x * Pow2(shift) < TWO_64
    ensures Shl(shl, x, shift) == x * Pow2(shift)
  {
  }

  /** Splitting off the low group of a number that is scaled. */
  lemma Regroup(low: int, rest: int, p: nat)
    ensures (low + 128 * rest) * p == low * p + rest * (128 * p)
  {
  }

  lemma Scales(a: int, b: int, p: nat)
    requires a <= b
    ensures a * p <= b * p
  {
  }

  /** A group that stays below the top of the word is added as it is. */
  lemma GroupAdds(shl: Shifter, acc: nat, low: nat, shift: nat, rest: nat)
    requires acc + (low + 128 * rest) * Pow2(shift) < TWO_64 && shift < 64
    ensures (acc + Shl(shl, low, shift)) % TWO_64 == acc + low * Pow2(shift)
    ensures (low + 128 * rest) * Pow2(shift) == low * Pow2(shift) + rest * Pow2(shift + 7)
  {
    hide Pow2, Shl;
    Pow2Byte(shift);
    Regroup(low, rest, Pow2(shift));
    Scales(0, rest, Pow2(shift + 7));
    ShlIs(shl, low, shift);
  }

  /** A shift that reaches the width moves any number but zero out of the word. */
  lemma ShiftFits(v: nat, shift: nat)
    requires v > 0 && v * Pow2(shift) < TWO_64
    ensures shift < 64
  {
    if shift >= 64 {
      Pow2Known();
      Pow2Grows(64, shift);
      AtLeast(v, Pow2(shift));
    }
  }

  lemma {:induction false} UlebTail(shl: Shifter, mem: Memory, offset: nat, v: nat, shift: nat, acc: nat)
    requires Holds(mem, offset, EncodeUleb(v)) && acc + v * Pow2(shift) < TWO_64 && (v > 0 || shift < 64)
    ensures var leb := Groups(shl, mem, offset, shift, acc);
            leb.Some? && leb.value.value == acc + v * Pow2(shift) && leb.value.next == offset + |EncodeUleb(v)|
    decreases v
  {
    hide Shl, Pow2;
    if v > 0 { ShiftFits(v, shift); }
    if v < 128 {
      GroupAdds(shl, acc, v, shift, 0);
      assert ByteAt(mem, offset) == Some(EncodeUleb(v)[0]);
    } else {
      var low, rest := v % 128, v / 128;
      HoldsRest(mem, offset, 128 + low, EncodeUleb(rest));
      GroupAdds(shl, acc, low, shift, rest);
      UlebTail(shl, mem, offset + 1, rest, shift + 7, acc + low * Pow2(shift));
    }
  }

  /** Reading an unsigned number gives back what was encoded, and nothing after it is looked at. */
  lemma UlebRoundTrip(shl: Shifter, mem: Memory, offset: nat, v: nat)
    requires Holds(mem, offset, EncodeUleb(v)) && v < TWO_64
    ensures var leb := Groups(shl, mem, offset, 0, 0);
            leb.Some? && leb.value.value == v && leb.value.next == offset + |EncodeUleb(v)|
  {
    UlebTail(shl, mem, offset, v, 0, 0);
  }

  /** What is left of a number after `i` groups, if its groups end below the top of the word. */
  predicate Encodable(v: int, i: nat) {
    if v >= 0 then i <= 9 && v < Pow2(63 - 7 * i) else i <= 8 && v >= 0 - Pow2(62 - 7 * i)
  }

  /** When the shift has come to the top of the word, one group is left. */
  lemma OneGroupLeft(v: int, i: nat)
    requires Encodable(v, i) && i >= if v < 0 then 8 else 9
    ensures i <= 9 && (if v < 0 then -64 <= v else v == 0)
  {
    assert Pow2(0) == 1;
    Pow2Byte(0);
  }

  lemma EncodableRest(v: int, i: nat)
    requires Encodable(v, i) && !(-64 <= v < 64)
    ensures Encodable(v / 128, i + 1) && i <= 8 && (v < 0 ==> v / 128 < 0)
  {
    hide Pow2;
    if i >= if v < 0 then 8 else 9 { OneGroupLeft(v, i); }
    if v >= 0 { Pow2Byte(56 - 7 * i); } else { Pow2Byte(55 - 7 * i); }
  }

  /** A group is added as it is as long as the shift stays below the width of a word. */
  lemma SignedGroupAdds(shl: Shifter, acc: nat, low: nat, i: nat)
    requires acc < Pow2(7 * i) && low < 128 && (i <= 8 || (i == 9 && low == 0))
    ensures (acc + Shl(shl, low, 7 * i)) % TWO_64 == acc + low * Pow2(7 * i) < Pow2(7 * (i + 1))
  {
    hide Pow2, Shl;
    Pow2Known();
    Pow2Byte(7 * i);
    Scales(low, 127, Pow2(7 * i));
    if i <= 8 { Pow2Grows(7 * i + 7, 63); } else { Pow2Grows(7 * i, 63); }
    ShlIs(shl, low, 7 * i);
  }

  lemma ShlOfOnes(shl: Shifter, i: nat)
    requires i <= 9
    ensures Shl(shl, TWO_64 - 1, 7 * i) == TWO_64 - Pow2(7 * i)
  {
    hide Pow2;
    Pow2Known();
    Pow2Grows(7 * i, 63);
    var p := Pow2(7 * i);
    assert (TWO_64 - 1) * p == (p - 1) * TWO_64 + (TWO_64 - p);
    RemainderIs((TWO_64 - 1) * p, TWO_64, p - 1, TWO_64 - p);
  }

  /** The sign is filled in above the last group. */
  lemma SignFills(shl: Shifter, value: nat, i: nat)
    requires value < Pow2(7 * i) && i <= 9
    ensures Bitwise(Or, value, Shl(shl, TWO_64 - 1, 7 * i)) == value + TWO_64 - Pow2(7 * i)
  {
    hide Pow2, Bitwise, Shl;
    ShlOfOnes(shl, i);
    Pow2Known();
    Pow2Grows(7 * i, 63);
    var p: int := Pow2(7 * i);
    var sign := 0 - p;
    RemainderIs(sign, TWO_64, -1, TWO_64 - p);
    RemainderIs(value, TWO_64, 0, value);
    OrWithSign(value, 7 * i);
    BitwiseMod(Or, value, sign, 64);
    RemainderIs(value - p, TWO_64, -1, value - p + TWO_64);
  }

  /** The number, as the bits of a word. */
  function Wrapped(v: int): int {
    if v < 0 then v + TWO_64 else v
  }

  /** The first byte of an encoded number is read. */
  lemma SlebFirst(shl: Shifter, mem: Memory, offset: nat, v: int, shift: nat, acc: nat)
    requires Holds(mem, offset, EncodeSleb(v))
    ensures var value := (acc + Shl(shl, v % 128, shift)) % TWO_64;
            if -64 <= v < 64 then
              && |EncodeSleb(v)| == 1
              && Groups(shl, mem, offset, shift, acc) == Some(Leb(value, offset + 1, v % 128, shift + 7))
            else && |EncodeSleb(v)| == 1 + |EncodeSleb(v / 128)| && Holds(mem, offset + 1, EncodeSleb(v / 128))
                 && Groups(shl, mem, offset, shift, acc) == Groups(shl, mem, offset + 1, shift + 7, value)
                 && Magnitude(v / 128) < Magnitude(v)
  {
    hide Shl;
    if -64 <= v < 64 {
      HoldsRest(mem, offset, v % 128, []);
    } else {
      HoldsRest(mem, offset, 128 + v % 128, EncodeSleb(v / 128));
    }
  }

  lemma RegroupBy7(v: int, i: nat)
    ensures v * Pow2(7 * i) == v % 128 * Pow2(7 * i) + v / 128 * Pow2(7 * (i + 1))
  {
    hide Pow2;
    Pow2Byte(7 * i);
    Regroup(v % 128, v / 128, Pow2(7 * i));
  }

  lemma {:induction false} SlebTail(shl: Shifter, mem: Memory, offset: nat, v: int, i: nat, acc: nat)
    requires Holds(mem, offset, EncodeSleb(v)) && Encodable(v, i) && acc < Pow2(7 * i)
    ensures var leb := Groups(shl, mem, offset, 7 * i, acc);
            && leb.Some? && leb.value.next == offset + |EncodeSleb(v)|
            && SignExtend(shl, leb.value) == Wrapped(acc + v * Pow2(7 * i))
    decreases Magnitude(v)
  {
    hide Shl, Pow2, Bitwise, Encodable, SignExtend, Wrapped, Groups, EncodeSleb;
    var low, p := v % 128, Pow2(7 * i);
    SlebFirst(shl, mem, offset, v, 7 * i, acc);
    if -64 <= v < 64 {
      SlebLast(shl, v, i, acc, offset + 1);
    } else {
      EncodableRest(v, i);
      SignedGroupAdds(shl, acc, low, i);
      RegroupBy7(v, i);
      SlebTail(shl, mem, offset + 1, v / 128, i + 1, acc + low * p);
    }
  }

  /** The last group of a number, and its sign. */
  lemma SlebLast(shl: Shifter, v: int, i: nat, acc: nat, next: nat)
    requires -64 <= v < 64 && Encodable(v, i) && acc < Pow2(7 * i)
    ensures var value := (acc + Shl(shl, v % 128, 7 * i)) % TWO_64;
            SignExtend(shl, Leb(value, next, v % 128, 7 * i + 7)) == Wrapped(acc + v * Pow2(7 * i))
  {
    hide Pow2, Shl, Bitwise, Encodable;
    var p := Pow2(7 * i);
    if v < 0 {
      assert i <= 8 && v % 128 == v + 128 by { EncodableLast(v, i); }
      SignedGroupAdds(shl, acc, v + 128, i);
      NegativeLast(shl, v, i, acc);
    } else {
      assert i <= 8 || (i == 9 && v == 0) by { EncodableLast(v, i); }
      SignedGroupAdds(shl, acc, v, i);
      Scales(0, v, p);
    }
  }

  lemma EncodableLast(v: int, i: nat)
    requires -64 <= v < 64 && Encodable(v, i)
    ensures i <= 8 || (i == 9 && v == 0)
  {
    if i > 8 { OneGroupLeft(v, i); }
  }

  lemma NegativeLast(shl: Shifter, v: int, i: nat, acc: nat)
    requires -64 <= v < 0 && i <= 8 && acc < Pow2(7 * i) && acc + (v + 128) * Pow2(7 * i) < Pow2(7 * i + 7)
    ensures v * Pow2(7 * i) <= 0 - Pow2(7 * i) && (v + 128) * Pow2(7 * i) >= 0
    ensures Bitwise(Or, acc + (v + 128) * Pow2(7 * i), Shl(shl, TWO_64 - 1, 7 * i + 7)) ==
            acc + v * Pow2(7 * i) + TWO_64
  {
    hide Pow2, Shl, Bitwise;
    var p := Pow2(7 * i);
    Scales(v, -1, p);
    Scales(0, v + 128, p);
    SignFills(shl, acc + (v + 128) * p, i + 1);
    Pow2Byte(7 * i);
    Regroup(v, 1, p);
  }

  ghost predicate DecodesTo(shl: Shifter, mem: Memory, offset: nat, v: int) {
    var leb := Groups(shl, mem, offset, 0, 0);
    leb.Some? && leb.value.next == offset + |EncodeSleb(v)| && ToSigned(SignExtend(shl, leb.value)) == v
  }

  /** Reading a signed number gives back what was encoded if it is not too negative. */
  lemma SlebRoundTrip(shl: Shifter, mem: Memory, offset: nat, v: int)
    requires Holds(mem, offset, EncodeSleb(v)) && -0x4000_0000_0000_0000 <= v < 0x8000_0000_0000_0000
    ensures DecodesTo(shl, mem, offset, v)
  {
    Pow2Known();
    SlebTail(shl, mem, offset, v, 0, 0);
  }

  /** The shift of processors that look only at the low bits of the amount. */
  const Masked: Shifter := (x, shift) => x * Pow2(shift % 64)

  /** A number that is too negative takes ten bytes, and its sign is filled in beyond the word. */
  lemma {:induction false} TenGroups(shl: Shifter, mem: Memory, offset: nat, v: int, i: nat, acc: nat)
    requires Holds(mem, offset, EncodeSleb(v)) && i <= 8 && 0 - Pow2(63 - 7 * i) <= v < 0 - Pow2(62 - 7 * i)
    ensures var leb := Groups(shl, mem, offset, 7 * i, acc);
            leb.Some? && leb.value.shift == 70 && leb.value.last >= 64
    decreases 8 - i
  {
    hide Shl, Groups, EncodeSleb, Pow2;
    Pow2Known();
    Pow2Grows(6, 62 - 7 * i);
    assert Pow2(6) == 64 by { Pow2Byte(0); Pow2Zero(); }
    SlebFirst(shl, mem, offset, v, 7 * i, acc);
    var value := (acc + Shl(shl, v % 128, 7 * i)) % TWO_64;
    if i < 8 {
      Pow2Byte(55 - 7 * i);
      Pow2Byte(56 - 7 * i);
      TenGroups(shl, mem, offset + 1, v / 128, i + 1, value);
    } else {
      assert v / 128 == -1;
      SlebFirst(shl, mem, offset + 1, -1, 63, value);
    }
  }

  /** On such a processor those numbers are not read back. */
  lemma WrongBelow(mem: Memory, offset: nat, v: int)
    requires Holds(mem, offset, EncodeSleb(v)) && -0x8000_0000_0000_0000 <= v < -0x4000_0000_0000_0000
    ensures !DecodesTo(Masked, mem, offset, v)
  {
    hide Groups, Bitwise, EncodeSleb, Pow2;
    Pow2Known();
    TenGroups(Masked, mem, offset, v, 0, 0);
    var leb := Groups(Masked, mem, offset, 0, 0).value;
    assert Pow2(6) == 64 by { Pow2Byte(0); Pow2Zero(); }
    assert Shl(Masked, TWO_64 - 1, 70) == TWO_64 - 64;
    OrMakesSmall(leb.value, 6);
    BitwiseMod(Or, leb.value, -64, 64);
    RemainderIs(-64, TWO_64, -1, TWO_64 - 64);
    ValueFits(Masked, mem, offset, 0, 0);
    RemainderIs(leb.value, TWO_64, 0, leb.value);
    var or := Bitwise(Or, leb.value, -64);
    RemainderIs(or, TWO_64, -1, or + TWO_64);
  }

  lemma {:induction false} ValueFits(shl: Shifter, mem: Memory, offset: nat, shift: nat, acc: nat)
    ensures var leb := Groups(shl, mem, offset, shift, acc); leb.Some? ==> leb.value.value < TWO_64
    decreases |mem| - offset
  {
    hide Shl;
    var byte := ByteAt(mem, offset);
    if byte.Some? && byte.value >= 128 {
      ValueFits(shl, mem, offset + 1, shift + 7, (acc + Shl(shl, byte.value % 128, shift)) % TWO_64);
    }
  }

  ghost predicate AlwaysDecodesTo(v: int) {
    forall shl: Shifter, mem: Memory, offset: nat :: Holds(mem, offset, EncodeSleb(v)) ==>
      DecodesTo(shl, mem, offset, v)
  }

  /** Exactly the numbers from -2^62 on are read back whatever a too long shift gives. */
  lemma SlebExactly(v: int)
    requires -0x8000_0000_0000_0000 <= v < 0x8000_0000_0000_0000
    ensures AlwaysDecodesTo(v) <==> -0x4000_0000_0000_0000 <= v
  {
    hide DecodesTo;
    if -0x4000_0000_0000_0000 <= v {
      forall shl: Shifter, mem: Memory, offset: nat | Holds(mem, offset, EncodeSleb(v))
        ensures DecodesTo(shl, mem, offset, v)
      {
        SlebRoundTrip(shl, mem, offset, v);
      }
    } else {
      var bytes := EncodeSleb(v);
      var mem: Memory := seq(|bytes|, i requires 0 <= i < |bytes| => Some(bytes[i]));
      assert Holds(mem, 0, bytes);
      WrongBelow(mem, 0, v);
    }
  }

  class DwarfMemory {
    const mem: Memory
    const shl: Shifter
    var cur_offset: nat

    constructor (mem: Memory, shl: Shifter)
      ensures this.mem == mem && this.shl == shl && cur_offset == 0
    {
      this.mem, this.shl, cur_offset := mem, shl, 0;
    }

    method ReadByte() returns (byte: Option<Byte>)
      modifies this
      ensures byte == ByteAt(mem, old(cur_offset))
      ensures cur_offset == old(cur_offset) + if byte.Some? then 1 else 0
    {
      byte := ByteAt(mem, cur_offset);
      if byte.Some? { cur_offset := cur_offset + 1; }
    }

    method ReadULEB128() returns (value: Option<nat>)
      modifies this
      ensures var leb := Groups(shl, mem, old(cur_offset), 0, 0);
              if leb.Some? then value == Some(leb.value.value) && cur_offset == leb.value.next else value.None?
    {
      var cur_value: nat, shift, byte := 0, 0, Some(0x80 as Byte);
      while byte.value >= 128
        invariant byte.Some?
        invariant Groups(shl, mem, old(cur_offset), 0, 0) ==
                  if byte.value >= 128 then Groups(shl, mem, cur_offset, shift, cur_value)
                  else Some(Leb(cur_value, cur_offset, byte.value, shift))
        decreases byte.value >= 128, |mem| - cur_offset
      {
        byte := ReadByte();
        if byte.None? { return None; }
        cur_value := (cur_value + Shl(shl, byte.value % 128, shift)) % TWO_64;
        shift := shift + 7;
      }
      value := Some(cur_value);
    }

    method ReadSLEB128() returns (value: Option<int>)
      modifies this
      ensures var leb := Groups(shl, mem, old(cur_offset), 0, 0);
              if leb.Some? then value == Some(ToSigned(SignExtend(shl, leb.value))) && cur_offset == leb.value.next
              else value.None?
    {
      var cur_value: int, shift, byte := 0, 0, Some(0x80 as Byte);
      while byte.value >= 128
        invariant byte.Some? && cur_value >= 0
        invariant Groups(shl, mem, old(cur_offset), 0, 0) ==
                  if byte.value >= 128 then Groups(shl, mem, cur_offset, shift, cur_value)
                  else Some(Leb(cur_value, cur_offset, byte.value, shift))
        decreases byte.value >= 128, |mem| - cur_offset
      {
        byte := ReadByte();
        if byte.None? { return None; }
        cur_value := (cur_value + Shl(shl, byte.value % 128, shift)) % TWO_64;
        shift := shift + 7;
      }
      if byte.value >= 64 {
        cur_value := Bitwise(Or, cur_value, Shl(shl, TWO_64 - 1, shift));
      }
      value := Some(ToSigned(cur_value));
    }
  }
}
