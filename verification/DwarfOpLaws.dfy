/** Laws of the operations that the expression trees leave out: those on the stack, on signed numbers and on memory. */
module DwarfOpLaws {
  import opened Bits
  import opened DwarfMemory
  import opened DwarfOp
  import opened OrderedKeys

  /** An operation without operands, after another one. */
  function Then(env: Env, first: Outcome<Cpu>, h: Handler): Outcome<Cpu>
    requires env.Valid() && OperandsUsed(h) == 0
  {
    if first.Fail? then first
    else if SlotsUsed(h) > |first.value.stack| then Fail(StackIndexNotValid)
    else Handle(env, 0, h, first.value, [])
  }

  /** The operations that only move or copy the first three values. */
  function Shuffle(h: Handler, s: seq<nat>): seq<nat>
    requires |s| >= 3
  {
    match h
    case Dup => [s[0]] + s
    case Over => [s[1]] + s
    case Drop => s[1..]
    case Swap => [s[1], s[0]] + s[2..]
    case Rot => [s[1], s[2], s[0]] + s[3..]
    case _ => s
  }

  lemma Shuffles(env: Env, cpu: Cpu, h: Handler)
    requires env.Valid() && |cpu.stack| >= 3 && h in {Dup, Over, Drop, Swap, Rot}
    ensures Then(env, Ok(cpu), h) == Ok(cpu.(stack := Shuffle(h, cpu.stack)))
  {
    hide Env.Word, Env.Valid, Env.Signed, ReadRam, Apply, Negated, Branch, Reversed, PushReg, ReplaceByRam;
    if h == Drop {
      assert [] + cpu.stack[1..] == cpu.stack[1..];
    } else if h == Dup || h == Over {
      assert cpu.stack[0..] == cpu.stack;
    }
  }

  /** Two operations of which the second undoes the first, or two of three rotations. */
  predicate Undo(a: Handler, b: Handler) {
    (a in {Dup, Over} && b == Drop) || (a == b && a in {Swap, Rot})
  }

  lemma ShuffledBack(s: seq<nat>, a: Handler, b: Handler)
    requires |s| >= 3 && Undo(a, b)
    ensures |Shuffle(a, s)| >= 3 && (a != Rot ==> Shuffle(b, Shuffle(a, s)) == s)
    ensures a == Rot ==> |Shuffle(b, Shuffle(a, s))| >= 3 && Shuffle(b, Shuffle(b, Shuffle(a, s))) == s
  {
  }

  /** Dropping undoes duplicating and over, a swap undoes itself, and three rotations do nothing. */
  lemma StackOpsUndo(env: Env, cpu: Cpu, a: Handler, b: Handler)
    requires env.Valid() && |cpu.stack| >= 3 && Undo(a, b)
    ensures var r := Then(env, Then(env, Ok(cpu), a), b); (if a == Rot then Then(env, r, b) else r) == Ok(cpu)
  {
    hide Then, Shuffle, Env.Valid;
    ShuffledBack(cpu.stack, a, b);
    Shuffles(env, cpu, a);
    var once := cpu.(stack := Shuffle(a, cpu.stack));
    Shuffles(env, once, b);
    if a == Rot { Shuffles(env, once.(stack := Shuffle(b, once.stack)), b); }
  }

  /** Over, swap and rotation bring the second value to the front; the first one is next, or after it in a rotation. */
  lemma SecondComesFirst(env: Env, cpu: Cpu, h: Handler)
    requires env.Valid() && |cpu.stack| >= 3 && h in {Over, Swap, Rot}
    ensures var r := Then(env, Ok(cpu), h);
            && r.Ok? && |r.value.stack| >= 3 && r.value.stack[0] == cpu.stack[1]
            && r.value.stack[if h == Rot then 2 else 1] == cpu.stack[0]
  {
  }

  /**
   Division is signed and rounds toward zero: the remainder is smaller than the divisor
   and has the sign of the dividend.
   */
  lemma DivisionTruncates(env: Env, x: nat, top: nat) returns (q: int, r: int)
    requires env.Valid() && x < env.Word() && 0 < top < env.Word() && !(2 * x == env.Word() && top == env.Word() - 1)
    ensures Apply(env, Div, x, top) == Ok(q % env.Word()) && env.Signed(x) == q * env.Signed(top) + r
    ensures Magnitude(r) < Magnitude(env.Signed(top)) && (env.Signed(x) >= 0 ==> r >= 0)
            && (env.Signed(x) <= 0 ==> r <= 0)
  {
    hide TruncatedQuotient, Pow2;
    q, r := Truncates(env.Signed(x), env.Signed(top));
  }

  lemma Truncates(a: int, b: int) returns (q: int, r: int)
    requires b != 0
    ensures q == TruncatedQuotient(a, b) && a == q * b + r && Magnitude(r) < Magnitude(b) && (a >= 0 ==> r >= 0)
            && (a <= 0 ==> r <= 0)
  {
    hide TruncatedQuotient;
    q, r := QuotientOf(Magnitude(a), b);
    if a < 0 {
      NegatedProduct(q, b);
      q, r := -q, -r;
    }
  }

  lemma QuotientOf(a: int, b: int) returns (q: int, r: int)
    requires a >= 0 && b != 0
    ensures q == TruncatedQuotient(a, b) && -q == TruncatedQuotient(-a, b) && a == q * b + r && 0 <= r < Magnitude(b)
  {
    q, r := a / b, a % b;
    assert a == 0 ==> q == 0;
  }

  lemma NegatedProduct(q: int, b: int)
    ensures -q * b == -(q * b)
  {
  }

  /** The bytes of a number stand in memory. */
  ghost predicate InRam(ram: nat -> Option<Byte>, addr: nat, bytes: seq<Byte>) {
    forall i :: 0 <= i < |bytes| ==> ram(addr + i) == Some(bytes[i])
  }

  lemma {:induction false} RamReads(ram: nat -> Option<Byte>, addr: nat, bytes: seq<Byte>)
    requires InRam(ram, addr, bytes)
    ensures ReadRam(ram, addr, |bytes|) == Some(ValueOf(bytes))
    decreases |bytes|
  {
    if bytes != [] {
      assert ram(addr + 0) == Some(bytes[0]);
      forall i | 0 <= i < |bytes| - 1
        ensures ram(addr + 1 + i) == Some(bytes[1..][i])
      {
        assert ram(addr + (i + 1)) == Some(bytes[i + 1]);
      }
      RamReads(ram, addr + 1, bytes[1..]);
    }
  }

  /** Dereferencing an address gives the word that stands there, in little-endian order. */
  lemma DerefReads(env: Env, cpu: Cpu, v: nat)
    requires env.Valid() && cpu.stack != [] && v < env.Word() && InRam(env.ram, cpu.stack[0], Bytes(env.bits / 8, v))
    ensures Handle(env, 0x06, Deref, cpu, []) == Ok(cpu.(stack := [v] + cpu.stack[1..]))
  {
    hide ReadRam, Pow2, Bytes, ValueOf;
    var size, bytes := env.bits / 8, Bytes(env.bits / 8, v);
    assert env.Word() == Pow2(8 * size);
    BytesAre(size, v);
    RamReads(env.ram, cpu.stack[0], bytes);
    RemainderIs(v, env.Word(), 0, v);
    hide Env.Valid, Env.Word;
    HandleDeref(env, cpu, v);
  }

  lemma HandleDeref(env: Env, cpu: Cpu, v: nat)
    requires env.Valid() && cpu.stack != [] && ReadRam(env.ram, cpu.stack[0], env.bits / 8) == Some(v)
             && v % env.Word() == v
    ensures Handle(env, 0x06, Deref, cpu, []) == Ok(cpu.(stack := [v] + cpu.stack[1..]))
  {
    hide ReadRam, Env.Word;
  }
}
