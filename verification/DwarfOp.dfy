/**
 The expressions of section 2.5 of DWARF version 4, run on a stack of words.
 The front of the sequence is the top of the stack.
 */
module DwarfOp {
  import opened Bits
  import opened DwarfMemory
  import opened OrderedKeys
  import opened WordSizes

  datatype Encoding = AbsPtr | Uleb | Sleb | Udata(size: nat) | Sdata(size: nat)

  datatype BinaryOp =
    | Bit(op: BitOp) | Plus | Minus | Mul | Div | Mod | Shl | Shr | Shra
    | Eq | Ge | Gt | Le | Lt | Ne

  datatype Handler =
    | Illegal | NotImplemented | Nop | Push | Lit | Reg | Regx | Breg | Bregx
    | Dup | Drop | Over | Pick | Swap | Rot | Deref | DerefSize
    | Abs | Neg | Not | PlusUconst | Binary(op: BinaryOp) | Bra | Skip

  /** What the table says of an operation. */
  datatype Callback = Callback(handler: Handler, required: nat, operands: seq<Encoding>)

  datatype Error =
    | MemoryInvalid | IllegalValue | IllegalState | StackIndexNotValid | NoHandler | TooManyIterations | CfaNotDefined

  datatype Outcome<+T> = Ok(value: T) | Fail(error: Error)

  /**
   Where an expression is evaluated.  `undef` is what an operation gives where
   C++ leaves the result open.
   */
  datatype Env = Env(bits: nat, code: Memory, ram: nat -> Option<Byte>, regs: seq<nat>,
                     shl: Shifter, undef: (Handler, nat, nat) -> nat) {

    predicate Valid() {
      (bits == 32 || bits == 64) && |code| < TWO_64 && forall i :: 0 <= i < |regs| ==> regs[i] < Word()
    }

    /** One more than the largest address. */
    function Word(): (w: nat)
      ensures w >= 1
    {
      Pow2(bits)
    }

    function Signed(x: int): int {
      if 2 * x < Word() then x else x - Word()
    }
  }

  datatype Cpu = Cpu(offset: nat, stack: seq<nat>, is_register: bool)

  function TableEntry(op: Byte): Callback {
    if op == 0x03 then Callback(Push, 0, [AbsPtr])
    else if op == 0x06 then Callback(Deref, 1, [])
    else if op == 0x08 then Callback(Push, 0, [Udata(1)])
    else if op == 0x09 then Callback(Push, 0, [Sdata(1)])
    else if op == 0x0a then Callback(Push, 0, [Udata(2)])
    else if op == 0x0b then Callback(Push, 0, [Sdata(2)])
    else if op == 0x0c then Callback(Push, 0, [Udata(4)])
    else if op == 0x0d then Callback(Push, 0, [Sdata(4)])
    else if op == 0x0e then Callback(Push, 0, [Udata(8)])
    else if op == 0x0f then Callback(Push, 0, [Sdata(8)])
    else if op == 0x10 then Callback(Push, 0, [Uleb])
    else if op == 0x11 then Callback(Push, 0, [Sleb])
    else if op == 0x12 then Callback(Dup, 1, [])
    else if op == 0x13 then Callback(Drop, 1, [])
    else if op == 0x14 then Callback(Over, 2, [])
    else if op == 0x15 then Callback(Pick, 0, [Udata(1)])
    else if op == 0x16 then Callback(Swap, 2, [])
    else if op == 0x17 then Callback(Rot, 3, [])
    else if op == 0x18 then Callback(NotImplemented, 2, [])
    else if op == 0x19 then Callback(Abs, 1, [])
    else if op == 0x1a then Callback(Binary(Bit(And)), 2, [])
    else if op == 0x1b then Callback(Binary(Div), 2, [])
    else if op == 0x1c then Callback(Binary(Minus), 2, [])
    else if op == 0x1d then Callback(Binary(Mod), 2, [])
    else if op == 0x1e then Callback(Binary(Mul), 2, [])
    else if op == 0x1f then Callback(Neg, 1, [])
    else if op == 0x20 then Callback(Not, 1, [])
    else if op == 0x21 then Callback(Binary(Bit(Or)), 2, [])
    else if op == 0x22 then Callback(Binary(Plus), 2, [])
    else if op == 0x23 then Callback(PlusUconst, 1, [Uleb])
    else if op == 0x24 then Callback(Binary(Shl), 2, [])
    else if op == 0x25 then Callback(Binary(Shr), 2, [])
    else if op == 0x26 then Callback(Binary(Shra), 2, [])
    else if op == 0x27 then Callback(Binary(Bit(Xor)), 2, [])
    else if op == 0x28 then Callback(Bra, 1, [Sdata(2)])
    else if op == 0x29 then Callback(Binary(Eq), 2, [])
    else if op == 0x2a then Callback(Binary(Ge), 2, [])
    else if op == 0x2b then Callback(Binary(Gt), 2, [])
    else if op == 0x2c then Callback(Binary(Le), 2, [])
    else if op == 0x2d then Callback(Binary(Lt), 2, [])
    else if op == 0x2e then Callback(Binary(Ne), 2, [])
    else if op == 0x2f then Callback(Skip, 0, [Sdata(2)])
    else if 0x30 <= op < 0x50 then Callback(Lit, 0, [])
    else if 0x50 <= op < 0x70 then Callback(Reg, 0, [])
    else if 0x70 <= op < 0x90 then Callback(Breg, 0, [Sleb])
    else if op == 0x90 then Callback(Regx, 0, [Uleb])
    else if op == 0x91 then Callback(NotImplemented, 0, [Sleb])
    else if op == 0x92 then Callback(Bregx, 0, [Uleb, Sleb])
    else if op == 0x93 then Callback(NotImplemented, 0, [Uleb])
    else if op == 0x94 then Callback(DerefSize, 1, [Udata(1)])
    else if op == 0x95 then Callback(NotImplemented, 0, [Udata(1)])
    else if op == 0x96 then Callback(Nop, 0, [])
    else if op == 0x97 then Callback(NotImplemented, 0, [])
    else if op == 0x98 then Callback(NotImplemented, 0, [Udata(2)])
    else if op == 0x99 then Callback(NotImplemented, 0, [Udata(4)])
    else if 0x9a <= op <= 0x9c then Callback(NotImplemented, 0, [])
    else if op == 0x9d then Callback(NotImplemented, 0, [Uleb, Uleb])
    else if op == 0x9e then Callback(NotImplemented, 0, [Uleb])
    else if op == 0x9f then Callback(NotImplemented, 1, [])
    else Callback(Illegal, 0, [])
  }

  // ----- what the handlers look at

  /** How many stack slots a handler looks at without checking. */
  function SlotsUsed(h: Handler): nat {
    match h
    case Dup | Drop | Deref | DerefSize | Abs | Neg | Not | PlusUconst | Bra => 1
    case Over | Swap | Binary(_) => 2
    case Rot => 3
    case _ => 0
  }

  /** How many operands a handler looks at. */
  function OperandsUsed(h: Handler): nat {
    match h
    case Pick | DerefSize | PlusUconst | Bra | Skip | Regx | Breg => 1
    case Bregx => 2
    case _ => 0
  }

  /** The table asks for every stack slot and operand that the handler will look at, and pushes one operand at most. */
  lemma TableIsSafe(op: Byte)
    ensures var c := TableEntry(op);
            && SlotsUsed(c.handler) <= c.required && OperandsUsed(c.handler) <= |c.operands| <= 2
            && (c.handler == Push ==> |c.operands| == 1)
  {
  }

  // ----- reading operands

  function LittleEndian(mem: Memory, offset: nat, size: nat): Option<nat>
    decreases size
  {
    if size == 0 then Some(0)
    else
      var low, high := ByteAt(mem, offset), LittleEndian(mem, offset + 1, size - 1);
      if low.Some? && high.Some? then Some(low.value + 256 * high.value) else None
  }

  function SignExtended(v: nat, size: nat): int {
    if 2 * v < Pow2(8 * size) then v else v - Pow2(8 * size)
  }

  /** An operand as the source's 64-bit value, and the offset after it. */
  function ReadEncoded(env: Env, e: Encoding, offset: nat): Option<(int, nat)> {
    match e
    case Uleb =>
      var leb := Groups(env.shl, env.code, offset, 0, 0);
      if leb.None? then None else Some((leb.value.value, leb.value.next))
    case Sleb =>
      var leb := Groups(env.shl, env.code, offset, 0, 0);
      if leb.None? then None else Some((ToSigned(SignExtend(env.shl, leb.value)), leb.value.next))
    case AbsPtr =>
      var v := LittleEndian(env.code, offset, env.bits / 8);
      if v.None? then None else Some((v.value, offset + env.bits / 8))
    case Udata(size) =>
      var v := LittleEndian(env.code, offset, size);
      if v.None? then None else Some((v.value, offset + size))
    case Sdata(size) =>
      var v := LittleEndian(env.code, offset, size);
      if v.None? then None else Some((SignExtended(v.value, size), offset + size))
  }

  /** The operands, cut to the width of an address, and the offset after them. */
  function ReadOperands(env: Env, es: seq<Encoding>, offset: nat): Option<(seq<nat>, nat)> {
    if es == [] then Some(([], offset))
    else
      var first := ReadEncoded(env, es[0], offset);
      if first.None? then None
      else
        var rest := ReadOperands(env, es[1..], first.value.1);
        if rest.None? then None
        else Some(([first.value.0 % env.Word()] + rest.value.0, rest.value.1))
  }

  // ----- the handlers

  function TruncatedQuotient(a: int, b: int): int {
    if b == 0 then 0 else if a >= 0 then a / b else -((-a) / b)
  }

  function FromBool(b: bool): nat {
    if b then 1 else 0
  }

  /** The operation on the two values at the top, of which `top` is the first. */
  function Apply(env: Env, op: BinaryOp, x: nat, top: nat): Outcome<nat>
    requires env.Valid()
  {
    var w := env.Word();
    match op
    case Bit(b) => Ok(Bitwise(b, x, top) % w)
    case Plus => Ok((x + top) % w)
    case Minus => Ok((x - top) % w)
    case Mul => Ok((x * top) % w)
    case Div =>
      if top == 0 then Fail(IllegalValue)
      else if 2 * x == w && top == w - 1 then Ok(env.undef(Binary(op), x, top) % w)
      else Ok(TruncatedQuotient(env.Signed(x), env.Signed(top)) % w)
    case Mod => if top == 0 then Fail(IllegalValue) else Ok(x % top)
    case Shl => Ok((if top < env.bits then x * Pow2(top) else env.undef(Binary(op), x, top)) % w)
    case Shr => Ok((if top < env.bits then x / Pow2(top) else env.undef(Binary(op), x, top)) % w)
    case Shra => Ok((if top < env.bits then env.Signed(x) / Pow2(top) else env.undef(Binary(op), x, top)) % w)
    case Eq => Ok(FromBool(x == top))
    case Ge => Ok(FromBool(x >= top))
    case Gt => Ok(FromBool(x > top))
    case Le => Ok(FromBool(x <= top))
    case Lt => Ok(FromBool(x < top))
    case Ne => Ok(FromBool(x != top))
  }

  function Negated(env: Env, h: Handler, x: nat): (r: nat)
    ensures r < env.Word()
  {
    (if 2 * x == env.Word() then env.undef(h, x, 0) else -env.Signed(x)) % env.Word()
  }

  function ReadRam(ram: nat -> Option<Byte>, addr: nat, size: nat): Option<nat>
    decreases size
  {
    if size == 0 then Some(0)
    else
      var low, high := ram(addr), ReadRam(ram, addr + 1, size - 1);
      if low.Some? && high.Some? then Some(low.value + 256 * high.value) else None
  }

  ghost predicate AllBelow(s: seq<nat>, bound: nat) {
    forall i :: 0 <= i < |s| ==> s[i] < bound
  }

  /** The values take the place of the first `k`. */
  function Put(cpu: Cpu, k: nat, values: seq<nat>): (r: Cpu)
    requires k <= |cpu.stack|
    ensures |r.stack| == |values| + |cpu.stack| - k
    ensures forall bound :: AllBelow(values, bound) && AllBelow(cpu.stack, bound) ==> AllBelow(r.stack, bound)
  {
    cpu.(stack := values + cpu.stack[k..])
  }

  function ReplaceByRam(env: Env, cpu: Cpu, size: nat): Outcome<Cpu>
    requires cpu.stack != []
  {
    match ReadRam(env.ram, cpu.stack[0], size)
    case None => Fail(MemoryInvalid)
    case Some(v) => Ok(Put(cpu, 1, [v % env.Word()]))
  }

  function PushReg(env: Env, cpu: Cpu, reg: nat, displacement: nat): Outcome<Cpu> {
    if reg >= |env.regs| then Fail(IllegalValue)
    else Ok(Put(cpu, 0, [(env.regs[reg] + displacement) % env.Word()]))
  }

  function Branch(cpu: Cpu, displacement: nat): Cpu {
    var d := displacement % 0x1_0000;
    cpu.(offset := (cpu.offset + if d < 0x8000 then d else d - 0x1_0000) % TWO_64)
  }

  function Reversed(s: seq<nat>): seq<nat> {
    if s == [] then [] else Reversed(s[1..]) + [s[0]]
  }

  function Handle(env: Env, op: Byte, h: Handler, cpu: Cpu, operands: seq<nat>): Outcome<Cpu>
    requires env.Valid() && SlotsUsed(h) <= |cpu.stack| && OperandsUsed(h) <= |operands|
  {
    var s := cpu.stack;
    match h
    case Illegal => Fail(IllegalValue)
    case NotImplemented => Fail(NoHandler)
    case Nop => Ok(cpu)
    case Push => Ok(Put(cpu, 0, Reversed(operands)))
    case Lit => Ok(Put(cpu, 0, [(op - 0x30) % env.Word()]))
    case Reg => Ok(Put(cpu, 0, [(op - 0x50) % env.Word()]).(is_register := true))
    case Regx => Ok(Put(cpu, 0, [operands[0]]).(is_register := true))
    case Breg => PushReg(env, cpu, (op - 0x70) % 0x1_0000, operands[0])
    case Bregx => PushReg(env, cpu, operands[0], operands[1])
    case Dup => Ok(Put(cpu, 0, [s[0]]))
    case Drop => Ok(Put(cpu, 1, []))
    case Over => Ok(Put(cpu, 0, [s[1]]))
    case Pick => if operands[0] >= |s| then Fail(StackIndexNotValid) else Ok(Put(cpu, 0, [s[operands[0]]]))
    case Swap => Ok(Put(cpu, 2, [s[1], s[0]]))
    case Rot => Ok(Put(cpu, 3, [s[1], s[2], s[0]]))
    case Deref => ReplaceByRam(env, cpu, env.bits / 8)
    case DerefSize => if operands[0] > env.bits / 8 || operands[0] == 0 then Fail(IllegalValue)
                      else ReplaceByRam(env, cpu, operands[0])
    case Abs => Ok(Put(cpu, 1, [if env.Signed(s[0]) < 0 then Negated(env, Abs, s[0]) else s[0]]))
    case Neg => Ok(Put(cpu, 1, [Negated(env, Neg, s[0])]))
    case Not => Ok(Put(cpu, 1, [(env.Word() - 1 - s[0]) % env.Word()]))
    case PlusUconst => Ok(Put(cpu, 1, [(s[0] + operands[0]) % env.Word()]))
    case Binary(b) =>
      var r := Apply(env, b, s[1], s[0]);
      if r.Fail? then Fail(r.error) else Ok(Put(cpu, 2, [r.value]))
    case Bra =>
      var popped := Put(cpu, 1, []);
      Ok(if s[0] == 0 then popped else Branch(popped, operands[0]))
    case Skip => Ok(Branch(cpu, operands[0]))
  }

  /** What is read of the next operation. */
  datatype Fetched = Fetched(op: Byte, operands: seq<nat>, next: nat)

  function Fetch(env: Env, cpu: Cpu): Outcome<Fetched>
    requires env.Valid()
  {
    match ByteAt(env.code, cpu.offset)
    case None => Fail(MemoryInvalid)
    case Some(op) =>
      var c := TableEntry(op);
      if c.handler == Illegal then Fail(IllegalValue)
      else if |cpu.stack| < c.required then Fail(StackIndexNotValid)
      else
        var operands := ReadOperands(env, c.operands, cpu.offset + 1);
        if operands.None? then Fail(MemoryInvalid) else Ok(Fetched(op, operands.value.0, operands.value.1))
  }

  lemma {:induction false} OperandCount(env: Env, es: seq<Encoding>, offset: nat)
    ensures var r := ReadOperands(env, es, offset); r.Some? ==> |r.value.0| == |es|
  {
    if es != [] {
      var first := ReadEncoded(env, es[0], offset);
      if first.Some? { OperandCount(env, es[1..], first.value.1); }
    }
  }

  /** One operation.  No handler is given fewer stack slots or operands than it looks at. */
  function Performed(env: Env, cpu: Cpu): Outcome<Cpu>
    requires env.Valid()
  {
    var f := Fetch(env, cpu);
    if f.Fail? then Fail(f.error)
    else
      var c := TableEntry(f.value.op);
      OperandCount(env, c.operands, cpu.offset + 1);
      TableIsSafe(f.value.op);
      Handle(env, f.value.op, c.handler, cpu.(offset := f.value.next), f.value.operands)
  }

  /** How many values a handler has popped when it fails. */
  function PopsOnFailure(bits: nat, h: Handler, operands: seq<nat>): (n: nat)
    ensures n <= SlotsUsed(h)
  {
    match h
    case Deref => 1
    case DerefSize => if operands != [] && 1 <= operands[0] <= bits / 8 then 1 else 0
    case Binary(b) => if b == Div || b == Mod then 1 else 0
    case _ => 0
  }

  /** The stack that is left when the next operation fails. */
  function LeftOver(env: Env, cpu: Cpu): (s: seq<nat>)
    requires env.Valid()
    ensures |s| <= |cpu.stack|
  {
    var f := Fetch(env, cpu);
    if f.Fail? then cpu.stack
    else
      TableIsSafe(f.value.op);
      cpu.stack[PopsOnFailure(env.bits, TableEntry(f.value.op).handler, f.value.operands)..]
  }

  lemma LeftOverWords(env: Env, cpu: Cpu)
    requires env.Valid() && Words(env, cpu.stack)
    ensures Words(env, LeftOver(env, cpu))
  {
    hide TableEntry, PopsOnFailure, Env.Word, ReadOperands;
    var f := Fetch(env, cpu);
    if f.Ok? {
      TableIsSafe(f.value.op);
      var n := PopsOnFailure(env.bits, TableEntry(f.value.op).handler, f.value.operands);
      SuffixWords(env, cpu.stack, n);
    }
  }

  /** The whole evaluation, after `count` operations. */
  function Run(env: Env, cpu: Cpu, end: nat, count: nat): Outcome<Cpu>
    requires env.Valid() && count <= 1000
    decreases 1000 - count
  {
    if cpu.offset >= end then Ok(cpu)
    else
      var next := Performed(env, cpu);
      if next.Fail? then next
      else if count == 1000 then Fail(TooManyIterations)
      else Run(env, next.value, end, count + 1)
  }

  // ----- bounds

  ghost predicate Words(env: Env, s: seq<nat>) {
    AllBelow(s, env.Word())
  }

  lemma SuffixWords(env: Env, s: seq<nat>, n: nat)
    requires Words(env, s) && n <= |s|
    ensures Words(env, s[n..])
  {
  }

  lemma {:induction false} OperandsAreWords(env: Env, es: seq<Encoding>, offset: nat)
    ensures var r := ReadOperands(env, es, offset); r.Some? ==> Words(env, r.value.0)
  {
    if es != [] {
      var first := ReadEncoded(env, es[0], offset);
      if first.Some? { OperandsAreWords(env, es[1..], first.value.1); }
    }
  }

  lemma ApplyGivesWord(env: Env, op: BinaryOp, x: nat, top: nat)
    requires env.Valid() && x < env.Word() && top < env.Word()
    ensures var r := Apply(env, op, x, top); r.Ok? ==> r.value < env.Word()
  {
    hide Bitwise, Pow2, TruncatedQuotient;
    Pow2Known();
    if op == Mod && top != 0 { assert x % top < top; }
  }

  lemma BranchKeepsStack(cpu: Cpu, displacement: nat)
    ensures Branch(cpu, displacement).stack == cpu.stack
  {
  }

  /** An operation adds one value at most, and leaves words on the stack. */
  lemma HandleKeepsWords(env: Env, op: Byte, h: Handler, cpu: Cpu, operands: seq<nat>)
    requires env.Valid() && SlotsUsed(h) <= |cpu.stack| && OperandsUsed(h) <= |operands|
    requires Words(env, cpu.stack) && Words(env, operands) && (h == Push ==> |operands| == 1)
    ensures var r := Handle(env, op, h, cpu, operands);
            r.Ok? ==> |r.value.stack| <= |cpu.stack| + 1 && Words(env, r.value.stack)
  {
    hide Env.Word, Env.Signed, ReadRam, Apply, Negated, Branch, Put;
    match h
    case Skip => BranchKeepsStack(cpu, operands[0]);
    case Bra => BranchKeepsStack(Put(cpu, 1, []), operands[0]);
    case Binary(op) => ApplyGivesWord(env, op, cpu.stack[1], cpu.stack[0]);
    case Push => assert Reversed(operands) == operands;
    case _ =>
  }

  lemma PerformedKeepsWords(env: Env, cpu: Cpu)
    requires env.Valid() && Words(env, cpu.stack)
    ensures var r := Performed(env, cpu); r.Ok? ==> |r.value.stack| <= |cpu.stack| + 1 && Words(env, r.value.stack)
  {
    hide Words, TableEntry, Handle, ReadOperands;
    var f := Fetch(env, cpu);
    if f.Ok? {
      var c := TableEntry(f.value.op);
      OperandCount(env, c.operands, cpu.offset + 1);
      OperandsAreWords(env, c.operands, cpu.offset + 1);
      TableIsSafe(f.value.op);
      HandleKeepsWords(env, f.value.op, c.handler, cpu.(offset := f.value.next), f.value.operands);
    }
  }

  // ----- evaluation

  /** The operations that mark the dex pc: a four-byte constant, DEX1, that is dropped again. */
  const DexPattern: seq<Byte> := [0x0c, 0x44, 0x45, 0x58, 0x31, 0x13]

  /** The operations before `end` start with the pattern. */
  ghost predicate MarksDexPc(env: Env, start: nat, end: nat) {
    start + 5 < end && Holds(env.code, start, DexPattern)
  }

  /** The first operation has pushed the constant of the pattern. */
  predicate PushedMark(f: Fetched) {
    f.op == 0x0c && f.operands != [] && f.operands[|f.operands| - 1] == 0x31584544
  }

  lemma {:induction false} LittleEndianIs(mem: Memory, offset: nat, bytes: seq<Byte>)
    ensures LittleEndian(mem, offset, |bytes|) == Some(ValueOf(bytes)) <==> Holds(mem, offset, bytes)
    decreases |bytes|
  {
    if bytes != [] {
      var rest := bytes[1..];
      LittleEndianIs(mem, offset + 1, rest);
      HoldsFirst(mem, offset, bytes);
      FirstDigit(ByteAt(mem, offset), LittleEndian(mem, offset + 1, |rest|), bytes[0], ValueOf(rest));
    }
  }

  lemma FirstDigit(low: Option<Byte>, high: Option<nat>, b: Byte, v: nat)
    ensures (low.Some? && high.Some? && low.value + 256 * high.value == b + 256 * v) <==>
            (low == Some(b) && high == Some(v))
  {
  }

  lemma HoldsFirst(mem: Memory, offset: nat, bytes: seq<Byte>)
    requires bytes != []
    ensures Holds(mem, offset, bytes) <==> ByteAt(mem, offset) == Some(bytes[0]) && Holds(mem, offset + 1, bytes[1..])
  {
    if Holds(mem, offset, bytes) {
      assert bytes == [bytes[0]] + bytes[1..];
      HoldsRest(mem, offset, bytes[0], bytes[1..]);
    }
    if ByteAt(mem, offset) == Some(bytes[0]) && Holds(mem, offset + 1, bytes[1..]) {
      forall i | 0 <= i < |bytes|
        ensures ByteAt(mem, offset + i) == Some(bytes[i])
      {
        if i > 0 { assert ByteAt(mem, offset + 1 + (i - 1)) == Some(bytes[1..][i - 1]); }
      }
    }
  }

  lemma {:induction false} LittleEndianFits(mem: Memory, offset: nat, size: nat)
    ensures var v := LittleEndian(mem, offset, size); v.Some? ==> v.value < Pow2(8 * size)
    decreases size
  {
    if size > 0 {
      LittleEndianFits(mem, offset + 1, size - 1);
      Pow2Byte(8 * (size - 1));
    }
  }

  lemma OneOperand(env: Env, e: Encoding, offset: nat)
    ensures var v := ReadEncoded(env, e, offset);
            ReadOperands(env, [e], offset) == if v.None? then None else Some(([v.value.0 % env.Word()], v.value.1))
  {
    hide ReadEncoded, Env.Word;
    var v := ReadEncoded(env, e, offset);
    assert [e][1..] == [];
    if v.Some? {
      var x := v.value.0 % env.Word();
      assert ReadOperands(env, [], v.value.1) == Some(([], v.value.1)) && [x] + [] == [x];
    }
  }

  /** A constant is pushed, cut to the width of an address. */
  lemma Pushes(env: Env, cpu: Cpu, op: Byte, e: Encoding, v: int, next: nat)
    requires env.Valid() && ByteAt(env.code, cpu.offset) == Some(op) && TableEntry(op) == Callback(Push, 0, [e])
    requires ReadEncoded(env, e, cpu.offset + 1) == Some((v, next))
    ensures Fetch(env, cpu) == Ok(Fetched(op, [v % env.Word()], next))
    ensures Performed(env, cpu) == Ok(cpu.(offset := next, stack := [v % env.Word()] + cpu.stack))
  {
    hide TableEntry, ReadEncoded, ReadOperands, Env.Word, Handle;
    OneOperand(env, e, cpu.offset + 1);
    HandlePush(env, op, cpu.(offset := next), v % env.Word());
  }

  lemma HandlePush(env: Env, op: Byte, cpu: Cpu, x: nat)
    requires env.Valid()
    ensures Handle(env, op, Push, cpu, [x]) == Ok(cpu.(stack := [x] + cpu.stack))
  {
    assert Reversed([x]) == [x];
  }

  /** The first operation is seen to push the mark exactly if it is the start of the pattern. */
  lemma FirstMark(env: Env, start: nat)
    requires env.Valid()
    ensures var f := Fetch(env, Cpu(start, [], false));
            f.Ok? && PushedMark(f.value) <==> Holds(env.code, start, DexPattern[..5])
    ensures Holds(env.code, start, DexPattern[..5]) ==>
              Performed(env, Cpu(start, [], false)) == Ok(Cpu(start + 5, [0x31584544], false))
  {
    hide Fetch, Performed, PushedMark, LittleEndian;
    var bytes: seq<Byte> := [0x44, 0x45, 0x58, 0x31];
    assert DexPattern[..5] == [0x0c] + bytes && DexPattern[..5][1..] == bytes;
    HoldsFirst(env.code, start, DexPattern[..5]);
    LittleEndianIs(env.code, start + 1, bytes);
    LittleEndianFits(env.code, start + 1, 4);
    assert ValueOf(bytes) == 0x31584544 by { MarkValue(); }
    Pow2Known();
    ConstantSeen(env, start);
  }

  lemma ConstantSeen(env: Env, start: nat)
    requires env.Valid() && env.Word() >= TWO_32
    requires var v := LittleEndian(env.code, start + 1, 4); v.Some? ==> v.value < TWO_32
    ensures var f := Fetch(env, Cpu(start, [], false));
            f.Ok? && PushedMark(f.value) <==>
            ByteAt(env.code, start) == Some(0x0c) && LittleEndian(env.code, start + 1, 4) == Some(0x31584544)
    ensures ByteAt(env.code, start) == Some(0x0c) && LittleEndian(env.code, start + 1, 4) == Some(0x31584544) ==>
              Performed(env, Cpu(start, [], false)) == Ok(Cpu(start + 5, [0x31584544], false))
  {
    hide LittleEndian, ReadOperands, Env.Word, Handle;
    var cpu, v := Cpu(start, [], false), LittleEndian(env.code, start + 1, 4);
    if ByteAt(env.code, start) == Some(0x0c) {
      OneOperand(env, Udata(4), start + 1);
      if v.Some? {
        Pushes(env, cpu, 0x0c, Udata(4), v.value, start + 5);
        assert [v.value] + [] == [v.value];
      }
    }
  }

  lemma MarkValue()
    ensures ValueOf([0x44, 0x45, 0x58, 0x31]) == 0x31584544
  {
    assert [0x44, 0x45, 0x58, 0x31][1..] == [0x45, 0x58, 0x31];
    assert [0x45, 0x58, 0x31][1..] == [0x58, 0x31];
    assert [0x58, 0x31][1..] == [0x31];
  }

  lemma NoWords(env: Env)
    ensures Words(env, [])
  {
  }

  /** How the pattern shows in the first two operations. */
  lemma MarkSeen(env: Env, start: nat, end: nat)
    requires env.Valid()
    ensures var c0 := Cpu(start, [], false);
            MarksDexPc(env, start, end) <==>
            && start < end && Performed(env, c0).Ok? && Fetch(env, c0).Ok? && PushedMark(Fetch(env, c0).value)
            && var c1 := Performed(env, c0).value;
               c1.offset < end && Performed(env, c1).Ok? && Fetch(env, c1).Ok? && Fetch(env, c1).value.op == 0x13
  {
    hide Performed, Fetch, Holds, PushedMark, Env.Valid;
    FirstMark(env, start);
    PatternSplit(env.code, start);
    DropSeen(env, Cpu(start + 5, [0x31584544], false));
  }

  lemma PatternSplit(mem: Memory, start: nat)
    ensures Holds(mem, start, DexPattern) <==>
            Holds(mem, start, DexPattern[..5]) && ByteAt(mem, start + 5) == Some(0x13)
  {
    if Holds(mem, start, DexPattern[..5]) && ByteAt(mem, start + 5) == Some(0x13) {
      forall i | 0 <= i < |DexPattern|
        ensures ByteAt(mem, start + i) == Some(DexPattern[i])
      {
        if i < 5 { assert DexPattern[..5][i] == DexPattern[i]; }
      }
    }
    if Holds(mem, start, DexPattern) {
      forall i | 0 <= i < 5
        ensures ByteAt(mem, start + i) == Some(DexPattern[..5][i])
      {
        assert DexPattern[..5][i] == DexPattern[i];
      }
      assert ByteAt(mem, start + 5) == Some(DexPattern[5]);
    }
  }

  lemma DropSeen(env: Env, cpu: Cpu)
    requires env.Valid() && cpu.stack != []
    ensures ByteAt(env.code, cpu.offset) == Some(0x13) <==>
            Performed(env, cpu).Ok? && Fetch(env, cpu).Ok? && Fetch(env, cpu).value.op == 0x13
  {
  }

  function AfterFirst(first: seq<nat>, rest: Option<(seq<nat>, nat)>): Option<(seq<nat>, nat)> {
    if rest.None? then None else Some((first + rest.value.0, rest.value.1))
  }

  lemma NoneRead(env: Env, es: seq<Encoding>, offset: nat)
    ensures ReadOperands(env, es, offset) == AfterFirst([], ReadOperands(env, es[0..], offset))
  {
    assert es[0..] == es;
    var r := ReadOperands(env, es, offset);
    if r.Some? { assert [] + r.value.0 == r.value.0; }
  }

  lemma ReadOne(env: Env, es: seq<Encoding>, i: nat, first: seq<nat>, offset: nat)
    requires i < |es|
    ensures var v := ReadEncoded(env, es[i], offset);
            AfterFirst(first, ReadOperands(env, es[i..], offset)) ==
            if v.None? then None
            else AfterFirst(first + [v.value.0 % env.Word()], ReadOperands(env, es[i + 1..], v.value.1))
  {
    hide ReadEncoded, Env.Word;
    var v := ReadEncoded(env, es[i], offset);
    assert es[i..][0] == es[i] && es[i..][1..] == es[i + 1..];
    if v.Some? {
      var x, rest := v.value.0 % env.Word(), ReadOperands(env, es[i + 1..], v.value.1);
      if rest.Some? { assert first + ([x] + rest.value.0) == first + [x] + rest.value.0; }
    }
  }

  lemma AllRead(env: Env, es: seq<Encoding>, first: seq<nat>, offset: nat)
    ensures AfterFirst(first, ReadOperands(env, es[|es|..], offset)) == Some((first, offset))
  {
    assert es[|es|..] == [] && first + [] == first;
  }

  class DwarfOp {
    const env: Env
    var cur_offset: nat
    var cur_op: Byte
    var operands: seq<nat>
    var stack: seq<nat>
    var is_register: bool
    var dex_pc_set: bool
    var last_error: Option<Error>

    constructor (env: Env)
      ensures this.env == env
    {
      this.env := env;
      cur_offset, cur_op, operands, stack, is_register, dex_pc_set, last_error := 0, 0, [], [], false, false, None;
    }

    ghost function State(): Cpu
      reads this
    {
      Cpu(cur_offset, stack, is_register)
    }

    method ReadAll(es: seq<Encoding>) returns (ok: bool)
      requires env.Valid()
      modifies `cur_offset, `operands
      ensures var r := ReadOperands(env, es, old(cur_offset));
              if r.Some? then ok && operands == r.value.0 && cur_offset == r.value.1 else !ok
    {
      hide ReadOperands, ReadEncoded, Env.Word;
      operands := [];
      NoneRead(env, es, cur_offset);
      for i := 0 to |es|
        invariant ReadOperands(env, es, old(cur_offset)) == AfterFirst(operands, ReadOperands(env, es[i..], cur_offset))
      {
        var value := ReadEncoded(env, es[i], cur_offset);
        ReadOne(env, es, i, operands, cur_offset);
        if value.None? { return false; }
        operands := operands + [value.value.0 % env.Word()];
        cur_offset := value.value.1;
      }
      AllRead(env, es, operands, cur_offset);
      return true;
    }

    /** Reads and performs one operation. */
    method Decode() returns (ok: bool)
      requires env.Valid()
      modifies this
      ensures dex_pc_set == old(dex_pc_set) && ok == Performed(env, old(State())).Ok?
      ensures ok ==> State() == Performed(env, old(State())).value && last_error.None?
      ensures ok ==> var f := Fetch(env, old(State())); f.Ok? && Fetched(cur_op, operands, f.value.next) == f.value
      ensures !ok ==> last_error == Some(Performed(env, old(State())).error) && stack == LeftOver(env, old(State()))
    {
      hide Handle, TableEntry, ReadOperands, Env.Word;
      last_error := None;
      var byte := ByteAt(env.code, cur_offset);
      if byte.None? {
        last_error := Some(MemoryInvalid);
        return false;
      }
      cur_op, cur_offset := byte.value, cur_offset + 1;
      var entry := TableEntry(cur_op);
      if entry.handler == Illegal {
        last_error := Some(IllegalValue);
        return false;
      }
      if |stack| < entry.required {
        last_error := Some(StackIndexNotValid);
        return false;
      }
      var read := ReadAll(entry.operands);
      if !read {
        last_error := Some(MemoryInvalid);
        return false;
      }
      TableIsSafe(cur_op);
      OperandCount(env, entry.operands, old(cur_offset) + 1);
      match Handle(env, cur_op, entry.handler, Cpu(cur_offset, stack, is_register), operands) {
        case Fail(e) =>
          last_error := Some(e);
          stack := stack[PopsOnFailure(env.bits, entry.handler, operands)..];
          return false;
        case Ok(cpu) =>
          cur_offset, stack, is_register := cpu.offset, cpu.stack, cpu.is_register;
          return true;
      }
    }

    /** The operations after the first two, which led to the last state of `trace0`. */
    method EvalRest(start: nat, end: nat, ghost trace0: seq<Cpu>)
      returns (ok: bool, ghost decodes: nat, ghost trace: seq<Cpu>)
      requires env.Valid() && Traced(env, start, trace0) && |trace0| == 3 && trace0[2] == State() && |stack| <= 2
               && Words(env, stack)
      modifies this
      ensures ok == Run(env, old(State()), end, 2).Ok?
      ensures ok ==> State() == Run(env, old(State()), end, 2).value
      ensures !ok ==> last_error == Some(Run(env, old(State()), end, 2).error)
      ensures Traced(env, start, trace) && |trace| - 1 <= decodes <= |trace| && decodes <= 1001
      ensures stack == if decodes == |trace| then LeftOver(env, trace[|trace| - 1]) else trace[|trace| - 1].stack
      ensures |stack| <= decodes && Words(env, stack)
      ensures dex_pc_set == old(dex_pc_set)
    {
      hide Performed, Fetch, Words, Env.Valid, Traced, LeftOver;
      ok, decodes, trace := true, 2, trace0;
      var iterations := 2;
      while cur_offset < end
        invariant ok && 2 <= iterations <= 1000 && decodes == iterations && dex_pc_set == old(dex_pc_set)
        invariant Traced(env, start, trace) && |trace| == decodes + 1 && trace[decodes] == State() && |stack| <= decodes
                  && Words(env, stack)
        invariant Run(env, State(), end, iterations) == Run(env, old(State()), end, 2)
        decreases 1000 - iterations
      {
        ok := Decode();
        decodes := decodes + 1;
        if !ok {
          LeftOverWords(env, trace[decodes - 1]);
          return;
        }
        trace := TraceGoesOn(env, start, trace, State());
        if iterations == 1000 {
          last_error := Some(TooManyIterations);
          return false, decodes, trace;
        }
        iterations := iterations + 1;
      }
    }

    /**
     Evaluates the operations between two offsets.  Whatever they are, no more
     than 1001 are performed, and at every moment the stack has no more values
     than operations were performed.  `trace` has all states on the way.
     */
    method Eval(start: nat, end: nat) returns (ok: bool, ghost decodes: nat, ghost trace: seq<Cpu>)
      requires env.Valid()
      modifies this
      ensures ok == Run(env, Cpu(start, [], false), end, 0).Ok?
      ensures ok ==> State() == Run(env, Cpu(start, [], false), end, 0).value
      ensures !ok ==> last_error == Some(Run(env, Cpu(start, [], false), end, 0).error)
      ensures Traced(env, start, trace) && |trace| - 1 <= decodes <= |trace| && decodes <= 1001
      ensures stack == if decodes == |trace| then LeftOver(env, trace[|trace| - 1]) else trace[|trace| - 1].stack
      ensures |stack| <= decodes && Words(env, stack)
      ensures dex_pc_set <==> MarksDexPc(env, start, end)
    {
      hide Performed, Fetch, MarksDexPc, Words, Env.Valid, Traced, LeftOver;
      is_register, stack, cur_offset, dex_pc_set, decodes := false, [], start, false, 0;
      trace := [State()];
      TraceBegins(env, start);
      MarkSeen(env, start, end);
      if cur_offset >= end { return true, 0, trace; }
      ok := Decode();
      decodes := 1;
      if !ok {
        LeftOverWords(env, trace[|trace| - 1]);
        return;
      }
      trace := TraceGoesOn(env, start, trace, State());
      var check_for_drop := cur_op == 0x0c && operands != [] && operands[|operands| - 1] == 0x31584544;
      if cur_offset >= end { return; }
      ok := Decode();
      decodes := 2;
      if !ok {
        LeftOverWords(env, trace[|trace| - 1]);
        return;
      }
      trace := TraceGoesOn(env, start, trace, State());
      if check_for_drop && cur_op == 0x13 { dex_pc_set := true; }
      ok, decodes, trace := EvalRest(start, end, trace);
    }
  }

  /** States one operation apart; each has no more values than operations were performed, and all are words. */
  ghost predicate Traced(env: Env, start: nat, trace: seq<Cpu>)
    requires env.Valid()
  {
    && |trace| > 0 && trace[0] == Cpu(start, [], false)
    && (forall k :: 0 < k < |trace| ==> Performed(env, trace[k - 1]) == Ok(trace[k]))
    && (forall k :: 0 <= k < |trace| ==> |trace[k].stack| <= k && Words(env, trace[k].stack))
  }

  lemma TraceBegins(env: Env, start: nat)
    requires env.Valid()
    ensures Traced(env, start, [Cpu(start, [], false)]) && Words(env, [])
  {
    hide Performed;
    NoWords(env);
  }

  lemma TraceGoesOn(env: Env, start: nat, trace: seq<Cpu>, next: Cpu) returns (longer: seq<Cpu>)
    requires env.Valid() && Traced(env, start, trace) && Performed(env, trace[|trace| - 1]) == Ok(next)
    ensures longer == trace + [next] && Traced(env, start, longer) && |next.stack| <= |trace| && Words(env, next.stack)
  {
    hide Performed, Words, Env.Valid;
    longer := trace + [next];
    PerformedKeepsWords(env, trace[|trace| - 1]);
  }
}
