/**
 What expressions compute: the operations of a tree, in postfix order and with
 branches around what a choice does not select, leave the value of the tree, cut
 to the width of an address, or fail where it has none.
 */
module ExpressionTrees {
  import opened Bits
  import opened DwarfMemory
  import opened DwarfOp
  import opened Laws = DwarfOpLaws
  import opened OrderedKeys
  import opened TreeValues
  import opened WordSizes

  // ----- the operations as they are read

  lemma HoldsParts(mem: Memory, offset: nat, a: seq<Byte>, b: seq<Byte>)
    requires Holds(mem, offset, a + b)
    ensures Holds(mem, offset, a) && Holds(mem, offset + |a|, b)
  {
    forall i | 0 <= i < |a|
      ensures ByteAt(mem, offset + i) == Some(a[i])
    {
      assert (a + b)[i] == a[i];
    }
    forall i | 0 <= i < |b|
      ensures ByteAt(mem, offset + |a| + i) == Some(b[i])
    {
      assert (a + b)[|a| + i] == b[i] && ByteAt(mem, offset + (|a| + i)) == Some((a + b)[|a| + i]);
    }
  }

  lemma HoldsOne(mem: Memory, offset: nat, b: Byte)
    requires Holds(mem, offset, [b])
    ensures ByteAt(mem, offset) == Some(b)
  {
    assert [b][0] == b && ByteAt(mem, offset + 0) == Some([b][0]);
  }

  /** An operation goes to its handler with its operands. */
  lemma Reaches(env: Env, cpu: Cpu, op: Byte, c: Callback, operands: seq<nat>, next: nat)
    requires env.Valid() && ByteAt(env.code, cpu.offset) == Some(op) && TableEntry(op) == c
    requires c.handler != Illegal && c.required <= |cpu.stack|
    requires ReadOperands(env, c.operands, cpu.offset + 1) == Some((operands, next))
    ensures SlotsUsed(c.handler) <= |cpu.stack| && OperandsUsed(c.handler) <= |operands|
    ensures Performed(env, cpu) == Handle(env, op, c.handler, cpu.(offset := next), operands)
  {
    hide TableEntry, Handle, Env.Valid, ReadOperands, SlotsUsed, OperandsUsed;
    TableIsSafe(op);
    OperandCount(env, c.operands, cpu.offset + 1);
  }

  lemma Plain(env: Env, cpu: Cpu, op: Byte, h: Handler, required: nat)
    requires env.Valid() && ByteAt(env.code, cpu.offset) == Some(op) && TableEntry(op) == Callback(h, required, [])
    requires h != Illegal && required <= |cpu.stack|
    ensures SlotsUsed(h) <= |cpu.stack| && OperandsUsed(h) <= 0
    ensures Performed(env, cpu) == Handle(env, op, h, cpu.(offset := cpu.offset + 1), [])
  {
    hide Performed, TableEntry, Handle, Env.Valid, SlotsUsed, OperandsUsed;
    Reaches(env, cpu, op, Callback(h, required, []), [], cpu.offset + 1);
  }

  lemma WithOperand(env: Env, cpu: Cpu, op: Byte, h: Handler, required: nat, e: Encoding, v: int, next: nat)
    requires env.Valid() && ByteAt(env.code, cpu.offset) == Some(op) && TableEntry(op) == Callback(h, required, [e])
    requires h != Illegal && required <= |cpu.stack| && ReadEncoded(env, e, cpu.offset + 1) == Some((v, next))
    ensures SlotsUsed(h) <= |cpu.stack| && OperandsUsed(h) <= 1
    ensures Performed(env, cpu) == Handle(env, op, h, cpu.(offset := next), [Word(env, v)])
  {
    hide Performed, TableEntry, Handle, Env.Valid, ReadEncoded, ReadOperands, Env.Word, SlotsUsed, OperandsUsed;
    OneOperand(env, e, cpu.offset + 1);
    Reaches(env, cpu, op, Callback(h, required, [e]), [Word(env, v)], next);
  }

  lemma ReadsUleb(env: Env, offset: nat, v: nat)
    requires v < TWO_64 && Holds(env.code, offset, EncodeUleb(v))
    ensures ReadEncoded(env, Uleb, offset) == Some((v, offset + |EncodeUleb(v)|))
  {
    UlebRoundTrip(env.shl, env.code, offset, v);
  }

  lemma ReadsSleb(env: Env, offset: nat, i: int)
    requires FitsSleb(i) && Holds(env.code, offset, EncodeSleb(i))
    ensures ReadEncoded(env, Sleb, offset) == Some((i, offset + |EncodeSleb(i)|))
  {
    hide SignExtend, ToSigned, Groups;
    SlebRoundTrip(env.shl, env.code, offset, i);
  }

  lemma ReadsFixed(env: Env, offset: nat, size: nat, v: nat)
    requires v < Pow2(8 * size) && Holds(env.code, offset, Bits.Bytes(size, v))
    ensures ReadEncoded(env, Udata(size), offset) == Some((v, offset + size))
    ensures 8 * size == env.bits ==> ReadEncoded(env, AbsPtr, offset) == Some((v, offset + size))
  {
    hide Pow2, LittleEndian;
    BytesAre(size, v);
    LittleEndianIs(env.code, offset, Bits.Bytes(size, v));
  }

  lemma ReadsSigned(env: Env, offset: nat, size: nat, i: int)
    requires 0 - Pow2(8 * size) <= 2 * i < Pow2(8 * size)
             && Holds(env.code, offset, Bits.Bytes(size, i % Pow2(8 * size)))
    ensures ReadEncoded(env, Sdata(size), offset) == Some((i, offset + size))
  {
    hide Pow2, LittleEndian;
    var n := Pow2(8 * size);
    RemainderIs(i, n, if i < 0 then -1 else 0, if i < 0 then i + n else i);
    BytesAre(size, i % n);
    LittleEndianIs(env.code, offset, Bits.Bytes(size, i % n));
  }

  // ----- leaves

  /** What an operation that adds a value leaves. */
  function Pushed(env: Env, cpu: Cpu, next: nat, o: Outcome<int>): Outcome<Cpu> {
    match o
    case Fail(e) => Fail(e)
    case Ok(v) => Ok(cpu.(offset := next, stack := [Word(env, v)] + cpu.stack))
  }

  lemma HandleLit(env: Env, op: Byte, cpu: Cpu)
    requires env.Valid() && 0x30 <= op < 0x50
    ensures Handle(env, op, Lit, cpu, []) == Ok(cpu.(stack := [Word(env, op - 0x30)] + cpu.stack))
  {
  }

  lemma HandleBreg(env: Env, op: Byte, cpu: Cpu, i: int)
    requires env.Valid() && 0x70 <= op < 0x90
    ensures Handle(env, op, Breg, cpu, [Word(env, i)]) == Pushed(env, cpu, cpu.offset, RegisterValue(env, op - 0x70, i))
  {
    hide Env.Word;
    var reg := op - 0x70;
    if reg < |env.regs| { SumIs(env, env.regs[reg], i); }
  }

  lemma HandleBregx(env: Env, cpu: Cpu, r: nat, i: int)
    requires env.Valid() && r < env.Word()
    ensures Handle(env, 0x92, Bregx, cpu, [r, Word(env, i)]) == Pushed(env, cpu, cpu.offset, RegisterValue(env, r, i))
  {
    hide Env.Word;
    if r < |env.regs| { SumIs(env, env.regs[r], i); }
  }

  lemma SumIs(env: Env, a: nat, i: int)
    ensures (a + Word(env, i)) % env.Word() == Word(env, a + i)
  {
    hide Env.Word;
    ModPlus(a, Word(env, i), env.Word());
    ModPlus(a, i, env.Word());
    WordAgain(env, i);
  }

  lemma RegisterPushes(env: Env, reg: Small, i: int, cpu: Cpu)
    requires env.Valid() && FitsSleb(i) && Holds(env.code, cpu.offset, [0x70 + reg] + EncodeSleb(i))
    ensures Performed(env, cpu) == Pushed(env, cpu, cpu.offset + 1 + |EncodeSleb(i)|, RegisterValue(env, reg, i))
  {
    hide Performed, Handle, Env.Word, Env.Valid, EncodeSleb, ReadEncoded;
    var op: Byte := 0x70 + reg;
    assert TableEntry(op) == Callback(Breg, 0, [Sleb]);
    hide TableEntry;
    var next := cpu.offset + 1 + |EncodeSleb(i)|;
    HoldsRest(env.code, cpu.offset, op, EncodeSleb(i));
    ReadsSleb(env, cpu.offset + 1, i);
    WithOperand(env, cpu, op, Breg, 0, Sleb, i, next);
    HandleBreg(env, op, cpu.(offset := next), i);
  }

  lemma AnyRegisterPushes(env: Env, r: nat, i: int, cpu: Cpu)
    requires env.Valid() && r < env.Word() && FitsSleb(i)
    requires Holds(env.code, cpu.offset, [0x92] + (EncodeUleb(r) + EncodeSleb(i)))
    ensures Performed(env, cpu) ==
            Pushed(env, cpu, cpu.offset + 1 + |EncodeUleb(r)| + |EncodeSleb(i)|, RegisterValue(env, r, i))
  {
    hide Performed, Handle, EncodeSleb, EncodeUleb, ReadEncoded, ReadOperands, Pow2;
    Pow2Known();
    assert r < TWO_64;
    assert TableEntry(0x92) == Callback(Bregx, 0, [Uleb, Sleb]);
    hide TableEntry;
    hide Env.Word, Env.Valid;
    var mid := cpu.offset + 1 + |EncodeUleb(r)|;
    var next := mid + |EncodeSleb(i)|;
    HoldsRest(env.code, cpu.offset, 0x92, EncodeUleb(r) + EncodeSleb(i));
    HoldsParts(env.code, cpu.offset + 1, EncodeUleb(r), EncodeSleb(i));
    ReadsUleb(env, cpu.offset + 1, r);
    ReadsSleb(env, mid, i);
    TwoOperands(env, Uleb, Sleb, cpu.offset + 1, r, i, mid, next);
    RemainderIs(r, env.Word(), 0, r);
    Reaches(env, cpu, 0x92, Callback(Bregx, 0, [Uleb, Sleb]), [r, Word(env, i)], next);
    HandleBregx(env, cpu.(offset := next), r, i);
  }

  lemma TwoOperands(env: Env, d: Encoding, e: Encoding, offset: nat, x: int, y: int, mid: nat, next: nat)
    requires ReadEncoded(env, d, offset) == Some((x, mid)) && ReadEncoded(env, e, mid) == Some((y, next))
    ensures ReadOperands(env, [d, e], offset) == Some(([Word(env, x), Word(env, y)], next))
  {
    hide ReadEncoded, Env.Word;
    assert [d, e][1..] == [e];
    OneOperand(env, e, mid);
    assert [Word(env, x)] + [Word(env, y)] == [Word(env, x), Word(env, y)];
  }

  lemma ConstantPushes(env: Env, cpu: Cpu, op: Byte, e: Encoding, v: int, next: nat)
    requires env.Valid() && ByteAt(env.code, cpu.offset) == Some(op) && TableEntry(op) == Callback(Push, 0, [e])
    requires ReadEncoded(env, e, cpu.offset + 1) == Some((v, next))
    ensures Performed(env, cpu) == Pushed(env, cpu, next, Ok(v))
  {
    hide Performed, TableEntry, ReadEncoded, Env.Word, Env.Valid;
    Pushes(env, cpu, op, e, v, next);
  }

  predicate IsLeaf(t: Tree) {
    !t.Node? && !t.Unary? && !t.Choice?
  }

  /** The operation of a leaf pushes its value, or fails if it has none. */
  lemma Leaf(env: Env, t: Tree, cpu: Cpu)
    requires env.Valid() && IsLeaf(t) && WellFormed(env, t) && Holds(env.code, cpu.offset, Code(t))
    ensures Performed(env, cpu) == Pushed(env, cpu, cpu.offset + |Code(t)|, Value(env, t))
  {
    hide Performed, Env.Word, EncodeSleb, EncodeUleb, Pow2, Env.Valid, Holds, Bits.Bytes, ReadEncoded, Handle;
    match t
    case Literal(n) =>
      HoldsOne(env.code, cpu.offset, 0x30 + n);
      Plain(env, cpu, 0x30 + n, Lit, 0);
      HandleLit(env, 0x30 + n, cpu.(offset := cpu.offset + 1));
    case RegisterPlus(reg, i) => RegisterPushes(env, reg, i, cpu);
    case AnyRegisterPlus(r, i) => AnyRegisterPushes(env, r, i, cpu);
    case _ => ConstantLeaf(env, t, cpu);
  }

  lemma ConstantLeaf(env: Env, t: Tree, cpu: Cpu)
    requires env.Valid() && (t.Fixed? || t.FixedSigned? || t.Address? || t.Unsigned? || t.Signed?)
    requires WellFormed(env, t) && Holds(env.code, cpu.offset, Code(t))
    ensures Performed(env, cpu) == Pushed(env, cpu, cpu.offset + |Code(t)|, Value(env, t))
  {
    hide Performed, Env.Word, EncodeSleb, EncodeUleb, Pow2, Env.Valid, Holds, Bits.Bytes, ReadEncoded;
    var op, o := Code(t)[0], cpu.offset + 1;
    assert Code(t) == [op] + Code(t)[1..];
    HoldsRest(env.code, cpu.offset, op, Code(t)[1..]);
    var (e, v, next) := match t
      case Fixed(size, v) => (Udata(size), v as int, o + size)
      case FixedSigned(size, i) => (Sdata(size), i, o + size)
      case Address(size, v) => (AbsPtr, v as int, o + size)
      case Unsigned(v) => (Uleb, v as int, o + |EncodeUleb(v)|)
      case Signed(i) => (Sleb, i, o + |EncodeSleb(i)|);
    match t {
      case Fixed(size, v) =>
        BytesLength(size, v);
        ReadsFixed(env, o, size, v);
      case FixedSigned(size, i) =>
        BytesLength(size, i % Pow2(8 * size));
        ReadsSigned(env, o, size, i);
      case Address(size, v) =>
        BytesLength(size, v);
        ReadsFixed(env, o, size, v);
      case Unsigned(v) => ReadsUleb(env, o, v);
      case Signed(i) => ReadsSleb(env, o, i);
    }
    ConstantPushes(env, cpu, op, e, v, next);
  }

  // ----- the operations at inner nodes

  /** What an operation that replaces the first values leaves on the others. */
  function Replaced(env: Env, cpu: Cpu, next: nat, rest: seq<nat>, o: Outcome<int>): Outcome<Cpu> {
    match o
    case Fail(e) => Fail(e)
    case Ok(v) => Ok(cpu.(offset := next, stack := [Word(env, v)] + rest))
  }

  lemma HandleBinary(env: Env, op: BinaryOp, cpu: Cpu, a: int, b: int, rest: seq<nat>)
    requires env.Valid() && cpu.stack == [Word(env, b)] + ([Word(env, a)] + rest)
    ensures Handle(env, Opcode(op), Binary(op), cpu, []) ==
            Replaced(env, cpu, cpu.offset, rest, BinaryValue(env, op, a, b))
  {
    hide Apply, BinaryValue, Word, Env.Word;
    ApplyIs(env, op, a, b);
    assert cpu.stack[2..] == rest;
  }

  lemma OpcodeEntry(op: BinaryOp)
    ensures TableEntry(Opcode(op)) == Callback(Binary(op), 2, [])
  {
  }

  lemma NodeApplies(env: Env, op: BinaryOp, cpu: Cpu, a: int, b: int, rest: seq<nat>)
    requires env.Valid() && ByteAt(env.code, cpu.offset) == Some(Opcode(op))
    requires cpu.stack == [Word(env, b)] + ([Word(env, a)] + rest)
    ensures Performed(env, cpu) == Replaced(env, cpu, cpu.offset + 1, rest, BinaryValue(env, op, a, b))
  {
    hide Performed, BinaryValue, Env.Word, Handle, Env.Valid, TableEntry, Opcode;
    OpcodeEntry(op);
    Plain(env, cpu, Opcode(op), Binary(op), 2);
    HandleBinary(env, op, cpu.(offset := cpu.offset + 1), a, b, rest);
  }

  /** Memory is read as the number that its bytes encode, exactly if all can be read. */
  lemma {:induction false} RamIs(ram: nat -> Option<Byte>, addr: nat, size: nat) returns (bytes: seq<Byte>)
    ensures ReadRam(ram, addr, size).Some? ==> |bytes| == size && InRam(ram, addr, bytes)
    decreases size
  {
    bytes := [];
    if size > 0 && ReadRam(ram, addr, size).Some? {
      var rest := RamIs(ram, addr + 1, size - 1);
      bytes := [ram(addr).value] + rest;
      forall i | 0 <= i < size
        ensures ram(addr + i) == Some(bytes[i])
      {
        if i > 0 { assert ram(addr + 1 + (i - 1)) == Some(rest[i - 1]); }
      }
    }
  }

  lemma LoadedIs(ram: nat -> Option<Byte>, addr: nat, size: nat)
    ensures Loaded(ram, addr, size) ==
            match ReadRam(ram, addr, size) case None => Fail(MemoryInvalid) case Some(v) => Ok(v)
  {
    hide ReadRam, ValueOf;
    var bytes := RamIs(ram, addr, size);
    assert ReadRam(ram, addr, size).Some? ==> |bytes| == size && InRam(ram, addr, bytes);
    if some :| |some| == size && InRam(ram, addr, some) {
      forall other: seq<Byte> | |other| == size && InRam(ram, addr, other)
        ensures ReadRam(ram, addr, size) == Some(ValueOf(other))
      {
        RamReads(ram, addr, other);
      }
    }
  }

  /** The handler of an operation on one value. */
  function UnaryHandler(f: UnaryOp): Handler {
    match f
    case Complement => Not
    case Opposite => Neg
    case Absolute => Abs
    case Contents => Deref
    case Bytes(_) => DerefSize
    case Increment(_) => PlusUconst
    case Idle => Handler.Nop
  }

  /** Its operand. */
  function UnaryOperand(env: Env, f: UnaryOp): seq<nat> {
    match f
    case Bytes(size) => [size]
    case Increment(n) => [Word(env, n)]
    case _ => []
  }

  lemma HandleNot(env: Env, op: Byte, cpu: Cpu, a: int, rest: seq<nat>)
    requires env.Valid() && cpu.stack == [Word(env, a)] + rest
    ensures Handle(env, op, Not, cpu, []) == Replaced(env, cpu, cpu.offset, rest, UnaryValue(env, Complement, a))
  {
    hide Env.Word, Negated, AsSigned, Env.Signed, Word;
    assert cpu.stack[1..] == rest;
    ComplementIs(env, a);
  }

  lemma HandleNeg(env: Env, op: Byte, cpu: Cpu, a: int, rest: seq<nat>)
    requires env.Valid() && cpu.stack == [Word(env, a)] + rest
    ensures Handle(env, op, Neg, cpu, []) == Replaced(env, cpu, cpu.offset, rest, UnaryValue(env, Opposite, a))
  {
    hide Env.Word, Negated, AsSigned, Env.Signed, Word;
    assert cpu.stack[1..] == rest;
    NegatedIs(env, Neg, a);
  }

  lemma HandleAbs(env: Env, op: Byte, cpu: Cpu, a: int, rest: seq<nat>)
    requires env.Valid() && cpu.stack == [Word(env, a)] + rest
    ensures Handle(env, op, Abs, cpu, []) == Replaced(env, cpu, cpu.offset, rest, UnaryValue(env, Absolute, a))
  {
    hide Env.Word, Negated, AsSigned, Env.Signed, Word;
    assert cpu.stack[1..] == rest;
    AbsoluteIs(env, a);
  }

  lemma HandleUconst(env: Env, op: Byte, n: nat, cpu: Cpu, a: int, rest: seq<nat>)
    requires env.Valid() && cpu.stack == [Word(env, a)] + rest
    ensures Handle(env, op, PlusUconst, cpu, [Word(env, n)]) ==
            Replaced(env, cpu, cpu.offset, rest, UnaryValue(env, Increment(n), a))
  {
    hide Env.Word, Negated, AsSigned, Env.Signed, Word;
    assert cpu.stack[1..] == rest;
    Cuts(env);
    SumIs(env, Word(env, a), n);
    SumIs(env, n, a);
  }

  lemma HandleNop(env: Env, op: Byte, cpu: Cpu, a: int, rest: seq<nat>)
    requires env.Valid() && cpu.stack == [Word(env, a)] + rest
    ensures Handle(env, op, Handler.Nop, cpu, []) == Replaced(env, cpu, cpu.offset, rest, UnaryValue(env, Idle, a))
  {
    hide Env.Word, Negated, AsSigned, Env.Signed, Word;
    assert cpu.stack[1..] == rest;
  }

  lemma HandleLoad(env: Env, op: Byte, cpu: Cpu, a: int, rest: seq<nat>)
    requires env.Valid() && cpu.stack == [Word(env, a)] + rest
    ensures Handle(env, op, Deref, cpu, []) == Replaced(env, cpu, cpu.offset, rest, UnaryValue(env, Contents, a))
  {
    hide Env.Word, Word, ReadRam, Loaded;
    assert cpu.stack[1..] == rest;
    LoadedIs(env.ram, Word(env, a), env.bits / 8);
    Cuts(env);
  }

  lemma HandleLoadSize(env: Env, op: Byte, size: Byte, cpu: Cpu, a: int, rest: seq<nat>)
    requires env.Valid() && cpu.stack == [Word(env, a)] + rest
    ensures Handle(env, op, DerefSize, cpu, [size]) ==
            Replaced(env, cpu, cpu.offset, rest, UnaryValue(env, UnaryOp.Bytes(size), a))
  {
    hide Env.Word, Word, ReadRam, Loaded;
    assert cpu.stack[1..] == rest;
    LoadedIs(env.ram, Word(env, a), size);
    Cuts(env);
  }

  lemma Cuts(env: Env)
    ensures forall v: int :: Word(env, v) == v % env.Word()
  {
  }

  lemma HandleUnary(env: Env, op: Byte, f: UnaryOp, cpu: Cpu, a: int, rest: seq<nat>)
    requires env.Valid() && cpu.stack == [Word(env, a)] + rest
    ensures SlotsUsed(UnaryHandler(f)) <= 1 && OperandsUsed(UnaryHandler(f)) <= |UnaryOperand(env, f)|
    ensures Handle(env, op, UnaryHandler(f), cpu, UnaryOperand(env, f)) ==
            Replaced(env, cpu, cpu.offset, rest, UnaryValue(env, f, a))
  {
    hide Handle, UnaryValue, Replaced, Word, Env.Valid;
    match f
    case Complement => HandleNot(env, op, cpu, a, rest);
    case Opposite => HandleNeg(env, op, cpu, a, rest);
    case Absolute => HandleAbs(env, op, cpu, a, rest);
    case Contents => HandleLoad(env, op, cpu, a, rest);
    case Bytes(size) => HandleLoadSize(env, op, size, cpu, a, rest);
    case Increment(n) => HandleUconst(env, op, n, cpu, a, rest);
    case Idle => HandleNop(env, op, cpu, a, rest);
  }

  lemma UnaryApplies(env: Env, f: UnaryOp, cpu: Cpu, a: int, rest: seq<nat>)
    requires env.Valid() && Holds(env.code, cpu.offset, UnaryCode(f)) && (f.Increment? ==> f.n < TWO_64)
    requires cpu.stack == [Word(env, a)] + rest
    ensures Performed(env, cpu) == Replaced(env, cpu, cpu.offset + |UnaryCode(f)|, rest, UnaryValue(env, f, a))
  {
    hide Performed, UnaryValue, Handle, Env.Valid, Word, EncodeUleb, ReadEncoded, Holds;
    var op := UnaryCode(f)[0];
    var operand := UnaryCode(f)[1..];
    assert UnaryCode(f) == [op] + operand;
    HoldsRest(env.code, cpu.offset, op, operand);
    var o := cpu.offset + 1;
    HandleUnary(env, op, f, cpu.(offset := cpu.offset + |UnaryCode(f)|), a, rest);
    UnaryEntry(f);
    hide TableEntry, UnaryCode;
    if f.Bytes? {
      ByteOperand(env, o, f.size);
      WithOperand(env, cpu, op, DerefSize, 1, Udata(1), f.size, o + 1);
    } else if f.Increment? {
      ReadsUleb(env, o, f.n);
      WithOperand(env, cpu, op, PlusUconst, 1, Uleb, f.n, o + |operand|);
    } else {
      Plain(env, cpu, op, UnaryHandler(f), TableEntry(op).required);
    }
  }

  lemma UnaryEntry(f: UnaryOp)
    ensures var c := TableEntry(UnaryCode(f)[0]);
            && c.handler == UnaryHandler(f) && c.required <= 1
            && c.operands == match f case Bytes(_) => [Udata(1)] case Increment(_) => [Uleb] case _ => []
    ensures UnaryCode(f)[1..] == match f case Bytes(size) => [size] case Increment(n) => EncodeUleb(n) case _ => []
  {
  }

  lemma ByteOperand(env: Env, offset: nat, b: Byte)
    requires env.Valid() && Holds(env.code, offset, [b])
    ensures ReadEncoded(env, Udata(1), offset) == Some((b as int, offset + 1)) && Word(env, b) == b
  {
    hide Pow2;
    Pow2Known();
    assert Bits.Bytes(1, b) == [b] + Bits.Bytes(0, 0);
    ReadsFixed(env, offset, 1, b);
    RemainderIs(b, env.Word(), 0, b);
  }

  // ----- branches

  /** A branch goes where its signed operand leads, forward or back. */
  lemma BranchIs(env: Env, cpu: Cpu, d: int)
    requires env.Valid() && -0x8000 <= d < 0x8000
    ensures Branch(cpu, Word(env, d)) == cpu.(offset := (cpu.offset + d) % TWO_64)
  {
    hide Pow2;
    Pow2Known();
    var w, k := env.Word(), env.Word() / 0x1_0000;
    assert w == k * 0x1_0000;
    var q, x := Divides(d, w);
    assert q * w == q * k * 0x1_0000;
    SameMod(x, d, -(q * k), 0x1_0000);
    RemainderIs(d, 0x1_0000, if d < 0 then -1 else 0, if d < 0 then d + 0x1_0000 else d);
  }

  lemma JumpOperand(env: Env, offset: nat, op: Byte, d: int)
    requires -0x8000 <= d < 0x8000 && Holds(env.code, offset, Jump(op, d))
    ensures ByteAt(env.code, offset) == Some(op) && |Jump(op, d)| == 3
    ensures ReadEncoded(env, Sdata(2), offset + 1) == Some((d, offset + 3))
  {
    hide ReadEncoded, Bits.Bytes, Pow2;
    Pow2Known();
    BytesLength(2, d % 0x1_0000);
    HoldsRest(env.code, offset, op, Bits.Bytes(2, d % 0x1_0000));
    ReadsSigned(env, offset + 1, 2, d);
  }

  lemma SkipLands(env: Env, cpu: Cpu, d: int)
    requires env.Valid() && -0x8000 <= d < 0x8000 && Holds(env.code, cpu.offset, Jump(SKIP, d))
    ensures Performed(env, cpu) == Ok(cpu.(offset := (cpu.offset + 3 + d) % TWO_64))
  {
    hide Performed, ReadEncoded, Env.Valid, Word, Branch, Jump;
    JumpOperand(env, cpu.offset, SKIP, d);
    WithOperand(env, cpu, SKIP, Skip, 0, Sdata(2), d, cpu.offset + 3);
    BranchIs(env, cpu.(offset := cpu.offset + 3), d);
  }

  lemma BraLands(env: Env, cpu: Cpu, a: int, rest: seq<nat>, d: int)
    requires env.Valid() && -0x8000 <= d < 0x8000 && Holds(env.code, cpu.offset, Jump(BRA, d))
    requires cpu.stack == [Word(env, a)] + rest
    ensures var next := if Word(env, a) == 0 then cpu.offset + 3 else (cpu.offset + 3 + d) % TWO_64;
            Performed(env, cpu) == Ok(cpu.(offset := next, stack := rest))
  {
    hide Performed, ReadEncoded, Env.Valid, Word, Branch, Jump;
    JumpOperand(env, cpu.offset, BRA, d);
    WithOperand(env, cpu, BRA, Bra, 1, Sdata(2), d, cpu.offset + 3);
    assert [] + cpu.stack[1..] == rest;
    BranchIs(env, cpu.(offset := cpu.offset + 3, stack := rest), d);
  }

  // ----- whole trees

  /** One more operation. */
  function Onward(env: Env, r: Outcome<Cpu>, end: nat, count: nat): Outcome<Cpu>
    requires env.Valid() && count <= 1000
  {
    if r.Fail? then r else if count == 1000 then Fail(TooManyIterations) else Run(env, r.value, end, count + 1)
  }

  lemma OneStep(env: Env, cpu: Cpu, end: nat, count: nat)
    requires env.Valid() && count <= 1000 && cpu.offset < end
    ensures Run(env, cpu, end, count) == Onward(env, Performed(env, cpu), end, count)
  {
    hide Performed;
  }

  /**
   How evaluation goes on after `n` operations that give a value, of which the
   last one fails if there is none.
   */
  function Arrives(env: Env, cpu: Cpu, next: nat, o: Outcome<int>, n: nat, end: nat, count: nat): Outcome<Cpu>
    requires env.Valid() && count <= 1000
  {
    match o
    case Ok(v) =>
      if count + n > 1000 then Fail(TooManyIterations)
      else Run(env, cpu.(offset := next, stack := [Word(env, v)] + cpu.stack), end, count + n)
    case Fail(e) => if count + n > 1001 then Fail(TooManyIterations) else Fail(e)
  }

  function Reached(env: Env, cpu: Cpu, next: nat, v: int): Cpu {
    cpu.(offset := next, stack := [Word(env, v)] + cpu.stack)
  }

  /** Where the operations of the parts of a tree are. */
  lemma NodeCode(mem: Memory, offset: nat, op: BinaryOp, l: Tree, r: Tree)
    requires Holds(mem, offset, Code(Node(op, l, r)))
    ensures |Code(Node(op, l, r))| == |Code(l)| + |Code(r)| + 1 && Holds(mem, offset, Code(l))
    ensures Holds(mem, offset + |Code(l)|, Code(r))
    ensures ByteAt(mem, offset + |Code(l)| + |Code(r)|) == Some(Opcode(op))
  {
    hide Holds, Opcode, Code;
    NodeCodeIs(op, l, r);
    HoldsParts(mem, offset, Code(l), Code(r) + [Opcode(op)]);
    HoldsParts(mem, offset + |Code(l)|, Code(r), [Opcode(op)]);
    HoldsOne(mem, offset + |Code(l)| + |Code(r)|, Opcode(op));
  }

  lemma NodeCodeIs(op: BinaryOp, l: Tree, r: Tree)
    ensures Code(Node(op, l, r)) == Code(l) + (Code(r) + [Opcode(op)])
  {
  }

  lemma ChoiceCodeIs(c: Tree, yes: Tree, no: Tree)
    ensures Code(Choice(c, yes, no)) ==
            Code(c) + (Jump(BRA, |Code(no)| + 3) + (Code(no) + (Jump(SKIP, |Code(yes)|) + Code(yes))))
  {
  }

  lemma ChoiceCode(mem: Memory, offset: nat, c: Tree, yes: Tree, no: Tree)
    requires Holds(mem, offset, Code(Choice(c, yes, no)))
    ensures var o1 := offset + |Code(c)|;
            var o2 := o1 + 3 + |Code(no)|;
            && |Code(Choice(c, yes, no))| == |Code(c)| + 3 + |Code(no)| + 3 + |Code(yes)|
            && Holds(mem, offset, Code(c)) && Holds(mem, o1, Jump(BRA, |Code(no)| + 3)) && Holds(mem, o1 + 3, Code(no))
            && Holds(mem, o2, Jump(SKIP, |Code(yes)|)) && Holds(mem, o2 + 3, Code(yes))
  {
    hide Holds, Bits.Bytes, Code;
    ChoiceCodeIs(c, yes, no);
    var bra, skip := Jump(BRA, |Code(no)| + 3), Jump(SKIP, |Code(yes)|);
    BytesLength(2, (|Code(no)| + 3) % 0x1_0000);
    BytesLength(2, |Code(yes)| % 0x1_0000);
    HoldsParts(mem, offset, Code(c), bra + (Code(no) + (skip + Code(yes))));
    HoldsParts(mem, offset + |Code(c)|, bra, Code(no) + (skip + Code(yes)));
    HoldsParts(mem, offset + |Code(c)| + 3, Code(no), skip + Code(yes));
    HoldsParts(mem, offset + |Code(c)| + 3 + |Code(no)|, skip, Code(yes));
  }

  /** Code that stands in a section ends below 2^64. */
  lemma InSection(env: Env, offset: nat, code: seq<Byte>)
    requires env.Valid() && code != [] && Holds(env.code, offset, code)
    ensures offset + |code| < TWO_64
  {
    var last := |code| - 1;
    assert ByteAt(env.code, offset + last) == Some(code[last]);
  }

  lemma NodeLast(env: Env, op: BinaryOp, cpu: Cpu, a: int, b: int, o: nat, n: nat, end: nat, count: nat)
    requires env.Valid() && ByteAt(env.code, o) == Some(Opcode(op)) && o < end && count + n <= 1000
    ensures var c := Cpu(o, [Word(env, b)] + ([Word(env, a)] + cpu.stack), cpu.is_register);
            Run(env, c, end, count + n) == Arrives(env, cpu, o + 1, BinaryValue(env, op, a, b), n + 1, end, count)
  {
    hide Performed, BinaryValue, Env.Valid, Word, Run, Opcode;
    var c := Cpu(o, [Word(env, b)] + ([Word(env, a)] + cpu.stack), cpu.is_register);
    NodeApplies(env, op, c, a, b, cpu.stack);
    OneStep(env, c, end, count + n);
  }

  lemma UnaryLast(env: Env, f: UnaryOp, cpu: Cpu, a: int, o: nat, n: nat, end: nat, count: nat)
    requires env.Valid() && Holds(env.code, o, UnaryCode(f)) && (f.Increment? ==> f.n < TWO_64)
    requires o < end && count + n <= 1000
    ensures Run(env, Reached(env, cpu, o, a), end, count + n) ==
            Arrives(env, cpu, o + |UnaryCode(f)|, UnaryValue(env, f, a), n + 1, end, count)
  {
    hide Performed, UnaryValue, Env.Valid, Word, Run, UnaryCode;
    var c := Reached(env, cpu, o, a);
    UnaryApplies(env, f, c, a, cpu.stack);
    OneStep(env, c, end, count + n);
  }

  /** The operations of a tree push its value on whatever is there, or fail where it has none. */
  lemma {:induction false} Evaluates(env: Env, t: Tree, cpu: Cpu, end: nat, count: nat)
    requires env.Valid() && WellFormed(env, t) && count <= 1000
    requires Holds(env.code, cpu.offset, Code(t)) && cpu.offset + |Code(t)| <= end
    ensures Run(env, cpu, end, count) ==
            Arrives(env, cpu, cpu.offset + |Code(t)|, Value(env, t), Steps(env, t), end, count)
    decreases t, 1
  {
    hide Run, Holds, Env.Valid, Word, Code, Value, Steps, WellFormed, Arrives;
    match t
    case Node(_, _, _) => EvaluatesNode(env, t, cpu, end, count);
    case Unary(_, _) => EvaluatesUnary(env, t, cpu, end, count);
    case Choice(_, _, _) => EvaluatesChoice(env, t, cpu, end, count);
    case _ => EvaluatesLeaf(env, t, cpu, end, count);
  }

  lemma EvaluatesLeaf(env: Env, t: Tree, cpu: Cpu, end: nat, count: nat)
    requires IsLeaf(t) && env.Valid() && WellFormed(env, t) && count <= 1000
    requires Holds(env.code, cpu.offset, Code(t)) && cpu.offset + |Code(t)| <= end
    ensures Run(env, cpu, end, count) ==
            Arrives(env, cpu, cpu.offset + |Code(t)|, Value(env, t), Steps(env, t), end, count)
  {
    hide Run, Holds, Env.Valid, Word, Code, Performed;
    Leaf(env, t, cpu);
    OneStep(env, cpu, end, count);
    assert Steps(env, t) == 1;
  }

  lemma {:induction false} EvaluatesNode(env: Env, t: Tree, cpu: Cpu, end: nat, count: nat)
    requires t.Node? && env.Valid() && WellFormed(env, t) && count <= 1000
    requires Holds(env.code, cpu.offset, Code(t)) && cpu.offset + |Code(t)| <= end
    ensures Run(env, cpu, end, count) ==
            Arrives(env, cpu, cpu.offset + |Code(t)|, Value(env, t), Steps(env, t), end, count)
    decreases t, 0
  {
    hide Run, Holds, Env.Valid, Word, BinaryValue, Code;
    var l, r := t.left, t.right;
    NodeCode(env.code, cpu.offset, t.op, l, r);
    Evaluates(env, l, cpu, end, count);
    var a, b, n := Value(env, l), Value(env, r), Steps(env, l);
    if a.Ok? && count + n <= 1000 {
      var c := Reached(env, cpu, cpu.offset + |Code(l)|, a.value);
      Evaluates(env, r, c, end, count + n);
      if b.Ok? && count + n + Steps(env, r) <= 1000 {
        NodeLast(env, t.op, cpu, a.value, b.value, c.offset + |Code(r)|, n + Steps(env, r), end, count);
      }
    }
  }

  lemma {:induction false} EvaluatesUnary(env: Env, t: Tree, cpu: Cpu, end: nat, count: nat)
    requires t.Unary? && env.Valid() && WellFormed(env, t) && count <= 1000
    requires Holds(env.code, cpu.offset, Code(t)) && cpu.offset + |Code(t)| <= end
    ensures Run(env, cpu, end, count) ==
            Arrives(env, cpu, cpu.offset + |Code(t)|, Value(env, t), Steps(env, t), end, count)
    decreases t, 0
  {
    hide Run, Holds, Env.Valid, Word, UnaryValue;
    var f, u := t.f, t.t;
    HoldsParts(env.code, cpu.offset, Code(u), UnaryCode(f));
    assert |Code(t)| == |Code(u)| + |UnaryCode(f)| && |UnaryCode(f)| >= 1;
    Evaluates(env, u, cpu, end, count);
    var a, n := Value(env, u), Steps(env, u);
    if a.Ok? && count + n <= 1000 {
      UnaryLast(env, f, cpu, a.value, cpu.offset + |Code(u)|, n, end, count);
    }
  }

  lemma {:induction false} EvaluatesChoice(env: Env, t: Tree, cpu: Cpu, end: nat, count: nat)
    requires t.Choice? && env.Valid() && WellFormed(env, t) && count <= 1000
    requires Holds(env.code, cpu.offset, Code(t)) && cpu.offset + |Code(t)| <= end
    ensures Run(env, cpu, end, count) ==
            Arrives(env, cpu, cpu.offset + |Code(t)|, Value(env, t), Steps(env, t), end, count)
    decreases t, 0
  {
    hide Run, Holds, Env.Valid, Word, Code, BinaryValue, UnaryValue, RegisterValue, FitsSleb, Jump;
    var c, yes, no := t.condition, t.yes, t.no;
    ChoiceCode(env.code, cpu.offset, c, yes, no);
    Evaluates(env, c, cpu, end, count);
    var a, n := Value(env, c), Steps(env, c);
    var o := cpu.offset + |Code(c)|;
    if a.Ok? && count + n <= 1000 {
      InSection(env, cpu.offset, Code(t));
      Selects(env, cpu, a.value, o, |Code(no)| + 3, end, count + n);
      if count + n < 1000 {
        if Word(env, a.value) != 0 {
          Evaluates(env, yes, cpu.(offset := o + 3 + |Code(no)| + 3), end, count + n + 1);
        } else {
          Evaluates(env, no, cpu.(offset := o + 3), end, count + n + 1);
          var b, k := Value(env, no), n + 1 + Steps(env, no);
          if b.Ok? && count + k <= 1000 {
            Skips(env, Reached(env, cpu, o + 3 + |Code(no)|, b.value), |Code(yes)|, end, count + k);
          }
        }
      }
    }
  }

  /** The branch of a choice. */
  lemma Selects(env: Env, cpu: Cpu, a: int, o: nat, d: nat, end: nat, count: nat)
    requires env.Valid() && d < 0x8000 && Holds(env.code, o, Jump(BRA, d)) && o < end && count <= 1000
    requires o + 3 + d < TWO_64
    ensures Run(env, Reached(env, cpu, o, a), end, count) ==
            Onward(env, Ok(cpu.(offset := if Word(env, a) == 0 then o + 3 else o + 3 + d)), end, count)
  {
    hide Run, Holds, Env.Valid, Word, Performed, Jump;
    var c := Reached(env, cpu, o, a);
    BraLands(env, c, a, cpu.stack, d);
    OneStep(env, c, end, count);
  }

  lemma Skips(env: Env, cpu: Cpu, d: nat, end: nat, count: nat)
    requires env.Valid() && d < 0x8000 && Holds(env.code, cpu.offset, Jump(SKIP, d)) && cpu.offset < end
    requires count <= 1000 && cpu.offset + 3 + d < TWO_64
    ensures Run(env, cpu, end, count) == Onward(env, Ok(cpu.(offset := cpu.offset + 3 + d)), end, count)
  {
    hide Run, Holds, Env.Valid, Performed, Jump;
    SkipLands(env, cpu, d);
    OneStep(env, cpu, end, count);
  }

  /**
   Evaluating the operations of a tree leaves exactly its value, modulo a word, or
   fails with the error of the operation that has none; more than 1000 operations
   are too many.
   */
  lemma ExpressionMeansTree(env: Env, t: Tree, start: nat)
    requires env.Valid() && WellFormed(env, t) && Holds(env.code, start, Code(t))
    ensures Run(env, Cpu(start, [], false), start + |Code(t)|, 0) ==
            if Steps(env, t) > (if Value(env, t).Ok? then 1000 else 1001) then Fail(TooManyIterations)
            else if Value(env, t).Fail? then Fail(Value(env, t).error)
            else Ok(Cpu(start + |Code(t)|, [Word(env, Value(env, t).value)], false))
  {
    hide Value, Word, Env.Valid, Holds, Code, Steps, WellFormed, Run;
    Evaluates(env, t, Cpu(start, [], false), start + |Code(t)|, 0);
    if Value(env, t).Ok? && Steps(env, t) <= 1000 {
      var v := Word(env, Value(env, t).value);
      assert [v] + [] == [v];
      AtEnd(env, Cpu(start + |Code(t)|, [v], false), start + |Code(t)|, Steps(env, t));
    }
  }

  lemma AtEnd(env: Env, cpu: Cpu, end: nat, count: nat)
    requires env.Valid() && count <= 1000 && cpu.offset >= end
    ensures Run(env, cpu, end, count) == Ok(cpu)
  {
    hide Performed;
  }

  // ----- operations that are not part of trees

  /** The operation that copies a value of the stack. */
  function CopyCode(k: Byte): seq<seq<Byte>> {
    (if k == 0 then [[0x12]] else if k == 1 then [[0x14]] else []) + [[0x15, k]]
  }

  /** Dup, over and pick push a copy of the first, the second or any value. */
  lemma Copies(env: Env, cpu: Cpu, k: Byte, code: seq<Byte>)
    requires env.Valid() && code in CopyCode(k) && Holds(env.code, cpu.offset, code)
    ensures Performed(env, cpu) ==
            if k < |cpu.stack| then Ok(cpu.(offset := cpu.offset + |code|, stack := [cpu.stack[k]] + cpu.stack))
            else Fail(StackIndexNotValid)
  {
    hide Env.Valid, ReadEncoded, Word, Holds;
    var op := code[0];
    assert code == [op] + code[1..];
    HoldsRest(env.code, cpu.offset, op, code[1..]);
    if op == 0x15 {
      assert code[1..] == [k];
      ByteOperand(env, cpu.offset + 1, k);
      WithOperand(env, cpu, op, Pick, 0, Udata(1), k, cpu.offset + 2);
    }
  }

  /** Drop takes the first value off. */
  lemma Drops(env: Env, cpu: Cpu)
    requires env.Valid() && Holds(env.code, cpu.offset, [0x13])
    ensures Performed(env, cpu) ==
            if cpu.stack != [] then Ok(cpu.(offset := cpu.offset + 1, stack := cpu.stack[1..]))
            else Fail(StackIndexNotValid)
  {
    hide Env.Valid, Holds;
    HoldsOne(env.code, cpu.offset, 0x13);
    if cpu.stack != [] {
      Plain(env, cpu, 0x13, Drop, 1);
      assert [] + cpu.stack[1..] == cpu.stack[1..];
    }
  }

  /** Swap exchanges the first two values; rot brings the second and third forward and the first behind them. */
  lemma Exchanges(env: Env, cpu: Cpu)
    requires env.Valid()
    ensures var s := cpu.stack;
            Holds(env.code, cpu.offset, [0x16]) ==>
              Performed(env, cpu) ==
              if |s| < 2 then Fail(StackIndexNotValid)
              else Ok(cpu.(offset := cpu.offset + 1, stack := [s[1], s[0]] + s[2..]))
    ensures var s := cpu.stack;
            Holds(env.code, cpu.offset, [0x17]) ==>
              Performed(env, cpu) ==
              if |s| < 3 then Fail(StackIndexNotValid)
              else Ok(cpu.(offset := cpu.offset + 1, stack := [s[1], s[2], s[0]] + s[3..]))
  {
    hide Env.Valid, Holds;
    if Holds(env.code, cpu.offset, [0x16]) {
      HoldsOne(env.code, cpu.offset, 0x16);
      if |cpu.stack| >= 2 { Plain(env, cpu, 0x16, Swap, 2); }
    }
    if Holds(env.code, cpu.offset, [0x17]) {
      HoldsOne(env.code, cpu.offset, 0x17);
      if |cpu.stack| >= 3 { Plain(env, cpu, 0x17, Rot, 3); }
    }
  }

  /** The operations that are not supported. */
  predicate Unsupported(op: Byte) {
    || op < 0x03 || op == 0x04 || op == 0x05 || op == 0x07 || op == 0x18
    || op == 0x91 || op == 0x93 || op == 0x95 || op > 0x96
  }

  /** An operation has a handler if and only if it is supported; the others always fail. */
  lemma SupportedExactly(env: Env, cpu: Cpu, op: Byte)
    requires env.Valid() && ByteAt(env.code, cpu.offset) == Some(op)
    ensures TableEntry(op).handler != Illegal && TableEntry(op).handler != NotImplemented <==> !Unsupported(op)
    ensures Unsupported(op) ==> Performed(env, cpu).Fail?
  {
    hide ReadOperands, Env.Valid;
  }

  /** The operations that have taken a value off the stack when they fail: reads of memory, and divisions. */
  predicate TakesOne(env: Env, cpu: Cpu, op: Byte) {
    var size := ByteAt(env.code, cpu.offset + 1);
    || (op == 0x06 && |cpu.stack| >= 1)
    || (op == 0x94 && |cpu.stack| >= 1 && size.Some? && 1 <= size.value <= env.bits / 8)
    || ((op == 0x1b || op == 0x1d) && |cpu.stack| >= 2)
  }

  /** What an operation that fails leaves on the stack. */
  lemma FailureLeaves(env: Env, cpu: Cpu, op: Byte)
    requires env.Valid() && ByteAt(env.code, cpu.offset) == Some(op) && Performed(env, cpu).Fail?
    ensures LeftOver(env, cpu) == if TakesOne(env, cpu, op) then cpu.stack[1..] else cpu.stack
  {
    hide Env.Valid, Handle, Performed, ReadEncoded;
    if op == 0x94 {
      SizeRead(env, cpu.offset + 1);
    } else {
      OnlyThese(op);
      hide TableEntry;
    }
  }

  lemma OnlyThese(op: Byte)
    ensures var h := TableEntry(op).handler;
            && (h == Deref <==> op == 0x06) && (h == DerefSize <==> op == 0x94)
            && (h == Binary(Div) <==> op == 0x1b) && (h == Binary(Mod) <==> op == 0x1d)
    ensures op == 0x06 ==> TableEntry(op).required == 1 && TableEntry(op).operands == []
    ensures op == 0x1b || op == 0x1d ==> TableEntry(op).required == 2 && TableEntry(op).operands == []
  {
  }

  lemma SizeRead(env: Env, offset: nat)
    requires env.Valid()
    ensures ReadOperands(env, [Udata(1)], offset) ==
            match ByteAt(env.code, offset) case None => None case Some(b) => Some(([b as nat], offset + 1))
  {
    assert [Udata(1)][1..] == [];
    var byte := ByteAt(env.code, offset);
    if byte.Some? {
      ByteOperand(env, offset, byte.value);
      hide ReadEncoded, Env.Valid;
      assert ReadOperands(env, [], offset + 1) == Some(([], offset + 1));
      assert [byte.value as nat] + [] == [byte.value as nat];
    }
  }

  /** The operations that name a register push its number and say so. */
  lemma Names(env: Env, cpu: Cpu, r: nat, code: seq<Byte>)
    requires env.Valid() && r < env.Word() && Holds(env.code, cpu.offset, code)
    requires (r < 32 && code == [0x50 + r]) || code == [0x90] + EncodeUleb(r)
    ensures Performed(env, cpu) == Ok(Cpu(cpu.offset + |code|, [r] + cpu.stack, true))
  {
    hide ReadEncoded, Holds, EncodeUleb, Pow2;
    Pow2Known();
    RemainderIs(r, env.Word(), 0, r);
    hide Env.Valid, Env.Word;
    var op := code[0];
    assert code == [op] + code[1..];
    HoldsRest(env.code, cpu.offset, op, code[1..]);
    if op == 0x90 {
      assert code[1..] == EncodeUleb(r);
      ReadsUleb(env, cpu.offset + 1, r);
      WithOperand(env, cpu, op, Regx, 0, Uleb, r, cpu.offset + |code|);
    } else {
      Plain(env, cpu, op, Reg, 0);
    }
  }
}
