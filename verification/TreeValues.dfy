/**
 Expressions as trees: their values over the integers, the registers and the
 memory, and that each operation on words computes the one of the tree.
 */
module TreeValues {
  import opened Bits
  import opened DwarfMemory
  import opened DwarfOp
  import opened Laws = DwarfOpLaws
  import opened OrderedKeys
  import opened WordSizes

  /** The numbers and registers that fit an operation byte. */
  type Small = n: nat | n < 32

  /** The sizes of operands. */
  type OperandSize = n: nat | n == 1 || n == 2 || n == 4 || n == 8 witness 1

  datatype UnaryOp =
    | Complement | Opposite | Absolute | Contents | Bytes(size: Byte) | Increment(n: nat) | Idle

  datatype Tree =
    | Literal(n: Small)
    | Fixed(size: OperandSize, v: nat)
    | FixedSigned(size: OperandSize, i: int)
    | Address(size: OperandSize, v: nat)
    | Unsigned(v: nat)
    | Signed(i: int)
    | RegisterPlus(reg: Small, i: int)
    | AnyRegisterPlus(r: nat, i: int)
    | Node(op: BinaryOp, left: Tree, right: Tree)
    | Unary(f: UnaryOp, t: Tree)
    | Choice(condition: Tree, yes: Tree, no: Tree)

  // ----- values

  /** The word that stands for a number. */
  function Word(env: Env, a: int): (u: nat)
    ensures u < env.Word()
  {
    a % env.Word()
  }

  /** The signed number that the word of a number stands for. */
  function AsSigned(env: Env, a: int): int {
    (a + env.Word() / 2) % env.Word() - env.Word() / 2
  }

  /** The signed number that has no opposite. */
  function Lowest(env: Env): int {
    0 - env.Word() / 2
  }

  function Toward0(a: int, b: int): int
    requires b != 0
  {
    var q := Magnitude(a) / Magnitude(b);
    if a < 0 <==> b < 0 then q else -q
  }

  function Truth(b: bool): int {
    if b then 1 else 0
  }

  /** The little-endian number in memory. */
  ghost function Loaded(ram: nat -> Option<Byte>, addr: nat, size: nat): Outcome<int> {
    if bytes :| |bytes| == size && InRam(ram, addr, bytes) then Ok(ValueOf(bytes)) else Fail(MemoryInvalid)
  }

  /**
   An operation on two values.  Comparisons, remainders and shifts to the right
   depend on the width; where C++ leaves the result open, it is that of `undef`.
   */
  function BinaryValue(env: Env, op: BinaryOp, a: int, b: int): Outcome<int> {
    var ua, ub, sa, sb := Word(env, a), Word(env, b), AsSigned(env, a), AsSigned(env, b);
    match op
    case Bit(bit) => Ok(Bitwise(bit, a, b))
    case Plus => Ok(a + b)
    case Minus => Ok(a - b)
    case Mul => Ok(a * b)
    case Div =>
      if ub == 0 || sb == 0 then Fail(IllegalValue)
      else if sa == Lowest(env) && sb == -1 then Ok(env.undef(Binary(op), ua, ub))
      else Ok(Toward0(sa, sb))
    case Mod => if ub == 0 then Fail(IllegalValue) else Ok(ua % ub)
    case Shl => Ok(if ub < env.bits then a * Pow2(ub) else env.undef(Binary(op), ua, ub))
    case Shr => Ok(if ub < env.bits then ua / Pow2(ub) else env.undef(Binary(op), ua, ub))
    case Shra => Ok(if ub < env.bits then sa / Pow2(ub) else env.undef(Binary(op), ua, ub))
    case Eq => Ok(Truth(ua == ub))
    case Ge => Ok(Truth(ub <= ua))
    case Gt => Ok(Truth(ub < ua))
    case Le => Ok(Truth(ua <= ub))
    case Lt => Ok(Truth(ua < ub))
    case Ne => Ok(Truth(ua != ub))
  }

  ghost function UnaryValue(env: Env, f: UnaryOp, a: int): Outcome<int> {
    match f
    case Complement => Ok(-1 - a)
    case Opposite => Ok(if AsSigned(env, a) == Lowest(env) then env.undef(Neg, Word(env, a), 0) else -a)
    case Absolute =>
      var sa := AsSigned(env, a);
      Ok(if sa == Lowest(env) then env.undef(Abs, Word(env, a), 0) else Magnitude(sa))
    case Contents => Loaded(env.ram, Word(env, a), env.bits / 8)
    case Bytes(size) =>
      if 1 <= 8 * size <= env.bits then Loaded(env.ram, Word(env, a), size) else Fail(IllegalValue)
    case Increment(n) => Ok(a + n)
    case Idle => Ok(a)
  }

  function RegisterValue(env: Env, reg: nat, i: int): Outcome<int> {
    if reg < |env.regs| then Ok(env.regs[reg] + i) else Fail(IllegalValue)
  }

  /** The value of a tree, or why it has none; only what a choice selects is evaluated. */
  ghost function Value(env: Env, t: Tree): Outcome<int> {
    match t
    case Literal(n) => Ok(n)
    case Fixed(_, v) => Ok(v)
    case FixedSigned(_, i) => Ok(i)
    case Address(_, v) => Ok(v)
    case Unsigned(v) => Ok(v)
    case Signed(i) => Ok(i)
    case RegisterPlus(reg, i) => RegisterValue(env, reg, i)
    case AnyRegisterPlus(r, i) => RegisterValue(env, r, i)
    case Node(op, l, r) =>
      var a, b := Value(env, l), Value(env, r);
      if a.Fail? then a else if b.Fail? then b else BinaryValue(env, op, a.value, b.value)
    case Unary(f, t) =>
      var a := Value(env, t);
      if a.Fail? then a else UnaryValue(env, f, a.value)
    case Choice(c, yes, no) =>
      var a := Value(env, c);
      if a.Fail? then a else if Word(env, a.value) != 0 then Value(env, yes) else Value(env, no)
  }

  /** How many operations are performed, counting one that fails. */
  ghost function Steps(env: Env, t: Tree): (n: nat)
    ensures n >= 1
  {
    match t
    case Node(_, l, r) =>
      if Value(env, l).Fail? then Steps(env, l)
      else Steps(env, l) + Steps(env, r) + if Value(env, r).Fail? then 0 else 1
    case Unary(_, t) => Steps(env, t) + if Value(env, t).Fail? then 0 else 1
    case Choice(c, yes, no) =>
      var a := Value(env, c);
      if a.Fail? then Steps(env, c)
      else if Word(env, a.value) != 0 then Steps(env, c) + 1 + Steps(env, yes)
      else Steps(env, c) + 1 + Steps(env, no) + if Value(env, no).Fail? then 0 else 1
    case _ => 1
  }

  // ----- operations

  function Opcode(op: BinaryOp): Byte {
    match op
    case Bit(And) => 0x1a
    case Div => 0x1b
    case Minus => 0x1c
    case Mod => 0x1d
    case Mul => 0x1e
    case Bit(Or) => 0x21
    case Plus => 0x22
    case Shl => 0x24
    case Shr => 0x25
    case Shra => 0x26
    case Bit(Xor) => 0x27
    case Eq => 0x29
    case Ge => 0x2a
    case Gt => 0x2b
    case Le => 0x2c
    case Lt => 0x2d
    case Ne => 0x2e
  }

  function UnaryCode(f: UnaryOp): seq<Byte> {
    match f
    case Complement => [0x20]
    case Opposite => [0x1f]
    case Absolute => [0x19]
    case Contents => [0x06]
    case Bytes(size) => [0x94, size]
    case Increment(n) => [0x23] + EncodeUleb(n)
    case Idle => [0x96]
  }

  /** The constant operation with an operand of the given size. */
  function ConstantOp(size: OperandSize): Byte {
    if size == 1 then 0x08 else if size == 2 then 0x0a else if size == 4 then 0x0c else 0x0e
  }

  /** The same with a signed operand. */
  function SignedConstantOp(size: OperandSize): Byte {
    if size == 1 then 0x09 else if size == 2 then 0x0b else if size == 4 then 0x0d else 0x0f
  }

  const BRA: Byte := 0x28
  const SKIP: Byte := 0x2f

  /** The operations in postfix order; a choice branches over the operations that it does not select. */
  function Code(t: Tree): (code: seq<Byte>)
    ensures code != []
  {
    match t
    case Literal(n) => [0x30 + n]
    case Fixed(size, v) => [ConstantOp(size)] + Bits.Bytes(size, v)
    case FixedSigned(size, i) => [SignedConstantOp(size)] + Bits.Bytes(size, i % Pow2(8 * size))
    case Address(size, v) => [0x03] + Bits.Bytes(size, v)
    case Unsigned(v) => [0x10] + EncodeUleb(v)
    case Signed(i) => [0x11] + EncodeSleb(i)
    case RegisterPlus(reg, i) => [0x70 + reg] + EncodeSleb(i)
    case AnyRegisterPlus(r, i) => [0x92] + (EncodeUleb(r) + EncodeSleb(i))
    case Node(op, l, r) => Code(l) + (Code(r) + [Opcode(op)])
    case Unary(f, t) => Code(t) + UnaryCode(f)
    case Choice(c, yes, no) =>
      Code(c) + (Jump(BRA, |Code(no)| + 3) + (Code(no) + (Jump(SKIP, |Code(yes)|) + Code(yes))))
  }

  /** A branch by a signed number of 16 bits. */
  function Jump(op: Byte, d: int): seq<Byte> {
    [op] + Bits.Bytes(2, d % 0x1_0000)
  }

  predicate FitsSleb(i: int) {
    -0x4000_0000_0000_0000 <= i < 0x8000_0000_0000_0000
  }

  /** Numbers fit their operands, addresses have the size of the machine's, and branches reach. */
  predicate WellFormed(env: Env, t: Tree) {
    match t
    case Literal(_) => true
    case Fixed(size, v) => v < Pow2(8 * size)
    case FixedSigned(size, i) => 0 - Pow2(8 * size) <= 2 * i < Pow2(8 * size)
    case Address(size, v) => 8 * size == env.bits && v < Pow2(8 * size)
    case Unsigned(v) => v < TWO_64
    case Signed(i) => FitsSleb(i)
    case RegisterPlus(_, i) => FitsSleb(i)
    case AnyRegisterPlus(r, i) => r < env.Word() && FitsSleb(i)
    case Node(_, l, r) => WellFormed(env, l) && WellFormed(env, r)
    case Unary(f, t) => WellFormed(env, t) && (f.Increment? ==> f.n < TWO_64)
    case Choice(c, yes, no) =>
      && WellFormed(env, c) && WellFormed(env, yes) && WellFormed(env, no)
      && |Code(no)| + 3 < 0x8000 && |Code(yes)| < 0x8000
  }

  // ----- each operation is the one of the tree, modulo a word

  lemma SignedIs(env: Env, a: int)
    requires env.Valid()
    ensures AsSigned(env, a) == env.Signed(Word(env, a)) && Word(env, AsSigned(env, a)) == Word(env, a)
    ensures 2 * (env.Word() / 2) == env.Word() && 2 <= env.Word()
  {
    hide Pow2;
    Pow2Known();
    HalfTurn(a, env.Word());
  }

  lemma HalfTurn(a: int, w: nat)
    requires w >= 2 && w % 2 == 0
    ensures var s := (a + w / 2) % w - w / 2; s % w == a % w && s == if 2 * (a % w) < w then a % w else a % w - w
  {
    var h := w / 2;
    var q, x := Divides(a, w);
    Distributes(q, 1, w);
    if 2 * x < w {
      RemainderIs(a + h, w, q, x + h);
      SameMod(x, a, -q, w);
    } else {
      RemainderIs(a + h, w, q + 1, x - h);
      SameMod(x - w, a, -q - 1, w);
    }
  }

  /** The value cut to the width of a word. */
  function Cut(env: Env, o: Outcome<int>): Outcome<nat> {
    match o
    case Fail(e) => Fail(e)
    case Ok(v) => Ok(Word(env, v))
  }

  lemma WordAgain(env: Env, a: int)
    ensures Word(env, Word(env, a)) == Word(env, a)
  {
    hide Env.Word;
    RemainderIs(Word(env, a), env.Word(), 0, Word(env, a));
  }

  lemma RingIs(env: Env, op: BinaryOp, a: int, b: int)
    requires env.Valid() && (op.Bit? || op == Plus || op == Minus || op == Mul)
    ensures Apply(env, op, Word(env, a), Word(env, b)) == Cut(env, BinaryValue(env, op, a, b))
  {
    hide Bitwise, Pow2, TruncatedQuotient;
    var w := env.Word();
    match op
    case Bit(bit) =>
      BitwiseMod(bit, a, b, env.bits);
      WordAgain(env, Bitwise(bit, a, b));
    case Plus => ModPlus(a, b, w);
    case Minus => ModMinus(a, b, w);
    case Mul => ModTimes(a, b, w);
  }

  lemma QuotientIs(a: int, b: int)
    requires b != 0
    ensures TruncatedQuotient(a, b) == Toward0(a, b)
  {
    var n, d := Magnitude(a), Magnitude(b);
    var q, r := Divides(n, d);
    RemainderIs(n, d, q, r);
    if b < 0 { NegativeDivisor(n, d, q, r); }
  }

  lemma NegativeDivisor(n: nat, d: nat, q: int, r: int)
    requires d >= 1 && n == q * d + r && 0 <= r < d
    ensures n / -(d as int) == -q
  {
    var k: int := -(d as int);
    var q', r' := n / k, n % k;
    assert n == q' * k + r' && q' * k == -q' * d;
    OneQuotient(d, q, r, -q', r');
  }

  lemma DivisionIs(env: Env, op: BinaryOp, a: int, b: int)
    requires env.Valid() && (op == Div || op == Mod)
    ensures Apply(env, op, Word(env, a), Word(env, b)) == Cut(env, BinaryValue(env, op, a, b))
  {
    hide Pow2, TruncatedQuotient, Toward0;
    SignedIs(env, a);
    SignedIs(env, b);
    var ua, ub := Word(env, a), Word(env, b);
    if op == Div {
      if ub != 0 { QuotientIs(env.Signed(ua), env.Signed(ub)); }
    } else if ub != 0 {
      var q, r := Divides(ua, ub);
      RemainderIs(r, env.Word(), 0, r);
    }
  }

  lemma ShiftIs(env: Env, op: BinaryOp, a: int, b: int)
    requires env.Valid() && (op == Shl || op == Shr || op == Shra)
    ensures Apply(env, op, Word(env, a), Word(env, b)) == Cut(env, BinaryValue(env, op, a, b))
  {
    hide Pow2, TruncatedQuotient, Toward0;
    SignedIs(env, a);
    var ub := Word(env, b);
    var p := Pow2(ub);
    if op == Shl && ub < env.bits {
      ModTimes(Word(env, a), p, env.Word());
      ModTimes(a, p, env.Word());
      WordAgain(env, a);
    }
  }

  lemma CompareIs(env: Env, op: BinaryOp, a: int, b: int)
    requires env.Valid() && op in {Eq, Ge, Gt, Le, Lt, Ne}
    ensures Apply(env, op, Word(env, a), Word(env, b)) == Cut(env, BinaryValue(env, op, a, b))
  {
    hide Pow2, TruncatedQuotient, Toward0, AsSigned;
    Pow2Known();
    RemainderIs(0, env.Word(), 0, 0);
    RemainderIs(1, env.Word(), 0, 1);
  }

  /** Every operation on two words is the one on the numbers that they stand for. */
  lemma ApplyIs(env: Env, op: BinaryOp, a: int, b: int)
    requires env.Valid()
    ensures Apply(env, op, Word(env, a), Word(env, b)) == Cut(env, BinaryValue(env, op, a, b))
  {
    hide Apply, BinaryValue, Env.Valid;
    match op
    case Bit(_) | Plus | Minus | Mul => RingIs(env, op, a, b);
    case Div | Mod => DivisionIs(env, op, a, b);
    case Shl | Shr | Shra => ShiftIs(env, op, a, b);
    case Eq | Ge | Gt | Le | Lt | Ne => CompareIs(env, op, a, b);
  }

  /**
   Section 2.5.1.5 of DWARF version 4 asks for comparisons of signed numbers.
   Those of the code agree with them if and only if both numbers have the same
   sign, or only equality is asked for.
   */
  lemma ComparesAsSigned(env: Env, op: BinaryOp, a: int, b: int)
    requires env.Valid() && op in {Eq, Ge, Gt, Le, Lt, Ne}
    ensures var sa, sb := AsSigned(env, a), AsSigned(env, b);
            BinaryValue(env, op, a, b) == Ok(Truth(Compares(op, sa, sb))) <==>
            op == Eq || op == Ne || (sa < 0 <==> sb < 0)
  {
    hide Pow2, Toward0;
    SignedIs(env, a);
    SignedIs(env, b);
  }

  predicate Compares(op: BinaryOp, a: int, b: int) {
    match op
    case Eq => a == b
    case Ge => a >= b
    case Gt => a > b
    case Le => a <= b
    case Lt => a < b
    case _ => a != b
  }

  /** Zero and minus one: the code takes minus one for the larger one. */
  lemma ComparesOtherwise(env: Env)
    requires env.Valid()
    ensures BinaryValue(env, Lt, 0, -1) == Ok(1) && !Compares(Lt, AsSigned(env, 0), AsSigned(env, -1))
  {
    hide Pow2, Toward0;
    Pow2Known();
    RemainderIs(-1, env.Word(), -1, env.Word() - 1);
    RemainderIs(0, env.Word(), 0, 0);
    SignedIs(env, 0);
    SignedIs(env, -1);
  }

  lemma ComplementIs(env: Env, a: int)
    ensures (env.Word() - 1 - Word(env, a)) % env.Word() == Word(env, -1 - a)
  {
    hide Env.Word;
    var w := env.Word();
    var q, x := Divides(a, w);
    Distributes(q, -1, w);
    SameMod(w - 1 - x, -1 - a, q + 1, w);
  }

  /** Negation is that of the number, unless it has no opposite. */
  lemma NegatedIs(env: Env, h: Handler, a: int)
    requires env.Valid()
    ensures Negated(env, h, Word(env, a)) ==
            Word(env, if AsSigned(env, a) == Lowest(env) then env.undef(h, Word(env, a), 0) else -a)
    ensures AsSigned(env, a) == Lowest(env) <==> 2 * Word(env, a) == env.Word()
  {
    SignedIs(env, a);
    hide Env.Word;
    var w := env.Word();
    var s := AsSigned(env, a);
    var q, x := Divides(a, w);
    Distributes(q, -1, w);
    if 2 * x < w {
      SameMod(-x, -a, q, w);
    } else if 2 * x > w {
      SameMod(w - x, -a, q + 1, w);
    }
  }

  lemma AbsoluteIs(env: Env, a: int)
    requires env.Valid()
    ensures (if env.Signed(Word(env, a)) < 0 then Negated(env, Abs, Word(env, a)) else Word(env, a)) ==
            Word(env, if AsSigned(env, a) == Lowest(env) then env.undef(Abs, Word(env, a), 0)
                      else Magnitude(AsSigned(env, a)))
  {
    SignedIs(env, a);
    NegatedIs(env, Abs, a);
    hide Env.Word, Negated;
    var w := env.Word();
    ModMinus(0, a, w);
    ModMinus(0, AsSigned(env, a), w);
    WordAgain(env, a);
  }
}
