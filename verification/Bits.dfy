/** Powers of two, and bitwise operations on integers in two's complement of any width. */
module Bits {

  type Byte = b: int | 0 <= b < 256

  function Pow2(n: nat): (p: nat)
    ensures p >= 1
  {
    if n == 0 then 1 else 2 * Pow2(n - 1)
  }

  lemma {:induction false} Pow2Adds(a: nat, b: nat)
    ensures Pow2(a + b) == Pow2(a) * Pow2(b)
  {
    if a > 0 {
      Pow2Adds(a - 1, b);
      assert Pow2(a + b) == 2 * Pow2(a - 1 + b);
    }
  }

  lemma {:induction false} Pow2Grows(a: nat, b: nat)
    requires a <= b
    ensures Pow2(a) <= Pow2(b)
  {
    if a < b { Pow2Grows(a, b - 1); }
  }

  lemma Pow2Byte(n: nat)
    ensures Pow2(n + 8) == 256 * Pow2(n)
    ensures Pow2(n + 7) == 128 * Pow2(n)
    ensures Pow2(n + 6) == 64 * Pow2(n)
  {
    var m := n + 4;
    assert Pow2(m) == 2 * Pow2(m - 1) && Pow2(m - 1) == 2 * Pow2(m - 2);
    assert Pow2(m - 2) == 2 * Pow2(m - 3);
    assert Pow2(m) == 16 * Pow2(n);
    assert Pow2(m + 2) == 2 * Pow2(m + 1) == 4 * Pow2(m);
    assert Pow2(m + 3) == 2 * Pow2(m + 2);
  }

  lemma Pow2Known()
    ensures Pow2(7) == 128 && Pow2(8) == 256 && Pow2(16) == 0x1_0000 && Pow2(32) == 0x1_0000_0000
    ensures Pow2(31) == 0x8000_0000 && Pow2(62) == 0x4000_0000_0000_0000 && Pow2(63) == 0x8000_0000_0000_0000
    ensures Pow2(64) == 0x1_0000_0000_0000_0000
  {
    hide Pow2;
    assert Pow2(0) == 1 by { Pow2Zero(); }
    Pow2Byte(0);
    Pow2Byte(8);
    Pow2Byte(16);
    Pow2Byte(24);
    Pow2Byte(32);
    Pow2Byte(40);
    Pow2Byte(48);
    Pow2Byte(56);
  }

  lemma Pow2Zero()
    ensures Pow2(0) == 1
  {
  }

  datatype BitOp = And | Or | Xor

  function OnBits(op: BitOp, x: int, y: int): (z: int)
    requires 0 <= x <= 1 && 0 <= y <= 1
    ensures 0 <= z <= 1
  {
    match op
    case And => if x == 1 && y == 1 then 1 else 0
    case Or => if x == 1 || y == 1 then 1 else 0
    case Xor => if x != y then 1 else 0
  }

  function Magnitude(a: int): nat {
    if a < 0 then -a else a
  }

  function Bitwise(op: BitOp, a: int, b: int): int
    decreases Magnitude(a) + Magnitude(b)
  {
    if -1 <= a <= 0 && -1 <= b <= 0 then -OnBits(op, -a, -b)
    else 2 * Bitwise(op, a / 2, b / 2) + OnBits(op, a % 2, b % 2)
  }

  lemma BitwiseUnfolds(op: BitOp, a: int, b: int)
    ensures Bitwise(op, a, b) == 2 * Bitwise(op, a / 2, b / 2) + OnBits(op, a % 2, b % 2)
  {
    if -1 <= a <= 0 && -1 <= b <= 0 {
      assert a / 2 == a && b / 2 == b && a % 2 == -a && b % 2 == -b;
    }
  }

  /** Or and and of two numbers have their sum, and xor their difference. */
  lemma {:induction false} BitwiseLaws(a: int, b: int)
    ensures Bitwise(Or, a, b) + Bitwise(And, a, b) == a + b
    ensures Bitwise(Or, a, b) - Bitwise(And, a, b) == Bitwise(Xor, a, b)
    decreases Magnitude(a) + Magnitude(b)
  {
    if !(-1 <= a <= 0 && -1 <= b <= 0) {
      hide Bitwise, OnBits;
      BitwiseLaws(a / 2, b / 2);
      BitwiseUnfolds(And, a, b);
      BitwiseUnfolds(Or, a, b);
      BitwiseUnfolds(Xor, a, b);
      OnBitsLaws(a % 2, b % 2);
    }
  }

  lemma OnBitsLaws(x: int, y: int)
    requires 0 <= x <= 1 && 0 <= y <= 1
    ensures OnBits(Or, x, y) + OnBits(And, x, y) == x + y
    ensures OnBits(Or, x, y) - OnBits(And, x, y) == OnBits(Xor, x, y)
  {
  }

  /** The low bit of a remainder, and the bits above it. */
  lemma Halves(x: int, half: int, bit: int, p: nat)
    requires p >= 1 && x == 2 * half + bit && 0 <= bit <= 1
    ensures x % (2 * p) == 2 * (half % p) + bit
    ensures (x % (2 * p)) / 2 == half % p && (x % (2 * p)) % 2 == bit
  {
    var q, r := half / p, half % p;
    assert half == q * p + r;
    assert 2 * (q * p) == q * (2 * p);
    RemainderIs(x, 2 * p, q, 2 * r + bit);
  }

  lemma RemainderIs(x: int, m: nat, q: int, r: int)
    requires m >= 1 && x == q * m + r && 0 <= r < m
    ensures x % m == r && x / m == q
  {
    OneQuotient(m, q, r, x / m, x % m);
  }

  lemma OneQuotient(m: nat, q: int, r: int, q': int, r': int)
    requires q * m + r == q' * m + r' && 0 <= r < m && 0 <= r' < m
    ensures q == q' && r == r'
  {
    if q < q' { AtLeast(q' - q, m); }
    if q' < q { AtLeast(q - q', m); }
  }

  lemma AtLeast(k: int, m: nat)
    requires k >= 1
    ensures k * m >= m
  {
  }

  /** The low `n` bits. */
  function Low(x: int, n: nat): nat
    decreases n
  {
    if n == 0 then 0 else 2 * Low(x / 2, n - 1) + x % 2
  }

  lemma LowUnfolds(x: int, half: int, bit: int, n: nat)
    requires n > 0 && x == 2 * half + bit && 0 <= bit <= 1
    ensures Low(x, n) == 2 * Low(half, n - 1) + bit && Low(x, n) / 2 == Low(half, n - 1) && Low(x, n) % 2 == bit
  {
    assert x / 2 == half && x % 2 == bit;
  }

  lemma {:induction false} LowIs(x: int, n: nat)
    ensures Low(x, n) == x % Pow2(n)
    decreases n
  {
    if n > 0 {
      LowIs(x / 2, n - 1);
      Halves(x, x / 2, x % 2, Pow2(n - 1));
    }
  }

  /** The low bits of the result depend only on the low bits of the operands. */
  lemma {:induction false} LowOfBitwise(op: BitOp, a: int, b: int, n: nat)
    ensures Low(Bitwise(op, a, b), n) == Bitwise(op, Low(a, n), Low(b, n))
    decreases n
  {
    if n > 0 {
      hide Bitwise, OnBits;
      hide Low;
      LowOfBitwise(op, a / 2, b / 2, n - 1);
      BitwiseUnfolds(op, a, b);
      LowUnfolds(Bitwise(op, a, b), Bitwise(op, a / 2, b / 2), OnBits(op, a % 2, b % 2), n);
      LowUnfolds(a, a / 2, a % 2, n);
      LowUnfolds(b, b / 2, b % 2, n);
      BitwiseUnfolds(op, Low(a, n), Low(b, n));
    }
  }

  /** Bitwise operations on words are those on integers, cut to the width. */
  lemma BitwiseMod(op: BitOp, a: int, b: int, n: nat)
    ensures Bitwise(op, a, b) % Pow2(n) == Bitwise(op, a % Pow2(n), b % Pow2(n))
  {
    LowOfBitwise(op, a, b, n);
    LowIs(a, n);
    LowIs(b, n);
    LowIs(Bitwise(op, a, b), n);
  }

  /** Filling in ones above the low bits subtracts a power of two. */
  lemma {:induction false} OrWithSign(a: nat, n: nat)
    requires a < Pow2(n)
    ensures Bitwise(Or, a, 0 - Pow2(n)) == a - Pow2(n)
  {
    if n > 0 {
      var sign: int := 0 - Pow2(n);
      BitwiseUnfolds(Or, a, sign);
      assert sign / 2 == 0 - Pow2(n - 1) && sign % 2 == 0;
      OrWithSign(a / 2, n - 1);
    }
  }

  lemma {:induction false} OrWithOnes(a: int)
    ensures Bitwise(Or, a, -1) == -1
    decreases Magnitude(a)
  {
    if !(-1 <= a <= 0) {
      OrWithOnes(a / 2);
      BitwiseUnfolds(Or, a, -1);
    }
  }

  /** Ones above the low bits leave a small negative number, whatever they are filled into. */
  lemma {:induction false} OrMakesSmall(a: int, n: nat)
    ensures 0 - Pow2(n) <= Bitwise(Or, a, 0 - Pow2(n)) < 0
    decreases n
  {
    if n == 0 {
      OrWithOnes(a);
    } else {
      var sign: int := 0 - Pow2(n);
      BitwiseUnfolds(Or, a, sign);
      assert sign / 2 == 0 - Pow2(n - 1) && sign % 2 == 0;
      OrMakesSmall(a / 2, n - 1);
    }
  }

  // ----- arithmetic modulo a word

  lemma Divides(x: int, m: nat) returns (q: int, r: int)
    requires m >= 1
    ensures x == q * m + r && r == x % m && 0 <= r < m
  {
    q, r := x / m, x % m;
  }

  /** Numbers that differ by a multiple have the same remainder. */
  lemma SameMod(x: int, y: int, k: int, m: nat)
    requires m >= 1 && x == y + k * m
    ensures x % m == y % m
  {
    var q, r := Divides(y, m);
    Distributes(q, k, m);
    RemainderIs(x, m, q + k, r);
  }

  lemma Distributes(a: int, b: int, m: int)
    ensures (a + b) * m == a * m + b * m
    ensures (a - b) * m == a * m - b * m
  {
  }

  lemma ModPlus(a: int, b: int, m: nat)
    requires m >= 1
    ensures (a % m + b % m) % m == (a + b) % m
  {
    var p, x := Divides(a, m);
    var q, y := Divides(b, m);
    Distributes(p, q, m);
    SameMod(a + b, x + y, p + q, m);
  }

  lemma ModMinus(a: int, b: int, m: nat)
    requires m >= 1
    ensures (a % m - b % m) % m == (a - b) % m
  {
    var p, x := Divides(a, m);
    var q, y := Divides(b, m);
    Distributes(p, q, m);
    SameMod(a - b, x - y, p - q, m);
  }

  lemma ModTimes(a: int, b: int, m: nat)
    requires m >= 1
    ensures (a % m * (b % m)) % m == (a * b) % m
  {
    var p, x := Divides(a, m);
    var q, y := Divides(b, m);
    ProductSplits(p, x, q, y, m);
    SameMod(a * b, x * y, p * q * m + p * y + x * q, m);
  }

  lemma ProductSplits(p: int, x: int, q: int, y: int, m: int)
    ensures (p * m + x) * (q * m + y) == x * y + (p * q * m + p * y + x * q) * m
  {
    var u := p * m;
    assert (u + x) * (q * m + y) == u * (q * m) + u * y + x * (q * m) + x * y;
    assert u * (q * m) == (p * q * m) * m && u * y == (p * y) * m && x * (q * m) == (x * q) * m;
    Distributes(p * q * m, p * y, m);
    Distributes(p * q * m + p * y, x * q, m);
  }

  // ----- masks

  /** Masking with ones below a power of two takes the remainder. */
  lemma {:induction false} AndWithMask(x: int, n: nat)
    ensures Bitwise(And, x, Pow2(n) - 1) == x % Pow2(n)
    decreases n
  {
    if n == 0 {
      AndWithZero(x);
    } else {
      var p, mask := Pow2(n - 1), Pow2(n) - 1;
      assert mask == 2 * p - 1 && mask / 2 == p - 1 && mask % 2 == 1;
      hide Bitwise, OnBits, Pow2;
      BitwiseUnfolds(And, x, mask);
      AndWithMask(x / 2, n - 1);
      Halves(x, x / 2, x % 2, p);
      assert OnBits(And, x % 2, 1) == x % 2 by { AndWithOne(x % 2); }
    }
  }

  lemma AndWithOne(x: int)
    requires 0 <= x <= 1
    ensures OnBits(And, x, 1) == x
  {
  }

  lemma {:induction false} AndWithZero(x: int)
    ensures Bitwise(And, x, 0) == 0
    decreases Magnitude(x)
  {
    if !(-1 <= x <= 0) { AndWithZero(x / 2); }
  }

  lemma {:induction false} AndWithSelf(x: nat)
    ensures Bitwise(And, x, x) == x
  {
    if x > 0 {
      AndWithSelf(x / 2);
      BitwiseUnfolds(And, x, x);
    }
  }

  /** A positive number that has no bit in common with its predecessor is a power of two. */
  lemma {:induction false} PowerOfTwo(x: nat) returns (n: nat)
    requires x > 0 && Bitwise(And, x, x - 1) == 0
    ensures x == Pow2(n)
  {
    hide Bitwise;
    BitwiseUnfolds(And, x, x - 1);
    if x % 2 == 1 {
      assert x / 2 == (x - 1) / 2;
      AndWithSelf(x / 2);
      n := 0;
    } else {
      assert (x - 1) / 2 == x / 2 - 1;
      var m := PowerOfTwo(x / 2);
      n := m + 1;
    }
  }

  lemma {:induction false} PowerOfTwoIs(n: nat)
    ensures Bitwise(And, Pow2(n), Pow2(n) - 1) == 0
  {
    AndWithMask(Pow2(n), n);
    RemainderIs(Pow2(n), Pow2(n), 1, 0);
  }

  // ----- smearing the highest bit downwards

  /** High and low bits are combined separately. */
  lemma {:induction false} BitwiseSplits(op: BitOp, a: nat, b: nat, n: nat)
    ensures Bitwise(op, a, b) / Pow2(n) == Bitwise(op, a / Pow2(n), b / Pow2(n))
  {
    hide Bitwise, Pow2;
    if n == 0 {
      Pow2Zero();
    } else {
      Pow2Doubles(n);
      BitwiseSplits(op, a / 2, b / 2, n - 1);
      SplitStep(op, a, b, Pow2(n - 1));
    }
  }

  lemma Pow2Doubles(n: nat)
    requires n > 0
    ensures Pow2(n) == 2 * Pow2(n - 1)
  {
  }

  lemma SplitStep(op: BitOp, a: nat, b: nat, p: nat)
    requires p >= 1 && Bitwise(op, a / 2, b / 2) / p == Bitwise(op, a / 2 / p, b / 2 / p)
    ensures Bitwise(op, a, b) / (2 * p) == Bitwise(op, a / (2 * p), b / (2 * p))
  {
    hide Bitwise, OnBits;
    BitwiseUnfolds(op, a, b);
    DivideTwice(a, a / 2, a % 2, p);
    DivideTwice(b, b / 2, b % 2, p);
    DivideTwice(Bitwise(op, a, b), Bitwise(op, a / 2, b / 2), OnBits(op, a % 2, b % 2), p);
  }

  lemma DivideTwice(x: int, half: int, bit: int, p: nat)
    requires p >= 1 && x == 2 * half + bit && 0 <= bit <= 1
    ensures x / (2 * p) == half / p
  {
    var q, r := Divides(half, p);
    RemainderIs(half, p, q, r);
    assert 2 * (q * p) == q * (2 * p);
    RemainderIs(x, 2 * p, q, 2 * r + bit);
  }

  lemma {:induction false} OrWithMask(x: nat, n: nat)
    ensures Bitwise(Or, x, Pow2(n) - 1) == x - x % Pow2(n) + Pow2(n) - 1
    decreases n
  {
    if n == 0 {
      OrWithZero(x);
    } else {
      var p := Pow2(n - 1);
      assert Pow2(n) == 2 * p;
      OrWithMask(x / 2, n - 1);
      hide Pow2, Bitwise;
      OrWithMaskStep(x, x / 2, x % 2, p);
    }
  }

  lemma OrWithMaskStep(x: nat, half: nat, bit: nat, p: nat)
    requires p >= 1 && x == 2 * half + bit && bit <= 1 && Bitwise(Or, half, p - 1) == half - half % p + p - 1
    ensures Bitwise(Or, x, 2 * p - 1) == x - x % (2 * p) + 2 * p - 1
  {
    hide Bitwise, OnBits;
    var mask := 2 * p - 1;
    assert mask / 2 == p - 1 && mask % 2 == 1 && x / 2 == half && x % 2 == bit;
    BitwiseUnfolds(Or, x, mask);
    Halves(x, half, bit, p);
    OrWithOne(bit);
  }

  lemma OrWithOne(x: int)
    requires 0 <= x <= 1
    ensures OnBits(Or, x, 1) == 1
  {
  }

  lemma {:induction false} OrWithZero(x: nat)
    ensures Bitwise(Or, x, 0) == x
  {
    if x > 0 {
      OrWithZero(x / 2);
      BitwiseUnfolds(Or, x, 0);
    }
  }

  /** The number has `n` bits, of which the first `s` are ones. */
  predicate Smeared(x: int, n: nat, s: nat) {
    if s < n then x / Pow2(n - s) == Pow2(s) - 1 else x == Pow2(n) - 1
  }

  /** Or-ing a number with itself shifted doubles the ones at its front. */
  lemma SmearDoubles(x: nat, n: nat, s: nat)
    requires Smeared(x, n, s) && s > 0
    ensures Smeared(Bitwise(Or, x, x / Pow2(s)), n, 2 * s)
  {
    hide Bitwise, Pow2;
    if s >= n {
      Pow2Grows(n, s);
      RemainderIs(x, Pow2(s), 0, x);
      OrWithZero(x);
    } else if 2 * s < n {
      SmearInside(x, n, s);
    } else {
      SmearToEnd(x, n, s);
    }
  }

  lemma DivideAgain(x: nat, a: nat, b: nat)
    ensures x / Pow2(a) / Pow2(b) == x / Pow2(a + b)
  {
    hide Pow2;
    var q, r := Divides(x, Pow2(a));
    var q', r' := Divides(q, Pow2(b));
    RemainderIs(x, Pow2(a), q, r);
    RemainderIs(q, Pow2(b), q', r');
    Pow2Adds(a, b);
    Nested(q', r', r, Pow2(a), Pow2(b));
    RemainderIs(x, Pow2(a + b), q', r' * Pow2(a) + r);
  }

  lemma Nested(q: int, r': int, r: int, a: int, b: int)
    requires 0 <= r < a && 0 <= r' < b
    ensures (q * b + r') * a + r == q * (a * b) + (r' * a + r) && 0 <= r' * a + r < a * b
  {
    assert (q * b + r') * a == q * (a * b) + r' * a;
    assert r' * a <= (b - 1) * a == a * b - a;
  }

  lemma SmearInside(x: nat, n: nat, s: nat)
    requires Smeared(x, n, s) && 0 < s && 2 * s < n
    ensures Smeared(Bitwise(Or, x, x / Pow2(s)), n, 2 * s)
  {
    hide Bitwise, Pow2;
    var k := n - 2 * s;
    var u := x / Pow2(k);
    BitwiseSplits(Or, x, x / Pow2(s), k);
    DivideAgain(x, s, k);
    DivideAgain(x, k, s);
    var q, r := Divides(u, Pow2(s));
    RemainderIs(u, Pow2(s), q, r);
    assert q == Pow2(s) - 1;
    OrWithMask(u, s);
    Pow2Adds(s, s);
    Distributes(Pow2(s), 1, Pow2(s));
  }

  lemma SmearToEnd(x: nat, n: nat, s: nat)
    requires Smeared(x, n, s) && s < n <= 2 * s
    ensures Bitwise(Or, x, x / Pow2(s)) == Pow2(n) - 1
  {
    hide Bitwise, Pow2;
    var m := n - s;
    var q, c := Divides(x, Pow2(m));
    RemainderIs(x, Pow2(m), q, c);
    Pow2Adds(s, m);
    Distributes(Pow2(s), 1, Pow2(m));
    Pow2Grows(m, s);
    Distributes(Pow2(m), 1, Pow2(s));
    RemainderIs(x, Pow2(s), Pow2(m) - 1, Pow2(s) - Pow2(m) + c);
    OrWithMask(x, m);
  }

  lemma {:induction false} BitwiseOfNats(op: BitOp, a: nat, b: nat)
    ensures Bitwise(op, a, b) >= 0
    decreases a + b
  {
    if a > 0 || b > 0 {
      BitwiseOfNats(op, a / 2, b / 2);
    }
  }

  // ----- little-endian numbers

  function Bytes(size: nat, v: nat): seq<Byte>
    decreases size
  {
    if size == 0 then [] else [v % 256] + Bytes(size - 1, v / 256)
  }

  function ValueOf(bytes: seq<Byte>): nat {
    if bytes == [] then 0 else bytes[0] + 256 * ValueOf(bytes[1..])
  }

  lemma {:induction false} BytesLength(size: nat, v: nat)
    ensures |Bytes(size, v)| == size
    decreases size
  {
    if size > 0 { BytesLength(size - 1, v / 256); }
  }

  lemma {:induction false} BytesAre(size: nat, v: nat)
    requires v < Pow2(8 * size)
    ensures |Bytes(size, v)| == size && ValueOf(Bytes(size, v)) == v
    decreases size
  {
    if size > 0 {
      Pow2Byte(8 * (size - 1));
      BytesAre(size - 1, v / 256);
      assert Bytes(size, v)[1..] == Bytes(size - 1, v / 256);
    }
  }

  /** Bytes are the bytes of their value. */
  lemma {:induction false} ValueBack(bytes: seq<Byte>)
    ensures Bytes(|bytes|, ValueOf(bytes)) == bytes
  {
    if bytes != [] {
      ValueBack(bytes[1..]);
      var first: int, rest := bytes[0], ValueOf(bytes[1..]);
      assert (first + 256 * rest) % 256 == first && (first + 256 * rest) / 256 == rest;
    }
  }

  lemma {:induction false} ValueFits(bytes: seq<Byte>)
    ensures ValueOf(bytes) < Pow2(8 * |bytes|)
  {
    if bytes != [] {
      ValueFits(bytes[1..]);
      Pow2Byte(8 * (|bytes| - 1));
    }
  }
}
