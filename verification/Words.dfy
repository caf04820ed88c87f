/** Fixed-width bit-vector values.

    A value of width `w` is a natural number below `2^w`.  Every operation of the symbolic
    language is defined here once, on numbers, in the way the host integers compute it; the
    lemmas say which bit each operation puts where and which algebraic laws it obeys. */
module Words {

  // ----- powers of two and Euclidean division -----

  function Pow2(n: nat): (p: nat)
    ensures p > 0
  {
    if n == 0 then 1 else 2 * Pow2(n - 1)
  }

  lemma {:induction false} Pow2Add(m: nat, n: nat)
    ensures Pow2(m + n) == Pow2(m) * Pow2(n)
  {
    if m > 0 {
      Pow2Add(m - 1, n);
      assert m + n - 1 == (m - 1) + n;
      assert 2 * (Pow2(m - 1) * Pow2(n)) == (2 * Pow2(m - 1)) * Pow2(n);
    }
  }

  lemma {:induction false} Pow2Mono(m: nat, n: nat)
    requires m <= n
    ensures Pow2(m) <= Pow2(n)
    decreases n
  {
    if m < n { Pow2Mono(m, n - 1); }
  }

  lemma {:induction false} WidthBelowPow2(n: nat)
    ensures n < Pow2(n)
  {
    if n > 0 { WidthBelowPow2(n - 1); }
  }

  lemma ModUnique(x: int, q: int, r: int, p: int)
    requires p > 0 && x == q * p + r && 0 <= r < p
    ensures x % p == r && x / p == q
  {
    assert x == (x / p) * p + x % p;
    var d := x / p - q;
    assert d * p == r - x % p by {
      assert (x / p) * p - q * p == d * p;
    }
    assert d == 0 by {
      assert d >= 1 ==> d * p >= p;
      assert d <= -1 ==> d * p <= -p;
    }
  }

  lemma ModShift(x: int, k: int, p: int)
    requires p > 0
    ensures (x + k * p) % p == x % p
  {
    assert x == (x / p) * p + x % p;
    assert (x / p + k) * p == (x / p) * p + k * p;
    ModUnique(x + k * p, x / p + k, x % p, p);
  }

  lemma ModAdd(a: int, b: int, p: int)
    requires p > 0
    ensures (a + b % p) % p == (a + b) % p
  {
    assert b == (b / p) * p + b % p;
    ModShift(a + b % p, b / p, p);
  }

  lemma ModMul(a: int, b: int, p: int)
    requires p > 0
    ensures (a * (b % p)) % p == (a * b) % p
  {
    assert b == (b / p) * p + b % p;
    calc {
      a * b;
      a * ((b / p) * p + b % p);
      a * ((b / p) * p) + a * (b % p);
      a * (b % p) + (a * (b / p)) * p;
    }
    ModShift(a * (b % p), a * (b / p), p);
  }

  lemma SmallMod(x: int, p: int)
    requires 0 <= x < p
    ensures x % p == x
  {
  }

  // ----- bits -----

  predicate Bit(v: nat, i: nat)
    decreases i
  {
    if i == 0 then v % 2 == 1 else Bit(v / 2, i - 1)
  }

  function FromBits(bits: seq<bool>): (v: nat)
    ensures v < Pow2(|bits|)
  {
    if bits == [] then 0 else (if bits[0] then 1 else 0) + 2 * FromBits(bits[1..])
  }

  function ToBits(v: nat, w: nat): (bits: seq<bool>)
    ensures |bits| == w
    decreases w
  {
    if w == 0 then [] else [v % 2 == 1] + ToBits(v / 2, w - 1)
  }

  lemma {:induction false} FromBitsBit(bits: seq<bool>, i: nat)
    ensures Bit(FromBits(bits), i) == (i < |bits| && bits[i])
    decreases |bits|
  {
    var v := FromBits(bits);
    if bits == [] {
      ZeroBit(i);
    } else {
      assert v / 2 == FromBits(bits[1..]);
      if i > 0 { FromBitsBit(bits[1..], i - 1); }
    }
  }

  lemma {:induction false} ZeroBit(i: nat)
    ensures !Bit(0, i)
  {
    if i > 0 { ZeroBit(i - 1); }
  }

  lemma {:induction false} ToBitsBit(v: nat, w: nat, i: nat)
    requires i < w
    ensures ToBits(v, w)[i] == Bit(v, i)
    decreases i
  {
    if i > 0 { ToBitsBit(v / 2, w - 1, i - 1); }
  }

  lemma {:induction false} FromToBits(v: nat, w: nat)
    requires v < Pow2(w)
    ensures FromBits(ToBits(v, w)) == v
    decreases w
  {
    if w > 0 {
      FromToBits(v / 2, w - 1);
      assert ToBits(v, w)[1..] == ToBits(v / 2, w - 1);
    }
  }

  /** Numbers of one width with the same bits are the same number. */
  lemma {:induction false} BitExtensionality(a: nat, b: nat, w: nat)
    requires a < Pow2(w) && b < Pow2(w)
    requires forall i: nat :: i < w ==> Bit(a, i) == Bit(b, i)
    ensures a == b
    decreases w
  {
    if w > 0 {
      assert Bit(a, 0) == Bit(b, 0);
      forall i: nat | i < w - 1 ensures Bit(a / 2, i) == Bit(b / 2, i) {
        assert Bit(a, i + 1) == Bit(b, i + 1);
      }
      BitExtensionality(a / 2, b / 2, w - 1);
    }
  }

  /** Bits at or above the width of a number are clear. */
  lemma {:induction false} HighBitsClear(v: nat, w: nat, i: nat)
    requires v < Pow2(w) && w <= i
    ensures !Bit(v, i)
    decreases w
  {
    if w == 0 { ZeroBit(i); } else { HighBitsClear(v / 2, w - 1, i - 1); }
  }

  /** Multiplying by `2^k` moves every bit up by `k`. */
  lemma {:induction false} ShiftUpBit(v: nat, k: nat, i: nat)
    ensures Bit(v * Pow2(k), i) == (k <= i && Bit(v, i - k))
    decreases k
  {
    if k > 0 {
      var u := v * Pow2(k - 1);
      assert v * Pow2(k) == 2 * u by { assert v * (2 * Pow2(k - 1)) == 2 * (v * Pow2(k - 1)); }
      assert (2 * u) / 2 == u && (2 * u) % 2 == 0;
      if i > 0 { ShiftUpBit(v, k - 1, i - 1); }
    }
  }

  lemma DivTwice(v: nat, a: nat, b: nat)
    requires a > 0 && b > 0
    ensures a * b > 0 && v / (a * b) == (v / a) / b
  {
    var q := v / a;
    assert v == q * a + v % a;
    assert q == (q / b) * b + q % b;
    var r := (q % b) * a + v % a;
    calc {
      v;
      ((q / b) * b + q % b) * a + v % a;
      { assert ((q / b) * b + q % b) * a == ((q / b) * b) * a + (q % b) * a; }
      ((q / b) * b) * a + r;
      { assert ((q / b) * b) * a == (q / b) * (a * b); }
      (q / b) * (a * b) + r;
    }
    assert 0 <= r < a * b by {
      assert (q % b) * a <= (b - 1) * a;
      assert (b - 1) * a == a * b - a;
    }
    assert a * b > 0;
    ModUnique(v, q / b, r, a * b);
  }

  lemma HalveFirst(v: nat, p: nat, q: nat)
    requires p > 0 && q == 2 * p
    ensures v / q == (v / 2) / p
  {
    DivTwice(v, 2, p);
  }

  /** `v` halved `k` times. */
  function Halved(v: nat, k: nat): nat
    decreases k
  {
    if k == 0 then v else Halved(v / 2, k - 1)
  }

  lemma {:induction false} HalvedBit(v: nat, k: nat, i: nat)
    ensures Bit(Halved(v, k), i) == Bit(v, i + k)
    decreases k
  {
    if k > 0 { HalvedBit(v / 2, k - 1, i); }
  }

  lemma {:induction false} HalvedIsQuotient(v: nat, k: nat)
    ensures Halved(v, k) == v / Pow2(k)
    decreases k
  {
    if k > 0 {
      HalvedIsQuotient(v / 2, k - 1);
      HalveFirst(v, Pow2(k - 1), Pow2(k));
    }
  }

  /** Dividing by `2^k` moves every bit down by `k`. */
  lemma ShiftDownBit(v: nat, k: nat, i: nat)
    ensures v / Pow2(k) >= 0 && Bit(v / Pow2(k), i) == Bit(v, i + k)
  {
    HalvedIsQuotient(v, k);
    HalvedBit(v, k, i);
  }

  /** Reducing modulo `2^w` keeps the low `w` bits. */
  lemma {:induction false} TruncateBit(v: nat, w: nat, i: nat)
    ensures Bit(v % Pow2(w), i) == (i < w && Bit(v, i))
    decreases w
  {
    if w == 0 {
      assert v % Pow2(0) == 0;
      ZeroBit(i);
    } else {
      var p := Pow2(w - 1);
      var q, r := (v / 2) / p, (v / 2) % p;
      assert v / 2 == q * p + r;
      var low := 2 * r + v % 2;
      assert v == q * Pow2(w) + low by { assert q * (2 * p) == 2 * (q * p); }
      ModUnique(v, q, low, Pow2(w));
      assert low / 2 == r && low % 2 == v % 2;
      if i > 0 { TruncateBit(v / 2, w - 1, i - 1); }
    }
  }

  /** The top bit of a `w`-bit number is set exactly when it is at least `2^(w-1)`. */
  lemma {:induction false} TopBit(v: nat, w: nat)
    requires w > 0 && v < Pow2(w)
    ensures Bit(v, w - 1) == (v >= Pow2(w - 1))
    decreases w
  {
    if w > 1 { TopBit(v / 2, w - 1); }
  }

  // ----- bitwise operations -----

  datatype LogicOp = LogicAnd | LogicOr | LogicXor

  predicate Logic(op: LogicOp, x: bool, y: bool)
  {
    match op
    case LogicAnd => x && y
    case LogicOr => x || y
    case LogicXor => x != y
  }

  /** The low `w` bits of `a` and `b` combined bit by bit. */
  function Bitwise(op: LogicOp, a: nat, b: nat, w: nat): (r: nat)
    ensures r < Pow2(w)
    decreases w
  {
    if w == 0 then 0
    else (if Logic(op, a % 2 == 1, b % 2 == 1) then 1 else 0) + 2 * Bitwise(op, a / 2, b / 2, w - 1)
  }

  lemma {:induction false} BitwiseBit(op: LogicOp, a: nat, b: nat, w: nat, i: nat)
    requires i < w
    ensures Bit(Bitwise(op, a, b, w), i) == Logic(op, Bit(a, i), Bit(b, i))
    decreases w
  {
    var r := Bitwise(op, a, b, w);
    assert r / 2 == Bitwise(op, a / 2, b / 2, w - 1);
    if i > 0 { BitwiseBit(op, a / 2, b / 2, w - 1, i - 1); }
  }

  function Mask(w: nat): nat { Pow2(w) - 1 }

  function NotVal(v: nat, w: nat): (r: nat)
    requires v < Pow2(w)
    ensures r < Pow2(w)
  {
    Mask(w) - v
  }

  lemma {:induction false} NotBit(v: nat, w: nat, i: nat)
    requires v < Pow2(w) && i < w
    ensures Bit(NotVal(v, w), i) == !Bit(v, i)
    decreases w
  {
    var r := NotVal(v, w);
    assert r / 2 == NotVal(v / 2, w - 1) && r % 2 == 1 - v % 2;
    if i > 0 { NotBit(v / 2, w - 1, i - 1); }
  }

  lemma {:induction false} MaskBit(w: nat, i: nat)
    requires i < w
    ensures Bit(Mask(w), i)
    decreases w
  {
    assert Mask(w) / 2 == Mask(w - 1) && Mask(w) % 2 == 1;
    if i > 0 { MaskBit(w - 1, i - 1); }
  }

  // ----- signed reading -----

  predicate Negative(v: nat, w: nat)
    requires w > 0
  {
    Bit(v, w - 1)
  }

  /** Two's-complement reading of the low `w` bits. */
  function Signed(v: nat, w: nat): (s: int)
    requires w > 0
  {
    if Negative(v, w) then v - Pow2(w) else v
  }

  lemma SignedRange(v: nat, w: nat)
    requires w > 0 && v < Pow2(w)
    ensures 0 <= Signed(v, w) + Pow2(w - 1) < Pow2(w)
    ensures Signed(v, w) % Pow2(w) == v
  {
    TopBit(v, w);
    var p := Pow2(w);
    ModUnique(Signed(v, w), if Negative(v, w) then -1 else 0, v, p);
  }

  // ----- the operators -----

  datatype BinOp =
    | Add | Sub | Mul | And | Or | Xor
    | ShiftLeft | LogicalShiftRight | ArithmeticShiftRight | RotateRight
    | Equal | UnsignedLessThan | SignedLessThan

  predicate IsComparison(op: BinOp)
  {
    op == Equal || op == UnsignedLessThan || op == SignedLessThan
  }

  predicate IsAssocComm(op: BinOp)
  {
    op == Add || op == Mul || op == And || op == Or || op == Xor
  }

  function BinWidth(op: BinOp, w: nat): nat
  {
    if IsComparison(op) then 1 else w
  }

  function BoolVal(b: bool): nat { if b then 1 else 0 }

  function ShiftLeftVal(a: nat, amount: nat, w: nat): (r: nat)
    ensures r < Pow2(w)
  {
    if amount >= w then 0 else (a * Pow2(amount)) % Pow2(w)
  }

  function LogicalShiftRightVal(a: nat, amount: nat, w: nat): (r: nat)
    ensures r < Pow2(w)
  {
    if amount >= w then 0 else (a / Pow2(amount)) % Pow2(w)
  }

  function ArithmeticShiftRightVal(a: nat, amount: nat, w: nat): (r: nat)
    requires w > 0 && a < Pow2(w)
    ensures r < Pow2(w)
  {
    if amount >= w then (if Negative(a, w) then Mask(w) else 0)
    else (Signed(a, w) / Pow2(amount)) % Pow2(w)
  }

  function RotateRightVal(a: nat, amount: nat, w: nat): (r: nat)
    requires w > 0 && a < Pow2(w)
    ensures r < Pow2(w)
  {
    var k := amount % w;
    if k == 0 then a else Bitwise(LogicOr, a / Pow2(k), a * Pow2(w - k), w)
  }

  function BinVal(op: BinOp, a: nat, b: nat, w: nat): (r: nat)
    requires w > 0 && a < Pow2(w) && b < Pow2(w)
    ensures r < Pow2(BinWidth(op, w))
  {
    match op
    case Add => (a + b) % Pow2(w)
    case Sub => (a - b) % Pow2(w)
    case Mul => (a * b) % Pow2(w)
    case And => Bitwise(LogicAnd, a, b, w)
    case Or => Bitwise(LogicOr, a, b, w)
    case Xor => Bitwise(LogicXor, a, b, w)
    case ShiftLeft => ShiftLeftVal(a, b, w)
    case LogicalShiftRight => LogicalShiftRightVal(a, b, w)
    case ArithmeticShiftRight => ArithmeticShiftRightVal(a, b, w)
    case RotateRight => RotateRightVal(a, b, w)
    case Equal => BoolVal(a == b)
    case UnsignedLessThan => BoolVal(a < b)
    case SignedLessThan => BoolVal(Signed(a, w) < Signed(b, w))
  }

  datatype FlagOp = AddCarryOut | AddOverflow | SubCarryOut | SubOverflow

  predicate FlagVal(op: FlagOp, l: nat, r: nat, c: nat, w: nat)
    requires w > 0 && l < Pow2(w) && r < Pow2(w) && c < 2
  {
    match op
    case AddCarryOut => l + r + c > Mask(w)
    case AddOverflow =>
      var sum := (l + r + c) % Pow2(w);
      Negative(l, w) == Negative(r, w) && Negative(l, w) != Negative(sum, w)
    case SubCarryOut =>
      var difference := (l - r) % Pow2(w);
      !(l < r || difference < c)
    case SubOverflow =>
      var difference := (l - r - c) % Pow2(w);
      Negative(l, w) != Negative(r, w) && Negative(l, w) != Negative(difference, w)
  }

  datatype ExtendOp = ZeroExtend | SignExtend

  function ExtendVal(op: ExtendOp, v: nat, from: nat, to: nat): (r: nat)
    requires 0 < from <= to && v < Pow2(from)
    ensures r < Pow2(to)
  {
    match op
    case ZeroExtend => Pow2Mono(from, to); v
    case SignExtend => Signed(v, from) % Pow2(to)
  }

  function CountOnesVal(v: nat, w: nat): (r: nat)
    ensures r <= w
    decreases w
  {
    if w == 0 then 0 else v % 2 + CountOnesVal(v / 2, w - 1)
  }

  // ----- powers of two -----

  lemma {:induction false} PowerBit(k: nat, i: nat)
    ensures Bit(Pow2(k), i) == (i == k)
    decreases k
  {
    if k == 0 {
      if i > 0 { ZeroBit(i - 1); }
    } else {
      assert Pow2(k) / 2 == Pow2(k - 1) && Pow2(k) % 2 == 0;
      if i > 0 { PowerBit(k - 1, i - 1); }
    }
  }

  lemma OneLess(m: int, p: int)
    ensures (m - 1) * p == m * p - p
  {
  }
}
