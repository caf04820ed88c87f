/** Shifts and rotations: constant shifts, the barrel shifter and what they come to as numbers. */
module Shifters {
  import opened Words
  import opened WordLaws
  import opened BddWords

  /** The bit that a shift by `k` puts at position `i`. */
  predicate ShiftedBit(op: BinOp, b: seq<bool>, k: nat, i: nat)
    requires i < |b|
  {
    match op
    case ShiftLeft => k <= i && b[i - k]
    case LogicalShiftRight => i + k < |b| && b[i + k]
    case ArithmeticShiftRight => if i + k < |b| then b[i + k] else b[|b| - 1]
    case _ => b[Around(i, k, |b|)]
  }

  /** The position `k` above `i`, going round past the top. */
  function Around(i: nat, k: nat, w: nat): (j: nat)
    requires w > 0
    ensures j < w
  {
    (i + k) % w
  }

  lemma AroundTwice(i: nat, m: nat, k: nat, w: nat)
    requires w > 0
    ensures Around(Around(i, m, w), k, w) == Around(i, k + m, w)
  {
    ModAdd(k, i + m, w);
  }

  lemma AroundReduced(i: nat, k: nat, w: nat)
    requires w > 0
    ensures Around(i, k % w, w) == Around(i, k, w)
  {
    ModAdd(i, k, w);
  }

  lemma AroundNothing(i: nat, w: nat)
    requires i < w
    ensures Around(i, 0, w) == i
  {
    SmallMod(i, w);
  }

  predicate IsShift(op: BinOp)
  {
    op == ShiftLeft || op == LogicalShiftRight || op == ArithmeticShiftRight
  }

  /** Every bit of `next` is a bit of `b` shifted by `k`. */
  ghost predicate IsShifted(op: BinOp, b: seq<bool>, k: nat, next: seq<bool>)
  {
    |next| == |b| && forall i | 0 <= i < |b| :: next[i] == ShiftedBit(op, b, k, i)
  }

  // ----- shifts by a constant -----

  method ShiftLeftConst(value: BddWord, amount: nat) returns (result: BddWord)
    ensures |result| == |value|
    ensures forall i | 0 <= i < |value| :: result[i] == if amount <= i then value[i - amount] else ConstFn(false)
  {
    var width := |value|;
    result := seq(width, _ => ConstFn(false));
    for source := 0 to width
      invariant |result| == width
      invariant forall i | 0 <= i < width ::
        result[i] == if amount <= i < source + amount then value[i - amount] else ConstFn(false)
    {
      var destination := source + amount;
      if destination < width {
        result := result[destination := value[source]];
      }
    }
  }

  method ShiftRightConst(value: BddWord, amount: nat, fill: BddFn) returns (result: BddWord)
    ensures |result| == |value|
    ensures forall i | 0 <= i < |value| :: result[i] == if i + amount < |value| then value[i + amount] else fill
  {
    var width := |value|;
    result := seq(width, _ => fill);
    for source := 0 to width
      invariant |result| == width
      invariant forall i | 0 <= i < width ::
        result[i] == if i + amount < source then value[i + amount] else fill
    {
      if source < amount {
        continue;
      }
      result := result[source - amount := value[source]];
    }
  }

  /** Dispatches on the kind of shift; an arithmetic shift fills with the sign bit. */
  method ShiftConst(op: BinOp, value: BddWord, amount: nat) returns (result: BddWord)
    requires IsShift(op) && |value| > 0
    ensures |result| == |value|
    ensures forall a :: IsShifted(op, Bits(value, a), amount, Bits(result, a))
  {
    if op == ShiftLeft {
      result := ShiftLeftConst(value, amount);
    } else if op == LogicalShiftRight {
      result := ShiftRightConst(value, amount, ConstFn(false));
    } else {
      result := ShiftRightConst(value, amount, value[|value| - 1]);
    }
  }

  method RotateRightConst(value: BddWord, amount: nat) returns (result: BddWord)
    requires |value| > 0
    ensures |result| == |value|
    ensures forall a :: IsShifted(RotateRight, Bits(value, a), amount, Bits(result, a))
  {
    var width := |value|;
    var reduced := amount % width;
    result := seq(width, destination requires 0 <= destination < width => value[Around(destination, reduced, width)]);
    forall i: nat | i < width ensures Around(i, reduced, width) == Around(i, amount, width) {
      AroundReduced(i, amount, width);
    }
  }

  // ----- choosing between words -----

  method MuxWord(condition: BddFn, whenTrue: BddWord, whenFalse: BddWord) returns (result: BddWord)
    requires |whenTrue| == |whenFalse|
    ensures |result| == |whenTrue|
    ensures forall a :: Bits(result, a) == if condition(a) then Bits(whenTrue, a) else Bits(whenFalse, a)
  {
    result := seq(|whenTrue|, i requires 0 <= i < |whenTrue| => IteFn(condition, whenTrue[i], whenFalse[i]));
    forall a ensures Bits(result, a) == if condition(a) then Bits(whenTrue, a) else Bits(whenFalse, a) {
    }
  }

  // ----- composing shifts -----

  lemma ShiftCompose(op: BinOp, b: seq<bool>, k: nat, next: seq<bool>, m: nat, i: nat)
    requires IsShift(op) && IsShifted(op, b, k, next) && i < |b|
    ensures ShiftedBit(op, next, m, i) == ShiftedBit(op, b, k + m, i)
  {
  }

  lemma RotateCompose(b: seq<bool>, k: nat, next: seq<bool>, m: nat, i: nat)
    requires IsShifted(RotateRight, b, k, next) && i < |b|
    ensures ShiftedBit(RotateRight, next, m, i) == ShiftedBit(RotateRight, b, k + m, i)
  {
    AroundTwice(i, m, k, |b|);
  }

  /** Shifts past the width all give the same result. */
  lemma ShiftSaturates(op: BinOp, b: seq<bool>, k: nat, m: nat, i: nat)
    requires IsShift(op) && i < |b| && |b| <= k && |b| <= m
    ensures ShiftedBit(op, b, k, i) == ShiftedBit(op, b, m, i)
  {
  }

  /** The host computes `1 << bit` on 64-bit integers and falls back to the width. */
  const HOST_BITS: nat := 64

  /** One stage for each amount bit; stage `n` shifts by `2^n` when the bit is set. */
  method BarrelShifter(op: BinOp, start: BddWord, amount: BddWord) returns (value: BddWord)
    requires IsShift(op) && 0 < |start| <= Pow2(HOST_BITS)
    ensures |value| == |start|
    ensures forall a :: IsShifted(op, Bits(start, a), Num(amount, a), Bits(value, a))
  {
    value := start;
    var width := |start|;
    for n := 0 to |amount|
      invariant |value| == width
      invariant forall a :: IsShifted(op, Bits(start, a), Num(amount[..n], a), Bits(value, a))
    {
      var shift := if n < HOST_BITS then Pow2(n) else width;
      var shifted := ShiftConst(op, value, shift);
      var next := MuxWord(amount[n], shifted, value);
      forall a ensures IsShifted(op, Bits(start, a), Num(amount[..n + 1], a), Bits(next, a)) {
        NumPrefix(amount, n, a);
        if n >= HOST_BITS { Pow2Mono(HOST_BITS, n); }
        ShiftStage(op, Bits(start, a), Num(amount[..n], a), Bits(value, a), Pow2(n), amount[n](a), shift,
                   Bits(shifted, a),
                   Num(amount[..n + 1], a), Bits(next, a));
      }
      value := next;
    }
    assert amount[..|amount|] == amount;
  }

  lemma ShiftStage(
    op: BinOp, b: seq<bool>, k: nat, value: seq<bool>, power: nat, chosen: bool, shift: nat, shifted: seq<bool>,
    total: nat, next: seq<bool>)
    requires total == k + (if chosen then power else 0) && next == if chosen then shifted else value
    requires IsShift(op) && IsShifted(op, b, k, value) && IsShifted(op, value, shift, shifted)
    requires shift == power || (shift == |b| && |b| <= power)
    ensures IsShifted(op, b, total, next)
  {
    if chosen {
      forall i | 0 <= i < |b| ensures shifted[i] == ShiftedBit(op, b, total, i) {
        StageBit(op, b, k, value, power, shift, i);
      }
    }
  }

  lemma StageBit(op: BinOp, b: seq<bool>, k: nat, value: seq<bool>, power: nat, shift: nat, i: nat)
    requires IsShift(op) && i < |b| && IsShifted(op, b, k, value)
    requires shift == power || (shift == |b| && |b| <= power)
    ensures ShiftedBit(op, value, shift, i) == ShiftedBit(op, b, k + power, i)
  {
    ShiftCompose(op, b, k, value, shift, i);
    if shift != power { ShiftSaturates(op, b, k + shift, k + power, i); }
  }

  /** `2^n mod w`, by doubling. */
  function PowerModulo(n: nat, w: nat): (r: nat)
    requires w > 0
    ensures r == Pow2(n) % w
  {
    if n == 0 then 1 % w
    else
      ModMul(2, Pow2(n - 1), w);
      (PowerModulo(n - 1, w) * 2) % w
  }

  method RotateShiftForBit(width: nat, bit: nat) returns (shift: nat)
    requires width > 0
    ensures shift == PowerModulo(bit, width)
  {
    shift := 1 % width;
    for n := 0 to bit
      invariant shift == PowerModulo(n, width)
    {
      shift := (shift * 2) % width;
    }
  }

  /** Rotates by `2^n mod width` for every set amount bit `n`. */
  method BarrelRotator(start: BddWord, amount: BddWord) returns (value: BddWord)
    requires |start| > 0
    ensures |value| == |start|
    ensures forall a :: IsShifted(RotateRight, Bits(start, a), Num(amount, a), Bits(value, a))
  {
    value := start;
    var width := |start|;
    forall a ensures IsShifted(RotateRight, Bits(start, a), 0, Bits(start, a)) { RotateByNothing(Bits(start, a)); }
    for n := 0 to |amount|
      invariant |value| == width
      invariant forall a :: IsShifted(RotateRight, Bits(start, a), Num(amount[..n], a), Bits(value, a))
    {
      var shift := RotateShiftForBit(width, n);
      var shifted := value;
      var next := value;
      if shift != 0 {
        shifted := RotateRightConst(value, shift);
        next := MuxWord(amount[n], shifted, value);
      }
      forall a ensures IsShifted(RotateRight, Bits(start, a), Num(amount[..n + 1], a), Bits(next, a)) {
        NumPrefix(amount, n, a);
        RotateByNothing(Bits(value, a));
        RotateStage(Bits(start, a), Num(amount[..n], a), Bits(value, a), n, amount[n](a), shift, Bits(shifted, a),
                    Num(amount[..n + 1], a), Bits(next, a));
      }
      value := next;
    }
    assert amount[..|amount|] == amount;
  }

  lemma RotateByNothing(b: seq<bool>)
    requires |b| > 0
    ensures IsShifted(RotateRight, b, 0, b)
  {
    forall i | 0 <= i < |b| ensures b[i] == ShiftedBit(RotateRight, b, 0, i) { AroundNothing(i, |b|); }
  }

  lemma RotateStage(
    b: seq<bool>, k: nat, value: seq<bool>, n: nat, chosen: bool, shift: nat, shifted: seq<bool>, total: nat,
    next: seq<bool>)
    requires total == k + (if chosen then Pow2(n) else 0) && next == if chosen then shifted else value
    requires |b| > 0 && IsShifted(RotateRight, b, k, value) && IsShifted(RotateRight, value, shift, shifted)
    requires shift == PowerModulo(n, |b|)
    ensures IsShifted(RotateRight, b, total, next)
  {
    if chosen {
      forall i | 0 <= i < |b| ensures shifted[i] == ShiftedBit(RotateRight, b, total, i) {
        RotateCompose(b, k, value, shift, i);
        AroundPower(i, k, n, |b|);
      }
    }
  }

  lemma AroundPower(i: nat, k: nat, n: nat, w: nat)
    requires w > 0
    ensures Around(i, k + PowerModulo(n, w), w) == Around(i, k + Pow2(n), w)
  {
    AroundTwice(i, Pow2(n), k, w);
    AroundReduced(i, Pow2(n), w);
    AroundTwice(i, PowerModulo(n, w), k, w);
  }

  // ----- as numbers -----

  lemma ShiftLeftNumber(v: nat, k: nat, w: nat, i: nat)
    requires i < w
    ensures Bit(ShiftLeftVal(v, k, w), i) == (k <= i && Bit(v, i - k))
  {
    if k >= w { ZeroBit(i); } else { TruncateBit(v * Pow2(k), w, i); ShiftUpBit(v, k, i); }
  }

  lemma ShiftRightNumber(v: nat, k: nat, w: nat, i: nat)
    requires i < w && v < Pow2(w)
    ensures Bit(LogicalShiftRightVal(v, k, w), i) == (i + k < w && Bit(v, i + k))
  {
    if k >= w {
      ZeroBit(i);
    } else {
      TruncateBit(v / Pow2(k), w, i);
      ShiftDownBit(v, k, i);
      if i + k >= w { HighBitsClear(v, w, i + k); }
    }
  }

  lemma DivBelow(v: nat, p: nat, q: nat)
    requires p > 0 && v < q * p
    ensures v / p < q
  {
    assert v == (v / p) * p + v % p;
    if v / p >= q { MulMono(q, v / p, p); }
  }

  /** Dividing a negative reading rounds towards minus infinity and fills with ones. */
  lemma NegativeShift(v: nat, k: nat, w: nat)
    requires k < w && v < Pow2(w)
    ensures v / Pow2(k) < Pow2(w - k)
    ensures ((v - Pow2(w)) / Pow2(k)) % Pow2(w) == Bitwise(LogicOr, Mask(k) * Pow2(w - k), v / Pow2(k), w)
  {
    Pow2Add(w - k, k);
    DivBelow(v, Pow2(k), Pow2(w - k));
    NegativeDivision(v, Pow2(k), Pow2(w - k), Pow2(w));
    JoinFits(Mask(k), k, w - k);
    JoinIsSum(Mask(k), v / Pow2(k), w - k, w);
    OneLess(Pow2(k), Pow2(w - k));
    WrapOnce(v / Pow2(k) - Pow2(w - k), Pow2(w));
  }

  lemma WrapOnce(x: int, p: int)
    requires p > 0 && -p <= x < 0
    ensures x % p == x + p
  {
    ModUnique(x, -1, x + p, p);
  }

  lemma NegativeDivision(v: nat, p: nat, q: nat, r: nat)
    requires p > 0 && r == q * p
    ensures (v - r) / p == v / p - q
  {
    assert v == (v / p) * p + v % p;
    assert (v / p) * p - q * p == (v / p - q) * p;
    ModUnique(v - r, v / p - q, v % p, p);
  }

  lemma FilledBit(v: nat, k: nat, w: nat, i: nat)
    requires i < w && k < w && v < Pow2(w)
    ensures Bit(Bitwise(LogicOr, Mask(k) * Pow2(w - k), v / Pow2(k), w), i) == (i + k >= w || Bit(v, i + k))
  {
    BitwiseBit(LogicOr, Mask(k) * Pow2(w - k), v / Pow2(k), w, i);
    ShiftUpBit(Mask(k), w - k, i);
    ShiftDownBit(v, k, i);
    if i >= w - k { MaskBit(k, i - (w - k)); }
  }

  lemma ArithmeticShiftNumber(v: nat, k: nat, w: nat, i: nat)
    requires i < w && v < Pow2(w)
    ensures Bit(ArithmeticShiftRightVal(v, k, w), i) == if i + k < w then Bit(v, i + k) else Bit(v, w - 1)
  {
    if k >= w {
      MaskBit(w, i);
      ZeroBit(i);
    } else if Negative(v, w) {
      NegativeShift(v, k, w);
      FilledBit(v, k, w, i);
    } else {
      TruncateBit(v / Pow2(k), w, i);
      ShiftDownBit(v, k, i);
      if i + k >= w { HighBitsClear(v, w, i + k); }
    }
  }

  lemma RotateNumber(v: nat, amount: nat, w: nat, i: nat)
    requires i < w && v < Pow2(w)
    ensures Bit(RotateRightVal(v, amount, w), i) == Bit(v, Around(i, amount, w))
  {
    var k := amount % w;
    AroundReduced(i, amount, w);
    if k == 0 {
      AroundNothing(i, w);
    } else {
      BitwiseBit(LogicOr, v / Pow2(k), v * Pow2(w - k), w, i);
      ShiftDownBit(v, k, i);
      ShiftUpBit(v, w - k, i);
      if i + k < w {
        SmallMod(i + k, w);
      } else {
        HighBitsClear(v, w, i + k);
        ModUnique(i + k, 1, i + k - w, w);
      }
    }
  }

  /** What each shift puts at each position of its numeric result. */
  lemma ShiftBitNumber(op: BinOp, b: seq<bool>, v: nat, amount: nat, i: nat)
    requires (IsShift(op) || op == RotateRight) && i < |b| && amount < Pow2(|b|) && v < Pow2(|b|)
    requires forall j: nat | j < |b| :: Bit(v, j) == b[j]
    ensures Bit(BinVal(op, v, amount, |b|), i) == ShiftedBit(op, b, amount, i)
  {
    var w := |b|;
    if op == ShiftLeft { ShiftLeftNumber(v, amount, w, i); }
    else if op == LogicalShiftRight { ShiftRightNumber(v, amount, w, i); }
    else if op == ArithmeticShiftRight { ArithmeticShiftNumber(v, amount, w, i); }
    else { RotateNumber(v, amount, w, i); }
  }

  /** The shifted bits read as the number the evaluator computes. */
  lemma ShiftedNumber(op: BinOp, value: BddWord, amount: nat, result: BddWord, a: Assignment)
    requires (IsShift(op) || op == RotateRight) && |value| > 0 && amount < Pow2(|value|)
    requires IsShifted(op, Bits(value, a), amount, Bits(result, a))
    ensures Num(result, a) == BinVal(op, Num(value, a), amount, |value|)
  {
    var b, v := Bits(value, a), Num(value, a);
    NumBits(value, a);
    var r := BinVal(op, v, amount, |b|);
    forall i: nat | i < |result| ensures result[i](a) == Bit(r, i) {
      ShiftBitNumber(op, b, v, amount, i);
      ReadShifted(op, b, amount, result, a, i);
    }
    NumFromBits(result, a, r);
  }

  lemma ReadShifted(op: BinOp, b: seq<bool>, amount: nat, result: BddWord, a: Assignment, i: nat)
    requires i < |b| && IsShifted(op, b, amount, Bits(result, a))
    ensures result[i](a) == ShiftedBit(op, b, amount, i)
  {
    assert Bits(result, a)[i] == result[i](a);
  }
}
