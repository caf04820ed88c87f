/** Byte-level memory: lowering of wide reads, and stores that read back. */
module ByteMemory {
  import opened Words
  import opened WordLaws
  import opened Exprs
  import opened Effects

  // ----- lowering wide reads -----

  /** The address of byte `index`; the base itself for byte zero. */
  function ByteAddressExpr(address: Expr, index: nat, addressWidth: nat): Expr
  {
    if index == 0 then address else Bin(Add, address, Const(index, addressWidth))
  }

  /** Byte reads from index `count - 1` down to index `low`, most significant first. */
  function ByteReads(address: Expr, count: nat, low: nat, addressWidth: nat): seq<Expr>
    requires low <= count
    decreases count - low
  {
    if low == count then []
    else ByteReads(address, count, low + 1, addressWidth)
         + [ReadMemory(ByteAddressExpr(address, low, addressWidth), 8)]
  }

  /** Replaces every wide read by a concatenation of byte reads; `None` is a panic. */
  function LowerReads(e: Expr): Option<Expr>
    decreases e, 1
  {
    match e
    case ReadMemory(address, width) =>
      var a :- LowerReads(address);
      if width == 8 then Some(ReadMemory(a, 8))
      else if width % 8 != 0 then None
      else
        var addressWidth :- ExprWidth(a);
        Some(Concat(ByteReads(a, width / 8, 0, addressWidth)))
    case ReadRegister(register, width) =>
      var r :- LowerReads(register);
      Some(ReadRegister(r, width))
    case Bin(op, lhs, rhs) =>
      var l :- LowerReads(lhs);
      var r :- LowerReads(rhs);
      Some(Bin(op, l, r))
    case Not(operand) =>
      var v :- LowerReads(operand);
      Some(Not(v))
    case CountOnes(operand) =>
      var v :- LowerReads(operand);
      Some(CountOnes(v))
    case Slice(operand, high, low) =>
      var v :- LowerReads(operand);
      Some(Slice(v, high, low))
    case Concat(parts) =>
      var ps :- LowerReadsAll(parts);
      Some(Concat(ps))
    case Extend(kind, operand, toWidth) =>
      var v :- LowerReads(operand);
      Some(Extend(kind, v, toWidth))
    case Flag(flag, lhs, rhs, flagIn, width) =>
      var l :- LowerReads(lhs);
      var r :- LowerReads(rhs);
      var c :- LowerReads(flagIn);
      Some(Flag(flag, l, r, c, width))
    case Select(condition, whenTrue, whenFalse) =>
      var c :- LowerReads(condition);
      var t :- LowerReads(whenTrue);
      var f :- LowerReads(whenFalse);
      Some(Select(c, t, f))
    case _ => Some(e)
  }

  function LowerReadsAll(parts: seq<Expr>): (r: Option<seq<Expr>>)
    ensures r.Some? ==> |r.value| == |parts|
    decreases parts, 0
  {
    if parts == [] then Some([])
    else
      var init :- LowerReadsAll(parts[..|parts| - 1]);
      var last :- LowerReads(parts[|parts| - 1]);
      Some(init + [last])
  }

  /** Every memory read in the expression is one byte wide. */
  predicate OnlyByteReads(e: Expr)
    decreases e
  {
    match e
    case ReadMemory(address, width) => width == 8 && OnlyByteReads(address)
    case ReadRegister(register, _) => OnlyByteReads(register)
    case Bin(_, lhs, rhs) => OnlyByteReads(lhs) && OnlyByteReads(rhs)
    case Not(operand) => OnlyByteReads(operand)
    case CountOnes(operand) => OnlyByteReads(operand)
    case Slice(operand, _, _) => OnlyByteReads(operand)
    case Concat(parts) => forall p | p in parts :: OnlyByteReads(p)
    case Extend(_, operand, _) => OnlyByteReads(operand)
    case Flag(_, lhs, rhs, flagIn, _) => OnlyByteReads(lhs) && OnlyByteReads(rhs) && OnlyByteReads(flagIn)
    case Select(condition, whenTrue, whenFalse) =>
      OnlyByteReads(condition) && OnlyByteReads(whenTrue) && OnlyByteReads(whenFalse)
    case _ => true
  }

  lemma {:induction false} ByteReadsAreBytes(address: Expr, count: nat, low: nat, addressWidth: nat)
    requires low <= count && OnlyByteReads(address)
    ensures forall p | p in ByteReads(address, count, low, addressWidth) :: OnlyByteReads(p)
    decreases count - low
  {
    if low < count {
      ByteReadsAreBytes(address, count, low + 1, addressWidth);
      assert OnlyByteReads(ByteAddressExpr(address, low, addressWidth));
    }
  }

  lemma {:induction false} LoweredReadsAreBytes(e: Expr)
    ensures LowerReads(e).Some? ==> OnlyByteReads(LowerReads(e).value)
    decreases e, 1
  {
    if LowerReads(e).Some? {
      match e
      case ReadMemory(address, width) =>
        LoweredReadsAreBytes(address);
        if width != 8 {
          var a := LowerReads(address).value;
          ByteReadsAreBytes(a, width / 8, 0, ExprWidth(a).value);
        }
      case ReadRegister(register, _) => LoweredReadsAreBytes(register);
      case Bin(_, lhs, rhs) => LoweredReadsAreBytes(lhs); LoweredReadsAreBytes(rhs);
      case Not(operand) => LoweredReadsAreBytes(operand);
      case CountOnes(operand) => LoweredReadsAreBytes(operand);
      case Slice(operand, _, _) => LoweredReadsAreBytes(operand);
      case Concat(parts) => LoweredPartsAreBytes(parts);
      case Extend(_, operand, _) => LoweredReadsAreBytes(operand);
      case Flag(_, lhs, rhs, flagIn, _) =>
        LoweredReadsAreBytes(lhs); LoweredReadsAreBytes(rhs); LoweredReadsAreBytes(flagIn);
      case Select(c, t, f) => LoweredReadsAreBytes(c); LoweredReadsAreBytes(t); LoweredReadsAreBytes(f);
      case _ =>
    }
  }

  lemma {:induction false} LoweredPartsAreBytes(parts: seq<Expr>)
    ensures LowerReadsAll(parts).Some? ==> forall p | p in LowerReadsAll(parts).value :: OnlyByteReads(p)
    decreases parts, 0
  {
    if parts != [] {
      LoweredPartsAreBytes(parts[..|parts| - 1]);
      LoweredReadsAreBytes(parts[|parts| - 1]);
    }
  }

  // ----- the value of a run of bytes -----

  /** Memory holds byte entries only. */
  ghost predicate ByteEntries(s: MachineState)
  {
    forall k :: k in s.memory ==> k.1 == 8 && s.memory[k].width == 8
  }

  function ByteAt(s: MachineState, address: Word, index: nat): Option<nat>
  {
    var key := (ByteAddress(address, index), 8);
    if key in s.memory then Some(s.memory[key].value) else None
  }

  lemma ReadBytesStep(s: MachineState, address: Word, count: nat)
    requires ByteEntries(s) && ReadBytes(s, address, count + 1).Some?
    ensures ReadBytes(s, address, count).Some? && ByteAt(s, address, count).Some?
    ensures ReadBytes(s, address, count + 1).value
            == ReadBytes(s, address, count).value + ByteAt(s, address, count).value * Pow2(8 * count)
  {
    var lower, b, n := ReadBytes(s, address, count).value, ByteAt(s, address, count).value, 8 * count;
    JoinByte(lower, b, n);
    assert 8 * (count + 1) == n + 8;
  }

  /** A byte placed above `n` bits. */
  lemma JoinByte(lower: nat, b: nat, n: nat)
    requires lower < Pow2(n) && b < Pow2(8)
    ensures b * Pow2(n) >= 0 && Bitwise(LogicOr, lower, b * Pow2(n), n + 8) == lower + b * Pow2(n)
  {
    ProductNat(b, Pow2(n));
    JoinWords(b, 8, lower, n, b * Pow2(n));
  }

  lemma {:induction false} ReadBytesShorter(s: MachineState, address: Word, count: nat, low: nat)
    requires low <= count && ReadBytes(s, address, count).Some?
    ensures ReadBytes(s, address, low).Some?
    decreases count
  {
    if low < count { ReadBytesShorter(s, address, count - 1, low); }
  }

  lemma ByteAddressMeaning(address: Expr, index: nat, s: MachineState)
    requires Eval(address, s).Some?
    ensures var a := Eval(address, s).value;
      Eval(ByteAddressExpr(address, index, a.width), s) == Some(Word(ByteAddress(a, index), a.width))
  {
    var a := Eval(address, s).value;
    if index == 0 {
      SmallMod(a.value, Pow2(a.width));
    } else {
      var offset := Const(index, a.width);
      ConstWord(index, a.width, s);
      ModAdd(a.value, index, Pow2(a.width));
      AddWords(address, offset, a, Word(index % Pow2(a.width), a.width), ByteAddress(a, index), s);
    }
  }

  lemma ConstWord(value: nat, width: nat, s: MachineState)
    requires width > 0
    ensures Eval(Const(value, width), s) == Some(RawWord.Word(value % Pow2(width), width))
  {
  }

  /** What the byte reads from `low` up evaluate to, against the little-endian value. */
  ghost predicate HighPart(address: Expr, count: nat, low: nat, s: MachineState)
    requires Eval(address, s).Some? && low <= count
    requires ReadBytes(s, Eval(address, s).value, count).Some?
  {
    var a := Eval(address, s).value;
    var parts := EvalParts(ByteReads(address, count, low, a.width), s);
    && ReadBytes(s, a, low).Some?
    && parts.Some? && parts.value.width == 8 * (count - low)
    && ReadBytes(s, a, count).value == ReadBytes(s, a, low).value + parts.value.value * Pow2(8 * low)
  }

  /** The bytes above `low`, concatenated, are the high part of the little-endian value. */
  lemma {:induction false} ByteReadsMeaning(address: Expr, count: nat, low: nat, s: MachineState)
    requires ByteEntries(s) && Eval(address, s).Some? && low <= count
    requires ReadBytes(s, Eval(address, s).value, count).Some?
    ensures HighPart(address, count, low, s)
    decreases count - low
  {
    ReadBytesShorter(s, Eval(address, s).value, count, low);
    if low < count {
      ByteReadsMeaning(address, count, low + 1, s);
      LowerHighPart(address, count, low, s);
    }
  }

  /** Appending a byte read below some parts. */
  lemma AppendByte(parts: seq<Expr>, read: Expr, byte: Word, s: MachineState)
    requires EvalParts(parts, s).Some? && Eval(read, s) == Some(byte) && byte.width == 8
    ensures var r, high := EvalParts(parts + [read], s), EvalParts(parts, s).value;
      r.Some? && r.value.width == high.width + 8 && r.value.value == high.value * Pow2(8) + byte.value
  {
    assert (parts + [read])[..|parts|] == parts;
    ConcatByte(EvalParts(parts, s).value, byte);
  }

  lemma ConcatByte(high: RawWord, byte: Word)
    requires high.value < Pow2(high.width) && byte.width == 8
    ensures ApplyConcat(high, byte).value == high.value * Pow2(8) + byte.value
  {
    ProductNat(high.value, Pow2(8));
    JoinWords(high.value, high.width, byte.value, 8, high.value * Pow2(8));
  }

  lemma LowerHighPart(address: Expr, count: nat, low: nat, s: MachineState)
    requires ByteEntries(s) && Eval(address, s).Some? && low < count
    requires ReadBytes(s, Eval(address, s).value, count).Some?
    requires HighPart(address, count, low + 1, s)
    ensures HighPart(address, count, low, s)
  {
    var a := Eval(address, s).value;
    ReadBytesStep(s, a, low);
    var byte := s.memory[(ByteAddress(a, low), 8)];
    var above := EvalParts(ByteReads(address, count, low + 1, a.width), s).value;
    LowerParts(address, count, low, s);
    BytePower(low);
    CarryByte(ReadBytes(s, a, count).value, ReadBytes(s, a, low).value, ReadBytes(s, a, low + 1).value,
              above.value, byte.value, EvalParts(ByteReads(address, count, low, a.width), s).value.value,
              Pow2(8 * low), Pow2(8), Pow2(8 * (low + 1)));
  }

  lemma BytePower(low: nat)
    ensures Pow2(8 * (low + 1)) == Pow2(8 * low) * Pow2(8)
  {
    Pow2Add(8 * low, 8);
    assert 8 * (low + 1) == 8 * low + 8;
  }

  lemma LowerParts(address: Expr, count: nat, low: nat, s: MachineState)
    requires ByteEntries(s) && Eval(address, s).Some? && low < count
    requires var a := Eval(address, s).value;
      EvalParts(ByteReads(address, count, low + 1, a.width), s).Some? && ByteAt(s, a, low).Some?
    ensures var a := Eval(address, s).value;
      var r, high := EvalParts(ByteReads(address, count, low, a.width), s),
                     EvalParts(ByteReads(address, count, low + 1, a.width), s).value;
      && r.Some? && r.value.width == high.width + 8
      && r.value.value == high.value * Pow2(8) + s.memory[(ByteAddress(a, low), 8)].value
  {
    var a := Eval(address, s).value;
    var read := ReadMemory(ByteAddressExpr(address, low, a.width), 8);
    ByteAddressMeaning(address, low, s);
    AppendByte(ByteReads(address, count, low + 1, a.width), read, s.memory[(ByteAddress(a, low), 8)], s);
  }

  lemma CarryByte(
    total: int, below: int, upTo: int, above: int, byte: int, joined: int, q: int, p: int, next: int)
    requires total == upTo + above * next && upTo == below + byte * q && next == q * p
    requires joined == above * p + byte
    ensures total == below + joined * q
  {
    ShiftJoin(above, byte, p, q);
  }

  lemma ShiftJoin(h: int, b: int, p: int, q: int)
    ensures (h * p + b) * q == h * (q * p) + b * q
  {
    assert (h * p) * q == h * (q * p);
  }

  /** A wide read and the concatenation of its bytes have the same value. */
  lemma WideReadMeaning(address: Expr, width: nat, s: MachineState)
    requires ByteEntries(s) && width != 8 && width % 8 == 0
    requires Eval(ReadMemory(address, width), s).Some?
    ensures Eval(Concat(ByteReads(address, width / 8, 0, Eval(address, s).value.width)), s)
            == Eval(ReadMemory(address, width), s)
  {
    hide ByteReads, ReadBytes;
    var a, count := Eval(address, s).value, width / 8;
    assert (a.value, width) !in s.memory;
    ByteReadsMeaning(address, count, 0, s);
    var parts := EvalParts(ByteReads(address, count, 0, a.width), s).value;
    assert parts.value * Pow2(0) == parts.value;
    SmallMod(parts.value, Pow2(width));
  }

  /** Lowering wide reads keeps the value of every expression that has one. */
  lemma {:induction false} LowerReadsMeaning(e: Expr, s: MachineState)
    requires ByteEntries(s)
    ensures Eval(e, s).Some? && LowerReads(e).Some? ==> Eval(LowerReads(e).value, s) == Eval(e, s)
    decreases e, 1
  {
    if Eval(e, s).Some? && LowerReads(e).Some? {
      match e
      case ReadMemory(address, width) =>
        LowerReadsMeaning(address, s);
        if width != 8 {
          var a := LowerReads(address).value;
          EvalHasStaticWidth(a, s);
          WideReadMeaning(a, width, s);
        }
      case ReadRegister(register, _) => LowerReadsMeaning(register, s);
      case Bin(_, lhs, rhs) => LowerReadsMeaning(lhs, s); LowerReadsMeaning(rhs, s);
      case Not(operand) => LowerReadsMeaning(operand, s);
      case CountOnes(operand) => LowerReadsMeaning(operand, s);
      case Slice(operand, _, _) => LowerReadsMeaning(operand, s);
      case Concat(parts) => LowerPartsMeaning(parts, s);
      case Extend(_, operand, _) => LowerReadsMeaning(operand, s);
      case Flag(_, lhs, rhs, flagIn, _) =>
        LowerReadsMeaning(lhs, s); LowerReadsMeaning(rhs, s); LowerReadsMeaning(flagIn, s);
      case Select(c, t, f) => LowerReadsMeaning(c, s); LowerReadsMeaning(t, s); LowerReadsMeaning(f, s);
      case _ =>
    }
  }

  lemma {:induction false} LowerPartsMeaning(parts: seq<Expr>, s: MachineState)
    requires ByteEntries(s)
    ensures EvalParts(parts, s).Some? && LowerReadsAll(parts).Some? ==>
              EvalParts(LowerReadsAll(parts).value, s) == EvalParts(parts, s)
    decreases parts, 0
  {
    if parts != [] && EvalParts(parts, s).Some? && LowerReadsAll(parts).Some? {
      LowerPartsMeaning(parts[..|parts| - 1], s);
      LowerReadsMeaning(parts[|parts| - 1], s);
      var lowered := LowerReadsAll(parts).value;
      assert lowered[..|lowered| - 1] == LowerReadsAll(parts[..|parts| - 1]).value;
    }
  }

  // ----- stores -----

  function Store(s: MachineState, address: Word, value: Word, width: nat): MachineState
  {
    s.(memory := InsertAll(s.memory, StoreWrites(address, value, width)))
  }

  lemma SameResidue(x: int, y: int, p: int)
    requires p > 0
    ensures x % p == y % p ==> y - x == (y / p - x / p) * p
  {
    assert x == (x / p) * p + x % p && y == (y / p) * p + y % p;
    assert (y / p) * p - (x / p) * p == (y / p - x / p) * p;
  }

  lemma NoMultipleBetween(q: int, p: int)
    requires p > 0
    ensures q * p <= 0 || q * p >= p
  {
  }

  /** Distinct byte indices inside the address space have distinct addresses. */
  lemma ByteAddressesDiffer(address: Word, i: nat, j: nat)
    requires i < j && j - i < Pow2(address.width)
    ensures ByteAddress(address, i) != ByteAddress(address, j)
  {
    var x, y, p := address.value + i, address.value + j, Pow2(address.width);
    SameResidue(x, y, p);
    NoMultipleBetween(y / p - x / p, p);
  }

  lemma InsertOne<K, V>(m: map<K, V>, k: K, v: V)
    ensures InsertAll(m, [(k, v)]) == m[k := v]
  {
    assert [(k, v)][..0] == [];
  }

  /** After the first `count` byte writes each of those bytes is in memory, and nothing else changed. */
  lemma {:induction false} ByteWritesLand(m: map<(nat, nat), Word>, address: Word, value: Word, count: nat)
    requires count <= Pow2(address.width)
    ensures var r := InsertAll(m, ByteWrites(address, value, count));
      && (forall i: nat | i < count ::
            (ByteAddress(address, i), 8) in r && r[(ByteAddress(address, i), 8)] == ByteOf(value, i))
      && (forall k | k in r :: k in m || (k.1 == 8 && r[k].width == 8))
      && (forall k | k in m && (forall i: nat | i < count :: k != (ByteAddress(address, i), 8)) ::
            k in r && r[k] == m[k])
  {
    if count > 0 {
      ByteWritesLand(m, address, value, count - 1);
      var earlier := ByteWrites(address, value, count - 1);
      var last := ((ByteAddress(address, count - 1), 8), ByteOf(value, count - 1));
      assert (earlier + [last])[..|earlier|] == earlier;
      var before, r := InsertAll(m, earlier), InsertAll(m, ByteWrites(address, value, count));
      assert r == before[last.0 := last.1];
      forall i: nat | i < count
        ensures (ByteAddress(address, i), 8) in r && r[(ByteAddress(address, i), 8)] == ByteOf(value, i)
      {
        if i < count - 1 { ByteAddressesDiffer(address, i, count - 1); }
      }
    }
  }

  /** The bytes of a value, joined, are the value. */
  lemma {:induction false} JoinedBytes(s: MachineState, address: Word, value: Word, count: nat)
    requires forall i: nat | i < count ::
      (ByteAddress(address, i), 8) in s.memory && s.memory[(ByteAddress(address, i), 8)] == ByteOf(value, i)
    ensures ReadBytes(s, address, count) == Some(value.value % Pow2(8 * count))
  {
    if count > 0 {
      var n := count - 1;
      JoinedBytes(s, address, value, n);
      NextByte(value.value, ByteOf(value, n).value, n);
      assert ByteAt(s, address, n) == Some(ByteOf(value, n).value);
    }
  }

  /** The low bytes of a number with the next byte put above them. */
  lemma NextByte(v: nat, b: nat, n: nat)
    requires b == (v / Pow2(8 * n)) % Pow2(8)
    ensures b * Pow2(8 * n) >= 0
    ensures Bitwise(LogicOr, v % Pow2(8 * n), b * Pow2(8 * n), 8 * (n + 1)) == v % Pow2(8 * (n + 1))
  {
    JoinByte(v % Pow2(8 * n), b, 8 * n);
    BytePower(n);
    SplitMod(v, Pow2(8 * n), Pow2(8));
    assert 8 * (n + 1) == 8 * n + 8;
  }

  lemma SplitMod(v: nat, p: nat, q: nat)
    requires p > 0 && q > 0
    ensures p * q > 0 && v % (p * q) == ((v / p) % q) * p + v % p
  {
    var h := v / p;
    DigitsMod(v, h, h / q, h % q, v % p, p, q);
  }

  lemma DigitsMod(v: int, h: int, k: int, r: int, l: int, p: int, q: int)
    requires 0 <= l < p && 0 <= r < q && v == h * p + l && h == k * q + r
    ensures p * q > 0 && v % (p * q) == r * p + l
  {
    TwoDigits(k, r, l, p, q);
    ModUnique(v, k, r * p + l, p * q);
  }

  lemma TwoDigits(k: int, r: int, l: int, p: int, q: int)
    requires 0 <= l < p && 0 <= r < q
    ensures (k * q + r) * p + l == k * (p * q) + (r * p + l)
    ensures 0 <= r * p + l < p * q
  {
    assert (k * q) * p == k * (p * q);
    DigitBelow(r, p, q);
  }

  lemma DigitBelow(r: int, p: int, q: int)
    requires 0 <= r < q && 0 < p
    ensures 0 <= r * p && r * p + p <= p * q
  {
    var d := q - r - 1;
    assert p * q == r * p + p + d * p by { assert q == r + 1 + d; }
    assert d * p >= 0;
  }

  /** Storing a value of any byte-multiple width and reading it back returns the value, also when
      the addresses wrap, as long as the bytes fit the address space. */
  lemma StoreThenRead(s: MachineState, address: Word, value: Word)
    requires ByteEntries(s) && value.width % 8 == 0 && value.width / 8 <= Pow2(address.width)
    ensures ByteEntries(Store(s, address, value, value.width))
    ensures ReadConcreteMemory(Store(s, address, value, value.width), address, value.width) == Some(value)
  {
    var width := value.width;
    var s' := Store(s, address, value, width);
    if width == 8 {
      SmallMod(value.value, Pow2(8));
      InsertOne<(nat, nat), Word>(s.memory, (address.value, 8), Word(value.value % Pow2(8), 8));
    } else {
      ByteWritesLand(s.memory, address, value, width / 8);
      forall k | k in s'.memory ensures k.1 == 8 && s'.memory[k].width == 8 {
        if exists i: nat :: i < width / 8 && k == (ByteAddress(address, i), 8) {
          var i: nat :| i < width / 8 && k == (ByteAddress(address, i), 8);
        } else if k in s.memory {
          assert s'.memory[k] == s.memory[k];
        }
      }
      JoinedBytes(s', address, value, width / 8);
      SmallMod(value.value, Pow2(width));
    }
  }

  /** A store leaves every byte outside its range as it was. */
  lemma StoreFrame(s: MachineState, address: Word, value: Word, key: (nat, nat))
    requires value.width % 8 == 0 && value.width / 8 <= Pow2(address.width)
    requires key in s.memory && forall i: nat | i < value.width / 8 :: key != (ByteAddress(address, i), 8)
    ensures var s' := Store(s, address, value, value.width);
      key in s'.memory && s'.memory[key] == s.memory[key]
  {
    if value.width == 8 {
      SmallMod(address.value, Pow2(address.width));
      assert key != (ByteAddress(address, 0), 8);
      InsertOne<(nat, nat), Word>(s.memory, (address.value, 8), Word(value.value % Pow2(8), 8));
    } else {
      ByteWritesLand(s.memory, address, value, value.width / 8);
    }
  }
}
