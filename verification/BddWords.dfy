/** Words of Boolean functions, least significant bit first.

    A decision-diagram function is modelled by the function it denotes: a predicate on assignments.
    Nodes, sharing and allocation are not part of the model. */
module BddWords {
  import opened Words
  import opened WordLaws

  /** The value of every variable; variables past the end are false. */
  type Assignment = seq<bool>
  type BddFn = Assignment -> bool
  type BddWord = seq<BddFn>

  predicate IsSet(a: Assignment, variable: nat)
  {
    variable < |a| && a[variable]
  }

  function VariableFn(variable: nat): BddFn { a => IsSet(a, variable) }
  function ConstFn(b: bool): BddFn { a => b }
  function NotFn(f: BddFn): BddFn { a => !f(a) }
  function AndFn(f: BddFn, g: BddFn): BddFn { a => f(a) && g(a) }
  function OrFn(f: BddFn, g: BddFn): BddFn { a => f(a) || g(a) }
  function XorFn(f: BddFn, g: BddFn): BddFn { a => f(a) != g(a) }
  function EquivFn(f: BddFn, g: BddFn): BddFn { a => f(a) == g(a) }
  function IteFn(c: BddFn, t: BddFn, f: BddFn): BddFn { a => if c(a) then t(a) else f(a) }

  function Bits(w: BddWord, a: Assignment): (b: seq<bool>)
    ensures |b| == |w|
  {
    seq(|w|, i requires 0 <= i < |w| => w[i](a))
  }

  /** The number a word reads as under an assignment. */
  function Num(w: BddWord, a: Assignment): (n: nat)
    ensures n < Pow2(|w|)
  {
    FromBits(Bits(w, a))
  }

  lemma {:induction false} FromBitsAppend(b: seq<bool>, x: bool)
    ensures FromBits(b + [x]) == FromBits(b) + if x then Pow2(|b|) else 0
  {
    if b == [] {
      assert (b + [x])[1..] == [];
    } else {
      FromBitsAppend(b[1..], x);
      assert (b + [x])[1..] == b[1..] + [x];
    }
  }

  lemma BitsAppend(w: BddWord, f: BddFn, a: Assignment)
    ensures Bits(w + [f], a) == Bits(w, a) + [f(a)]
  {
    var longer := w + [f];
    forall i | 0 <= i < |longer| ensures Bits(longer, a)[i] == (Bits(w, a) + [f(a)])[i] {
      if i < |w| { assert longer[i] == w[i]; } else { assert longer[i] == f; }
    }
  }

  lemma NumAppend(w: BddWord, f: BddFn, a: Assignment)
    ensures Num(w + [f], a) == Num(w, a) + if f(a) then Pow2(|w|) else 0
  {
    BitsAppend(w, f, a);
    FromBitsAppend(Bits(w, a), f(a));
  }

  /** A longer prefix of a word. */
  lemma NumPrefix(w: BddWord, k: nat, a: Assignment)
    requires k < |w|
    ensures Num(w[..k + 1], a) == Num(w[..k], a) + if w[k](a) then Pow2(k) else 0
  {
    assert w[..k + 1] == w[..k] + [w[k]];
    NumAppend(w[..k], w[k], a);
  }

  /** A longer suffix of a word. */
  lemma NumSuffix(w: BddWord, k: nat, a: Assignment)
    requires k < |w|
    ensures Num(w[k..], a) == BoolVal(w[k](a)) + 2 * Num(w[k + 1..], a)
  {
    assert Bits(w[k..], a)[1..] == Bits(w[k + 1..], a);
  }

  lemma NumBit(w: BddWord, a: Assignment, i: nat)
    ensures Bit(Num(w, a), i) == (i < |w| && w[i](a))
  {
    FromBitsBit(Bits(w, a), i);
  }

  lemma NumBits(w: BddWord, a: Assignment)
    ensures forall i: nat | i < |w| :: Bit(Num(w, a), i) == Bits(w, a)[i]
  {
    forall i: nat | i < |w| ensures Bit(Num(w, a), i) == Bits(w, a)[i] { NumBit(w, a, i); }
  }

  /** A word whose bits are those of `v` reads as `v`. */
  lemma NumFromBits(w: BddWord, a: Assignment, v: nat)
    requires v < Pow2(|w|) && forall i: nat :: i < |w| ==> w[i](a) == Bit(v, i)
    ensures Num(w, a) == v
  {
    forall i: nat | i < |w| ensures Bit(Num(w, a), i) == Bit(v, i) { NumBit(w, a, i); }
    BitExtensionality(Num(w, a), v, |w|);
  }

  lemma NumOfZeros(w: BddWord, a: Assignment)
    requires forall i | 0 <= i < |w| :: !w[i](a)
    ensures Num(w, a) == 0
  {
    ZeroBits(|w|);
    NumFromBits(w, a, 0);
  }
}
