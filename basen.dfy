/**
 * Base-N conversion over the alphabet: encode_base_n and decode_base_n
 * (main.py:10-24), as specification functions and as the loops of the source.
 */
module BaseN {
  import opened Wrappers
  import opened Alphabet

  function Pow(b: nat, k: nat): (r: nat)
    ensures b >= 1 ==> r >= 1
  {
    if k == 0 then 1 else b * Pow(b, k - 1)
  }

  /** `a` followed by k zero digits in base 94: a * 94^k, one digit at a time. */
  function Shift(a: nat, k: nat): (s: nat) {
    if k == 0 then a else Shift(a, k - 1) * Base
  }

  lemma DivLess(n: nat, base: nat)
    requires n > 0 && base >= 2
    ensures n / base < n
  {
    assert n == (n / base) * base + n % base;
    assert (n / base) * base >= (n / base) * 2;
  }

  lemma DivBelow(n: nat, base: nat, p: nat)
    requires base > 0 && n < base * p
    ensures n / base < p
  {
  }

  lemma Euclid(n: nat, base: nat)
    requires base > 0
    ensures (n / base) * base + n % base == n
  {
  }

  /** The symbols of n in the given base, most significant first; empty for 0. */
  function Natural(n: nat, base: nat): (s: string)
    requires 2 <= base <= Base
    decreases n
  {
    if n == 0 then "" else DivLess(n, base); Natural(n / base, base) + [Symbol(n % base)]
  }

  /** One iteration of the source's loop: the quotient and the remainder's symbol. */
  lemma NaturalStep(n: nat, base: nat)
    requires 2 <= base <= Base
    requires n > 0
    ensures 0 <= n / base < n && n % base < base
    ensures Natural(n, base) == Natural(n / base, base) + [Symbol(n % base)]
  {
    DivLess(n, base);
  }

  /** What encode_base_n(n, base) returns. */
  function ToBase(n: nat, base: nat): (s: string)
    requires 2 <= base <= Base
    ensures |s| >= 1
    ensures n == 0 ==> s == [Zero]
  {
    NamedSymbols();
    if n == 0 then [Symbol(0)] else NaturalNonEmpty(n, base); Natural(n, base)
  }

  lemma NaturalNonEmpty(n: nat, base: nat)
    requires 2 <= base <= Base
    requires n > 0
    ensures |Natural(n, base)| >= 1
  {
  }

  /**
   * The loop of decode_base_n from accumulator `acc` over the symbols of s:
   * `acc = acc * base + index(char)` per symbol, or None as soon as a symbol
   * is not in the alphabet (where FULL_ALPHABET.index raises). Digit values
   * are not checked against the base, as in the source.
   */
  function Horner(acc: nat, s: string, base: nat): (r: Option<nat>)
    decreases |s|
  {
    if s == [] then Some(acc)
    else match Index(s[0])
      case None => None
      case Some(d) => Horner(acc * base + d, s[1..], base)
  }

  /** What decode_base_n(s, base) returns: the loop run from 0. */
  function FromBase(s: string, base: nat): (r: Option<nat>) {
    Horner(0, s, base)
  }

  /** Running the loop on, over q, from where an earlier run stopped. */
  function Continue(r: Option<nat>, q: string, base: nat): (c: Option<nat>) {
    match r
    case None => None
    case Some(v) => Horner(v, q, base)
  }

  /** Every symbol of s is in the alphabet. */
  predicate InAlphabet(s: string) {
    forall i :: 0 <= i < |s| ==> Index(s[i]).Some?
  }

  function Zeros(k: nat): (z: string)
    ensures |z| == k && forall i :: 0 <= i < k ==> z[i] == Zero
  {
    if k == 0 then [] else Zeros(k - 1) + [Zero]
  }

  // ---------------------------------------------------------------- loops

  /** encode_base_n: the `while` loop that prepends one symbol per division. */
  method EncodeBaseN(number: nat, base: nat) returns (encoded: string)
    requires 2 <= base <= Base
    ensures encoded == ToBase(number, base)
  {
    if number == 0 {
      return [Symbol(0)];
    }
    encoded := "";
    var n: nat := number;
    while n > 0
      invariant Natural(number, base) == Natural(n, base) + encoded
      decreases n
    {
      var q, d := n / base, n % base;
      NaturalStep(n, base);
      assert Natural(q, base) + [Symbol(d)] + encoded == Natural(q, base) + ([Symbol(d)] + encoded);
      encoded := [Symbol(d)] + encoded;
      n := q;
    }
  }

  /** decode_base_n: the `for` loop accumulating `value * base + index(char)`. */
  method DecodeBaseN(encoded: string, base: nat) returns (r: Option<nat>)
    ensures r == FromBase(encoded, base)
  {
    var value: nat := 0;
    assert encoded[0..] == encoded;
    for i := 0 to |encoded|
      invariant Horner(value, encoded[i..], base) == FromBase(encoded, base)
    {
      assert encoded[i..][0] == encoded[i] && encoded[i..][1..] == encoded[i + 1..];
      var d := Index(encoded[i]);
      if d.None? {
        return None;
      }
      value := value * base + d.value;
    }
    assert encoded[|encoded|..] == [];
    return Some(value);
  }

  // --------------------------------------------------------------- lemmas

  /** Decoding p + q is decoding p and then running the loop on over q. */
  lemma {:induction false} HornerConcat(acc: nat, p: string, q: string, base: nat)
    ensures Horner(acc, p + q, base) == Continue(Horner(acc, p, base), q, base)
    decreases |p|
  {
    if p == [] {
      assert p + q == q;
    } else {
      assert (p + q)[0] == p[0];
      assert (p + q)[1..] == p[1..] + q;
      match Index(p[0])
      case None =>
      case Some(d) => HornerConcat(acc * base + d, p[1..], q, base);
    }
  }

  /** Once a prefix holds an unknown symbol, the whole string fails to decode. */
  lemma FromBasePrefixNone(p: string, q: string, base: nat)
    requires FromBase(p, base) == None
    ensures FromBase(p + q, base) == None
  {
    HornerConcat(0, p, q, base);
  }

  lemma {:induction false} HornerSomeIff(acc: nat, s: string, base: nat)
    ensures Horner(acc, s, base).Some? <==> InAlphabet(s)
    decreases |s|
  {
    if s != [] {
      var t := s[1..];
      assert forall i :: 0 <= i < |t| ==> t[i] == s[i + 1];
      match Index(s[0])
      case None =>
      case Some(d) => HornerSomeIff(acc * base + d, t, base);
    }
  }

  /** decode_base_n raises exactly when some symbol is outside the alphabet. */
  lemma FromBaseSomeIff(s: string, base: nat)
    ensures FromBase(s, base).Some? <==> InAlphabet(s)
  {
    HornerSomeIff(0, s, base);
  }

  lemma AppendInAlphabet(p: string, q: string)
    requires InAlphabet(p) && InAlphabet(q)
    ensures InAlphabet(p + q)
  {
    forall i | 0 <= i < |p + q| ensures Index((p + q)[i]).Some? {
      if i < |p| { assert (p + q)[i] == p[i]; } else { assert (p + q)[i] == q[i - |p|]; }
    }
  }

  /** Appending one symbol: the Horner step of the source's loop. */
  lemma FromBaseSnoc(s: string, c: char, base: nat, v: nat, d: nat)
    requires FromBase(s, base) == Some(v) && Index(c) == Some(d)
    ensures FromBase(s + [c], base) == Some(v * base + d)
  {
    HornerConcat(0, s, [c], base);
    assert [c][0] == c && [c][1..] == [];
    assert Horner(v, [c], base) == Horner(v * base + d, [], base);
  }

  /** A single symbol decodes to its digit value. */
  lemma FromBaseSingle(c: char, base: nat)
    requires Index(c).Some?
    ensures FromBase([c], base) == Some(Index(c).value)
  {
    FromBaseSnoc([], c, base, 0, Index(c).value);
    assert [] + [c] == [c];
  }

  /** Shifting distributes over a sum. */
  lemma {:induction false} ShiftAdd(a: nat, b: nat, k: nat)
    ensures Shift(a + b, k) == Shift(a, k) + Shift(b, k)
  {
    if k > 0 {
      ShiftAdd(a, b, k - 1);
    }
  }

  /** One digit shifted in first is one more digit shifted in. */
  lemma {:induction false} ShiftSucc(a: nat, k: nat)
    ensures Shift(a * Base, k) == Shift(a, k + 1)
  {
    if k > 0 {
      ShiftSucc(a, k - 1);
    }
  }

  /** Starting the loop from acc instead of 0 adds acc shifted past every symbol. */
  lemma {:induction false} HornerShift(acc: nat, s: string)
    requires FromBase(s, Base).Some?
    ensures Horner(acc, s, Base) == Some(Shift(acc, |s|) + FromBase(s, Base).value)
    decreases |s|
  {
    if s != [] {
      var d, t := Index(s[0]).value, s[1..];
      assert FromBase(s, Base) == Horner(d, t, Base);
      HornerSomeIff(d, t, Base);
      HornerSomeIff(0, t, Base);
      HornerShift(acc * Base + d, t);
      HornerShift(d, t);
      ShiftAdd(acc * Base, d, |t|);
      ShiftSucc(acc, |t|);
    }
  }

  /**
   * Decoding a concatenation in the alphabet's base: the prefix's value
   * shifted by the suffix's length.
   */
  lemma FromBaseConcat(p: string, q: string)
    requires FromBase(p, Base).Some? && FromBase(q, Base).Some?
    ensures FromBase(p + q, Base)
         == Some(Shift(FromBase(p, Base).value, |q|) + FromBase(q, Base).value)
  {
    HornerConcat(0, p, q, Base);
    HornerShift(FromBase(p, Base).value, q);
  }

  /** The shifted value is the product the source's formulas write. */
  lemma {:induction false} ShiftIsPow(a: nat, k: nat)
    ensures Shift(a, k) == a * Pow(Base, k)
  {
    if k > 0 {
      ShiftIsPow(a, k - 1);
      assert (a * Pow(Base, k - 1)) * Base == a * (Base * Pow(Base, k - 1));
    }
  }

  /** Shifting keeps the order of values. */
  lemma {:induction false} ShiftMono(a: nat, b: nat, k: nat)
    requires a < b
    ensures Shift(a, k) < Shift(b, k)
  {
    if k > 0 {
      ShiftMono(a, b, k - 1);
    }
  }

  /** A positive value grows when shifted by at least one digit. */
  lemma {:induction false} ShiftGrows(a: nat, k: nat)
    requires a >= 1 && k >= 1
    ensures Shift(a, k) > a
  {
    if k > 1 {
      ShiftGrows(a, k - 1);
    }
  }

  lemma {:induction false} ZerosValue(k: nat, base: nat)
    ensures InAlphabet(Zeros(k))
    ensures FromBase(Zeros(k), base) == Some(0)
  {
    NamedSymbols();
    assert Index(Zero) == Some(0);
    if k > 0 {
      ZerosValue(k - 1, base);
      FromBaseSnoc(Zeros(k - 1), Zero, base, 0, 0);
    }
  }

  /** Leading zero symbols do not change decode_base_n's value. */
  lemma FromBaseLeadingZeros(k: nat, s: string, base: nat)
    ensures FromBase(Zeros(k) + s, base) == FromBase(s, base)
  {
    ZerosValue(k, base);
    HornerConcat(0, Zeros(k), s, base);
  }

  lemma {:induction false} NaturalInAlphabet(n: nat, base: nat)
    requires 2 <= base <= Base
    ensures InAlphabet(Natural(n, base))
    decreases n
  {
    if n > 0 {
      var p := Natural(n / base, base);
      DivLess(n, base);
      NaturalInAlphabet(n / base, base);
      IndexOfSymbol(n % base);
      AppendInAlphabet(p, [Symbol(n % base)]);
    }
  }

  lemma {:induction false} FromBaseNatural(n: nat, base: nat)
    requires 2 <= base <= Base
    ensures FromBase(Natural(n, base), base) == Some(n)
    decreases n
  {
    if n > 0 {
      DivLess(n, base);
      FromBaseNatural(n / base, base);
      IndexOfSymbol(n % base);
      FromBaseSnoc(Natural(n / base, base), Symbol(n % base), base, n / base, n % base);
      Euclid(n, base);
    }
  }

  /** decode_base_n(encode_base_n(n, base), base) == n. */
  lemma FromBaseToBase(n: nat, base: nat)
    requires 2 <= base <= Base
    ensures InAlphabet(ToBase(n, base))
    ensures FromBase(ToBase(n, base), base) == Some(n)
  {
    if n == 0 {
      IndexOfSymbol(0);
      FromBaseSnoc([], Symbol(0), base, 0, 0);
      assert [] + [Symbol(0)] == ToBase(n, base);
    } else {
      NaturalInAlphabet(n, base);
      FromBaseNatural(n, base);
    }
  }

  lemma {:induction false} NaturalLeading(n: nat, base: nat)
    requires 2 <= base <= Base
    requires n > 0
    ensures |Natural(n, base)| >= 1 && Natural(n, base)[0] != Zero
    decreases n
  {
    if n / base == 0 {
      assert Natural(n / base, base) == "";
      assert Rank(Symbol(n % base)) != 0;
    } else {
      DivLess(n, base);
      NaturalLeading(n / base, base);
    }
  }

  /** For n > 0 the encoding has no leading zero symbol. */
  lemma ToBaseNoLeadingZero(n: nat, base: nat)
    requires 2 <= base <= Base
    requires n > 0
    ensures ToBase(n, base)[0] != Zero
  {
    NaturalLeading(n, base);
  }

  lemma {:induction false} NaturalWidth(n: nat, base: nat, k: nat)
    requires 2 <= base <= Base
    requires n < Pow(base, k)
    ensures |Natural(n, base)| <= k
    decreases n
  {
    if n > 0 {
      assert k > 0;
      var m := n / base;
      DivBelow(n, base, Pow(base, k - 1));
      DivLess(n, base);
      NaturalWidth(m, base, k - 1);
    }
  }

  /** A value below base^k encodes in at most k symbols. */
  lemma ToBaseWidth(n: nat, base: nat, k: nat)
    requires 2 <= base <= Base
    requires k >= 1 && n < Pow(base, k)
    ensures |ToBase(n, base)| <= k
  {
    NaturalWidth(n, base, k);
  }

  /**
   * 94^4 exceeds 2^24, and so 0x110000: every 24-bit value, and so every
   * code point, fits in 4 symbols.
   */
  lemma FourSymbols(n: nat)
    requires n < 0x1000000
    ensures |ToBase(n, Base)| <= 4
  {
    assert Pow(Base, 4) == 78074896;
    ToBaseWidth(n, Base, 4);
  }
}
