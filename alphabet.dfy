/**
 * The fixed 94-symbol alphabet of main.py:5-7. A symbol's position in the
 * alphabet is its digit value in every base-N conversion.
 */
module Alphabet {
  import opened Wrappers

  const Digits: string := "0123456789"
  const Upper: string := "ABCDEFGHIJKLMNOPQRSTUVWXYZ"
  const Lower: string := "abcdefghijklmnopqrstuvwxyz"
  /** The 32 ASCII punctuation marks, in ASCII order. */
  const Extra: string := "!\"#$%&'()*+,-./:;<=>?@[\\]^_`{|}~"

  /** BASE_ALPHABET + EXTRA_ALPHABET. */
  const Full: string := Digits + Upper + Lower + Extra

  /** len(FULL_ALPHABET), the base every caller uses. */
  const Base: nat := 94

  /** The zero symbol, FULL_ALPHABET[0], used for all padding. */
  const Zero: char := '0'

  /** The two symbols that str.zfill treats as a sign. */
  predicate IsSign(c: char) {
    c == '+' || c == '-'
  }

  /** str.index on a string: the first position of `c`, or None where Python raises ValueError. */
  function Find(s: string, c: char): (r: Option<nat>)
    ensures r.Some? ==> r.value < |s| && s[r.value] == c
    ensures r.Some? ==> forall j :: 0 <= j < r.value ==> s[j] != c
    ensures r.None? ==> c !in s
  {
    if s == [] then None
    else if s[0] == c then Some(0)
    else match Find(s[1..], c)
      case None => None
      case Some(i) => Some(i + 1)
  }

  /**
   * An independent, arithmetic definition of each symbol's digit value
   * (-1 for a character outside the alphabet), by ASCII ranges.
   */
  function Rank(c: char): int {
    if '0' <= c <= '9' then c as int - '0' as int
    else if 'A' <= c <= 'Z' then 10 + (c as int - 'A' as int)
    else if 'a' <= c <= 'z' then 36 + (c as int - 'a' as int)
    else if '!' <= c <= '/' then 62 + (c as int - '!' as int)
    else if ':' <= c <= '@' then 77 + (c as int - ':' as int)
    else if '[' <= c <= '`' then 84 + (c as int - '[' as int)
    else if '{' <= c <= '~' then 90 + (c as int - '{' as int)
    else -1
  }

  lemma RankBounds(c: char)
    ensures -1 <= Rank(c) < Base
  {
  }

  lemma RankInjective(c: char, d: char)
    requires Rank(c) >= 0 && Rank(c) == Rank(d)
    ensures c == d
  {
  }

  lemma SegmentSizes()
    ensures |Digits| == 10 && |Upper| == 26 && |Lower| == 26 && |Extra| == 32
  {
  }

  lemma RankOfDigit(j: nat)
    requires j < |Digits|
    ensures Rank(Digits[j]) == j
  {
  }

  lemma RankOfUpper(j: nat)
    requires j < |Upper|
    ensures Rank(Upper[j]) == 10 + j
  {
  }

  lemma RankOfLower(j: nat)
    requires j < |Lower|
    ensures Rank(Lower[j]) == 36 + j
  {
  }

  /** The punctuation marks rank after the letters and digits, in ASCII order. */
  lemma RankOfExtra(j: nat)
    requires j < |Extra|
    ensures Rank(Extra[j]) == 62 + j
  {
    if j < 15 {
    } else if j < 22 {
    } else if j < 28 {
    } else {
    }
  }

  lemma RankOfFullDigit(i: nat)
    requires i < 10
    ensures Rank(Full[i]) == i
  {
    SegmentSizes();
    assert Full[i] == Digits[i];
    RankOfDigit(i);
  }

  lemma RankOfFullUpper(i: nat)
    requires 10 <= i < 36
    ensures Rank(Full[i]) == i
  {
    SegmentSizes();
    assert Full[i] == Upper[i - 10];
    RankOfUpper(i - 10);
  }

  lemma RankOfFullLower(i: nat)
    requires 36 <= i < 62
    ensures Rank(Full[i]) == i
  {
    SegmentSizes();
    assert Full[i] == Lower[i - 36];
    RankOfLower(i - 36);
  }

  lemma RankOfFullExtra(i: nat)
    requires 62 <= i < 94
    ensures Rank(Full[i]) == i
  {
    SegmentSizes();
    assert Full[i] == Extra[i - 62];
    RankOfExtra(i - 62);
  }

  /** Every symbol's rank is its position: the alphabet has 94 distinct symbols. */
  lemma RankOfFull(i: nat)
    requires i < |Full|
    ensures |Full| == Base
    ensures Rank(Full[i]) == i
  {
    SegmentSizes();
    if i < 10 {
      RankOfFullDigit(i);
    } else if i < 36 {
      RankOfFullUpper(i);
    } else if i < 62 {
      RankOfFullLower(i);
    } else {
      RankOfFullExtra(i);
    }
  }

  lemma FullSize()
    ensures |Full| == Base
  {
    SegmentSizes();
  }

  /** No symbol occurs twice in the alphabet. */
  lemma FullDistinct(i: nat, j: nat)
    requires i < |Full| && j < |Full| && i != j
    ensures Full[i] != Full[j]
  {
    RankOfFull(i);
    RankOfFull(j);
  }

  /** A character of rank k is the alphabet's k-th symbol. */
  lemma FullOfRank(c: char)
    requires Rank(c) >= 0
    ensures |Full| == Base && Full[Rank(c)] == c
  {
    RankBounds(c);
    FullSize();
    RankOfFull(Rank(c));
    RankInjective(Full[Rank(c)], c);
  }

  lemma {:induction false} FindSuffix(k: nat, c: char)
    requires k <= |Full|
    ensures Find(Full[k..], c) == if k <= Rank(c) then Some(Rank(c) - k) else None
    decreases |Full| - k
  {
    FullSize();
    RankBounds(c);
    if k == |Full| {
      assert Full[k..] == [];
    } else {
      assert Full[k..][1..] == Full[k + 1..];
      RankOfFull(k);
      if Full[k] == c {
        assert Rank(c) == k;
      } else {
        FindSuffix(k + 1, c);
        if Rank(c) == k {
          FullOfRank(c);
        }
      }
    }
  }

  /** FULL_ALPHABET.index agrees with Rank: it fails exactly off the alphabet. */
  lemma FindFull(c: char)
    ensures Find(Full, c) == if Rank(c) >= 0 then Some(Rank(c)) else None
  {
    FindSuffix(0, c);
    assert Full[0..] == Full;
  }

  /**
   * FULL_ALPHABET[d], computed from the ASCII ranges rather than read off
   * the literal; SymbolIsFull shows the two agree.
   */
  function Symbol(d: nat): (c: char)
    requires d < Base
    ensures Rank(c) == d
  {
    if d < 10 then ('0' as int + d) as char
    else if d < 36 then ('A' as int + (d - 10)) as char
    else if d < 62 then ('a' as int + (d - 36)) as char
    else if d < 77 then ('!' as int + (d - 62)) as char
    else if d < 84 then (':' as int + (d - 77)) as char
    else if d < 90 then ('[' as int + (d - 84)) as char
    else ('{' as int + (d - 90)) as char
  }

  /** FULL_ALPHABET.index(c), computed from Rank; IndexIsFind shows it is the linear search. */
  function Index(c: char): (r: Option<nat>)
    ensures r.Some? ==> r.value < Base && Symbol(r.value) == c
  {
    RankBounds(c);
    if Rank(c) >= 0 then
      RankInjective(Symbol(Rank(c)), c);
      Some(Rank(c))
    else None
  }

  lemma SymbolIsFull(d: nat)
    requires d < Base
    ensures |Full| == Base && Full[d] == Symbol(d)
  {
    FullSize();
    RankOfFull(d);
    RankInjective(Full[d], Symbol(d));
  }

  /** The arithmetic lookup is exactly FULL_ALPHABET.index, including where it raises. */
  lemma IndexIsFind(c: char)
    ensures Index(c) == Find(Full, c)
  {
    FindFull(c);
  }

  /** FULL_ALPHABET.index(FULL_ALPHABET[d]) == d. */
  lemma IndexOfSymbol(d: nat)
    requires d < Base
    ensures Index(Symbol(d)) == Some(d)
  {
  }

  /** The symbols the source singles out, with their digit values. */
  lemma NamedSymbols()
    ensures Symbol(0) == Zero && Symbol(1) == '1'
    ensures Symbol(72) == '+' && Symbol(74) == '-'
    ensures forall d :: 0 <= d < Base && IsSign(Symbol(d)) ==> d == 72 || d == 74
  {
  }
}
