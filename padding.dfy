/**
 * Python's str.zfill, str.ljust and str.join, and the fixed-width group
 * encode_base_n(v, 94).zfill(width) that main.py:31 and main.py:73 both build.
 */
module Padding {
  import opened Wrappers
  import opened Alphabet
  import opened BaseN

  /**
   * str.zfill(width): left-pad with '0' to `width`, never truncating; a
   * leading '+' or '-' stays in front of the inserted zeros.
   */
  function Zfill(s: string, width: nat): (r: string)
    ensures |r| == if |s| >= width then |s| else width
    ensures |s| >= width ==> r == s
    ensures |s| < width && (s == [] || !IsSign(s[0])) ==> r == Zeros(width - |s|) + s
    ensures |s| < width && s != [] && IsSign(s[0]) ==> r == [s[0]] + Zeros(width - |s|) + s[1..]
  {
    if |s| >= width then s
    else if s != [] && IsSign(s[0]) then [s[0]] + Zeros(width - |s|) + s[1..]
    else Zeros(width - |s|) + s
  }

  /** str.ljust(width, fill): right-pad with `fill`, never truncating. */
  function Ljust(s: string, width: nat, fill: char): (r: string)
    ensures |r| == if |s| >= width then |s| else width
    ensures r[..|s|] == s
    ensures forall i :: |s| <= i < |r| ==> r[i] == fill
  {
    if |s| >= width then s else s + seq(width - |s|, _ => fill)
  }

  /** ''.join(parts). */
  function Join(parts: seq<string>): (s: string)
  {
    if parts == [] then "" else parts[0] + Join(parts[1..])
  }

  /** The group written for one value: encode_base_n(v, 94).zfill(width). */
  function Group(v: nat, width: nat): (g: string) {
    FullSize();
    Zfill(ToBase(v, Base), width)
  }

  // --------------------------------------------------------------- lemmas

  /** Padding an unsigned string with zeros keeps its base-94 value. */
  lemma ZfillValue(s: string, width: nat)
    requires s == [] || !IsSign(s[0])
    ensures FromBase(Zfill(s, width), Base) == FromBase(s, Base)
  {
    if |s| < width {
      FromBaseLeadingZeros(width - |s|, s, Base);
    }
  }

  /** Right-padding with the zero symbol multiplies the value by 94 per symbol added. */
  lemma LjustValue(s: string, width: nat)
    requires InAlphabet(s)
    ensures FromBase(s, Base).Some?
    ensures FromBase(Ljust(s, width, Zero), Base)
         == Some(Shift(FromBase(s, Base).value, |Ljust(s, width, Zero)| - |s|))
  {
    FromBaseSomeIff(s, Base);
    var r := Ljust(s, width, Zero);
    var z := Zeros(|r| - |s|);
    assert r == s + z;
    ZerosValue(|r| - |s|, Base);
    FromBaseConcat(s, z);
  }

  lemma ToBaseInAlphabet(v: nat)
    ensures |Full| == Base && InAlphabet(ToBase(v, Base))
  {
    FullSize();
    FromBaseToBase(v, Base);
    FromBaseSomeIff(ToBase(v, Base), Base);
  }

  /** Every group consists of alphabet symbols. */
  lemma GroupInAlphabet(v: nat, width: nat)
    ensures InAlphabet(Group(v, width))
  {
    var e := ToBase(v, Base);
    ToBaseInAlphabet(v);
    ZerosValue(width, Base);
    FromBaseSomeIff(Group(v, width), Base);
    if |e| < width {
      var z := Zeros(width - |e|);
      ZerosValue(width - |e|, Base);
      if IsSign(e[0]) {
        assert Group(v, width) == ([e[0]] + z) + e[1..];
        AppendInAlphabet([e[0]], z);
        AppendInAlphabet([e[0]] + z, e[1..]);
      } else {
        AppendInAlphabet(z, e);
      }
    }
  }

  /**
   * Values below 94^4 (every code point, every 24-bit value) give groups of
   * exactly `width` symbols once `width` is at least 4.
   */
  lemma GroupWidth(v: nat, width: nat)
    requires width >= 4
    requires v < 0x1000000
    ensures |Group(v, width)| == width
  {
    FourSymbols(v);
  }

  /** A group whose leading symbol is not a sign decodes to its value. */
  lemma GroupDecodes(v: nat, width: nat)
    requires !IsSign(ToBase(v, Base)[0])
    ensures FromBase(Group(v, width), Base) == Some(v)
  {
    FullSize();
    ZfillValue(ToBase(v, Base), width);
    FromBaseToBase(v, Base);
  }

  /**
   * When the leading symbol is '+' or '-' and padding is needed, zfill puts
   * the zeros behind it: the group decodes to a strictly larger value.
   */
  lemma GroupSignedMisdecodes(v: nat, width: nat)
    requires IsSign(ToBase(v, Base)[0])
    requires |ToBase(v, Base)| < width
    ensures FromBase(Group(v, width), Base).Some?
    ensures FromBase(Group(v, width), Base).value > v
  {
    FullSize();
    var e := ToBase(v, Base);
    var t := e[1..];
    var k := width - |e|;
    var z := Zeros(k);
    var d := Rank(e[0]);
    ToBaseInAlphabet(v);
    assert e == [e[0]] + t;
    assert InAlphabet(t);
    FromBaseSomeIff(t, Base);
    FromBaseSomeIff([e[0]], Base);
    assert FromBase([e[0]], Base) == Some(d) by {
      FromBaseSingle(e[0], Base);
    }
    FromBaseConcat([e[0]], t);
    FromBaseToBase(v, Base);
    ZerosValue(k, Base);
    FromBaseConcat([e[0]], z);
    AppendInAlphabet([e[0]], z);
    FromBaseSomeIff([e[0]] + z, Base);
    FromBaseConcat([e[0]] + z, t);
    assert Group(v, width) == ([e[0]] + z) + t;
    NamedSymbols();
    ShiftGrows(d, k);
    ShiftMono(d, Shift(d, k), |t|);
  }

  /** A group decodes to its own value exactly when zfill did not split a leading sign from the digits. */
  lemma GroupDecodesIff(v: nat, width: nat)
    ensures FromBase(Group(v, width), Base) == Some(v)
        <==> !IsSign(ToBase(v, Base)[0]) || |ToBase(v, Base)| >= width
  {
    FullSize();
    var e := ToBase(v, Base);
    if !IsSign(e[0]) {
      GroupDecodes(v, width);
    } else if |e| >= width {
      FromBaseToBase(v, Base);
    } else {
      GroupSignedMisdecodes(v, width);
    }
  }

  /** Appending a part appends its text: the `append` / `+=` steps of the source's loops. */
  lemma {:induction false} JoinSnoc(parts: seq<string>, p: string)
    ensures Join(parts + [p]) == Join(parts) + p
  {
    if parts == [] {
      assert parts + [p] == [p];
    } else {
      assert (parts + [p])[1..] == parts[1..] + [p];
      JoinSnoc(parts[1..], p);
    }
  }

  /** Parts of one common width join into a stream of width * |parts| symbols. */
  lemma {:induction false} JoinUniform(parts: seq<string>, width: nat)
    requires forall k :: 0 <= k < |parts| ==> |parts[k]| == width
    ensures |Join(parts)| == width * |parts|
    ensures forall k :: 0 <= k < |parts| ==>
      k * width + width <= |Join(parts)| && Join(parts)[k * width..k * width + width] == parts[k]
  {
    if parts != [] {
      var rest := parts[1..];
      JoinUniform(rest, width);
      var s, t := Join(parts), Join(rest);
      assert s == parts[0] + t;
      MulStep(|rest|, width);
      forall k | 0 <= k < |parts|
        ensures k * width + width <= |s| && s[k * width..k * width + width] == parts[k]
      {
        if k > 0 {
          MulStep(k - 1, width);
          var j := (k - 1) * width;
          assert j + width <= |t|;
          assert s[width + j..width + j + width] == t[j..j + width];
        }
      }
    }
  }

  lemma MulStep(k: nat, width: nat)
    ensures (k + 1) * width == width + k * width
    ensures width * (k + 1) == width + k * width
  {
  }

  /** Every part of a join is in the alphabet, so is the joined string. */
  lemma {:induction false} JoinInAlphabet(parts: seq<string>)
    requires forall k :: 0 <= k < |parts| ==> InAlphabet(parts[k])
    ensures InAlphabet(Join(parts))
  {
    if parts != [] {
      JoinInAlphabet(parts[1..]);
      AppendInAlphabet(parts[0], Join(parts[1..]));
    }
  }
}
