/**
 * The text transcoder: text_to_encoded_string (main.py:27-33) writes one
 * fixed-width base-94 group per kept code point; encoded_string_to_text
 * (main.py:78-86) reads full groups back.
 */
module Transcoder {
  import opened Wrappers
  import opened Alphabet
  import opened BaseN
  import opened Padding

  /** A Python code point: what ord returns and chr accepts. */
  type CodePoint = c: nat | c < 0x110000

  /** Exclusive bound of the encoder's filter, `0 <= ord(char) < 0x10FFFF`. */
  const EncodeLimit: nat := 0x10FFFF
  /** Exclusive bound of the decoder's filter, `0 <= decoded_value < 0x110000`. */
  const DecodeLimit: nat := 0x110000

  /** The code points the encoder keeps, in order. */
  function Kept(text: seq<CodePoint>): (r: seq<CodePoint>)
    ensures |r| <= |text|
    ensures forall x :: x in r <==> x in text && x < EncodeLimit
    ensures (forall i :: 0 <= i < |text| ==> text[i] < EncodeLimit) ==> r == text
  {
    if text == [] then []
    else
      var r := Kept(text[..|text| - 1]);
      assert text == text[..|text| - 1] + [text[|text| - 1]];
      if text[|text| - 1] < EncodeLimit then r + [text[|text| - 1]] else r
  }

  /** A single code point is kept exactly when it passes the filter. */
  lemma KeptSingle(x: CodePoint)
    ensures Kept([x]) == if x < EncodeLimit then [x] else []
  {
    assert [x][..0] == [];
  }

  /** The filter works element by element: it keeps order and multiplicity. */
  lemma {:induction false} KeptAppend(a: seq<CodePoint>, b: seq<CodePoint>)
    ensures Kept(a + b) == Kept(a) + Kept(b)
    decreases |b|
  {
    if b == [] {
      assert a + b == a;
    } else {
      var b0, x := b[..|b| - 1], b[|b| - 1];
      assert (a + b)[..|a + b| - 1] == a + b0;
      assert (a + b)[|a + b| - 1] == x;
      KeptAppend(a, b0);
    }
  }

  /** The list `encoded_parts`: one group per kept code point. */
  function Parts(text: seq<CodePoint>, charsPerDot: nat): (parts: seq<string>)
    ensures |parts| == |Kept(text)|
  {
    seq(|Kept(text)|, k requires 0 <= k < |Kept(text)| => Group(Kept(text)[k], charsPerDot))
  }

  /** What text_to_encoded_string returns. */
  function EncodeText(text: seq<CodePoint>, charsPerDot: nat): (s: string) {
    Join(Parts(text, charsPerDot))
  }

  /**
   * What encoded_string_to_text returns: groups of `charsPerDot` symbols are
   * decoded in order; a trailing shorter group is skipped without being
   * decoded, values at or above 0x110000 are skipped, and an unknown symbol
   * in a full group fails the whole call (Python raises ValueError).
   */
  function DecodeText(s: string, charsPerDot: nat): (r: Option<seq<CodePoint>>)
    requires charsPerDot >= 1
    ensures r.Some? ==> |r.value| * charsPerDot <= |s|
    decreases |s|
  {
    if |s| < charsPerDot then Some([])
    else
      var rest := DecodeText(s[charsPerDot..], charsPerDot);
      assert rest.Some? ==> (|rest.value| + 1) * charsPerDot <= |s| by {
        if rest.Some? { MulStep(|rest.value|, charsPerDot); }
      }
      match FromBase(s[..charsPerDot], Base)
      case None => None
      case Some(v) => Prepend(if v < DecodeLimit then [v as CodePoint] else [], rest)
  }

  // ---------------------------------------------------------------- loops

  /** text_to_encoded_string: filter each code point, append its zfilled group, join. */
  method TextToEncodedString(text: seq<CodePoint>, charsPerDot: nat) returns (encoded: string)
    ensures encoded == EncodeText(text, charsPerDot)
  {
    FullSize();
    var parts: seq<string> := [];
    for i := 0 to |text|
      invariant parts == Parts(text[..i], charsPerDot)
    {
      assert text[..i + 1][..i] == text[..i];
      if text[i] < EncodeLimit {
        var digits := EncodeBaseN(text[i], Base);
        parts := parts + [Zfill(digits, charsPerDot)];
      }
    }
    assert text[..|text|] == text;
    encoded := Join(parts);
  }

  /** encoded_string_to_text: step through the stream `charsPerDot` symbols at a time. */
  method EncodedStringToText(s: string, charsPerDot: nat) returns (r: Option<seq<CodePoint>>)
    requires charsPerDot >= 1
    ensures r == DecodeText(s, charsPerDot)
  {
    var decoded: seq<CodePoint> := [];
    var i := 0;
    assert s[i..] == s;
    PrependNil(DecodeText(s, charsPerDot));
    while i < |s|
      invariant 0 <= i <= |s|
      invariant DecodeText(s, charsPerDot) == Prepend(decoded, DecodeText(s[i..], charsPerDot))
      decreases |s| - i
    {
      var end := if i + charsPerDot <= |s| then i + charsPerDot else |s|;
      var chunk := s[i..end];
      if |chunk| == charsPerDot {
        assert s[i..][..charsPerDot] == chunk && s[i..][charsPerDot..] == s[end..];
        var value := DecodeBaseN(chunk, Base);
        if value.None? {
          return None;
        }
        var kept: seq<CodePoint> := if value.value < DecodeLimit then [value.value as CodePoint] else [];
        PrependAssoc(decoded, kept, DecodeText(s[end..], charsPerDot));
        decoded := decoded + kept;
      } else {
        assert end == |s| && s[end..] == [];
      }
      i := end;
    }
    assert decoded + [] == decoded;
    return Some(decoded);
  }

  // --------------------------------------------------------------- lemmas

  /** With at least 4 symbols per group the stream is |kept| full groups long. */
  lemma EncodeTextLength(text: seq<CodePoint>, charsPerDot: nat)
    requires charsPerDot >= 4
    ensures |EncodeText(text, charsPerDot)| == charsPerDot * |Kept(text)|
    ensures forall k :: 0 <= k < |Kept(text)| ==>
      k * charsPerDot + charsPerDot <= |EncodeText(text, charsPerDot)| &&
      EncodeText(text, charsPerDot)[k * charsPerDot..k * charsPerDot + charsPerDot]
        == Group(Kept(text)[k], charsPerDot)
  {
    var parts := Parts(text, charsPerDot);
    forall k | 0 <= k < |parts| ensures |parts[k]| == charsPerDot {
      GroupWidth(Kept(text)[k], charsPerDot);
    }
    JoinUniform(parts, charsPerDot);
  }

  /** The decoder reads a stream of full groups one group at a time. */
  lemma {:induction false} DecodeJoin(parts: seq<string>, charsPerDot: nat)
    requires charsPerDot >= 1
    requires forall k :: 0 <= k < |parts| ==> |parts[k]| == charsPerDot
    ensures parts != [] ==>
      DecodeText(Join(parts), charsPerDot) ==
        match FromBase(parts[0], Base)
        case None => None
        case Some(v) => Prepend(if v < DecodeLimit then [v as CodePoint] else [], DecodeText(Join(parts[1..]), charsPerDot))
  {
    if parts != [] {
      var s := Join(parts);
      assert s == parts[0] + Join(parts[1..]);
      assert s[..charsPerDot] == parts[0] && s[charsPerDot..] == Join(parts[1..]);
    }
  }

  /**
   * A stream of full groups whose values are all code points decodes to
   * exactly those code points, in order.
   */
  lemma {:induction false} DecodeGroups(values: seq<CodePoint>, parts: seq<string>, charsPerDot: nat)
    requires charsPerDot >= 1
    requires |parts| == |values|
    requires forall k :: 0 <= k < |parts| ==> |parts[k]| == charsPerDot
    requires forall k :: 0 <= k < |parts| ==> FromBase(parts[k], Base) == Some(values[k] as nat)
    ensures DecodeText(Join(parts), charsPerDot) == Some(values)
  {
    if parts != [] {
      DecodeJoin(parts, charsPerDot);
      DecodeGroups(values[1..], parts[1..], charsPerDot);
      assert values == [values[0]] + values[1..];
    }
  }

  /** Characters whose base-94 leading symbol is not a sign are the ones the transcoder restores. */
  predicate Restorable(c: CodePoint) {
    !IsSign(ToBase(c, Base)[0])
  }

  /**
   * The transcoder alone is a round trip: for at least 4 symbols per group
   * and text without sign-led code points, decoding the stream gives back
   * the kept code points.
   */
  lemma TranscoderRoundTrip(text: seq<CodePoint>, charsPerDot: nat)
    requires charsPerDot >= 4
    requires forall i :: 0 <= i < |text| ==> Restorable(text[i])
    ensures DecodeText(EncodeText(text, charsPerDot), charsPerDot) == Some(Kept(text))
  {
    var kept := Kept(text);
    var parts := Parts(text, charsPerDot);
    forall k | 0 <= k < |parts|
      ensures |parts[k]| == charsPerDot && FromBase(parts[k], Base) == Some(kept[k] as nat)
    {
      assert kept[k] in text;
      GroupWidth(kept[k], charsPerDot);
      GroupDecodes(kept[k], charsPerDot);
    }
    DecodeGroups(kept, parts, charsPerDot);
  }

  /** A trailing group shorter than `charsPerDot` (after k full groups) is ignored. */
  lemma {:induction false} DecodeTextIgnoresTrailing(s: string, t: string, k: nat, charsPerDot: nat)
    requires charsPerDot >= 1
    requires |s| == k * charsPerDot && |t| < charsPerDot
    ensures DecodeText(s + t, charsPerDot) == DecodeText(s, charsPerDot)
  {
    if k == 0 {
      assert s + t == t;
    } else {
      MulStep(k - 1, charsPerDot);
      var u := s + t;
      assert u[..charsPerDot] == s[..charsPerDot];
      assert u[charsPerDot..] == s[charsPerDot..] + t;
      DecodeTextIgnoresTrailing(s[charsPerDot..], t, k - 1, charsPerDot);
    }
  }
}
