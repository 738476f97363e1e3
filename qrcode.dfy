/**
 * The whole codec: create_colored_qr_code (main.py:51-66), decode_qr_code
 * (main.py:89-96) and the encode-then-decode run of main (main.py:99-111),
 * with the round-trip theorems and the inputs on which the round trip fails.
 */
module QrCode {
  import opened Wrappers
  import opened Alphabet
  import opened BaseN
  import opened Padding
  import opened Transcoder
  import opened Packer
  import opened Layout

  /** The symbol stream of a text consists of alphabet symbols, so packing it never fails. */
  lemma EncodeTextPacks(text: seq<CodePoint>, charsPerDot: nat)
    requires charsPerDot >= 1
    ensures Pack(EncodeText(text, charsPerDot), charsPerDot).Some?
  {
    var parts := Parts(text, charsPerDot);
    forall k | 0 <= k < |parts| ensures InAlphabet(parts[k]) {
      GroupInAlphabet(Kept(text)[k], charsPerDot);
    }
    JoinInAlphabet(parts);
    PackSomeIff(EncodeText(text, charsPerDot), charsPerDot);
  }

  /** The pixels create_colored_qr_code computes for a text. */
  function TextPixels(text: seq<CodePoint>, charsPerDot: nat): (pixels: seq<Pixel>)
    requires charsPerDot >= 1
  {
    EncodeTextPacks(text, charsPerDot);
    Pack(EncodeText(text, charsPerDot), charsPerDot).value
  }

  /**
   * What decode_qr_code returns on the image create_colored_qr_code made
   * for a text: only the first side * side pixels are on the canvas.
   */
  function Reconstructed(text: seq<CodePoint>, charsPerDot: nat): (r: Option<seq<CodePoint>>)
    requires charsPerDot >= 1
  {
    var pixels := TextPixels(text, charsPerDot);
    var side := SideLength(|pixels|);
    DecodeText(Unpack(pixels[..Area(side)], charsPerDot), charsPerDot)
  }

  /**
   * Text the codec restores: every code point passes the encoder's filter
   * and its leading base-94 symbol is not a sign.
   */
  predicate Codable(text: seq<CodePoint>) {
    forall i :: 0 <= i < |text| ==> text[i] < EncodeLimit && Restorable(text[i])
  }

  /** The code points a square canvas can show: the first floor(sqrt(n))^2 of n. */
  function Visible(text: seq<CodePoint>): (v: seq<CodePoint>)
    ensures |v| <= |text| && v == text[..|v|]
  {
    var side := FloorSqrt(|text|);
    text[..Area(side)]
  }

  // -------------------------------------------------------------- methods

  /**
   * create_colored_qr_code: encode, pack, size the square and draw the
   * pixels row-major on a white canvas.
   */
  method CreateColoredQrCode(text: seq<CodePoint>, charsPerDot: nat)
    returns (img: Canvas, sideLength: nat, encodedText: string)
    requires charsPerDot >= 1
    ensures encodedText == EncodeText(text, charsPerDot)
    ensures sideLength == SideLength(|TextPixels(text, charsPerDot)|)
    ensures img.Valid() && img.side == sideLength && fresh(img.cells)
    ensures img.GetData() == TextPixels(text, charsPerDot)[..Area(sideLength)]
  {
    encodedText := TextToEncodedString(text, charsPerDot);
    var packed := EncodeLargeNumberAsPixels(encodedText, charsPerDot);
    EncodeTextPacks(text, charsPerDot);
    var pixelValues := packed.value;
    var totalDots := |pixelValues|;
    sideLength := SideLength(totalDots);
    img := new Canvas(sideLength, White);
    PlacePixels(img, pixelValues);
  }

  /** decode_qr_code on an image already loaded: read every cell, unpack, decode. */
  method DecodeQrCode(img: Canvas, charsPerDot: nat) returns (decodedText: Option<seq<CodePoint>>)
    requires img.Valid()
    requires charsPerDot >= 1
    ensures decodedText == DecodeText(Unpack(img.GetData(), charsPerDot), charsPerDot)
  {
    var pixels := img.GetData();
    var encodedStr := DecodePixelsToLargeNumber(pixels, charsPerDot);
    decodedText := EncodedStringToText(encodedStr, charsPerDot);
  }

  /**
   * main without its console output and file name: encode a text to an
   * image, then decode the image. For at least 4 symbols per group and text
   * the codec can restore, the result is the text cut to side * side code
   * points.
   */
  method EncodeAndDecode(text: seq<CodePoint>, charsPerDot: nat)
    returns (sideLength: nat, encodedText: string, decodedText: Option<seq<CodePoint>>)
    requires charsPerDot >= 1
    ensures encodedText == EncodeText(text, charsPerDot)
    ensures decodedText == Reconstructed(text, charsPerDot)
    ensures charsPerDot >= 4 && Codable(text) ==>
      sideLength == FloorSqrt(|text|) && decodedText == Some(Visible(text))
  {
    var img;
    img, sideLength, encodedText := CreateColoredQrCode(text, charsPerDot);
    decodedText := DecodeQrCode(img, charsPerDot);
    if charsPerDot >= 4 && Codable(text) {
      LayoutRoundTrip(text, charsPerDot);
    }
  }

  // --------------------------------------------------------------- lemmas

  /**
   * For at least 4 symbols per group and code points below 0x10FFFF that
   * the codec can restore, each code point becomes one pixel holding its
   * value.
   */
  lemma TextPixelsValues(text: seq<CodePoint>, charsPerDot: nat)
    requires charsPerDot >= 4
    requires Codable(text)
    ensures |TextPixels(text, charsPerDot)| == |text|
    ensures forall i :: 0 <= i < |text| ==> TextPixels(text, charsPerDot)[i] == ToPixel(text[i])
  {
    var parts := Parts(text, charsPerDot);
    assert Kept(text) == text;
    var values := seq(|text|, k requires 0 <= k < |text| => text[k] as nat);
    forall k | 0 <= k < |parts|
      ensures |parts[k]| == charsPerDot && FromBase(parts[k], Base) == Some(values[k])
    {
      GroupWidth(text[k], charsPerDot);
      GroupDecodes(text[k], charsPerDot);
    }
    PackJoin(parts, values, charsPerDot);
  }

  /** Pixels holding restorable code points unpack and decode to those code points. */
  lemma DecodePixels(pixels: seq<Pixel>, values: seq<CodePoint>, charsPerDot: nat)
    requires charsPerDot >= 4
    requires |pixels| == |values|
    requires forall i :: 0 <= i < |values| ==> Restorable(values[i]) && PixelValue(pixels[i]) == values[i]
    ensures DecodeText(Unpack(pixels, charsPerDot), charsPerDot) == Some(values)
  {
    var groups := UnpackParts(pixels, charsPerDot);
    forall k | 0 <= k < |pixels|
      ensures |groups[k]| == charsPerDot && FromBase(groups[k], Base) == Some(values[k] as nat)
    {
      GroupWidth(values[k], charsPerDot);
      GroupDecodes(values[k], charsPerDot);
    }
    DecodeGroups(values, groups, charsPerDot);
  }

  /** Decoding any prefix of a text's pixels gives back that prefix of the text. */
  lemma PixelRoundTrip(text: seq<CodePoint>, charsPerDot: nat, m: nat)
    requires charsPerDot >= 4
    requires Codable(text)
    requires m <= |text|
    ensures |TextPixels(text, charsPerDot)| == |text|
    ensures DecodeText(Unpack(TextPixels(text, charsPerDot)[..m], charsPerDot), charsPerDot) == Some(text[..m])
  {
    TextPixelsValues(text, charsPerDot);
    var prefix := TextPixels(text, charsPerDot)[..m];
    forall i | 0 <= i < m ensures PixelValue(prefix[i]) == text[..m][i] {
      assert prefix[i] == ToPixel(text[i]);
      ToPixelExact(text[i]);
    }
    DecodePixels(prefix, text[..m], charsPerDot);
  }

  /** The stated round trip: text -> stream -> pixels -> stream -> text is the identity. */
  lemma RoundTrip(text: seq<CodePoint>, charsPerDot: nat)
    requires charsPerDot >= 4
    requires Codable(text)
    ensures DecodeText(Unpack(TextPixels(text, charsPerDot), charsPerDot), charsPerDot) == Some(text)
  {
    PixelRoundTrip(text, charsPerDot, |text|);
    assert TextPixels(text, charsPerDot)[..|text|] == TextPixels(text, charsPerDot);
    assert text[..|text|] == text;
  }

  /** With one pixel per code point the side is floor(sqrt(|text|)). */
  lemma SideOfText(text: seq<CodePoint>, charsPerDot: nat)
    requires charsPerDot >= 4
    requires Codable(text)
    ensures SideLength(|TextPixels(text, charsPerDot)|) == FloorSqrt(|text|)
  {
    TextPixelsValues(text, charsPerDot);
    assert |text| % 1 == 0;
  }

  /**
   * Through the square image the round trip keeps only the first
   * floor(sqrt(n))^2 code points of n.
   */
  lemma LayoutRoundTrip(text: seq<CodePoint>, charsPerDot: nat)
    requires charsPerDot >= 4
    requires Codable(text)
    ensures SideLength(|TextPixels(text, charsPerDot)|) == FloorSqrt(|text|)
    ensures Reconstructed(text, charsPerDot) == Some(Visible(text))
  {
    var side := FloorSqrt(|text|);
    var m := Area(side);
    assert m <= |text| && Visible(text) == text[..m];
    assert SideLength(|TextPixels(text, charsPerDot)|) == side by {
      SideOfText(text, charsPerDot);
    }
    PixelRoundTrip(text, charsPerDot, m);
  }

  /** `"abcdefghijklmnopqrstuvwxyz" * 10`, the text of the demo run (main.py:115). */
  function DemoText(): (t: seq<CodePoint>)
    ensures |t| == 260
  {
    seq(260, i requires 0 <= i < 260 => (97 + i % 26) as CodePoint)
  }

  /** Code points 94..187 are written as two symbols led by '1'. */
  lemma TwoSymbolLead(c: CodePoint)
    requires 94 <= c < 188
    ensures ToBase(c, Base)[0] == '1'
    ensures c < EncodeLimit && Restorable(c)
  {
    NaturalStep(c, Base);
    NaturalStep(1, Base);
    assert c / Base == 1;
    NamedSymbols();
  }

  /**
   * The demo encodes 260 characters into 260 pixels on a 16 x 16 canvas:
   * decoding gives back only the first 256 characters.
   */
  lemma DemoDecodesOnly256()
    ensures SideLength(|TextPixels(DemoText(), 10)|) == 16
    ensures Reconstructed(DemoText(), 10) == Some(DemoText()[..256])
  {
    var text := DemoText();
    forall i | 0 <= i < |text| ensures text[i] < EncodeLimit && Restorable(text[i]) {
      TwoSymbolLead(text[i]);
    }
    FloorSqrtUnique(260, 16);
    LayoutRoundTrip(text, 10);
  }

  /** The leading symbols of a four-symbol value with the given digits. */
  lemma FourDigits(v: nat, d3: nat, d2: nat, d1: nat, d0: nat)
    requires 0 < d3 < Base && d2 < Base && d1 < Base && d0 < Base
    requires v == ((d3 * Base + d2) * Base + d1) * Base + d0
    ensures ToBase(v, Base)[0] == Symbol(d3)
  {
    NaturalStep(v, Base);
    NaturalStep(v / Base, Base);
    NaturalStep(v / Base / Base, Base);
    NaturalStep(d3, Base);
    assert v / Base == (d3 * Base + d2) * Base + d1;
    assert v / Base / Base == d3 * Base + d2;
    assert v / Base / Base / Base == d3;
  }

  /** The group of a one-symbol value d, zfilled to 5: the symbol and four zeros behind a sign, before a digit otherwise. */
  lemma SingleSymbolGroup(d: nat)
    requires 0 < d < Base
    ensures ToBase(d, Base) == [Symbol(d)]
    ensures IsSign(Symbol(d)) ==> Group(d, 5) == [Symbol(d)] + Zeros(4)
  {
    NaturalStep(d, Base);
    assert [Symbol(d)][1..] == [];
  }

  /** The pixel packed for a signed single-symbol group, whose value is d * 94^4. */
  lemma SignedGroupPixel(d: nat)
    requires 0 < d < Base && IsSign(Symbol(d))
    ensures EncodeText([d as CodePoint], 5) == [Symbol(d)] + Zeros(4)
    ensures TextPixels([d as CodePoint], 5) == [ToPixel(d * 78074896)]
  {
    SingleSymbolGroup(d);
    var g := [Symbol(d)] + Zeros(4);
    assert Kept([d as CodePoint]) == [d as CodePoint];
    assert Parts([d as CodePoint], 5) == [g];
    assert Join([g]) == g + Join([]);
    assert FirstChunk(g, 5) == g;
    assert RestAfterFirst(g, 5) == [];
    ChunkValueIsFromBase(g);
    assert FromBase([Symbol(d)], Base) == Some(d) by {
      IndexOfSymbol(d);
      FromBaseSingle(Symbol(d), Base);
    }
    ZerosValue(4, Base);
    FromBaseConcat([Symbol(d)], Zeros(4));
    assert Shift(d, 4) == d * 78074896;
    assert ChunkValue(FirstChunk(g, 5)) == Some(d * 78074896);
    assert Pack([], 5) == Some([]);
    assert Pack(g, 5) == Some([ToPixel(d * 78074896)] + []);
  }

  /** A text of one code point v whose single pixel holds the value w. */
  lemma OnePixelDecode(v: nat, w: nat, lead: nat)
    requires 0 < v < Base && IsSign(Symbol(v))
    requires w == (v * 78074896) % 0x1000000
    requires 0 < lead < Base && !IsSign(Symbol(lead)) && ToBase(w, Base)[0] == Symbol(lead)
    ensures Reconstructed([v as CodePoint], 5)
         == if w < DecodeLimit then Some([w as CodePoint]) else Some([])
  {
    SignedGroupPixel(v);
    var p := ToPixel(v * 78074896);
    assert PixelValue(p) == w;
    FloorSqrtUnique(1, 1);
    assert SideLength(1) == 1;
    assert [p][..1] == [p];
    var g := Group(w, 5);
    GroupWidth(w, 5);
    GroupDecodes(w, 5);
    assert Unpack([p], 5) == g by {
      assert UnpackParts([p], 5) == [g];
      assert Join([g]) == g + Join([]);
    }
    assert Reconstructed([v as CodePoint], 5) == DecodeText(g, 5) by {
      assert TextPixels([v as CodePoint], 5)[..1] == [p];
    }
    assert g[..5] == g && g[5..] == [];
    assert FromBase(g[..5], Base) == Some(w);
    assert DecodeText(g[5..], 5) == Some([]);
    var kept: seq<CodePoint> := if w < DecodeLimit then [w as CodePoint] else [];
    assert DecodeText(g, 5) == Prepend(kept, Some([]));
    assert kept + [] == kept;
  }

  /**
   * 'H' (72) is written '+', zfilled to '+0000': its pixel holds
   * 72 * 94^4 mod 2^24 = 1025152, which decodes to another code point.
   */
  lemma PlusLedCounterexample()
    ensures EncodeText([72], 5) == "+0000"
    ensures Reconstructed([72], 5) == Some([1025152])
  {
    assert 1025152 == (72 * 78074896) % 0x1000000;
    NamedSymbols();
    SignedGroupPixel(72);
    FourDigits(1025152, 1, 22, 1, 82);
    OnePixelDecode(72, 1025152, 1);
  }

  /**
   * 'J' (74) is written '-', zfilled to '-0000': its pixel holds
   * 74 * 94^4 mod 2^24 = 6180000, at or above 0x110000, so the character
   * is dropped.
   */
  lemma MinusLedCounterexample()
    ensures EncodeText([74], 5) == "-0000"
    ensures Reconstructed([74], 5) == Some([])
  {
    assert 6180000 == (74 * 78074896) % 0x1000000;
    NamedSymbols();
    SignedGroupPixel(74);
    FourDigits(6180000, 7, 41, 38, 64);
    OnePixelDecode(74, 6180000, 7);
  }
}
