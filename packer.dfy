/**
 * The pixel packer and unpacker: encode_large_number_as_pixels
 * (main.py:36-48) turns each chunk of the symbol stream into an (r, g, b)
 * triple; decode_pixels_to_large_number (main.py:69-75) writes one zfilled
 * group per pixel back.
 */
module Packer {
  import opened Wrappers
  import opened Alphabet
  import opened BaseN
  import opened Padding

  /** One pixel; the packer only produces channels below 256. */
  datatype Pixel = Pixel(r: nat, g: nat, b: nat)

  const Channel: nat := 256
  /** 2^24: the three channels hold a chunk value modulo this. */
  const Capacity: nat := 0x1000000

  predicate ChannelsInRange(p: Pixel) {
    p.r < Channel && p.g < Channel && p.b < Channel
  }

  /** The chunk value rebuilt from the channels: `r * 256 * 256 + g * 256 + b`. */
  function PixelValue(p: Pixel): (v: nat) {
    p.r * 256 * 256 + p.g * 256 + p.b
  }

  /** The channel extraction `(v // 65536) % 256, (v // 256) % 256, v % 256`. */
  function ToPixel(v: nat): (p: Pixel)
    ensures ChannelsInRange(p)
    ensures PixelValue(p) == v % Capacity
  {
    var p := Pixel((v / (256 * 256)) % 256, (v / 256) % 256, v % 256);
    ChannelsValue(v);
    p
  }

  lemma ChannelsValue(v: nat)
    ensures ((v / 65536) % 256) * 65536 + ((v / 256) % 256) * 256 + v % 256 == v % 0x1000000
  {
    var q0 := v / 256;
    var q1 := q0 / 256;
    assert v / 65536 == q1;
    assert v / 0x1000000 == q1 / 256;
  }

  /** One term `index(char) * 94 ** (len(chunk) - j - 1)` of the sum, for j from `j` on. */
  function SumFrom(chunk: string, j: nat): (r: Option<nat>)
    requires j <= |chunk|
    decreases |chunk| - j
  {
    if j == |chunk| then Some(0)
    else match (Index(chunk[j]), SumFrom(chunk, j + 1))
      case (Some(d), Some(rest)) => Some(d * Pow(Base, |chunk| - j - 1) + rest)
      case _ => None
  }

  /** The chunk value of main.py:43, None where FULL_ALPHABET.index raises. */
  function ChunkValue(chunk: string): (r: Option<nat>) {
    SumFrom(chunk, 0)
  }

  /** The chunk starting the stream, right-padded with '0' to a full chunk. */
  function FirstChunk(s: string, charsPerDot: nat): (c: string)
    ensures |c| == charsPerDot
  {
    Ljust(if |s| <= charsPerDot then s else s[..charsPerDot], charsPerDot, Zero)
  }

  /** What encode_large_number_as_pixels returns: one pixel per chunk, or None on an unknown symbol. */
  function Pack(s: string, charsPerDot: nat): (r: Option<seq<Pixel>>)
    requires charsPerDot >= 1
    decreases |s|
  {
    if s == [] then Some([])
    else
      var rest := if |s| <= charsPerDot then [] else s[charsPerDot..];
      match (ChunkValue(FirstChunk(s, charsPerDot)), Pack(rest, charsPerDot))
      case (Some(v), Some(ps)) => Some([ToPixel(v)] + ps)
      case _ => None
  }

  /** The groups `decode_pixels_to_large_number` writes, one per pixel. */
  function UnpackParts(pixels: seq<Pixel>, charsPerDot: nat): (parts: seq<string>)
    ensures |parts| == |pixels|
  {
    seq(|pixels|, k requires 0 <= k < |pixels| => Group(PixelValue(pixels[k]), charsPerDot))
  }

  /** What decode_pixels_to_large_number returns. */
  function Unpack(pixels: seq<Pixel>, charsPerDot: nat): (s: string) {
    Join(UnpackParts(pixels, charsPerDot))
  }

  // ---------------------------------------------------------------- loops

  /** encode_large_number_as_pixels: step through the stream one chunk at a time. */
  method EncodeLargeNumberAsPixels(s: string, charsPerDot: nat) returns (r: Option<seq<Pixel>>)
    requires charsPerDot >= 1
    ensures r == Pack(s, charsPerDot)
  {
    var pixels: seq<Pixel> := [];
    var i := 0;
    assert s[i..] == s;
    PrependNil(Pack(s, charsPerDot));
    while i < |s|
      invariant 0 <= i <= |s|
      invariant Pack(s, charsPerDot) == Prepend(pixels, Pack(s[i..], charsPerDot))
      decreases |s| - i
    {
      var end := if i + charsPerDot <= |s| then i + charsPerDot else |s|;
      var chunk := s[i..end];
      if |chunk| < charsPerDot {
        chunk := Ljust(chunk, charsPerDot, Zero);
      }
      var rest := s[i..];
      assert chunk == FirstChunk(rest, charsPerDot);
      assert (if |rest| <= charsPerDot then [] else rest[charsPerDot..]) == s[end..];
      var value := ChunkValue(chunk);
      if value.None? {
        return None;
      }
      PrependAssoc(pixels, [ToPixel(value.value)], Pack(s[end..], charsPerDot));
      pixels := pixels + [ToPixel(value.value)];
      i := end;
    }
    assert s[i..] == [] && pixels + [] == pixels;
    return Some(pixels);
  }

  /** decode_pixels_to_large_number: append one zfilled group per pixel. */
  method DecodePixelsToLargeNumber(pixels: seq<Pixel>, charsPerDot: nat) returns (s: string)
    ensures s == Unpack(pixels, charsPerDot)
  {
    FullSize();
    s := "";
    for i := 0 to |pixels|
      invariant s == Join(UnpackParts(pixels[..i], charsPerDot))
    {
      var p := pixels[i];
      var chunkValue := p.r * 256 * 256 + p.g * 256 + p.b;
      var digits := EncodeBaseN(chunkValue, Base);
      var chunk := Zfill(digits, charsPerDot);
      assert UnpackParts(pixels[..i + 1], charsPerDot) == UnpackParts(pixels[..i], charsPerDot) + [chunk];
      JoinSnoc(UnpackParts(pixels[..i], charsPerDot), chunk);
      s := s + chunk;
    }
    assert pixels[..|pixels|] == pixels;
  }

  // --------------------------------------------------------------- lemmas

  lemma {:induction false} SumFromIsFromBase(chunk: string, j: nat)
    requires j <= |chunk|
    ensures SumFrom(chunk, j) == FromBase(chunk[j..], Base)
    decreases |chunk| - j
  {
    if j == |chunk| {
      assert chunk[j..] == [];
    } else {
      SumFromIsFromBase(chunk, j + 1);
      var c, rest := chunk[j], chunk[j + 1..];
      assert chunk[j..] == [c] + rest;
      FromBaseSomeIff([c], Base);
      FromBaseSomeIff(rest, Base);
      FromBaseSomeIff(chunk[j..], Base);
      if Index(c).Some? && FromBase(rest, Base).Some? {
        FromBaseSingle(c, Base);
        FromBaseConcat([c], rest);
        ShiftIsPow(Index(c).value, |rest|);
      } else if Index(c).None? {
        assert !InAlphabet(chunk[j..]) by { assert chunk[j..][0] == c; }
      } else {
        var i :| 0 <= i < |rest| && Index(rest[i]).None?;
        assert chunk[j..][i + 1] == rest[i];
      }
    }
  }

  /**
   * The sum of main.py:43 is the Horner value decode_base_n computes:
   * packing and unpacking read a chunk with the same numeral.
   */
  lemma ChunkValueIsFromBase(chunk: string)
    ensures ChunkValue(chunk) == FromBase(chunk, Base)
  {
    SumFromIsFromBase(chunk, 0);
    assert chunk[0..] == chunk;
  }

  /** The stream left after the first chunk. */
  function RestAfterFirst(s: string, charsPerDot: nat): (rest: string) {
    if |s| <= charsPerDot then [] else s[charsPerDot..]
  }

  /** Packing succeeds exactly when every symbol is in the alphabet. */
  lemma {:induction false} PackSomeIff(s: string, charsPerDot: nat)
    requires charsPerDot >= 1
    ensures Pack(s, charsPerDot).Some? <==> InAlphabet(s)
    decreases |s|
  {
    if s != [] {
      var first := if |s| <= charsPerDot then s else s[..charsPerDot];
      var rest := RestAfterFirst(s, charsPerDot);
      assert s == first + rest;
      PackSomeIff(rest, charsPerDot);
      ChunkValueIsFromBase(FirstChunk(s, charsPerDot));
      FromBaseSomeIff(FirstChunk(s, charsPerDot), Base);
      LjustInAlphabetIff(first, charsPerDot);
      if InAlphabet(first) && InAlphabet(rest) {
        AppendInAlphabet(first, rest);
      } else if !InAlphabet(first) {
        var i :| 0 <= i < |first| && Index(first[i]).None?;
        assert s[i] == first[i];
      } else {
        var i :| 0 <= i < |rest| && Index(rest[i]).None?;
        assert s[|first| + i] == rest[i];
      }
    }
  }

  lemma LjustInAlphabetIff(s: string, width: nat)
    ensures InAlphabet(Ljust(s, width, Zero)) <==> InAlphabet(s)
  {
    var r := Ljust(s, width, Zero);
    NamedSymbols();
    assert Index(Zero).Some?;
    if InAlphabet(s) {
      forall i | 0 <= i < |r| ensures Index(r[i]).Some? {
        if i < |s| { assert r[i] == r[..|s|][i] == s[i]; }
      }
    } else {
      var i :| 0 <= i < |s| && Index(s[i]).None?;
      assert r[i] == r[..|s|][i];
    }
  }

  /**
   * The packer returns ceil(|s| / charsPerDot) pixels: the least count whose
   * chunks cover the stream.
   */
  lemma {:induction false} PackLength(s: string, charsPerDot: nat)
    requires charsPerDot >= 1
    requires Pack(s, charsPerDot).Some?
    ensures |Pack(s, charsPerDot).value| * charsPerDot >= |s|
    ensures s != [] ==> (|Pack(s, charsPerDot).value| - 1) * charsPerDot < |s|
    ensures s == [] ==> Pack(s, charsPerDot).value == []
    decreases |s|
  {
    if s != [] {
      var rest := RestAfterFirst(s, charsPerDot);
      PackLength(rest, charsPerDot);
      var n := |Pack(rest, charsPerDot).value|;
      MulStep(n, charsPerDot);
      if rest != [] {
        MulStep(n - 1, charsPerDot);
      }
    }
  }

  /**
   * Pixel k of the packer's output: channels below 256, and
   * r * 65536 + g * 256 + b is the base-94 value of chunk k (right-padded
   * with '0') modulo 2^24.
   */
  lemma {:induction false} PackAt(s: string, charsPerDot: nat, k: nat, start: nat)
    requires charsPerDot >= 1
    requires Pack(s, charsPerDot).Some? && k < |Pack(s, charsPerDot).value|
    requires start == k * charsPerDot
    ensures start < |s|
    ensures ChannelsInRange(Pack(s, charsPerDot).value[k])
    ensures FromBase(FirstChunk(s[start..], charsPerDot), Base).Some?
    ensures PixelValue(Pack(s, charsPerDot).value[k])
         == FromBase(FirstChunk(s[start..], charsPerDot), Base).value % Capacity
    decreases k
  {
    var rest := RestAfterFirst(s, charsPerDot);
    if k == 0 {
      assert s[0..] == s;
      ChunkValueIsFromBase(FirstChunk(s, charsPerDot));
    } else {
      assert Pack(s, charsPerDot).value[k] == Pack(rest, charsPerDot).value[k - 1];
      MulStep(k - 1, charsPerDot);
      var j := start - charsPerDot;
      PackAt(rest, charsPerDot, k - 1, j);
      assert rest == s[charsPerDot..];
      assert s[start..] == rest[j..];
    }
  }

  /**
   * A stream made of full chunks packs chunk by chunk: one pixel per chunk,
   * holding that chunk's value modulo 2^24.
   */
  lemma {:induction false} PackJoin(parts: seq<string>, values: seq<nat>, charsPerDot: nat)
    requires charsPerDot >= 1
    requires |parts| == |values|
    requires forall k :: 0 <= k < |parts| ==> |parts[k]| == charsPerDot
    requires forall k :: 0 <= k < |parts| ==> FromBase(parts[k], Base) == Some(values[k])
    ensures Pack(Join(parts), charsPerDot)
         == Some(seq(|values|, k requires 0 <= k < |values| => ToPixel(values[k])))
  {
    if parts != [] {
      var s := Join(parts);
      assert s == parts[0] + Join(parts[1..]);
      assert FirstChunk(s, charsPerDot) == parts[0];
      assert RestAfterFirst(s, charsPerDot) == Join(parts[1..]);
      ChunkValueIsFromBase(parts[0]);
      PackJoin(parts[1..], values[1..], charsPerDot);
      var tail := seq(|values[1..]|, k requires 0 <= k < |values[1..]| => ToPixel(values[1..][k]));
      assert seq(|values|, k requires 0 <= k < |values| => ToPixel(values[k])) == [ToPixel(values[0])] + tail;
    } else {
      assert seq(|values|, k requires 0 <= k < |values| => ToPixel(values[k])) == [];
    }
  }

  /** A value below 2^24 survives the channel split unchanged. */
  lemma ToPixelExact(v: nat)
    requires v < Capacity
    ensures PixelValue(ToPixel(v)) == v
  {
    assert v % Capacity == v;
  }

  /** Channels below 256 hold a value below 2^24. */
  lemma PixelValueBound(p: Pixel)
    requires ChannelsInRange(p)
    ensures PixelValue(p) < Capacity
  {
  }

  /**
   * For pixels with channels below 256 and at least 4 symbols per group,
   * the unpacker emits exactly one group of `charsPerDot` symbols per
   * pixel, in order.
   */
  lemma UnpackLength(pixels: seq<Pixel>, charsPerDot: nat)
    requires charsPerDot >= 4
    requires forall k :: 0 <= k < |pixels| ==> ChannelsInRange(pixels[k])
    ensures |Unpack(pixels, charsPerDot)| == charsPerDot * |pixels|
    ensures forall k :: 0 <= k < |pixels| ==>
      k * charsPerDot + charsPerDot <= |Unpack(pixels, charsPerDot)| &&
      Unpack(pixels, charsPerDot)[k * charsPerDot..k * charsPerDot + charsPerDot]
        == Group(PixelValue(pixels[k]), charsPerDot)
  {
    var parts := UnpackParts(pixels, charsPerDot);
    forall k | 0 <= k < |parts| ensures |parts[k]| == charsPerDot {
      PixelValueBound(pixels[k]);
      GroupWidth(PixelValue(pixels[k]), charsPerDot);
    }
    JoinUniform(parts, charsPerDot);
  }

  /**
   * Each unpacked group decodes back to r * 65536 + g * 256 + b unless zfill
   * split a leading '+' or '-' from its digits.
   */
  lemma UnpackGroupDecodes(pixels: seq<Pixel>, charsPerDot: nat, k: nat)
    requires k < |pixels|
    ensures UnpackParts(pixels, charsPerDot)[k] == Group(PixelValue(pixels[k]), charsPerDot)
    ensures FromBase(UnpackParts(pixels, charsPerDot)[k], Base) == Some(PixelValue(pixels[k]))
        <==> !IsSign(ToBase(PixelValue(pixels[k]), Base)[0])
             || |ToBase(PixelValue(pixels[k]), Base)| >= charsPerDot
  {
    GroupDecodesIff(PixelValue(pixels[k]), charsPerDot);
  }
}
