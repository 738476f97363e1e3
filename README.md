# Colour QR-style codec over a 94-symbol alphabet

This project models `main.py`, a small text-to-image codec. It writes each
character of a text as a fixed-width base-94 numeral over a 94-symbol
alphabet (digits, upper case, lower case and 32 ASCII punctuation marks).
It then cuts that symbol stream into chunks of `chars_per_dot` symbols and
stores each chunk's value in one RGB pixel of a square image. Decoding reads
the pixels back row by row, writes each pixel value as a zfilled base-94
group and decodes the groups back to characters.

The model has one module per stage:

- `Alphabet`: the alphabet and `FULL_ALPHABET.index`. `Index` and `Symbol`
  are computed from ASCII ranges. `Index` is proved equal to the linear
  search over the literal alphabet (`Find`), and `Symbol(d)` is proved equal
  to the literal's d-th character.
- `BaseN`: `encode_base_n` and `decode_base_n`, written as the source's
  `while` and `for` loops (`EncodeBaseN`, `DecodeBaseN`). They are proved
  against the specification functions `ToBase` and `FromBase`, whose round
  trip, leading-zero and width properties are lemmas.
- `Padding`: Python's `str.zfill`, `str.ljust` and `''.join`, and the
  zfilled group written by both text encoding and pixel unpacking.
- `Transcoder`: `text_to_encoded_string` and `encoded_string_to_text` as
  loops, with their specification functions `EncodeText` and `DecodeText`.
- `Packer`: `encode_large_number_as_pixels` and
  `decode_pixels_to_large_number` as loops, with `Pack` and `Unpack`.
- `Layout`: the floor square root, the side length, and a `Canvas` class.
  The canvas stands for the Pillow image: a flat row-major `array` of pixels
  where out-of-range points are dropped. `PlacePixels` is the drawing loop.
- `QrCode`: `create_colored_qr_code`, `decode_qr_code` on a loaded image,
  and `main`'s encode-then-decode run. It also holds the end-to-end
  round-trip theorems and the demo of main.py:115.

Text is a sequence of code points (`nat` below 0x110000), not Dafny `char`.
Python strings can hold surrogates, and `chr` accepts them. Symbol streams
are `seq<char>`. Where `FULL_ALPHABET.index` would raise `ValueError`, the
model returns `None`.

Behaviour of the code that the lemmas pin down:

- `str.zfill` treats a leading `'+'` or `'-'` as a sign. Those are digits 72
  and 74, so a one-symbol value 72 or 74 zfills to `'+0000'` or `'-0000'`.
  The packed pixel then holds a different value.
  `QrCode.PlusLedCounterexample` shows 'H' decoding to code point 1025152.
  `QrCode.MinusLedCounterexample` shows 'J' being dropped.
- The encoder keeps code points below 0x10FFFF, but the decoder keeps values
  below 0x110000. So U+10FFFF is dropped by the encoder alone.
- `int(n ** 0.5) + n % 1` is the floor square root, because `n % 1` is
  always 0. A comment in the source calls it the square's size, but the
  image keeps only the first floor(sqrt(n))² pixels. The model follows the
  code. In the demo, 260 characters make 260 pixels on a 16 × 16 canvas,
  and only 256 characters come back (`QrCode.DemoDecodesOnly256`).

## Model

The specification functions (`Horner`, `FromBase`, `Natural`, `Join`,
`Group`, `EncodeText`, `SumFrom`, `ChunkValue`, `PixelValue`, `Pack`,
`UnpackParts`, `Unpack`, `TextPixels`, `Reconstructed`) have no rows of
their own. Each one is defined by the source expression it names, and the
rows of the loops and lemmas that use it state what it means.

| member | source | states |
|---|---|---|
| Alphabet.Find | main.py:23 | returns the first position of the symbol, and None exactly when the symbol is absent (where `str.index` raises) |
| Alphabet.RankOfFull | main.py:5-7 | the alphabet has 94 symbols, and the symbol at position i has ASCII-range rank i |
| Alphabet.FullDistinct | main.py:5-7 | no symbol occurs twice in `FULL_ALPHABET` |
| Alphabet.FindFull | main.py:5-7 | `FULL_ALPHABET.index(c)` is the ASCII-range rank of c, and fails exactly for characters outside the alphabet |
| Alphabet.Symbol | main.py:12 | `FULL_ALPHABET[d]` has digit value d |
| Alphabet.SymbolIsFull | main.py:15 | the arithmetic symbol for d is the literal alphabet's d-th character |
| Alphabet.Index | main.py:23 | a found digit value is below 94 and names the symbol looked up |
| Alphabet.IndexIsFind | main.py:23 | the arithmetic lookup equals the linear search over `FULL_ALPHABET`, including its failures |
| Alphabet.IndexOfSymbol | main.py:23 | looking up the d-th symbol gives d back |
| Alphabet.NamedSymbols | main.py:5-7 | digit 0 is '0', and the only digits zfill reads as a sign are 72 ('+') and 74 ('-') |
| BaseN.ToBase | main.py:10-12 | the encoding is never empty, and it is "0" for 0 |
| BaseN.NaturalStep | main.py:14-16 | one loop iteration: the quotient shrinks, and the encoding is the quotient's encoding followed by the remainder's symbol |
| BaseN.EncodeBaseN | main.py:10-17 | the `while` loop returns `ToBase(number, base)` |
| BaseN.DecodeBaseN | main.py:20-24 | the `for` loop returns `FromBase(s, base)`, or None at the first unknown symbol |
| BaseN.HornerConcat | main.py:21-23 | decoding p + q is decoding p and then continuing the loop over q |
| BaseN.FromBasePrefixNone | main.py:23 | an unknown symbol anywhere in a prefix makes the whole decode fail |
| BaseN.FromBaseSomeIff | main.py:20-24 | decoding succeeds exactly when every symbol is in the alphabet |
| BaseN.FromBaseSnoc | main.py:23 | appending one symbol multiplies the value by the base and adds the symbol's digit |
| BaseN.FromBaseSingle | main.py:23 | a one-symbol string decodes to that symbol's digit |
| BaseN.HornerShift | main.py:21-23 | starting the loop from acc adds acc × 94^len to the string's value |
| BaseN.FromBaseConcat | main.py:20-24 | in base 94, the value of p + q is value(p) × 94^len(q) + value(q) |
| BaseN.ShiftIsPow | main.py:43 | the digit shift is multiplication by `len(FULL_ALPHABET) ** k` |
| BaseN.ZerosValue | main.py:31 | a run of '0' symbols is in the alphabet and decodes to 0 |
| BaseN.FromBaseLeadingZeros | main.py:20-24 | leading '0' symbols do not change the decoded value |
| BaseN.FromBaseToBase | main.py:10-24 | the encoding is in the alphabet, and `decode_base_n(encode_base_n(n, b), b) == n` for 2 ≤ b ≤ 94 |
| BaseN.ToBaseNoLeadingZero | main.py:14-17 | for n > 0 the encoding does not start with '0' |
| BaseN.ToBaseWidth | main.py:14-16 | a value below base^k encodes in at most k symbols |
| BaseN.FourSymbols | main.py:15-16 | every value below 2^24, and so every code point, encodes in at most 4 base-94 symbols |
| Padding.Zfill | main.py:31 | zfill never truncates, pads to the width with '0', and puts the zeros after a leading '+' or '-' |
| Padding.Ljust | main.py:42 | ljust keeps the string as a prefix and fills up to the width with the fill symbol |
| Padding.ZfillValue | main.py:31 | zfilling an unsigned numeral keeps its base-94 value |
| Padding.LjustValue | main.py:42-43 | right-padding with '0' multiplies the chunk's value by 94 for each symbol added |
| Padding.GroupInAlphabet | main.py:73 | every zfilled group consists of alphabet symbols |
| Padding.GroupWidth | main.py:31 | with width ≥ 4, the group of any value below 2^24 is exactly `width` symbols long |
| Padding.GroupDecodes | main.py:73 | a group whose leading symbol is not a sign decodes to its value |
| Padding.GroupSignedMisdecodes | main.py:73 | a sign-led encoding that zfill pads decodes to a strictly larger value |
| Padding.GroupDecodesIff | main.py:73 | a group decodes to its value exactly when zfill did not split a leading sign from its digits |
| Padding.JoinSnoc | main.py:74 | appending a part to the list appends its text to the join |
| Padding.JoinUniform | main.py:33 | parts of one width w join to w × count symbols, with part k at offset k × w |
| Padding.JoinInAlphabet | main.py:33 | a join of alphabet strings is an alphabet string |
| Transcoder.Kept | main.py:29-30 | keeps only code points below 0x10FFFF, keeps every one of them, and keeps everything when all pass |
| Transcoder.KeptSingle | main.py:30-32 | one code point is kept exactly when it is below 0x10FFFF |
| Transcoder.KeptAppend | main.py:29-32 | the filter of a concatenation is the concatenation of the filters, so order and repetitions are kept |
| Transcoder.DecodeText | main.py:80-85 | at most one code point comes back per full group of the stream |
| Transcoder.TextToEncodedString | main.py:27-33 | the loop returns the join of the zfilled groups of the kept code points (`EncodeText`) |
| Transcoder.EncodedStringToText | main.py:78-86 | the loop returns `DecodeText`: full groups in order, values ≥ 0x110000 skipped, a short tail ignored, None on an unknown symbol |
| Transcoder.EncodeTextLength | main.py:29-33 | with `chars_per_dot` ≥ 4 the stream is `chars_per_dot` × (kept count) long, and group k is the zfilled encoding of kept code point k |
| Transcoder.DecodeJoin | main.py:80-85 | a stream of full groups decodes its first group (dropping values ≥ 0x110000) and then the rest |
| Transcoder.DecodeGroups | main.py:80-86 | full groups whose values are code points decode to exactly those code points, in order |
| Transcoder.TranscoderRoundTrip | main.py:27-86 | with ≥ 4 symbols per group and no sign-led code point, decoding the stream gives back the kept text |
| Transcoder.DecodeTextIgnoresTrailing | main.py:80-82 | a trailing group shorter than `chars_per_dot` does not change the result |
| Packer.ToPixel | main.py:44-46 | the three channels are below 256 and hold the chunk value modulo 2^24 |
| Packer.ChannelsValue | main.py:44-46 | `r*65536 + g*256 + b` of the extracted channels is v mod 2^24 |
| Packer.FirstChunk | main.py:40-42 | every chunk is padded to exactly `chars_per_dot` symbols |
| Packer.EncodeLargeNumberAsPixels | main.py:36-48 | the chunking loop returns `Pack(s, chars_per_dot)` |
| Packer.DecodePixelsToLargeNumber | main.py:69-75 | the loop returns `Unpack`: one zfilled group of `r*65536 + g*256 + b` per pixel, in order |
| Packer.SumFromIsFromBase | main.py:43 | the sum of `index(char) * 94 ** (len - j - 1)` terms is the base-94 Horner value |
| Packer.ChunkValueIsFromBase | main.py:43 | the chunk value is what `decode_base_n` computes on the chunk |
| Packer.PackSomeIff | main.py:36-48 | packing succeeds exactly when every symbol of the stream is in the alphabet |
| Packer.LjustInAlphabetIff | main.py:42 | a chunk padded with '0' is in the alphabet exactly when the chunk is |
| Packer.PackLength | main.py:39 | the packer returns ceil(len / `chars_per_dot`) pixels |
| Packer.PackAt | main.py:39-47 | pixel k has channels below 256 and holds the base-94 value of chunk k (right-padded with '0') modulo 2^24 |
| Packer.PackJoin | main.py:36-48 | a stream of full chunks packs to one pixel per chunk, holding that chunk's value modulo 2^24 |
| Packer.ToPixelExact | main.py:44-46 | a value below 2^24 survives the channel split unchanged |
| Packer.PixelValueBound | main.py:72 | channels below 256 rebuild a value below 2^24 |
| Packer.UnpackLength | main.py:71-74 | with ≥ 4 symbols per group the unpacked stream is `chars_per_dot` × (pixel count) long, with pixel k's group at offset k × `chars_per_dot` |
| Packer.UnpackGroupDecodes | main.py:72-73 | each unpacked group decodes to its pixel's value exactly unless zfill split a leading '+' or '-' |
| Layout.FloorSqrt | main.py:56 | r² ≤ n < (r + 1)² |
| Layout.FloorSqrtUnique | main.py:56 | the floor square root is the only such r |
| Layout.SideLength | main.py:56 | the side is the floor square root (the `% 1` term is 0), and it is positive for a non-empty image |
| Layout.Canvas.constructor | main.py:58 | a fresh side × side canvas with every cell white |
| Layout.Canvas.Point | main.py:64 | writes cell y × side + x when the point is on the canvas, and changes nothing otherwise |
| Layout.Canvas.GetData | main.py:91 | reads all side × side cells row by row |
| Layout.CellIndex | main.py:62-64 | an on-canvas point addresses a cell inside the buffer |
| Layout.Placement | main.py:62-63 | pixel i goes to column i % side, row i // side, and is on the canvas exactly when i < side² |
| Layout.PlacePixels | main.py:61-64 | cell k ends up holding pixel k when there is one and the background otherwise, so when there are side² or more pixels the canvas is the first side² of them |
| QrCode.EncodeTextPacks | main.py:52-53 | the symbol stream of any text packs without error |
| QrCode.CreateColoredQrCode | main.py:51-66 | returns the symbol stream, the floor-square-root side, and a canvas holding the first side² packed pixels |
| QrCode.DecodeQrCode | main.py:89-96 | decodes the canvas's row-major pixels through `Unpack` and `DecodeText` |
| QrCode.EncodeAndDecode | main.py:99-111 | the decoded text is `Reconstructed`; for ≥ 4 symbols per group and codable text, the side is floor(sqrt(len)) and the result is the first side² code points |
| QrCode.Visible | main.py:56-64 | the shown code points are a prefix of the text |
| QrCode.TextPixelsValues | main.py:52-53 | for codable text, code point i becomes pixel i holding its value |
| QrCode.DecodePixels | main.py:93-94 | pixels holding restorable code points unpack and decode to those code points |
| QrCode.PixelRoundTrip | main.py:99-111 | decoding any prefix of a text's pixels gives back that prefix of the text |
| QrCode.RoundTrip | main.py:27-86 | text → stream → pixels → stream → text is the identity for codable text with ≥ 4 symbols per group |
| QrCode.SideOfText | main.py:55-56 | with one pixel per code point the side is floor(sqrt(len)) |
| QrCode.LayoutRoundTrip | main.py:99-111 | through the square image, only the first floor(sqrt(n))² code points come back |
| QrCode.DemoText | main.py:115 | the demo text is 260 code points long |
| QrCode.TwoSymbolLead | main.py:31 | code points 94 to 187 encode with leading symbol '1', so they are codable |
| QrCode.DemoDecodesOnly256 | main.py:115 | the demo's 260 pixels sit on a 16 × 16 canvas, and decoding returns only the first 256 characters |
| QrCode.FourDigits | main.py:14-16 | a four-digit value's encoding starts with its top digit |
| QrCode.SingleSymbolGroup | main.py:31 | a one-symbol sign is zfilled to width 5 as the sign followed by four zeros |
| QrCode.SignedGroupPixel | main.py:31-46 | for the one-symbol sign code points 72 ('+') and 74 ('-') with `chars_per_dot` = 5, the stream is the sign and four zeros, and it packs to the single pixel of d × 94^4 (mod 2^24) |
| QrCode.OnePixelDecode | main.py:69-86 | for the text [72] or [74] with `chars_per_dot` = 5, whose one pixel holds w = d × 94^4 mod 2^24 with a leading symbol that is not a sign, the image decodes to [w], or to nothing when w ≥ 0x110000 |
| QrCode.PlusLedCounterexample | main.py:31 | 'H' is written "+0000" and comes back as code point 1025152 |
| QrCode.MinusLedCounterexample | main.py:84 | 'J' is written "-0000", and its pixel value 6180000 is at least 0x110000, so it is dropped |

## Left out

- Pillow (main.py:2, 58-59, 64, 90-91, 103). `Image.new`, `draw.point` and `getdata` are modelled by the `Canvas` class. Saving to PNG and reopening the file are taken to return the same pixels, because PNG is lossless for RGB. PNG encoding itself is not modelled.
- Layout.FloorSqrt: the float `total_dots ** 0.5` is replaced by an exact integer floor square root. The two agree for any pixel count whose square root a double represents closely enough, which covers every realistic image.
- `main`'s printing and its fixed file name (main.py:103-111) are console and file output. `EncodeAndDecode` returns the side, the stream and the decoded text instead of printing them.
- `img_size` (main.py:51, 99) is never used, so the model has no such parameter.
- `chars_per_dot` is a `nat`, and it must be at least 1 wherever the stream is stepped through. Python's `range` with step 0 raises `ValueError`, and that error path is not modelled. Negative `chars_per_dot` is not modelled either. Python accepts it: `zfill` with a negative width returns the string unchanged, and `range(0, n, -k)` is empty, so there are no pixels and no decoded text. The default `chars_per_dot=5` of `create_colored_qr_code` and `main` (main.py:51, 99) is not a default in the model. Callers pass the value, as the demo passes 10.
- BaseN.EncodeBaseN: bases are limited to 2..94. With base 1 the loop never ends, and above 94 `FULL_ALPHABET[number % base]` can raise. The source only ever calls it with 94.
- BaseN.FromBaseConcat: stated for base 94 only, the one base the source decodes with. `HornerConcat` holds for every base.
- Transcoder.TextToEncodedString: `ord` applied to a character is modelled as reading the code point from the text sequence, so `0 <= ord(char)` always holds.
- Errors are modelled as `None`: an unknown symbol in `decode_base_n`, in the chunk sum and in `encoded_string_to_text`. Python would raise `ValueError` instead.
