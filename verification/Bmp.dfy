/** The BMP writer and reader on bytes: what a file holds, and when reading back what was written
    gives the picture again. */
module Bmp {
  import opened Bands
  import opened Bitmaps

  type Byte = bv8
  type Bytes = seq<Byte>

  const HEADER_SIZE := 54

  // ---- Colours ----

  function MakeRgba(r: bv32, g: bv32, b: bv32, a: bv32): Color {
    (a << 24) | (r << 16) | (g << 8) | b
  }

  function Red(c: Color): Byte { ((c >> 16) & 0xff) as Byte }
  function Green(c: Color): Byte { ((c >> 8) & 0xff) as Byte }
  function Blue(c: Color): Byte { (c & 0xff) as Byte }
  function Alpha(c: Color): Byte { ((c >> 24) & 0xff) as Byte }

  /** The colour that reading back `c` gives: opaque, but for black. */
  function Opaque(c: Color): (d: Color)
    ensures Red(d) == Red(c) && Green(d) == Green(c) && Blue(d) == Blue(c)
    ensures Alpha(d) == if c & 0xffffff == 0 then 0 else 255
    ensures c & 0xffffff == 0 ==> d == 0
  {
    if c & 0xffffff == 0 then 0 else c | 0xff000000
  }

  /** Splitting a colour into bytes and joining them gives it back, with the new alpha. */
  lemma SplitJoin(c: Color)
    ensures MakeRgba(Red(c) as bv32, Green(c) as bv32, Blue(c) as bv32, 255) == c | 0xff000000
    ensures Red(c) == 0 && Green(c) == 0 && Blue(c) == 0 <==> c & 0xffffff == 0
  {
  }

  /** Making a colour from bytes and taking it apart gives the bytes. */
  lemma JoinSplit(r: Byte, g: Byte, b: Byte, a: Byte)
    ensures var c := MakeRgba(r as bv32, g as bv32, b as bv32, a as bv32);
            Red(c) == r && Green(c) == g && Blue(c) == b && Alpha(c) == a
  {
  }

  // ---- Header ----

  function Bit(x: nat, weight: nat, bit: Byte): Byte
    requires weight > 0
  {
    if x / weight % 2 == 1 then bit else 0
  }

  /** A number below 256 as a byte, bit by bit. */
  function ToByte(x: nat): Byte {
    Bit(x, 128, 0x80) | Bit(x, 64, 0x40) | Bit(x, 32, 0x20) | Bit(x, 16, 0x10)
    | Bit(x, 8, 0x08) | Bit(x, 4, 0x04) | Bit(x, 2, 0x02) | Bit(x, 1, 0x01)
  }

  function Weight(b: Byte, bit: Byte, weight: nat): nat {
    if b & bit != 0 then weight else 0
  }

  function FromByte(b: Byte): nat {
    Weight(b, 0x80, 128) + Weight(b, 0x40, 64) + Weight(b, 0x20, 32) + Weight(b, 0x10, 16)
    + Weight(b, 0x08, 8) + Weight(b, 0x04, 4) + Weight(b, 0x02, 2) + Weight(b, 0x01, 1)
  }

  /** `v` as `n` bytes, the lowest first, dropping what does not fit. */
  function Little(v: nat, n: nat): (bytes: Bytes)
    ensures |bytes| == n
    decreases n
  {
    if n == 0 then [] else [ToByte(v % 256)] + Little(v / 256, n - 1)
  }

  function FromLittle(bytes: Bytes): nat {
    if bytes == [] then 0 else FromByte(bytes[0]) + 256 * FromLittle(bytes[1..])
  }

  function Power256(n: nat): nat {
    if n == 0 then 1 else 256 * Power256(n - 1)
  }

  /** The bits of a byte are the binary digits of its number. */
  lemma BitsOfByte(x: nat)
    ensures ToByte(x) & 0x80 != 0 <==> x / 128 % 2 == 1
    ensures ToByte(x) & 0x40 != 0 <==> x / 64 % 2 == 1
    ensures ToByte(x) & 0x20 != 0 <==> x / 32 % 2 == 1
    ensures ToByte(x) & 0x10 != 0 <==> x / 16 % 2 == 1
    ensures ToByte(x) & 0x08 != 0 <==> x / 8 % 2 == 1
    ensures ToByte(x) & 0x04 != 0 <==> x / 4 % 2 == 1
    ensures ToByte(x) & 0x02 != 0 <==> x / 2 % 2 == 1
    ensures ToByte(x) & 0x01 != 0 <==> x / 1 % 2 == 1
  {
  }

  lemma BinaryDigits(x: nat)
    requires x < 256
    ensures x == 128 * (x / 128 % 2) + 64 * (x / 64 % 2) + 32 * (x / 32 % 2) + 16 * (x / 16 % 2)
                 + 8 * (x / 8 % 2) + 4 * (x / 4 % 2) + 2 * (x / 2 % 2) + x / 1 % 2
  {
    assert x / 64 == 2 * (x / 128) + x / 64 % 2;
    assert x / 32 == 2 * (x / 64) + x / 32 % 2;
    assert x / 16 == 2 * (x / 32) + x / 16 % 2;
    assert x / 8 == 2 * (x / 16) + x / 8 % 2;
    assert x / 4 == 2 * (x / 8) + x / 4 % 2;
    assert x / 2 == 2 * (x / 4) + x / 2 % 2;
    assert x == 2 * (x / 2) + x / 1 % 2;
  }

  /** What bit number `weight` contributes is the digit's part of the number. */
  lemma WeightOfBit(b: Byte, bit: Byte, weight: nat, digit: nat)
    requires digit < 2 && (b & bit != 0 <==> digit == 1)
    ensures Weight(b, bit, weight) == weight * digit
  {
  }

  lemma HighNibble(x: nat)
    ensures Weight(ToByte(x), 0x80, 128) + Weight(ToByte(x), 0x40, 64)
            + Weight(ToByte(x), 0x20, 32) + Weight(ToByte(x), 0x10, 16)
            == 128 * (x / 128 % 2) + 64 * (x / 64 % 2) + 32 * (x / 32 % 2) + 16 * (x / 16 % 2)
  {
    hide ToByte, Weight;
    BitsOfByte(x);
    WeightOfBit(ToByte(x), 0x80, 128, x / 128 % 2);
    WeightOfBit(ToByte(x), 0x40, 64, x / 64 % 2);
    WeightOfBit(ToByte(x), 0x20, 32, x / 32 % 2);
    WeightOfBit(ToByte(x), 0x10, 16, x / 16 % 2);
  }

  lemma LowNibble(x: nat)
    ensures Weight(ToByte(x), 0x08, 8) + Weight(ToByte(x), 0x04, 4)
            + Weight(ToByte(x), 0x02, 2) + Weight(ToByte(x), 0x01, 1)
            == 8 * (x / 8 % 2) + 4 * (x / 4 % 2) + 2 * (x / 2 % 2) + x / 1 % 2
  {
    hide ToByte, Weight;
    BitsOfByte(x);
    WeightOfBit(ToByte(x), 0x08, 8, x / 8 % 2);
    WeightOfBit(ToByte(x), 0x04, 4, x / 4 % 2);
    WeightOfBit(ToByte(x), 0x02, 2, x / 2 % 2);
    WeightOfBit(ToByte(x), 0x01, 1, x / 1 % 2);
  }

  lemma ByteRoundTrip(x: nat)
    requires x < 256
    ensures FromByte(ToByte(x)) == x
  {
    hide ToByte, Weight;
    HighNibble(x);
    LowNibble(x);
    BinaryDigits(x);
  }

  /** A value that fits is read back from its bytes. */
  lemma {:induction false} LittleRoundTrip(v: nat, n: nat)
    requires v < Power256(n)
    ensures FromLittle(Little(v, n)) == v
    decreases n
  {
    if n > 0 {
      ByteRoundTrip(v % 256);
      LittleRoundTrip(v / 256, n - 1);
      assert Little(v, n)[1..] == Little(v / 256, n - 1);
    }
  }

  /** Bytes of pixels, without padding. */
  function ImageSize(width: nat, height: nat): nat {
    width * height * 3
  }

  function FileHeader(size: nat): (bytes: Bytes)
    ensures |bytes| == 14
  {
    [0x42, 0x4d] + Little(size, 4) + Little(0, 4) + Little(HEADER_SIZE, 4)
  }

  function InfoHeader(width: nat, height: nat, size: nat): (bytes: Bytes)
    ensures |bytes| == HEADER_SIZE - 14
  {
    Little(HEADER_SIZE - 14, 4) + Little(width, 4) + Little(height, 4)
    + Little(1, 2) + Little(24, 2) + Little(0, 4) + Little(size, 4)
    + Little(1000, 4) + Little(1000, 4) + Little(0, 4) + Little(0, 4)
  }

  /** The 54 bytes before the pixels. */
  function Header(width: nat, height: nat): (bytes: Bytes)
    ensures |bytes| == HEADER_SIZE
  {
    FileHeader(ImageSize(width, height)) + InfoHeader(width, height, ImageSize(width, height))
  }

  // ---- Writing ----

  /** Bytes that round a row up to a multiple of four. */
  function Pad(width: nat): nat {
    var p := 4 - (width * 3) % 4;
    if p == 4 then 0 else p
  }

  function Scan(row: seq<Color>): (bytes: Bytes)
    ensures |bytes| == 3 * |row|
  {
    if row == [] then []
    else
      var c := row[|row| - 1];
      Scan(row[..|row| - 1]) + [Blue(c), Green(c), Red(c)]
  }

  /** A row and the padding, which repeats its first bytes. */
  function Line(row: seq<Color>): (bytes: Bytes) {
    Scan(row) + Scan(row)[..Pad(|row|)]
  }

  /** A picture as the program keeps it: the rows one after the other. */
  datatype Picture = Picture(width: nat, height: nat, pixels: seq<Color>)

  predicate Proper(p: Picture) {
    |p.pixels| == p.height * p.width
  }

  /** The first `j` lines. */
  function Body(p: Picture, j: nat): Bytes
    requires Proper(p) && j <= p.height
  {
    if j == 0 then [] else Body(p, j - 1) + Line(RowAt(p.pixels, p.width, p.height, j - 1))
  }

  function Save(p: Picture): Bytes
    requires Proper(p)
  {
    Header(p.width, p.height) + Body(p, p.height)
  }

  // ---- Reading ----

  datatype Loaded = Loaded(picture: Picture) | NotBmp | Unsupported

  /** The next byte as an int; all ones (-1) past the end of the file. */
  function At(bytes: Bytes, k: nat): bv32 {
    if k < |bytes| then bytes[k] as bv32 else 0xffff_ffff
  }

  function PixelFrom(b: bv32, g: bv32, r: bv32): Color {
    if b == 0 && g == 0 && r == 0 then 0 else MakeRgba(r, g, b, 255)
  }

  /** Pixel `k` comes from the three bytes right after those of pixel `k - 1`. */
  function PixelAt(bytes: Bytes, k: nat): Color {
    var o := HEADER_SIZE + 3 * k;
    PixelFrom(At(bytes, o), At(bytes, o + 1), At(bytes, o + 2))
  }

  function PixelsFrom(bytes: Bytes, n: nat): (pixels: seq<Color>)
    ensures |pixels| == n && forall k :: 0 <= k < n ==> pixels[k] == PixelAt(bytes, k)
  {
    seq(n, k requires k >= 0 => PixelAt(bytes, k))
  }

  function FieldAt(bytes: Bytes, from: nat, n: nat): nat
    requires from + n <= |bytes|
  {
    FromLittle(bytes[from..from + n])
  }

  function Load(bytes: Bytes): Loaded
    requires |bytes| >= HEADER_SIZE
  {
    if bytes[0] != 0x42 || bytes[1] != 0x4d then NotBmp
    else if FieldAt(bytes, 30, 4) != 0 || FieldAt(bytes, 28, 2) != 24 then Unsupported
    else
      var w, h := FieldAt(bytes, 18, 4), FieldAt(bytes, 22, 4);
      Loaded(Picture(w, h, PixelsFrom(bytes, w * h)))
  }

  // ---- The header is read back ----

  lemma InfoFields(width: nat, height: nat, size: nat)
    ensures var info := InfoHeader(width, height, size);
            && info[4..8] == Little(width, 4) && info[8..12] == Little(height, 4)
            && info[14..16] == Little(24, 2) && info[16..20] == Little(0, 4)
  {
    hide Little;
  }

  lemma HeaderFields(width: nat, height: nat, rest: Bytes)
    ensures var bytes := Header(width, height) + rest;
            && bytes[0] == 0x42 && bytes[1] == 0x4d
            && bytes[18..22] == Little(width, 4) && bytes[22..26] == Little(height, 4)
            && bytes[28..30] == Little(24, 2) && bytes[30..34] == Little(0, 4)
  {
    hide Little, InfoHeader;
    var size := ImageSize(width, height);
    var info := InfoHeader(width, height, size);
    InfoFields(width, height, size);
    var bytes := FileHeader(size) + info + rest;
    assert Header(width, height) + rest == bytes;
    assert bytes[18..22] == info[4..8] && bytes[22..26] == info[8..12];
    assert bytes[28..30] == info[14..16] && bytes[30..34] == info[16..20];
  }

  lemma PowerFacts()
    ensures Power256(2) == 0x1_0000 && Power256(4) == 0x1_0000_0000
  {
    assert Power256(1) == 256 && Power256(2) == 256 * 256;
    assert Power256(3) == 256 * 256 * 256;
  }

  /** Width and height survive, so only the pixels can differ. */
  lemma LoadAfterHeader(width: nat, height: nat, rest: Bytes)
    requires width < 0x1_0000_0000 && height < 0x1_0000_0000
    ensures Load(Header(width, height) + rest)
            == Loaded(Picture(width, height, PixelsFrom(Header(width, height) + rest, width * height)))
  {
    hide Little, FromLittle, Power256, Header, PixelAt;
    PowerFacts();
    HeaderFields(width, height, rest);
    LittleRoundTrip(width, 4);
    LittleRoundTrip(height, 4);
    LittleRoundTrip(24, 2);
    LittleRoundTrip(0, 4);
  }

  // ---- Pixels read back from scanned rows ----

  lemma {:induction false} ScanConcat(a: seq<Color>, b: seq<Color>)
    ensures Scan(a + b) == Scan(a) + Scan(b)
    decreases |b|
  {
    if b == [] {
      assert a + b == a;
    } else {
      var n := |b| - 1;
      ScanConcat(a, b[..n]);
      assert (a + b)[..|a + b| - 1] == a + b[..n];
    }
  }

  lemma {:induction false} ScanAt(row: seq<Color>, k: nat)
    requires k < |row|
    ensures Scan(row)[3 * k] == Blue(row[k])
    ensures Scan(row)[3 * k + 1] == Green(row[k])
    ensures Scan(row)[3 * k + 2] == Red(row[k])
  {
    hide Blue, Green, Red;
    if k < |row| - 1 { ScanAt(row[..|row| - 1], k); }
  }

  lemma PixelBack(c: Color)
    ensures PixelFrom(Blue(c) as bv32, Green(c) as bv32, Red(c) as bv32) == Opaque(c)
  {
    SplitJoin(c);
  }

  lemma LoadScanned(bytes: Bytes, head: Bytes, pixels: seq<Color>, rest: Bytes, k: nat)
    requires bytes == head + Scan(pixels) + rest && |head| == HEADER_SIZE && k < |pixels|
    ensures PixelAt(bytes, k) == Opaque(pixels[k])
  {
    hide Blue, Green, Red, PixelFrom, Opaque, Scan;
    ScanAt(pixels, k);
    PixelBack(pixels[k]);
  }

  // ---- When reading back gives the picture ----

  function OpaqueAll(pixels: seq<Color>): (r: seq<Color>)
    ensures |r| == |pixels| && forall k :: 0 <= k < |pixels| ==> r[k] == Opaque(pixels[k])
  {
    seq(|pixels|, k requires 0 <= k < |pixels| => Opaque(pixels[k]))
  }

  /** What a faithful copy of `p` is: the same size and colours, and opaque. */
  function Faithful(p: Picture): Picture {
    Picture(p.width, p.height, OpaqueAll(p.pixels))
  }

  /** Sizes for which the program's own int products stay in range. */
  predicate Fits(width: nat, height: nat) {
    width > 0 && height > 0 && width * height * 3 < 0x8000_0000
  }

  lemma SizeFits(width: nat, height: nat)
    requires Fits(width, height)
    ensures width < 0x1_0000_0000 && height < 0x1_0000_0000
  {
    MulOrder(1, height, width);
    MulOrder(1, width, height);
  }

  lemma PadExactly(width: nat)
    ensures Pad(width) < 4 && (width * 3 + Pad(width)) % 4 == 0
    ensures Pad(width) == 0 <==> width % 4 == 0
  {
  }

  /** Without padding the lines are the scanned pixels. */
  lemma {:induction false} BodyUnpadded(p: Picture, j: nat)
    requires Proper(p) && j <= p.height && p.width % 4 == 0
    ensures j * p.width <= |p.pixels| && Body(p, j) == Scan(p.pixels[..j * p.width])
  {
    hide Scan, Pad, Line;
    MulOrder(j, p.height, p.width);
    if j > 0 {
      BodyUnpadded(p, j - 1);
      RowFits(j - 1, p.width, p.height);
      PadExactly(p.width);
      var row := RowAt(p.pixels, p.width, p.height, j - 1);
      LineLength(row);
      ScanConcat(p.pixels[..(j - 1) * p.width], row);
      assert p.pixels[..j * p.width] == p.pixels[..(j - 1) * p.width] + row;
    } else {
      ScanNothing(p.pixels[..0]);
    }
  }

  lemma ScanNothing(row: seq<Color>)
    requires row == []
    ensures Scan(row) == []
  {
  }

  /** The lines start with all the pixels, scanned, when there is no padding between them. */
  lemma BodyScanned(p: Picture) returns (rest: Bytes)
    requires Proper(p) && (p.width % 4 == 0 || p.height == 1)
    ensures Body(p, p.height) == Scan(p.pixels) + rest
  {
    hide Scan;
    if p.width % 4 == 0 {
      BodyUnpadded(p, p.height);
      assert p.pixels[..p.height * p.width] == p.pixels;
      rest := [];
    } else {
      assert RowAt(p.pixels, p.width, 1, 0) == p.pixels;
      assert Body(p, 0) == [];
      rest := Scan(p.pixels)[..Pad(p.width)];
    }
  }

  /** Reading back what was written gives the same size and, at every pixel, the same red, green
      and blue, with alpha 0 for black and 255 otherwise. */
  lemma LoadSave(p: Picture)
    requires Proper(p) && Fits(p.width, p.height) && (p.width % 4 == 0 || p.height == 1)
    ensures Load(Save(p)) == Loaded(Faithful(p))
  {
    hide Scan, Opaque, Load, PixelAt, Body;
    SizeFits(p.width, p.height);
    LoadAfterHeader(p.width, p.height, Body(p, p.height));
    var rest := BodyScanned(p);
    var pixels := PixelsFrom(Save(p), p.width * p.height);
    forall k | 0 <= k < |p.pixels| ensures pixels[k] == Opaque(p.pixels[k]) {
      LoadScanned(Save(p), Header(p.width, p.height), p.pixels, rest, k);
    }
    assert pixels == OpaqueAll(p.pixels);
  }

  lemma {:induction false} ScanOpaque(row: seq<Color>)
    ensures Scan(OpaqueAll(row)) == Scan(row)
  {
    if row != [] {
      var n := |row| - 1;
      ScanOpaque(row[..n]);
      assert OpaqueAll(row)[..n] == OpaqueAll(row[..n]);
    }
  }

  lemma {:induction false} BodyOpaque(p: Picture, j: nat)
    requires Proper(p) && j <= p.height
    ensures Body(Faithful(p), j) == Body(p, j)
  {
    hide Scan, Opaque;
    if j > 0 {
      BodyOpaque(p, j - 1);
      RowFits(j - 1, p.width, p.height);
      var row := RowAt(p.pixels, p.width, p.height, j - 1);
      assert RowAt(OpaqueAll(p.pixels), p.width, p.height, j - 1) == OpaqueAll(row);
      ScanOpaque(row);
    }
  }

  /** Alpha is not written: a picture and its opaque copy have the same file, for every size. */
  lemma SaveForgetsAlpha(p: Picture)
    requires Proper(p)
    ensures Save(Faithful(p)) == Save(p)
  {
    BodyOpaque(p, p.height);
  }

  /** Saving again what was loaded gives identical bytes. */
  lemma SaveLoadSave(p: Picture)
    requires Proper(p) && Fits(p.width, p.height) && (p.width % 4 == 0 || p.height == 1)
    ensures Load(Save(p)).Loaded? && Proper(Load(Save(p)).picture) && Save(Load(Save(p)).picture) == Save(p)
  {
    LoadSave(p);
    SaveForgetsAlpha(p);
  }

  // ---- When it does not ----

  /** A black picture with one white pixel, at the start of the second row. */
  function Spot(width: nat, height: nat): (p: Picture)
    requires width > 0 && height >= 2
    ensures Proper(p) && p.width == width && p.height == height && width < |p.pixels|
    ensures p.pixels[width] == 0xff_ffff && forall k :: 0 <= k < width ==> p.pixels[k] == 0
  {
    RowFits(1, width, height);
    Picture(width, height, seq(height * width, k => if k == width then 0xff_ffff else 0))
  }

  lemma LineLength(row: seq<Color>)
    ensures |Line(row)| == 3 * |row| + Pad(|row|)
    ensures Line(row)[..3 * |row|] == Scan(row)
    ensures Pad(|row|) > 0 ==> Line(row)[3 * |row|] == Scan(row)[0]
  {
  }

  lemma {:induction false} BodyStart(p: Picture, j: nat)
    requires Proper(p) && 1 <= j <= p.height
    ensures Line(RowAt(p.pixels, p.width, p.height, 0)) <= Body(p, j)
    ensures |Body(p, j)| >= 3 * p.width * j
  {
    hide Line;
    LineLength(RowAt(p.pixels, p.width, p.height, j - 1));
    if j > 1 {
      BodyStart(p, j - 1);
      assert 3 * p.width * j == 3 * p.width * (j - 1) + 3 * p.width;
    } else {
      assert Body(p, 0) == [];
    }
  }

  /** The padding after row 0 starts with a copy of the row's first byte. */
  lemma PaddingFollows(p: Picture)
    requires Proper(p) && p.width % 4 != 0 && p.height >= 2
    ensures |Body(p, p.height)| >= 3 * p.width + 3
    ensures At(Body(p, p.height), 3 * p.width) == Blue(p.pixels[0]) as bv32
  {
    hide Scan, Blue, Line, Pad, Body;
    BodyStart(p, p.height);
    MulOrder(2, p.height, 3 * p.width);
    PadExactly(p.width);
    RowFits(0, p.width, p.height);
    var row := RowAt(p.pixels, p.width, p.height, 0);
    LineLength(row);
    ScanAt(row, 0);
  }

  /** Shifting past the header. */
  lemma AtBody(p: Picture, k: nat)
    requires Proper(p)
    ensures At(Save(p), HEADER_SIZE + k) == At(Body(p, p.height), k)
    ensures k < |Body(p, p.height)| ==> At(Save(p), HEADER_SIZE + k) <= 0xff
  {
    hide Header, Body;
  }

  lemma BlueBack(b: Byte, g: bv32, r: bv32)
    requires g <= 0xff && r <= 0xff
    ensures Blue(PixelFrom(b as bv32, g, r)) == b
  {
  }

  /** The reader takes the padding after row 0 for the start of row 1: the first pixel of row 1
      comes back with the blue of the first pixel of row 0. */
  lemma PaddingIsRead(p: Picture)
    requires Proper(p) && Fits(p.width, p.height) && p.width % 4 != 0 && p.height >= 2
    ensures Load(Save(p)).Loaded?
    ensures var back := Load(Save(p)).picture.pixels;
            p.width < |back| == |p.pixels| && Blue(back[p.width]) == Blue(p.pixels[0])
  {
    hide Load, Save, PixelFrom, Body, Blue, Header, Fits;
    var w := p.width;
    PaddingFollows(p);
    AtBody(p, 3 * w);
    AtBody(p, 3 * w + 1);
    AtBody(p, 3 * w + 2);
    BlueBack(Blue(p.pixels[0]), At(Save(p), HEADER_SIZE + 3 * w + 1), At(Save(p), HEADER_SIZE + 3 * w + 2));
    SaveParts(p);
    SizeFits(w, p.height);
    LoadAfterHeader(w, p.height, Body(p, p.height));
    RowFits(1, w, p.height);
  }

  lemma SpotIsLost(width: nat, height: nat)
    requires Fits(width, height) && width % 4 != 0 && height >= 2
    ensures Load(Save(Spot(width, height))) != Loaded(Faithful(Spot(width, height)))
  {
    hide Load, Save, Spot, Fits, Opaque;
    var p := Spot(width, height);
    PaddingIsRead(p);
    WhiteIsBlue();
    assert Faithful(p).pixels[width] == Opaque(0xff_ffff);
  }

  lemma WhiteIsBlue()
    ensures Blue(Opaque(0xff_ffff)) == 255 && Blue(0) == 0
  {
  }

  lemma SaveParts(p: Picture)
    requires Proper(p)
    ensures Save(p) == Header(p.width, p.height) + Body(p, p.height)
  {
  }

  predicate Survives(p: Picture)
    requires Proper(p)
  {
    Load(Save(p)) == Loaded(Faithful(p))
  }

  ghost predicate AllSurvive(width: nat, height: nat) {
    forall p: Picture :: Proper(p) && p.width == width && p.height == height ==> Survives(p)
  }

  /** Every picture of a size survives being saved and loaded exactly when its rows need no
      padding or there is only one row. */
  lemma SurviveExactly(width: nat, height: nat)
    requires Fits(width, height)
    ensures AllSurvive(width, height) <==> width % 4 == 0 || height == 1
  {
    hide Load, Save, Spot, Faithful;
    if width % 4 == 0 || height == 1 {
      forall p: Picture | Proper(p) && p.width == width && p.height == height ensures Survives(p) { LoadSave(p); }
    } else {
      SpotIsLost(width, height);
      assert !Survives(Spot(width, height));
    }
  }

  // ---- The writer and the reader ----

  ghost function PictureOf(bm: Bitmap): (p: Picture)
    requires bm.Valid()
    reads bm.data
    ensures Proper(p)
  {
    Picture(bm.width, bm.height, bm.data[..])
  }

  method ScanRow(bm: Bitmap, j: nat) returns (scanline: Bytes)
    requires bm.Valid() && j < bm.height
    ensures scanline == Scan(RowAt(bm.data[..], bm.width, bm.height, j))
  {
    hide Blue, Green, Red, RowAt;
    ghost var row := RowAt(bm.data[..], bm.width, bm.height, j);
    scanline := [];
    var i := 0;
    while i < bm.width
      invariant 0 <= i <= bm.width && scanline == Scan(row[..i])
    {
      ModUnique(i, bm.width, 0, i);
      ModUnique(j, bm.height, 0, j);
      var c := bm.Get(i, j);
      scanline := scanline + [Blue(c), Green(c), Red(c)];
      assert row[..i + 1][..i] == row[..i];
      i := i + 1;
    }
    assert row[..i] == row;
  }

  method SaveBitmap(bm: Bitmap) returns (bytes: Bytes)
    requires bm.Valid()
    ensures bytes == Save(PictureOf(bm))
  {
    hide Scan, Header, Pad, Proper;
    ghost var p := PictureOf(bm);
    bytes := Header(bm.width, bm.height);
    var j := 0;
    while j < bm.height
      invariant 0 <= j <= bm.height && bytes == Header(bm.width, bm.height) + Body(p, j)
    {
      var scanline := ScanRow(bm, j);
      PadInside(bm.width);
      bytes := bytes + scanline;
      bytes := bytes + scanline[..Pad(bm.width)];
      j := j + 1;
    }
  }

  lemma PadInside(width: nat)
    ensures Pad(width) <= 3 * width
  {
  }

  /** No bitmap comes back from a file that is not a plain 24-bit BMP. */
  method LoadBitmap(bytes: Bytes) returns (bm: Bitmap?)
    requires |bytes| >= HEADER_SIZE
    ensures bm == null <==> !Load(bytes).Loaded?
    ensures bm != null ==> fresh(bm) && fresh(bm.data) && bm.Valid() && Load(bytes) == Loaded(PictureOf(bm))
  {
    hide PixelFrom, FromLittle;
    if bytes[0] != 0x42 || bytes[1] != 0x4d { return null; }
    if FieldAt(bytes, 30, 4) != 0 || FieldAt(bytes, 28, 2) != 24 { return null; }
    var width, height := FieldAt(bytes, 18, 4), FieldAt(bytes, 22, 4);
    bm := new Bitmap(width, height);
    var i, offset := 0, HEADER_SIZE;
    while i < bm.data.Length
      invariant fresh(bm) && fresh(bm.data) && bm.Valid() && bm.width == width && bm.height == height
      invariant 0 <= i <= bm.data.Length && offset == HEADER_SIZE + 3 * i
      invariant forall k :: 0 <= k < i ==> bm.data[k] == PixelAt(bytes, k)
    {
      var b, g, r := At(bytes, offset), At(bytes, offset + 1), At(bytes, offset + 2);
      bm.data[i] := PixelFrom(b, g, r);
      offset := offset + 3;
      i := i + 1;
    }
    assert bm.data[..] == PixelsFrom(bytes, width * height);
  }
}
