/** What is at each place of a saved file, in literal values, and what the reader makes of files
    that the writer did not write. */
module BmpLayout {
  import opened Bands
  import opened Bitmaps
  import opened Bmp

  // ---- Numbers and colours ----

  /** The number of a byte, read bit by bit from the lowest. */
  lemma ByteHalves(b: Byte)
    ensures FromByte(0) == 0
    ensures FromByte(b) == 2 * FromByte(b >> 1) + if b & 1 != 0 then 1 else 0
  {
  }

  lemma ByteBound(b: Byte)
    ensures FromByte(b) < 256
  {
  }

  lemma ZeroByte(b: Byte)
    ensures FromByte(b) == 0 <==> b == 0
    ensures FromByte(b) == 24 <==> b == 24
  {
  }

  lemma LittleStep(v: nat, n: nat)
    ensures Little(v, 0) == []
    ensures Little(v, n + 1) == [ToByte(v % 256)] + Little(v / 256, n)
  {
  }

  lemma Quotients(v: nat)
    ensures v / 256 / 256 == v / 0x1_0000 && v / 256 / 256 / 256 == v / 0x100_0000
  {
  }

  /** A field is written with its lowest byte first, modulo 2^32. */
  lemma LittleExactly(v: nat)
    ensures Little(v, 2) == [ToByte(v % 256), ToByte(v / 256 % 256)]
    ensures Little(v, 4) == [ToByte(v % 256), ToByte(v / 256 % 256),
                             ToByte(v / 0x1_0000 % 256), ToByte(v / 0x100_0000 % 256)]
  {
    hide ToByte, Little;
    var a, b, c := v / 256, v / 256 / 256, v / 256 / 256 / 256;
    Quotients(v);
    LittleStep(v, 1);
    LittleStep(a, 0);
    LittleStep(v, 3);
    LittleStep(a, 2);
    LittleStep(b, 1);
    LittleStep(c, 0);
    LittleStep(c / 256, 0);
    LittleStep(a / 256, 0);
  }

  /** Alpha is the highest byte of a colour, then red, green and blue. */
  lemma ColourExactly(c: Color, r: Byte, g: Byte, b: Byte, a: Byte)
    ensures c == (Alpha(c) as bv32) * 0x100_0000 + (Red(c) as bv32) * 0x1_0000
                 + (Green(c) as bv32) * 0x100 + Blue(c) as bv32
    ensures MakeRgba(r as bv32, g as bv32, b as bv32, a as bv32)
         == (a as bv32) * 0x100_0000 + (r as bv32) * 0x1_0000 + (g as bv32) * 0x100 + b as bv32
  {
  }

  // ---- The header ----

  lemma ConstantBytes()
    ensures ToByte(0) == 0 && ToByte(1) == 1 && ToByte(24) == 24 && ToByte(40) == 40 && ToByte(54) == 54
    ensures ToByte(3) == 3 && ToByte(232) == 232
  {
  }

  lemma ConstantFields()
    ensures Little(0, 4) == [0, 0, 0, 0] && Little(1, 2) == [1, 0] && Little(24, 2) == [24, 0]
    ensures Little(40, 4) == [40, 0, 0, 0] && Little(54, 4) == [54, 0, 0, 0] && Little(1000, 4) == [232, 3, 0, 0]
  {
    hide ToByte, Little;
    ConstantBytes();
    LittleExactly(0);
    LittleExactly(1);
    LittleExactly(24);
    LittleExactly(40);
    LittleExactly(54);
    LittleExactly(1000);
  }

  lemma FileHeaderExactly(size: nat)
    ensures var h := FileHeader(size);
            && h[0] == 0x42 && h[1] == 0x4d && h[2..6] == Little(size, 4)
            && h[6..10] == [0, 0, 0, 0] && h[10..14] == [54, 0, 0, 0]
  {
    hide Little;
    ConstantFields();
  }

  lemma SixParts(a: Bytes, b: Bytes, c: Bytes, d: Bytes, e: Bytes, f: Bytes)
    requires |a| == |b| == |c| == |f| == 4 && |d| == |e| == 2
    ensures var h := a + b + c + d + e + f;
            h[0..4] == a && h[4..8] == b && h[8..12] == c && h[12..14] == d && h[14..16] == e && h[16..20] == f
  {
  }

  lemma FiveParts(a: Bytes, b: Bytes, c: Bytes, d: Bytes, e: Bytes)
    requires |a| == |b| == |c| == |d| == |e| == 4
    ensures var h := a + b + c + d + e;
            h[0..4] == a && h[4..8] == b && h[8..12] == c && h[12..16] == d && h[16..20] == e
  {
  }

  lemma InfoHeaderExactly(width: nat, height: nat, size: nat)
    ensures var h := InfoHeader(width, height, size);
            && h[0..4] == [40, 0, 0, 0] && h[4..8] == Little(width, 4) && h[8..12] == Little(height, 4)
            && h[12..14] == [1, 0] && h[14..16] == [24, 0] && h[16..20] == [0, 0, 0, 0]
            && h[20..24] == Little(size, 4) && h[24..28] == [232, 3, 0, 0] && h[28..32] == [232, 3, 0, 0]
            && h[32..36] == [0, 0, 0, 0] && h[36..40] == [0, 0, 0, 0]
  {
    hide Little;
    ConstantFields();
    var h := InfoHeader(width, height, size);
    var a := Little(40, 4) + Little(width, 4) + Little(height, 4) + Little(1, 2) + Little(24, 2) + Little(0, 4);
    var b := Little(size, 4) + Little(1000, 4) + Little(1000, 4) + Little(0, 4) + Little(0, 4);
    SixParts(Little(40, 4), Little(width, 4), Little(height, 4), Little(1, 2), Little(24, 2), Little(0, 4));
    FiveParts(Little(size, 4), Little(1000, 4), Little(1000, 4), Little(0, 4), Little(0, 4));
    assert h == a + b;
    Halves(a, b);
  }

  lemma Halves(a: Bytes, b: Bytes)
    requires |a| == |b| == 20
    ensures forall x, y :: 0 <= x <= y <= 20 ==> (a + b)[x..y] == a[x..y]
    ensures var h := a + b;
            && h[20..24] == b[0..4] && h[24..28] == b[4..8] && h[28..32] == b[8..12]
            && h[32..36] == b[12..16] && h[36..40] == b[16..20]
  {
  }

  /** Every field of a saved file: magic, size, reserved, the offset 54 of the pixels, the 40 bytes
      of the second header, width, height, one plane, 24 bits, no compression, the size again, the
      resolution 1000 twice, and no colour table. */
  lemma HeaderExactly(p: Picture)
    requires Proper(p)
    ensures var b := Save(p);
            && |b| >= 54
            && b[0] == 0x42 && b[1] == 0x4d && b[2..6] == Little(p.width * p.height * 3, 4)
            && b[6..10] == [0, 0, 0, 0] && b[10..14] == [54, 0, 0, 0] && b[14..18] == [40, 0, 0, 0]
            && b[18..22] == Little(p.width, 4) && b[22..26] == Little(p.height, 4)
            && b[26..28] == [1, 0] && b[28..30] == [24, 0] && b[30..34] == [0, 0, 0, 0]
            && b[34..38] == Little(p.width * p.height * 3, 4)
            && b[38..42] == [232, 3, 0, 0] && b[42..46] == [232, 3, 0, 0]
            && b[46..50] == [0, 0, 0, 0] && b[50..54] == [0, 0, 0, 0]
  {
    hide Little, FileHeader, InfoHeader, Body;
    var size := p.width * p.height * 3;
    FileHeaderExactly(size);
    InfoHeaderExactly(p.width, p.height, size);
    InfoPart(p);
    var h, b := FileHeader(size), Save(p);
    assert b[..14] == h;
    assert b[2..6] == h[2..6] && b[6..10] == h[6..10] && b[10..14] == h[10..14];
  }

  /** The second header, field by field. */
  lemma InfoPart(p: Picture)
    requires Proper(p)
    ensures var b := Save(p);
            var i := InfoHeader(p.width, p.height, p.width * p.height * 3);
            && |b| >= 54
            && b[14..18] == i[0..4] && b[18..22] == i[4..8] && b[22..26] == i[8..12] && b[26..28] == i[12..14]
            && b[28..30] == i[14..16] && b[30..34] == i[16..20] && b[34..38] == i[20..24] && b[38..42] == i[24..28]
            && b[42..46] == i[28..32] && b[46..50] == i[32..36] && b[50..54] == i[36..40]
  {
    hide FileHeader, InfoHeader, Body;
    var i, b := InfoHeader(p.width, p.height, p.width * p.height * 3), Save(p);
    assert b[14..54] == i;
    assert forall x, y :: 0 <= x <= y <= 40 ==> b[14 + x..14 + y] == i[x..y];
  }

  // ---- The rows ----

  /** Bytes of a row with its padding. */
  function LineSize(width: nat): (size: nat)
    ensures size >= 3 * width
  {
    3 * width + (4 - 3 * width % 4) % 4
  }

  lemma PadRounds(width: nat)
    ensures Pad(width) == (4 - 3 * width % 4) % 4 <= 3 * width
  {
  }

  lemma LineExactly(row: seq<Color>)
    ensures |Line(row)| == LineSize(|row|)
    ensures Line(row)[..3 * |row|] == Scan(row)
    ensures forall x :: 3 * |row| <= x < |Line(row)| ==> Line(row)[x] == Line(row)[x - 3 * |row|]
  {
    hide Pad, Scan;
    PadRounds(|row|);
  }

  lemma BodyStep(p: Picture, j: nat)
    requires Proper(p) && 0 < j <= p.height
    ensures Body(p, j) == Body(p, j - 1) + Line(RowAt(p.pixels, p.width, p.height, j - 1))
    ensures |Line(RowAt(p.pixels, p.width, p.height, j - 1))| == LineSize(p.width)
  {
    LineExactly(RowAt(p.pixels, p.width, p.height, j - 1));
  }

  /** Line `r` is where `r` lines of the same size lie before it. */
  lemma {:induction false} BodyLines(p: Picture, j: nat, r: nat)
    requires Proper(p) && j <= p.height
    ensures |Body(p, j)| == j * LineSize(p.width)
    ensures r < j ==> 0 <= r * LineSize(p.width) <= (r + 1) * LineSize(p.width) <= |Body(p, j)|
    ensures r < j ==> Body(p, j)[r * LineSize(p.width)..(r + 1) * LineSize(p.width)]
                      == Line(RowAt(p.pixels, p.width, p.height, r))
  {
    hide Line, LineSize, RowAt, Body;
    var l := LineSize(p.width);
    if j > 0 {
      BodyLines(p, j - 1, r);
      BodyStep(p, j);
      RowFits(j - 1, l, j);
      if r < j { RowFits(r, l, j); }
    } else {
      BodyEmpty(p);
    }
  }

  lemma BodyEmpty(p: Picture)
    requires Proper(p)
    ensures Body(p, 0) == []
  {
  }

  /** Line `j` of the file: `j` lines of the same size lie between it and the header. */
  function SavedLine(p: Picture, j: nat): (line: Bytes)
    requires Proper(p) && j < p.height
    ensures |line| == LineSize(p.width)
  {
    LinesFit(p, j);
    Save(p)[54 + j * LineSize(p.width)..54 + j * LineSize(p.width) + LineSize(p.width)]
  }

  /** The file ends after the last line. */
  lemma LinesFit(p: Picture, j: nat)
    requires Proper(p) && j < p.height
    ensures |Save(p)| == 54 + p.height * LineSize(p.width)
    ensures 0 <= 54 + j * LineSize(p.width) <= 54 + j * LineSize(p.width) + LineSize(p.width) <= |Save(p)|
  {
    hide Header, Body, LineSize;
    BodyLines(p, p.height, j);
    RowFits(j, LineSize(p.width), p.height);
  }

  lemma SavedLineIs(p: Picture, j: nat)
    requires Proper(p) && j < p.height
    ensures SavedLine(p, j) == Line(RowAt(p.pixels, p.width, p.height, j))
  {
    hide Header, Body, LineSize, Line;
    BodyLines(p, p.height, j);
    RowFits(j, LineSize(p.width), p.height);
    LinesFit(p, j);
  }

  /** Pixel (i, j) is at its place in line `j`, blue first, and the padding repeats the line. */
  lemma PixelsExactly(p: Picture, i: nat, j: nat, x: nat)
    requires Proper(p) && i < p.width && j < p.height
    ensures SavedLine(p, j)[3 * i] == Blue(RowAt(p.pixels, p.width, p.height, j)[i])
    ensures SavedLine(p, j)[3 * i + 1] == Green(RowAt(p.pixels, p.width, p.height, j)[i])
    ensures SavedLine(p, j)[3 * i + 2] == Red(RowAt(p.pixels, p.width, p.height, j)[i])
    ensures 3 * p.width <= x < LineSize(p.width) ==> SavedLine(p, j)[x] == SavedLine(p, j)[x - 3 * p.width]
  {
    hide Line, SavedLine, Save, Blue, Green, Red, Scan, RowAt, LineSize;
    var row := RowAt(p.pixels, p.width, p.height, j);
    SavedLineIs(p, j);
    LineExactly(row);
    ScanAt(row, i);
    assert forall y :: 0 <= y < 3 * p.width ==> Line(row)[y] == Line(row)[..3 * p.width][y];
  }

  // ---- Reading other files ----

  /** Which files are refused, and why: by the first two bytes, and by the fields for compression
      and bits, all else being of no account. */
  lemma LoadExactly(bytes: Bytes)
    requires |bytes| >= 54
    ensures Load(bytes).NotBmp? <==> bytes[0] != 0x42 || bytes[1] != 0x4d
    ensures Load(bytes).Unsupported? <==> && bytes[0] == 0x42 && bytes[1] == 0x4d
                                          && (bytes[30..34] != [0, 0, 0, 0] || bytes[28..30] != [24, 0])
    ensures Load(bytes).Loaded? ==>
              var p := Load(bytes).picture;
              && p.width == Number(bytes, 18) && p.height == Number(bytes, 22)
              && |p.pixels| == p.width * p.height
              && forall k :: 0 <= k < |p.pixels| ==> p.pixels[k] == PixelAt(bytes, k)
  {
    hide FromByte, PixelAt;
    ZeroField(bytes[30..34]);
    BitsField(bytes[28..30]);
    FieldNumber(bytes, 18);
    FieldNumber(bytes, 22);
  }

  /** The four bytes from `at` on as a number, lowest first. */
  function Number(bytes: Bytes, at: nat): nat
    requires at + 4 <= |bytes|
  {
    FromByte(bytes[at]) + 256 * FromByte(bytes[at + 1])
    + 0x1_0000 * FromByte(bytes[at + 2]) + 0x100_0000 * FromByte(bytes[at + 3])
  }

  lemma FourBytes(q: Bytes)
    requires |q| == 4
    ensures FromLittle(q) == FromByte(q[0]) + 256 * FromByte(q[1])
                             + 0x1_0000 * FromByte(q[2]) + 0x100_0000 * FromByte(q[3])
  {
    hide FromByte;
    assert q[1..][1..] == q[2..] && q[2..][1..] == q[3..] && q[3..][1..] == [];
    assert FromLittle(q[3..]) == FromByte(q[3]) + 256 * FromLittle(q[3..][1..]) == FromByte(q[3]);
    assert FromLittle(q[2..]) == FromByte(q[2]) + 256 * FromLittle(q[3..]);
    assert FromLittle(q[1..]) == FromByte(q[1]) + 256 * FromLittle(q[2..]);
    assert FromLittle(q) == FromByte(q[0]) + 256 * FromLittle(q[1..]);
  }

  lemma FieldNumber(bytes: Bytes, at: nat)
    requires at + 4 <= |bytes|
    ensures FieldAt(bytes, at, 4) == Number(bytes, at)
  {
    hide FromByte, FromLittle;
    FourBytes(bytes[at..at + 4]);
  }

  lemma ZeroField(q: Bytes)
    requires |q| == 4
    ensures FromLittle(q) == 0 <==> q == [0, 0, 0, 0]
  {
    hide FromByte, FromLittle;
    FourBytes(q);
    ZeroByte(q[0]);
    ZeroByte(q[1]);
    ZeroByte(q[2]);
    ZeroByte(q[3]);
  }

  lemma BitsField(q: Bytes)
    requires |q| == 2
    ensures FromLittle(q) == 24 <==> q == [24, 0]
  {
    hide FromByte;
    assert q[1..][1..] == [] && FromLittle(q[1..]) == FromByte(q[1]);
    ZeroByte(q[0]);
    ZeroByte(q[1]);
    ByteBound(q[0]);
  }

  /** Past the end of the file a read gives -1, which colours the whole pixel. */
  lemma PastTheEnd(bytes: Bytes, k: nat)
    requires |bytes| >= 54
    ensures 54 + 3 * k >= |bytes| ==> PixelAt(bytes, k) == 0xffff_ffff
    ensures 54 + 3 * k + 2 < |bytes| ==>
              var b, g, r := bytes[54 + 3 * k], bytes[54 + 3 * k + 1], bytes[54 + 3 * k + 2];
              PixelAt(bytes, k) == if b == 0 && g == 0 && r == 0 then 0
                                   else MakeRgba(r as bv32, g as bv32, b as bv32, 255)
  {
  }

  /** The sizes that the round trip is about: at least one pixel, and products that fit an int. */
  lemma FitsExactly(width: nat, height: nat)
    ensures Fits(width, height) <==> width >= 1 && height >= 1 && width * height * 3 <= 0x7fff_ffff
  {
  }
}
