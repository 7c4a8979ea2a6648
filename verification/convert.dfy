/** `images/piskel_sayilar/convert.py`: the RRRGGGBB packing written with
    shifts, the rule that turns transparent pixels white, and the MIF text
    `png_to_mif_with_white_transparency` writes for an RGBA pixel grid (the
    file and image I/O and the prints left out). */
module PiskelConvert {
  import opened Text
  import opened Mif
  import PngToMif

  datatype Rgba = Rgba(r: Byte, g: Byte, b: Byte, a: Byte)

  /** `r3 = (r >> 5) & 0x07`, `g3 = (g >> 5) & 0x07`, `b2 = (b >> 6) & 0x03`,
      then `(r3 << 5) | (g3 << 2) | b2`. Unpacking the byte with `c >> 5`,
      `(c >> 2) & 7` and `c & 3` gives back the three fields. */
  function Rrrgggbb(r: Byte, g: Byte, b: Byte): (c: Byte)
    ensures c >> 5 == r >> 5
    ensures (c >> 2) & 7 == g >> 5
    ensures c & 3 == b >> 6
  {
    var r3 := (r >> 5) & 0x07;
    var g3 := (g >> 5) & 0x07;
    var b2 := (b >> 6) & 0x03;
    (r3 << 5) | (g3 << 2) | b2
  }

  /** Both converters pack colours identically. */
  lemma SamePackingAsRgb332(r: Byte, g: Byte, b: Byte)
    ensures Rrrgggbb(r, g, b) == PngToMif.Rgb332(r, g, b)
  {
  }

  /** The smallest alpha at which a pixel keeps its own colour. */
  const OpaqueAlpha: Byte := 128

  /** The byte written for a pixel: a pixel with alpha below 128 is
      written as white, any other as its own colour. */
  function PixelByte(p: Rgba): (c: Byte)
    ensures p.a < OpaqueAlpha ==> c == 0xFF
    ensures p.a >= OpaqueAlpha ==> c == PngToMif.Rgb332(p.r, p.g, p.b)
  {
    var (r, g, b) := if p.a < OpaqueAlpha then (255, 255, 255) else (p.r, p.g, p.b);
    SamePackingAsRgb332(r, g, b);
    Rrrgggbb(r, g, b)
  }

  /** Above the threshold alpha has no effect on the byte. */
  lemma AlphaIgnoredWhenOpaque(p: Rgba, a': Byte)
    requires p.a >= OpaqueAlpha && a' >= OpaqueAlpha
    ensures PixelByte(p.(a := a')) == PixelByte(p)
  {
  }

  /** An opaque white pixel and any transparent pixel give the same byte. */
  lemma TransparentLooksWhite(p: Rgba, white: Rgba)
    requires p.a < OpaqueAlpha
    requires white.r == 255 && white.g == 255 && white.b == 255 && white.a >= OpaqueAlpha
    ensures PixelByte(p) == PixelByte(white)
  {
  }

  function PixelBytes(pixels: seq<Rgba>): (values: seq<Byte>)
    ensures |values| == |pixels|
    ensures forall k :: 0 <= k < |pixels| ==> values[k] == PixelByte(pixels[k])
  {
    seq(|pixels|, k requires 0 <= k < |pixels| => PixelByte(pixels[k]))
  }

  /** The header this converter writes: its blank lines come from the
      doubled newlines in its writes. */
  function Header(depth: nat): (header: seq<Line>)
    ensures |header| == 8
    ensures IsDepthLine(Render(header[1])) && DepthValue(Render(header[1])) == depth
    ensures forall i :: 0 <= i < |header| ==> IsHeaderLine(header[i]) && !IsDataLine(Render(header[i]))
  {
    var header := [Literal("WIDTH=8;"), Depth(depth), Literal(""), Literal("ADDRESS_RADIX=UNSIGNED;"),
                  Literal("DATA_RADIX=HEX;"), Literal(""), Literal("CONTENT"), Literal("BEGIN")];
    HeaderLinesNotData(header);
    header
  }

  /** The lines `png_to_mif_with_white_transparency` writes for `|rows|`
      rows of `width` pixels indexed as `pixels[y, x]`: the header with
      DEPTH = width * height, one data line per pixel with addresses
      counting up from 0, then "END;". */
  function PngToMifWithWhiteTransparency(rows: seq<seq<Rgba>>, width: nat): (lines: seq<Line>)
    requires Rectangular(rows, width)
    ensures |lines| == 8 + Area(width, |rows|) + 1
    ensures lines[..8] == Header(Area(width, |rows|))
    ensures forall k :: 8 <= k < |lines| - 1 ==> lines[k].Data? && lines[k].addr == k - 8
    ensures lines[|lines| - 1] == End
  {
    FlattenLength(rows, width);
    Framed(Header(Area(width, |rows|)), PixelBytes(Flatten(rows)))
  }

  /** Pixel (x, y) is written on data line RowStart(y, width) + x, which is
      y * width + x, with that address and its byte (white when the pixel
      is transparent). */
  lemma PixelLine(rows: seq<seq<Rgba>>, width: nat, y: nat, x: nat)
    requires Rectangular(rows, width)
    requires y < |rows| && x < width
    ensures 8 + (RowStart(y, width) + x) < |PngToMifWithWhiteTransparency(rows, width)|
    ensures PngToMifWithWhiteTransparency(rows, width)[8 + (RowStart(y, width) + x)]
            == Data(RowStart(y, width) + x, PixelByte(rows[y][x]))
  {
    FlattenAt(rows, width, y, x);
    FlattenLength(rows, width);
    var k := RowStart(y, width) + x;
    assert PngToMifWithWhiteTransparency(rows, width) == Framed(Header(Area(width, |rows|)), PixelBytes(Flatten(rows)));
    assert PixelBytes(Flatten(rows))[k] == PixelByte(rows[y][x]);
  }

  /** Read back as text, the file holds data lines exactly between the
      header and "END;" (the blank header lines included), the k-th of them
      at address k with the byte of the k-th pixel in row-major order. */
  lemma PngToMifWithWhiteTransparencyReadsBack(rows: seq<seq<Rgba>>, width: nat)
    requires Rectangular(rows, width)
    ensures ReadsBackAs(FileText(PngToMifWithWhiteTransparency(rows, width)), 8, PixelBytes(Flatten(rows)))
  {
    var header := Header(Area(width, |rows|));
    FlattenLength(rows, width);
    assert PngToMifWithWhiteTransparency(rows, width) == Framed(header, PixelBytes(Flatten(rows)));
    FramedReadsBack(header, PixelBytes(Flatten(rows)));
  }

  predicate Opaque(rows: seq<seq<Rgba>>) {
    forall y, x :: 0 <= y < |rows| && 0 <= x < |rows[y]| ==> rows[y][x].a >= OpaqueAlpha
  }

  /** The RGB grid under an RGBA grid. */
  function DropAlpha(rows: seq<seq<Rgba>>): (rgb: seq<seq<Rgb>>)
    ensures |rgb| == |rows|
    ensures forall y :: 0 <= y < |rows| ==> |rgb[y]| == |rows[y]|
  {
    seq(|rows|, y requires 0 <= y < |rows| =>
      seq(|rows[y]|, x requires 0 <= x < |rows[y]| => Rgb(rows[y][x].r, rows[y][x].g, rows[y][x].b)))
  }

  lemma {:induction false} OpaqueBytesMatch(rows: seq<seq<Rgba>>)
    requires Opaque(rows)
    ensures PixelBytes(Flatten(rows)) == PngToMif.PixelBytes(Flatten(DropAlpha(rows)))
  {
    if |rows| > 0 {
      var n := |rows| - 1;
      var init := rows[..n];
      assert DropAlpha(rows)[..n] == DropAlpha(init);
      OpaqueBytesMatch(init);
      var left := PixelBytes(Flatten(rows));
      var right := PngToMif.PixelBytes(Flatten(DropAlpha(rows)));
      assert Flatten(rows) == Flatten(init) + rows[n];
      assert Flatten(DropAlpha(rows)) == Flatten(DropAlpha(init)) + DropAlpha(rows)[n];
      var m := |Flatten(init)|;
      assert |left| == |right|;
      forall k | 0 <= k < |left|
        ensures left[k] == right[k]
      {
        if k < m {
          assert left[k] == PixelBytes(Flatten(init))[k];
          assert right[k] == PngToMif.PixelBytes(Flatten(DropAlpha(init)))[k];
        } else {
          assert Flatten(rows)[k] == rows[n][k - m];
          assert rows[n][k - m].a >= OpaqueAlpha;
        }
      }
    }
  }

  /** For an image without transparent pixels both converters write the
      same data lines and the same closing line; only the headers differ. */
  lemma OpaqueImageMatchesImageToMif(rows: seq<seq<Rgba>>, width: nat)
    requires Rectangular(rows, width)
    requires Opaque(rows)
    ensures Rectangular(DropAlpha(rows), width)
    ensures PngToMifWithWhiteTransparency(rows, width)[8..]
            == PngToMif.ImageToMif(DropAlpha(rows), width)[5..]
  {
    var rgb := DropAlpha(rows);
    assert Rectangular(rgb, width);
    OpaqueBytesMatch(rows);
    FlattenLength(rows, width);
    FlattenLength(rgb, width);
    FramedTail(Header(Area(width, |rows|)), PixelBytes(Flatten(rows)));
    FramedTail(PngToMif.Header(Area(width, |rgb|)), PngToMif.PixelBytes(Flatten(rgb)));
  }
}
