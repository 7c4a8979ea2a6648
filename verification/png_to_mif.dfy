/** `images/png_to_mif.py`: RGB332 packing and the MIF text `image_to_mif`
    writes for an RGB pixel grid (the file and image I/O left out). */
module PngToMif {
  import opened Text
  import opened Mif

  /** `(r & 0b11100000) | ((g & 0b11100000) >> 3) | ((b & 0b11000000) >> 6)`:
      the top three bits of red in bits 7..5, of green in bits 4..2, and the
      top two bits of blue in bits 1..0. */
  function Rgb332(r: Byte, g: Byte, b: Byte): (c: Byte)
    ensures c >> 5 == r >> 5
    ensures (c >> 2) & 7 == g >> 5
    ensures c & 3 == b >> 6
  {
    (r & 0xE0) | ((g & 0xE0) >> 3) | ((b & 0xC0) >> 6)
  }

  /** The three fields are disjoint, so the OR is a sum (which stays below
      256). */
  lemma Rgb332IsSum(r: Byte, g: Byte, b: Byte)
    ensures Rgb332(r, g, b) == ((r >> 5) << 5) + ((g >> 5) << 2) + (b >> 6)
  {
  }

  /** Two colours pack to the same byte exactly when they agree in the top
      three bits of red and green and the top two bits of blue: the low five
      bits of red and green and the low six of blue never matter. */
  lemma Rgb332SameByte(r: Byte, g: Byte, b: Byte, r': Byte, g': Byte, b': Byte)
    ensures Rgb332(r, g, b) == Rgb332(r', g', b') <==> r >> 5 == r' >> 5 && g >> 5 == g' >> 5 && b >> 6 == b' >> 6
  {
  }

  function PixelBytes(pixels: seq<Rgb>): (values: seq<Byte>)
    ensures |values| == |pixels|
    ensures forall k :: 0 <= k < |pixels| ==> values[k] == Rgb332(pixels[k].r, pixels[k].g, pixels[k].b)
  {
    seq(|pixels|, k requires 0 <= k < |pixels| => Rgb332(pixels[k].r, pixels[k].g, pixels[k].b))
  }

  /** The header lines `image_to_mif` writes before the data. */
  function Header(depth: nat): (header: seq<Line>)
    ensures |header| == 5
    ensures IsDepthLine(Render(header[1])) && DepthValue(Render(header[1])) == depth
    ensures forall i :: 0 <= i < |header| ==> IsHeaderLine(header[i]) && !IsDataLine(Render(header[i]))
  {
    var header := [Literal("WIDTH=8;"), Depth(depth), Literal("ADDRESS_RADIX=UNS;"), Literal("DATA_RADIX=HEX;"), Literal("CONTENT BEGIN")];
    HeaderLinesNotData(header);
    header
  }

  /** The lines `image_to_mif` writes for a grid of `|rows|` rows of `width`
      pixels, row y holding pixels (0, y) to (width - 1, y): the header with
      DEPTH = width * height, then one data line per pixel with addresses
      counting up from 0, then "END;". */
  function ImageToMif(rows: seq<seq<Rgb>>, width: nat): (lines: seq<Line>)
    requires Rectangular(rows, width)
    ensures |lines| == 5 + Area(width, |rows|) + 1
    ensures lines[..5] == Header(Area(width, |rows|))
    ensures forall k :: 5 <= k < |lines| - 1 ==> lines[k].Data? && lines[k].addr == k - 5
    ensures lines[|lines| - 1] == End
  {
    FlattenLength(rows, width);
    Framed(Header(Area(width, |rows|)), PixelBytes(Flatten(rows)))
  }

  /** Pixel (x, y) is written on data line RowStart(y, width) + x, which is
      y * width + x, with that address and its RGB332 byte: the lines follow
      the pixels in row-major order. */
  lemma ImageToMifPixel(rows: seq<seq<Rgb>>, width: nat, y: nat, x: nat)
    requires Rectangular(rows, width)
    requires y < |rows| && x < width
    ensures 5 + (RowStart(y, width) + x) < |ImageToMif(rows, width)|
    ensures ImageToMif(rows, width)[5 + (RowStart(y, width) + x)]
            == Data(RowStart(y, width) + x, Rgb332(rows[y][x].r, rows[y][x].g, rows[y][x].b))
  {
    FlattenAt(rows, width, y, x);
    FlattenLength(rows, width);
    var k := RowStart(y, width) + x;
    assert ImageToMif(rows, width) == Framed(Header(Area(width, |rows|)), PixelBytes(Flatten(rows)));
    assert PixelBytes(Flatten(rows))[k] == Rgb332(rows[y][x].r, rows[y][x].g, rows[y][x].b);
  }

  /** Read back as text, the file holds data lines exactly between the
      header and "END;", the k-th of them at address k with the byte of the
      k-th pixel in row-major order. */
  lemma ImageToMifReadsBack(rows: seq<seq<Rgb>>, width: nat)
    requires Rectangular(rows, width)
    ensures ReadsBackAs(FileText(ImageToMif(rows, width)), 5, PixelBytes(Flatten(rows)))
  {
    var header := Header(Area(width, |rows|));
    FlattenLength(rows, width);
    assert ImageToMif(rows, width) == Framed(header, PixelBytes(Flatten(rows)));
    FramedReadsBack(header, PixelBytes(Flatten(rows)));
  }
}
