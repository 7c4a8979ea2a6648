/** What the two image converters share: bytes and pixels, the lines of a
    memory initialisation file (as records and as text: the data line is a
    decimal address, " : ", two upper-case hex digits and ";"), what a
    reader of that text finds, and the row-major walk over a pixel grid. */
module Mif {
  import opened Text

  /** A colour channel or packed colour: every intermediate value of the
      packing fits in eight bits, so eight-bit vectors are exact here. */
  type Byte = bv8

  datatype Rgb = Rgb(r: Byte, g: Byte, b: Byte)

  /** Shape of a data line: a decimal address, " : ", two upper-case hex
      digits and ";". */
  predicate IsDataLine(line: string) {
    && |line| >= 7
    && IsDigits(line[..|line| - 6], 10, false)
    && line[|line| - 6..|line| - 3] == " : "
    && IsDigits(line[|line| - 3..|line| - 1], 16, true)
    && line[|line| - 1] == ';'
  }

  function LineAddress(line: string): nat
    requires IsDataLine(line)
  {
    RadixValue(line[..|line| - 6], 10)
  }

  function LineValue(line: string): nat
    requires IsDataLine(line)
  {
    RadixValue(line[|line| - 3..|line| - 1], 16)
  }

  /** One data line, without its newline. */
  function DataLine(addr: nat, value: Byte): (line: string)
    ensures IsDataLine(line)
    ensures LineAddress(line) == addr
    ensures LineValue(line) == value as int
  {
    var a := RadixText(addr, 10, false);
    var n := value as int;
    ByteFitsTwoHexDigits(n);
    HexPaddedExact(n, 2, true);
    var v := HexPadded(n, 2, true);
    DataLineParts(a, v);
    a + " : " + v + ";"
  }

  lemma ByteFitsTwoHexDigits(n: nat)
    requires n < 256
    ensures n < Pow(16, 2)
  {
    assert Pow(16, 2) == 256;
  }

  /** A decimal address and two hex digits make a data line from which they
      are read back. */
  lemma DataLineParts(a: string, v: string)
    requires 1 <= |a| && IsDigits(a, 10, false)
    requires |v| == 2 && IsDigits(v, 16, true)
    ensures var line := a + " : " + v + ";";
            && IsDataLine(line)
            && line[..|line| - 6] == a
            && line[|line| - 3..|line| - 1] == v
  {
    var line := a + " : " + v + ";";
    assert line[..|line| - 6] == a;
    assert line[|line| - 6..|line| - 3] == " : ";
    assert line[|line| - 3..|line| - 1] == v;
  }

  /** A line of a memory initialisation file as the converters write it:
      fixed header text, the DEPTH line, a data line, or the closing line. */
  datatype Line = Literal(text: string) | Depth(depth: nat) | Data(addr: nat, value: Byte) | End

  /** The text of a line, without its newline. */
  function Render(line: Line): string
  {
    match line
    case Literal(t) => t
    case Depth(d) => DepthLine(d)
    case Data(a, v) => DataLine(a, v)
    case End => "END;"
  }

  /** The text of a whole file, one string per line. */
  function FileText(lines: seq<Line>): (text: seq<string>)
    ensures |text| == |lines|
    ensures forall k :: 0 <= k < |lines| ==> text[k] == Render(lines[k])
  {
    seq(|lines|, k requires 0 <= k < |lines| => Render(lines[k]))
  }

  /** The data lines for `values`, the k-th at address k. */
  function DataBlock(values: seq<Byte>): seq<Line>
  {
    seq(|values|, k requires 0 <= k < |values| => Data(k, values[k]))
  }

  /** A whole file: the header lines, one data line per value with
      addresses counting up from 0, then the closing line. */
  function Framed(header: seq<Line>, values: seq<Byte>): (lines: seq<Line>)
    ensures |lines| == |header| + |values| + 1
    ensures lines[..|header|] == header
    ensures forall k :: |header| <= k < |lines| - 1 ==> lines[k] == Data(k - |header|, values[k - |header|])
    ensures lines[|lines| - 1] == End
  {
    var lines := header + DataBlock(values) + [End];
    assert lines[..|header|] == header;
    lines
  }

  /** Everything after the header depends on the values alone. */
  lemma FramedTail(header: seq<Line>, values: seq<Byte>)
    ensures Framed(header, values)[|header|..] == DataBlock(values) + [End]
  {
    var tail := DataBlock(values) + [End];
    assert Framed(header, values) == header + tail;
    assert (header + tail)[|header|..] == tail;
  }

  /** A header line whose text cannot be taken for a data line: the DEPTH
      line, or fixed text that is empty or does not start with a decimal
      digit. */
  predicate IsHeaderLine(line: Line) {
    || line.Depth?
    || (line.Literal? && (|line.text| == 0 || !('0' <= line.text[0] <= '9')))
  }

  /** Every data line starts with a decimal digit. */
  lemma DataLineStartsWithDigit(line: string)
    ensures IsDataLine(line) ==> '0' <= line[0] <= '9'
  {
    if IsDataLine(line) {
      assert IsCaseDigit(line[..|line| - 6][0], 10, false);
    }
  }

  /** No header line reads as a data line. */
  lemma HeaderLineNotData(line: Line)
    requires IsHeaderLine(line)
    ensures !IsDataLine(Render(line))
  {
    DataLineStartsWithDigit(Render(line));
    if line.Depth? {
      assert Render(line)[..6] == "DEPTH=";
    }
  }

  /** No line of a header made of header lines reads as a data line. */
  lemma HeaderLinesNotData(header: seq<Line>)
    requires forall i :: 0 <= i < |header| ==> IsHeaderLine(header[i])
    ensures forall i :: 0 <= i < |header| ==> !IsDataLine(Render(header[i]))
  {
    forall i | 0 <= i < |header|
      ensures !IsDataLine(Render(header[i]))
    {
      HeaderLineNotData(header[i]);
    }
  }

  /** What a reader of a file's text finds: the data lines are exactly the
      lines after the first `n` and before the last, and the one at offset
      k after the first `n` holds address k and the k-th value. */
  predicate ReadsBackAs(text: seq<string>, n: nat, values: seq<Byte>) {
    forall k :: 0 <= k < |text| ==>
      && (IsDataLine(text[k]) <==> n <= k < |text| - 1)
      && (n <= k < |text| - 1 ==>
            && k - n < |values|
            && LineAddress(text[k]) == k - n
            && LineValue(text[k]) == values[k - n] as int)
  }

  /** The text of a framed file reads back as its values, when no header
      line can be taken for a data line. */
  lemma FramedReadsBack(header: seq<Line>, values: seq<Byte>)
    requires forall i :: 0 <= i < |header| ==> IsHeaderLine(header[i])
    ensures ReadsBackAs(FileText(Framed(header, values)), |header|, values)
  {
    var lines := Framed(header, values);
    var text := FileText(lines);
    forall k | 0 <= k < |header|
      ensures !IsDataLine(text[k])
    {
      assert lines[k] == header[k];
      HeaderLineNotData(header[k]);
    }
  }

  predicate IsDepthLine(line: string) {
    && |line| >= 8
    && line[..6] == "DEPTH="
    && IsDigits(line[6..|line| - 1], 10, false)
    && line[|line| - 1] == ';'
  }

  function DepthValue(line: string): nat
    requires IsDepthLine(line)
  {
    RadixValue(line[6..|line| - 1], 10)
  }

  /** `f"DEPTH={depth};"`, without its newline. */
  function DepthLine(depth: nat): (line: string)
    ensures IsDepthLine(line)
    ensures DepthValue(line) == depth
  {
    var d := RadixText(depth, 10, false);
    var line := "DEPTH=" + d + ";";
    assert line[6..|line| - 1] == d;
    line
  }

  /** Every row of the grid holds `width` pixels. */
  predicate Rectangular<T>(rows: seq<seq<T>>, width: nat) {
    forall y :: 0 <= y < |rows| ==> |rows[y]| == width
  }

  /** The pixels in the order the nested `for y` / `for x` loops visit them. */
  function Flatten<T>(rows: seq<seq<T>>): seq<T>
  {
    if |rows| == 0 then [] else Flatten(rows[..|rows| - 1]) + rows[|rows| - 1]
  }

  /** The position at which row y of a grid `width` pixels wide begins in
      the row-major walk: the widths of the rows before it added up. */
  function RowStart(y: nat, width: nat): nat
  {
    if y == 0 then 0 else RowStart(y - 1, width) + width
  }

  /** Row y begins at y * width. */
  lemma {:induction false} RowStartIsProduct(y: nat, width: nat)
    ensures RowStart(y, width) == y * width
  {
    if y > 0 {
      RowStartIsProduct(y - 1, width);
      assert (y - 1) * width + width == y * width;
    }
  }

  /** The number of pixels in `height` rows of `width`, counted row by row
      so that proofs about positions stay linear; `AreaIsProduct` shows it
      is width * height. */
  function Area(width: nat, height: nat): nat
  {
    RowStart(height, width)
  }

  lemma AreaIsProduct(width: nat, height: nat)
    ensures Area(width, height) == width * height
  {
    RowStartIsProduct(height, width);
  }

  /** A row ends no later than where any later row begins. */
  lemma {:induction false} RowStartStep(y: nat, n: nat, width: nat)
    requires y < n
    ensures RowStart(y, width) + width <= RowStart(n, width)
    decreases n
  {
    if y + 1 < n {
      RowStartStep(y, n - 1, width);
    }
  }

  lemma {:induction false} FlattenLength<T>(rows: seq<seq<T>>, width: nat)
    requires Rectangular(rows, width)
    ensures |Flatten(rows)| == Area(width, |rows|)
  {
    if |rows| > 0 {
      FlattenLength(rows[..|rows| - 1], width);
    }
  }

  /** In a rectangular grid, pixel (x, y) is visited at position
      RowStart(y, width) + x, that is y * width + x. */
  lemma {:induction false} FlattenAt<T>(rows: seq<seq<T>>, width: nat, y: nat, x: nat)
    requires Rectangular(rows, width)
    requires y < |rows| && x < width
    ensures RowStart(y, width) + x < |Flatten(rows)|
    ensures Flatten(rows)[RowStart(y, width) + x] == rows[y][x]
  {
    var n := |rows| - 1;
    var init := rows[..n];
    FlattenLength(init, width);
    FlattenLength(rows, width);
    if y < n {
      FlattenAt(init, width, y, x);
      RowStartStep(y, n, width);
      assert init[y] == rows[y];
    }
  }
}
