/** util/BufferedImageLuminanceSource: the ARGB image ZXing decodes from,
    read as one luminance byte per pixel. A Java int pixel is a bv32, a Java
    byte an int8, and the image the constructor copies is a sequence of
    pixel rows. */
module Luminance {
  import opened Wrappers
  import opened JavaText

  newtype int8 = x: int | -128 <= x < 128

  /** The red, green and blue channels: `(pixel >> 16) & 0xFF` and so on. The
      mask keeps eight bits, so the shift's sign extension never shows. */
  function Red(p: bv32): int { ((p >> 16) & 0xFF) as int }
  function Green(p: bv32): int { ((p >> 8) & 0xFF) as int }
  function Blue(p: bv32): int { (p & 0xFF) as int }

  /** `(306 * r + 601 * g + 117 * b) >> 10`. The weights add up to 1024, so
      the result is a weighted mean of the channels and fits in a byte. */
  function PixelLuminance(p: bv32): (l: int)
    ensures 0 <= l <= 255
    ensures l * 1024 <= 306 * Red(p) + 601 * Green(p) + 117 * Blue(p) < (l + 1) * 1024
  {
    // the sum is at most 1024 * 255, so the shift is a division by 1024
    (306 * Red(p) + 601 * Green(p) + 117 * Blue(p)) / 1024
  }

  /** Java's `(byte)` narrowing: the low eight bits, read as two's complement. */
  function ToByte(l: int): (b: int8)
    ensures (b as int - l) % 256 == 0
  {
    var low := l % 256;
    if low >= 128 then (low - 256) as int8 else low as int8
  }

  /** Reading a luminance byte back as unsigned (`b & 0xFF`) gives the
      luminance: the narrowing loses nothing for 0..255. */
  lemma ToByteUnsigned(l: int)
    requires 0 <= l <= 255
    ensures (ToByte(l) as int) % 256 == l
    ensures ToByte(l) as int == if l < 128 then l else l - 256
  {
  }

  /** The packed ARGB pixel with the given channels. */
  function Pack(alpha: bv32, red: bv32, green: bv32, blue: bv32): bv32 {
    (alpha << 24) | (red << 16) | (green << 8) | blue
  }

  /** Unpacking gives back the channels packed. */
  lemma PackChannels(alpha: bv32, red: bv32, green: bv32, blue: bv32)
    requires alpha < 256 && red < 256 && green < 256 && blue < 256
    ensures (Pack(alpha, red, green, blue) >> 16) & 0xFF == red
    ensures (Pack(alpha, red, green, blue) >> 8) & 0xFF == green
    ensures Pack(alpha, red, green, blue) & 0xFF == blue
  {
  }

  /** A grey pixel, r = g = b = v, has luminance v, whatever its alpha. */
  lemma GreyPixel(alpha: bv32, v: bv32)
    requires alpha < 256 && v < 256
    ensures PixelLuminance(Pack(alpha, v, v, v)) == v as int
  {
    var p := Pack(alpha, v, v, v);
    PackChannels(alpha, v, v, v);
    var n := v as int;
    assert Red(p) == n && Green(p) == n && Blue(p) == n;
    assert 306 * Red(p) + 601 * Green(p) + 117 * Blue(p) == 1024 * n;
  }

  /** The alpha byte never changes the luminance. */
  lemma AlphaIgnored(p: bv32, alpha: bv32)
    requires alpha < 256
    ensures PixelLuminance((p & 0x00FF_FFFF) | (alpha << 24)) == PixelLuminance(p)
  {
    var q := (p & 0x00FF_FFFF) | (alpha << 24);
    assert (q >> 16) & 0xFF == (p >> 16) & 0xFF;
    assert (q >> 8) & 0xFF == (p >> 8) & 0xFF;
    assert q & 0xFF == p & 0xFF;
  }

  /** The luminance byte of each pixel, in order. */
  function LuminanceBytes(pixels: seq<bv32>): (r: seq<int8>)
    ensures |r| == |pixels|
    ensures forall i :: 0 <= i < |pixels| ==> r[i] == ToByte(PixelLuminance(pixels[i]))
  {
    seq(|pixels|, i requires 0 <= i < |pixels| => ToByte(PixelLuminance(pixels[i])))
  }

  /** A BufferedImage as getRGB sees it: `height` rows of `width` ARGB pixels. */
  datatype Image = Image(width: nat, height: nat, rows: seq<seq<bv32>>)

  predicate ImageWellFormed(img: Image) {
    |img.rows| == img.height && forall y :: 0 <= y < |img.rows| ==> |img.rows[y]| == img.width
  }

  /** The source: its dimensions and the row-major pixel buffer `data`. */
  datatype Source = Source(width: nat, height: nat, data: seq<bv32>)

  predicate SourceWellFormed(src: Source) {
    |src.data| == src.width * src.height
  }

  /** Row y of a row-major buffer of `width`-long rows starts at y * width
      and ends at (y + 1) * width, inside a buffer of width * height cells. */
  lemma RowBounds(width: nat, height: nat, y: int)
    requires 0 <= y < height
    ensures 0 <= y * width <= (y + 1) * width <= width * height
    ensures (y + 1) * width == y * width + width
  {
    MulMonotone(y + 1, height, width);
  }

  lemma MulMonotone(a: nat, b: nat, c: nat)
    requires a <= b
    ensures a * c <= b * c
  {
  }

  /** Row y of a row-major buffer of width * height cells. */
  function RowOf<T>(buffer: seq<T>, width: nat, height: nat, y: int): (r: seq<T>)
    requires |buffer| == width * height && 0 <= y < height
    ensures |r| == width
    ensures forall x :: 0 <= x < width ==> y * width + x < |buffer| && r[x] == buffer[y * width + x]
  {
    RowBounds(width, height, y);
    buffer[y * width .. (y + 1) * width]
  }

  /** The constructor: `data` gets width * height pixels, row after row, as
      `image.getRGB(0, 0, w, h, data, 0, w)` copies them. */
  method NewSource(img: Image) returns (src: Source)
    requires ImageWellFormed(img)
    ensures src.width == img.width && src.height == img.height
    ensures SourceWellFormed(src)
    ensures forall y :: 0 <= y < img.height ==> RowOf(src.data, img.width, img.height, y) == img.rows[y]
  {
    var data: seq<bv32> := [];
    var y := 0;
    while y < img.height
      invariant 0 <= y <= img.height
      invariant |data| == y * img.width
      invariant forall yy :: 0 <= yy < y ==> RowOf(data, img.width, y, yy) == img.rows[yy]
    {
      ghost var before := data;
      data := data + img.rows[y];
      RowBounds(img.width, y + 1, y);
      forall yy | 0 <= yy < y + 1
        ensures RowOf(data, img.width, y + 1, yy) == img.rows[yy]
      {
        RowBounds(img.width, y + 1, yy);
        if yy < y {
          RowBounds(img.width, y, yy);
          assert RowOf(data, img.width, y + 1, yy) == RowOf(before, img.width, y, yy);
        }
      }
      y := y + 1;
    }
    src := Source(img.width, img.height, data);
  }

  /** The luminance bytes of row y: what getRow writes at indices
      0..width-1. */
  function RowLuminance(src: Source, y: int): (r: seq<int8>)
    requires SourceWellFormed(src) && 0 <= y < src.height
    ensures |r| == src.width
  {
    LuminanceBytes(RowOf(src.data, src.width, src.height, y))
  }

  /** getRow(y, row). A row outside the image is an IllegalArgumentException
      (Err). A caller's buffer at least `width` long is reused: the result
      has its length and keeps its bytes from `width` on; a null or shorter
      buffer is replaced by a fresh one of exactly `width` bytes. Either way
      bytes 0..width-1 are the luminance of row y. */
  method GetRow(src: Source, y: int, row: Option<seq<int8>>) returns (r: Result<seq<int8>>)
    requires SourceWellFormed(src)
    ensures r.Err? <==> y < 0 || y >= src.height
    ensures r.Err? ==> r.message == "Requested row is outside the image: " + IntToString(y)
    ensures r.Ok? && row.Some? && |row.value| >= src.width ==>
              |r.value| == |row.value| && r.value[src.width..] == row.value[src.width..]
    ensures r.Ok? && (row.None? || |row.value| < src.width) ==> |r.value| == src.width
    ensures r.Ok? ==> |r.value| >= src.width && r.value[..src.width] == RowLuminance(src, y)
  {
    if y < 0 || y >= src.height {
      return Err("Requested row is outside the image: " + IntToString(y));
    }
    var width := src.width;
    var buffer: seq<int8>;
    if row.None? || |row.value| < width {
      buffer := seq(width, _ => 0);
    } else {
      buffer := row.value;
    }
    ghost var initial := buffer;
    var offset := y * width;
    RowBounds(width, src.height, y);
    var x := 0;
    while x < width
      invariant 0 <= x <= width
      invariant |buffer| == |initial|
      invariant buffer[width..] == initial[width..]
      invariant forall i :: 0 <= i < x ==> buffer[i] == ToByte(PixelLuminance(src.data[offset + i]))
    {
      var pixel := src.data[offset + x];
      var luminance := PixelLuminance(pixel);
      buffer := buffer[x := ToByte(luminance)];
      x := x + 1;
    }
    assert buffer[..width] == RowLuminance(src, y);
    return Ok(buffer);
  }

  /** The luminance bytes of a whole buffer, cut into rows, are the
      luminance bytes of each row. */
  lemma LuminanceRows(src: Source)
    requires SourceWellFormed(src)
    ensures forall y :: 0 <= y < src.height ==>
              RowOf(LuminanceBytes(src.data), src.width, src.height, y) == RowLuminance(src, y)
  {
    var all := LuminanceBytes(src.data);
    forall y | 0 <= y < src.height
      ensures RowOf(all, src.width, src.height, y) == RowLuminance(src, y)
    {
      var row := RowOf(all, src.width, src.height, y);
      var pixels := RowOf(src.data, src.width, src.height, y);
      forall x | 0 <= x < src.width
        ensures row[x] == RowLuminance(src, y)[x]
      {
        var i := y * src.width + x;
        assert row[x] == all[i] && pixels[x] == src.data[i];
      }
    }
  }

  /** A buffer that holds the luminance byte of every pixel is the
      luminance bytes of the pixels. */
  lemma AllLuminance(matrix: seq<int8>, pixels: seq<bv32>)
    requires |matrix| == |pixels|
    requires forall i :: 0 <= i < |pixels| ==> matrix[i] == ToByte(PixelLuminance(pixels[i]))
    ensures matrix == LuminanceBytes(pixels)
  {
  }

  /** The inner loop of getMatrix: writes the luminance bytes of the pixels
      offset..offset+width-1 at the same indices of the matrix. */
  method WriteRow(src: Source, matrix: seq<int8>, offset: nat) returns (r: seq<int8>)
    requires |matrix| == |src.data| && offset + src.width <= |src.data|
    requires forall i :: 0 <= i < offset ==> matrix[i] == ToByte(PixelLuminance(src.data[i]))
    ensures |r| == |matrix|
    ensures forall i :: 0 <= i < offset + src.width ==> r[i] == ToByte(PixelLuminance(src.data[i]))
  {
    r := matrix;
    var x := 0;
    while x < src.width
      invariant 0 <= x <= src.width
      invariant |r| == |matrix|
      invariant forall i :: 0 <= i < offset + x ==> r[i] == ToByte(PixelLuminance(src.data[i]))
    {
      var pixel := src.data[offset + x];
      var luminance := PixelLuminance(pixel);
      r := r[offset + x := ToByte(luminance)];
      x := x + 1;
    }
  }

  /** getMatrix: all width * height luminance bytes, row-major, so the
      slice of row y is exactly the bytes getRow(y) writes. */
  method GetMatrix(src: Source) returns (matrix: seq<int8>)
    requires SourceWellFormed(src)
    ensures |matrix| == src.width * src.height
    ensures matrix == LuminanceBytes(src.data)
    ensures forall y :: 0 <= y < src.height ==> RowOf(matrix, src.width, src.height, y) == RowLuminance(src, y)
  {
    var width := src.width;
    var height := src.height;
    matrix := seq(width * height, _ => 0);
    var y := 0;
    ghost var done := 0;
    while y < height
      invariant 0 <= y <= height
      invariant done == y * width
      invariant |matrix| == |src.data|
      invariant forall i :: 0 <= i < done ==> matrix[i] == ToByte(PixelLuminance(src.data[i]))
    {
      var offset := y * width;
      RowBounds(width, height, y);
      matrix := WriteRow(src, matrix, offset);
      done := done + width;
      y := y + 1;
    }
    AllLuminance(matrix, src.data);
    LuminanceRows(src);
  }
}
