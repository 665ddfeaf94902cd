/** experiments/experiment_bitmap.py: text rendered with a 12-row font of
    one byte per row, glyph after glyph or row after row, and two test
    patterns. `str.upper` is modelled on ASCII letters only. */
module ExperimentBitmap {
  import opened Bytes

  const GLYPH_ROWS: nat := 12

  /** A font maps characters to 12 row bytes and has the blank ' '. */
  predicate WellFormedFont(font: map<char, seq<byte>>) {
    ' ' in font && forall ch :: ch in font ==> |font[ch]| == GLYPH_ROWS
  }

  /** `FONT_12ROW`. */
  const FONT_12ROW: map<char, seq<byte>> := map[
    'A' := [0x00, 0x00, 0x3C, 0x42, 0x42, 0x42, 0x7E, 0x42, 0x42, 0x42, 0x00, 0x00],
    'B' := [0x00, 0x00, 0x7C, 0x42, 0x42, 0x7C, 0x42, 0x42, 0x42, 0x7C, 0x00, 0x00],
    'C' := [0x00, 0x00, 0x3C, 0x42, 0x40, 0x40, 0x40, 0x40, 0x42, 0x3C, 0x00, 0x00],
    'H' := [0x00, 0x00, 0x42, 0x42, 0x42, 0x7E, 0x42, 0x42, 0x42, 0x42, 0x00, 0x00],
    'I' := [0x00, 0x00, 0x3E, 0x08, 0x08, 0x08, 0x08, 0x08, 0x08, 0x3E, 0x00, 0x00],
    'E' := [0x00, 0x00, 0x7E, 0x40, 0x40, 0x7C, 0x40, 0x40, 0x40, 0x7E, 0x00, 0x00],
    'L' := [0x00, 0x00, 0x40, 0x40, 0x40, 0x40, 0x40, 0x40, 0x40, 0x7E, 0x00, 0x00],
    'O' := [0x00, 0x00, 0x3C, 0x42, 0x42, 0x42, 0x42, 0x42, 0x42, 0x3C, 0x00, 0x00],
    ' ' := [0x00, 0x00, 0x00, 0x00, 0x00, 0x00, 0x00, 0x00, 0x00, 0x00, 0x00, 0x00]
  ]

  /** ASCII `upper()` of one character. */
  function UpperChar(ch: char): (u: char)
    ensures 'a' <= ch <= 'z' ==> u as int == ch as int - 32
    ensures !('a' <= ch <= 'z') ==> u == ch
    ensures !('a' <= u <= 'z')
  {
    if 'a' <= ch <= 'z' then (ch as int - 32) as char else ch
  }

  function Upper(s: string): (u: string)
    ensures |u| == |s| && forall i :: 0 <= i < |s| ==> u[i] == UpperChar(s[i])
  {
    seq(|s|, i requires 0 <= i < |s| => UpperChar(s[i]))
  }

  /** `FONT.get(ch, FONT[' '])`. */
  function Glyph(font: map<char, seq<byte>>, ch: char): (g: seq<byte>)
    requires WellFormedFont(font)
    ensures |g| == GLYPH_ROWS
    ensures ch in font ==> g == font[ch]
    ensures ch !in font ==> g == font[' ']
  {
    if ch in font then font[ch] else font[' ']
  }

  /** The glyphs of the upper-cased text, one after the other. */
  function ByChar(font: map<char, seq<byte>>, text: string): (r: seq<byte>)
    requires WellFormedFont(font)
    ensures |r| == GLYPH_ROWS * |text|
  {
    if text == [] then []
    else ByChar(font, text[..|text| - 1]) + Glyph(font, UpperChar(text[|text| - 1]))
  }

  /** Byte `row` of glyph k sits at 12k + row. */
  lemma {:induction false} ByCharAt(font: map<char, seq<byte>>, text: string, k: nat, row: nat)
    requires WellFormedFont(font) && k < |text| && row < GLYPH_ROWS
    ensures ByChar(font, text)[GLYPH_ROWS * k + row] == Glyph(font, UpperChar(text[k]))[row]
    decreases |text|
  {
    var n := |text| - 1;
    var init := ByChar(font, text[..n]);
    assert |init| == GLYPH_ROWS * n;
    if k < n {
      ByCharAt(font, text[..n], k, row);
      assert ByChar(font, text)[GLYPH_ROWS * k + row] == init[GLYPH_ROWS * k + row];
    }
  }

  /** Lower-case text renders like its upper-case form. */
  lemma {:induction false} ByCharUpper(font: map<char, seq<byte>>, text: string)
    requires WellFormedFont(font)
    ensures ByChar(font, text) == ByChar(font, Upper(text))
    decreases |text|
  {
    if text != [] {
      var n := |text| - 1;
      assert Upper(text)[..n] == Upper(text[..n]);
      ByCharUpper(font, text[..n]);
    }
  }

  /** `text_to_bitmap_by_char`, over a font given as a parameter (this
      experiment passes `FONT_12ROW`; experiment_direct_image.py has the
      same loop over its own `FONT`). */
  method TextToBitmapByChar(font: map<char, seq<byte>>, text: string) returns (result: seq<byte>)
    requires WellFormedFont(font)
    ensures result == ByChar(font, text)
  {
    result := [];
    var upper := Upper(text);
    for i := 0 to |upper|
      invariant result == ByChar(font, text[..i])
    {
      assert text[..i + 1][..i] == text[..i];
      var charData := Glyph(font, upper[i]);
      result := result + charData;
    }
    assert text[..|text|] == text;
  }

  /** Row r of every glyph, then row r + 1: byte `row * n + k` is row `row`
      of glyph k. */
  function ByRow(font: map<char, seq<byte>>, text: string): (r: seq<byte>)
    requires WellFormedFont(font)
    ensures |r| == GLYPH_ROWS * |text|
  {
    RowsFrom(font, text, GLYPH_ROWS)
  }

  /** The first `rows` rows of the row-major layout. */
  function RowsFrom(font: map<char, seq<byte>>, text: string, rows: nat): (r: seq<byte>)
    requires WellFormedFont(font) && rows <= GLYPH_ROWS
    ensures |r| == rows * |text|
  {
    if rows == 0 then [] else RowsFrom(font, text, rows - 1) + Row(font, text, rows - 1)
  }

  /** Row `row` of every glyph, in text order. */
  function Row(font: map<char, seq<byte>>, text: string, row: nat): (r: seq<byte>)
    requires WellFormedFont(font) && row < GLYPH_ROWS
    ensures |r| == |text| && forall k :: 0 <= k < |text| ==> r[k] == Glyph(font, UpperChar(text[k]))[row]
  {
    seq(|text|, k requires 0 <= k < |text| => Glyph(font, UpperChar(text[k]))[row])
  }

  lemma {:induction false} RowsFromAt(font: map<char, seq<byte>>, text: string, rows: nat, row: nat, k: nat)
    requires WellFormedFont(font) && row < rows <= GLYPH_ROWS && k < |text|
    ensures row * |text| + k < rows * |text|
    ensures RowsFrom(font, text, rows)[row * |text| + k] == Glyph(font, UpperChar(text[k]))[row]
    decreases rows
  {
    var n := |text|;
    assert (rows - 1) * n == rows * n - n;
    if row < rows - 1 {
      RowsFromAt(font, text, rows - 1, row, k);
    } else {
      assert row * n + k - (rows - 1) * n == k;
    }
  }

  /** The row-major layout is the transpose of the glyph-major one. */
  lemma ByRowTranspose(font: map<char, seq<byte>>, text: string, row: nat, k: nat)
    requires WellFormedFont(font) && row < GLYPH_ROWS && k < |text|
    ensures row * |text| + k < |ByRow(font, text)|
    ensures ByRow(font, text)[row * |text| + k] == ByChar(font, text)[GLYPH_ROWS * k + row]
  {
    RowsFromAt(font, text, GLYPH_ROWS, row, k);
    ByCharAt(font, text, k, row);
  }

  /** `text_to_bitmap_by_row`. */
  method TextToBitmapByRow(text: string) returns (result: seq<byte>)
    ensures result == ByRow(FONT_12ROW, text)
  {
    var chars := seq(|text|, i requires 0 <= i < |text| => Glyph(FONT_12ROW, Upper(text)[i]));
    result := [];
    for row := 0 to GLYPH_ROWS
      invariant result == RowsFrom(FONT_12ROW, text, row)
    {
      var bytes := RowBytes(text, chars, row);
      result := result + bytes;
    }
  }

  /** The inner loop of `text_to_bitmap_by_row`: row `row` of every
      character's glyph, in text order. */
  method RowBytes(text: string, chars: seq<seq<byte>>, row: nat) returns (bytes: seq<byte>)
    requires row < GLYPH_ROWS && |chars| == |text|
    requires forall i :: 0 <= i < |text| ==> chars[i] == Glyph(FONT_12ROW, UpperChar(text[i]))
    ensures bytes == Row(FONT_12ROW, text, row)
  {
    bytes := [];
    for k := 0 to |chars|
      invariant bytes == Row(FONT_12ROW, text, row)[..k]
    {
      assert Row(FONT_12ROW, text, row)[..k + 1] == Row(FONT_12ROW, text, row)[..k] + [chars[k][row]];
      bytes := bytes + [chars[k][row]];
    }
    assert Row(FONT_12ROW, text, row)[..|chars|] == Row(FONT_12ROW, text, row);
  }

  /** `n` copies of `b`. */
  function Fill(n: nat, b: byte): (r: seq<byte>)
    ensures |r| == n && forall i :: 0 <= i < n ==> r[i] == b
  {
    seq(n, _ => b)
  }

  /** `solid_pattern`: `bytes()` refuses a pattern outside 0..255 unless
      there are no bytes to make. */
  function SolidPattern(rows: nat, colsBytes: nat, pattern: int): (r: Result<seq<byte>>)
    ensures r.Ok? <==> IsByte(pattern) || rows * colsBytes == 0
    ensures r.Err? ==> r.error == ByteOutOfRange
    ensures r.Ok? ==> |r.value| == rows * colsBytes && forall i :: 0 <= i < |r.value| ==> r.value[i] == pattern
  {
    if rows * colsBytes == 0 then Ok([])
    else if IsByte(pattern) then Ok(Fill(rows * colsBytes, pattern))
    else Err(ByteOutOfRange)
  }

  /** `solid_pattern` with its default pattern 0xFF: every pixel lit. */
  function SolidPatternDefault(rows: nat, colsBytes: nat): (r: seq<byte>)
    ensures |r| == rows * colsBytes && forall i :: 0 <= i < |r| ==> r[i] == 0xFF
  {
    SolidPattern(rows, colsBytes, 0xFF).value
  }

  /** The byte of stripe row `row`: 0xFF on even rows, 0x00 on odd ones. */
  function StripeByte(row: nat): byte {
    if row % 2 == 0 then 0xFF else 0x00
  }

  function Stripes(rows: nat, colsBytes: nat): (r: seq<byte>)
    ensures |r| == rows * colsBytes
  {
    if rows == 0 then [] else Stripes(rows - 1, colsBytes) + Fill(colsBytes, StripeByte(rows - 1))
  }

  /** Every byte of stripe row r is 0xFF when r is even and 0x00 when odd. */
  lemma {:induction false} StripesAt(rows: nat, colsBytes: nat, row: nat, j: nat)
    requires row < rows && j < colsBytes
    ensures row * colsBytes + j < rows * colsBytes
    ensures Stripes(rows, colsBytes)[row * colsBytes + j] == StripeByte(row)
    decreases rows
  {
    assert (rows - 1) * colsBytes == rows * colsBytes - colsBytes;
    if row < rows - 1 {
      StripesAt(rows - 1, colsBytes, row, j);
    } else {
      assert row * colsBytes + j - (rows - 1) * colsBytes == j;
    }
  }

  /** `stripe_pattern`. */
  method StripePattern(rows: nat, colsBytes: nat) returns (result: seq<byte>)
    ensures result == Stripes(rows, colsBytes)
  {
    result := [];
    for row := 0 to rows
      invariant result == Stripes(row, colsBytes)
    {
      var val: byte := if row % 2 == 0 then 0xFF else 0x00;
      result := result + Fill(colsBytes, val);
    }
  }
}
