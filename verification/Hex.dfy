/** Hexadecimal text: byte by byte, and in chunks from a table. */
module Hex {
  import opened Basics
  import opened Bytes

  const HEX_CHARS: string := "0123456789abcdef"
  const MAX_CHUNK_BYTES: nat := 64 * 1024

  function HexDigit(d: nat): char
    requires d < 16
  {
    HEX_CHARS[d]
  }

  /** The lowest `k` hexadecimal digits of a number, most significant first. */
  function HexDigits(n: nat, k: nat): (s: string)
    ensures |s| == k
  {
    if k == 0 then "" else HexDigits(n / 16, k - 1) + [HexDigit(n % 16)]
  }

  function HexByte(b: uint8): (s: string)
    ensures |s| == 2
  {
    HexDigits(b, 2)
  }

  lemma HexByteDigits(b: uint8)
    ensures HexByte(b) == [HexDigit(b / 16), HexDigit(b % 16)]
  {
    assert HexDigits(b, 2) == HexDigits(b / 16, 1) + [HexDigit(b % 16)];
    assert HexDigits(b / 16, 1) == HexDigits(b / 16 / 16, 0) + [HexDigit(b / 16 % 16)];
  }

  /** The digits of a run of bytes, with nothing in between. */
  function HexRun(bytes: seq<uint8>): (s: string)
    ensures |s| == 2 * |bytes|
  {
    if bytes == [] then "" else HexRun(bytes[..|bytes| - 1]) + HexByte(bytes[|bytes| - 1])
  }

  // ---------------------------------------------------------------------------------------------
  // Byte by byte
  // ---------------------------------------------------------------------------------------------

  /** A separator follows byte `i` if it ends a full line and is not the last byte. */
  predicate SeparatorAfter(len: nat, width: nat, i: nat)
    requires width > 0
  {
    i + 1 != len && (i + 1) % width == 0
  }

  /** The text of the first `i` bytes. */
  function Plain(bytes: seq<uint8>, separator: string, width: nat, i: nat): string
    requires width > 0 && i <= |bytes|
  {
    if i == 0 then ""
    else Plain(bytes, separator, width, i - 1) + HexByte(bytes[i - 1])
         + if SeparatorAfter(|bytes|, width, i - 1) then separator else ""
  }

  method ToHexBytes(bytes: seq<uint8>, separator: string, width: nat) returns (text: string)
    requires width > 0
    ensures text == Plain(bytes, separator, width, |bytes|)
  {
    text := "";
    for i := 0 to |bytes|
      invariant text == Plain(bytes, separator, width, i)
    {
      var doSep := i != |bytes| - 1 && (i + 1) % width == 0;
      text := text + HexByte(bytes[i]);
      if doSep {
        text := text + separator;
      }
    }
  }

  // ---------------------------------------------------------------------------------------------
  // In chunks
  // ---------------------------------------------------------------------------------------------

  /** The table of all two-digit texts. */
  method MakeHexTable() returns (table: seq<string>)
    ensures |table| == 256 && forall i: nat :: i < 256 ==> table[i] == HexByte(i)
  {
    table := [];
    for i: nat := 0 to 256
      invariant |table| == i && forall j: nat :: j < i ==> table[j] == HexByte(j)
    {
      HexByteDigits(i);
      table := table + [[HexDigit(i / 16), HexDigit(i % 16)]];
    }
  }

  /** The width in force: no width, or one beyond the input, means one line. */
  function LineWidth(len: nat, width: nat): nat {
    if width == 0 || width > len then len else width
  }

  /** How many bytes the next write of the chunk loop covers. */
  function ChunkWidth(len: nat, width: nat, pos: nat): nat
    requires pos <= len
  {
    Min(Min(len - pos, MAX_CHUNK_BYTES), width)
  }

  /** What is between two chunks. */
  function Between(len: nat, separator: string, end: nat): string {
    if end < len then separator else ""
  }

  /** What has been written when the chunk loop, having written `out` up to position `pos`, ends. */
  function Chunks(out: string, bytes: seq<uint8>, separator: string, width: nat, pos: nat): string
    requires width > 0 && pos <= |bytes|
    decreases |bytes| - pos
  {
    if pos == |bytes| then out
    else
      var end := pos + ChunkWidth(|bytes|, width, pos);
      Chunks(out + HexRun(bytes[pos..end]) + Between(|bytes|, separator, end), bytes, separator, width, end)
  }

  lemma ChunksStep(out: string, next: string, bytes: seq<uint8>, separator: string, width: nat, pos: nat, end: nat)
    requires width > 0 && pos < |bytes| && end == pos + ChunkWidth(|bytes|, width, pos)
    requires next == out + HexRun(bytes[pos..end]) + Between(|bytes|, separator, end)
    ensures Chunks(out, bytes, separator, width, pos) == Chunks(next, bytes, separator, width, end)
  {
    assert Chunks(out, bytes, separator, width, pos)
        == Chunks(out + HexRun(bytes[pos..end]) + Between(|bytes|, separator, end), bytes, separator, width, end);
  }

  function Chunked(bytes: seq<uint8>, separator: string, width: nat): string {
    var w := LineWidth(|bytes|, width);
    if |bytes| <= MAX_CHUNK_BYTES && w == |bytes| then HexRun(bytes) else Chunks("", bytes, separator, w, 0)
  }

  method WriteRun(table: seq<string>, bytes: seq<uint8>) returns (buf: string)
    requires |table| == 256 && forall i: nat :: i < 256 ==> table[i] == HexByte(i)
    ensures buf == HexRun(bytes)
  {
    buf := "";
    for i: nat := 0 to |bytes|
      invariant buf == HexRun(bytes[..i])
    {
      assert bytes[..i + 1][..i] == bytes[..i];
      buf := buf + table[bytes[i]];
    }
    assert bytes[..|bytes|] == bytes;
  }

  method WriteChunk(table: seq<string>, bytes: seq<uint8>, separator: string, start: nat, end: nat, before: string)
    returns (out: string)
    requires |table| == 256 && forall i: nat :: i < 256 ==> table[i] == HexByte(i)
    requires start <= end <= |bytes|
    ensures out == before + HexRun(bytes[start..end]) + Between(|bytes|, separator, end)
  {
    var buf := WriteRun(table, bytes[start..end]);
    out := before + buf;
    assert out + "" == out;
    if separator != "" && end < |bytes| {
      out := out + separator;
    }
  }

  method WriteChunks(table: seq<string>, bytes: seq<uint8>, separator: string, lineWidth: nat) returns (out: string)
    requires |table| == 256 && forall i: nat :: i < 256 ==> table[i] == HexByte(i)
    requires lineWidth > 0
    ensures out == Chunks("", bytes, separator, lineWidth, 0)
  {
    var len := |bytes|;
    out := "";
    var pos: nat := 0;
    while pos < len
      invariant pos <= len
      invariant Chunks(out, bytes, separator, lineWidth, pos) == Chunks("", bytes, separator, lineWidth, 0)
    {
      var chunkBytes := if len - pos > MAX_CHUNK_BYTES then MAX_CHUNK_BYTES else len - pos;
      var chunkWidth := if chunkBytes < lineWidth then chunkBytes else lineWidth;
      var end := pos + chunkWidth;
      var next := WriteChunk(table, bytes, separator, pos, end, out);
      ChunksStep(out, next, bytes, separator, lineWidth, pos, end);
      out, pos := next, end;
    }
  }

  method ToHexBytesStream(bytes: seq<uint8>, separator: string, width: nat) returns (out: string)
    ensures out == Chunked(bytes, separator, width)
  {
    var table := MakeHexTable();
    var lineWidth := LineWidth(|bytes|, width);
    if |bytes| <= MAX_CHUNK_BYTES && lineWidth == |bytes| {
      out := WriteRun(table, bytes);
    } else {
      out := WriteChunks(table, bytes, separator, lineWidth);
    }
  }

  // ---------------------------------------------------------------------------------------------
  // Reading the text
  // ---------------------------------------------------------------------------------------------

  /** The value of a lower-case digit. */
  function DigitValue(c: char): Option<nat> {
    if '0' <= c <= '9' then Some(c as int - '0' as int)
    else if 'a' <= c <= 'f' then Some(c as int - 'a' as int + 10)
    else None
  }

  lemma DigitIsRead(d: nat)
    requires d < 16
    ensures DigitValue(HexDigit(d)) == Some(d)
  {
  }

  /** The lower-case digits of a text. */
  function Digits(text: string): string {
    if text == "" then ""
    else Digits(text[..|text| - 1]) + if DigitValue(text[|text| - 1]).Some? then [text[|text| - 1]] else ""
  }

  /** The bytes that pairs of digits spell. */
  function ReadRun(text: string): seq<nat> {
    if |text| < 2 then []
    else
      var h, l := DigitValue(text[|text| - 2]), DigitValue(text[|text| - 1]);
      if h.None? || l.None? then [] else ReadRun(text[..|text| - 2]) + [16 * h.value + l.value]
  }

  lemma {:induction false} DigitsAppend(a: string, b: string)
    ensures Digits(a + b) == Digits(a) + Digits(b)
  {
    if b == "" {
      assert a + b == a && Digits(a) + "" == Digits(a);
    } else {
      var last := |b| - 1;
      assert (a + b)[..|a| + last] == a + b[..last];
      DigitsAppend(a, b[..last]);
    }
  }

  lemma DigitsOfByte(b: uint8)
    ensures Digits(HexByte(b)) == HexByte(b)
    ensures DigitValue(HexByte(b)[0]) == Some(b / 16) && DigitValue(HexByte(b)[1]) == Some(b % 16)
  {
    HexByteDigits(b);
    DigitIsRead(b / 16);
    DigitIsRead(b % 16);
    var t := HexByte(b);
    assert t[..1][..0] == "" && Digits(t[..1]) == Digits("") + [t[0]];
    assert Digits(t) == Digits(t[..1]) + [t[1]];
  }

  lemma ReadOneMore(text: string, b: uint8)
    ensures ReadRun(text + HexByte(b)) == ReadRun(text) + [b]
  {
    var t := text + HexByte(b);
    DigitsOfByte(b);
    assert t[..|t| - 2] == text && t[|t| - 2] == HexByte(b)[0] && t[|t| - 1] == HexByte(b)[1];
  }

  lemma {:induction false} RunIsRead(bytes: seq<uint8>)
    ensures ReadRun(HexRun(bytes)) == bytes
  {
    if bytes != [] {
      RunIsRead(bytes[..|bytes| - 1]);
      ReadOneMore(HexRun(bytes[..|bytes| - 1]), bytes[|bytes| - 1]);
    }
  }

  lemma {:induction false} DigitsOfRun(bytes: seq<uint8>)
    ensures Digits(HexRun(bytes)) == HexRun(bytes)
  {
    if bytes != [] {
      var before, last := bytes[..|bytes| - 1], bytes[|bytes| - 1];
      DigitsOfRun(before);
      DigitsOfByte(last);
      DigitsAppend(HexRun(before), HexByte(last));
    }
  }

  lemma {:induction false} DigitsOfPlain(bytes: seq<uint8>, separator: string, width: nat, i: nat)
    requires width > 0 && i <= |bytes| && Digits(separator) == ""
    ensures Digits(Plain(bytes, separator, width, i)) == HexRun(bytes[..i])
  {
    if i > 0 {
      DigitsOfPlain(bytes, separator, width, i - 1);
      DigitsOfByte(bytes[i - 1]);
      var before := Plain(bytes, separator, width, i - 1);
      var after := if SeparatorAfter(|bytes|, width, i - 1) then separator else "";
      DigitsAppend(before, HexByte(bytes[i - 1]));
      DigitsAppend(before + HexByte(bytes[i - 1]), after);
      assert bytes[..i][..i - 1] == bytes[..i - 1];
    }
  }

  lemma RunSplits(bytes: seq<uint8>, pos: nat, end: nat)
    requires pos <= end <= |bytes|
    ensures HexRun(bytes[..end]) == HexRun(bytes[..pos]) + HexRun(bytes[pos..end])
  {
    HexRunAppend(bytes[..pos], bytes[pos..end]);
    assert bytes[..pos] + bytes[pos..end] == bytes[..end];
  }

  /** Digits between `a` and `c`, and none in `c`. */
  lemma DigitsBetween(a: string, b: string, c: string)
    requires Digits(b) == b && Digits(c) == ""
    ensures Digits(a + b + c) == Digits(a) + b
  {
    DigitsAppend(a, b);
    DigitsAppend(a + b, c);
    assert Digits(a + b) + "" == Digits(a + b);
  }

  lemma {:induction false} DigitsOfChunks(out: string, bytes: seq<uint8>, separator: string, width: nat, pos: nat)
    requires width > 0 && pos <= |bytes| && Digits(separator) == "" && Digits(out) == HexRun(bytes[..pos])
    ensures Digits(Chunks(out, bytes, separator, width, pos)) == HexRun(bytes)
    decreases |bytes| - pos
  {
    if pos < |bytes| {
      var end := pos + ChunkWidth(|bytes|, width, pos);
      var next := out + HexRun(bytes[pos..end]) + Between(|bytes|, separator, end);
      assert Digits(next) == HexRun(bytes[..end]) by {
        DigitsOfRun(bytes[pos..end]);
        DigitsBetween(out, HexRun(bytes[pos..end]), Between(|bytes|, separator, end));
        RunSplits(bytes, pos, end);
      }
      assert Chunks(out, bytes, separator, width, pos) == Chunks(next, bytes, separator, width, end) by {
        ChunksStep(out, next, bytes, separator, width, pos, end);
      }
      DigitsOfChunks(next, bytes, separator, width, end);
    } else {
      assert bytes[..pos] == bytes;
    }
  }

  /** The digits in either writer's text spell the bytes, for every width, as long as the separator has none. */
  lemma TextIsRead(bytes: seq<uint8>, separator: string, width: nat)
    requires forall c :: c in separator ==> DigitValue(c).None?
    ensures width > 0 ==> ReadRun(Digits(Plain(bytes, separator, width, |bytes|))) == bytes
    ensures ReadRun(Digits(Chunked(bytes, separator, width))) == bytes
  {
    NoDigits(separator);
    RunIsRead(bytes);
    DigitsOfRun(bytes);
    assert bytes[..|bytes|] == bytes && bytes[..0] == [];
    if width > 0 {
      DigitsOfPlain(bytes, separator, width, |bytes|);
    }
    if bytes != [] {
      DigitsOfChunks("", bytes, separator, LineWidth(|bytes|, width), 0);
    }
  }

  lemma {:induction false} NoDigits(text: string)
    requires forall c :: c in text ==> DigitValue(c).None?
    ensures Digits(text) == ""
  {
    if text != "" {
      NoDigits(text[..|text| - 1]);
    }
  }

  // ---------------------------------------------------------------------------------------------
  // Both write the same text
  // ---------------------------------------------------------------------------------------------

  /** Up to a full line after a multiple of the width, the next multiple is the end of the line. */
  lemma LineRemainder(width: nat, pos: nat, k: nat)
    requires k <= width && width > 0 && pos % width == 0
    ensures (pos + k) % width == 0 <==> k == 0 || k == width
  {
    var line, q := pos / width, (pos + k) / width;
    assert pos == width * line && pos + k == width * q + (pos + k) % width;
    if (pos + k) % width == 0 {
      ProductGap(width, q - line, k);
    } else if k == width {
      ProductGap(width, q - line - 1, 0 - (pos + k) % width);
    }
  }

  /** A multiple of `width` that is less than `width` in size is zero. */
  lemma ProductGap(width: nat, d: int, k: int)
    ensures d > 0 ==> width * d >= width
    ensures d < 0 ==> width * d <= 0 - width
    ensures width * d == k ==> k == 0 || k >= width || k <= 0 - width
  {
    if d > 0 {
      NonNegative(width, d - 1);
    } else if d < 0 {
      NonNegative(width, 0 - d - 1);
      assert width * (0 - d - 1) == 0 - width * d - width;
    }
  }

  lemma NonNegative(a: nat, b: nat)
    ensures a * b >= 0
  {
  }

  /** One more byte of a run. */
  lemma HexRunGrows(bytes: seq<uint8>, pos: nat, k: nat)
    requires 0 < k && pos + k <= |bytes|
    ensures HexRun(bytes[pos..pos + k]) == HexRun(bytes[pos..pos + (k - 1)]) + HexByte(bytes[pos + k - 1])
  {
    assert bytes[pos..pos + k][..k - 1] == bytes[pos..pos + (k - 1)];
  }

  /** No separator inside a line that starts at a multiple of the width, nor after the last byte. */
  lemma {:induction false} PlainInLine(bytes: seq<uint8>, separator: string, width: nat, pos: nat, k: nat)
    requires width > 0 && pos % width == 0 && k <= width && pos + k <= |bytes|
    requires k < width || pos + k == |bytes|
    ensures Plain(bytes, separator, width, pos + k)
         == Plain(bytes, separator, width, pos) + HexRun(bytes[pos..pos + k])
  {
    if k == 0 {
      assert bytes[pos..pos] == [];
    } else {
      PlainInLine(bytes, separator, width, pos, k - 1);
      LineRemainder(width, pos, k);
      HexRunGrows(bytes, pos, k);
      Associative(Plain(bytes, separator, width, pos), HexRun(bytes[pos..pos + (k - 1)]), HexByte(bytes[pos + k - 1]));
    }
  }

  /** A full line before the end is followed by the separator. */
  lemma PlainFullLine(bytes: seq<uint8>, separator: string, width: nat, pos: nat)
    requires width > 0 && pos % width == 0 && pos + width < |bytes|
    ensures Plain(bytes, separator, width, pos + width)
         == Plain(bytes, separator, width, pos) + HexRun(bytes[pos..pos + width]) + separator
  {
    PlainInLine(bytes, separator, width, pos, width - 1);
    LineRemainder(width, pos, width);
    HexRunGrows(bytes, pos, width);
    Associative(Plain(bytes, separator, width, pos), HexRun(bytes[pos..pos + (width - 1)]),
                HexByte(bytes[pos + width - 1]));
  }

  /** A narrow chunk from the start of a line is what the plain writer puts there. */
  lemma PlainChunk(bytes: seq<uint8>, separator: string, width: nat, pos: nat, end: nat)
    requires 0 < width <= MAX_CHUNK_BYTES && pos % width == 0 && pos < |bytes|
    requires end == pos + ChunkWidth(|bytes|, width, pos)
    ensures Plain(bytes, separator, width, end)
         == Plain(bytes, separator, width, pos) + HexRun(bytes[pos..end]) + Between(|bytes|, separator, end)
    ensures end == |bytes| || end % width == 0
  {
    if end < |bytes| {
      assert ChunkWidth(|bytes|, width, pos) == width;
      assert end % width == 0 by {
        LineRemainder(width, pos, width);
      }
      PlainFullLine(bytes, separator, width, pos);
    } else {
      PlainInLine(bytes, separator, width, pos, end - pos);
      assert Plain(bytes, separator, width, end) + "" == Plain(bytes, separator, width, end);
    }
  }

  lemma {:induction false} ChunksArePlain(bytes: seq<uint8>, separator: string, width: nat, pos: nat)
    requires 0 < width <= MAX_CHUNK_BYTES && pos <= |bytes| && (pos == |bytes| || pos % width == 0)
    ensures Chunks(Plain(bytes, separator, width, pos), bytes, separator, width, pos)
         == Plain(bytes, separator, width, |bytes|)
    decreases |bytes| - pos
  {
    if pos < |bytes| {
      var end := pos + ChunkWidth(|bytes|, width, pos);
      var done, next := Plain(bytes, separator, width, pos), Plain(bytes, separator, width, end);
      PlainChunk(bytes, separator, width, pos, end);
      assert Chunks(done, bytes, separator, width, pos) == Chunks(next, bytes, separator, width, end) by {
        ChunksStep(done, next, bytes, separator, width, pos, end);
      }
      ChunksArePlain(bytes, separator, width, end);
    }
  }

  lemma {:induction false} HexRunAppend(a: seq<uint8>, b: seq<uint8>)
    ensures HexRun(a + b) == HexRun(a) + HexRun(b)
  {
    if b == [] {
      assert a + b == a;
    } else {
      var last := |b| - 1;
      assert (a + b)[..|a| + last] == a + b[..last];
      HexRunAppend(a, b[..last]);
      assert HexRun(a + b) == HexRun(a + b[..last]) + HexByte(b[last]);
      Associative(HexRun(a), HexRun(b[..last]), HexByte(b[last]));
    }
  }

  lemma {:induction false} PlainWithoutSeparator(bytes: seq<uint8>, width: nat, i: nat)
    requires width > 0 && i <= |bytes|
    ensures Plain(bytes, "", width, i) == HexRun(bytes[..i])
  {
    if i > 0 {
      PlainWithoutSeparator(bytes, width, i - 1);
      assert bytes[..i][..i - 1] == bytes[..i - 1];
    }
  }

  lemma {:induction false} ChunksWithoutSeparator(bytes: seq<uint8>, width: nat, pos: nat)
    requires width > 0 && pos <= |bytes|
    ensures Chunks(HexRun(bytes[..pos]), bytes, "", width, pos) == HexRun(bytes)
    decreases |bytes| - pos
  {
    if pos < |bytes| {
      var end := pos + ChunkWidth(|bytes|, width, pos);
      ChunksWithoutSeparator(bytes, width, end);
      var out, next := HexRun(bytes[..pos]), HexRun(bytes[..end]);
      assert next == out + HexRun(bytes[pos..end]) + Between(|bytes|, "", end) by {
        HexRunAppend(bytes[..pos], bytes[pos..end]);
        assert bytes[..pos] + bytes[pos..end] == bytes[..end];
        assert next + "" == next;
      }
      ChunksStep(out, next, bytes, "", width, pos, end);
    } else {
      assert bytes[..pos] == bytes;
    }
  }

  lemma {:induction false} ChunksGrow(out: string, bytes: seq<uint8>, separator: string, width: nat, pos: nat)
    requires width > 0 && pos <= |bytes|
    ensures out <= Chunks(out, bytes, separator, width, pos)
    decreases |bytes| - pos
  {
    if pos < |bytes| {
      var end := pos + ChunkWidth(|bytes|, width, pos);
      ChunksGrow(out + HexRun(bytes[pos..end]) + Between(|bytes|, separator, end), bytes, separator, width, end);
    }
  }

  /** The two writers agree on this input. */
  ghost predicate Agree(bytes: seq<uint8>, separator: string, width: nat)
    requires width > 0
  {
    Chunked(bytes, separator, width) == Plain(bytes, separator, width, |bytes|)
  }

  lemma WholeLine(bytes: seq<uint8>, separator: string, width: nat)
    requires 0 < width && |bytes| <= width
    ensures Plain(bytes, separator, width, |bytes|) == HexRun(bytes)
  {
    PlainInLine(bytes, separator, width, 0, |bytes|);
    assert bytes[0..|bytes|] == bytes;
  }

  lemma AgreeWhenNarrow(bytes: seq<uint8>, separator: string, width: nat)
    requires width > 0 && (width <= MAX_CHUNK_BYTES || |bytes| <= MAX_CHUNK_BYTES)
    ensures Agree(bytes, separator, width)
  {
    if |bytes| <= width && |bytes| <= MAX_CHUNK_BYTES {
      WholeLine(bytes, separator, width);
    } else {
      ChunksArePlain(bytes, separator, width, 0);
    }
  }

  lemma AgreeWithoutSeparator(bytes: seq<uint8>, width: nat)
    requires width > 0
    ensures Agree(bytes, "", width)
  {
    PlainWithoutSeparator(bytes, width, |bytes|);
    assert bytes[..|bytes|] == bytes;
    if bytes != [] {
      ChunksWithoutSeparator(bytes, LineWidth(|bytes|, width), 0);
    }
  }

  /** A line longer than a chunk is broken by the chunk writer: the separator stands where the plain writer
      puts the next byte. */
  lemma DisagreeWhenWide(bytes: seq<uint8>, separator: string, width: nat)
    requires width > MAX_CHUNK_BYTES && |bytes| > MAX_CHUNK_BYTES && separator != ""
    requires HexByte(bytes[MAX_CHUNK_BYTES])[0] != separator[0]
    ensures !Agree(bytes, separator, width)
  {
    var m := MAX_CHUNK_BYTES;
    var start := "" + HexRun(bytes[0..m]) + separator;
    ChunksGrow(start, bytes, separator, LineWidth(|bytes|, width), m);
    assert start <= Chunked(bytes, separator, width);
    assert Chunked(bytes, separator, width)[2 * m] == separator[0];
    PlainInLine(bytes, separator, width, 0, m);
    assert |Plain(bytes, separator, width, m)| == 2 * m;
    assert Plain(bytes, separator, width, m + 1)[2 * m] == HexByte(bytes[m])[0];
    PlainGrows(bytes, separator, width, m + 1, |bytes|);
  }

  lemma {:induction false} PlainGrows(bytes: seq<uint8>, separator: string, width: nat, i: nat, j: nat)
    requires width > 0 && i <= j <= |bytes|
    ensures Plain(bytes, separator, width, i) <= Plain(bytes, separator, width, j)
  {
    if i < j {
      PlainGrows(bytes, separator, width, i, j - 1);
    }
  }

  /** For a given length, separator and width of at least one, the two writers agree on all bytes exactly when
      the width or the length is at most one chunk, or the separator is empty. */
  lemma WritersAgreeIff(len: nat, separator: string, width: nat)
    requires width > 0
    ensures (forall bytes: seq<uint8> :: |bytes| == len ==> Agree(bytes, separator, width))
       <==> width <= 65536 || len <= 65536 || separator == ""
  {
    if width <= MAX_CHUNK_BYTES || len <= MAX_CHUNK_BYTES || separator == "" {
      forall bytes: seq<uint8> | |bytes| == len
        ensures Agree(bytes, separator, width)
      {
        if separator == "" {
          AgreeWithoutSeparator(bytes, width);
        } else {
          AgreeWhenNarrow(bytes, separator, width);
        }
      }
    } else {
      var b: uint8 := if separator[0] == '0' then 255 else 0;
      var bytes: seq<uint8> := seq(len, _ => b);
      HexByteDigits(b);
      assert HexByte(b)[0] == if b == 0 then '0' else 'f';
      DisagreeWhenWide(bytes, separator, width);
    }
  }

  /** A width of zero, the default, means one line: no separator is written, exactly when the length is at most
      one chunk or the separator is empty. */
  lemma WidthZeroIsOneLineIff(len: nat, separator: string)
    ensures (forall bytes: seq<uint8> :: |bytes| == len ==> Chunked(bytes, separator, 0) == HexRun(bytes))
       <==> len <= 65536 || separator == ""
  {
    if len == 0 {
      return;
    }
    WritersAgreeIff(len, separator, len);
    forall bytes: seq<uint8> | |bytes| == len
      ensures Agree(bytes, separator, len) <==> Chunked(bytes, separator, 0) == HexRun(bytes)
    {
      WholeLine(bytes, separator, len);
    }
  }
}
