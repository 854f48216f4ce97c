/** Base64 text (section 4 of RFC 4648) and a decoder to hold the encoder against. */
module Base64 {
  import opened Basics
  import opened Bytes

  /** The standard alphabet: A to Z, a to z, 0 to 9, and two signs. */
  const STANDARD: string := seq(64, i requires 0 <= i < 64 => Letter(i))

  function Letter(i: nat): char
    requires i < 64
  {
    if i < 26 then ('A' as int + i) as char
    else if i < 52 then ('a' as int + i - 26) as char
    else if i < 62 then ('0' as int + i - 52) as char
    else if i == 62 then '+' else '/'
  }

  /** An alphabet fit for decoding: 64 different characters, none of them the padding character. */
  ghost predicate Proper(alphabet: string) {
    && |alphabet| == 64 && '=' !in alphabet
    && forall i, j :: 0 <= i < j < 64 ==> alphabet[i] != alphabet[j]
  }

  /** The value of a character of the standard alphabet. */
  function StandardIndex(c: char): int {
    if 'A' <= c <= 'Z' then c as int - 'A' as int
    else if 'a' <= c <= 'z' then c as int - 'a' as int + 26
    else if '0' <= c <= '9' then c as int - '0' as int + 52
    else if c == '+' then 62
    else if c == '/' then 63
    else -1
  }

  lemma StandardIsProper()
    ensures Proper(STANDARD)
  {
    forall i, j | 0 <= i < j < 64
      ensures STANDARD[i] != STANDARD[j]
    {
      assert StandardIndex(Letter(i)) == i && StandardIndex(Letter(j)) == j;
    }
  }

  /** The alphabet spelled out. */
  lemma StandardIsSpelled()
    ensures STANDARD[..26] == "ABCDEFGHIJKLMNOPQRSTUVWXYZ"
    ensures STANDARD[26..52] == "abcdefghijklmnopqrstuvwxyz"
    ensures STANDARD[52..] == "0123456789+/"
  {
  }

  // ---------------------------------------------------------------------------------------------
  // Encoding
  // ---------------------------------------------------------------------------------------------

  /** Up to three bytes as one 24-bit number, missing bytes as zero. */
  function Packed(group: seq<uint8>): (n: nat)
    requires 1 <= |group| <= 3
    ensures n < 0x100_0000
  {
    65536 * (group[0] as int)
    + (if |group| > 1 then 256 * (group[1] as int) else 0)
    + (if |group| > 2 then group[2] as int else 0)
  }

  /** The text of one group of up to three bytes. */
  function EncodeGroup(group: seq<uint8>, alphabet: string, pad: bool): string
    requires 1 <= |group| <= 3 && |alphabet| == 64
  {
    var n := Packed(group);
    [alphabet[n / 262144 % 64], alphabet[n / 4096 % 64]]
    + (if |group| > 1 then [alphabet[n / 64 % 64]] else if pad then "=" else "")
    + (if |group| > 2 then [alphabet[n % 64]] else if pad then "=" else "")
  }

  function Encode(bytes: seq<uint8>, alphabet: string, pad: bool): string
    requires |alphabet| == 64
  {
    if bytes == [] then ""
    else if |bytes| <= 3 then EncodeGroup(bytes, alphabet, pad)
    else EncodeGroup(bytes[..3], alphabet, pad) + Encode(bytes[3..], alphabet, pad)
  }

  /** Encoding with `done` characters already written, as the loop below goes on. */
  function EncodeOnto(done: string, bytes: seq<uint8>, alphabet: string, pad: bool): string
    requires |alphabet| == 64
    decreases |bytes|
  {
    if |bytes| <= 3 then (if bytes == [] then done else done + EncodeGroup(bytes, alphabet, pad))
    else EncodeOnto(done + EncodeGroup(bytes[..3], alphabet, pad), bytes[3..], alphabet, pad)
  }

  lemma {:induction false} EncodeOntoAppends(done: string, bytes: seq<uint8>, alphabet: string, pad: bool)
    requires |alphabet| == 64
    ensures EncodeOnto(done, bytes, alphabet, pad) == done + Encode(bytes, alphabet, pad)
    decreases |bytes|
  {
    if |bytes| > 3 {
      var head := EncodeGroup(bytes[..3], alphabet, pad);
      EncodeOntoAppends(done + head, bytes[3..], alphabet, pad);
      assert (done + head) + Encode(bytes[3..], alphabet, pad) == done + (head + Encode(bytes[3..], alphabet, pad));
    } else if bytes == [] {
      assert done + "" == done;
    }
  }

  /** The encoder's loop over groups of three bytes. */
  method ToBase64(bytes: seq<uint8>, alphabet: string, usePadding: bool) returns (result: string)
    requires |alphabet| == 64
    ensures result == Encode(bytes, alphabet, usePadding)
  {
    result := "";
    var i := 0;
    while i < |bytes|
      invariant EncodeOnto(result, if i <= |bytes| then bytes[i..] else [], alphabet, usePadding)
             == EncodeOnto("", bytes, alphabet, usePadding)
    {
      ghost var left := bytes[i..];
      var text := GroupText(bytes, i, alphabet, usePadding);
      assert i + 3 <= |bytes| ==> left[3..] == bytes[i + 3..];
      assert |left| <= 3 ==> left[..|left|] == left;
      result := result + text;
      i := i + 3;
    }
    EncodeOntoAppends("", bytes, alphabet, usePadding);
  }

  /** The body of that loop: the characters for the group at position `i`. */
  method GroupText(bytes: seq<uint8>, i: nat, alphabet: string, usePadding: bool) returns (text: string)
    requires |alphabet| == 64 && i < |bytes|
    ensures text == EncodeGroup(bytes[i..][..Min(3, |bytes| - i)], alphabet, usePadding)
  {
    var n: nat := 65536 * (bytes[i] as int);
    if i + 1 < |bytes| {
      n := n + 256 * (bytes[i + 1] as int);
    }
    if i + 2 < |bytes| {
      n := n + bytes[i + 2] as int;
    }
    assert n == Packed(bytes[i..][..Min(3, |bytes| - i)]);
    text := [alphabet[n / 262144 % 64]];
    text := text + [alphabet[n / 4096 % 64]];
    if i + 1 < |bytes| {
      text := text + [alphabet[n / 64 % 64]];
    } else if usePadding {
      text := text + "=";
    }
    if i + 2 < |bytes| {
      text := text + [alphabet[n % 64]];
    } else if usePadding {
      text := text + "=";
    }
  }

  // ---------------------------------------------------------------------------------------------
  // Decoding
  // ---------------------------------------------------------------------------------------------

  function IndexFrom(alphabet: string, c: char, from: nat): Option<nat>
    requires from <= |alphabet|
    decreases |alphabet| - from
  {
    if from == |alphabet| then None
    else if alphabet[from] == c then Some(from)
    else IndexFrom(alphabet, c, from + 1)
  }

  /** A character's 6-bit value. */
  function Sextet(alphabet: string, c: char): Option<nat> {
    IndexFrom(alphabet, c, 0)
  }

  lemma {:induction false} SextetOfLetter(alphabet: string, i: nat, from: nat)
    requires Proper(alphabet) && from <= i < 64
    ensures IndexFrom(alphabet, alphabet[i], from) == Some(i)
    decreases i - from
  {
    if from < i {
      SextetOfLetter(alphabet, i, from + 1);
    }
  }

  /** The bytes of two, three or four letters. */
  function DecodeLetters(text: string, alphabet: string): Option<seq<uint8>>
    requires 2 <= |text| <= 4
  {
    var a, b := Sextet(alphabet, text[0]), Sextet(alphabet, text[1]);
    var c := if |text| > 2 then Sextet(alphabet, text[2]) else Some(0);
    var d := if |text| > 3 then Sextet(alphabet, text[3]) else Some(0);
    if a.None? || b.None? || c.None? || d.None? then None
    else
      var n := 262144 * a.value + 4096 * b.value + 64 * c.value + d.value;
      Some([n / 65536 % 256, n / 256 % 256, n % 256][..|text| - 1])
  }

  /** The letters of a text's last group, without its padding. */
  function Unpadded(text: string): string {
    if |text| == 4 && text[3] == '=' then (if text[2] == '=' then text[..2] else text[..3]) else text
  }

  /** Groups of four letters; the last group may be padded or short. */
  function Decode(text: string, alphabet: string): Option<seq<uint8>> {
    if text == "" then Some([])
    else if |text| <= 4 then
      var letters := Unpadded(text);
      if |letters| < 2 then None else DecodeLetters(letters, alphabet)
    else
      var first, rest := DecodeLetters(text[..4], alphabet), Decode(text[4..], alphabet);
      if first.None? || rest.None? then None else Some(first.value + rest.value)
  }

  lemma LettersRoundTrip(group: seq<uint8>, alphabet: string)
    requires Proper(alphabet) && 1 <= |group| <= 3
    ensures |EncodeGroup(group, alphabet, false)| == |group| + 1
    ensures DecodeLetters(EncodeGroup(group, alphabet, false), alphabet) == Some(group)
  {
    var n := Packed(group);
    var text := EncodeGroup(group, alphabet, false);
    var a, b, c, d := n / 262144 % 64, n / 4096 % 64, n / 64 % 64, n % 64;
    assert Sextet(alphabet, text[0]) == Some(a) && Sextet(alphabet, text[1]) == Some(b) by {
      SextetOfLetter(alphabet, a, 0);
      SextetOfLetter(alphabet, b, 0);
    }
    assert |group| > 1 ==> Sextet(alphabet, text[2]) == Some(c) by {
      SextetOfLetter(alphabet, c, 0);
    }
    assert |group| > 2 ==> Sextet(alphabet, text[3]) == Some(d) by {
      SextetOfLetter(alphabet, d, 0);
    }
    LettersOfSextets(group, text, alphabet, a, b, c, d);
  }

  lemma LettersOfSextets(group: seq<uint8>, text: string, alphabet: string, a: nat, b: nat, c: nat, d: nat)
    requires 1 <= |group| <= 3 && |text| == |group| + 1
    requires var n := Packed(group);
             a == n / 262144 % 64 && b == n / 4096 % 64 && c == n / 64 % 64 && d == n % 64
    requires Sextet(alphabet, text[0]) == Some(a) && Sextet(alphabet, text[1]) == Some(b)
    requires |group| > 1 ==> Sextet(alphabet, text[2]) == Some(c)
    requires |group| > 2 ==> Sextet(alphabet, text[3]) == Some(d)
    ensures DecodeLetters(text, alphabet) == Some(group)
  {
    var n := Packed(group);
    SextetsMakeNumber(n);
    MissingBytesAreZero(group);
    assert n == 262144 * a + 4096 * b + 64 * c + d;
    BytesOfNumber(group);
    var bytes: seq<uint8> := [n / 65536 % 256, n / 256 % 256, n % 256];
    assert bytes[..|group|] == group;
  }

  /** A 24-bit number is made of its four 6-bit parts. */
  lemma SextetsMakeNumber(n: nat)
    requires n < 0x100_0000
    ensures n == 262144 * (n / 262144 % 64) + 4096 * (n / 4096 % 64) + 64 * (n / 64 % 64) + n % 64
  {
    assert n / 4096 == n / 64 / 64;
    assert n / 262144 == n / 64 / 64 / 64;
  }

  lemma MissingBytesAreZero(group: seq<uint8>)
    requires 1 <= |group| <= 3
    ensures |group| < 2 ==> Packed(group) / 64 % 64 == 0
    ensures |group| < 3 ==> Packed(group) % 64 == 0
  {
    if |group| == 1 {
      assert Packed(group) == 4096 * (16 * (group[0] as int));
    } else if |group| == 2 {
      assert Packed(group) == 64 * (1024 * (group[0] as int) + 4 * (group[1] as int));
    }
  }

  lemma BytesOfNumber(group: seq<uint8>)
    requires 1 <= |group| <= 3
    ensures Packed(group) / 65536 % 256 == group[0]
    ensures |group| > 1 ==> Packed(group) / 256 % 256 == group[1]
    ensures |group| > 2 ==> Packed(group) % 256 == group[2]
  {
    var n := Packed(group);
    assert n / 65536 == group[0];
    if |group| > 1 {
      assert n / 256 == 256 * (group[0] as int) + group[1] as int;
    }
  }

  lemma PaddingIsDropped(group: seq<uint8>, alphabet: string, pad: bool)
    requires Proper(alphabet) && 1 <= |group| <= 3
    ensures 2 <= |EncodeGroup(group, alphabet, pad)| <= 4
    ensures Unpadded(EncodeGroup(group, alphabet, pad)) == EncodeGroup(group, alphabet, false)
  {
    var n := Packed(group);
    assert alphabet[n % 64] != '=' && alphabet[n / 64 % 64] != '=';
  }

  /** Decoding the encoder's text gives the bytes back, for every length, padded or not. */
  lemma {:induction false} DecodeEncode(bytes: seq<uint8>, alphabet: string, pad: bool)
    requires Proper(alphabet)
    ensures Decode(Encode(bytes, alphabet, pad), alphabet) == Some(bytes)
    decreases |bytes|
  {
    if 0 < |bytes| <= 3 {
      PaddingIsDropped(bytes, alphabet, pad);
      LettersRoundTrip(bytes, alphabet);
    } else if |bytes| > 3 {
      var group, left := bytes[..3], bytes[3..];
      var head, tail := EncodeGroup(group, alphabet, pad), Encode(left, alphabet, pad);
      LettersRoundTrip(group, alphabet);
      DecodeEncode(left, alphabet, pad);
      assert head == EncodeGroup(group, alphabet, false);
      assert (head + tail)[..4] == head && (head + tail)[4..] == tail;
      assert bytes == group + left;
    }
  }

  lemma GroupLength(group: seq<uint8>, alphabet: string, pad: bool)
    requires |alphabet| == 64 && 1 <= |group| <= 3
    ensures |EncodeGroup(group, alphabet, pad)| == if pad then 4 else |group| + 1
  {
  }

  /** Padded text is four characters for every three bytes begun; unpadded text has no more than the bits need. */
  lemma {:induction false} EncodedLength(bytes: seq<uint8>, alphabet: string, pad: bool)
    requires |alphabet| == 64
    ensures |Encode(bytes, alphabet, pad)| == if pad then 4 * ((|bytes| + 2) / 3) else (4 * |bytes| + 2) / 3
    decreases |bytes|
  {
    if |bytes| > 3 {
      GroupLength(bytes[..3], alphabet, pad);
      EncodedLength(bytes[3..], alphabet, pad);
      assert (|bytes| + 2) / 3 == (|bytes[3..]| + 2) / 3 + 1;
      assert (4 * |bytes| + 2) / 3 == (4 * |bytes[3..]| + 2) / 3 + 4;
    } else if bytes != [] {
      GroupLength(bytes, alphabet, pad);
    }
  }
}
