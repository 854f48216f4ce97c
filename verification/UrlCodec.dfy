/** Percent-encoding of paths (sections 2.1 and 2.3 of RFC 3986) and the decoder that undoes it. */
module UrlCodec {
  import opened Basics

  /** One byte of a C string. */
  type char8 = c: char | c as int < 256

  // ---------------------------------------------------------------------------------------------
  // Encoding
  // ---------------------------------------------------------------------------------------------

  predicate IsAlnum(c: char) {
    'a' <= c <= 'z' || 'A' <= c <= 'Z' || '0' <= c <= '9'
  }

  /** The characters that stand for themselves. */
  predicate IsKept(c: char) {
    IsAlnum(c) || c == '-' || c == '_' || c == '.' || c == '~' || c == '/'
  }

  function HexChar(d: nat): char
    requires d < 16
  {
    if d < 10 then ('0' as int + d) as char else ('a' as int + d - 10) as char
  }

  function EncodeChar(c: char8): seq<char8> {
    if IsKept(c) then [c] else ['%', HexChar(c as int / 16), HexChar(c as int % 16)]
  }

  function Encode(s: seq<char8>): seq<char8> {
    if s == [] then [] else EncodeChar(s[0]) + Encode(s[1..])
  }

  lemma {:induction false} EncodeAppend(s: seq<char8>, c: char8)
    ensures Encode(s + [c]) == Encode(s) + EncodeChar(c)
  {
    if s == [] {
      assert Encode([c]) == EncodeChar(c) + Encode([]);
    } else {
      assert (s + [c])[0] == s[0] && (s + [c])[1..] == s[1..] + [c];
      EncodeAppend(s[1..], c);
    }
  }

  method UrlEncode(s: seq<char8>) returns (escaped: seq<char8>)
    ensures escaped == Encode(s)
  {
    escaped := [];
    for i := 0 to |s|
      invariant escaped == Encode(s[..i])
    {
      var c := s[i];
      EncodeAppend(s[..i], c);
      assert s[..i + 1] == s[..i] + [c];
      if IsKept(c) {
        escaped := escaped + [c];
      } else {
        escaped := escaped + ['%', HexChar(c as int / 16), HexChar(c as int % 16)];
      }
    }
    assert s[..|s|] == s;
  }

  // ---------------------------------------------------------------------------------------------
  // Decoding
  // ---------------------------------------------------------------------------------------------

  function HexValue(c: char): Option<nat> {
    if '0' <= c <= '9' then Some(c as int - '0' as int)
    else if 'a' <= c <= 'f' then Some(c as int - 'a' as int + 10)
    else if 'A' <= c <= 'F' then Some(c as int - 'A' as int + 10)
    else None
  }

  predicate IsSpace(c: char) {
    c == ' ' || 9 <= c as int <= 13
  }

  /** Reading a hexadecimal integer from a stream of two characters: leading white space is skipped, a sign is
      accepted, reading stops at the first character that is no digit, and a bare prefix "0x" is an error. */
  function ReadHex(c1: char, c2: char): Option<int> {
    if IsSpace(c1) then
      match HexValue(c2)
      case Some(d) => Some(d)
      case None => None
    else if c1 == '+' || c1 == '-' then
      match HexValue(c2)
      case Some(d) => Some(if c1 == '+' then d as int else 0 - d as int)
      case None => None
    else
      match HexValue(c1)
      case None => None
      case Some(h) =>
        if h == 0 && (c2 == 'x' || c2 == 'X') then None
        else
          match HexValue(c2)
          case Some(l) => Some(16 * h + l)
          case None => Some(h)
  }

  /** An integer cut to one character. */
  function Truncated(value: int): char8 {
    (value % 256) as char
  }

  function Decode(s: seq<char8>): seq<char8> {
    if s == [] then []
    else if s[0] == '%' && |s| > 2 then
      match ReadHex(s[1], s[2])
      case Some(value) => [Truncated(value)] + Decode(s[3..])
      case None => [s[0]] + Decode(s[1..])
    else if s[0] == '+' then [' '] + Decode(s[1..])
    else [s[0]] + Decode(s[1..])
  }

  method UrlDecode(s: seq<char8>) returns (decoded: seq<char8>)
    ensures decoded == Decode(s)
  {
    decoded := [];
    var i := 0;
    while i < |s|
      invariant i <= |s| && decoded + Decode(s[i..]) == Decode(s)
    {
      ghost var before, left := decoded, s[i..];
      var c := s[i];
      if s[i] == '%' && i + 2 < |s| {
        var value := ReadHex(s[i + 1], s[i + 2]);
        if value.Some? {
          c := Truncated(value.value);
          i := i + 2;
          assert left[3..] == s[i + 1..];
        }
      } else if s[i] == '+' {
        c := ' ';
      }
      i := i + 1;
      decoded := decoded + [c];
      Associative(before, [c], Decode(s[i..]));
    }
  }

  // ---------------------------------------------------------------------------------------------
  // Laws
  // ---------------------------------------------------------------------------------------------

  const LOWER_DIGITS: string := "0123456789abcdef"

  /** The unreserved characters (section 2.3 of RFC 3986) and the slash. */
  ghost predicate Kept(c: char) {
    || c in {'A', 'B', 'C', 'D', 'E', 'F', 'G', 'H', 'I', 'J', 'K', 'L', 'M', 'N', 'O', 'P', 'Q', 'R', 'S', 'T', 'U',
             'V', 'W', 'X', 'Y', 'Z'}
    || c in {'a', 'b', 'c', 'd', 'e', 'f', 'g', 'h', 'i', 'j', 'k', 'l', 'm', 'n', 'o', 'p', 'q', 'r', 's', 't', 'u',
             'v', 'w', 'x', 'y', 'z'}
    || c in {'0', '1', '2', '3', '4', '5', '6', '7', '8', '9', '-', '_', '.', '~', '/'}
  }

  lemma KeptIff(c: char)
    ensures IsKept(c) <==> Kept(c)
  {
  }

  lemma HexCharIsLower(d: nat)
    requires d < 16
    ensures HexChar(d) == LOWER_DIGITS[d]
  {
  }

  /** Which characters stand for themselves, and how all others are written. */
  lemma EncodesAs(c: char8)
    ensures Encode([c]) == if Kept(c) then [c] else ['%', LOWER_DIGITS[c as int / 16], LOWER_DIGITS[c as int % 16]]
  {
    KeptIff(c);
    HexCharIsLower(c as int / 16);
    HexCharIsLower(c as int % 16);
    assert Encode([c]) == EncodeChar(c) + Encode([]);
  }

  /** The value of a hexadecimal digit of either case, spelled out. */
  function DigitValue(c: char): Option<nat> {
    match c
    case '0' => Some(0)
    case '1' => Some(1)
    case '2' => Some(2)
    case '3' => Some(3)
    case '4' => Some(4)
    case '5' => Some(5)
    case '6' => Some(6)
    case '7' => Some(7)
    case '8' => Some(8)
    case '9' => Some(9)
    case 'a' => Some(10)
    case 'b' => Some(11)
    case 'c' => Some(12)
    case 'd' => Some(13)
    case 'e' => Some(14)
    case 'f' => Some(15)
    case 'A' => Some(10)
    case 'B' => Some(11)
    case 'C' => Some(12)
    case 'D' => Some(13)
    case 'E' => Some(14)
    case 'F' => Some(15)
    case _ => None
  }

  lemma HexValueIsSpelled(c: char)
    ensures HexValue(c) == DigitValue(c)
  {
  }

  /** The white space that reading a number skips: tab, line feed, vertical tab, form feed, return, space. */
  const SPACE: set<char> := {'\t', '\n', 11 as char, 12 as char, '\r', ' '}

  /** What two characters behind a percent sign stand for: two digits, the byte they spell; white space or a plus
      sign and a digit, the digit; a minus sign and a digit, the digit's negative as a byte; a digit and anything
      else, the digit, unless the two are 0 and x. */
  function EscapeValue(c1: char, c2: char): Option<int> {
    EscapeOf(c1, DigitValue(c1), c2, DigitValue(c2))
  }

  function EscapeOf(c1: char, d1: Option<nat>, c2: char, d2: Option<nat>): Option<int> {
    if d1.Some? && d2.Some? then Some(16 * d1.value + d2.value)
    else if d2.Some? && (c1 in SPACE || c1 == '+') then d2
    else if d2.Some? && c1 == '-' then Some(if d2.value == 0 then 0 else 256 - d2.value)
    else if d1.Some? && !(c1 == '0' && (c2 == 'x' || c2 == 'X')) then d1
    else None
  }

  lemma EscapeOfIsRead(c1: char, d1: Option<nat>, c2: char, d2: Option<nat>)
    requires d1 == HexValue(c1) && d2 == HexValue(c2)
    ensures match ReadHex(c1, c2)
            case Some(v) => EscapeOf(c1, d1, c2, d2) == Some(v % 256)
            case None => EscapeOf(c1, d1, c2, d2) == None
  {
    assert IsSpace(c1) <==> c1 in SPACE;
    assert d2.Some? ==> d2.value < 16;
  }

  /** Reading an escape, in digits of either case, gives the byte it stands for, or nothing if it stands for none. */
  lemma EscapeIsRead(c1: char, c2: char)
    ensures match ReadHex(c1, c2)
            case Some(v) => EscapeValue(c1, c2) == Some(v % 256)
            case None => EscapeValue(c1, c2) == None
  {
    HexValueIsSpelled(c1);
    HexValueIsSpelled(c2);
    EscapeOfIsRead(c1, HexValue(c1), c2, HexValue(c2));
  }

  /** How every text with a percent sign in front of two more characters is decoded. */
  lemma EscapeDecodes(c1: char8, c2: char8, rest: seq<char8>)
    ensures EscapeValue(c1, c2).Some? ==> 0 <= EscapeValue(c1, c2).value < 256
    ensures Decode(['%', c1, c2] + rest)
         == match EscapeValue(c1, c2)
            case Some(v) => [v as char] + Decode(rest)
            case None => ['%'] + Decode([c1, c2] + rest)
  {
    EscapeIsRead(c1, c2);
    var s := ['%', c1, c2] + rest;
    assert s[3..] == rest && s[1..] == [c1, c2] + rest;
  }

  /** How every other text is: a plus sign stands for a space, anything else for itself. */
  lemma OtherDecodes(c: char8, rest: seq<char8>)
    requires c == '%' ==> |rest| < 2
    ensures Decode([c] + rest) == [if c == '+' then ' ' else c] + Decode(rest)
  {
    assert ([c] + rest)[1..] == rest;
  }

  /** Any percent-encoding of `s`: each character is written as itself, unless it is a percent or plus sign, or as
      an escape with digits of either case, and a space as a plus sign too. */
  ghost predicate Spells(text: seq<char8>, s: seq<char8>)
    decreases |s|
  {
    if s == [] then text == []
    else
      || (text != [] && text[0] == s[0] && s[0] != '%' && s[0] != '+' && Spells(text[1..], s[1..]))
      || (text != [] && text[0] == '+' && s[0] == ' ' && Spells(text[1..], s[1..]))
      || (|text| > 2 && text[0] == '%' && DigitValue(text[1]) == Some(s[0] as int / 16)
          && DigitValue(text[2]) == Some(s[0] as int % 16) && Spells(text[3..], s[1..]))
  }

  /** Decoding undoes every percent-encoding, whoever wrote it. */
  lemma {:induction false} SpellingDecodes(text: seq<char8>, s: seq<char8>)
    requires Spells(text, s)
    ensures Decode(text) == s
    decreases |s|
  {
    if s != [] {
      if text[0] == '%' {
        DigitsAreRead(text[1], text[2], s[0]);
        FullEscapeDecodes(text, s[0]);
        SpellingDecodes(text[3..], s[1..]);
      } else {
        SpellingDecodes(text[1..], s[1..]);
      }
      assert s == [s[0]] + s[1..];
    }
  }

  lemma FullEscapeDecodes(text: seq<char8>, c: char8)
    requires |text| > 2 && text[0] == '%' && ReadHex(text[1], text[2]) == Some(c as int)
    ensures Decode(text) == [c] + Decode(text[3..])
  {
  }

  lemma DigitsAreRead(c1: char, c2: char, c: char8)
    requires DigitValue(c1) == Some(c as int / 16) && DigitValue(c2) == Some(c as int % 16)
    ensures ReadHex(c1, c2) == Some(c as int)
  {
    HexValueIsSpelled(c1);
    HexValueIsSpelled(c2);
  }

  /** The encoder writes one of them. */
  lemma {:induction false} EncodingSpells(s: seq<char8>)
    ensures Spells(Encode(s), s)
  {
    if s != [] {
      EncodingSpells(s[1..]);
      var t := EncodeChar(s[0]);
      assert Encode(s)[|t|..] == Encode(s[1..]);
      HexCharValue(s[0] as int / 16);
      HexCharValue(s[0] as int % 16);
      HexValueIsSpelled(HexChar(s[0] as int / 16));
      HexValueIsSpelled(HexChar(s[0] as int % 16));
    }
  }

  lemma HexCharValue(d: nat)
    requires d < 16
    ensures HexValue(HexChar(d)) == Some(d)
    ensures HexChar(d) != 'x' && HexChar(d) != 'X' && HexChar(d) != '+' && HexChar(d) != '-' && !IsSpace(HexChar(d))
  {
  }

  /** Decoding undoes encoding, for every byte string. */
  lemma {:induction false} DecodeEncode(s: seq<char8>)
    ensures Decode(Encode(s)) == s
  {
    EncodingSpells(s);
    SpellingDecodes(Encode(s), s);
  }

  /** So different strings never share an encoding. */
  lemma EncodeIsInjective(s: seq<char8>, t: seq<char8>)
    requires Encode(s) == Encode(t)
    ensures s == t
  {
    DecodeEncode(s);
    DecodeEncode(t);
  }

  /** The text is a run of kept characters and complete escapes. */
  predicate WellFormed(text: seq<char8>) {
    text == [] || (IsKept(text[0]) && WellFormed(text[1..])) ||
    (text[0] == '%' && |text| > 2 && HexValue(text[1]).Some? && HexValue(text[2]).Some? && WellFormed(text[3..]))
  }

  /** The encoder writes only kept characters and complete two-digit escapes; in particular the decoder meets
      neither a plus sign nor a broken escape. */
  lemma {:induction false} EncodingIsWellFormed(s: seq<char8>)
    ensures WellFormed(Encode(s)) && '+' !in Encode(s)
  {
    if s != [] {
      var t := Encode(s);
      EncodingIsWellFormed(s[1..]);
      if IsKept(s[0]) {
        assert t[1..] == Encode(s[1..]);
      } else {
        HexCharValue(s[0] as int / 16);
        HexCharValue(s[0] as int % 16);
        assert t[3..] == Encode(s[1..]);
      }
    }
  }

  // ---------------------------------------------------------------------------------------------
  // Text that the encoder did not write
  // ---------------------------------------------------------------------------------------------

  predicate IsHex(c: char) {
    HexValue(c).Some?
  }

  /** A decoder that takes only escapes of two hexadecimal digits, and every other percent sign for itself. */
  function StrictDecode(s: seq<char8>): seq<char8> {
    if s == [] then []
    else if s[0] == '%' && |s| > 2 && IsHex(s[1]) && IsHex(s[2]) then
      [Truncated(16 * HexValue(s[1]).value + HexValue(s[2]).value)] + StrictDecode(s[3..])
    else if s[0] == '+' then [' '] + StrictDecode(s[1..])
    else [s[0]] + StrictDecode(s[1..])
  }

  /** Two characters that are not both digits and yet are read as a number: white space or a sign in front of a
      digit, or a digit in front of anything else (but for the prefix of a hexadecimal number). */
  predicate IsLax(c1: char, c2: char) {
    || ((IsSpace(c1) || c1 == '+' || c1 == '-') && IsHex(c2))
    || (IsHex(c1) && !IsHex(c2) && !(c1 == '0' && (c2 == 'x' || c2 == 'X')))
  }

  predicate LaxAt(s: seq<char8>, i: nat)
    requires i < |s|
  {
    s[i] == '%' && i + 2 < |s| && IsLax(s[i + 1], s[i + 2])
  }

  /** A lax escape never yields a percent sign, so it cannot be mistaken for one that was left alone. */
  lemma LaxIsNotPercent(c1: char, c2: char)
    requires IsLax(c1, c2)
    ensures Truncated(ReadHex(c1, c2).value) != '%'
  {
  }

  lemma LaxInTail(s: seq<char8>, k: nat)
    requires k <= |s| && forall i: nat :: i < k ==> !LaxAt(s, i)
    ensures (exists i: nat :: i < |s| && LaxAt(s, i)) <==> exists i: nat :: i < |s[k..]| && LaxAt(s[k..], i)
  {
    forall i: nat | i < |s[k..]|
      ensures LaxAt(s[k..], i) <==> LaxAt(s, k + i)
    {
    }
    forall i: nat | k <= i < |s|
      ensures LaxAt(s, i) <==> LaxAt(s[k..], i - k)
    {
    }
  }

  /** For every text, written by the encoder or not, the decoder agrees with the strict one exactly when no
      percent sign stands before two characters that are read laxly. */
  lemma {:induction false} DecodeIsStrictIff(s: seq<char8>)
    ensures Decode(s) == StrictDecode(s) <==> !exists i: nat :: i < |s| && LaxAt(s, i)
  {
    if s != [] {
      if LaxAt(s, 0) {
        LaxIsNotPercent(s[1], s[2]);
        assert Decode(s)[0] != StrictDecode(s)[0];
      } else {
        var k := if s[0] == '%' && |s| > 2 && IsHex(s[1]) && IsHex(s[2]) && ReadHex(s[1], s[2]).Some? then 3 else 1;
        LaxInTail(s, k);
        DecodeIsStrictIff(s[k..]);
        assert Decode(s)[1..] == Decode(s[k..]) && StrictDecode(s)[1..] == StrictDecode(s[k..]);
        assert Decode(s) == [Decode(s)[0]] + Decode(s[k..]);
        assert StrictDecode(s) == [StrictDecode(s)[0]] + StrictDecode(s[k..]);
      }
    }
  }
}
