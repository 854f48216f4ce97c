/** Bytes, and 32-bit numbers as four bytes. */
module Bytes {
  type uint8 = b: nat | b < 256

  const U32_COUNT: nat := 0x1_0000_0000

  /** The lowest `k` base-256 digits of `n`, least significant first. */
  function Digits(n: nat, k: nat): (s: seq<uint8>)
    ensures |s| == k
  {
    if k == 0 then [] else [n % 256] + Digits(n / 256, k - 1)
  }

  function FromDigits(s: seq<uint8>): nat {
    if s == [] then 0 else s[0] as int + 256 * FromDigits(s[1..])
  }

  function Pow256(k: nat): nat {
    if k == 0 then 1 else 256 * Pow256(k - 1)
  }

  lemma {:induction false} DigitsRoundTrip(n: nat, k: nat)
    requires n < Pow256(k)
    ensures FromDigits(Digits(n, k)) == n
  {
    if k > 0 {
      DigitsRoundTrip(n / 256, k - 1);
      assert Digits(n, k)[1..] == Digits(n / 256, k - 1);
    }
  }

  lemma {:induction false} DigitsAreOnto(s: seq<uint8>)
    ensures FromDigits(s) < Pow256(|s|)
    ensures Digits(FromDigits(s), |s|) == s
  {
    if s != [] {
      DigitsAreOnto(s[1..]);
      assert FromDigits(s) / 256 == FromDigits(s[1..]) && FromDigits(s) % 256 == s[0];
    }
  }

  /** Least significant byte first: how a host of that byte order copies a 32-bit number into a packet. */
  function LittleEndian(n: nat): (s: seq<uint8>)
    requires n < U32_COUNT
    ensures |s| == 4
  {
    Digits(n, 4)
  }

  function FromLittleEndian(s: seq<uint8>): (n: nat)
    requires |s| == 4
    ensures n < U32_COUNT
  {
    DigitsAreOnto(s);
    assert Pow256(4) == 256 * (256 * (256 * (256 * Pow256(0))));
    FromDigits(s)
  }

  lemma LittleEndianRoundTrip(n: nat)
    requires n < U32_COUNT
    ensures FromLittleEndian(LittleEndian(n)) == n
  {
    assert Pow256(4) == 256 * (256 * (256 * (256 * Pow256(0))));
    DigitsRoundTrip(n, 4);
  }

  lemma LittleEndianIsOnto(s: seq<uint8>)
    requires |s| == 4
    ensures LittleEndian(FromLittleEndian(s)) == s
  {
    DigitsAreOnto(s);
  }

  /** Network order, most significant byte first. */
  function BigEndian(n: nat): (s: seq<uint8>)
    requires n < U32_COUNT
    ensures |s| == 4
  {
    var le := LittleEndian(n);
    [le[3], le[2], le[1], le[0]]
  }

  function FromBigEndian(s: seq<uint8>): (n: nat)
    requires |s| == 4
    ensures n < U32_COUNT
  {
    FromLittleEndian([s[3], s[2], s[1], s[0]])
  }

  lemma BigEndianRoundTrip(n: nat)
    requires n < U32_COUNT
    ensures FromBigEndian(BigEndian(n)) == n
  {
    var le, be := LittleEndian(n), BigEndian(n);
    assert [be[3], be[2], be[1], be[0]] == le;
    LittleEndianRoundTrip(n);
  }

  /** The first byte counts most. */
  lemma BigEndianIsNetworkOrder(n: nat)
    requires n < U32_COUNT
    ensures var b := BigEndian(n);
            n == 0x100_0000 * (b[0] as int) + 0x1_0000 * (b[1] as int) + 0x100 * (b[2] as int) + b[3] as int
  {
    var le := LittleEndian(n);
    LittleEndianRoundTrip(n);
    assert FromDigits(le) == le[0] as int + 256 * FromDigits(le[1..]);
    assert FromDigits(le[1..]) == le[1] as int + 256 * FromDigits(le[2..]) by { assert le[1..][1..] == le[2..]; }
    assert FromDigits(le[2..]) == le[2] as int + 256 * FromDigits(le[3..]) by { assert le[2..][1..] == le[3..]; }
    assert FromDigits(le[3..]) == le[3] by { assert le[3..][1..] == []; }
  }

  /** All elements of a sequence of byte strings, end to end. */
  function Concat(parts: seq<seq<uint8>>): seq<uint8> {
    if parts == [] then [] else parts[0] + Concat(parts[1..])
  }

  lemma {:induction false} ConcatAppend(parts: seq<seq<uint8>>, last: seq<uint8>)
    ensures Concat(parts + [last]) == Concat(parts) + last
  {
    if parts == [] {
      assert parts + [last] == [last];
      assert Concat([last]) == last + Concat([]);
    } else {
      assert (parts + [last])[1..] == parts[1..] + [last];
      ConcatAppend(parts[1..], last);
    }
  }
}
