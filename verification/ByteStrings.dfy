/** Byte strings and the number encodings used in them. */
module ByteStrings {

  newtype byte = x: int | 0 <= x < 256
  type Bytes = seq<byte>

  function Power(base: nat, exponent: nat): nat {
    if exponent == 0 then 1 else base * Power(base, exponent - 1)
  }

  // int.to_bytes(width, "big")
  function BigEndian(n: nat, width: nat): (s: Bytes)
    ensures |s| == width
  {
    if width == 0 then [] else BigEndian(n / 256, width - 1) + [(n % 256) as byte]
  }

  function FromBigEndian(s: Bytes): nat {
    if |s| == 0 then 0 else FromBigEndian(s[..|s| - 1]) * 256 + s[|s| - 1] as nat
  }

  lemma {:induction false} BigEndianRoundTrip(n: nat, width: nat)
    requires n < Power(256, width)
    ensures FromBigEndian(BigEndian(n, width)) == n
  {
    if width > 0 {
      BigEndianRoundTrip(n / 256, width - 1);
      var s := BigEndian(n, width);
      assert s[..|s| - 1] == BigEndian(n / 256, width - 1);
    }
  }

  // str(n).encode("ascii")
  function Decimal(n: nat): (s: Bytes)
    ensures |s| > 0
  {
    if n < 10 then [(48 + n) as byte] else Decimal(n / 10) + [(48 + n % 10) as byte]
  }

  function FromDecimal(s: Bytes): int {
    if |s| == 0 then 0 else FromDecimal(s[..|s| - 1]) * 10 + s[|s| - 1] as int - 48
  }

  lemma {:induction false} DecimalRoundTrip(n: nat)
    ensures FromDecimal(Decimal(n)) == n
  {
    var s := Decimal(n);
    if n < 10 {
      assert FromDecimal(s[..0]) == 0;
    } else {
      DecimalRoundTrip(n / 10);
      assert s[..|s| - 1] == Decimal(n / 10);
    }
  }
}
