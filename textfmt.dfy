/** Number-to-text formatting shared by the firmware and the tools:
    two-digit hexadecimal bytes (`%02X`, `toString(16).padStart(2, '0')`)
    and unsigned decimal (`%u`). */
module TextFormat {
  import opened Bytes

  predicate IsAscii(s: string)
  {
    forall i | 0 <= i < |s| :: s[i] as int < 128
  }

  /** A digit, or a letter a-f in the requested case. */
  predicate IsHexDigit(c: char, upper: bool)
  {
    '0' <= c <= '9' || (upper && 'A' <= c <= 'F') || (!upper && 'a' <= c <= 'f')
  }

  /** The hexadecimal digit of a nibble, in upper or lower case. */
  function HexDigit(n: nat, upper: bool): (c: char)
    requires n < 16
    ensures c as int < 128 && IsHexDigit(c, upper)
  {
    if n < 10 then ('0' as int + n) as char
    else if upper then ('A' as int + n - 10) as char
    else ('a' as int + n - 10) as char
  }

  /** The nibble a hexadecimal digit stands for (either case); -1 for other characters. */
  function HexValue(c: char): (n: int)
    ensures -1 <= n < 16
  {
    if '0' <= c <= '9' then c as int - '0' as int
    else if 'A' <= c <= 'F' then c as int - 'A' as int + 10
    else if 'a' <= c <= 'f' then c as int - 'a' as int + 10
    else -1
  }

  lemma HexValueOfDigit(n: nat, upper: bool)
    requires n < 16
    ensures HexValue(HexDigit(n, upper)) == n
  {
  }

  /** A byte as exactly two hexadecimal digits, high nibble first. */
  function HexPair(b: byte, upper: bool): (r: string)
    ensures |r| == 2 && IsAscii(r)
    ensures IsHexDigit(r[0], upper) && IsHexDigit(r[1], upper)
  {
    [HexDigit(b as int / 16, upper), HexDigit(b as int % 16, upper)]
  }

  /** Reads back a two-digit hexadecimal byte. */
  function ParseHexPair(s: string): (b: int)
    requires |s| == 2
    ensures -17 <= b < 256
  {
    HexValue(s[0]) * 16 + HexValue(s[1])
  }

  lemma HexPairRoundTrip(b: byte, upper: bool)
    ensures ParseHexPair(HexPair(b, upper)) == b as int
  {
    HexValueOfDigit(b as int / 16, upper);
    HexValueOfDigit(b as int % 16, upper);
  }

  /** Distinct bytes give distinct digit pairs. */
  lemma HexPairInjective(a: byte, b: byte, upper: bool)
    requires HexPair(a, upper) == HexPair(b, upper)
    ensures a == b
  {
    HexPairRoundTrip(a, upper);
    HexPairRoundTrip(b, upper);
  }

  function DecimalDigit(n: nat): (c: char)
    requires n < 10
    ensures '0' <= c <= '9'
  {
    ('0' as int + n) as char
  }

  /** A natural number in decimal, without leading zeros. */
  function Decimal(n: nat): (r: string)
    ensures 1 <= |r| && IsAscii(r)
    ensures forall i | 0 <= i < |r| :: '0' <= r[i] <= '9'
    ensures |r| > 1 ==> r[0] != '0'
    ensures n < 10 ==> |r| == 1
    ensures n < 100 ==> |r| <= 2
    ensures n < 1000 ==> |r| <= 3
  {
    if n < 10 then [DecimalDigit(n)] else Decimal(n / 10) + [DecimalDigit(n % 10)]
  }

  /** The number a string of decimal digits stands for. */
  function DecimalValue(s: string): (n: int)
  {
    if s == [] then 0 else DecimalValue(s[..|s| - 1]) * 10 + (s[|s| - 1] as int - '0' as int)
  }

  lemma {:induction false} DecimalRoundTrip(n: nat)
    ensures DecimalValue(Decimal(n)) == n
  {
    if n >= 10 {
      var r := Decimal(n);
      assert r[..|r| - 1] == Decimal(n / 10);
      DecimalRoundTrip(n / 10);
    }
  }

  /** A signed integer in decimal, as `%d` and JSON print it. */
  function SignedDecimal(i: int): (r: string)
    ensures IsAscii(r)
  {
    if i < 0 then "-" + Decimal(-i) else Decimal(i)
  }

  /** Bytes as two-digit hexadecimal pairs joined by one separator character:
      position i holds the separator when i % 3 == 2, else digit i % 3 of byte i / 3. */
  function HexJoin(bytes: seq<byte>, sep: char, upper: bool): (r: string)
    ensures |r| == if bytes == [] then 0 else 3 * |bytes| - 1
  {
    if bytes == [] then ""
    else
      seq(3 * |bytes| - 1, i requires 0 <= i < 3 * |bytes| - 1 =>
        if i % 3 == 2 then sep else HexPair(bytes[i / 3], upper)[i % 3])
  }

  lemma DivThree(k: nat)
    ensures (3 * k) / 3 == k && (3 * k) % 3 == 0
    ensures (3 * k + 1) / 3 == k && (3 * k + 1) % 3 == 1
    ensures (3 * k + 2) % 3 == 2
  {
  }

  /** Byte k is the pair at 3k, followed by the separator unless it is the last. */
  lemma HexJoinAt(bytes: seq<byte>, sep: char, upper: bool, k: nat)
    requires k < |bytes|
    ensures HexJoin(bytes, sep, upper)[3 * k..3 * k + 2] == HexPair(bytes[k], upper)
    ensures k < |bytes| - 1 ==> HexJoin(bytes, sep, upper)[3 * k + 2] == sep
  {
    var r, p := HexJoin(bytes, sep, upper), HexPair(bytes[k], upper);
    DivThree(k);
    var i := 3 * k;
    assert r[i] == HexPair(bytes[i / 3], upper)[i % 3];
    assert r[i + 1] == HexPair(bytes[(i + 1) / 3], upper)[(i + 1) % 3];
    assert r[i..i + 2] == [p[0], p[1]];
    if k < |bytes| - 1 {
      assert r[i + 2] == sep;
    }
  }

  /** Byte sequences of one length with the same text are equal. */
  lemma HexJoinInjective(a: seq<byte>, b: seq<byte>, sep: char, upper: bool)
    requires |a| == |b| && HexJoin(a, sep, upper) == HexJoin(b, sep, upper)
    ensures a == b
  {
    forall k | 0 <= k < |a|
      ensures a[k] == b[k]
    {
      HexJoinAt(a, sep, upper, k);
      HexJoinAt(b, sep, upper, k);
      HexPairInjective(a[k], b[k], upper);
    }
  }

  /** Reads back the pairs of a joined hexadecimal text, skipping the separators. */
  function HexSplit(s: string): (r: seq<int>)
    ensures |r| == (|s| + 1) / 3
  {
    seq((|s| + 1) / 3, k requires 0 <= k < (|s| + 1) / 3 => ParseHexPair(s[3 * k..3 * k + 2]))
  }

  /** `HexSplit` undoes `HexJoin`, whatever the separator and the case. */
  lemma HexSplitJoin(bytes: seq<byte>, sep: char, upper: bool)
    ensures HexSplit(HexJoin(bytes, sep, upper)) == seq(|bytes|, k requires 0 <= k < |bytes| => bytes[k] as int)
  {
    var r := HexSplit(HexJoin(bytes, sep, upper));
    if bytes != [] {
      assert (3 * |bytes| - 1 + 1) / 3 == |bytes|;
    }
    forall k | 0 <= k < |bytes|
      ensures r[k] == bytes[k] as int
    {
      HexJoinAt(bytes, sep, upper, k);
      HexPairRoundTrip(bytes[k], upper);
    }
  }
}
