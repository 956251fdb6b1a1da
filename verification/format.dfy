/**
  The three library renderings `TxJson` relies on: `fmt`'s `%d` of an integer,
  `hex.EncodeToString` of a byte slice, and `strings.Join`. `Decimal` and
  `Hex` come with the parsers that undo them (`ParseDecimal`, `Unhex`).
  `Join` has no inverse, since a part may itself contain the separator; it is
  characterised by its length, its two ends and the two-part case.
*/
module Format {
  import opened Wrappers
  import opened GoInt

  predicate IsDigit(ch: char) {
    '0' <= ch <= '9'
  }

  predicate IsLowerHexDigit(ch: char) {
    IsDigit(ch) || 'a' <= ch <= 'f'
  }

  predicate AllDigits(s: string) {
    forall i :: 0 <= i < |s| ==> IsDigit(s[i])
  }

  /** The character of a digit value below 16: `0`-`9`, then lowercase `a`-`f`. */
  function DigitChar(d: nat): (ch: char)
    requires d < 16
    ensures d < 10 ==> IsDigit(ch)
    ensures IsLowerHexDigit(ch)
  {
    if d < 10 then ('0' as int + d) as char else ('a' as int + d - 10) as char
  }

  /** The value of a lowercase hex digit (of a decimal digit, too). */
  function DigitValue(ch: char): (v: nat)
    requires IsLowerHexDigit(ch)
    ensures v < 16 && DigitChar(v) == ch
    ensures IsDigit(ch) ==> v < 10
  {
    if IsDigit(ch) then (ch as int - '0' as int) as nat else (ch as int - 'a' as int + 10) as nat
  }

  lemma DigitValueOfChar(d: nat)
    requires d < 16
    ensures DigitValue(DigitChar(d)) == d
  {
  }

  /** The digits of `n` in base 10, most significant first, without leading zeros. */
  function NatDecimal(n: nat): (s: string)
    ensures |s| >= 1 && (|s| > 1 ==> s[0] != '0')
    ensures 0 < n ==> s[0] != '0'
    ensures AllDigits(s)
    decreases n
  {
    if n < 10 then [DigitChar(n)] else NatDecimal(n / 10) + [DigitChar(n % 10)]
  }

  /** `%d` of an integer: a minus sign before the digits of a negative one. */
  function Decimal(i: int): (s: string)
    ensures |s| >= 1
    ensures i < 0 ==> |s| >= 2 && s[0] == '-' && AllDigits(s[1..]) && s[1] != '0'
    ensures 0 <= i ==> AllDigits(s) && (|s| > 1 ==> s[0] != '0')
  {
    if i < 0 then
      assert ("-" + NatDecimal(-i))[1..] == NatDecimal(-i);
      "-" + NatDecimal(-i)
    else NatDecimal(i)
  }

  /** The value of a non-empty run of decimal digits. */
  function DigitsValue(s: string): (n: nat)
    requires |s| >= 1 && AllDigits(s)
    decreases |s|
  {
    var last := DigitValue(s[|s| - 1]);
    if |s| == 1 then last else DigitsValue(s[..|s| - 1]) * 10 + last
  }

  /** Reads back an integer written by `%d`; `None` for anything else. */
  function ParseDecimal(s: string): (r: Option<int>)
    ensures r.Some? ==> |s| >= 1
  {
    if |s| >= 2 && s[0] == '-' && AllDigits(s[1..]) then
      var magnitude: int := DigitsValue(s[1..]);
      Some(-magnitude)
    else if |s| >= 1 && AllDigits(s) then
      Some(DigitsValue(s))
    else None
  }

  lemma {:induction false} DigitsValueOfNatDecimal(n: nat)
    ensures DigitsValue(NatDecimal(n)) == n
    decreases n
  {
    if n >= 10 {
      var s := NatDecimal(n);
      assert s[..|s| - 1] == NatDecimal(n / 10);
      DigitsValueOfNatDecimal(n / 10);
    }
  }

  /** `%d` is undone by `ParseDecimal`. */
  lemma {:induction false} ParseDecimalOfDecimal(i: int)
    ensures ParseDecimal(Decimal(i)) == Some(i)
  {
    if i < 0 {
      ParseNegative(-i);
    } else {
      ParseNatural(i);
    }
  }

  /** The digits of `n` read back as `n`. */
  lemma ParseNatural(n: nat)
    ensures ParseDecimal(NatDecimal(n)) == Some(n)
  {
    var s := NatDecimal(n);
    assert IsDigit(s[0]);
    DigitsValueOfNatDecimal(n);
  }

  /** A minus sign before the digits of `n` reads back as `-n`. */
  lemma ParseNegative(n: nat)
    ensures ParseDecimal("-" + NatDecimal(n)) == Some(-(n as int))
  {
    var s := "-" + NatDecimal(n);
    assert s[1..] == NatDecimal(n);
    DigitsValueOfNatDecimal(n);
  }

  /** The two lowercase hex digits of one byte. */
  function HexByte(b: byte): (s: string)
    ensures |s| == 2 && IsLowerHexDigit(s[0]) && IsLowerHexDigit(s[1])
  {
    [DigitChar(b as nat / 16), DigitChar(b as nat % 16)]
  }

  /** `hex.EncodeToString`: two lowercase hex digits per byte, no prefix. */
  function Hex(bs: seq<byte>): (s: string)
    ensures |s| == 2 * |bs|
    ensures forall i :: 0 <= i < |s| ==> IsLowerHexDigit(s[i])
  {
    if bs == [] then "" else HexByte(bs[0]) + Hex(bs[1..])
  }

  /** Reads back the bytes of a lowercase hex string; `None` for anything else. */
  function Unhex(s: string): (r: Option<seq<byte>>)
    ensures r.Some? ==> 2 * |r.value| == |s|
    decreases |s|
  {
    if s == [] then Some([])
    else if |s| < 2 || !IsLowerHexDigit(s[0]) || !IsLowerHexDigit(s[1]) then None
    else
      match Unhex(s[2..])
      case None => None
      case Some(rest) => Some([(DigitValue(s[0]) * 16 + DigitValue(s[1])) as byte] + rest)
  }

  /** `hex.EncodeToString` is undone by `Unhex`. */
  lemma {:induction false} UnhexOfHex(bs: seq<byte>)
    ensures Unhex(Hex(bs)) == Some(bs)
  {
    if bs != [] {
      var s := Hex(bs);
      assert s[2..] == Hex(bs[1..]);
      UnhexOfHex(bs[1..]);
      var b := bs[0] as nat;
      DigitValueOfChar(b / 16);
      DigitValueOfChar(b % 16);
      assert (DigitValue(s[0]) * 16 + DigitValue(s[1])) as byte == bs[0];
      assert [bs[0]] + bs[1..] == bs;
    }
  }

  /** `strings.Join`: the parts with `sep` between each two neighbours. */
  function Join(parts: seq<string>, sep: string): (s: string)
    ensures |parts| == 0 ==> s == ""
    ensures |parts| == 1 ==> s == parts[0]
  {
    if |parts| <= 1 then (if parts == [] then "" else parts[0])
    else Join(parts[..|parts| - 1], sep) + sep + parts[|parts| - 1]
  }

  function TotalLength(parts: seq<string>): nat {
    if parts == [] then 0 else TotalLength(parts[..|parts| - 1]) + |parts[|parts| - 1]|
  }

  /** The separators add `|sep|` characters between each two neighbouring parts. */
  lemma {:induction false} JoinLength(parts: seq<string>, sep: string)
    requires |parts| >= 1
    ensures |Join(parts, sep)| == TotalLength(parts) + (|parts| - 1) * |sep|
  {
    if |parts| > 1 {
      JoinLength(parts[..|parts| - 1], sep);
    }
  }

  /** 500 renders as the three digits `500`, without sign or padding. */
  lemma DecimalExample()
    ensures Decimal(500) == "500"
  {
    assert NatDecimal(5) == "5";
    assert NatDecimal(50) == "50";
  }

  /** The bytes 0xab 0xcd render as `abcd`: lowercase, no prefix, no separator. */
  lemma HexExample()
    ensures Hex([0xAB, 0xCD]) == "abcd"
  {
    assert HexByte(0xAB) == "ab";
    assert HexByte(0xCD) == "cd";
    assert [0xAB, 0xCD][1..] == [0xCD as byte];
  }

  /** Two parts are joined by one separator. */
  lemma JoinPair(a: string, b: string, sep: string)
    ensures Join([a, b], sep) == a + sep + b
  {
    assert [a, b][..1] == [a];
  }

  /** Joining a non-empty list starts with its first part and ends with its last. */
  lemma {:induction false} JoinEnds(parts: seq<string>, sep: string)
    requires |parts| >= 1
    ensures var s := Join(parts, sep);
            |parts[0]| <= |s| && |parts[|parts| - 1]| <= |s| &&
            s[..|parts[0]|] == parts[0] && s[|s| - |parts[|parts| - 1]|..] == parts[|parts| - 1]
  {
    if |parts| > 1 {
      var init := parts[..|parts| - 1];
      JoinEnds(init, sep);
      assert init[0] == parts[0];
    }
  }
}
