/** Decimal text for integers: int.ToString() (the general format),
    int.ToString(mask) for the custom masks of '0' and '#' placeholders that
    rename tokens carry, and the digit strings int.Parse reads back. */
module Numbers {
  import opened Common

  predicate IsDigit(c: char) {
    '0' <= c <= '9'
  }

  predicate AllDigits(s: string) {
    forall i :: 0 <= i < |s| ==> IsDigit(s[i])
  }

  function DigitChar(d: nat): (c: char)
    requires d < 10
    ensures IsDigit(c) && c as int - '0' as int == d
  {
    ('0' as int + d) as char
  }

  function DigitValue(c: char): (d: nat)
    requires IsDigit(c)
    ensures d < 10 && DigitChar(d) == c
  {
    c as int - '0' as int
  }

  /** The significant decimal digits of n, most significant first; none for zero. */
  function Digits(n: nat): (s: string)
    ensures AllDigits(s)
    ensures n == 0 <==> s == []
    ensures n > 0 ==> s[0] != '0'
  {
    if n == 0 then [] else Digits(n / 10) + [DigitChar(n % 10)]
  }

  function Unsigned(n: nat): (s: string)
    ensures AllDigits(s) && |s| > 0
  {
    if n == 0 then "0" else Digits(n)
  }

  /** int.ToString() under a culture whose negative sign is '-': a '-' for
      negatives, then the digits. */
  function Decimal(v: int): string {
    if v < 0 then "-" + Unsigned(-v) else Unsigned(v)
  }

  /** The value of a string of decimal digits. */
  function ParseDigits(s: string): nat
    requires AllDigits(s)
  {
    if s == [] then 0 else 10 * ParseDigits(s[..|s| - 1]) + DigitValue(s[|s| - 1])
  }

  /** int.Parse on an optional '-' followed by decimal digits; None where
      int.Parse throws. */
  function ParseInt(s: string): Option<int> {
    if |s| > 0 && s[0] == '-' then
      if |s| > 1 && AllDigits(s[1..]) then Some(-(ParseDigits(s[1..]) as int)) else None
    else if |s| > 0 && AllDigits(s) then Some(ParseDigits(s))
    else None
  }

  lemma {:induction false} ParseDigitsOfDigits(n: nat)
    ensures ParseDigits(Digits(n)) == n
  {
    if n > 0 {
      var s := Digits(n);
      assert s[..|s| - 1] == Digits(n / 10);
      ParseDigitsOfDigits(n / 10);
    }
  }

  /** Reading a digit string without leading zeros and writing it back gives it again. */
  lemma {:induction false} DigitsOfParseDigits(s: string)
    requires AllDigits(s) && (s == [] || s[0] != '0')
    ensures Digits(ParseDigits(s)) == s
  {
    if s != [] {
      var p, d := s[..|s| - 1], DigitValue(s[|s| - 1]);
      var n := ParseDigits(s);
      assert n == 10 * ParseDigits(p) + d;
      if p == [] {
        assert d != 0;
        assert Digits(n) == Digits(0) + [DigitChar(d)];
      } else {
        assert p[0] == s[0];
        DigitsOfParseDigits(p);
        assert ParseDigits(p) > 0;
        assert n / 10 == ParseDigits(p) && n % 10 == d;
      }
      assert s == p + [s[|s| - 1]];
    }
  }

  function Zeros(k: nat): (z: string)
    ensures |z| == k
    ensures forall i :: 0 <= i < k ==> z[i] == '0'
  {
    if k == 0 then [] else "0" + Zeros(k - 1)
  }

  /** Leading zeros do not change the value read. */
  lemma {:induction false} ParseDigitsLeadingZeros(k: nat, s: string)
    requires AllDigits(s)
    ensures AllDigits(Zeros(k) + s)
    ensures ParseDigits(Zeros(k) + s) == ParseDigits(s)
  {
    var z := Zeros(k) + s;
    assert AllDigits(z) by {
      forall i | 0 <= i < |z| ensures IsDigit(z[i]) {
        if i >= k { assert z[i] == s[i - k]; }
      }
    }
    if s == [] {
      assert z == Zeros(k);
      if k > 0 {
        assert z[..|z| - 1] == Zeros(k - 1) + [];
        ParseDigitsLeadingZeros(k - 1, []);
        assert Zeros(k - 1) + [] == Zeros(k - 1);
      }
    } else {
      var p := s[..|s| - 1];
      assert z[..|z| - 1] == Zeros(k) + p;
      assert z[|z| - 1] == s[|s| - 1];
      ParseDigitsLeadingZeros(k, p);
    }
  }

  /** Left-pads with '0' to at least `width` characters. */
  function PadLeft(s: string, width: nat): (r: string)
    ensures |r| == if width > |s| then width else |s|
    ensures r == Zeros(|r| - |s|) + s
  {
    if width > |s| then Zeros(width - |s|) + s
    else assert Zeros(0) + s == s; s
  }

  predicate IsMaskChar(c: char) {
    c == '0' || c == '#'
  }

  /** A custom numeric format made only of '0' and '#' placeholders. */
  predicate IsMask(f: string) {
    forall i :: 0 <= i < |f| ==> IsMaskChar(f[i])
  }

  /** The number of digits a mask always shows: from its leftmost '0' to its end
      ('#' places show a digit only when it is significant). */
  function MinDigits(mask: string): (k: nat)
    ensures k <= |mask|
    ensures k > 0 <==> '0' in mask
    ensures k > 0 ==> mask[|mask| - k] == '0'
    ensures forall i :: 0 <= i < |mask| - k ==> mask[i] != '0'
  {
    match FirstIndex(mask, (c: char) => c == '0')
    case None => 0
    case Some(i) => |mask| - i
  }

  /** value.ToString(format) for the empty format (the general format, plain
      decimal) and for a custom mask of '0' and '#'. */
  function FormatNumber(v: int, format: string): (r: string)
    requires IsMask(format)
    ensures format == "" ==> r == Decimal(v)
    ensures format != "" ==> (v < 0 <==> |r| > 0 && r[0] == '-')
  {
    if format == "" then Decimal(v)
    else (if v < 0 then "-" else "") + PadLeft(Digits(if v < 0 then -v else v), MinDigits(format))
  }

  /** Decimal text reads back as the same number. */
  lemma DecimalRoundTrip(v: int)
    ensures ParseInt(Decimal(v)) == Some(v)
  {
    var n: nat := if v < 0 then -v else v;
    var u := Unsigned(n);
    assert ParseDigits(u) == n by {
      if n == 0 { assert ParseDigits(u) == 10 * ParseDigits([]) + 0; }
      else { ParseDigitsOfDigits(n); }
    }
    if v < 0 {
      assert Decimal(v)[1..] == u;
    }
  }

  lemma MinDigitsOfZeros(k: nat)
    requires k > 0
    ensures IsMask(Zeros(k))
    ensures MinDigits(Zeros(k)) == k
  {
    assert Zeros(k)[0] == '0';
  }

  lemma ZeroMaskRendersPadded(v: nat, k: nat)
    requires k > 0
    ensures FormatNumber(v, Zeros(k)) == PadLeft(Digits(v), k)
    ensures FormatNumber(v, Zeros(k)) == PadLeft(Unsigned(v), k)
  {
    MinDigitsOfZeros(k);
    var r := PadLeft(Digits(v), k);
    assert FormatNumber(v, Zeros(k)) == r;
    if v == 0 {
      ZerosSnoc(k);
      assert PadLeft(Unsigned(v), k) == Zeros(k - 1) + "0";
    }
  }

  /** Zero-padded digits read back as the value. */
  lemma PaddedDigitsReadBack(v: nat, k: nat)
    ensures AllDigits(PadLeft(Digits(v), k))
    ensures ParseDigits(PadLeft(Digits(v), k)) == v
  {
    var d := Digits(v);
    var r := PadLeft(d, k);
    ParseDigitsLeadingZeros(|r| - |d|, d);
    ParseDigitsOfDigits(v);
  }

  /** A mask of k zeros renders a non-negative value left-padded with zeros
      to at least k digits, and the padded text still reads as the value. */
  lemma ZeroMaskPads(v: nat, k: nat)
    requires k > 0
    ensures FormatNumber(v, Zeros(k)) == PadLeft(Unsigned(v), k)
    ensures AllDigits(FormatNumber(v, Zeros(k)))
    ensures ParseDigits(FormatNumber(v, Zeros(k))) == v
  {
    ZeroMaskRendersPadded(v, k);
    MinDigitsOfZeros(k);
    PaddedDigitsReadBack(v, k);
  }

  lemma {:induction false} ZerosSnoc(k: nat)
    requires k > 0
    ensures Zeros(k) == Zeros(k - 1) + "0"
  {
    if k > 1 {
      ZerosSnoc(k - 1);
      assert Zeros(k) == "0" + (Zeros(k - 2) + "0");
    }
  }

  /** Any rendering that shows at least one digit reads back as the value. */
  lemma FormatRoundTrip(v: int, format: string)
    requires IsMask(format)
    requires v != 0 || format == "" || MinDigits(format) > 0
    ensures ParseInt(FormatNumber(v, format)) == Some(v)
  {
    if format == "" {
      DecimalRoundTrip(v);
    } else {
      var n: nat := if v < 0 then -v else v;
      var p := PadLeft(Digits(n), MinDigits(format));
      PaddedDigitsReadBack(n, MinDigits(format));
      assert |p| > 0;
      if v < 0 {
        assert FormatNumber(v, format) == "-" + p;
        assert ("-" + p)[1..] == p;
      } else {
        assert FormatNumber(v, format) == p;
      }
    }
  }

  /** A mask with no '0' renders zero as the empty string. */
  lemma HashMaskHidesZero(format: string)
    requires IsMask(format) && format != "" && '0' !in format
    ensures FormatNumber(0, format) == ""
  {
  }

  /** 3 formatted with "00" is "03". */
  lemma FormatNumberExample()
    ensures FormatNumber(3, "00") == "03"
  {
    assert MinDigits("00") == 2;
    assert Digits(3) == [DigitChar(3)];
  }
}
