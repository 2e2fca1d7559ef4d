/** Serial numbers as hexadecimal text. The issuing side prints a serial with `%X`; the OCSP responder
    looks it up by upper-casing base-16 text; the CRL builder parses the stored text back. */
module SerialText {
  import opened Prelude

  const UPPER := "0123456789ABCDEF"
  const LOWER := "0123456789abcdef"

  /** `fmt.Sprintf("%X", n)` for a serial drawn by `randomSerial`. */
  function HexUpper(n: nat): (s: string)
    ensures |s| > 0
  {
    if n < 16 then [UPPER[n]] else HexUpper(n / 16) + [UPPER[n % 16]]
  }

  lemma {:induction false} OnlyDigits(n: nat)
    ensures forall c :: c in HexUpper(n) ==> c in UPPER
  {
    if n < 16 {
    } else {
      OnlyDigits(n / 16);
    }
  }

  function HexLower(n: nat): string {
    if n < 16 then [LOWER[n]] else HexLower(n / 16) + [LOWER[n % 16]]
  }

  /** `x.Text(16)`: a request may carry any integer, so a sign is possible. */
  function Text16(x: int): string {
    if x < 0 then "-" + HexLower(-x) else HexLower(x)
  }

  function UpperChar(c: char): char {
    if 'a' <= c <= 'z' then c - 'a' + 'A' else c
  }

  function ToUpper(s: string): (t: string)
    ensures |t| == |s|
  {
    if s == "" then "" else ToUpper(s[..|s| - 1]) + [UpperChar(s[|s| - 1])]
  }

  function DigitValue(c: char): Option<nat> {
    if '0' <= c <= '9' then Some((c - '0') as nat)
    else if 'A' <= c <= 'F' then Some((c - 'A') as nat + 10)
    else if 'a' <= c <= 'f' then Some((c - 'a') as nat + 10)
    else None
  }

  /** Digits read most significant first; `None` for the empty string or a character that is no digit. */
  function ParseDigits(s: string): Option<nat> {
    if s == "" then None
    else
      var last := DigitValue(s[|s| - 1]);
      if last.None? then None
      else if |s| == 1 then last
      else
        var front := ParseDigits(s[..|s| - 1]);
        if front.None? then None else Some(16 * front.value + last.value)
  }

  /** `big.Int.SetString(s, 16)`: an optional sign, then digits of either case. */
  function SetString16(s: string): Option<int> {
    if s != "" && s[0] == '-' then
      var digits := ParseDigits(s[1..]);
      if digits.None? then None
      else
        var magnitude: int := digits.value;
        Some(-magnitude)
    else
      var unsigned := if s != "" && s[0] == '+' then s[1..] else s;
      var digits := ParseDigits(unsigned);
      if digits.None? then None else Some(digits.value)
  }

  lemma DigitRoundTrip(d: nat)
    requires d < 16
    ensures DigitValue(UPPER[d]) == Some(d)
  {
  }

  lemma ParseStep(front: string, last: char, value: nat, digit: nat)
    requires front != "" && ParseDigits(front) == Some(value) && DigitValue(last) == Some(digit)
    ensures ParseDigits(front + [last]) == Some(16 * value + digit)
  {
  }

  lemma {:induction false} ParsePrinted(n: nat)
    ensures ParseDigits(HexUpper(n)) == Some(n)
  {
    var front, last := n / 16, n % 16;
    DigitRoundTrip(last);
    if n < 16 {
      assert HexUpper(n) == [UPPER[last]];
    } else {
      ParsePrinted(front);
      assert HexUpper(n) == HexUpper(front) + [UPPER[last]];
      ParseStep(HexUpper(front), UPPER[last], front, last);
    }
  }

  /** Parsing what was printed recovers the number, for every serial. */
  lemma {:induction false} RoundTrip(n: nat)
    ensures SetString16(HexUpper(n)) == Some(n)
  {
    ParsePrinted(n);
    OnlyDigits(n);
    assert HexUpper(n)[0] in UPPER;
  }

  lemma {:induction false} PrintInjective(m: nat, n: nat)
    requires HexUpper(m) == HexUpper(n)
    ensures m == n
  {
    RoundTrip(m);
    RoundTrip(n);
  }

  lemma UpperDigit(d: nat)
    requires d < 16
    ensures UpperChar(LOWER[d]) == UPPER[d]
  {
  }

  lemma ToUpperAppend(s: string, c: char)
    ensures ToUpper(s + [c]) == ToUpper(s) + [UpperChar(c)]
  {
    assert (s + [c])[..|s|] == s;
  }

  lemma {:induction false} ToUpperOfLower(n: nat)
    ensures ToUpper(HexLower(n)) == HexUpper(n)
  {
    UpperDigit(n % 16);
    if n < 16 {
      ToUpperAppend("", LOWER[n]);
      assert "" + [LOWER[n]] == HexLower(n);
    } else {
      ToUpperOfLower(n / 16);
      ToUpperAppend(HexLower(n / 16), LOWER[n % 16]);
    }
  }

  lemma {:induction false} ToUpperKeepsMinus(s: string)
    requires s != "" && s[0] == '-'
    ensures ToUpper(s)[0] == '-'
  {
    if |s| > 1 {
      ToUpperKeepsMinus(s[..|s| - 1]);
    }
  }

  /** The digits as the program prints them. */
  lemma HexExample()
    ensures HexUpper(0) == "0" && HexUpper(0xBEEF) == "BEEF" && HexUpper(0x12AC) == "12AC"
  {
    assert HexUpper(0xB) == "B" && HexUpper(0xBE) == "BE" && HexUpper(0xBEE) == "BEE";
    assert HexUpper(0x1) == "1" && HexUpper(0x12) == "12" && HexUpper(0x12A) == "12A";
  }

  /** The two spellings agree exactly on the same number: the responder's text for any requested integer equals
      the stored text of a serial precisely when they are the same number, so a negative request finds nothing. */
  lemma {:induction false} LookupTextAgrees(requested: int, stored: nat)
    ensures ToUpper(Text16(requested)) == HexUpper(stored) <==> requested == stored
  {
    if requested < 0 {
      ToUpperKeepsMinus(Text16(requested));
      OnlyDigits(stored);
      assert HexUpper(stored)[0] in UPPER;
    } else {
      ToUpperOfLower(requested);
      if HexUpper(requested) == HexUpper(stored) {
        PrintInjective(requested, stored);
      }
    }
  }

  function Pow16(k: nat): (p: nat)
    ensures p > 0
  {
    if k == 0 then 1 else 16 * Pow16(k - 1)
  }

  /** `k` digits are enough exactly for the numbers below 16^k. */
  lemma {:induction false} DigitCount(n: nat, k: nat)
    requires k > 0
    ensures |HexUpper(n)| <= k <==> n < Pow16(k)
  {
    if k == 1 {
      assert Pow16(1) == 16 * Pow16(0) == 16;
    } else if n < 16 {
      DigitCount(n, 1);
      assert Pow16(k) == 16 * Pow16(k - 1);
    } else {
      DigitCount(n / 16, k - 1);
      assert Pow16(k) == 16 * Pow16(k - 1);
    }
  }

  /** The contents octets of a DER INTEGER holding a non-negative number, most significant first. */
  function DerOctets(n: nat): (octets: seq<nat>)
    ensures |octets| > 0
    ensures forall i :: 0 <= i < |octets| ==> octets[i] < 256
    ensures octets[0] < 128
  {
    if n < 128 then [n] else DerOctets(n / 256) + [n % 256]
  }

  function OctetsValue(octets: seq<nat>): nat {
    if octets == [] then 0 else 256 * OctetsValue(octets[..|octets| - 1]) + octets[|octets| - 1]
  }

  function Pow256(k: nat): (p: nat)
    ensures p > 0
  {
    if k == 0 then 1 else 256 * Pow256(k - 1)
  }

  lemma {:induction false} DerRoundTrip(n: nat)
    ensures OctetsValue(DerOctets(n)) == n
  {
    if n >= 128 {
      DerRoundTrip(n / 256);
      assert DerOctets(n)[..|DerOctets(n)| - 1] == DerOctets(n / 256);
    } else {
      assert DerOctets(n)[..0] == [];
    }
  }

  /** `k` octets are enough exactly when the number fits below the sign bit of `k` octets. */
  lemma {:induction false} DerLength(n: nat, k: nat)
    requires k > 0
    ensures |DerOctets(n)| <= k <==> n < 128 * Pow256(k - 1)
  {
    if k == 1 {
      assert Pow256(0) == 1;
    } else if n < 128 {
      DerLength(n, 1);
      assert Pow256(k - 1) == 256 * Pow256(k - 2);
    } else {
      DerLength(n / 256, k - 1);
      assert Pow256(k - 1) == 256 * Pow256(k - 2);
    }
  }

  const SERIAL_LIMIT: nat := 0x1_0000_0000_0000_0000_0000_0000_0000_0000

  /** Every serial `randomSerial` can draw needs at most 32 digits and at most 17 octets, within the 20 octets of
      section 4.1.2.2 of RFC 5280; both bounds are reached by the largest one. */
  lemma {:induction false} DrawnSerialFits(n: nat)
    requires n < SERIAL_LIMIT
    ensures |HexUpper(n)| <= 32
    ensures |DerOctets(n)| <= 17 <= 20
    ensures n == SERIAL_LIMIT - 1 ==> |HexUpper(n)| == 32 && |DerOctets(n)| == 17
  {
    Powers();
    DigitCount(n, 32);
    DigitCount(n, 31);
    DerLength(n, 17);
    DerLength(n, 16);
  }

  lemma Powers()
    ensures Pow16(32) == SERIAL_LIMIT && Pow16(31) == SERIAL_LIMIT / 16
    ensures Pow256(16) == SERIAL_LIMIT && Pow256(15) == SERIAL_LIMIT / 256
  {
    assert Pow16(8) == 0x1_0000_0000;
    assert Pow16(16) == 0x1_0000_0000_0000_0000;
    assert Pow16(24) == 0x1_0000_0000_0000_0000_0000_0000;
    assert Pow256(8) == 0x1_0000_0000_0000_0000;
  }
}
