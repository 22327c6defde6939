/** The text conversions the adapter's results go through: JavaScript's
    `Number.prototype.toString(radix)` on non-negative integers,
    `String.prototype.padStart`, `toUpperCase` on hexadecimal text and Node's
    `Buffer.toString("hex")`. */
module Text {
  import opened Bytes

  /** The digit JavaScript writes for `d`: `0`-`9`, then lower-case `a`-`f`. */
  function DigitChar(d: nat): char
    requires d < 16
  {
    if d < 10 then ('0' as int + d) as char else ('a' as int + d - 10) as char
  }

  /** The value of a digit character, upper- or lower-case (0 for anything else). */
  function DigitValue(c: char): nat {
    if '0' <= c <= '9' then c as int - '0' as int
    else if 'a' <= c <= 'f' then c as int - 'a' as int + 10
    else if 'A' <= c <= 'F' then c as int - 'A' as int + 10
    else 0
  }

  /** `c` is a digit JavaScript writes in the given radix: `0`-`9`, then
      lower-case `a`-`f`, below the radix. */
  predicate IsDigit(c: char, radix: nat) {
    || ('0' <= c <= '9' && (c as int - '0' as int) < radix)
    || ('a' <= c <= 'f' && (c as int - 'a' as int) + 10 < radix)
  }

  lemma DigitRoundTrip(d: nat)
    requires d < 16
    ensures DigitValue(DigitChar(d)) == d
  {
  }

  lemma DivFacts(n: nat, radix: nat)
    requires 2 <= radix <= 16 && n >= radix
    ensures 1 <= n / radix < n && n % radix < radix
    ensures n / radix * radix + n % radix == n
  {
  }

  /** Reads a string of digits in the given radix, most significant first. */
  function ParseNat(s: string, radix: nat): nat {
    if s == [] then 0 else ParseNat(s[..|s| - 1], radix) * radix + DigitValue(s[|s| - 1])
  }

  /** `n.toString(radix)` for a non-negative integer `n`: at least one digit,
      each one a digit of the radix, and no leading zero. */
  function NatToString(n: nat, radix: nat): (s: string)
    requires 2 <= radix <= 16
    ensures 1 <= |s|
    ensures forall i | 0 <= i < |s| :: IsDigit(s[i], radix)
    ensures s[0] == '0' ==> n == 0 && s == "0"
    decreases n
  {
    if n < radix then
      DigitRoundTrip(n);
      [DigitChar(n)]
    else
      DivFacts(n, radix);
      DigitRoundTrip(n % radix);
      NatToString(n / radix, radix) + [DigitChar(n % radix)]
  }

  /** Parsing what `toString(radix)` wrote gives the number back. */
  lemma {:induction false} ParseNatToString(n: nat, radix: nat)
    requires 2 <= radix <= 16
    ensures ParseNat(NatToString(n, radix), radix) == n
    decreases n
  {
    var s := NatToString(n, radix);
    if n < radix {
      assert s[..|s| - 1] == [];
    } else {
      var q, d := n / radix, n % radix;
      DivFacts(n, radix);
      assert s == NatToString(q, radix) + [DigitChar(d)];
      assert s[..|s| - 1] == NatToString(q, radix);
      DigitRoundTrip(d);
      ParseNatToString(q, radix);
    }
  }

  /** `s.padStart(width, fill)`. */
  function PadStart(s: string, width: nat, fill: char): (r: string)
    ensures |r| == if |s| >= width then |s| else width
    ensures r[|r| - |s|..] == s
    ensures forall i | 0 <= i < |r| - |s| :: r[i] == fill
  {
    if |s| >= width then s else seq(width - |s|, _ => fill) + s
  }

  /** The two decimal digits of a number below 100, the numbering of the
      adapter's state keys. */
  function TwoDigits(n: nat): (s: string)
    requires n < 100
    ensures |s| == 2
  {
    [DigitChar(n / 10), DigitChar(n % 10)]
  }

  /** The digits are what `n.toString().padStart(2, "0")` writes. */
  lemma TwoDigitsPadStart(n: nat)
    requires n < 100
    ensures TwoDigits(n) == PadStart(NatToString(n, 10), 2, '0')
  {
    if n >= 10 {
      assert NatToString(n / 10, 10) == [DigitChar(n / 10)];
    }
  }

  /** Two-digit numbers read back to the number they were written from. */
  lemma TwoDigitsRoundTrip(n: nat)
    requires n < 100
    ensures ParseNat(TwoDigits(n), 10) == n
  {
    var t := TwoDigits(n);
    DigitRoundTrip(n / 10);
    DigitRoundTrip(n % 10);
    assert t[..1][..0] == [];
    assert ParseNat(t[..1], 10) == n / 10;
  }

  /** Distinct numbers give distinct keys. */
  lemma TwoDigitsInjective(a: nat, b: nat)
    requires a < 100 && b < 100 && TwoDigits(a) == TwoDigits(b)
    ensures a == b
  {
    TwoDigitsRoundTrip(a);
    TwoDigitsRoundTrip(b);
  }

  /** `toUpperCase` on the letters JavaScript writes in hexadecimal text. */
  function UpperChar(c: char): char {
    if 'a' <= c <= 'z' then (c as int - 'a' as int + 'A' as int) as char else c
  }

  /** `c` is a hexadecimal digit as `toUpperCase` leaves it: `0`-`9` or `A`-`F`. */
  predicate IsUpperHexDigit(c: char) {
    '0' <= c <= '9' || 'A' <= c <= 'F'
  }

  function ToUpper(s: string): (r: string)
    ensures |r| == |s| && forall i | 0 <= i < |s| :: r[i] == UpperChar(s[i])
    ensures forall i | 0 <= i < |r| :: !('a' <= r[i] <= 'z')
  {
    seq(|s|, i requires 0 <= i < |s| => UpperChar(s[i]))
  }

  /** Upper-casing hexadecimal text keeps its value. */
  lemma {:induction false} ParseNatToUpper(s: string, radix: nat)
    ensures ParseNat(ToUpper(s), radix) == ParseNat(s, radix)
    decreases |s|
  {
    if s != [] {
      var u := ToUpper(s);
      assert u[..|u| - 1] == ToUpper(s[..|s| - 1]);
      ParseNatToUpper(s[..|s| - 1], radix);
    }
  }

  /** One byte as Node's hex encoding writes it: always two lower-case digits. */
  function HexPair(b: nat): string
    requires b < 0x100
  {
    [DigitChar(b / 16), DigitChar(b % 16)]
  }

  /** `Buffer.toString("hex")`: two digits per byte, in order. */
  function HexBytes(bytes: seq<Byte>): (s: string)
    ensures |s| == 2 * |bytes|
    ensures forall i | 0 <= i < |s| :: IsDigit(s[i], 16)
  {
    if bytes == [] then [] else HexPair(bytes[0]) + HexBytes(bytes[1..])
  }

  /** Every byte can be read back from its two digits of the hex text. */
  lemma {:induction false} HexBytesAt(bytes: seq<Byte>, i: nat)
    requires i < |bytes|
    ensures ParseNat(HexBytes(bytes)[2 * i..2 * i + 2], 16) == bytes[i]
    decreases |bytes|
  {
    var s := HexBytes(bytes);
    if i == 0 {
      var b := bytes[0];
      var p := HexPair(b);
      assert s[..2] == p;
      assert p[..1][..0] == [];
      DigitRoundTrip(b / 16);
      DigitRoundTrip(b % 16);
      assert ParseNat(p[..1], 16) == b / 16;
      assert ParseNat(p, 16) == (b / 16) * 16 + b % 16;
    } else {
      var rest := HexBytes(bytes[1..]);
      assert s[2 * i..2 * i + 2] == rest[2 * (i - 1)..2 * (i - 1) + 2];
      HexBytesAt(bytes[1..], i - 1);
    }
  }
}
