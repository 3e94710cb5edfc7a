/** Text helpers: decimal rendering of counters, `padStart` with zeros,
    and the lower-casing used by case-insensitive search. */
module Text {

  predicate IsDigit(c: char) {
    '0' <= c <= '9'
  }

  function DigitChar(d: nat): (c: char)
    requires d < 10
    ensures IsDigit(c)
  {
    (('0' as int) + d) as char
  }

  /** Value of one character read as a decimal digit. */
  function DigitValue(c: char): int {
    (c as int) - ('0' as int)
  }

  /** `String(n)` for a non-negative integer: its decimal digits, most significant first. */
  function Decimal(n: nat): (s: string)
    ensures 1 <= |s|
    ensures forall i :: 0 <= i < |s| ==> IsDigit(s[i])
    ensures n >= 10 ==> s[0] != '0'
  {
    if n < 10 then [DigitChar(n)] else Decimal(n / 10) + [DigitChar(n % 10)]
  }

  /** The number a digit string denotes (leading zeros contribute nothing). */
  function ParseDecimal(s: string): int
    decreases |s|
  {
    if |s| == 0 then 0 else ParseDecimal(s[..|s| - 1]) * 10 + DigitValue(s[|s| - 1])
  }

  /** Reading back the decimal rendering gives the number. */
  lemma {:induction false} ParseDecimalInverse(n: nat)
    ensures ParseDecimal(Decimal(n)) == n
    decreases n
  {
    if n >= 10 {
      ParseDecimalInverse(n / 10);
      var s := Decimal(n);
      assert s[..|s| - 1] == Decimal(n / 10);
    }
  }

  /** `s.padStart(width, fill)`: unchanged when already `width` long, otherwise
      filled on the left up to exactly `width`. */
  function PadStart(s: string, width: nat, fill: char): (r: string)
    ensures |r| == if |s| >= width then |s| else width
    ensures r[|r| - |s|..] == s
    ensures forall i :: 0 <= i < |r| - |s| ==> r[i] == fill
  {
    if |s| >= width then s else seq(width - |s|, _ => fill) + s
  }

  /** Leading zeros do not change the value of a digit string. */
  lemma {:induction false} LeadingZerosIgnored(z: string, s: string)
    requires forall i :: 0 <= i < |z| ==> z[i] == '0'
    ensures ParseDecimal(z + s) == ParseDecimal(s)
    decreases |s|
  {
    if |s| == 0 {
      AllZerosParseToZero(z);
      assert z + s == z;
    } else {
      assert (z + s)[..|z + s| - 1] == z + s[..|s| - 1];
      LeadingZerosIgnored(z, s[..|s| - 1]);
    }
  }

  lemma {:induction false} AllZerosParseToZero(z: string)
    requires forall i :: 0 <= i < |z| ==> z[i] == '0'
    ensures ParseDecimal(z) == 0
    decreases |z|
  {
    if |z| > 0 {
      AllZerosParseToZero(z[..|z| - 1]);
    }
  }

  /** `String(n).padStart(3, '0')`, the counter format of member numbers and
      transaction ids. */
  function ZeroPad3(n: nat): (s: string)
    ensures |s| >= 3
    ensures forall i :: 0 <= i < |s| ==> IsDigit(s[i])
  {
    PadStart(Decimal(n), 3, '0')
  }

  /** A one-digit counter gets two leading zeros. */
  lemma ZeroPad3OneDigit(d: nat)
    requires d < 10
    ensures ZeroPad3(d) == ['0', '0', DigitChar(d)]
  {
    assert Decimal(d) == [DigitChar(d)];
    assert seq(2, _ => '0') == ['0', '0'];
  }

  /** The padded counter still denotes the number. */
  lemma ZeroPad3Inverse(n: nat)
    ensures ParseDecimal(ZeroPad3(n)) == n
  {
    var d := Decimal(n);
    var s := ZeroPad3(n);
    ParseDecimalInverse(n);
    if |d| < 3 {
      var z := s[..|s| - |d|];
      assert s == z + d;
      LeadingZerosIgnored(z, d);
    }
  }

  /** Distinct counters render to distinct padded strings. */
  lemma ZeroPad3Injective(a: nat, b: nat)
    ensures ZeroPad3(a) == ZeroPad3(b) <==> a == b
  {
    ZeroPad3Inverse(a);
    ZeroPad3Inverse(b);
  }

  /** ASCII `toLowerCase` of one character. */
  function LowerChar(c: char): char {
    if 'A' <= c <= 'Z' then ((c as int) + 32) as char else c
  }

  /** `s.toLowerCase()` on the ASCII letters. */
  function Lower(s: string): (r: string)
    ensures |r| == |s|
    ensures forall i :: 0 <= i < |s| ==> r[i] == LowerChar(s[i])
  {
    seq(|s|, i requires 0 <= i < |s| => LowerChar(s[i]))
  }

  /** Lower-casing twice is lower-casing once. */
  lemma LowerIdempotent(s: string)
    ensures Lower(Lower(s)) == Lower(s)
  {
  }

  /** `hay.includes(needle)`: `needle` occurs at some offset of `hay`. */
  predicate Includes(hay: string, needle: string)
    decreases |hay|
  {
    needle <= hay || (|hay| > 0 && Includes(hay[1..], needle))
  }

  /** `Includes` agrees with the offset characterisation of a substring. */
  lemma {:induction false} IncludesAt(hay: string, needle: string, k: nat)
    requires k + |needle| <= |hay| && hay[k..k + |needle|] == needle
    ensures Includes(hay, needle)
    decreases k
  {
    if k > 0 {
      assert hay[1..][k - 1..k - 1 + |needle|] == needle;
      IncludesAt(hay[1..], needle, k - 1);
    } else {
      assert needle <= hay;
    }
  }

  /** The converse: an inclusion is witnessed by an offset. */
  lemma {:induction false} IncludesWitness(hay: string, needle: string) returns (k: nat)
    requires Includes(hay, needle)
    ensures k + |needle| <= |hay| && hay[k..k + |needle|] == needle
    decreases |hay|
  {
    if needle <= hay {
      k := 0;
    } else {
      var k' := IncludesWitness(hay[1..], needle);
      k := k' + 1;
      assert hay[k..k + |needle|] == hay[1..][k'..k' + |needle|];
    }
  }

  /** Lower-casing both sides keeps an inclusion: a case-sensitive hit is
      also a case-insensitive hit. */
  lemma LowerKeepsIncludes(hay: string, needle: string)
    requires Includes(hay, needle)
    ensures Includes(Lower(hay), Lower(needle))
  {
    var k := IncludesWitness(hay, needle);
    assert Lower(hay)[k..k + |needle|] == Lower(needle);
    IncludesAt(Lower(hay), Lower(needle), k);
  }
}
