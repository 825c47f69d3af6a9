/**
 * The pieces of Rust's `str` that the parsers rely on: `find`, `split`, the
 * `{}` / `{:x}` rendering of unsigned integers and `parse::<uN>()`.
 */
module Text {
  import opened Wrappers

  /** `s.find(c)`: the index of the first occurrence of `c`. */
  function Find(s: string, c: char): (r: Option<nat>)
    ensures r.None? <==> c !in s
    ensures r.Some? ==> r.value < |s| && s[r.value] == c && c !in s[..r.value]
  {
    if |s| == 0 then None
    else if s[0] == c then Some(0)
    else
      match Find(s[1..], c)
      case None => None
      case Some(i) =>
        assert s[..i + 1] == [s[0]] + s[1..][..i];
        Some(i + 1)
  }

  /** `s.split(sep).collect::<Vec<_>>()`: the fields between separators, empty ones included. */
  function Split(s: string, sep: char): (r: seq<string>)
    ensures |r| >= 1
    ensures forall i :: 0 <= i < |r| ==> sep !in r[i]
    ensures sep !in s <==> r == [s]
    ensures sep in s ==> |r| >= 2
    decreases |s|
  {
    match Find(s, sep)
    case None => [s]
    case Some(i) => [s[..i]] + Split(s[i + 1..], sep)
  }

  /** `parts.join(sep)` */
  function Join(parts: seq<string>, sep: char): string
  {
    if |parts| == 0 then ""
    else if |parts| == 1 then parts[0]
    else parts[0] + [sep] + Join(parts[1..], sep)
  }

  /** Joining the fields of a split gives back the text. */
  lemma {:induction false} JoinSplit(s: string, sep: char)
    ensures Join(Split(s, sep), sep) == s
    decreases |s|
  {
    match Find(s, sep)
    case None =>
    case Some(i) =>
      var rest := Split(s[i + 1..], sep);
      JoinSplit(s[i + 1..], sep);
      assert Split(s, sep) == [s[..i]] + rest;
      assert ([s[..i]] + rest)[1..] == rest;
      assert Join(Split(s, sep), sep) == s[..i] + [sep] + Join(rest, sep);
      assert s == s[..i] + [sep] + s[i + 1..];
  }

  lemma FindAfterPrefix(pre: string, sep: char, post: string)
    requires sep !in pre
    ensures Find(pre + [sep] + post, sep) == Some(|pre|)
  {
    var s := pre + [sep] + post;
    assert s[|pre|] == sep;
    assert s[..|pre|] == pre;
  }

  /** Text after the first occurrence does not move that occurrence. */
  lemma FindInPrefix(a: string, b: string, c: char)
    requires c in a
    ensures Find(a + b, c) == Find(a, c)
  {
    var i := Find(a, c).value;
    assert (a + b)[i] == c;
    assert (a + b)[..i] == a[..i];
  }

  /** Splitting fields joined with a separator they do not contain gives back the fields. */
  lemma {:induction false} SplitJoin(parts: seq<string>, sep: char)
    requires |parts| >= 1
    requires forall i :: 0 <= i < |parts| ==> sep !in parts[i]
    ensures Split(Join(parts, sep), sep) == parts
  {
    var p0 := parts[0];
    if |parts| == 1 {
      assert Join(parts, sep) == p0;
      assert Find(p0, sep) == None;
    } else {
      var tail := parts[1..];
      var rest := Join(tail, sep);
      var s := Join(parts, sep);
      assert s == p0 + [sep] + rest;
      FindAfterPrefix(p0, sep, rest);
      assert s[..|p0|] == p0;
      assert s[|p0| + 1..] == rest;
      SplitJoin(tail, sep);
      calc {
        Split(s, sep);
        [s[..|p0|]] + Split(s[|p0| + 1..], sep);
        [p0] + tail;
        parts;
      }
    }
  }

  /** A character that is neither the separator nor in any field is not in the joined text. */
  lemma {:induction false} JoinHasNo(parts: seq<string>, sep: char, c: char)
    requires c != sep && forall i :: 0 <= i < |parts| ==> c !in parts[i]
    ensures c !in Join(parts, sep)
    decreases |parts|
  {
    if |parts| > 1 {
      JoinHasNo(parts[1..], sep, c);
      assert c !in parts[0];
    }
  }

  // ----- numerals -----

  /** The digit alphabet of `{}` (radix 10) and `{:x}` (radix 16). */
  const Alphabet: string := "0123456789abcdef"

  predicate IsRadix(radix: nat) { 2 <= radix <= 16 }

  /** The value of a digit character, or `radix` when it is not a digit in that radix. */
  function DigitValue(c: char, radix: nat): (d: nat)
    requires IsRadix(radix)
    ensures d <= radix
  {
    if '0' <= c <= '9' && (c as int - '0' as int) < radix then c as int - '0' as int
    else if 'a' <= c <= 'f' && (c as int - 'a' as int) + 10 < radix then c as int - 'a' as int + 10
    else radix
  }

  predicate AllDigits(s: string, radix: nat)
    requires IsRadix(radix)
  {
    forall i :: 0 <= i < |s| ==> DigitValue(s[i], radix) < radix
  }

  /** The value of a string of digits, most significant first. */
  function NumeralValue(s: string, radix: nat): nat
    requires IsRadix(radix) && AllDigits(s, radix)
  {
    if |s| == 0 then 0
    else NumeralValue(s[..|s| - 1], radix) * radix + DigitValue(s[|s| - 1], radix)
  }

  lemma DigitOfAlphabet(d: nat, radix: nat)
    requires IsRadix(radix) && d < radix
    ensures DigitValue(Alphabet[d], radix) == d
  {
  }

  /** `format!("{}", n)` for radix 10, `format!("{:x}", n)` for radix 16: no sign, no leading zeros. */
  function Numeral(n: nat, radix: nat): (r: string)
    requires IsRadix(radix)
    ensures 1 <= |r| && AllDigits(r, radix)
    ensures NumeralValue(r, radix) == n
    ensures |r| > 1 ==> r[0] != '0'
  {
    if n < radix then
      DigitOfAlphabet(n, radix);
      [Alphabet[n]]
    else
      var q, d := n / radix, n % radix;
      QuotientPositive(n, radix);
      var hi := Numeral(q, radix);
      DigitOfAlphabet(d, radix);
      var r := hi + [Alphabet[d]];
      assert r[..|r| - 1] == hi;
      assert NumeralValue(r, radix) == q * radix + d;
      r
  }

  lemma QuotientPositive(n: nat, radix: nat)
    requires 2 <= radix <= n
    ensures 1 <= n / radix < n && n == n / radix * radix + n % radix
  {
  }

  /** The decimal text of a two-digit number. */
  lemma DecimalTwoDigits(n: nat)
    requires 10 <= n < 100
    ensures DecimalText(n) == [Alphabet[n / 10], Alphabet[n % 10]]
  {
    assert Numeral(n / 10, 10) == [Alphabet[n / 10]];
  }

  function DecimalText(n: nat): (r: string)
    ensures 1 <= |r| && AllDigits(r, 10)
  {
    Numeral(n, 10)
  }

  function HexText(n: nat): (r: string)
    ensures 1 <= |r| && AllDigits(r, 16)
  {
    Numeral(n, 16)
  }

  /** `s.parse::<uN>()` for an unsigned type with `bound` values: an optional `+`, then one or more decimal digits, value below `bound`. */
  function ParseUnsigned(s: string, bound: nat): (r: Option<nat>)
    ensures r.Some? ==> r.value < bound
  {
    var digits := if |s| > 0 && s[0] == '+' then s[1..] else s;
    if |digits| == 0 || !AllDigits(digits, 10) then None
    else if NumeralValue(digits, 10) < bound then Some(NumeralValue(digits, 10))
    else None
  }

  /** Parsing the decimal rendering of a value in range gives the value back. */
  lemma ParseDecimalText(n: nat, bound: nat)
    requires n < bound
    ensures ParseUnsigned(DecimalText(n), bound) == Some(n)
  {
    var t := DecimalText(n);
    assert DigitValue(t[0], 10) < 10;
  }

  /** Parsing the decimal rendering of a value gives it back exactly when it is below the bound. */
  lemma ParseDecimalTextBound(n: nat, bound: nat)
    ensures ParseUnsigned(DecimalText(n), bound) == if n < bound then Some(n) else None
  {
    var t := DecimalText(n);
    assert DigitValue(t[0], 10) < 10;
  }

  /** Distinct values have distinct numerals. */
  lemma NumeralInjective(m: nat, n: nat, radix: nat)
    requires IsRadix(radix)
    ensures Numeral(m, radix) == Numeral(n, radix) ==> m == n
  {
  }

  /** Numerals contain no character outside the digit alphabet, in particular no separator. */
  lemma NumeralHasNo(n: nat, radix: nat, c: char)
    requires IsRadix(radix) && DigitValue(c, radix) == radix
    ensures c !in Numeral(n, radix)
  {
    var r := Numeral(n, radix);
    forall i | 0 <= i < |r| ensures r[i] != c {
      assert DigitValue(r[i], radix) < radix;
    }
  }
}
