/**
  `parseValor`: reading a Brazilian currency cell such as `"R$ 1.234,56"`
  as a number. The cell is reduced to its digits, commas and minus signs,
  a first `.` is removed (there is none left by then), the first `,`
  becomes the decimal point, and `parseFloat` reads the longest numeric
  prefix; when nothing can be read the value is 0.

  Amounts are exact `real`s: the rounding of IEEE doubles is not modelled.
 */
module Valor {
  import opened Wrappers
  import opened JsString

  // ---------------------------------------------------------------------
  // decimal digit strings

  function DigitValue(c: char): nat
    requires IsDigit(c)
  {
    (c as int - '0' as int) as nat
  }

  function DigitChar(d: nat): (c: char)
    requires d < 10
    ensures IsDigit(c) && DigitValue(c) == d
  {
    ('0' as int + d) as char
  }

  predicate AllDigits(s: string) {
    forall k :: 0 <= k < |s| ==> IsDigit(s[k])
  }

  function Pow10(n: nat): (p: nat)
    ensures p >= 1
  {
    if n == 0 then 1 else 10 * Pow10(n - 1)
  }

  /** The number a string of decimal digits denotes (most significant digit first). */
  function DigitsValue(d: string): nat
    requires AllDigits(d)
  {
    if d == [] then 0 else 10 * DigitsValue(d[..|d| - 1]) + DigitValue(d[|d| - 1])
  }

  lemma AllDigitsAppend(a: string, b: string)
    requires AllDigits(a) && AllDigits(b)
    ensures AllDigits(a + b)
  {
    forall k | 0 <= k < |a + b| ensures IsDigit((a + b)[k]) {
      if k < |a| { assert (a + b)[k] == a[k]; } else { assert (a + b)[k] == b[k - |a|]; }
    }
  }

  /** Reading a concatenation of digit strings shifts the first part by the length of the second. */
  lemma {:induction false} DigitsValueAppend(a: string, b: string)
    requires AllDigits(a) && AllDigits(b)
    ensures AllDigits(a + b)
    ensures DigitsValue(a + b) == DigitsValue(a) * Pow10(|b|) + DigitsValue(b)
  {
    AllDigitsAppend(a, b);
    if b != [] {
      var b' := b[..|b| - 1];
      var last := DigitValue(b[|b| - 1]);
      var x, y := DigitsValue(a), DigitsValue(b');
      var p := Pow10(|b'|);
      assert DigitsValue(a + b) == 10 * (x * p + y) + last by {
        var ab := a + b;
        assert ab[..|ab| - 1] == a + b';
        assert ab[|ab| - 1] == b[|b| - 1];
        AllDigitsAppend(a, b');
        DigitsValueAppend(a, b');
      }
      ShiftStep(x, p, y, last);
    } else {
      assert a + b == a;
    }
  }

  /** The arithmetic of one more digit: `x` shifted by `10 p` and followed by `y`, then by one digit. */
  lemma ShiftStep(x: int, p: int, y: int, last: int)
    ensures 10 * (x * p + y) + last == x * (10 * p) + (10 * y + last)
  {
    assert 10 * (x * p) == x * (10 * p);
  }

  /** The longest leading run of decimal digits of `s`. */
  function LeadingDigits(s: string): (r: string)
    ensures |r| <= |s| && r == s[..|r|]
    ensures AllDigits(r)
    ensures |r| == |s| || !IsDigit(s[|r|])
  {
    if s != [] && IsDigit(s[0]) then [s[0]] + LeadingDigits(s[1..]) else ""
  }

  /** The leading run of `a + b` is `a` when `a` is all digits and `b` does not start with one. */
  lemma LeadingDigitsOf(a: string, b: string)
    requires AllDigits(a)
    requires b == [] || !IsDigit(b[0])
    ensures LeadingDigits(a + b) == a
  {
    assert (a + b)[..|a|] == a;
  }

  // ---------------------------------------------------------------------
  // the string transformations

  /** The characters `/[^0-9,-]+/g` keeps. */
  predicate Kept(c: char) {
    IsDigit(c) || c == ',' || c == '-'
  }

  /** `str.replace(/[^0-9,-]+/g, '')`: the characters of `s` that are digits, `,` or `-`, in order. */
  function Clean(s: string): (r: string)
    ensures |r| <= |s|
    ensures forall k :: 0 <= k < |r| ==> Kept(r[k])
  {
    if s == [] then "" else (if Kept(s[0]) then [s[0]] else "") + Clean(s[1..])
  }

  /** Cleaning adds no character: everything it keeps comes from `s`. */
  lemma {:induction false} CleanFrom(s: string)
    ensures forall k :: 0 <= k < |Clean(s)| ==> Clean(s)[k] in s
  {
    if s != [] {
      CleanFrom(s[1..]);
      var head := if Kept(s[0]) then [s[0]] else "";
      forall k | 0 <= k < |Clean(s)| ensures Clean(s)[k] in s {
        if k >= |head| {
          assert Clean(s)[k] == Clean(s[1..])[k - |head|];
        }
      }
    }
  }

  /** Cleaning distributes over concatenation. */
  lemma {:induction false} CleanAppend(a: string, b: string)
    ensures Clean(a + b) == Clean(a) + Clean(b)
  {
    if a != [] {
      assert (a + b)[1..] == a[1..] + b;
      CleanAppend(a[1..], b);
    } else {
      assert a + b == b;
    }
  }

  /** A string made only of kept characters is left untouched. */
  lemma {:induction false} CleanKeeps(s: string)
    requires forall k :: 0 <= k < |s| ==> Kept(s[k])
    ensures Clean(s) == s
  {
    if s != [] {
      CleanKeeps(s[1..]);
    }
  }

  /** A string with none of the kept characters disappears. */
  lemma {:induction false} CleanDrops(s: string)
    requires forall k :: 0 <= k < |s| ==> !Kept(s[k])
    ensures Clean(s) == ""
  {
    if s != [] {
      CleanDrops(s[1..]);
    }
  }

  /** The index of the first `c` in `s`, or `|s|` when there is none (`indexOf`, with -1 read as `|s|`). */
  function IndexOf(s: string, c: char): (i: nat)
    ensures i <= |s|
    ensures i < |s| <==> c in s
    ensures i < |s| ==> s[i] == c
    ensures c !in s[..i]
  {
    if s == [] then 0
    else if s[0] == c then 0
    else
      var j := IndexOf(s[1..], c);
      assert s[..1 + j] == [s[0]] + s[1..][..j];
      1 + j
  }

  /**
    `s.replace(c, to)` with a one-character string pattern: only the FIRST
    occurrence is replaced, and `s` is returned unchanged when `c` does not
    occur.
   */
  function ReplaceFirst(s: string, c: char, to: string): (r: string)
    ensures c !in s ==> r == s
    ensures c in s ==> |r| == |s| - 1 + |to|
    ensures c in s ==> r[..IndexOf(s, c)] == s[..IndexOf(s, c)] && c !in r[..IndexOf(s, c)]
    ensures c in s ==> r[IndexOf(s, c)..IndexOf(s, c) + |to|] == to
    ensures c in s ==> r[IndexOf(s, c) + |to|..] == s[IndexOf(s, c) + 1..]
  {
    if c in s then
      var i := IndexOf(s, c);
      var r := s[..i] + to + s[i + 1..];
      assert r[..i] == s[..i];
      assert r[i..i + |to|] == to;
      assert r[i + |to|..] == s[i + 1..];
      r
    else s
  }

  /** The string `parseFloat` receives: cleaned, first `.` dropped, first `,` turned into `.`. */
  function Normalize(s: string): string
  {
    ReplaceFirst(ReplaceFirst(Clean(s), '.', ""), ',', ".")
  }

  /** The `.replace(".", "")` step is a no-op: cleaning has already removed every dot. */
  lemma DotReplaceIsNoOp(s: string)
    ensures '.' !in Clean(s)
    ensures ReplaceFirst(Clean(s), '.', "") == Clean(s)
  {
  }

  // ---------------------------------------------------------------------
  // parseFloat

  /** The characters that can reach `parseFloat` from `parseValor`. */
  predicate NumericAlphabet(t: string) {
    forall k :: 0 <= k < |t| ==> IsDigit(t[k]) || t[k] == ',' || t[k] == '-' || t[k] == '.'
  }

  /** `t` with one leading minus sign removed. */
  function Unsigned(t: string): string
  {
    if |t| > 0 && t[0] == '-' then t[1..] else t
  }

  /** Whether an unsigned decimal literal starts `u`: a digit, or a point followed by a digit. */
  predicate StartsNumeric(u: string) {
    (|u| > 0 && IsDigit(u[0])) || (|u| > 1 && u[0] == '.' && IsDigit(u[1]))
  }

  /**
    `parseFloat(t)` as it behaves on strings over digits, `,`, `-` and `.`
    (whitespace, `+`, exponents and `Infinity` cannot occur there, see
    `NormalizeAlphabet`): an optional minus, the longest run of digits,
    and, after a `.`, the longest run of fraction digits. `None` stands for
    NaN: exactly when no digit can be read at the start.
   */
  function ParseFloat(t: string): (r: Option<real>)
    ensures r.Some? <==> StartsNumeric(Unsigned(t))
    ensures r.Some? && (t == [] || t[0] != '-') ==> r.value >= 0.0
    ensures r.Some? && t != [] && t[0] == '-' ==> r.value <= 0.0
  {
    var neg := |t| > 0 && t[0] == '-';
    var u := Unsigned(t);
    var whole := LeadingDigits(u);
    var after := u[|whole|..];
    var frac := if |after| > 0 && after[0] == '.' then LeadingDigits(after[1..]) else "";
    if whole == [] && frac == [] then None
    else
      var x := DecimalReal(whole, frac);
      Some(if neg then -x else x)
  }

  /** The value of the decimal literal `whole.frac`. */
  function DecimalReal(whole: string, frac: string): (x: real)
    requires AllDigits(whole) && AllDigits(frac)
    ensures x >= 0.0
  {
    DigitsValue(whole) as real + FracValue(frac)
  }

  /** The value of the fraction digits `frac`, read after a decimal point: `0.frac`. */
  function FracValue(frac: string): (x: real)
    requires AllDigits(frac)
    ensures 0.0 <= x < 1.0
  {
    if frac == [] then 0.0 else (DigitValue(frac[0]) as real + FracValue(frac[1..])) / 10.0
  }

  /** The value of a two-digit string, digit by digit. */
  lemma TwoDigitsValue(a: string)
    requires |a| == 2 && AllDigits(a)
    ensures DigitsValue(a) == 10 * DigitValue(a[0]) + DigitValue(a[1])
  {
    var a1 := a[..1];
    assert a1[..0] == [] && a1[0] == a[0];
    assert DigitsValue(a1) == DigitValue(a[0]);
  }

  /** Two fraction digits are hundredths. */
  lemma FracTwoDigits(f: string)
    requires |f| == 2 && AllDigits(f)
    ensures FracValue(f) == DigitsValue(f) as real / 100.0
  {
    TwoDigitsValue(f);
    var t := f[1..];
    assert t[0] == f[1] && t[1..] == [];
    assert FracValue(t) == DigitValue(f[1]) as real / 10.0;
  }

  /** Every string `Normalize` produces is one `ParseFloat` is defined on. */
  lemma NormalizeAlphabet(s: string)
    ensures NumericAlphabet(Normalize(s))
  {
    DotReplaceIsNoOp(s);
    var c := Clean(s);
    var r := ReplaceFirst(c, ',', ".");
    if ',' in c {
      var i := IndexOf(c, ',');
      forall k | 0 <= k < |r|
        ensures IsDigit(r[k]) || r[k] == ',' || r[k] == '-' || r[k] == '.'
      {
        if k < i {
          assert r[k] == r[..i][k] == c[..i][k] == c[k];
        } else if k == i {
          assert r[k] == r[i..i + 1][0];
        } else {
          assert r[k] == r[i + 1..][k - i - 1] == c[i + 1..][k - i - 1] == c[k];
        }
      }
    }
  }

  /** `parseValor(str)`: the number `parseFloat` reads from the normalized cell, and 0 for NaN. */
  function ParseValor(s: string): real
  {
    match ParseFloat(Normalize(s))
    case None => 0.0
    case Some(x) => x
  }

  /** A cell without any digit is worth 0: only digits can make an amount. */
  lemma ParseValorNeedsDigit(s: string)
    ensures ParseValor(s) != 0.0 ==> HasDigit(s)
  {
    NoDigitNoNumber(s);
  }

  /** A cell without any digit normalizes to a string that does not start a number. */
  lemma NoDigitNoNumber(s: string)
    ensures !HasDigit(s) ==> !StartsNumeric(Unsigned(Normalize(s)))
  {
    if !HasDigit(s) {
      DotReplaceIsNoOp(s);
      var c := Clean(s);
      CleanFrom(s);
      assert forall k :: 0 <= k < |c| ==> !IsDigit(c[k]);
      var r := Normalize(s);
      if ',' in c {
        var i := IndexOf(c, ',');
        forall k | 0 <= k < |r| ensures !IsDigit(r[k]) {
          if k < i {
            assert r[k] == r[..i][k] == c[..i][k] == c[k];
          } else if k == i {
            assert r[k] == r[i..i + 1][0];
          } else {
            assert r[k] == r[i + 1..][k - i - 1] == c[i + 1..][k - i - 1] == c[k];
          }
        }
      }
      var u := Unsigned(r);
      assert forall k :: 0 <= k < |u| ==> !IsDigit(u[k]);
    }
  }

  /** When `parseFloat` finds no number (NaN), `parseValor` yields 0; an empty cell is one such case. */
  lemma ParseValorNaNIsZero(s: string)
    ensures !StartsNumeric(Unsigned(Normalize(s))) ==> ParseValor(s) == 0.0
    ensures ParseValor("") == 0.0
  {
    NoDigitNoNumber("");
  }

  // ---------------------------------------------------------------------
  // round trip with the spreadsheet's currency format

  /** The decimal numeral of `n`, without leading zeros. */
  function Decimal(n: nat): (d: string)
    ensures |d| >= 1 && AllDigits(d) && DigitsValue(d) == n
  {
    if n < 10 then [DigitChar(n)]
    else
      var d := Decimal(n / 10) + [DigitChar(n % 10)];
      assert d[..|d| - 1] == Decimal(n / 10);
      d
  }

  /** `n < 10^width` written on exactly `width` digits, with leading zeros. */
  function Padded(n: nat, width: nat): (d: string)
    requires n < Pow10(width)
    ensures |d| == width && AllDigits(d) && DigitsValue(d) == n
  {
    if width == 0 then ""
    else
      var d := Padded(n / 10, width - 1) + [DigitChar(n % 10)];
      assert d[..|d| - 1] == Padded(n / 10, width - 1);
      d
  }

  /** `n` with its thousands separated by dots, as in `1.234.567`. */
  function Grouped(n: nat): string
  {
    if n < 1000 then Decimal(n) else Grouped(n / 1000) + "." + Padded(n % 1000, 3)
  }

  /** Cleaning a grouped numeral leaves a digit string denoting the same number. */
  lemma {:induction false} CleanGrouped(n: nat)
    ensures |Clean(Grouped(n))| >= 1 && AllDigits(Clean(Grouped(n)))
    ensures DigitsValue(Clean(Grouped(n))) == n
  {
    if n < 1000 {
      CleanKeeps(Decimal(n));
    } else {
      var hi := Grouped(n / 1000);
      var lo := Padded(n % 1000, 3);
      CleanGrouped(n / 1000);
      CleanAppend(hi + ".", lo);
      CleanAppend(hi, ".");
      CleanKeeps(lo);
      assert Clean(".") == "";
      assert Clean(Grouped(n)) == Clean(hi) + lo;
      DigitsValueAppend(Clean(hi), lo);
      assert Pow10(3) == 1000;
      assert n == (n / 1000) * 1000 + n % 1000;
    }
  }

  /**
    A currency cell as the spreadsheet export writes it once the two halves
    split on the decimal comma are glued back: `"R$ 1.234,56"`, quotes
    included, with a minus sign in front of `R$` for a negative amount.
   */
  function Brl(negative: bool, whole: nat, cents: nat): string
    requires cents < 100
  {
    "\"" + (if negative then "-" else "") + "R$ " + Grouped(whole) + "," + Padded(cents, 2) + "\""
  }

  /** Cleaning a currency cell keeps the sign, the digits of the whole part, the comma and the cents. */
  lemma CleanBrl(negative: bool, whole: nat, cents: nat)
    requires cents < 100
    ensures Clean(Brl(negative, whole, cents))
         == (if negative then "-" else "") + Clean(Grouped(whole)) + "," + Padded(cents, 2)
  {
    var sign := if negative then "-" else "";
    var g := Grouped(whole);
    var c2 := Padded(cents, 2);
    var head := "\"" + sign + "R$ ";
    var tail := "," + c2 + "\"";
    assert Brl(negative, whole, cents) == head + g + tail;
    CleanHead(sign);
    CleanTail(c2);
    CleanAppend(head + g, tail);
    CleanAppend(head, g);
  }

  lemma CleanHead(sign: string)
    requires sign == "" || sign == "-"
    ensures Clean("\"" + sign + "R$ ") == sign
  {
    CleanAppend("\"" + sign, "R$ ");
    CleanAppend("\"", sign);
    CleanKeeps(sign);
    CleanDrops("R$ ");
    CleanDrops("\"");
    assert "" + sign + "" == sign;
  }

  lemma CleanTail(c2: string)
    requires AllDigits(c2)
    ensures Clean("," + c2 + "\"") == "," + c2
  {
    CleanAppend("," + c2, "\"");
    CleanAppend(",", c2);
    CleanKeeps(c2);
    CleanKeeps(",");
    CleanDrops("\"");
    assert "," + c2 + "" == "," + c2;
  }

  /** Normalizing `sign d,f` turns its one comma into the decimal point. */
  lemma NormalizeDecimalComma(s: string, sign: string, d: string, f: string)
    requires sign == "" || sign == "-"
    requires AllDigits(d) && AllDigits(f)
    requires Clean(s) == sign + d + "," + f
    ensures Normalize(s) == sign + d + "." + f
  {
    var cleaned := sign + d + "," + f;
    var i := |sign| + |d|;
    DotReplaceIsNoOp(s);
    assert cleaned[..i] == sign + d;
    assert ',' !in sign + d;
    assert cleaned[i] == ',';
    assert IndexOf(cleaned, ',') == i;
    assert cleaned[i + 1..] == f;
    var r := ReplaceFirst(cleaned, ',', ".");
    assert r == r[..i] + r[i..i + 1] + r[i + 1..];
  }

  /** A sign in front of an unsigned text: `Unsigned` removes exactly that sign. */
  lemma UnsignedSign(sign: string, u: string)
    requires sign == "" || sign == "-"
    requires |u| > 0 && IsDigit(u[0])
    ensures Unsigned(sign + u) == u
    ensures (|sign + u| > 0 && (sign + u)[0] == '-') <==> sign == "-"
  {
    if sign == "-" {
      assert (sign + u)[1..] == u;
    } else {
      assert sign + u == u;
    }
  }

  /**
    `parseFloat` stops at the first character that cannot continue a whole
    number: `sign d rest` reads as the signed value of `d` when `rest`
    starts with neither a digit nor a point.
   */
  lemma ParseFloatWholePrefix(sign: string, d: string, rest: string)
    requires sign == "" || sign == "-"
    requires |d| >= 1 && AllDigits(d)
    requires rest == [] || (!IsDigit(rest[0]) && rest[0] != '.')
    ensures ParseFloat(sign + d + rest)
         == Some(if sign == "-" then -DecimalReal(d, "") else DecimalReal(d, ""))
  {
    WholeScan(d, rest);
    assert sign + d + rest == sign + (d + rest);
    UnsignedSign(sign, d + rest);
    ParseFloatPieces(sign + d + rest, sign, d + rest, d, rest, "");
  }

  /** `parseFloat` from the pieces it scans: the sign, the whole digits and the fraction digits. */
  lemma ParseFloatPieces(t: string, sign: string, u: string, d: string, after: string, f: string)
    requires sign == "" || sign == "-"
    requires Unsigned(t) == u && ((|t| > 0 && t[0] == '-') <==> sign == "-")
    requires |d| >= 1 && LeadingDigits(u) == d && |d| <= |u| && u[|d|..] == after
    requires AllDigits(f) && (if |after| > 0 && after[0] == '.' then LeadingDigits(after[1..]) else "") == f
    ensures ParseFloat(t) == Some(if sign == "-" then -DecimalReal(d, f) else DecimalReal(d, f))
  {
  }

  /** After the whole digits, the scan sees the point and then exactly the fraction digits `f`. */
  lemma FractionScan(f: string, rest: string)
    requires AllDigits(f)
    requires rest == [] || !IsDigit(rest[0])
    ensures var after := "." + f + rest;
      |after| > 0 && after[0] == '.' && LeadingDigits(after[1..]) == f
  {
    assert ("." + f + rest)[1..] == f + rest;
    LeadingDigitsOf(f, rest);
  }

  /** The whole digits `d` are read up to the text `after` that follows them. */
  lemma WholeScan(d: string, after: string)
    requires |d| >= 1 && AllDigits(d)
    requires after == [] || !IsDigit(after[0])
    ensures LeadingDigits(d + after) == d && (d + after)[|d|..] == after
    ensures IsDigit((d + after)[0])
  {
    LeadingDigitsOf(d, after);
    assert (d + after)[0] == d[0];
  }

  /**
    `parseFloat` reads the longest literal `sign d.f` at the start of the
    text and ignores what follows once the fraction digits end.
   */
  lemma ParseFloatDecimalPrefix(sign: string, d: string, f: string, rest: string)
    requires sign == "" || sign == "-"
    requires |d| >= 1 && AllDigits(d) && AllDigits(f)
    requires rest == [] || !IsDigit(rest[0])
    ensures ParseFloat(sign + d + "." + f + rest)
         == Some(if sign == "-" then -DecimalReal(d, f) else DecimalReal(d, f))
  {
    var after := "." + f + rest;
    FractionScan(f, rest);
    WholeScan(d, after);
    LiteralRegroup(sign, d, f, rest);
    UnsignedSign(sign, d + after);
    ParseFloatPieces(sign + d + "." + f + rest, sign, d + after, d, after, f);
  }

  /** `parseFloat` reads `sign d.f` as the signed decimal number it spells. */
  lemma ParseFloatDecimal(sign: string, d: string, f: string)
    requires sign == "" || sign == "-"
    requires |d| >= 1 && AllDigits(d) && AllDigits(f)
    ensures ParseFloat(sign + d + "." + f)
         == Some(if sign == "-" then -DecimalReal(d, f) else DecimalReal(d, f))
  {
    ParseFloatDecimalPrefix(sign, d, f, "");
    assert sign + d + "." + f + "" == sign + d + "." + f;
  }

  /** The literal `sign d.f rest` is the sign followed by the unsigned part. */
  lemma LiteralRegroup(sign: string, d: string, f: string, rest: string)
    ensures sign + d + "." + f + rest == sign + (d + ("." + f + rest))
  {
  }

  /** `parseValor` reads a currency cell back as exactly the amount it shows. */
  lemma ParseValorBrl(negative: bool, whole: nat, cents: nat)
    requires cents < 100
    ensures var amount := whole as real + cents as real / 100.0;
      ParseValor(Brl(negative, whole, cents)) == if negative then -amount else amount
  {
    var sign := if negative then "-" else "";
    var cell := Brl(negative, whole, cents);
    var d := Clean(Grouped(whole));
    var c2 := Padded(cents, 2);
    CleanGrouped(whole);
    CleanBrl(negative, whole, cents);
    NormalizeDecimalComma(cell, sign, d, c2);
    ParseFloatDecimal(sign, d, c2);
    FracTwoDigits(c2);
  }

  /** A whole currency cell without cents, such as `"R$ 1.234"`. */
  function BrlWhole(negative: bool, whole: nat): string
  {
    "\"" + (if negative then "-" else "") + "R$ " + Grouped(whole) + "\""
  }

  /** Cleaning a whole currency cell keeps exactly its sign and the digits of its amount. */
  lemma CleanBrlWhole(negative: bool, whole: nat)
    ensures Clean(BrlWhole(negative, whole)) == (if negative then "-" else "") + Clean(Grouped(whole))
  {
    var sign := if negative then "-" else "";
    var g := Grouped(whole);
    var head := "\"" + sign + "R$ ";
    assert BrlWhole(negative, whole) == head + g + "\"";
    CleanHead(sign);
    CleanDrops("\"");
    CleanAppend(head + g, "\"");
    CleanAppend(head, g);
  }

  /** Without a comma, the two replacements leave the cleaned cell as it is. */
  lemma NormalizeNoComma(s: string)
    requires ',' !in Clean(s)
    ensures Normalize(s) == Clean(s)
  {
    DotReplaceIsNoOp(s);
  }

  /** `parseValor` reads a currency cell without a decimal comma back as its whole amount. */
  lemma ParseValorBrlWhole(negative: bool, whole: nat)
    ensures ParseValor(BrlWhole(negative, whole)) == if negative then -(whole as real) else whole as real
  {
    var sign := if negative then "-" else "";
    var d := Clean(Grouped(whole));
    CleanBrlWhole(negative, whole);
    CleanGrouped(whole);
    assert ',' !in sign + d by {
      forall k | 0 <= k < |sign + d| ensures (sign + d)[k] != ',' {
        if k >= |sign| { assert (sign + d)[k] == d[k - |sign|]; }
      }
    }
    NormalizeNoComma(BrlWhole(negative, whole));
    ParseFloatWholePrefix(sign, d, "");
    assert sign + d + "" == sign + d;
  }
}
