/**
  The JavaScript string built-ins the dashboard relies on, on `seq<char>`:
  `String.prototype.split` with a one-character separator, `trim`,
  `includes`, and the truthiness of a `/\d.../` match.
 */
module JsString {

  predicate IsDigit(c: char) {
    '0' <= c <= '9'
  }

  /** True when some character of `s` is an ASCII digit (`\d` in a JavaScript regular expression). */
  predicate HasDigit(s: string) {
    exists k :: 0 <= k < |s| && IsDigit(s[k])
  }

  /**
    The characters `trim` removes: WhiteSpace and LineTerminator of the
    ECMAScript grammar (tab, VT, FF, space, NBSP, BOM, the Zs separators,
    LF, CR, LS, PS).
   */
  const Whitespace: set<char> :=
    { '\t', '\n', '\r', ' ', '\U{000B}', '\U{000C}', '\U{00A0}', '\U{FEFF}', '\U{1680}',
      '\U{2000}', '\U{2001}', '\U{2002}', '\U{2003}', '\U{2004}', '\U{2005}', '\U{2006}',
      '\U{2007}', '\U{2008}', '\U{2009}', '\U{200A}',
      '\U{2028}', '\U{2029}', '\U{202F}', '\U{205F}', '\U{3000}' }

  predicate IsWhitespace(c: char) {
    c in Whitespace
  }

  // ---------------------------------------------------------------------
  // split / join

  /** `parts.join(sep)`. */
  function Join(parts: seq<string>, sep: char): string
  {
    if |parts| == 0 then ""
    else if |parts| == 1 then parts[0]
    else parts[0] + [sep] + Join(parts[1..], sep)
  }

  /** `s.split(sep)` for a one-character separator; never empty, as the empty string splits into `[""]`. */
  function Split(s: string, sep: char): (r: seq<string>)
    ensures |r| >= 1
    decreases |s|
  {
    if s == [] then [""]
    else
      var rest := Split(s[1..], sep);
      if s[0] == sep then [""] + rest else [[s[0]] + rest[0]] + rest[1..]
  }

  /** No piece of a split holds the separator, and joining the pieces back gives `s`. */
  lemma {:induction false} SplitSpec(s: string, sep: char)
    ensures forall i :: 0 <= i < |Split(s, sep)| ==> sep !in Split(s, sep)[i]
    ensures Join(Split(s, sep), sep) == s
    decreases |s|
  {
    if s != [] {
      var rest := Split(s[1..], sep);
      SplitSpec(s[1..], sep);
      if s[0] == sep {
        assert [s[0]] + s[1..] == s;
        assert Split(s, sep)[1..] == rest;
      } else {
        var r := Split(s, sep);
        SplitStep(s[0], rest, sep);
        assert [s[0]] + s[1..] == s;
        assert r[1..] == rest[1..];
        forall i | 0 <= i < |r| ensures sep !in r[i] {
          if i > 0 {
            assert r[i] == rest[i];
          }
        }
      }
    }
  }

  /** Gluing a character onto the first piece glues it onto the joined string. */
  lemma {:induction false} SplitStep(c: char, rest: seq<string>, sep: char)
    requires |rest| >= 1
    ensures Join([[c] + rest[0]] + rest[1..], sep) == [c] + Join(rest, sep)
  {
    var t := [[c] + rest[0]] + rest[1..];
    if |rest| > 1 {
      assert t[1..] == rest[1..];
    }
  }

  /** The other half of the round trip: separator-free pieces split back into themselves. */
  lemma {:induction false} SplitJoin(parts: seq<string>, sep: char)
    requires |parts| >= 1
    requires forall i :: 0 <= i < |parts| ==> sep !in parts[i]
    ensures Split(Join(parts, sep), sep) == parts
    decreases |parts|, |parts[0]|
  {
    if |parts[0]| > 0 {
      var p0 := parts[0];
      var tail := [p0[1..]] + parts[1..];
      assert tail[1..] == parts[1..];
      SplitJoin(tail, sep);
      SplitStep(p0[0], tail, sep);
      assert [p0[0]] + p0[1..] == p0;
      assert [[p0[0]] + tail[0]] + tail[1..] == parts;
      var s := Join(parts, sep);
      assert s == [p0[0]] + Join(tail, sep);
      assert s[1..] == Join(tail, sep);
    } else if |parts| > 1 {
      var s := Join(parts, sep);
      assert s == [sep] + Join(parts[1..], sep);
      assert s[1..] == Join(parts[1..], sep);
      SplitJoin(parts[1..], sep);
      assert [""] + parts[1..] == parts;
    }
  }

  // ---------------------------------------------------------------------
  // trim

  /** Drops leading whitespace. */
  function TrimStart(s: string): (r: string)
    ensures |r| <= |s|
  {
    if s != [] && IsWhitespace(s[0]) then TrimStart(s[1..]) else s
  }

  /** `TrimStart` keeps a suffix of `s` that does not start with whitespace, and cuts only whitespace. */
  lemma {:induction false} TrimStartSpec(s: string)
    ensures |TrimStart(s)| <= |s| && TrimStart(s) == s[|s| - |TrimStart(s)|..]
    ensures forall k :: 0 <= k < |s| - |TrimStart(s)| ==> IsWhitespace(s[k])
    ensures TrimStart(s) == [] || !IsWhitespace(TrimStart(s)[0])
  {
    if s != [] && IsWhitespace(s[0]) {
      TrimStartSpec(s[1..]);
    }
  }

  /** Drops trailing whitespace. */
  function TrimEnd(s: string): string
  {
    if s != [] && IsWhitespace(s[|s| - 1]) then TrimEnd(s[..|s| - 1]) else s
  }

  /** `TrimEnd` keeps a prefix of `s` that does not end with whitespace, and cuts only whitespace. */
  lemma {:induction false} TrimEndSpec(s: string)
    ensures |TrimEnd(s)| <= |s| && TrimEnd(s) == s[..|TrimEnd(s)|]
    ensures forall k :: |TrimEnd(s)| <= k < |s| ==> IsWhitespace(s[k])
    ensures TrimEnd(s) == [] || !IsWhitespace(TrimEnd(s)[|TrimEnd(s)| - 1])
  {
    if s != [] && IsWhitespace(s[|s| - 1]) {
      TrimEndSpec(s[..|s| - 1]);
    }
  }

  /** `s.trim()`. */
  function Trim(s: string): string
  {
    TrimEnd(TrimStart(s))
  }

  /** How many leading characters `trim` cuts off. */
  function TrimLead(s: string): nat
  {
    |s| - |TrimStart(s)|
  }

  /**
    `trim` keeps a contiguous slice of `s`: everything cut off before and
    after it is whitespace, and the slice neither starts nor ends with
    whitespace.
   */
  lemma TrimSlice(s: string)
    ensures TrimLead(s) + |Trim(s)| <= |s|
    ensures Trim(s) == s[TrimLead(s)..TrimLead(s) + |Trim(s)|]
    ensures forall k :: 0 <= k < TrimLead(s) ==> IsWhitespace(s[k])
    ensures forall k :: TrimLead(s) + |Trim(s)| <= k < |s| ==> IsWhitespace(s[k])
    ensures Trim(s) == [] || (!IsWhitespace(Trim(s)[0]) && !IsWhitespace(Trim(s)[|Trim(s)| - 1]))
  {
    var a := TrimStart(s);
    var t := TrimEnd(a);
    TrimStartSpec(s);
    TrimEndSpec(a);
    var i := |s| - |a|;
    var j := i + |t|;
    assert t == s[i..j] by {
      assert a == s[i..];
      assert t == a[..|t|];
    }
    forall k | j <= k < |s| ensures IsWhitespace(s[k]) {
      assert s[k] == a[k - i];
    }
    if t != [] {
      assert t[0] == a[0];
    }
  }

  /** `trim` is idempotent, so re-trimming an already trimmed cell changes nothing. */
  lemma TrimIdempotent(s: string)
    ensures Trim(Trim(s)) == Trim(s)
  {
    var t := Trim(s);
    TrimSlice(s);
    TrimEndSpec(t);
    assert TrimStart(t) == t;
  }

  // ---------------------------------------------------------------------
  // includes

  /** `s.includes(sub)`. */
  predicate Includes(s: string, sub: string) {
    exists i :: 0 <= i <= |s| - |sub| && OccursAt(s, sub, i)
  }

  /** `sub` occurs in `s` starting at index `i`. */
  predicate OccursAt(s: string, sub: string, i: int) {
    0 <= i <= |s| - |sub| && s[i..i + |sub|] == sub
  }
}
