/** Characters, digit strings and the small pieces of PHP string behaviour the
    date finder relies on: the ASCII character classes of PCRE (without the
    UTF-8 flag), `strtolower`, `(int)` casts, `is_numeric`, `explode` and the
    quote entities that the input sanitiser introduces. */
module Text {

  datatype Option<T> = None | Some(value: T)

  // ---------------------------------------------------------------------------
  // Character classes (PCRE, byte mode, default character tables)
  // ---------------------------------------------------------------------------

  /** `[0-9]` and `\d` */
  predicate IsDigit(c: char) { '0' <= c <= '9' }

  predicate IsUpper(c: char) { 'A' <= c <= 'Z' }

  predicate IsLower(c: char) { 'a' <= c <= 'z' }

  predicate IsAlpha(c: char) { IsUpper(c) || IsLower(c) }

  /** `[A-Za-z0-9]` */
  predicate IsAlnum(c: char) { IsAlpha(c) || IsDigit(c) }

  /** A "word" character for `\b`: letters, digits and underscore. */
  predicate IsWord(c: char) { IsAlnum(c) || c == '_' }

  /** `\s`: space, tab, line feed, vertical tab, form feed, carriage return. */
  predicate IsSpace(c: char) {
    c == ' ' || c == '\t' || c == '\n' || c == '\U{0B}' || c == '\U{0C}' || c == '\r'
  }

  /** `\b` at position `i` of `s`: exactly one of the characters on either
      side of `i` is a word character (outside the string counts as non-word). */
  predicate Boundary(s: string, i: nat) {
    (0 < i <= |s| && IsWord(s[i - 1])) != (i < |s| && IsWord(s[i]))
  }

  /** `strtolower` on one character (ASCII only). */
  function Lower(c: char): (r: char)
    ensures IsLower(r) <==> IsAlpha(c)
    ensures !IsAlpha(c) ==> r == c
  {
    if IsUpper(c) then (c as int + 32) as char else c
  }

  /** `strtolower` */
  function LowerStr(s: string): (r: string)
    ensures |r| == |s|
    ensures forall i :: 0 <= i < |s| ==> r[i] == Lower(s[i])
  {
    if |s| == 0 then [] else [Lower(s[0])] + LowerStr(s[1..])
  }

  /** `s` has the lower-case word `name` at position `p`, ignoring the case of `s`. */
  predicate MatchesCI(s: string, p: nat, name: string) {
    p + |name| <= |s| && MatchesFrom(s, p, name, 0)
  }

  /** Characters `j..` of `name` match `s` from `p + j` on, ignoring case. */
  predicate MatchesFrom(s: string, p: nat, name: string, j: nat)
    requires p + |name| <= |s|
    decreases |name| - j
  {
    j >= |name| || (Lower(s[p + j]) == name[j] && MatchesFrom(s, p, name, j + 1))
  }

  /** A case-insensitive match is a match of the lower-cased text. */
  lemma MatchesCISlice(s: string, p: nat, name: string)
    ensures MatchesCI(s, p, name) <==> p + |name| <= |s| && LowerStr(s[p..p + |name|]) == name
  {
    if p + |name| <= |s| {
      MatchesFromAll(s, p, name, 0);
      var l := LowerStr(s[p..p + |name|]);
      assert forall i :: 0 <= i < |name| ==> l[i] == Lower(s[p + i]);
    }
  }

  lemma {:induction false} MatchesFromAll(s: string, p: nat, name: string, j: nat)
    requires p + |name| <= |s|
    ensures MatchesFrom(s, p, name, j) <==> forall i :: j <= i < |name| ==> Lower(s[p + i]) == name[i]
    decreases |name| - j
  {
    if j < |name| {
      MatchesFromAll(s, p, name, j + 1);
    }
  }

  // ---------------------------------------------------------------------------
  // Digit strings
  // ---------------------------------------------------------------------------

  predicate AllDigits(s: string) {
    forall i :: 0 <= i < |s| ==> IsDigit(s[i])
  }

  function DigitValue(c: char): nat
    requires IsDigit(c)
  {
    c as int - '0' as int
  }

  function Pow10(n: nat): nat {
    if n == 0 then 1 else 10 * Pow10(n - 1)
  }

  /** The decimal value of a string of digits, most significant digit first. */
  function DigitsValue(s: string): nat
    requires AllDigits(s)
  {
    if |s| == 0 then 0 else 10 * DigitsValue(s[..|s| - 1]) + DigitValue(s[|s| - 1])
  }

  /** A digit string of length `n` has a value below `10^n`. */
  lemma {:induction false} DigitsValueBound(s: string)
    requires AllDigits(s)
    ensures DigitsValue(s) < Pow10(|s|)
  {
    if |s| > 0 {
      DigitsValueBound(s[..|s| - 1]);
    }
  }

  /** Reading the concatenation of two digit strings shifts the first one left
      by the length of the second: the fact behind PHP turning `"190" . "08"`
      into `19008`. */
  lemma {:induction false} DigitsValueAppend(a: string, b: string)
    requires AllDigits(a) && AllDigits(b)
    ensures AllDigits(a + b)
    ensures DigitsValue(a + b) == DigitsValue(a) * Pow10(|b|) + DigitsValue(b)
  {
    if |b| == 0 {
      assert a + b == a;
    } else {
      var b', c := b[..|b| - 1], b[|b| - 1];
      assert (a + b)[..|a + b| - 1] == a + b' && (a + b)[|a + b| - 1] == c;
      DigitsValueAppend(a, b');
      var x, y, z := DigitsValue(a), DigitsValue(b'), Pow10(|b'|);
      assert Pow10(|b|) == 10 * z;
      ShiftLeft(x, z);
      calc {
        DigitsValue(a + b);
        10 * DigitsValue(a + b') + DigitValue(c);
        10 * (x * z + y) + DigitValue(c);
        x * (10 * z) + (10 * y + DigitValue(c));
      }
    }
  }

  lemma ShiftLeft(x: int, z: int)
    ensures 10 * (x * z) == x * (10 * z)
  {
  }

  /** The shortest decimal spelling of a natural number. */
  function NatToDigits(n: nat): (r: string)
    ensures |r| > 0 && AllDigits(r)
    ensures DigitsValue(r) == n
    decreases n
  {
    var last := ['0' + (n % 10) as char];
    if n < 10 then last
    else
      var front := NatToDigits(n / 10);
      assert (front + last)[..|front + last| - 1] == front;
      front + last
  }

  // ---------------------------------------------------------------------------
  // PHP numeric strings, simplified to integers
  // ---------------------------------------------------------------------------

  /** Number of leading characters of `s` satisfying the digit class. */
  function DigitRun(s: string): (n: nat)
    ensures n <= |s| && AllDigits(s[..n])
    ensures n < |s| ==> !IsDigit(s[n])
  {
    if |s| == 0 || !IsDigit(s[0]) then 0
    else
      var n := 1 + DigitRun(s[1..]);
      assert s[..n] == [s[0]] + s[1..][..n - 1];
      n
  }

  /** Length of the leading white space of `s`; PHP's numeric strings use
      the same six characters as `\s`. */
  function SpaceRun(s: string): (n: nat)
    ensures n <= |s|
    ensures forall i :: 0 <= i < n ==> IsSpace(s[i])
    ensures n < |s| ==> !IsSpace(s[n])
  {
    if |s| == 0 || !IsSpace(s[0]) then 0 else 1 + SpaceRun(s[1..])
  }

  /** PHP `(int)$s`: leading whitespace, an optional sign and the longest digit
      prefix; a string without such a prefix is 0. Exponents and the
      saturation at PHP_INT_MAX are not modelled. */
  function IntCast(s: string): int {
    var t := s[SpaceRun(s)..];
    var neg := |t| > 0 && t[0] == '-';
    var u := if |t| > 0 && (t[0] == '-' || t[0] == '+') then t[1..] else t;
    var v: int := DigitsValue(u[..DigitRun(u)]);
    if neg then -v else v
  }

  /** PHP `is_numeric`, restricted to integers: optional leading whitespace,
      an optional sign, at least one digit, optional trailing whitespace. */
  predicate IsNumeric(s: string) {
    var t := s[SpaceRun(s)..];
    var u := if |t| > 0 && (t[0] == '-' || t[0] == '+') then t[1..] else t;
    var n := DigitRun(u);
    n > 0 && forall i :: n <= i < |u| ==> IsSpace(u[i])
  }

  /** A plain digit string is numeric and casts to its decimal value. */
  lemma DigitsCast(s: string)
    requires |s| > 0 && AllDigits(s)
    ensures IsNumeric(s)
    ensures IntCast(s) == DigitsValue(s)
  {
    assert SpaceRun(s) == 0;
    assert s[0..] == s;
    DigitRunAll(s);
    assert s[..|s|] == s;
  }

  lemma {:induction false} DigitRunAll(s: string)
    requires AllDigits(s)
    ensures DigitRun(s) == |s|
  {
    if |s| > 0 {
      DigitRunAll(s[1..]);
    }
  }

  /** PHP truthiness of a string: everything except "" and "0". */
  predicate Truthy(s: string) {
    s != "" && s != "0"
  }

  // ---------------------------------------------------------------------------
  // explode
  // ---------------------------------------------------------------------------

  function Occurrences(s: string, d: char): nat {
    if |s| == 0 then 0 else (if s[0] == d then 1 else 0) + Occurrences(s[1..], d)
  }

  /** PHP `explode($d, $s)` for a one-character delimiter: the pieces between
      the delimiters, one more piece than there are delimiters. */
  function Explode(s: string, d: char): (r: seq<string>)
    ensures |r| == Occurrences(s, d) + 1
    ensures forall i :: 0 <= i < |r| ==> d !in r[i]
  {
    if |s| == 0 then [""]
    else
      var rest := Explode(s[1..], d);
      if s[0] == d then [""] + rest
      else [[s[0]] + rest[0]] + rest[1..]
  }

  /** PHP `implode($d, $pieces)`. */
  function Join(pieces: seq<string>, d: char): string
    requires |pieces| > 0
  {
    if |pieces| == 1 then pieces[0] else pieces[0] + [d] + Join(pieces[1..], d)
  }

  /** Exploding and re-joining on the same delimiter gives the string back. */
  lemma {:induction false} JoinExplode(s: string, d: char)
    ensures Join(Explode(s, d), d) == s
  {
    if |s| > 0 {
      JoinExplode(s[1..], d);
      var rest := Explode(s[1..], d);
      if s[0] != d {
        if |rest| == 1 {
          assert Join(Explode(s, d), d) == [s[0]] + rest[0];
        } else {
          assert Explode(s, d)[1..] == rest[1..];
          assert Join(Explode(s, d), d) == ([s[0]] + rest[0]) + [d] + Join(rest[1..], d);
        }
        assert [s[0]] + s[1..] == s;
      } else {
        assert Explode(s, d)[1..] == rest;
      }
    }
  }

  /** Exploding pieces that do not contain the delimiter, joined by it, gives
      the pieces back. */
  lemma {:induction false} ExplodeJoin(pieces: seq<string>, d: char)
    requires |pieces| > 0
    requires forall i :: 0 <= i < |pieces| ==> d !in pieces[i]
    ensures Explode(Join(pieces, d), d) == pieces
    decreases |pieces|
  {
    if |pieces| == 1 {
      ExplodeFree(pieces[0], d);
    } else {
      ExplodeJoin(pieces[1..], d);
      ExplodePrefix(pieces[0], Join(pieces[1..], d), d);
      assert pieces[0] + [d] + Join(pieces[1..], d) == pieces[0] + ([d] + Join(pieces[1..], d));
      assert [pieces[0]] + pieces[1..] == pieces;
    }
  }

  lemma {:induction false} ExplodeFree(s: string, d: char)
    requires d !in s
    ensures Explode(s, d) == [s]
  {
    if |s| > 0 {
      assert d !in s[1..] by {
        forall i | 0 <= i < |s[1..]| ensures s[1..][i] != d {
          assert s[1..][i] == s[i + 1];
        }
      }
      ExplodeFree(s[1..], d);
      assert [s[0]] + s[1..] == s;
    }
  }

  /** A delimiter-free prefix followed by the delimiter contributes exactly
      one piece. */
  lemma {:induction false} ExplodePrefix(a: string, b: string, d: char)
    requires d !in a
    ensures Explode(a + ([d] + b), d) == [a] + Explode(b, d)
    decreases |a|
  {
    if |a| == 0 {
      assert a + ([d] + b) == [d] + b;
      assert ([d] + b)[1..] == b;
    } else {
      var a' := a[1..];
      assert d !in a' by {
        forall i | 0 <= i < |a'| ensures a'[i] != d {
          assert a'[i] == a[i + 1];
        }
      }
      ExplodePrefix(a', b, d);
      assert (a + ([d] + b))[1..] == a' + ([d] + b);
      assert [a[0]] + a' == a;
    }
  }

  // ---------------------------------------------------------------------------
  // Quote entities
  // ---------------------------------------------------------------------------

  /** The quote encoding of PHP's string sanitiser: `'` becomes `&#39;` and
      `"` becomes `&#34;`. */
  function EncodeQuotes(s: string): string {
    if |s| == 0 then ""
    else if s[0] == '\'' then "&#39;" + EncodeQuotes(s[1..])
    else if s[0] == '"' then "&#34;" + EncodeQuotes(s[1..])
    else [s[0]] + EncodeQuotes(s[1..])
  }

  /** `html_entity_decode($s, ENT_QUOTES)`, restricted to the two entities
      the sanitiser produces. */
  function DecodeQuotes(s: string): (r: string)
    ensures |r| <= |s|
  {
    if |s| >= 5 && s[..5] == "&#39;" then "'" + DecodeQuotes(s[5..])
    else if |s| >= 5 && s[..5] == "&#34;" then "\"" + DecodeQuotes(s[5..])
    else if |s| == 0 then ""
    else [s[0]] + DecodeQuotes(s[1..])
  }

  /** Decoding leaves a string without ampersands alone. */
  lemma {:induction false} DecodePlain(s: string)
    requires '&' !in s
    ensures DecodeQuotes(s) == s
  {
    if |s| > 0 {
      assert s[0] in s;
      assert |s| >= 5 ==> s[..5][0] == s[0];
      assert '&' !in s[1..] by {
        forall i | 0 <= i < |s[1..]| ensures s[1..][i] != '&' {
          assert s[1..][i] == s[i + 1];
        }
      }
      DecodePlain(s[1..]);
      assert s == [s[0]] + s[1..];
    }
  }

  /** Decoding undoes the sanitiser's quote encoding on any string that has
      no ampersand of its own. */
  lemma {:induction false} DecodeEncodeQuotes(s: string)
    requires '&' !in s
    ensures DecodeQuotes(EncodeQuotes(s)) == s
  {
    if |s| > 0 {
      assert '&' !in s[1..] by {
        forall i | 0 <= i < |s[1..]| ensures s[1..][i] != '&' {
          assert s[1..][i] == s[i + 1];
        }
      }
      DecodeEncodeQuotes(s[1..]);
      var e := EncodeQuotes(s[1..]);
      if s[0] == '\'' {
        assert ("&#39;" + e)[..5] == "&#39;";
        assert ("&#39;" + e)[5..] == e;
      } else if s[0] == '"' {
        assert ("&#34;" + e)[..5] == "&#34;";
        assert ("&#34;" + e)[5..] == e;
      } else {
        var x := [s[0]] + e;
        assert x[0] == s[0];
        assert x[1..] == e;
      }
      assert [s[0]] + s[1..] == s;
    }
  }

  /** Decoding passes a character other than `&` through unchanged. */
  lemma DecodeStep(c: char, t: string)
    requires c != '&'
    ensures DecodeQuotes([c] + t) == [c] + DecodeQuotes(t)
  {
    var x := [c] + t;
    assert |x| >= 5 ==> x[..5][0] == c;
    assert x[1..] == t;
  }

  lemma ConsAppend(c: char, b: string, e: string)
    ensures [c] + (b + e) == ([c] + b) + e
  {
  }

  /** A prefix without ampersands decodes to itself, whatever follows it. */
  lemma {:induction false} DecodeAfterPlain(a: string, t: string)
    requires '&' !in a
    ensures DecodeQuotes(a + t) == a + DecodeQuotes(t)
  {
    if |a| > 0 {
      assert a[0] in a;
      assert '&' !in a[1..] by {
        forall i | 0 <= i < |a[1..]| ensures a[1..][i] != '&' {
          assert a[1..][i] == a[i + 1];
        }
      }
      var c, b := a[0], a[1..];
      assert a == [c] + b;
      assert a + t == [c] + (b + t);
      DecodeStep(c, b + t);
      DecodeAfterPlain(b, t);
      var e := DecodeQuotes(t);
      ConsAppend(c, b, e);
    } else {
      assert a + t == t;
    }
  }

  /** Encoding passes a character other than a quote through unchanged. */
  lemma EncodeStep(c: char, t: string)
    requires c != '\'' && c != '"'
    ensures EncodeQuotes([c] + t) == [c] + EncodeQuotes(t)
  {
    assert ([c] + t)[1..] == t;
  }

  /** A prefix without quotes encodes to itself, whatever follows it. */
  lemma {:induction false} EncodeAfterPlain(a: string, t: string)
    requires '\'' !in a && '"' !in a
    ensures EncodeQuotes(a + t) == a + EncodeQuotes(t)
  {
    if |a| > 0 {
      assert a[0] in a;
      assert '\'' !in a[1..] && '"' !in a[1..] by {
        forall i | 0 <= i < |a[1..]| ensures a[1..][i] != '\'' && a[1..][i] != '"' {
          assert a[1..][i] == a[i + 1];
        }
      }
      var c, b := a[0], a[1..];
      assert a == [c] + b;
      assert a + t == [c] + (b + t);
      EncodeStep(c, b + t);
      EncodeAfterPlain(b, t);
      var e := EncodeQuotes(t);
      ConsAppend(c, b, e);
    } else {
      assert a + t == t;
    }
  }
}
