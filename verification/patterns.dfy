/** The regular expressions of the date finder, each hand-coded as a matcher
    that answers "does the pattern match starting exactly at position p, and
    with which capture groups?", plus the leftmost-match search that
    `preg_match` performs on top of it.

    PCRE tries alternatives and quantifiers in a fixed order and backtracks.
    For the patterns used here the backtracking never changes the outcome at a
    given start position, and each matcher below follows the order PCRE would
    try (greedy quantifiers first, alternatives left to right); the comment on
    each matcher says why no other choice could succeed. */
module Patterns {
  import opened Text

  /** The long month names, in calendar order. */
  const LongMonthNames: seq<string> := [
    "january", "february", "march", "april", "may", "june",
    "july", "august", "september", "october", "november", "december"]

  /** The first three letters of each long month name. */
  const ShortMonthNames: seq<string> := [
    "jan", "feb", "mar", "apr", "may", "jun",
    "jul", "aug", "sep", "oct", "nov", "dec"]

  /** A successful match: where it ends, and the capture groups (group 0 is
      the whole matched text, an optional group that did not take part is ""). */
  datatype Match = Match(end: nat, groups: seq<string>)

  /** The patterns used by the date finder. */
  datatype Pattern =
    | DayMonthYear        // ([0-9]{1,2})(st|nd|rd|th)?([^A-Za-z0-9]+)(january|...|december)([^A-Za-z0-9]+)([0-9]{4})  /i
    | FullYear            // \b(\d{4})\b
    | ApostropheYear      // \s['](\d{2})\b
    | FullMonthWord       // \b(january|...|december)\b  /i
    | ShortMonthWord      // \b(jan|...|dec)\b  /i
    | DayNumber           // \b([0-9]{1,2})(st|nd|rd|th)?\b
    | ShortMonthAnywhere  // (jan|...|dec)  /i
    | OrdinalDay          // ([0-9]?[0-9])(st|nd|rd|th)
    | FourDigits          // [0-9]{4}

  // ---------------------------------------------------------------------------
  // Building blocks
  // ---------------------------------------------------------------------------

  /** `n` digits start at `p`. */
  predicate DigitsAt(s: string, p: nat, n: nat)
    decreases n
  {
    if n == 0 then p <= |s| else p < |s| && IsDigit(s[p]) && DigitsAt(s, p + 1, n - 1)
  }

  lemma {:induction false} DigitsAtSlice(s: string, p: nat, n: nat)
    ensures DigitsAt(s, p, n) <==> p + n <= |s| && AllDigits(s[p..p + n])
    decreases n
  {
    if n > 0 {
      DigitsAtSlice(s, p + 1, n - 1);
      if p + n <= |s| {
        var w, w' := s[p..p + n], s[p + 1..p + n];
        assert forall i :: 0 <= i < n - 1 ==> w'[i] == w[i + 1];
        assert w[0] == s[p];
        assert AllDigits(w) <==> IsDigit(w[0]) && AllDigits(w');
      }
    }
  }

  /** `DigitsAtSlice` for the span `a..b`. */
  lemma DigitsSpan(s: string, a: nat, b: nat)
    requires a <= b
    ensures DigitsAt(s, a, b - a) <==> b <= |s| && AllDigits(s[a..b])
  {
    DigitsAtSlice(s, a, b - a);
    assert a + (b - a) == b;
  }

  /** The two letters of an ordinal suffix `st|nd|rd|th`. */
  predicate IsSuffix(a: char, b: char) {
    (a == 's' && b == 't') || (a == 'n' && b == 'd') || (a == 'r' && b == 'd') || (a == 't' && b == 'h')
  }

  /** `g` is an ordinal suffix, ignoring case when `ci`. */
  predicate SuffixText(g: string, ci: bool) {
    |g| == 2 && (if ci then IsSuffix(Lower(g[0]), Lower(g[1])) else IsSuffix(g[0], g[1]))
  }

  /** An ordinal suffix starts at `p`, matched case-insensitively when `ci`. */
  predicate SuffixAt(s: string, p: nat, ci: bool) {
    p + 2 <= |s| && SuffixText(s[p..p + 2], ci)
  }

  /** End of the longest run of `[^A-Za-z0-9]` starting at `p`. */
  function NonAlnumEnd(s: string, p: nat): (r: nat)
    requires p <= |s|
    ensures p <= r <= |s|
    ensures forall j :: p <= j < r ==> !IsAlnum(s[j])
    ensures r < |s| ==> IsAlnum(s[r])
    decreases |s| - p
  {
    if p == |s| || IsAlnum(s[p]) then p else NonAlnumEnd(s, p + 1)
  }

  /** Alternative `name` of a group `(a|b|...)` matches at `p`, followed by a
      word boundary when `bounded` (the pattern's trailing `\b`). */
  predicate NameFits(s: string, p: nat, name: string, bounded: bool) {
    MatchesCI(s, p, name) && (bounded ==> Boundary(s, p + |name|))
  }

  /** The first alternative, from index `k` on, that fits at `p`: the order in
      which PCRE tries the branches of an alternation. */
  function FirstName(s: string, p: nat, names: seq<string>, k: nat, bounded: bool): (r: Option<nat>)
    requires k <= |names|
    ensures r.Some? ==> k <= r.value < |names| && NameFits(s, p, names[r.value], bounded)
    ensures r.Some? ==> forall j :: k <= j < r.value ==> !NameFits(s, p, names[j], bounded)
    ensures r.None? ==> forall j :: k <= j < |names| ==> !NameFits(s, p, names[j], bounded)
    decreases |names| - k
  {
    if k == |names| then None
    else if NameFits(s, p, names[k], bounded) then Some(k)
    else FirstName(s, p, names, k + 1, bounded)
  }

  /** PHP `array_search($x, $names)`: the first index holding `x`. */
  function ArraySearch(names: seq<string>, x: string): (r: Option<nat>)
    ensures r.Some? ==> r.value < |names| && names[r.value] == x
    ensures r.Some? ==> forall j :: 0 <= j < r.value ==> names[j] != x
    ensures r.None? <==> x !in names
  {
    if |names| == 0 then None
    else if names[0] == x then Some(0)
    else match ArraySearch(names[1..], x)
      case None => None
      case Some(i) => Some(i + 1)
  }

  /** Any two month names (long or short) that both match at one position
      are the same name, because the twelve three-letter prefixes differ.
      So the first alternative of the alternation that fits is the only one. */
  lemma FirstNameFits(s: string, p: nat, names: seq<string>, i: nat, bounded: bool)
    requires names == LongMonthNames || names == ShortMonthNames
    requires i < |names| && NameFits(s, p, names[i], bounded)
    ensures FirstName(s, p, names, 0, bounded) == Some(i)
  {
    var j := FirstName(s, p, names, 0, bounded).value;
    MonthPrefix(names, i);
    MonthPrefix(names, j);
    SamePrefix(s, p, names[i], names[j]);
    MonthPrefixesDistinct(i, j);
  }

  /** At most one month name of a list matches at a position. */
  lemma OnlyMonthName(s: string, p: nat, names: seq<string>, i: nat, j: nat)
    requires names == LongMonthNames || names == ShortMonthNames
    requires i < |names| && j < |names| && MatchesCI(s, p, names[i]) && MatchesCI(s, p, names[j])
    ensures i == j
  {
    MonthPrefix(names, i);
    MonthPrefix(names, j);
    SamePrefix(s, p, names[i], names[j]);
    MonthPrefixesDistinct(i, j);
  }

  lemma MonthPrefix(names: seq<string>, i: nat)
    requires names == LongMonthNames || names == ShortMonthNames
    requires i < |names|
    ensures i < 12 && |names[i]| >= 3 && names[i][..3] == LongMonthNames[i][..3]
  {
  }

  lemma SamePrefix(s: string, p: nat, a: string, b: string)
    requires MatchesCI(s, p, a) && MatchesCI(s, p, b) && |a| >= 3 && |b| >= 3
    ensures a[..3] == b[..3]
  {
    MatchesFromAll(s, p, a, 0);
    MatchesFromAll(s, p, b, 0);
    assert a[0] == Lower(s[p]) == b[0];
    assert a[1] == Lower(s[p + 1]) == b[1];
    assert a[2] == Lower(s[p + 2]) == b[2];
  }

  lemma MonthPrefixesDistinct(i: nat, j: nat)
    requires i < 12 && j < 12
    requires LongMonthNames[i][..3] == LongMonthNames[j][..3]
    ensures i == j
  {
    assert LongMonthNames[i][..3] == ShortMonthNames[i];
    assert LongMonthNames[j][..3] == ShortMonthNames[j];
  }

  lemma MonthNameStartsWithLetter(names: seq<string>, k: nat)
    requires names == LongMonthNames || names == ShortMonthNames
    requires k < |names|
    ensures |names[k]| > 0 && IsLower(names[k][0])
  {
  }

  /** A month name, long or short, starts on a letter, and on a word
      boundary when the pattern is bounded. */
  lemma NameStart(s: string, q: nat, pat: Pattern)
    requires pat == FullMonthWord || pat == ShortMonthWord || pat == ShortMonthAnywhere
    requires MatchAt(pat, s, q).Some?
    ensures q < |s| && IsAlpha(s[q])
    ensures pat != ShortMonthAnywhere ==> Boundary(s, q)
  {
    var names := if pat == FullMonthWord then LongMonthNames else ShortMonthNames;
    var bounded := pat != ShortMonthAnywhere;
    assert MatchAt(pat, s, q) == NameAt(s, q, names, bounded);
    var i := FirstName(s, q, names, 0, bounded).value;
    MonthNameStartsWithLetter(names, i);
    MatchesFromAll(s, q, names[i], 0);
    assert Lower(s[q]) == names[i][0];
  }

  /** A text without letters holds no month name, long or short, bounded or
      not. */
  lemma LetterFreeNoName(s: string, pat: Pattern)
    requires pat == FullMonthWord || pat == ShortMonthWord || pat == ShortMonthAnywhere
    requires forall i :: 0 <= i < |s| ==> !IsAlpha(s[i])
    ensures Leftmost(pat, s, 0).None?
  {
    if Leftmost(pat, s, 0).Some? {
      NameStart(s, Leftmost(pat, s, 0).value, pat);
    }
  }

  // ---------------------------------------------------------------------------
  // The matchers
  // ---------------------------------------------------------------------------

  /** `t` is one of the long month names. */
  predicate IsLongMonthName(t: string) {
    exists i :: 0 <= i < |LongMonthNames| && LongMonthNames[i] == t
  }

  /** A slice is the concatenation of its two halves. */
  lemma SliceSplit(s: string, a: nat, b: nat, c: nat)
    requires a <= b <= c <= |s|
    ensures s[a..c] == s[a..b] + s[b..c]
  {
  }

  /** Cutting a slice at five points and gluing the pieces gives it back. */
  lemma SliceCuts(s: string, p: nat, q: nat, k: nat, r: nat, m: nat, t: nat, e: nat)
    requires p <= q <= k <= r <= m <= t <= e <= |s|
    ensures s[p..e] == s[p..q] + s[q..k] + s[k..r] + s[r..m] + s[m..t] + s[t..e]
  {
    SliceSplit(s, p, q, k);
    SliceSplit(s, p, k, r);
    SliceSplit(s, p, r, m);
    SliceSplit(s, p, m, t);
    SliceSplit(s, p, t, e);
  }

  /** What `simpleDate` reads from a match: one or two digits in group 1,
      a long month name (in any case) in group 4 and four digits in group 6. */
  predicate SimpleDateShape(m: Match) {
    && |m.groups| == 7
    && 1 <= |m.groups[1]| <= 2 && AllDigits(m.groups[1])
    && IsLongMonthName(LowerStr(m.groups[4]))
    && |m.groups[6]| == 4 && AllDigits(m.groups[6])
  }

  /** `([0-9]{1,2})(st|nd|rd|th)?([^A-Za-z0-9]+)(january|...)([^A-Za-z0-9]+)([0-9]{4})`
      case-insensitively at `p`. Two digits are taken when present (one digit
      followed by a digit can match neither the suffix nor the separator); the
      suffix is taken when present (without it the separator would have to
      start on a letter); each separator is the whole non-alphanumeric run
      (a shorter one would leave the month name or the year starting on a
      separator character); no month name is a prefix of another. */
  function SimpleDateAt(s: string, p: nat): (r: Option<Match>)
    ensures r.Some? ==>
      && p < r.value.end <= |s| && |r.value.groups| == 7
      && r.value.groups[0] == s[p..r.value.end]
  {
    match SimpleDateHead(s, p)
    case None => None
    case Some(c) => SimpleDateTail(s, p, c.q, c.k, c.r, c.m)
  }

  /** Where the first groups of a `SimpleDate` match end: `q` after the
      digits, `k` after the optional suffix, `r` after the first separator,
      and which month name follows, ending at `m`. */
  datatype Cuts = Cuts(q: nat, k: nat, r: nat, name: nat, m: nat)

  /** The cut points of a `SimpleDate` match at `p` up to its month name. */
  function SimpleDateHead(s: string, p: nat): (c: Option<Cuts>)
    ensures c.Some? ==> SimpleDateHeadFits(s, p, c.value)
  {
    if !DigitsAt(s, p, 1) then None
    else
      var q := if DigitsAt(s, p, 2) then p + 2 else p + 1;
      var k := if SuffixAt(s, q, true) then q + 2 else q;
      var r := NonAlnumEnd(s, k);
      if r == k then None
      else match LongNameAt(s, r)
        case None => None
        case Some(i) => Some(Cuts(q, k, r, i, r + |LongMonthNames[i]|))
  }

  /** The head of a `SimpleDate` match: one or two digits, an optional
      suffix, a non-empty separator run, then month name `name`. */
  predicate SimpleDateHeadFits(s: string, p: nat, c: Cuts) {
    && p < c.q <= p + 2 && DigitsAt(s, p, c.q - p)
    && (c.k == c.q || (c.k == c.q + 2 && SuffixAt(s, c.q, true)))
    && c.k < c.r <= |s| && (forall j :: c.k <= j < c.r ==> !IsAlnum(s[j]))
    && c.name < 12 && NameFits(s, c.r, LongMonthNames[c.name], false)
    && c.m == c.r + |LongMonthNames[c.name]|
  }

  /** Every match `SimpleDateAt` finds has the shape the pattern demands. */
  lemma SimpleDateAtShape(s: string, p: nat)
    requires SimpleDateAt(s, p).Some?
    ensures SimpleDateShape(SimpleDateAt(s, p).value)
  {
    var c := SimpleDateHead(s, p).value;
    SimpleDateHeadReads(s, p, c);
    SimpleDateTailShape(s, p, c.q, c.k, c.r, c.m, c.name);
  }

  /** What the head of a `SimpleDate` match reads: its day digits and,
      lower-cased, its month name. */
  lemma SimpleDateHeadReads(s: string, p: nat, c: Cuts)
    requires SimpleDateHeadFits(s, p, c)
    ensures p < c.q <= p + 2 && c.q <= c.k <= c.r <= c.m <= |s|
    ensures AllDigits(s[p..c.q])
    ensures c.name < 12 && LowerStr(s[c.r..c.m]) == LongMonthNames[c.name]
  {
    DigitsSpan(s, p, c.q);
    MatchesCISlice(s, c.r, LongMonthNames[c.name]);
  }

  /** The rest of a `SimpleDate` match once the month name is found at
      `r..m`: the second separator run, then four digits. */
  function SimpleDateTail(s: string, p: nat, q: nat, k: nat, r: nat, m: nat): (res: Option<Match>)
    requires p <= q <= k <= r <= m <= |s|
    ensures res.Some? <==> NonAlnumEnd(s, m) != m && DigitsAt(s, NonAlnumEnd(s, m), 4)
    ensures res.Some? ==> res.value == SimpleDateMatch(s, p, q, k, r, m, NonAlnumEnd(s, m))
  {
    var t := NonAlnumEnd(s, m);
    if t == m || !DigitsAt(s, t, 4) then None
    else Some(SimpleDateMatch(s, p, q, k, r, m, t))
  }

  /** A match `SimpleDateTail` finds after a head that read day digits and
      a month name reads as a date. */
  lemma SimpleDateTailShape(s: string, p: nat, q: nat, k: nat, r: nat, m: nat, name: nat)
    requires p < q <= p + 2 && q <= k <= r <= m <= |s| && AllDigits(s[p..q])
    requires name < 12 && LowerStr(s[r..m]) == LongMonthNames[name]
    ensures var res := SimpleDateTail(s, p, q, k, r, m);
      res.Some? ==> SimpleDateShape(res.value)
  {
    var res := SimpleDateTail(s, p, q, k, r, m);
    if res.Some? {
      var t := NonAlnumEnd(s, m);
      DigitsAtSlice(s, t, 4);
      var g := res.value.groups;
      assert g[1] == s[p..q] && g[6] == s[t..t + 4];
      assert LowerStr(g[4]) == LongMonthNames[name];
    }
  }

  /** The `SimpleDate` match whose groups are cut at `q`, `k`, `r`, `m`, `t`. */
  function SimpleDateMatch(s: string, p: nat, q: nat, k: nat, r: nat, m: nat, t: nat): (x: Match)
    requires p <= q <= k <= r <= m <= t && t + 4 <= |s|
    ensures x.end == t + 4 && |x.groups| == 7 && x.groups[0] == s[p..t + 4]
    ensures x.groups[1] == s[p..q] && x.groups[2] == s[q..k] && x.groups[3] == s[k..r]
    ensures x.groups[4] == s[r..m] && x.groups[5] == s[m..t] && x.groups[6] == s[t..t + 4]
    ensures x.groups[0] == x.groups[1] + x.groups[2] + x.groups[3] + x.groups[4] + x.groups[5] + x.groups[6]
  {
    SliceCuts(s, p, q, k, r, m, t, t + 4);
    Match(t + 4, [s[p..t + 4], s[p..q], s[q..k], s[k..r], s[r..m], s[m..t], s[t..t + 4]])
  }

  /** A `SimpleDate` match holds a letter: the first one of its month name. */
  lemma SimpleDateLetter(s: string, p: nat)
    requires SimpleDateAt(s, p).Some?
    ensures var c := SimpleDateHead(s, p).value; c.r < |s| && IsAlpha(s[c.r])
  {
    var c := SimpleDateHead(s, p).value;
    MonthNameStartsWithLetter(LongMonthNames, c.name);
    MatchesFromAll(s, c.r, LongMonthNames[c.name], 0);
    assert Lower(s[c.r]) == LongMonthNames[c.name][0];
  }

  /** Where a run of `[^A-Za-z0-9]` from `p` stops: at the first alphanumeric
      character, or at the end of `s`. */
  lemma {:induction false} NonAlnumEndIs(s: string, p: nat, r: nat)
    requires p <= r <= |s| && (forall j :: p <= j < r ==> !IsAlnum(s[j]))
    requires r < |s| ==> IsAlnum(s[r])
    ensures NonAlnumEnd(s, p) == r
    decreases r - p
  {
    if p < r {
      NonAlnumEndIs(s, p + 1, r);
    }
  }

  /** A `SimpleDate` present at `p` is found there: whenever `s` holds, from
      `p` on, a head cut at `c` (one or two digits, an optional ordinal
      suffix, a separator run, a long month name), a second separator run up
      to `t` and four digits, then `SimpleDateAt` reports exactly that match. */
  lemma SimpleDateFound(s: string, p: nat, c: Cuts, t: nat)
    requires SimpleDateHeadFits(s, p, c)
    requires c.m < t <= |s| && forall j :: c.m <= j < t ==> !IsAlnum(s[j])
    requires t + 4 <= |s| && AllDigits(s[t..t + 4])
    ensures SimpleDateAt(s, p) == Some(SimpleDateMatch(s, p, c.q, c.k, c.r, c.m, t))
  {
    SimpleDateFoundHead(s, p, c);
    SimpleDateAtCuts(s, p, c);
    SimpleDateTailFound(s, p, c.q, c.k, c.r, c.m, t);
  }

  /** A separator run up to `t` and four digits after the month name are
      what `SimpleDateTail` finds. */
  lemma SimpleDateTailFound(s: string, p: nat, q: nat, k: nat, r: nat, m: nat, t: nat)
    requires p <= q <= k <= r <= m < t && t + 4 <= |s|
    requires forall j :: m <= j < t ==> !IsAlnum(s[j])
    requires AllDigits(s[t..t + 4])
    ensures SimpleDateTail(s, p, q, k, r, m) == Some(SimpleDateMatch(s, p, q, k, r, m, t))
  {
    assert IsDigit(s[t]) by { assert s[t] == s[t..t + 4][0]; }
    NonAlnumEndIs(s, m, t);
    DigitsAtSlice(s, t, 4);
  }

  /** The head `SimpleDateHead` finds is the only one: any cut that fits
      at `p` is the one it reports. */
  lemma SimpleDateFoundHead(s: string, p: nat, c: Cuts)
    requires SimpleDateHeadFits(s, p, c)
    ensures SimpleDateHead(s, p) == Some(c)
  {
    HeadRunsGreedy(s, p, c);
    LongNameLetter(s, c.r, c.name);
    NonAlnumEndIs(s, c.k, c.r);
    LongNameAtFits(s, c.r, c.name);
    SimpleDateHeadCuts(s, p, c.q, c.k, c.r, c.name);
    var h := SimpleDateHead(s, p).value;
    assert h.m == c.m by {
      assert SimpleDateHeadFits(s, p, h);
    }
  }

  /** The long month name at `r`, if any: the alternation
      `(january|...|december)` without boundaries. */
  function LongNameAt(s: string, r: nat): (i: Option<nat>)
    ensures i.Some? ==> i.value < 12 && MatchesCI(s, r, LongMonthNames[i.value])
  {
    var i := FirstName(s, r, LongMonthNames, 0, false);
    if i.Some? then MonthPrefix(LongMonthNames, i.value); i else i
  }

  /** Whichever long month name matches at `r` is the one `LongNameAt`
      reports. */
  lemma LongNameAtFits(s: string, r: nat, i: nat)
    requires i < 12 && MatchesCI(s, r, LongMonthNames[i])
    ensures LongNameAt(s, r) == Some(i)
  {
    FirstNameFits(s, r, LongMonthNames, i, false);
  }

  /** In a head that fits, the digits and the suffix are as long as they
      can be: a lone digit is followed by a letter or a separator, and a
      missing suffix leaves the separator on its first character. */
  lemma HeadRunsGreedy(s: string, p: nat, c: Cuts)
    requires SimpleDateHeadFits(s, p, c)
    ensures DigitsAt(s, p, 1) && c.q == (if DigitsAt(s, p, 2) then p + 2 else p + 1)
    ensures c.q <= |s| && c.k == (if SuffixAt(s, c.q, true) then c.q + 2 else c.q)
  {
    DigitsAtSlice(s, p, c.q - p);
    SuffixLetter(s, c.q);
    assert !IsAlnum(s[c.k]);
  }

  /** A long month name matched at `r` starts on a letter. */
  lemma LongNameLetter(s: string, r: nat, i: nat)
    requires i < 12 && MatchesCI(s, r, LongMonthNames[i])
    ensures r < |s| && IsAlpha(s[r])
  {
    MonthNameStartsWithLetter(LongMonthNames, i);
    FirstLetterMatches(s, r, LongMonthNames[i]);
  }

  lemma FirstLetterMatches(s: string, r: nat, name: string)
    requires |name| > 0 && MatchesCI(s, r, name)
    ensures r < |s| && Lower(s[r]) == name[0]
  {
    MatchesFromAll(s, r, name, 0);
  }

  /** An ordinal suffix starts on a letter. */
  lemma SuffixLetter(s: string, q: nat)
    ensures SuffixAt(s, q, true) ==> q < |s| && IsAlpha(s[q])
  {
    if SuffixAt(s, q, true) {
      assert s[q] == s[q..q + 2][0];
    }
  }

  /** A `SimpleDate` match has a letter followed, later, by a digit: the
      first letter of its month name and the first digit of its year. */
  lemma SimpleDateYearDigit(s: string, p: nat) returns (r: nat, t: nat)
    requires SimpleDateAt(s, p).Some?
    ensures p <= r < t < |s| && IsAlpha(s[r]) && IsDigit(s[t])
  {
    var c := SimpleDateHead(s, p).value;
    SimpleDateLetter(s, p);
    SimpleDateAtCuts(s, p, c);
    TailDigit(s, p, c.q, c.k, c.r, c.m);
    r, t := c.r, NonAlnumEnd(s, c.m);
  }

  lemma TailDigit(s: string, p: nat, q: nat, k: nat, r: nat, m: nat)
    requires p <= q <= k <= r <= m <= |s| && SimpleDateTail(s, p, q, k, r, m).Some?
    ensures m < NonAlnumEnd(s, m) < |s| && IsDigit(s[NonAlnumEnd(s, m)])
  {
  }

  /** The cut points `SimpleDateHead` finds, given where each run ends. */
  lemma SimpleDateHeadCuts(s: string, p: nat, q: nat, k: nat, r: nat, i: nat)
    requires DigitsAt(s, p, 1) && q == (if DigitsAt(s, p, 2) then p + 2 else p + 1)
    requires q <= |s| && k == (if SuffixAt(s, q, true) then q + 2 else q)
    requires k <= |s| && r == NonAlnumEnd(s, k) && r != k
    requires LongNameAt(s, r) == Some(i)
    ensures var c := SimpleDateHead(s, p); c.Some? && c.value.q == q && c.value.k == k && c.value.r == r && c.value.name == i
  {
  }

  /** Once the head is cut, the rest of a `SimpleDate` match is its tail. */
  lemma SimpleDateAtCuts(s: string, p: nat, c: Cuts)
    requires SimpleDateHead(s, p) == Some(c)
    ensures p < c.q <= c.k <= c.r <= c.m <= |s|
    ensures SimpleDateAt(s, p) == SimpleDateTail(s, p, c.q, c.k, c.r, c.m)
  {
    SimpleDateHeadReads(s, p, c);
  }

  /** `\b(\d{4})\b` at `p`. */
  function FullYearAt(s: string, p: nat): (r: Option<Match>)
    ensures r.Some? ==> r.value.end == p + 4 <= |s| && r.value.groups == [s[p..p + 4], s[p..p + 4]]
    ensures r.Some? <==> Boundary(s, p) && DigitsAt(s, p, 4) && Boundary(s, p + 4)
    ensures r.Some? ==> AllDigits(s[p..p + 4])
  {
    if Boundary(s, p) && DigitsAt(s, p, 4) && Boundary(s, p + 4)
    then
      DigitsAtSlice(s, p, 4);
      Some(Match(p + 4, [s[p..p + 4], s[p..p + 4]]))
    else None
  }

  /** `\s['](\d{2})\b` at `p`. */
  function ApostropheYearAt(s: string, p: nat): (r: Option<Match>)
    ensures r.Some? ==> r.value.end == p + 4 <= |s| && r.value.groups == [s[p..p + 4], s[p + 2..p + 4]]
    ensures r.Some? <==>
      p + 4 <= |s| && IsSpace(s[p]) && s[p + 1] == '\'' && DigitsAt(s, p + 2, 2) && Boundary(s, p + 4)
    ensures r.Some? ==> AllDigits(s[p + 2..p + 4])
  {
    if p + 4 <= |s| && IsSpace(s[p]) && s[p + 1] == '\'' && DigitsAt(s, p + 2, 2) && Boundary(s, p + 4)
    then
      DigitsAtSlice(s, p + 2, 2);
      Some(Match(p + 4, [s[p..p + 4], s[p + 2..p + 4]]))
    else None
  }

  /** `\b(a|b|...)\b` (when `bounded`) or `(a|b|...)` over `names`,
      case-insensitively, at `p`: the first alternative that fits. */
  function NameAt(s: string, p: nat, names: seq<string>, bounded: bool): (r: Option<Match>)
    requires names == LongMonthNames || names == ShortMonthNames
    ensures r.Some? <==> (!bounded || Boundary(s, p)) && FirstName(s, p, names, 0, bounded).Some?
    ensures r.Some? ==>
      && p < r.value.end <= |s| && |r.value.groups| == 2
      && r.value.groups[0] == s[p..r.value.end] && r.value.groups[1] == r.value.groups[0]
  {
    if bounded && !Boundary(s, p) then None
    else match FirstName(s, p, names, 0, bounded)
      case None => None
      case Some(i) =>
        MonthPrefix(names, i);
        var e := p + |names[i]|;
        Some(Match(e, [s[p..e], s[p..e]]))
  }

  /** A name match reads as the alternative that fits: its lower-cased text
      is that name, and no other name of the list matches there. */
  lemma NameAtReads(s: string, p: nat, names: seq<string>, bounded: bool)
    requires names == LongMonthNames || names == ShortMonthNames
    requires NameAt(s, p, names, bounded).Some?
    ensures var i := FirstName(s, p, names, 0, bounded).value;
      && i < 12 && NameFits(s, p, names[i], bounded)
      && LowerStr(NameAt(s, p, names, bounded).value.groups[0]) == names[i]
    ensures forall j :: 0 <= j < |names| && MatchesCI(s, p, names[j]) ==>
      j == FirstName(s, p, names, 0, bounded).value
  {
    var i := FirstName(s, p, names, 0, bounded).value;
    MatchesCISlice(s, p, names[i]);
    forall j | 0 <= j < |names| && MatchesCI(s, p, names[j])
      ensures j == i
    {
      OnlyMonthName(s, p, names, i, j);
    }
  }

  /** `n` digits at `p` end on a word boundary, directly or after an ordinal
      suffix: the text `([0-9]{n})(st|nd|rd|th)?\b` accepts. */
  predicate DayTokenAt(s: string, p: nat, n: nat) {
    DigitsAt(s, p, n) && ((SuffixAt(s, p + n, false) && Boundary(s, p + n + 2)) || Boundary(s, p + n))
  }

  /** The matched text of a `DayNumber` candidate with `n` digits. */
  function DayDigits(s: string, p: nat, n: nat): (r: Option<Match>)
    requires 1 <= n <= 2
    ensures r.Some? <==> DayTokenAt(s, p, n)
    ensures r.Some? ==> DayShape(s, p, r.value)
  {
    if !DigitsAt(s, p, n) then None
    else
      DigitsAtSlice(s, p, n);
      if SuffixAt(s, p + n, false) && Boundary(s, p + n + 2) then
      assert forall j :: p <= j < p + n ==> s[j] == s[p..p + n][j - p];
      Some(Match(p + n + 2, [s[p..p + n + 2], s[p..p + n], s[p + n..p + n + 2]]))
    else if Boundary(s, p + n) then
      assert forall j :: p <= j < p + n ==> s[j] == s[p..p + n][j - p];
      Some(Match(p + n, [s[p..p + n], s[p..p + n], ""]))
    else None
  }

  /** The shape of a `DayNumber` match: one or two digits, an optional
      lower-case ordinal suffix, and nothing but word characters in between
      the two boundaries. */
  predicate DayShape(s: string, p: nat, m: Match) {
    && p < m.end <= |s|
    && |m.groups| == 3
    && m.groups[0] == s[p..m.end] == m.groups[1] + m.groups[2]
    && 1 <= |m.groups[1]| <= 2 && AllDigits(m.groups[1])
    && (m.groups[2] == "" || SuffixText(m.groups[2], false))
    && Boundary(s, m.end)
    && (forall j :: p <= j < m.end ==> IsWord(s[j]))
  }

  /** `\b([0-9]{1,2})(st|nd|rd|th)?\b` at `p`, trying two digits before one
      and the suffix before its absence. */
  function DayNumberAt(s: string, p: nat): (r: Option<Match>)
    ensures r.Some? ==> Boundary(s, p) && DayShape(s, p, r.value)
    ensures r.Some? <==> Boundary(s, p) && (DayTokenAt(s, p, 2) || DayTokenAt(s, p, 1))
  {
    if !Boundary(s, p) then None
    else match DayDigits(s, p, 2)
      case Some(m) => Some(m)
      case None => DayDigits(s, p, 1)
  }

  /** `([0-9]?[0-9])(st|nd|rd|th)` at `p` (case-sensitive, no boundaries). */
  function OrdinalDayAt(s: string, p: nat): (r: Option<Match>)
    ensures r.Some? ==>
      && |r.value.groups| == 3 && 1 <= |r.value.groups[1]| <= 2 && AllDigits(r.value.groups[1])
      && SuffixText(r.value.groups[2], false)
      && p < r.value.end <= |s| && r.value.groups[0] == s[p..r.value.end] == r.value.groups[1] + r.value.groups[2]
    ensures r.Some? <==>
      (DigitsAt(s, p, 2) && SuffixAt(s, p + 2, false)) || (DigitsAt(s, p, 1) && SuffixAt(s, p + 1, false))
  {
    if DigitsAt(s, p, 2) && SuffixAt(s, p + 2, false) then
      DigitsAtSlice(s, p, 2);
      Some(Match(p + 4, [s[p..p + 4], s[p..p + 2], s[p + 2..p + 4]]))
    else if DigitsAt(s, p, 1) && SuffixAt(s, p + 1, false) then
      DigitsAtSlice(s, p, 1);
      Some(Match(p + 3, [s[p..p + 3], s[p..p + 1], s[p + 1..p + 3]]))
    else None
  }

  /** `[0-9]{4}` at `p`. */
  function FourDigitsAt(s: string, p: nat): (r: Option<Match>)
    ensures r.Some? <==> DigitsAt(s, p, 4)
    ensures r.Some? ==> r.value.end == p + 4 <= |s| && r.value.groups == [s[p..p + 4]] && AllDigits(s[p..p + 4])
  {
    DigitsAtSlice(s, p, 4);
    if DigitsAt(s, p, 4) then Some(Match(p + 4, [s[p..p + 4]])) else None
  }

  /** The number of entries `preg_match` reports for `pat`: the whole match
      and one per capture group. */
  function GroupCount(pat: Pattern): nat {
    match pat
    case DayMonthYear => 7
    case DayNumber => 3
    case OrdinalDay => 3
    case FourDigits => 1
    case _ => 2
  }

  /** Pattern `pat` matching at exactly position `p` of `s`. */
  function MatchAt(pat: Pattern, s: string, p: nat): (r: Option<Match>)
    ensures r.Some? ==>
      && p < r.value.end <= |s| && |r.value.groups| == GroupCount(pat)
      && r.value.groups[0] == s[p..r.value.end]
  {
    match pat
    case DayMonthYear => SimpleDateAt(s, p)
    case FullYear => FullYearAt(s, p)
    case ApostropheYear => ApostropheYearAt(s, p)
    case FullMonthWord => NameAt(s, p, LongMonthNames, true)
    case ShortMonthWord => NameAt(s, p, ShortMonthNames, true)
    case DayNumber => DayNumberAt(s, p)
    case ShortMonthAnywhere => NameAt(s, p, ShortMonthNames, false)
    case OrdinalDay => OrdinalDayAt(s, p)
    case FourDigits => FourDigitsAt(s, p)
  }

  /** The first position, from `i` on, whose entry in `hits` is set. */
  function FirstHit(hits: seq<bool>, i: nat): (r: Option<nat>)
    ensures r.Some? ==> i <= r.value < |hits| && hits[r.value]
    ensures r.Some? ==> forall q :: i <= q < r.value ==> !hits[q]
    ensures r.None? ==> forall q :: i <= q < |hits| ==> !hits[q]
    decreases |hits| - i
  {
    if i >= |hits| then None
    else if hits[i] then Some(i)
    else FirstHit(hits, i + 1)
  }

  /** Whether `pat` matches at each position of `s`. */
  function Hits(pat: Pattern, s: string): (h: seq<bool>)
    ensures |h| == |s|
    ensures forall q :: 0 <= q < |s| ==> h[q] == MatchAt(pat, s, q).Some?
  {
    seq(|s|, q requires 0 <= q < |s| => MatchAt(pat, s, q).Some?)
  }

  /** Where `preg_match` finds its match: the leftmost start position, from
      `i` on, at which the pattern matches. */
  function Leftmost(pat: Pattern, s: string, i: nat): (r: Option<nat>)
    ensures r.Some? ==> i <= r.value < |s| && MatchAt(pat, s, r.value).Some?
    ensures r.Some? ==> forall q :: i <= q < r.value ==> MatchAt(pat, s, q).None?
    ensures r.None? ==> forall q :: i <= q < |s| ==> MatchAt(pat, s, q).None?
  {
    FirstHit(Hits(pat, s), i)
  }

  /** The first match of `pat` in `s`, as `preg_match` reports it. */
  function FirstMatch(pat: Pattern, s: string): (r: Option<Match>)
    ensures r.Some? <==> exists q :: 0 <= q < |s| && MatchAt(pat, s, q).Some?
    ensures r.None? <==> Leftmost(pat, s, 0).None?
    ensures r.Some? ==> r == MatchAt(pat, s, Leftmost(pat, s, 0).value)
  {
    match Leftmost(pat, s, 0)
    case None => None
    case Some(q) => MatchAt(pat, s, q)
  }

  /** Day-number matches never overlap: no match can start strictly inside
      another, because every character of a match is a word character and so
      no `\b` lies inside it. Hence the list `preg_match_all` builds, which
      resumes after each match, holds a match at every position where one
      starts, and scanning all positions in order visits the same matches. */
  lemma DayNumbersDisjoint(s: string, p: nat, q: nat)
    requires DayNumberAt(s, p).Some?
    requires p < q < DayNumberAt(s, p).value.end
    ensures DayNumberAt(s, q).None?
  {
    assert IsWord(s[q - 1]) && IsWord(s[q]);
  }
}
