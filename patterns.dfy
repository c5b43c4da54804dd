/**
 The two regular expressions of `parse_gregorian_date` and `parse_hijri_date`,

   YearFirst:  (\d{4})[-/](\d{1,2})[-/](\d{1,2})
   DayFirst:   (\d{1,2})[-/](\d{1,2})[-/](\d{4})

 with the semantics of Python's `re.search`: the match at a position is the first of the
 engine's backtracking alternatives that fits, and the positions are tried left to right.
 */
module Patterns {
  import opened Wrappers
  import opened Text

  datatype Pattern = YearFirst | DayFirst

  /** The three captured digit runs, `match.groups()`. */
  datatype Groups = Groups(first: seq<char>, second: seq<char>, third: seq<char>)

  /** A successful search: where the match starts, and what it captured. */
  datatype Found = Found(start: nat, groups: Groups)

  /** The lengths of the three captured digit runs of one candidate match. */
  datatype Lengths = Lengths(first: nat, second: nat, third: nat)

  /** `s[k..k + n]` exists and is made of digits. */
  predicate DigitsAt(s: seq<char>, k: nat, n: nat): (b: bool)
    ensures b ==> k + n <= |s|
    decreases n
  {
    if n == 0 then k <= |s| else k < |s| && IsDigit(s[k]) && DigitsAt(s, k + 1, n - 1)
  }

  predicate SepAt(s: seq<char>, k: nat) {
    k < |s| && IsSeparator(s[k])
  }

  /** `s` begins with a digit run, a separator, a digit run, a separator and a digit run, of the
      given lengths. */
  predicate Fits(s: seq<char>, l: Lengths)
    ensures Fits(s, l) ==> l.first + l.second + l.third + 2 <= |s|
  {
    DigitsAt(s, 0, l.first) && SepAt(s, l.first)
    && DigitsAt(s, l.first + 1, l.second) && SepAt(s, l.first + 1 + l.second)
    && DigitsAt(s, l.first + l.second + 2, l.third)
  }

  /** The groups that a fitting candidate captures: digit runs of the candidate's lengths which,
      with the two separators between them, make up the matched part of the text. */
  function Cut(s: seq<char>, l: Lengths): (g: Groups)
    requires Fits(s, l)
    ensures |g.first| == l.first && |g.second| == l.second && |g.third| == l.third
    ensures AllDigits(g.first) && AllDigits(g.second) && AllDigits(g.third)
    ensures s[..l.first + l.second + l.third + 2]
      == g.first + [s[l.first]] + g.second + [s[l.first + 1 + l.second]] + g.third
  {
    var k := l.first + l.second + 2;
    DigitsAtSlice(s, 0, l.first);
    DigitsAtSlice(s, l.first + 1, l.second);
    DigitsAtSlice(s, k, l.third);
    SliceParts(s, l.first, l.second, l.third);
    Groups(s[..l.first], s[l.first + 1..l.first + 1 + l.second], s[k..k + l.third])
  }

  /** The first `a + b + c + 2` characters of a text are its runs of lengths `a`, `b` and `c`
      with the single characters between them. */
  lemma SliceParts(s: seq<char>, a: nat, b: nat, c: nat)
    requires a + b + c + 2 <= |s|
    ensures s[..a + b + c + 2] == s[..a] + [s[a]] + s[a + 1..a + 1 + b] + [s[a + 1 + b]] + s[a + b + 2..a + b + 2 + c]
  {
    var t := s[..a] + [s[a]] + s[a + 1..a + 1 + b] + [s[a + 1 + b]] + s[a + b + 2..a + b + 2 + c];
    forall i | 0 <= i < a + b + c + 2
      ensures t[i] == s[i]
    {
      if i < a {
      } else if i == a {
      } else if i < a + 1 + b {
        assert t[i] == s[a + 1..a + 1 + b][i - a - 1];
      } else if i == a + 1 + b {
      } else {
        assert t[i] == s[a + b + 2..a + b + 2 + c][i - a - b - 2];
      }
    }
    assert t == s[..a + b + c + 2];
  }

  /** The candidates the engine tries at one position, in its order: a greedy `\d{1,2}` tries two
      digits before one, and a later group's choice is revisited before an earlier group's. */
  function Alternatives(p: Pattern): (alts: seq<Lengths>)
    ensures forall l | l in alts :: Admits(p, l)
    ensures forall l | Admits(p, l) :: l in alts
    ensures forall i, j | 0 <= i < j < |alts| :: Prefers(alts[i], alts[j]) && alts[i] != alts[j]
  {
    match p
    case YearFirst => [Lengths(4, 2, 2), Lengths(4, 2, 1), Lengths(4, 1, 2), Lengths(4, 1, 1)]
    case DayFirst => [Lengths(2, 2, 4), Lengths(2, 1, 4), Lengths(1, 2, 4), Lengths(1, 1, 4)]
  }

  /** Backtracking: the first of the candidates that fits. */
  function Backtrack(s: seq<char>, alts: seq<Lengths>): (r: Option<Lengths>)
    ensures r.Some? ==> Fits(s, r.value) && r.value in alts
    ensures r.Some? ==> exists k | 0 <= k < |alts| :: alts[k] == r.value && forall j | 0 <= j < k :: !Fits(s, alts[j])
    ensures r.None? ==> forall j | 0 <= j < |alts| :: !Fits(s, alts[j])
  {
    if alts == [] then None
    else if Fits(s, alts[0]) then Some(alts[0])
    else
      var r := Backtrack(s, alts[1..]);
      assert r.Some? ==> exists k | 0 <= k < |alts[1..]| :: alts[1..][k] == r.value && forall j | 0 <= j < k :: !Fits(s, alts[1..][j]);
      assert r.Some? ==> exists k | 0 <= k < |alts| :: alts[k] == r.value && forall j | 0 <= j < k :: !Fits(s, alts[j]);
      r
  }

  /** The lengths of the match of `p` anchored at the start of `s` (`re.match`), if any: they
      are admitted by the pattern and fit the text. */
  function Choice(p: Pattern, s: seq<char>): (r: Option<Lengths>)
    ensures r.Some? ==> Admits(p, r.value) && Fits(s, r.value)
  {
    Backtrack(s, Alternatives(p))
  }

  /** The groups of the match of `p` anchored at the start of `s`, if any. */
  function MatchAt(p: Pattern, s: seq<char>): (r: Option<Groups>)
    ensures r.Some? ==> GroupsOf(p, r.value)
  {
    match Choice(p, s)
    case None => None
    case Some(l) => Some(Cut(s, l))
  }

  /** What a match of `p` can capture: three digit runs whose lengths the quantifiers admit. */
  predicate GroupsOf(p: Pattern, g: Groups) {
    AllDigits(g.first) && AllDigits(g.second) && AllDigits(g.third)
    && Admits(p, Lengths(|g.first|, |g.second|, |g.third|))
  }

  lemma {:induction false} DigitsAtSlice(s: seq<char>, k: nat, n: nat)
    requires DigitsAt(s, k, n)
    ensures AllDigits(s[k..k + n])
    decreases n
  {
    if n > 0 {
      DigitsAtSlice(s, k + 1, n - 1);
      assert s[k..k + n] == [s[k]] + s[k + 1..k + n];
    }
  }

  /** `re.search`: the match at the leftmost position where `p` matches. Position `|s|` (the
      empty rest) is tried too, as Python does, and never matches. */
  function Search(p: Pattern, s: seq<char>): (r: Option<Found>)
    ensures r.Some? ==> r.value.start <= |s| && GroupsOf(p, r.value.groups)
    decreases |s|
  {
    match MatchAt(p, s)
    case Some(g) => Some(Found(0, g))
    case None =>
      if s == [] then None else Later(Search(p, s[1..]))
  }

  /** A search result of the text after its first character, seen from the whole text. */
  function Later(r: Option<Found>): Option<Found> {
    match r
    case None => None
    case Some(f) => Some(Found(f.start + 1, f.groups))
  }

  /** The search reports the leftmost position where the anchored match succeeds, with that
      match's groups; it fails exactly when the match fails at every position. */
  lemma {:induction false} SearchIsLeftmost(p: Pattern, s: seq<char>)
    ensures Search(p, s).Some? ==>
      var f := Search(p, s).value;
      MatchAt(p, s[f.start..]) == Some(f.groups)
      && forall j | 0 <= j < f.start :: MatchAt(p, s[j..]).None?
    ensures Search(p, s).None? <==> forall j | 0 <= j <= |s| :: MatchAt(p, s[j..]).None?
  {
    SearchSomeIsLeftmost(p, s);
    SearchNoneIsNoMatch(p, s);
    if Search(p, s).Some? {
      var f := Search(p, s).value;
      assert LeftmostAt(p, s, f);
      assert MatchAt(p, s[f.start..]).Some?;
    }
  }

  /** `f` is the match at its start, and no match starts before it. */
  predicate LeftmostAt(p: Pattern, s: seq<char>, f: Found) {
    f.start <= |s| && MatchAt(p, s[f.start..]) == Some(f.groups)
    && forall j | 0 <= j < f.start :: MatchAt(p, s[j..]).None?
  }

  /** A reported match is a match at its start, and no match starts before it. */
  lemma {:induction false} SearchSomeIsLeftmost(p: Pattern, s: seq<char>)
    ensures Search(p, s).Some? ==> LeftmostAt(p, s, Search(p, s).value)
    decreases |s|
  {
    if MatchAt(p, s).Some? {
      assert s[0..] == s;
    } else if s != [] {
      SearchSomeIsLeftmost(p, s[1..]);
      if Search(p, s[1..]).Some? {
        LeftmostLater(p, s, Search(p, s[1..]).value);
      }
    }
  }

  /** A leftmost match in the text after a first character at which nothing matches is the
      leftmost match in the whole text, one position further on. */
  lemma LeftmostLater(p: Pattern, s: seq<char>, f: Found)
    requires s != [] && MatchAt(p, s).None? && LeftmostAt(p, s[1..], f)
    ensures LeftmostAt(p, s, Found(f.start + 1, f.groups))
  {
    assert s[1..][f.start..] == s[f.start + 1..];
    assert s[0..] == s;
    forall j | 0 <= j < f.start + 1
      ensures MatchAt(p, s[j..]).None?
    {
      if j > 0 { assert s[1..][j - 1..] == s[j..]; }
    }
  }

  /** No match is reported only when no match starts anywhere. */
  lemma {:induction false} SearchNoneIsNoMatch(p: Pattern, s: seq<char>)
    ensures Search(p, s).None? ==> forall j | 0 <= j <= |s| :: MatchAt(p, s[j..]).None?
    decreases |s|
  {
    assert s[0..] == s;
    if MatchAt(p, s).None? && s != [] {
      var rest := s[1..];
      SearchNoneIsNoMatch(p, rest);
      if Search(p, rest).None? {
        forall j | 0 <= j <= |s|
          ensures MatchAt(p, s[j..]).None?
        {
          if j > 0 { assert rest[j - 1..] == s[j..]; }
        }
      }
    }
  }

  /** Conversely, a match at `i` with none before it is what the search reports. */
  lemma SearchFindsLeftmost(p: Pattern, s: seq<char>, i: nat, g: Groups)
    requires i <= |s| && MatchAt(p, s[i..]) == Some(g)
    requires forall j | 0 <= j < i :: MatchAt(p, s[j..]).None?
    ensures Search(p, s) == Some(Found(i, g))
  {
    SearchIsLeftmost(p, s);
    assert Search(p, s).Some?;
    var f := Search(p, s).value;
    assert !(f.start < i);
    assert !(f.start > i);
  }

  /** Every match starts with a digit. */
  lemma MatchNeedsLeadingDigit(p: Pattern, s: seq<char>)
    requires MatchAt(p, s).Some?
    ensures |s| > 0 && IsDigit(s[0])
  {
  }

  /** A text without digits has no match anywhere. */
  lemma NoDigitNoMatch(p: Pattern, s: seq<char>)
    requires forall k | 0 <= k < |s| :: !IsDigit(s[k])
    ensures Search(p, s) == None
  {
    forall j | 0 <= j <= |s|
      ensures MatchAt(p, s[j..]).None?
    {
      if MatchAt(p, s[j..]).Some? {
        MatchNeedsLeadingDigit(p, s[j..]);
      }
    }
    SearchIsLeftmost(p, s);
  }

  // ---------------------------------------------------------------------------------------
  // The declarative reading of one anchored match

  /** The group lengths that the quantifiers of `p` admit. */
  predicate Admits(p: Pattern, l: Lengths) {
    match p
    case YearFirst => l.first == 4 && 1 <= l.second <= 2 && 1 <= l.third <= 2
    case DayFirst => 1 <= l.first <= 2 && 1 <= l.second <= 2 && l.third == 4
  }

  /** `l` is at least as preferred as `m`: lexicographically no shorter, earlier groups first. */
  predicate Prefers(l: Lengths, m: Lengths) {
    l.first > m.first
    || (l.first == m.first && (l.second > m.second || (l.second == m.second && l.third >= m.third)))
  }

  /** The engine's choice is the most preferred admitted fit; there is none exactly when no
      admitted lengths fit. */
  lemma ChoiceIsGreedy(p: Pattern, s: seq<char>)
    ensures Choice(p, s).Some? ==>
      var l := Choice(p, s).value;
      Admits(p, l) && Fits(s, l) && forall m | Admits(p, m) && Fits(s, m) :: Prefers(l, m)
    ensures Choice(p, s).None? <==> forall m | Admits(p, m) :: !Fits(s, m)
  {
    var alts := Alternatives(p);
    forall m | Admits(p, m)
      ensures exists k | 0 <= k < 4 :: alts[k] == m && forall j | 0 <= j < k :: Prefers(alts[j], m) && alts[j] != m
    {
      if p.YearFirst? {
        if m.second == 2 && m.third == 2 { assert alts[0] == m; }
        else if m.second == 2 { assert alts[1] == m; }
        else if m.third == 2 { assert alts[2] == m; }
        else { assert alts[3] == m; }
      } else {
        if m.first == 2 && m.second == 2 { assert alts[0] == m; }
        else if m.first == 2 { assert alts[1] == m; }
        else if m.second == 2 { assert alts[2] == m; }
        else { assert alts[3] == m; }
      }
    }
  }

  // ---------------------------------------------------------------------------------------
  // Characters that no pattern can consume, at either end of the text

  lemma {:induction false} DigitsAtAppend(s: seq<char>, c: char, k: nat, n: nat)
    requires Inert(c) && k <= |s|
    ensures DigitsAt(s + [c], k, n) == DigitsAt(s, k, n)
    decreases n
  {
    if n > 0 && k < |s| {
      assert (s + [c])[k] == s[k];
      DigitsAtAppend(s, c, k + 1, n - 1);
    }
  }

  lemma FitsAppend(s: seq<char>, c: char, l: Lengths)
    requires Inert(c)
    ensures Fits(s + [c], l) == Fits(s, l)
    ensures Fits(s, l) ==> Cut(s + [c], l) == Cut(s, l)
  {
    DigitsAtAppend(s, c, 0, l.first);
    if l.first < |s| {
      assert (s + [c])[l.first] == s[l.first];
      DigitsAtAppend(s, c, l.first + 1, l.second);
      if l.first + 1 + l.second < |s| {
        assert (s + [c])[l.first + 1 + l.second] == s[l.first + 1 + l.second];
        DigitsAtAppend(s, c, l.first + l.second + 2, l.third);
      }
    }
  }

  lemma {:induction false} BacktrackAppend(s: seq<char>, c: char, alts: seq<Lengths>)
    requires Inert(c)
    ensures Backtrack(s + [c], alts) == Backtrack(s, alts)
  {
    if alts != [] {
      FitsAppend(s, c, alts[0]);
      BacktrackAppend(s, c, alts[1..]);
    }
  }

  /** A trailing inert character changes neither whether nor what an anchored match captures. */
  lemma MatchAtAppend(p: Pattern, s: seq<char>, c: char)
    requires Inert(c)
    ensures MatchAt(p, s + [c]) == MatchAt(p, s)
  {
    BacktrackAppend(s, c, Alternatives(p));
    if Choice(p, s).Some? {
      FitsAppend(s, c, Choice(p, s).value);
    }
  }

  /** A trailing inert character does not change the result of a search. */
  lemma {:induction false} SearchAppend(p: Pattern, s: seq<char>, c: char)
    requires Inert(c)
    ensures Search(p, s + [c]) == Search(p, s)
    decreases |s|
  {
    MatchAtAppend(p, s, c);
    if s == [] {
      SearchOfInert(p, c);
    } else if MatchAt(p, s).None? {
      var t := s + [c];
      assert t[1..] == s[1..] + [c];
      SearchAppend(p, s[1..], c);
      assert Search(p, t) == Later(Search(p, t[1..]));
      assert Search(p, s) == Later(Search(p, s[1..]));
    }
  }

  /** A text of one inert character has no match. */
  lemma SearchOfInert(p: Pattern, c: char)
    requires Inert(c)
    ensures Search(p, [c]) == Search(p, []) == None
  {
    MatchAtAppend(p, [], c);
    assert [] + [c] == [c];
    assert [c][1..] == [];
  }

  /** A leading inert character shifts the position of a search's match by one and changes
      nothing else. */
  lemma SearchPrepend(p: Pattern, c: char, s: seq<char>)
    requires Inert(c)
    ensures match Search(p, s)
      case None => Search(p, [c] + s) == None
      case Some(f) => Search(p, [c] + s) == Some(Found(f.start + 1, f.groups))
  {
    var alts := Alternatives(p);
    forall j | 0 <= j < |alts|
      ensures !Fits([c] + s, alts[j])
    {
    }
    assert ([c] + s)[1..] == s;
  }

  // ---------------------------------------------------------------------------------------
  // Texts built from digit runs and separators

  lemma {:induction false} DigitsAtOfRun(s: seq<char>, k: nat, n: nat)
    requires k + n <= |s| && AllDigits(s[k..k + n])
    ensures DigitsAt(s, k, n)
    decreases n
  {
    if n > 0 {
      assert s[k..k + n][0] == s[k];
      assert s[k + 1..k + n] == s[k..k + n][1..];
      DigitsAtOfRun(s, k + 1, n - 1);
    }
  }

  lemma {:induction false} BacktrackPicks(s: seq<char>, alts: seq<Lengths>, k: nat)
    requires k < |alts| && Fits(s, alts[k]) && forall j | 0 <= j < k :: !Fits(s, alts[j])
    ensures Backtrack(s, alts) == Some(alts[k])
  {
    if k > 0 {
      assert !Fits(s, alts[0]);
      BacktrackPicks(s, alts[1..], k - 1);
    }
  }

  /** A text holding three digit runs separated by single separators, from its start, fits
      their lengths and is cut back into them. */
  lemma FitsOfParts(s: seq<char>, a: seq<char>, b: seq<char>, c: seq<char>)
    requires AllDigits(a) && AllDigits(b) && AllDigits(c)
    requires |a| + |b| + |c| + 2 <= |s|
    requires s[..|a|] == a && IsSeparator(s[|a|])
    requires s[|a| + 1..|a| + 1 + |b|] == b && IsSeparator(s[|a| + 1 + |b|])
    requires s[|a| + |b| + 2..|a| + |b| + 2 + |c|] == c
    ensures Fits(s, Lengths(|a|, |b|, |c|)) && Cut(s, Lengths(|a|, |b|, |c|)) == Groups(a, b, c)
  {
    assert s[0..|a|] == a;
    DigitsAtOfRun(s, 0, |a|);
    DigitsAtOfRun(s, |a| + 1, |b|);
    DigitsAtOfRun(s, |a| + |b| + 2, |c|);
  }

  /** Where the parts of three runs joined by two characters sit in the joined text. */
  lemma JoinedParts(a: seq<char>, c1: char, b: seq<char>, c2: char, c: seq<char>, rest: seq<char>)
    ensures var s := a + [c1] + b + [c2] + c + rest;
      var k := |a| + |b| + 2;
      && |s| == k + |c| + |rest|
      && s[..|a|] == a && s[|a|] == c1
      && s[|a| + 1..|a| + 1 + |b|] == b && s[|a| + 1 + |b|] == c2
      && s[k..k + |c|] == c && s[k + |c|..] == rest
  {
    var u := a + [c1] + b + [c2];
    var s := u + c + rest;
    assert s == u + (c + rest);
    assert u == a + ([c1] + b + [c2]);
    assert s == a + ([c1] + b + [c2] + c + rest);
    var v := [c1] + b + [c2] + c + rest;
    assert v == [c1] + (b + ([c2] + (c + rest)));
    assert s[|a| + 1..] == b + ([c2] + (c + rest));
    assert s[|u|..] == c + rest;
    assert s[|u| + |c|..] == rest;
  }

  /** A text that starts with four digits, a separator, one or two digits, a separator and one or
      two digits matches the year-first pattern with exactly those runs, whichever separators are
      used, provided a one-digit last run is not followed by another digit (the greedy
      quantifier would take it). */
  lemma MatchYearFirstComposed(y: seq<char>, c1: char, m: seq<char>, c2: char, d: seq<char>, rest: seq<char>)
    requires AllDigits(y) && AllDigits(m) && AllDigits(d) && IsSeparator(c1) && IsSeparator(c2)
    requires |y| == 4 && 1 <= |m| <= 2 && 1 <= |d| <= 2
    requires |d| == 1 ==> rest == [] || !IsDigit(rest[0])
    ensures MatchAt(YearFirst, y + [c1] + m + [c2] + d + rest) == Some(Groups(y, m, d))
  {
    JoinedParts(y, c1, m, c2, d, rest);
    YearFirstOfParts(y + [c1] + m + [c2] + d + rest, y, m, d, rest);
  }

  /** The year-first match of a text laid out as four digits, a separator, a run, a separator,
      a run and `rest`. */
  lemma YearFirstOfParts(s: seq<char>, y: seq<char>, m: seq<char>, d: seq<char>, rest: seq<char>)
    requires AllDigits(y) && AllDigits(m) && AllDigits(d)
    requires |y| == 4 && 1 <= |m| <= 2 && 1 <= |d| <= 2
    requires |d| == 1 ==> rest == [] || !IsDigit(rest[0])
    requires |s| == 6 + |m| + |d| + |rest|
    requires s[..4] == y && IsSeparator(s[4]) && s[5..5 + |m|] == m && IsSeparator(s[5 + |m|])
    requires s[6 + |m|..6 + |m| + |d|] == d && s[6 + |m| + |d|..] == rest
    ensures MatchAt(YearFirst, s) == Some(Groups(y, m, d))
  {
    FitsOfParts(s, y, m, d);
    if |d| == 1 {
      NoDigitsAfter(s, 6 + |m|, rest);
    }
    PicksYearFirst(s, Lengths(4, |m|, |d|));
  }

  /** Two digits cannot begin at `k` when the run there is followed by `rest` with no leading
      digit. */
  lemma NoDigitsAfter(s: seq<char>, k: nat, rest: seq<char>)
    requires k + 1 + |rest| == |s| && s[k + 1..] == rest && (rest == [] || !IsDigit(rest[0]))
    ensures !DigitsAt(s, k, 2)
  {
    if rest != [] {
      assert s[k + 1] == rest[0];
    }
  }

  /** The year-first backtracking settles on a fitting candidate when no greedier one fits. */
  lemma PicksYearFirst(s: seq<char>, l: Lengths)
    requires l.first == 4 && 1 <= l.second <= 2 && 1 <= l.third <= 2 && Fits(s, l)
    requires l.third == 1 ==> !DigitsAt(s, 6 + l.second, 2)
    ensures MatchAt(YearFirst, s) == Some(Cut(s, l))
  {
    var alts := Alternatives(YearFirst);
    if l.second == 1 {
      assert !DigitsAt(s, 5, 2);
      assert !Fits(s, Lengths(4, 2, 2)) && !Fits(s, Lengths(4, 2, 1));
    }
    if l.third == 1 {
      assert !Fits(s, Lengths(4, l.second, 2));
    }
    var i := (2 - l.second) * 2 + (2 - l.third);
    assert alts[i] == l;
    BacktrackPicks(s, alts, i);
  }

  /** A text that starts with one or two digits, a separator, one or two digits, a separator and
      four digits matches the day-first pattern with exactly those runs, whatever follows and
      whichever separators are used. */
  lemma MatchDayFirstComposed(d: seq<char>, c1: char, m: seq<char>, c2: char, y: seq<char>, rest: seq<char>)
    requires AllDigits(d) && AllDigits(m) && AllDigits(y) && IsSeparator(c1) && IsSeparator(c2)
    requires 1 <= |d| <= 2 && 1 <= |m| <= 2 && |y| == 4
    ensures MatchAt(DayFirst, d + [c1] + m + [c2] + y + rest) == Some(Groups(d, m, y))
  {
    JoinedParts(d, c1, m, c2, y, rest);
    DayFirstOfParts(d + [c1] + m + [c2] + y + rest, d, m, y);
  }

  /** The day-first match of a text laid out as a run, a separator, a run, a separator and four
      digits. */
  lemma DayFirstOfParts(s: seq<char>, d: seq<char>, m: seq<char>, y: seq<char>)
    requires AllDigits(d) && AllDigits(m) && AllDigits(y)
    requires 1 <= |d| <= 2 && 1 <= |m| <= 2 && |y| == 4 && |d| + |m| + 6 <= |s|
    requires s[..|d|] == d && IsSeparator(s[|d|]) && s[|d| + 1..|d| + 1 + |m|] == m
    requires IsSeparator(s[|d| + 1 + |m|]) && s[|d| + |m| + 2..|d| + |m| + 6] == y
    ensures MatchAt(DayFirst, s) == Some(Groups(d, m, y))
  {
    FitsOfParts(s, d, m, y);
    PicksDayFirst(s, Lengths(|d|, |m|, 4));
  }

  /** The day-first backtracking settles on any fitting candidate: a shorter run is always
      followed by a separator, so no greedier candidate fits. */
  lemma PicksDayFirst(s: seq<char>, l: Lengths)
    requires 1 <= l.first <= 2 && 1 <= l.second <= 2 && l.third == 4 && Fits(s, l)
    ensures MatchAt(DayFirst, s) == Some(Cut(s, l))
  {
    var alts := Alternatives(DayFirst);
    if l.first == 1 {
      assert !DigitsAt(s, 0, 2);
      assert !Fits(s, Lengths(2, 2, 4)) && !Fits(s, Lengths(2, 1, 4));
    }
    if l.second == 1 {
      assert !DigitsAt(s, l.first + 1, 2);
      assert !Fits(s, Lengths(l.first, 2, 4));
    }
    var i := (2 - l.first) * 2 + (2 - l.second);
    assert alts[i] == l;
    BacktrackPicks(s, alts, i);
  }

  /** A year-first match needs four digits and a separator at its start. */
  lemma YearFirstNeedsFourDigits(s: seq<char>)
    requires MatchAt(YearFirst, s).Some?
    ensures |s| >= 5 && IsDigit(s[0]) && IsDigit(s[1]) && IsDigit(s[2]) && IsDigit(s[3]) && IsSeparator(s[4])
  {
  }

  /** Four digits and a separator begin at position `j`: where a year-first match could start. */
  predicate YearFirstCanStart(s: seq<char>, j: nat) {
    j + 4 < |s| && IsDigit(s[j]) && IsDigit(s[j + 1]) && IsDigit(s[j + 2]) && IsDigit(s[j + 3])
    && IsSeparator(s[j + 4])
  }

  /** No year-first match starts before `i` where four digits and a separator cannot. */
  lemma NoYearFirstBefore(s: seq<char>, i: nat)
    requires i <= |s| && forall j | 0 <= j < i :: !YearFirstCanStart(s, j)
    ensures forall j | 0 <= j < i :: MatchAt(YearFirst, s[j..]).None?
  {
    forall j | 0 <= j < i
      ensures MatchAt(YearFirst, s[j..]).None?
    {
      if MatchAt(YearFirst, s[j..]).Some? {
        YearFirstNeedsFourDigits(s[j..]);
        assert YearFirstCanStart(s, j);
      }
    }
  }

  /** A text in which four digits and a separator never begin has no year-first match. */
  lemma NoYearFirst(s: seq<char>)
    requires forall j | 0 <= j < |s| :: !YearFirstCanStart(s, j)
    ensures Search(YearFirst, s) == None
  {
    NoYearFirstBefore(s, |s|);
    SearchIsLeftmost(YearFirst, s);
  }
}
