/**
 `parse_gregorian_date` and `parse_hijri_date`: try the year-first pattern, then the day-first
 one, with `re.search`; turn the captured runs of the first pattern that matches into a
 (year, month, day) triple; hand it to the calendar's constructor, or fail when no pattern
 matches anywhere in the text.
 */
module DateParse {
  import opened Wrappers
  import opened Text
  import opened Patterns

  /** A (year, month, day) triple, as the parsers extract it and as the calendar objects of the
      converter library carry it. */
  datatype Date = Date(year: nat, month: nat, day: nat)

  datatype ParseError =
    | NoDateFormat(message: string)  // the `ValueError` raised when no pattern matches
    | Rejected(date: Date)           // the calendar's constructor refused the triple

  const GregorianFormatMessage: string := "Not a valid Gregorian date format"
  const HijriFormatMessage: string := "Not a valid Hijri date format"

  /** The pattern list of both parse functions, in the order they are tried. */
  const DatePatterns: seq<Pattern> := [YearFirst, DayFirst]

  /** The field assignment of both parse functions, `len(groups[0]) == 4`: the groups of a
      year-first match are read as year, month, day and those of a day-first match as day,
      month, year, so the year always comes from the pattern's four-digit group. */
  function GroupsToDate(g: Groups): (d: Date)
    requires AllDigits(g.first) && AllDigits(g.second) && AllDigits(g.third)
    ensures GroupsOf(YearFirst, g) ==> d == Date(Int(g.first), Int(g.second), Int(g.third))
    ensures GroupsOf(DayFirst, g) ==> d == Date(Int(g.third), Int(g.second), Int(g.first))
    ensures GroupsOf(YearFirst, g) || GroupsOf(DayFirst, g) ==> d.year <= 9999 && d.month <= 99 && d.day <= 99
  {
    ShortRunBound(g.first);
    ShortRunBound(g.second);
    ShortRunBound(g.third);
    if |g.first| == 4 then Date(Int(g.first), Int(g.second), Int(g.third))
    else Date(Int(g.third), Int(g.second), Int(g.first))
  }

  /** The `for pat in patterns` loop: the date read from the first pattern that `re.search`
      finds anywhere in the text; none exactly when no pattern is found. */
  function FirstMatch(pats: seq<Pattern>, text: seq<char>): (r: Option<Date>)
    ensures r.None? <==> forall i | 0 <= i < |pats| :: Search(pats[i], text).None?
    ensures r.Some? ==> exists i | 0 <= i < |pats| ::
      FirstFound(pats, text, i) && r.value == GroupsToDate(Search(pats[i], text).value.groups)
    decreases |pats|
  {
    if pats == [] then None
    else
      match Search(pats[0], text)
      case Some(f) =>
        var r := Some(GroupsToDate(f.groups));
        assert FirstFound(pats, text, 0);
        r
      case None =>
        var r := FirstMatch(pats[1..], text);
        NoneFoundLater(pats, text);
        if r.Some? then
          var i :| 0 <= i < |pats[1..]| && FirstFound(pats[1..], text, i)
            && r.value == GroupsToDate(Search(pats[1..][i], text).value.groups);
          FirstFoundLater(pats, text, i);
          r
        else r
  }

  /** `pats[i]` is found, and no pattern before it is. */
  predicate FirstFound(pats: seq<Pattern>, text: seq<char>, i: nat) {
    i < |pats| && Search(pats[i], text).Some? && forall j | 0 <= j < i :: Search(pats[j], text).None?
  }

  /** No pattern is found when neither the first nor any later one is. */
  lemma NoneFoundLater(pats: seq<Pattern>, text: seq<char>)
    requires pats != [] && Search(pats[0], text).None?
    ensures (forall i | 0 <= i < |pats| :: Search(pats[i], text).None?) <==>
      forall i | 0 <= i < |pats[1..]| :: Search(pats[1..][i], text).None?
  {
    forall i | 0 <= i < |pats[1..]|
      ensures pats[1..][i] == pats[i + 1]
    {
    }
  }

  /** The first pattern found after the first one, which is not found, is the first found. */
  lemma FirstFoundLater(pats: seq<Pattern>, text: seq<char>, i: nat)
    requires pats != [] && Search(pats[0], text).None? && FirstFound(pats[1..], text, i)
    ensures pats[i + 1] == pats[1..][i] && FirstFound(pats, text, i + 1)
  {
    forall j | 0 <= j < i + 1
      ensures Search(pats[j], text).None?
    {
      if j > 0 { assert pats[j] == pats[1..][j - 1]; }
    }
  }

  /** The triple both parse functions extract from a text: there is one exactly when one of the
      patterns is found, and its year has at most four digits and its month and day at most
      two. */
  function ExtractDate(text: seq<char>): (r: Option<Date>)
    ensures r.None? <==> Search(YearFirst, text).None? && Search(DayFirst, text).None?
    ensures r.Some? ==> r.value.year <= 9999 && r.value.month <= 99 && r.value.day <= 99
  {
    assert DatePatterns[1..] == [DayFirst];
    FirstMatch(DatePatterns, text)
  }

  /** The common body of the two parse functions; `accepts` is the calendar constructor's
      validation, which belongs to the converter library. The result is the format error exactly
      when no pattern matches; otherwise it is the extracted triple if the constructor accepts
      it, and the constructor's refusal of that triple if not: never a default. */
  function ParseDate(text: seq<char>, accepts: (nat, nat, nat) -> bool, formatMessage: string)
    : (r: Result<Date, ParseError>)
    ensures r == Err(NoDateFormat(formatMessage)) <==> ExtractDate(text).None?
    ensures r.Ok? <==> ExtractDate(text).Some? && var d := ExtractDate(text).value; accepts(d.year, d.month, d.day)
    ensures r.Ok? ==> ExtractDate(text) == Some(r.value)
    ensures r.Err? && r.error.Rejected? ==> ExtractDate(text) == Some(r.error.date)
  {
    match ExtractDate(text)
    case None => Err(NoDateFormat(formatMessage))
    case Some(d) => if accepts(d.year, d.month, d.day) then Ok(d) else Err(Rejected(d))
  }

  /** `parse_gregorian_date`, with `Gregorian(year, month, day)` as `accepts`: it raises its
      format error exactly when no pattern matches, returns the extracted triple exactly when the
      constructor accepts it, and otherwise reports the constructor's refusal of that triple. */
  function ParseGregorianDate(text: seq<char>, accepts: (nat, nat, nat) -> bool): (r: Result<Date, ParseError>)
    ensures r == Err(NoDateFormat(GregorianFormatMessage)) <==> ExtractDate(text).None?
    ensures r.Ok? <==> ExtractDate(text).Some? && var d := ExtractDate(text).value; accepts(d.year, d.month, d.day)
    ensures r.Ok? ==> ExtractDate(text) == Some(r.value)
    ensures r.Err? && r.error.Rejected? ==> ExtractDate(text) == Some(r.error.date)
  {
    ParseDate(text, accepts, GregorianFormatMessage)
  }

  /** `parse_hijri_date`, with `Hijri(year, month, day)` as `accepts`: it raises its format error
      exactly when no pattern matches, returns the extracted triple exactly when the constructor
      accepts it, and otherwise reports the constructor's refusal of that triple. */
  function ParseHijriDate(text: seq<char>, accepts: (nat, nat, nat) -> bool): (r: Result<Date, ParseError>)
    ensures r == Err(NoDateFormat(HijriFormatMessage)) <==> ExtractDate(text).None?
    ensures r.Ok? <==> ExtractDate(text).Some? && var d := ExtractDate(text).value; accepts(d.year, d.month, d.day)
    ensures r.Ok? ==> ExtractDate(text) == Some(r.value)
    ensures r.Err? && r.error.Rejected? ==> ExtractDate(text) == Some(r.error.date)
  {
    ParseDate(text, accepts, HijriFormatMessage)
  }

  // ---------------------------------------------------------------------------------------
  // Which occurrence is used, and how its groups become fields

  /** A year-first occurrence anywhere in the text decides the result, whatever day-first
      occurrence comes before it: its four-digit first group is the year. */
  lemma YearFirstWins(text: seq<char>)
    requires Search(YearFirst, text).Some?
    ensures var g := Search(YearFirst, text).value.groups;
      ExtractDate(text) == Some(Date(Int(g.first), Int(g.second), Int(g.third)))
  {
  }

  /** Only without any year-first occurrence does the leftmost day-first occurrence decide;
      its last group, of four digits, is the year. */
  lemma DayFirstFallback(text: seq<char>)
    requires Search(YearFirst, text).None? && Search(DayFirst, text).Some?
    ensures var g := Search(DayFirst, text).value.groups;
      ExtractDate(text) == Some(Date(Int(g.third), Int(g.second), Int(g.first)))
  {
    var g := Search(DayFirst, text).value.groups;
    assert |g.first| <= 2;
    assert DatePatterns[1..] == [DayFirst];
  }

  /** Extraction fails exactly when neither pattern matches at any position of the text. */
  lemma ExtractFailsIffNoMatch(text: seq<char>)
    ensures ExtractDate(text).None? <==>
      forall j | 0 <= j <= |text| :: MatchAt(YearFirst, text[j..]).None? && MatchAt(DayFirst, text[j..]).None?
  {
    SearchIsLeftmost(YearFirst, text);
    SearchIsLeftmost(DayFirst, text);
    assert DatePatterns[1..] == [DayFirst];
  }

  /** `parse_gregorian_date` and `parse_hijri_date` read the same triple from every text: both
      fail to find a date or neither does, and when both succeed they return the same fields. */
  lemma ParsersAgree(text: seq<char>, gregorian: (nat, nat, nat) -> bool, hijri: (nat, nat, nat) -> bool)
    ensures ParseGregorianDate(text, gregorian).Err? && ParseGregorianDate(text, gregorian).error.NoDateFormat?
      <==> ParseHijriDate(text, hijri).Err? && ParseHijriDate(text, hijri).error.NoDateFormat?
    ensures ParseGregorianDate(text, gregorian).Ok? && ParseHijriDate(text, hijri).Ok? ==>
      ParseGregorianDate(text, gregorian).value == ParseHijriDate(text, hijri).value
    ensures (ParseGregorianDate(text, gregorian).Err? && ParseGregorianDate(text, gregorian).error.Rejected?
             && ParseHijriDate(text, hijri).Err? && ParseHijriDate(text, hijri).error.Rejected?) ==>
      ParseGregorianDate(text, gregorian).error.date == ParseHijriDate(text, hijri).error.date
  {
  }

  // ---------------------------------------------------------------------------------------
  // Surrounding whitespace

  lemma {:induction false} FirstMatchPrepend(pats: seq<Pattern>, c: char, text: seq<char>)
    requires Inert(c)
    ensures FirstMatch(pats, [c] + text) == FirstMatch(pats, text)
    decreases |pats|
  {
    if pats != [] {
      SearchPrepend(pats[0], c, text);
      FirstMatchPrepend(pats[1..], c, text);
    }
  }

  lemma {:induction false} FirstMatchAppend(pats: seq<Pattern>, text: seq<char>, c: char)
    requires Inert(c)
    ensures FirstMatch(pats, text + [c]) == FirstMatch(pats, text)
    decreases |pats|
  {
    if pats != [] {
      SearchAppend(pats[0], text, c);
      FirstMatchAppend(pats[1..], text, c);
    }
  }

  lemma {:induction false} ExtractIgnoresLeadingSpace(text: seq<char>)
    ensures ExtractDate(StripStart(text)) == ExtractDate(text)
    decreases |text|
  {
    if text != [] && IsSpace(text[0]) {
      assert text == [text[0]] + text[1..];
      FirstMatchPrepend(DatePatterns, text[0], text[1..]);
      ExtractIgnoresLeadingSpace(text[1..]);
    }
  }

  lemma {:induction false} ExtractIgnoresTrailingSpace(text: seq<char>)
    ensures ExtractDate(StripEnd(text)) == ExtractDate(text)
    decreases |text|
  {
    if text != [] && IsSpace(text[|text| - 1]) {
      var init := text[..|text| - 1];
      assert text == init + [text[|text| - 1]];
      FirstMatchAppend(DatePatterns, init, text[|text| - 1]);
      ExtractIgnoresTrailingSpace(init);
    }
  }

  /** The `strip()` that `convert_date` applies first never changes the extracted triple. */
  lemma ExtractIgnoresStrip(text: seq<char>)
    ensures ExtractDate(Strip(text)) == ExtractDate(text)
  {
    ExtractIgnoresLeadingSpace(text);
    ExtractIgnoresTrailingSpace(StripStart(text));
  }

  // ---------------------------------------------------------------------------------------
  // Texts that are one date

  /** A text that is exactly a year-first date, with either separators, is read as that year,
      month and day. */
  lemma ExtractsYearFirstDate(y: seq<char>, c1: char, m: seq<char>, c2: char, d: seq<char>)
    requires AllDigits(y) && AllDigits(m) && AllDigits(d) && IsSeparator(c1) && IsSeparator(c2)
    requires |y| == 4 && 1 <= |m| <= 2 && 1 <= |d| <= 2
    ensures ExtractDate(y + [c1] + m + [c2] + d) == Some(Date(Int(y), Int(m), Int(d)))
  {
    var s := y + [c1] + m + [c2] + d;
    assert s + [] == s;
    MatchYearFirstComposed(y, c1, m, c2, d, []);
    YearFirstWins(s);
  }

  /** A text that is exactly a day-first date, with either separators, is read as that day,
      month and year: its separators leave no room for a year-first match. */
  lemma ExtractsDayFirstDate(d: seq<char>, c1: char, m: seq<char>, c2: char, y: seq<char>)
    requires AllDigits(d) && AllDigits(m) && AllDigits(y) && IsSeparator(c1) && IsSeparator(c2)
    requires 1 <= |d| <= 2 && 1 <= |m| <= 2 && |y| == 4
    ensures ExtractDate(d + [c1] + m + [c2] + y) == Some(Date(Int(y), Int(m), Int(d)))
  {
    var s := d + [c1] + m + [c2] + y;
    assert s + [] == s;
    JoinedParts(d, c1, m, c2, y, []);
    var p1, p2 := |d|, |d| + 1 + |m|;
    assert !IsDigit(s[p1]) && !IsDigit(s[p2]);
    forall j | 0 <= j < |s|
      ensures !YearFirstCanStart(s, j)
    {
      if j <= p1 {
        assert s[j + (p1 - j)] == s[p1];
      } else if j <= p2 {
        assert s[j + (p2 - j)] == s[p2];
      }
    }
    NoYearFirst(s);
    MatchDayFirstComposed(d, c1, m, c2, y, []);
    assert Search(DayFirst, s).Some?;
    DayFirstFallback(s);
  }
}
