/**
 The sample inputs of the welcome message and of the documented behaviour, worked through the
 model of the parsers.
 */
module Examples {
  import opened Wrappers
  import opened Text
  import opened Patterns
  import opened DateParse
  import opened Convert

  /** The triple read from a text with a year-first occurrence, from that occurrence's
      groups, given their values. */
  lemma ReadsYearFirst(text: seq<char>, g: Groups, d: Date)
    requires Search(YearFirst, text).Some? && Search(YearFirst, text).value.groups == g
    requires AllDigits(g.first) && AllDigits(g.second) && AllDigits(g.third)
    requires d == Date(Int(g.first), Int(g.second), Int(g.third))
    ensures ExtractDate(text) == Some(d)
  {
    YearFirstWins(text);
  }

  /** The values of the groups of the 2023-10-05 samples. */
  lemma OctoberFifthValues()
    ensures Int("2023") == 2023 && Int("10") == 10 && Int("05") == 5
  {
    IntOfShortRun("2023");
    IntOfShortRun("10");
    IntOfShortRun("05");
  }

  // "25/3/2025", the Gregorian sample of the welcome message

  lemma WelcomeGregorianValues()
    ensures Int("25") == 25 && Int("3") == 3 && Int("2025") == 2025
  {
    IntOfShortRun("25");
    IntOfShortRun("3");
    IntOfShortRun("2025");
  }

  lemma WelcomeGregorianSample(s: seq<char>)
    requires s == "25/3/2025"
    ensures ExtractDate(s) == Some(Date(2025, 3, 25))
  {
    assert s == "25" + ['/'] + "3" + ['/'] + "2025";
    ExtractsDayFirstDate("25", '/', "3", '/', "2025");
    WelcomeGregorianValues();
  }

  // "1445-09-15", the Hijri sample of the welcome message

  lemma WelcomeHijriValues()
    ensures Int("1445") == 1445 && Int("09") == 9 && Int("15") == 15
  {
    IntOfShortRun("1445");
    IntOfShortRun("09");
    IntOfShortRun("15");
  }

  lemma WelcomeHijriSample(s: seq<char>)
    requires s == "1445-09-15"
    ensures ExtractDate(s) == Some(Date(1445, 9, 15))
  {
    assert s == "1445" + ['-'] + "09" + ['-'] + "15";
    ExtractsYearFirstDate("1445", '-', "09", '-', "15");
    WelcomeHijriValues();
  }

  // "2023-10/05" and "2023/10-05": the two separators are matched independently

  lemma MixedSeparatorsSample(s: seq<char>, t: seq<char>)
    requires s == "2023-10/05" && t == "2023/10-05"
    ensures ExtractDate(s) == ExtractDate(t) == Some(Date(2023, 10, 5))
  {
    assert s == "2023" + ['-'] + "10" + ['/'] + "05";
    assert t == "2023" + ['/'] + "10" + ['-'] + "05";
    ExtractsYearFirstDate("2023", '-', "10", '/', "05");
    ExtractsYearFirstDate("2023", '/', "10", '-', "05");
    OctoberFifthValues();
  }

  // "05/10/2023 2024-01-02": a day-first date comes first, the year-first one is used

  lemma NoYearFirstBeforeEleven(s: seq<char>)
    requires s == "05/10/2023 2024-01-02"
    ensures forall j | 0 <= j < 11 :: !YearFirstCanStart(s, j)
  {
    forall j | 0 <= j < 11
      ensures !YearFirstCanStart(s, j)
    {
      assert j == 0 || j == 1 || j == 2 || j == 3 || j == 4 || j == 5 || j == 6 || j == 7
        || j == 8 || j == 9 || j == 10;
    }
  }

  lemma YearFirstInYearFirstLater(s: seq<char>)
    requires s == "05/10/2023 2024-01-02"
    ensures Search(YearFirst, s) == Some(Found(11, Groups("2024", "01", "02")))
  {
    NoYearFirstBeforeEleven(s);
    NoYearFirstBefore(s, 11);
    assert s[11..] == "2024" + ['-'] + "01" + ['-'] + "02" + [];
    MatchYearFirstComposed("2024", '-', "01", '-', "02", []);
    SearchFindsLeftmost(YearFirst, s, 11, Groups("2024", "01", "02"));
  }

  lemma DayFirstInYearFirstLater(s: seq<char>)
    requires s == "05/10/2023 2024-01-02"
    ensures Search(DayFirst, s) == Some(Found(0, Groups("05", "10", "2023")))
  {
    assert s == "05" + ['/'] + "10" + ['/'] + "2023" + " 2024-01-02";
    MatchDayFirstComposed("05", '/', "10", '/', "2023", " 2024-01-02");
  }

  lemma YearFirstLaterValues()
    ensures Int("2024") == 2024 && Int("01") == 1 && Int("02") == 2
  {
    IntOfShortRun("2024");
    IntOfShortRun("01");
    IntOfShortRun("02");
  }

  lemma YearFirstLaterSample(s: seq<char>)
    requires s == "05/10/2023 2024-01-02"
    ensures Search(DayFirst, s) == Some(Found(0, Groups("05", "10", "2023")))
    ensures ExtractDate(s) == Some(Date(2024, 1, 2))
  {
    DayFirstInYearFirstLater(s);
    YearFirstInYearFirstLater(s);
    YearFirstLaterValues();
    ReadsYearFirst(s, Groups("2024", "01", "02"), Date(2024, 1, 2));
  }

  // "x12023-10-055": the match is embedded in other characters and digits

  lemma YearFirstInEmbedded(s: seq<char>)
    requires s == "x12023-10-055"
    ensures Search(YearFirst, s) == Some(Found(2, Groups("2023", "10", "05")))
  {
    assert !YearFirstCanStart(s, 0) && !YearFirstCanStart(s, 1);
    NoYearFirstBefore(s, 2);
    assert s[2..] == "2023" + ['-'] + "10" + ['-'] + "05" + "5";
    MatchYearFirstComposed("2023", '-', "10", '-', "05", "5");
    SearchFindsLeftmost(YearFirst, s, 2, Groups("2023", "10", "05"));
  }

  lemma EmbeddedSample(s: seq<char>)
    requires s == "x12023-10-055"
    ensures ExtractDate(s) == Some(Date(2023, 10, 5))
  {
    YearFirstInEmbedded(s);
    OctoberFifthValues();
    ReadsYearFirst(s, Groups("2023", "10", "05"), Date(2023, 10, 5));
  }

  // "05-10-2023" reads the same triple as "2023-10-05"

  lemma DayFirstIsoSample(s: seq<char>, t: seq<char>)
    requires s == "05-10-2023" && t == "2023-10-05"
    ensures ExtractDate(s) == ExtractDate(t) == Some(Date(2023, 10, 5))
  {
    assert s == "05" + ['-'] + "10" + ['-'] + "2023";
    assert t == "2023" + ['-'] + "10" + ['-'] + "05";
    ExtractsDayFirstDate("05", '-', "10", '-', "2023");
    ExtractsYearFirstDate("2023", '-', "10", '-', "05");
    OctoberFifthValues();
  }

  // "99/99/9999": the parsers do not validate; the triple goes to the calendar constructors

  lemma NinesValues()
    ensures Int("99") == 99 && Int("9999") == 9999
  {
    IntOfShortRun("99");
    IntOfShortRun("9999");
  }

  lemma NinesSample(s: seq<char>)
    requires s == "99/99/9999"
    ensures ExtractDate(s) == Some(Date(9999, 99, 99))
  {
    assert s == "99" + ['/'] + "99" + ['/'] + "9999";
    ExtractsDayFirstDate("99", '/', "99", '/', "9999");
    NinesValues();
  }

  // "hello world": no date, so the apology, whatever the library

  lemma NoDateSample(s: seq<char>, gregorian: Reading, hijri: Reading)
    requires s == "hello world"
    ensures ExtractDate(s) == None
    ensures ConvertDate(s, gregorian, hijri) == Apology
  {
    NoDigitNoMatch(YearFirst, s);
    NoDigitNoMatch(DayFirst, s);
    SearchIsLeftmost(YearFirst, s);
    SearchIsLeftmost(DayFirst, s);
    NoDateMeansApology(s, gregorian, hijri);
  }
}
