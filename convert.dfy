/**
 The decision logic of `convert_date`: strip the message text; read it as a Gregorian date and
 convert that to Hijri; only if any step of that fails, read it as a Hijri date and convert that
 to Gregorian; if that fails too, reply with the fixed apology.

 The converter library's constructors and conversions are parameters: a `Reading` is the
 constructor's validation of a (year, month, day) triple together with the conversion of the
 constructed date into the other calendar, `None` standing for any exception it raises.
 */
module Convert {
  import opened Wrappers
  import opened Text
  import opened Patterns
  import opened DateParse

  /** One way of reading a triple: `accepts` is the calendar constructor (`Gregorian(y, m, d)` or
      `Hijri(y, m, d)`) not raising; `convert` is `Hijri.from_gregorian` or `to_gregorian`. */
  datatype Reading = Reading(accepts: (nat, nat, nat) -> bool, convert: Date -> Option<Date>)

  /** The reply `convert_date` sends. */
  datatype Reply =
    | GregorianReply(gregorian: Date, hijri: Date)  // the text read as a Gregorian date
    | HijriReply(hijri: Date, gregorian: Date)      // the text read as a Hijri date
    | Apology                                       // neither reading worked

  /** The first `try` block: parse as Gregorian, then convert to Hijri. It succeeds exactly when a
      triple is found, the Gregorian constructor accepts it and the conversion returns; it then
      yields that triple and its conversion. */
  function TryGregorian(text: seq<char>, gregorian: Reading): (r: Option<(Date, Date)>)
    ensures r.Some? <==> (ExtractDate(text).Some? &&
      var d := ExtractDate(text).value; gregorian.accepts(d.year, d.month, d.day) && gregorian.convert(d).Some?)
    ensures r.Some? ==> ExtractDate(text) == Some(r.value.0) && gregorian.convert(r.value.0) == Some(r.value.1)
  {
    match ParseGregorianDate(text, gregorian.accepts)
    case Err(_) => None
    case Ok(g) =>
      match gregorian.convert(g)
      case None => None
      case Some(h) => Some((g, h))
  }

  /** The second `try` block: parse as Hijri, then convert to Gregorian. It succeeds exactly when a
      triple is found, the Hijri constructor accepts it and the conversion returns; it then
      yields that triple and its conversion. */
  function TryHijri(text: seq<char>, hijri: Reading): (r: Option<(Date, Date)>)
    ensures r.Some? <==> (ExtractDate(text).Some? &&
      var d := ExtractDate(text).value; hijri.accepts(d.year, d.month, d.day) && hijri.convert(d).Some?)
    ensures r.Some? ==> ExtractDate(text) == Some(r.value.0) && hijri.convert(r.value.0) == Some(r.value.1)
  {
    match ParseHijriDate(text, hijri.accepts)
    case Err(_) => None
    case Ok(h) =>
      match hijri.convert(h)
      case None => None
      case Some(g) => Some((h, g))
  }

  /** `convert_date` on the text of a message. A Gregorian reply shows the triple found in the
      message and its Hijri conversion; a Hijri reply shows the triple, for which the Gregorian
      reading failed, and its Gregorian conversion; a message without a date gets the apology. The Gregorian reading is
      tried first, the Hijri reading only when it fails, and the apology only when both fail. */
  function ConvertDate(message: seq<char>, gregorian: Reading, hijri: Reading): (r: Reply)
    ensures r.GregorianReply? ==>
      && ExtractDate(message) == Some(r.gregorian)
      && gregorian.accepts(r.gregorian.year, r.gregorian.month, r.gregorian.day)
      && gregorian.convert(r.gregorian) == Some(r.hijri)
    ensures r.HijriReply? ==>
      && ExtractDate(message) == Some(r.hijri)
      && !(gregorian.accepts(r.hijri.year, r.hijri.month, r.hijri.day) && gregorian.convert(r.hijri).Some?)
      && hijri.accepts(r.hijri.year, r.hijri.month, r.hijri.day) && hijri.convert(r.hijri) == Some(r.gregorian)
    ensures ExtractDate(message).None? ==> r == Apology
    ensures TryGregorian(message, gregorian).Some? ==> r.GregorianReply?
    ensures TryGregorian(message, gregorian).None? && TryHijri(message, hijri).Some? ==> r.HijriReply?
    ensures TryGregorian(message, gregorian).None? && TryHijri(message, hijri).None? ==> r == Apology
  {
    var text := Strip(message);
    TryBlocksIgnoreStrip(message, gregorian, hijri);
    match TryGregorian(text, gregorian)
    case Some((g, h)) => GregorianReply(g, h)
    case None =>
      match TryHijri(text, hijri)
      case Some((h, g)) => HijriReply(h, g)
      case None => Apology
  }

  /** `{y}-{m:02d}-{d:02d}`, the way each reply line writes a date: the year's numeral, a dash,
      the month in two digits, a dash and the day in two digits, each of which `int()` reads back
      as the field (when the month and the day are below 100). */
  function FormatDate(d: Date): (s: seq<char>)
    ensures d.month <= 99 && d.day <= 99 ==>
      var n := |s| - 6;
      && n == |Decimal(d.year)| && s[n] == '-' && s[n + 3] == '-'
      && AllDigits(s[..n]) && Int(s[..n]) == d.year
      && AllDigits(s[n + 1..n + 3]) && Int(s[n + 1..n + 3]) == d.month
      && AllDigits(s[n + 4..]) && Int(s[n + 4..]) == d.day
  {
    var y, m, dd := Decimal(d.year), Pad2(d.month), Pad2(d.day);
    JoinedParts(y, '-', m, '-', dd, []);
    var s := y + ['-'] + m + ['-'] + dd + [];
    assert s[|y| + |m| + 2..] == dd;
    s
  }

  // ---------------------------------------------------------------------------------------
  // The cascade

  /** Both `try` blocks behave on the stripped text exactly as on the message itself. */
  lemma TryBlocksIgnoreStrip(message: seq<char>, gregorian: Reading, hijri: Reading)
    ensures TryGregorian(Strip(message), gregorian) == TryGregorian(message, gregorian)
    ensures TryHijri(Strip(message), hijri) == TryHijri(message, hijri)
  {
    ExtractIgnoresStrip(message);
  }

  /** The reply reads the text as a Gregorian date exactly when its triple is accepted by the
      Gregorian constructor and converted to Hijri; the two dates shown are that triple and its
      conversion. */
  lemma GregorianReplyIff(message: seq<char>, gregorian: Reading, hijri: Reading, g: Date, h: Date)
    ensures ConvertDate(message, gregorian, hijri) == GregorianReply(g, h) <==>
      ExtractDate(message) == Some(g) && gregorian.accepts(g.year, g.month, g.day) && gregorian.convert(g) == Some(h)
  {
    TryBlocksIgnoreStrip(message, gregorian, hijri);
  }

  /** The reply reads the text as a Hijri date exactly when the Gregorian reading of the same
      triple failed (constructor or conversion), and the Hijri constructor accepted it and it
      converted to Gregorian. */
  lemma HijriReplyIff(message: seq<char>, gregorian: Reading, hijri: Reading, h: Date, g: Date)
    ensures ConvertDate(message, gregorian, hijri) == HijriReply(h, g) <==>
      ExtractDate(message) == Some(h)
      && !(gregorian.accepts(h.year, h.month, h.day) && gregorian.convert(h).Some?)
      && hijri.accepts(h.year, h.month, h.day) && hijri.convert(h) == Some(g)
  {
    TryBlocksIgnoreStrip(message, gregorian, hijri);
  }

  /** The apology is sent exactly when no date is found, or both readings of the found triple
      fail. */
  lemma ApologyIff(message: seq<char>, gregorian: Reading, hijri: Reading)
    ensures ConvertDate(message, gregorian, hijri) == Apology <==>
      match ExtractDate(message)
      case None => true
      case Some(d) =>
        !(gregorian.accepts(d.year, d.month, d.day) && gregorian.convert(d).Some?)
        && !(hijri.accepts(d.year, d.month, d.day) && hijri.convert(d).Some?)
  {
    TryBlocksIgnoreStrip(message, gregorian, hijri);
  }

  /** A text in which neither pattern matches anywhere always gets the apology, whatever the
      library does. */
  lemma NoDateMeansApology(message: seq<char>, gregorian: Reading, hijri: Reading)
    requires forall j | 0 <= j <= |message| :: MatchAt(YearFirst, message[j..]).None? && MatchAt(DayFirst, message[j..]).None?
    ensures ConvertDate(message, gregorian, hijri) == Apology
  {
    ExtractFailsIffNoMatch(message);
    ApologyIff(message, gregorian, hijri);
  }

  /** When the Gregorian reading succeeds, the Hijri reading is never consulted: any other Hijri
      constructor and conversion give the same reply. */
  lemma GregorianPathIgnoresHijri(message: seq<char>, gregorian: Reading, hijri: Reading, other: Reading)
    requires TryGregorian(message, gregorian).Some?
    ensures ConvertDate(message, gregorian, hijri) == ConvertDate(message, gregorian, other)
    ensures ConvertDate(message, gregorian, hijri).GregorianReply?
  {
    TryBlocksIgnoreStrip(message, gregorian, hijri);
  }

  // ---------------------------------------------------------------------------------------
  // The reply format read back

  /** A date written the way the replies write it, with a four-digit year and a month and a day
      below 100, is read back as the same triple. */
  lemma FormatDateRoundTrip(d: Date)
    requires 1000 <= d.year <= 9999 && d.month <= 99 && d.day <= 99
    ensures ExtractDate(FormatDate(d)) == Some(d)
  {
    var y, m, dd := Decimal(d.year), Pad2(d.month), Pad2(d.day);
    DecimalOfFourDigitNumber(d.year);
    assert FormatDate(d) == y + ['-'] + m + ['-'] + dd;
    ExtractsYearFirstDate(y, '-', m, '-', dd);
  }
}
