# convertdateBot date reading, in Dafny

This project models how the Telegram bot `convertdateBot` (`bot.py`) reads a date out of a
message and picks its reply. It also proves what that reading does.

The message handler `convert_date` first strips the message text. It then tries to read the
text as a Gregorian date and convert it to Hijri. If any step of that raises, it reads the same
text as a Hijri date and converts it to Gregorian. If that raises as well, it sends a fixed
apology.

Both parse functions, `parse_gregorian_date` and `parse_hijri_date`, search the text with two
regular expressions, in this order:

- the year-first pattern `(\d{4})[-/](\d{1,2})[-/](\d{1,2})`;
- the day-first pattern `(\d{1,2})[-/](\d{1,2})[-/](\d{4})`.

The first pattern that `re.search` finds anywhere in the text decides the result. A four-digit
first group is read as the year; otherwise the groups are read as day, month and year. The
resulting triple goes to the calendar constructor. If neither pattern matches, the function
raises `ValueError` with its own message.

Layout:

- `wrappers.dfy`: `Option` and `Result`.
- `text.dfy`: the character classes `\d`, `[-/]` and `str.isspace()`. It also models Python's
  `int()` on a run of digits, `str()` and `{:02d}` of a non-negative integer, and
  `str.strip()`.
- `patterns.dfy`: the two patterns and Python's regular-expression semantics for them.
  - A match anchored at one position is the first fitting entry in the engine's backtracking
    order over the group lengths. A greedy `\d{1,2}` tries two digits before one, and a later
    group is revisited before an earlier one.
  - `re.search` is the leftmost anchored match.
  - The backtracking order is proved equal to the declarative reading "the most preferred
    admitted lengths that fit". The search is proved to find the leftmost match.
- `parse.dfy`: the shared body of the two parse functions (`ParseDate`, with the constructor's
  validation as a parameter), their two instances, and the `ValueError` messages.
- `convert.dfy`: the decision cascade of `convert_date` and the `y-mm-dd` format of the reply
  lines.
  - The converter library is abstract. Each calendar is a `Reading`: its constructor's
    acceptance of a `(year, month, day)` triple, plus its conversion to the other calendar, where
    `None` stands for any exception.
  - The reply the model represents is which branch answers and with which two dates.
- `examples.dfy`: the two samples of the welcome message and other characteristic inputs, worked
  through the model.

What `bot.py` does not do, although a user might expect it of a date-conversion bot:

- It recognises no month names, no relative words such as "today", and no weekdays. It does no
  validation of its own, and it never compares the dates found by the two patterns by position
  or length. Within one pattern the leftmost match wins (`Patterns.SearchIsLeftmost`).
- It has only the two numeric patterns, and a year-first match anywhere in the text wins over an
  earlier day-first match. This is proved by `DateParse.YearFirstWins` and shown by
  `Examples.YearFirstLaterSample`.
- The dates go to the calendar constructors unchecked: `99/99/9999` is handed to the constructor
  as `(9999, 99, 99)` (`Examples.NinesSample`).

## Model

| member | source | states |
|---|---|---|
| Text.DigitValue | bot.py:31-37 | every character `\d` admits has the value below ten that `int()` gives it |
| Text.IsSeparator | bot.py:22-23 | `[-/]`: a separator is never a digit, so the separators alone delimit the groups of a match |
| Text.IsSpace | bot.py:78 | the characters `strip()` removes; none of them is a digit or a separator, so stripping never removes part of a date |
| Text.Int | bot.py:31-37 | `int()` of a run of n digits is a natural number below 10^n |
| Text.IntDropsLeadingZero | bot.py:31-37 | a leading zero digit does not change the value `int()` reads, so `09` and `9` give the same month |
| Text.IntOfShortRun | bot.py:31-37 | the positional value of a run of one, two or four digits |
| Text.ShortRunBound | bot.py:31-37 | a run of at most two digits reads as at most 99, and one of at most four digits as at most 9999 |
| Text.Decimal | bot.py:85-86 | `str(n)` is a non-empty run of digits that `int()` reads back as n; it has exactly one digit iff n < 10 |
| Text.DecimalOfFourDigitNumber | bot.py:85-86 | a year in 1000..9999 is written with exactly four digits |
| Text.Pad2 | bot.py:85-86 | `{n:02d}` is a run of digits that `int()` reads back as n, of length exactly two when n <= 99 |
| Text.StripStart | bot.py:78 | `lstrip()` returns a suffix of the text that does not begin with whitespace |
| Text.StripEnd | bot.py:78 | `rstrip()` returns a prefix of the text that does not end with whitespace |
| Text.Strip | bot.py:78 | `strip()` returns a text no longer than the message, with no whitespace at either end |
| Text.StripStartShape | bot.py:78 | `lstrip()` removes only whitespace: every character before the suffix it returns is whitespace |
| Text.StripEndShape | bot.py:78 | `rstrip()` removes only whitespace: every character after the prefix it returns is whitespace |
| Text.StripShape | bot.py:78 | `strip()` leaves the contiguous run of the text that starts after the leading whitespace; only whitespace precedes or follows it, and it has no whitespace at either end |
| Patterns.Fits | bot.py:22-23 | a fitting candidate's three runs and two separators lie inside the text |
| Patterns.Cut | bot.py:28 | `match.groups()` of a fitting candidate: digit runs of the candidate's lengths which, with the two separators, make up the matched part of the text |
| Patterns.Alternatives | bot.py:22-23 | the candidates the engine tries are exactly the group lengths the quantifiers admit, in strictly decreasing greedy preference |
| Patterns.Choice | bot.py:22-23 | the lengths of an anchored match are admitted by the pattern and fit the text |
| Patterns.Backtrack | bot.py:22-23 | the chosen group lengths fit the text and belong to the candidates, and every candidate tried before them fails; no result means no candidate fits |
| Patterns.MatchAt | bot.py:22-23 | an anchored match captures three digit runs whose lengths the pattern's quantifiers admit |
| Patterns.ChoiceIsGreedy | bot.py:22-23 | the engine's choice is the admitted fitting lengths that are greatest in the greedy (lexicographic) preference; there is no choice iff no admitted lengths fit |
| Patterns.YearFirstNeedsFourDigits | bot.py:22 | a year-first match begins with four digits and a separator |
| Patterns.MatchNeedsLeadingDigit | bot.py:22-23 | every match of either pattern begins with a digit |
| Patterns.MatchYearFirstComposed | bot.py:22 | four digits, a separator, one or two digits, a separator and one or two digits match year-first with exactly those runs, whichever separators are used, as long as a one-digit last run is not followed by a digit |
| Patterns.MatchDayFirstComposed | bot.py:23 | one or two digits, a separator, one or two digits, a separator and four digits match day-first with exactly those runs, whatever follows |
| Patterns.Search | bot.py:26 | a found match starts inside the text and captures runs the pattern admits |
| Patterns.SearchSomeIsLeftmost | bot.py:26 | a reported match is an anchored match at its start, and no anchored match starts earlier |
| Patterns.SearchNoneIsNoMatch | bot.py:26 | the search reports nothing only when no anchored match starts anywhere |
| Patterns.SearchIsLeftmost | bot.py:26 | `re.search` reports the leftmost anchored match; it reports none iff there is no match at any position |
| Patterns.SearchFindsLeftmost | bot.py:26 | conversely, an anchored match at i with none before it is exactly what `re.search` reports |
| Patterns.NoYearFirst | bot.py:22 | a text in which four digits followed by a separator never begin has no year-first match |
| Patterns.NoDigitNoMatch | bot.py:25-27 | a text without digits has no match of either pattern |
| Patterns.SearchAppend | bot.py:26 | appending a character that is neither a digit nor a separator does not change the search result |
| Patterns.SearchPrepend | bot.py:26 | prepending such a character shifts the match position by one and leaves the groups unchanged |
| DateParse.GroupsToDate | bot.py:28-37 | the `len(groups[0]) == 4` test reads the groups of a year-first match as year, month, day and those of a day-first match as day, month, year; the year is at most 9999 and the month and day at most 99 |
| DateParse.FirstMatch | bot.py:25-39 | the `for pat in patterns` loop yields the date of the first pattern that `re.search` finds, every earlier pattern having found nothing; it yields nothing iff no pattern is found |
| DateParse.ExtractDate | bot.py:21-39 | a triple is extracted iff one of the two patterns is found; its year is at most 9999 and its month and day at most 99 |
| DateParse.ParseDate | bot.py:25-41 | the shared parse body fails with the format message iff no pattern matches; it returns a triple iff one is extracted and the constructor accepts it, and then that triple; a refusal carries the extracted triple |
| DateParse.ParseGregorianDate | bot.py:16-41 | raises `ValueError("Not a valid Gregorian date format")` iff no pattern matches; the extracted triple is returned iff `Gregorian(year, month, day)` accepts it, and a refusal carries that triple |
| DateParse.ParseHijriDate | bot.py:43-66 | raises `ValueError("Not a valid Hijri date format")` iff no pattern matches; the extracted triple is returned iff `Hijri(year, month, day)` accepts it, and a refusal carries that triple |
| DateParse.YearFirstWins | bot.py:25-33 | when the year-first pattern matches anywhere, its groups give the year, month and day, even if a day-first date comes earlier in the text |
| DateParse.DayFirstFallback | bot.py:25-37 | only when there is no year-first match anywhere does the leftmost day-first match decide, with its last group as the year |
| DateParse.ExtractFailsIffNoMatch | bot.py:25-41 | no triple is extracted iff neither pattern matches at any position of the text |
| DateParse.ParsersAgree | bot.py:16-66 | both parse functions find a date in the same texts and read the same triple from them; they differ only in the constructor that receives it |
| DateParse.FirstMatchPrepend | bot.py:25-37 | the pattern loop ignores a leading character that is neither a digit nor a separator |
| DateParse.FirstMatchAppend | bot.py:25-37 | the pattern loop ignores a trailing character that is neither a digit nor a separator |
| DateParse.ExtractIgnoresLeadingSpace | bot.py:78 | leading whitespace never changes the extracted triple |
| DateParse.ExtractIgnoresTrailingSpace | bot.py:78 | trailing whitespace never changes the extracted triple |
| DateParse.ExtractIgnoresStrip | bot.py:78 | the `strip()` before parsing never changes the extracted triple |
| DateParse.ExtractsYearFirstDate | bot.py:22-33 | a text that is exactly a year-first date, with either separators, is read as that year, month and day |
| DateParse.ExtractsDayFirstDate | bot.py:23-37 | a text that is exactly a day-first date, with either separators, is read as that day, month and year: its separators leave no room for a year-first match |
| Convert.TryGregorian | bot.py:81-83 | the first `try` block succeeds iff a triple is found, the Gregorian constructor accepts it and it converts to Hijri; it then yields that triple and its conversion |
| Convert.TryHijri | bot.py:93-95 | the second `try` block succeeds iff a triple is found, the Hijri constructor accepts it and it converts to Gregorian; it then yields that triple and its conversion |
| Convert.ConvertDate | bot.py:77-101 | a Gregorian reply shows the extracted triple and its Hijri conversion; a Hijri reply shows the extracted triple, whose Gregorian reading failed, and its Gregorian conversion; a message without a date gets the apology; the Gregorian reading is tried first, the Hijri reading only when it fails, the apology only when both fail |
| Convert.TryBlocksIgnoreStrip | bot.py:78-95 | both `try` blocks give the same result on the stripped text as on the message itself |
| Convert.GregorianReplyIff | bot.py:78-88 | the reply reads the message as Gregorian with dates (g, h) iff g is the extracted triple, the Gregorian constructor accepts it and it converts to h |
| Convert.HijriReplyIff | bot.py:92-99 | the reply reads the message as Hijri with dates (h, g) iff h is the extracted triple, its Gregorian reading fails, the Hijri constructor accepts it and it converts to g |
| Convert.ApologyIff | bot.py:100-101 | the apology is sent iff no triple is found, or both readings of the found triple fail |
| Convert.NoDateMeansApology | bot.py:77-101 | a message in which neither pattern matches anywhere gets the apology, whatever the library does |
| Convert.GregorianPathIgnoresHijri | bot.py:81-90 | once the Gregorian reading of the message succeeds, the reply is Gregorian and does not depend on the Hijri constructor or conversion |
| Convert.FormatDate | bot.py:85-86 | `{y}-{m:02d}-{d:02d}` is the year's numeral, a dash, two digits, a dash and two digits (for a month and a day below 100), which `int()` reads back as the year, the month and the day |
| Convert.FormatDateRoundTrip | bot.py:85-86 | a date written as `{y}-{m:02d}-{d:02d}`, with a four-digit year and month and day below 100, is read back by the parsers as the same triple |
| Examples.WelcomeGregorianSample | bot.py:72 | the welcome message's Gregorian sample `25/3/2025` is read as (2025, 3, 25) |
| Examples.WelcomeHijriSample | bot.py:72 | the welcome message's Hijri sample `1445-09-15` is read as (1445, 9, 15) |
| Examples.MixedSeparatorsSample | bot.py:22 | `2023-10/05` and `2023/10-05` are both read as (2023, 10, 5): each `[-/]` is matched independently |
| Examples.YearFirstLaterSample | bot.py:25-33 | in `05/10/2023 2024-01-02` a day-first date starts at position 0, yet the later year-first date (2024, 1, 2) is used |
| Examples.EmbeddedSample | bot.py:26 | `x12023-10-055` is read as (2023, 10, 5): the search is unanchored and ignores surrounding digits |
| Examples.DayFirstIsoSample | bot.py:22-37 | `05-10-2023` and `2023-10-05` are read as the same triple |
| Examples.NinesSample | bot.py:35-39 | `99/99/9999` is passed to the constructor as (9999, 99, 99): the parsers do not validate |
| Examples.NoDateSample | bot.py:77-101 | `hello world` yields no triple and gets the apology, whatever the library does |

## Left out

- The Telegram side is not modelled: the bot object, the dispatcher, the `/start` handler and its
  welcome text, polling, logging and the token (bot.py:3-14, 68-74, 104-105).
- The converter library `hijri_converter` is not part of this model. Its constructors
  `Gregorian(y, m, d)` and `Hijri(y, m, d)`, and the conversions `Hijri.from_gregorian` and
  `to_gregorian`, are parameters of the model (`Convert.Reading`).
  - The model assumes a constructed calendar object carries the year, month and day it was
    given.
  - It also assumes a conversion returns a date with non-negative fields.
- Sending replies is not modelled, including the text and emoji of the reply lines. Only the
  branch and the two dates are modelled, plus the `y-mm-dd` format of one date (`FormatDate`).
  - The first reply (bot.py:84-87) is sent inside the first `try`. If sending it raised, the bare
    `except` would fall through to the Hijri branch. The model assumes sending succeeds.
- Messages without text are not modelled. For those, `message.text` is `None` and `strip()`
  raises before any parsing.
- `Text.IsDigit`: Python's `\d` and `int()` accept every Unicode decimal digit. The model covers
  the ASCII, Arabic-Indic and Extended Arabic-Indic blocks, which are the ones an Arabic-language
  user types, and leaves the other decimal-digit blocks out.
- `Convert.FormatDateRoundTrip`: stated only for years of four digits. A year below 1000 is
  written with fewer digits, so neither pattern reads the line back as the same triple.
