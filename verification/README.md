# Proofs about the analytics programs

The repository counts which commands a program's users run, sends the counts to a server and stores
them in a database. Its own code is small. Most of the logic it depends on is in three header
libraries it carries: `date` (calendars, time zones, leap seconds), `ptz` (POSIX time zone strings)
and `cxxopts` (command lines). This project models both, and proves what they are meant to do.

The model is in these groups of modules:

- **Calendars.** `Gregorian`, `Julian`, `Islamic` and `SolarHijri` hold the conversions between a date
  and a day number; each has a `Next` function that tells the following day from month lengths
  alone, and the conversions are proved to be a bijection that turns `Next` into adding one. `Weekdays`,
  `Months`, `IsoWeek`, `StreamFields`, `StreamConflicts` and `Timestamp` build on the Gregorian one,
  `LeapSeconds` on none.
- **Time zones.** `PosixZone` has transition rules and lookups, `PosixLocal` the conversions between local
  times and instants, `PosixPeriod` the decision of its conditions, `PosixExamples` zones that meet them and
  zones that do not.
  `PosixText` reads the text format and `PosixName` prints it, as functions; `PosixGrammar` says what a text
  means by its parts alone; `PosixParser` is the constructor with its loops and fields.
- **Command lines.** `Options` is the token loop as a function, `OptionParser` the class with the cursor;
  `OptionValues` says what a result holds by the command line alone, `ServerOptions` for the server program.
  `IntegerParser` and `WordWrap` are the two loops that do the most arithmetic.
- **The pipeline.** `Usage` and `Analytics` count and print; `SqlText` reads the statement the program writes as
  the database server does, and `Conservation` follows the counts up to there; `Database` and
  `InsertDatabase` take a message apart and store it in one transaction; `Pipeline` joins the two. `Server` is the state machine of
  the connections, the reading thread and the consuming thread, step by step; `ServerObjects` has the
  classes behind it; `EndToEnd` carries the counts through any run of it.

Code that computes by expressions is modelled by functions. Code that changes fields and locals in
loops is modelled by classes and methods, each proved equal to a function whose properties are
then proved as lemmas. `CppArith` has the operators of C++ that differ from those of Dafny.

Some properties one would expect do not hold of the code for all inputs. They are stated as
equivalences, so that the condition is exact:

- Leap-second round trips, flags and order hold exactly for lists whose entries keep a certain distance.
- The lookup of a northern zone is right exactly when one year's daylight time ends before the next
  one's begins; that of a southern zone exactly when its transitions stay in their own UTC year.
  `PosixExamples` has a zone of each kind for which the lookup fails.
- Whether all local times are classified as they are shown, and whether all instants are led back to, is
  decided for every zone with rules by a few instants of each of 400 years.
- Where standard and daylight time alternate and the lookup is right, local times are classified as they
  are shown exactly when no transition's local times cross the end of a year and no period is shorter
  than the saving, or there is no saving.
- The word wrap prints every visible character unless the last line would hold a single one.
- Fields of a date that contradict each other are refused, up to two that are not looked at.
- Counts survive printing and parsing exactly for commands that are not empty and have no white space or
  comma, and the statement sent to the database server exactly if moreover they have no quote, and no
  backslash but before a percent sign or an underscore.
- A message is framed, under full reads, exactly when its length is not a multiple of 100.

`StopConsuming` does not end the consuming thread. What is still stored after it depends on where the
thread is: inside its inner loop, all that is queued by then; outside, nothing, ever.

## Model

| member | source | states |
|---|---|---|
| `Gregorian.ToDaysOfFromDays` | Include/date/date.h:3087-3103 | every day number becomes a valid date that converts back to it |
| `Gregorian.FromDaysOfToDays` | Include/date/date.h:2973-2987 | every valid date is recovered from its day number |
| `Gregorian.NextAddsOne` | Include/date/date.h:2737-2748 | the following day, told from month lengths, is valid and has the next day number |
| `Gregorian.OrderPreserved` | Include/date/date.h:2973-2987 | dates are ordered as their day numbers, both ways |
| `Gregorian.CountIsFromDays` | Include/date/date.h:3087-3103 | the date computed for `n` days later is the one reached by counting `n` single days |
| `Gregorian.YearLength` | Include/date/date.h:1692-1697 | a year has 366 days exactly when `is_leap` says so, else 365 |
| `Gregorian.Epoch` | Include/date/date.h:2973-2987 | 1970-01-01 is day 0 |
| `Julian.ToDaysOfFromDays` | Include/date/julian.h:2272-2288 | every day number becomes a valid Julian date that converts back |
| `Julian.FromDaysOfToDays` | Include/date/julian.h:2162-2176 | every valid Julian date is recovered from its day number |
| `Julian.NextAddsOne` | Include/date/julian.h:1950-1958 | the following Julian day has the next day number |
| `Julian.OrderPreserved` | Include/date/julian.h:2162-2176 | Julian dates are ordered as their day numbers, both ways |
| `Julian.Anchor` | Include/date/julian.h:2162-2176 | day 0 is 19 December 1969 |
| `Islamic.ToDaysOfFromDays` | Include/date/islamic.h:2252-2267 | every day number becomes a valid Islamic date that converts back |
| `Islamic.FromDaysOfToDays` | Include/date/islamic.h:2142-2156 | every valid Islamic date is recovered from its day number |
| `Islamic.NextAddsOne` | Include/date/islamic.h:1932-1938 | the following Islamic day has the next day number |
| `Islamic.OrderPreserved` | Include/date/islamic.h:2142-2156 | Islamic dates are ordered as their day numbers, both ways |
| `Islamic.LeapTableIsJumps` | Include/date/islamic.h:1052-1074 | the tabled leap years are exactly those the year-start formula makes one day longer, and 30 years have 10631 days |
| `Islamic.YearFormulaInverse` | Include/date/islamic.h:2252-2267 | the division that finds the year of an era day is the exact inverse of the year-start formula |
| `Islamic.Anchor` | Include/date/islamic.h:2142-2156 | 1 Muharram 1390 is 1970-03-09 |
| `SolarHijri.ToDaysOfFromDays` | Include/date/solar_hijri.h:2344-2387 | every day number of a year a `short` holds becomes a valid date that converts back, in 32-bit arithmetic |
| `SolarHijri.FromDaysOfToDays` | Include/date/solar_hijri.h:2217-2248 | every valid date of such a year is recovered from its day number |
| `SolarHijri.LeapYearsAreLong` | Include/date/solar_hijri.h:1086-1099 | a year has 366 days under `to_days` exactly when `is_leap` says so, else 365 |
| `SolarHijri.NextAddsOne` | Include/date/solar_hijri.h:2003-2013 | the following day has the next day number |
| `SolarHijri.OrderPreserved` | Include/date/solar_hijri.h:2217-2248 | dates are ordered as their day numbers, both ways |
| `SolarHijri.Anchor` | Include/date/solar_hijri.h:2217-2248 | the first day of 1349 is 1970-03-21 |
| `Weekdays.WeekdayIsEuclidean` | Include/date/date.h:1823-1827 | the wrap-around weekday is the Euclidean remainder for every 32-bit day, and so is the version that truncates, where it does not overflow |
| `Weekdays.DifferenceIsForward` | Include/date/date.h:1905-1910 | the difference of two weekdays counts days forward |
| `Weekdays.OkIffRoundTrip` | Include/date/date.h:3262-3292 | an indexed weekday of a month is `ok` exactly when converting it to a day and back returns it |
| `Weekdays.LastIsLast` | Include/date/date.h:3469-3473 | the last weekday of a month is a day of it with that weekday, and a week later is not in the month |
| `Months.MonthsCountOn` | Include/date/date.h:2278-2310 | adding months counts on across years, and the difference is the only count leading from one month to the other |
| `Months.MonthsGoRound` | Include/date/date.h:1617-1631 | months of a year go round by twelve, and the unsigned difference inverts the sum |
| `Months.WeekdaysFollowDays` | Include/date/date.h:1915-1920 | adding days to a weekday gives the weekday of the day so much later, and inverts the difference |
| `IsoWeek.StartIsMondayOfFirstWeek` | Include/date/iso_week.h:1488-1492 | an ISO year begins on the Monday of the week with 4 January |
| `IsoWeek.LongYears` | Include/date/iso_week.h:607-613 | an ISO year has 53 weeks exactly when it starts on Thursday or is a leap year starting on Wednesday |
| `IsoWeek.YearFound` | Include/date/iso_week.h:1513-1527 | the year of `dp + 3` days with at most one step back is the ISO year of the day |
| `IsoWeek.ToDaysOfFromDays` | Include/date/iso_week.h:1511-1527 | every day becomes an `ok` week date that converts back |
| `IsoWeek.FromDaysOfToDays` | Include/date/iso_week.h:1488-1505 | every `ok` week date is recovered from its day |
| `StreamFields.PrintedFieldsRebuildDate` | Include/date/date.h:7724-7840 | any subset of the printed fields parses without contradiction, and one that names a day (`%G %V` and weekday, year and `%U` or `%W` and weekday, year and `%j`) gives the printed date |
| `StreamFields.WeekNumberRebuilds` | Include/date/date.h:5750-5919 | the printed `%U` and `%W` numbers lie in range and with year and weekday give the day |
| `StreamConflicts.WeekNumberCounts` | Include/date/date.h:5750-5919 | the printed numbers count the Sundays and the Mondays of the year up to the date |
| `StreamConflicts.ResolvedIffAgrees` | Include/date/date.h:7724-7840 | for all fields and dates: the fields are read as the date exactly if they are enough to name one and agree with it; with a weekday, ISO year and week are looked at only together, or if there is no other week number |
| `StreamConflicts.NotRefused` | Include/date/date.h:7780-7823 | day 366 of a year that has 365 is read as its first day, and an ISO year beside another week number is not looked at |
| `LeapSeconds.RoundTripIffSpaced` | Include/date/tz.h:1891-1953 | system time survives the trip to UTC and back exactly for lists whose entry `k+1` comes at least `k` seconds after entry `k` |
| `LeapSeconds.LeapFlagIffSpaced` | Include/date/tz.h:1905-1926 | `is_leap_second` is true exactly on the inserted seconds, for lists with one second more of distance and no others |
| `LeapSeconds.MonotoneIffSpaced` | Include/date/tz.h:1945-1953 | the conversion to system time keeps the order of times, through leap seconds too, exactly for those lists; for times in whole seconds it does for all |
| `LeapSeconds.UtcRoundTripIffSpaced` | Include/date/tz.h:1945-1953 | UTC survives the trip to system time and back outside leap seconds, and not in them, again exactly for those lists |
| `PosixZone.RuleBounds` | Include/date/ptz.h:145-168 | a rule's transition lies in its year, or up to 25 hours after |
| `PosixZone.RuleIsDate` | Include/date/ptz.h:145-168 | every rule names a date of each year (day `n` without 29 February, the `n`-th or the last such weekday of the month, or the date `n` days after 1 January) and means its time on that date |
| `PosixZone.NorthernSoundIff` | Include/date/ptz.h:438-515 | the information found for a second holds that second and is the same all through its interval, for all seconds, exactly when the years' daylight times do not overlap |
| `PosixZone.SouthernSoundIff` | Include/date/ptz.h:438-515 | likewise for southern zones, exactly when each year's transitions lie in that year of UTC |
| `PosixZone.Tiling` | Include/date/ptz.h:438-515 | the intervals of a sound zone follow one another without gap or overlap |
| `PosixZone.ConstantZone` | Include/date/ptz.h:344-369 | a zone without rules has one information, of standard time if that has a name and else of daylight time, which holds exactly the seconds from the first of the years up to the midnight that begins their last day |
| `PosixLocal.ClockMeetsRules` | Include/date/ptz.h:303-341 | where standard and daylight time alternate, a clock of the zone is about to show the rule's time whenever daylight time begins or ends |
| `PosixLocal.InfoInTurn` | Include/date/ptz.h:438-515 | and between its beginning and its end the information is that of daylight time, with the saving in minutes rounded up, otherwise that of standard time, each with its abbreviation |
| `PosixPeriod.LocalTimesDecided` | Include/date/ptz.h:519-625 | in every zone with rules: all local times are nonexistent, unique or ambiguous exactly as no, one or two instants show them, and converted to those, exactly if there is no saving or seven local times of each of 400 years are told right by their transitions |
| `PosixLocal.LocalTimesIffRegular` | Include/date/ptz.h:519-625 | where standard and daylight time alternate and the lookup is right, this is so exactly if no shown time crosses the end of its local year at a transition and no period is shorter than the saving, or there is no saving |
| `PosixLocal.TransitionRecords` | Include/date/ptz.h:519-589 | where the periods alternate, the two records at a gap or an overlap are the information before and after the transition, and a nonexistent time is converted to the transition |
| `PosixPeriod.InstantsDecided` | Include/date/ptz.h:593-636 | in every zone with rules: what the clock shows leads back to every instant exactly if there is no saving or it does for eleven instants of each of 400 years |
| `PosixLocal.RoundTrip` | Include/date/ptz.h:593-636 | in every zone with rules an instant is led back to if the local time it shows is classified as it is shown |
| `PosixLocal.RoundTripIffOverlapsInOwnYear` | Include/date/ptz.h:593-636 | where the periods alternate and last as long as the saving, this is so exactly if no time is shown twice across the end of a local year, or there is no saving |
| `PosixLocal.ConstantZoneReturns` | Include/date/ptz.h:586-636 | in a zone without rules every local time belongs to one instant, which it leads back to |
| `PosixExamples.NewYorkIsRegular` | Include/date/ptz.h:438-515 | the rules of New York meet all these conditions |
| `PosixExamples.SydneyIsRegular` | Include/date/ptz.h:438-515 | and so do those of Sydney, a southern zone |
| `PosixExamples.AssertionFails` | Include/date/ptz.h:513-513 | a southern zone for which the assertion of `get_info` does not hold, in every year |
| `PosixExamples.NorthernFails` | Include/date/ptz.h:438-515 | a northern zone for which `get_info` is wrong at one of two given seconds around the end of every year that is no leap year |
| `PosixExamples.GapMissed` | Include/date/ptz.h:519-589 | a zone with right intervals for which every time of the hour that is skipped is classified as unique, though no instant shows it |
| `PosixExamples.NotLedBack` | Include/date/ptz.h:593-636 | a zone with right intervals for which half an hour of instants is not led back to, in every year |
| `PosixExamples.NewYork2024` | Include/date/ptz.h:438-515 | in New York daylight time lasts in 2024 from 10 March, 07:00 UTC, to 3 November, 06:00 UTC |
| `PosixExamples.NewYorkRead` | Include/date/ptz.h:372-434 | the header's own text is read as New York, its offset, saving and times in seconds, and printed again |
| `PosixExamples.SydneyRead` | Include/date/ptz.h:372-434 | Sydney from its text, with a time of day of its own |
| `PosixExamples.LordHoweRead` | Include/date/ptz.h:372-434 | a text with quoted names, minutes and a daylight offset |
| `PosixExamples.DayRulesRead` | Include/date/ptz.h:372-434 | two of the zones with failures from their texts |
| `PosixExamples.JulianRulesRead` | Include/date/ptz.h:372-434 | and the other two |
| `PosixGrammar.ParsedIffMeant` | Include/date/ptz.h:372-434 | a text of any form is accepted as a zone exactly if its parts mean that zone: names, offset counted west, saving of an hour or by offset, rules at two o'clock or at a time of their own |
| `PosixName.ConstructibleIsZoneOk` | Include/date/ptz.h:372-434 | the zones with rules that can be read have the bounds that the results on lookups ask for |
| `PosixName.NameRoundTrip` | Include/date/ptz.h:651-706 | every zone the constructor can build is read back from its name, with the rules' times of day |
| `PosixName.ParseNameParse` | Include/date/ptz.h:372-434 | on every accepted text, printing and parsing again gives the same zone |
| `PosixName.ConstructibleIffParsed` | Include/date/ptz.h:372-434 | the zones described as constructible are exactly those read from some text |
| `PosixText.FaultInText` | Include/date/ptz.h:729-741 | where a text is refused lies in it or at its end |
| `PosixParser.ScanUnsigned` | Include/date/ptz.h:896-906 | the digit loop gives what the format says, with its errors |
| `PosixParser.ScanUnsignedTime` | Include/date/ptz.h:863-892 | hours, minutes and seconds as far as they are given, within their ranges |
| `PosixParser.ScanSignedTime` | Include/date/ptz.h:842-859 | a time with an optional sign |
| `PosixParser.ScanDate` | Include/date/ptz.h:745-806 | a rule of each of the three kinds with its time of day, or the error at the first fault |
| `PosixParser.ScanName` | Include/date/ptz.h:810-838 | the character loop gives what the format says for plain and quoted names |
| `PosixParser.TimeZone.Construct` | Include/date/ptz.h:372-434 | the fields end up as the parsed zone, or the error is the one at the first fault |
| `PosixParser.TimeZone.TakeSave` | Include/date/ptz.h:388-392 | the saving, from the daylight offset if one is given |
| `PosixParser.TimeZone.TakeRules` | Include/date/ptz.h:393-405 | the two rules, if anything is left |
| `PosixParser.TimeZone.Settle` | Include/date/ptz.h:408-433 | the final checks and defaults of the constructor |
| `IntegerParser.Parse` | Include/cxxopts.hpp:942-1008 | the guarded loop returns the value its parts mean, for all widths, no wrap affecting it |
| `IntegerParser.MeaningIsDenotation` | Include/cxxopts.hpp:787-1008 | a text of any length is accepted exactly when it denotes a value in the range of the type, and that value is returned |
| `IntegerParser.WrittenMeaning` | Include/cxxopts.hpp:942-1008 | every number, with or without a minus, is read from its decimal and its hexadecimal digits, small or capital, if the type holds it, and refused otherwise |
| `IntegerParser.DecimalMeaning` | Include/cxxopts.hpp:942-1008 | what is printed in decimal is read as the number it was printed from |
| `IntegerParser.Ranges` | Include/cxxopts.hpp:872-925 | the smallest and the largest value of each type |
| `Options.SpellingMeaning` | Include/cxxopts.hpp:851-871 | each spelling of an option with a value does what giving the value to the option does |
| `Options.SpellingInvariance` | Include/cxxopts.hpp:2497-2664 | rewriting an option from one spelling to another, wherever an argument is read as an option, leaves the parse result unchanged, errors included |
| `Options.GroupIsOneByOne` | Include/cxxopts.hpp:2542-2585 | a group of flags is processed like the flags one by one, the last taking an argument if it wants one |
| `Options.GroupInvariance` | Include/cxxopts.hpp:2497-2664 | rewriting a group to single flags leaves the parse result unchanged |
| `Options.RunConcat` | Include/cxxopts.hpp:2505-2624 | what a vector does is what its front does, followed by what its rest does unless the front fails |
| `OptionValues.ParseReports` | Include/cxxopts.hpp:2497-2664 | for every line of options in any spelling, flags and operands: each option holds the last text given to it, a list the pieces of all, an integer what its text denotes, a flag what its text says; counts, sequence, defaults and unmatched arguments are as listed; the error is that of the first text that does not fit |
| `OptionValues.ParseRefuses` | Include/cxxopts.hpp:2513-2623 | the error for an unknown name or letter, a missing value, or an argument of no form, behind any such line |
| `OptionValues.ArgumentForms` | Include/cxxopts.hpp:776-778 | the recogniser tells exactly the forms of the pattern |
| `OptionValues.NameCharacters` | Include/cxxopts.hpp:776-778 | the characters of names, by their codes |
| `ServerOptions.SettingsFound` | ServerBA/ServerBA.cpp:28-45 | for every line whose texts fit the server finds the port and the host given last, or 54321 and localhost |
| `OptionParser.OptionParser.ParseOption` | Include/cxxopts.hpp:2373-2385 | the fields after one value |
| `OptionParser.OptionParser.CheckedParseArg` | Include/cxxopts.hpp:2389-2421 | the fields and the cursor after one option, which takes the next argument or not |
| `OptionParser.OptionParser.ParseGroup` | Include/cxxopts.hpp:2542-2585 | the loop over the letters of a group |
| `OptionParser.OptionParser.ParseToken` | Include/cxxopts.hpp:2513-2623 | one round of the token loop |
| `OptionParser.OptionParser.ParseTokens` | Include/cxxopts.hpp:2505-2624 | the token loop ends, its cursor at most at the end of the vector |
| `OptionParser.OptionParser.Parse` | Include/cxxopts.hpp:2497-2664 | the whole result is that of the function `OptionValues.ParseReports` is about |
| `WordWrap.Format` | Include/cxxopts.hpp:2159-2284 | the loop, whose cursor moves backwards, ends and prints the lines a cursor-free description gives |
| `WordWrap.LinesTile` | Include/cxxopts.hpp:2221-2281 | what is printed are lines, each with its line feed and indentation, that follow one another in the description without gap or overlap |
| `WordWrap.LinesFit` | Include/cxxopts.hpp:2221-2281 | none of the printed lines is longer than allowed, broken inside a word that could have moved on, or ended before it has to be |
| `WordWrap.LineSeparated` | Include/cxxopts.hpp:2221-2281 | between two printed lines stand a line feed, unless the line ends in one, and exactly as many blanks as the indentation has |
| `WordWrap.TextKeptUnlessLone` | Include/cxxopts.hpp:2277-2284 | every visible character is printed in order exactly unless the last line would hold a single one |
| `WordWrap.LoneCharacterLost` | Include/cxxopts.hpp:2277-2284 | a description whose last character is not printed |
| `Timestamp.TextOrderIsTimeOrder` | Include/date/date.h:4212-4216 | timestamps of four-digit years at one precision sort as text as they do in time |
| `Timestamp.TextSays` | Include/date/date.h:4212-4216 | the text is year, month, day, hour, minute, second and fraction in fixed widths, and these numbers make the time |
| `Timestamp.TextInjective` | Utilities/Analytics.cpp:106-115 | different times have different texts |
| `Usage.GatherWraps` | Utilities/Analytics.cpp:29-34 | gathering adds to each counter how often its command waits, in 32 bits that wrap, and adds no other keys |
| `Usage.OneEntryPerModule` | Utilities/Analytics.cpp:74-84 | after any history of calls every module has at most one entry |
| `Usage.UsageConserved` | Utilities/Analytics.cpp:23-49 | after any history ending in a gathering, the rows re-parsed from a module's printed usage give every command the number of times it was added to it, exactly if its commands are not empty and free of white space and commas |
| `Usage.RowOfWord` | Utilities/SqlUtils.cpp:137-147 | a word makes a row of what stands before its first comma and the number behind it, or without a comma of itself twice; not of an empty command or the number 0 |
| `Usage.AtoiMeaning` | Utilities/SqlUtils.cpp:142-142 | an optional sign and digits are read, whatever follows; a text that does not begin so is 0 |
| `Usage.PrintedText` | Utilities/Analytics.cpp:36-49 | a printed counter in plain text |
| `Usage.StatementText` | Utilities/SqlUtils.cpp:132-152 | a statement in plain text |
| `Usage.TrimmedBulkIsJoin` | Utilities/SqlUtils.cpp:132-152 | the trimmed statement is its head and the rows joined by commas |
| `Usage.TrimRight` | Utilities/SqlUtils.cpp:59-67 | what is cut off is the longest end made of the given characters |
| `Analytics.ModuleAnalytics.AddCommands` | Utilities/Analytics.cpp:23-27 | the commands are appended, the counters kept |
| `Analytics.ModuleAnalytics.GatherUsage` | Utilities/Analytics.cpp:29-34 | the counters after the loop, no command left waiting |
| `Analytics.ModuleAnalytics.ToString` | Utilities/Analytics.cpp:36-49 | the printed text, for the order the hash map is visited in |
| `Analytics.Analytics.Find` | Utilities/Analytics.cpp:63-72 | the first entry of the module, or the end |
| `Analytics.Analytics.AddCommands` | Utilities/Analytics.cpp:74-84 | the entry of the module, added if missing, gets the commands; the others are kept |
| `Analytics.Analytics.GatherUsage` | Utilities/Analytics.cpp:86-92 | every entry is gathered |
| `Database.TableNames` | Utilities/SqlUtils.cpp:11-57 | the table of each of the seven modules is called after it with `Tbl`, and no other name has one |
| `Database.SectionsAppend` | Utilities/SqlUtils.cpp:123-162 | sections only append rows of the new instance, and count an insert exactly when they do |
| `Database.InsertKeepsLinked` | Utilities/SqlUtils.cpp:91-169 | rows keep referring to committed instances and instances to rows; a message is stored whole with a row, or changes nothing |
| `InsertDatabase.Connection.ReadRows` | Utilities/SqlUtils.cpp:132-150 | the word loop collects the rows of the text and the statement that writes them |
| `InsertDatabase.Connection.InsertRows` | Utilities/SqlUtils.cpp:154-160 | what is read off the text of the statement is inserted, if it can be read and is not refused |
| `InsertDatabase.Connection.InsertSection` | Utilities/SqlUtils.cpp:123-162 | one section adds, in the table called after its module, the rows read off its statement; or nothing when it has none, no table or a refused statement |
| `InsertDatabase.Connection.Insert` | Utilities/SqlUtils.cpp:69-170 | the committed tables after a message, no change left uncommitted |
| `SqlText.StatementRead` | Utilities/SqlUtils.cpp:132-157 | the statement written for rows is read as these rows exactly if no command has a quote, or a backslash but before a percent sign or an underscore; whatever it is read as has its table and instance, and loses marks unless a literal ran over the end of its command |
| `SqlText.EscapeRead` | Utilities/SqlUtils.cpp:148-148 | what the server makes of a backslash in a command |
| `SqlText.QuoteLost` | Utilities/SqlUtils.cpp:148-148 | a command with a doubled quote is stored as another one |
| `Conservation.WrittenConserved` | Utilities/SqlUtils.cpp:132-160 | what is read off the statement for a module's printed usage counts every command as often as it was added, exactly if the commands are clean and plain: not empty, free of white space, commas and quotes, and with no backslash but before a percent sign or an underscore |
| `Pipeline.ModuleNames` | Utilities/Analytics.h:14-23 | the module ids that are listed, with their names |
| `Pipeline.CommandsConserved` | Utilities/Analytics.cpp:51-61 | every command of a listed module is stored in the table called after it exactly as often as it was added, exactly if the module's commands are so; where the server refuses the instance or the module's rows, none is; stored rows come with the header of the message |
| `Server.ThreadsKept` | ServerBA/ProducerConsumer.cpp:11-49 | every step keeps mutual exclusion, and a waiting consumer with a non-empty queue is about to be notified unless consuming was stopped |
| `Server.FramingKept` | ServerBA/ServerConnection.cpp:36-64 | every step keeps: each framed connection gave one message, the concatenation of its reads |
| `Server.FlowKept` | ServerBA/ProducerConsumer.cpp:11-49 | every step keeps: what was produced is what left the queue, what is in it and what is on its way |
| `Server.DataKept` | Utilities/SqlUtils.cpp:91-169 | every step, also in the middle of a transaction, keeps the tables tied to the messages gone through |
| `Server.CommittedIsPrefix` | ServerBA/ProducerConsumer.cpp:11-49 | in every run the committed database is `InsertDatabase` folded over a prefix of the produced messages, in order, and its rows and instances belong together |
| `Server.MessagesAreWhole` | ServerBA/ServerConnection.cpp:36-64 | in every run each message is what one connection delivered in full reads and a final short one, one message to a connection |
| `Server.ComesToRest` | ServerBA/ProducerConsumer.cpp:11-49 | with no further reads and wake-ups the two threads come to rest, however their steps interleave |
| `Server.RestIsDrained` | ServerBA/ProducerConsumer.cpp:18-49 | at rest every produced message has gone through the database, unless consuming was stopped |
| `Server.StoppedForGood` | ServerBA/ProducerConsumer.cpp:33-54 | once stopped, exactly the messages still go through that are queued when the consumer is inside its inner loop, and outside of it none: it stores nothing more and never comes in again |
| `Server.StoppedAtRest` | ServerBA/ProducerConsumer.cpp:33-54 | a stopped consumer that has come to rest has taken exactly these |
| `ServerObjects.FeedIsConcat` | ServerBA/ServerConnection.cpp:36-64 | the reads up to the first short one are the message |
| `ServerObjects.WholeIffShortLast` | ServerBA/ServerConnection.cpp:36-64 | a text arrives whole exactly when all its reads but the last are full and the last is short |
| `ServerObjects.FramedIffNotMultiple` | ServerBA/ServerConnection.cpp:42-55 | under full reads a text becomes a message exactly when its length is not a multiple of 100 |
| `ServerObjects.FramedInRun` | ServerBA/ServerConnection.cpp:42-55 | likewise for a connection in a run of the server |
| `ServerObjects.ProducerConsumer.Drain` | ServerBA/ProducerConsumer.cpp:33-47 | the inner loop empties the queue into the database, message by message in order |
| `ServerObjects.ServerConnection.HandleRead` | ServerBA/ServerConnection.cpp:36-64 | the bytes read are appended; a short read hands the text on, an error does nothing |
| `EndToEnd.CommandsReachTables` | Utilities/SqlUtils.cpp:69-170 | in every run of the server, for every client's message that went through it, the committed tables hold the commands of a module, in the table called after it and under an instance with the client's header, as often as they were added, exactly if they are clean and plain |
| `EndToEnd.AllCommandsReachTables` | ServerBA/ProducerConsumer.cpp:18-49 | once a server that was not stopped has come to rest, this holds of every message produced |
| `EndToEnd.ClientTextReachesTables` | ServerBA/ServerConnection.cpp:36-64 | and of a client's text delivered in full reads, exactly if its length is not a multiple of 100: otherwise its connection has produced nothing |

## Left out

- Years are unbounded integers in `Gregorian`, `Julian`, `Islamic` and `IsoWeek`: the wrap of `year` to 16 bits and of `days` to 32 bits is kept only in `SolarHijri` and in `weekday_from_days`.
- `solar_hijri.h` divides years and days by the era length in `double` and truncates; the model divides integers, which is the same for 32-bit operands.
- The text of stream directives, two-digit years (`%g`, `%y`, `%C`), `%I`/`%p` and locales: `StreamFields` works on the numbers.
- StreamFields.PrintedFieldsRebuildDate: for the dates of which no year met on the way leaves the range of `year`; these are all but the first days of the year -32767 if they belong to the ISO year before it, and the last three of the year 32767.
- `utc_clock` over an unsorted list, and the clock casts built on it; the list itself comes from `tz.cpp`, which is not part of this model.
- Time zones are looked up in whole seconds: `get_info` floors finer times first.
- PosixLocal.LocalTimesIffRegular: zones whose periods do not alternate in one order every year, or are empty, and southern zones whose lookup is wrong; the decision in `PosixPeriod` is exact for these too.
- PosixLocal.RoundTripIffOverlapsInOwnYear: likewise, and zones with a period shorter than the saving.
- PosixLocal.TransitionRecords: in zones whose periods do not alternate the two records need not be what the lookup tells.
- Characters for which `isalpha` or `isdigit` depend on the locale, or are given negative values.
- OptionValues.ParseReports: a group of several letters, which `Options.GroupInvariance` reduces to single ones.
- Options: hash collisions of keys, comma-joined vectors, positional arguments, `argv` of a program without a name, and value types other than integers, flags, text and lists of text; each regular expression is a recogniser.
- Options.SpellingInvariance: nothing is claimed for a text after `--`, or one that the option before it takes as its value; there it is no option.
- Word wrap: the default-value suffix and tab expansion come before the modelled loop, as part of the description.
- IntegerParser.Parse: the negation of the minimum value is taken in two's complement.
- Usage.UsageConserved: histories of fewer than 2^31 commands, so that no counter wraps and no count overflows an `int`; the order in which the hash map is visited is an argument.
- Pipeline.CommandsConserved: the server is taken to read string literals as section 9.1.1, "String Literals", of the MySQL 8.0 Reference Manual has it, with backslash escapes enabled, and the rest of a statement only as the program writes it. A statement that is not so written, because a quote ended a command early, counts as one the server refused; SQL expressions and comments in its place are not modelled, nor is the exception the program would be left by.
- EndToEnd.CommandsReachTables: likewise.
- `Analytics::ToString` of all modules and the printing of acknowledgements and of progress messages.
- JSON writing and parsing: a payload is a value, and parsing is an arbitrary function in the server's runs.
- The database server: each statement succeeds or fails as a reply says; exceptions thrown inside a transaction, lost connections and the limit of ids are not modelled.
- Sockets: a read delivers any chunk up to the buffer's size, or fails. The acceptor, time-outs and the acknowledgement to the client are not modelled.
- The unsynchronised write to `m_done` is one step, seen by the other thread the next time it looks.
- Client programs, the dashboard and the query tool.
