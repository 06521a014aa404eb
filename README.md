# Steam Market watcher — a verified model of its core

The watcher polls the Steam Community Market for a fixed list of Counter-Strike skins.
For each skin it does four things:

- It averages the recent trade history, weighting each price by its volume.
  The history rows are parsed leniently.
- It compares the current lowest listing price against that average.
- If the price is at least 10% below the average, it sends a Discord alert.
- It keeps a 30-minute cooldown per skin, so the same skin is not alerted on
  again within that time.

This project models the decision logic of that loop in Dafny, with these
inputs and outputs:

- The market's answers are given as values: the history rows, the lowest
  price, and whether the notifier delivered.
- The clock reading is a parameter.

The model has eight modules:

| module | file | models |
|---|---|---|
| `Wrappers` | `wrappers.dfy` | `Option`, the model of `None`, and `dict.get` |
| `Numerals` | `numerals.dfy` | the parts of Python's `str`, `int()` and `float()` that the core uses, over decimal text |
| `Calendar` | `calendar.dfy` | the proleptic Gregorian calendar of `datetime`; a UTC instant is a count of microseconds since 0001-01-01 00:00 |
| `Fields` | `fields.dfy` | one field of a raw history row: text, an integer or null; floats and booleans are left out |
| `SteamTimestamp` | `steam_timestamp.dfy` | `_parse_steam_timestamp`: marker removal, the two formats tried in order, and rendering as the partner proof |
| `Analyzer` | `analyzer.dfy` | the rest of `analyzer.py`: the row helpers, `_weighted_average`, the imperative `calculate_weighted_average_last_24h`, and the discount rule |
| `SteamClient` | `steam_client.dfy` | `_parse_price`, plus `quote(name, safe="")` and `build_listing_url`; UTF-8 encoding and percent-encoding are both proved to round-trip |
| `Watcher` | `watcher.dfy` | `should_notify` and the per-skin body of `run`; the `last_notified` dictionary is a map field of class `WatchLoop`, updated in place by `CheckSkin` and, over a whole pass, by `RunPass` |

Each imperative method is proved against a specification function:

- `CalculateWeightedAverageLast24h` against `ReferencePrice`;
- `ParseSteamTimestamp` against `TimestampOf`;
- `CheckSkin` against `StepDecision` and `Step`;
- `RunPass` against `Pass` and `Decisions`.

The source's promises are lemmas about those functions.

## Model

| member | source | states |
|---|---|---|
| Wrappers.Get | main.py:91 | `last_notified.get(skin)` is present exactly when the key is, and then holds the stored value |
| Numerals.ReplaceChar | analyzer.py:84 | `replace` keeps the length and changes exactly the occurrences of the old character |
| Numerals.CountReplaceChar | steam_client.py:109-110 | after replacing `,` by `.`, the new dot count is the old dot count plus the old comma count; the other characters keep their counts |
| Numerals.RemoveChar | steam_client.py:107-108 | `replace(",", "")` leaves no comma, shortens by the number of commas, and keeps every other character's count |
| Numerals.RemoveCharAppend | steam_client.py:108 | removing a character distributes over concatenation |
| Numerals.FormatNat | analyzer.py:84 | `str` of a natural number is a digit string without a leading zero whose value is the number |
| Numerals.FormatInt | analyzer.py:84 | `str` of an integer is non-empty; `ParseIntFormatInt` and `ParseFloatFormatInt` prove that `int` and `float` read it back as the integer |
| Numerals.ParseInt | analyzer.py:91 | `int()` on an optional sign then digits; `ParseIntFormatInt` proves it inverts `str` |
| Numerals.ParseFloat | steam_client.py:112-116 | `float()` on an optional sign then digits with at most one dot; `ParseFloatFormatInt`, `ParseUnsignedDecimal` and `ParseFloatRejectsTwoDots` give its values and its failures |
| Numerals.ParseIntFormatInt | analyzer.py:91 | `int(str(n)) == n` for every integer |
| Numerals.ParseFloatFormatInt | analyzer.py:84 | `float(str(n)) == n` for every integer |
| Numerals.ParseUnsigned | steam_client.py:112-113 | unsigned `float` succeeds exactly on the decimal shape and never yields a negative number |
| Numerals.ParseUnsignedSucceedsIff | steam_client.py:112-116 | on text of digits and dots, `float` succeeds iff there is at most one dot and at least one digit |
| Numerals.ParseFloatRejectsTwoDots | analyzer.py:82-86 | text with two or more dots never parses as a float |
| Numerals.ParseUnsignedDigits | analyzer.py:84 | an all-digit text parses to its integer value |
| Numerals.ParseUnsignedDecimal | steam_client.py:112-113 | `whole + "." + frac` parses to the value of that decimal, with either side allowed to be empty but not both (`float(".5")` is 0.5) |
| Calendar.Minutes | main.py:54 | `timedelta(minutes=n)` in microseconds; `Watcher.CooldownExample` shows the 30-minute cooldown with it |
| Calendar.Hours | analyzer.py:19 | `timedelta(hours=n)` in microseconds; the 24-hour window `Analyzer.Window` is `Hours(24)`, and `Analyzer.WindowBoundary` shows where it starts |
| Calendar.IsLeapYear | analyzer.py:75 | the Gregorian leap-year rule; `DaysBeforeYearStep` shows the day count follows it, and `SteamTimestamp.LeapDayParses` and `SteamTimestamp.CommonYearLeapDayRejected` show `strptime` applying it |
| Calendar.DaysInMonth | analyzer.py:75 | every month of the Gregorian calendar has 28 to 31 days |
| Calendar.ValidDateTime | analyzer.py:75 | the date check of `strptime`: years 1 to 9999, a real day of a real month, an hour and a minute in range; `SteamTimestamp.ParseWith` yields only such dates |
| Calendar.DaysBeforeYearStep | analyzer.py:75-76 | consecutive years are exactly one year length (365 or 366 days) apart on the day count |
| Calendar.DayOrdinalOrder | analyzer.py:39 | an earlier calendar day has a smaller day ordinal |
| Calendar.ToInstantOrder | analyzer.py:39 | comparing instants agrees with chronological order of readings, both ways, and equal instants mean equal readings |
| Calendar.BeforeMeansEarlier | analyzer.py:39 | a chronologically earlier reading is a strictly smaller instant |
| Calendar.ToInstant | analyzer.py:76 | `parsed.replace(tzinfo=timezone.utc)` as a point on the UTC timeline; `ToInstantOrder` and `BeforeMeansEarlier` show it keeps chronological order and tells readings apart |
| Fields.Str | analyzer.py:84 | `str` of a text field is the text itself |
| SteamTimestamp.StripMarker | analyzer.py:71 | `replace(" +0", "")` never lengthens the text; `StripMarkerKeepsPlainText`, `StripMarkerAfterPlain` and `StripMarkerSinglePass` give its result |
| SteamTimestamp.StripMarkerStep | analyzer.py:71 | where the second character is not `+`, no marker starts at the first, so the first character is kept |
| SteamTimestamp.StripMarkerAfterPlain | analyzer.py:71 | a marker after `+`-free text is removed, the text before it is kept, and the rest is processed in turn |
| SteamTimestamp.StripMarkerKeepsPlainText | analyzer.py:71 | text without `+` is untouched by `replace(" +0", "")` |
| SteamTimestamp.StripMarkerRemovesTrailing | analyzer.py:71 | a trailing ` +0` marker is removed and nothing else changes |
| SteamTimestamp.StripMarkerSinglePass | analyzer.py:71 | removal is one left-to-right pass: `"  +0+0"` becomes `" +0"`, not `""` |
| SteamTimestamp.FindMonth | analyzer.py:73-75 | the search finds the month whose `%b` abbreviation the text is, or proves that none is |
| SteamTimestamp.MonthNumber | analyzer.py:73-75 | `%b` succeeds iff the text is one of the twelve abbreviations and yields that month's number |
| SteamTimestamp.MonthNumberOfAbbreviation | analyzer.py:73-75 | each abbreviation reads back as its own month |
| SteamTimestamp.DigitsField | analyzer.py:75 | a numeric field succeeds exactly on non-empty digit text, and its value is that of the digits |
| SteamTimestamp.ParseWith | analyzer.py:75 | `strptime` with one format yields only valid dates of the format's width; the hour-only format gives minute 0 |
| SteamTimestamp.FirstMatch | analyzer.py:73-79 | the format loop returns `None` iff no format matches, and a valid date otherwise |
| SteamTimestamp.FirstMatchAt | analyzer.py:73-78 | the first matching format wins |
| SteamTimestamp.TimestampOf | analyzer.py:67-79 | `_parse_steam_timestamp` as an instant; `NonTextIsUnknown` and `MarketTimestampRoundTrip` give its result on non-text and on every valid market timestamp |
| SteamTimestamp.ParseSteamTimestamp | analyzer.py:67-79 | the loop with early return computes `TimestampOf` |
| SteamTimestamp.Padded | analyzer.py:75 | zero-padding gives digits of the width whose value is the number (the inverse used by the round trips) |
| SteamTimestamp.RenderLayout | analyzer.py:73-75 | a rendered timestamp has the layout of its format: the month abbreviation, spaces, padded fields and the colon in place |
| SteamTimestamp.ParseRender | analyzer.py:75 | parsing a rendered date with its format gives the date back |
| SteamTimestamp.RenderHasNoPlus | analyzer.py:71 | rendered timestamps contain no `+`, so marker removal cannot touch them |
| SteamTimestamp.MarketTimestampRoundTrip | analyzer.py:67-79 | every valid market timestamp with its ` +0` marker parses to the UTC instant of its date |
| SteamTimestamp.HourOnlyExample | analyzer.py:71-76 | `"May 18 2026 01: +0"` parses to 2026-05-18 01:00 UTC |
| SteamTimestamp.LeapDayParses | analyzer.py:75 | `"Feb 29 2024 01:"` parses: 2024 is a leap year |
| SteamTimestamp.CommonYearLeapDayRejected | analyzer.py:75 | `"Feb 29 2026 01:"` fails the date check, so the format does not match |
| SteamTimestamp.NonTextIsUnknown | analyzer.py:68-69 | a timestamp that is not text is unknown |
| Analyzer.SafeFloat | analyzer.py:82-86 | `_safe_float`; `SafeFloatOfWhole`, `SafeFloatOfNull`, `SafeFloatRejectsMixedSeparators`, `DecimalCommaExample` and `LeadingDotExample` give its result |
| Analyzer.SafeInt | analyzer.py:89-93 | `int` of an integer field is that integer and `int(None)` fails |
| Analyzer.NormalizeRow | analyzer.py:25-35 | one row through the loop body; `SkippedRowAddsNothing` and `ZeroVolumeExample` state what a skipped row does |
| Analyzer.Decode | analyzer.py:24-35 | one decoded entry per row |
| Analyzer.Points | analyzer.py:37 | at most one point per row |
| Analyzer.Recent | analyzer.py:39-40 | at most one windowed point per row |
| Analyzer.InWindow | analyzer.py:39 | `timestamp >= threshold`: a point counts when its time is known and not before `now` minus 24 hours, so a point exactly at `now` minus 24 hours counts |
| Analyzer.WindowBoundary | analyzer.py:19-40 | a point observed exactly 24 hours before `now` is recent; one observed a microsecond earlier is not |
| Analyzer.TotalVolume | analyzer.py:98 | the total volume of a non-empty list of valid points is positive, so the division is defined |
| Analyzer.WeightedSum | analyzer.py:97 | `sum(price * volume for ...)`; `WeightedSumBetween` bounds it by the smallest and largest price times the total volume |
| Analyzer.MinPrice | analyzer.py:96-99 | the smallest price of the points, attained by one of them |
| Analyzer.MaxPrice | analyzer.py:96-99 | the largest price of the points, attained by one of them |
| Analyzer.WeightedAverage | analyzer.py:96-99 | `_weighted_average`; bounded by `WeightedAverageWithinPrices` and exact for one price by `WeightedAverageOfOnePrice` |
| Analyzer.WeightedSumBetween | analyzer.py:97-98 | Σ price·volume lies between lo·Σvolume and hi·Σvolume when every price lies in [lo, hi] |
| Analyzer.WeightedAverageWithinPrices | analyzer.py:96-99 | `_weighted_average` lies between the smallest and the largest price |
| Analyzer.WeightedAverageOfOnePrice | analyzer.py:96-99 | points that all have one price average to that price |
| Analyzer.DecodeStep | analyzer.py:24 | decoding one more row appends its decoded entry |
| Analyzer.PointsStep | analyzer.py:37-40 | one more row appends its point to `all_points` when valid, and to `last_24h_points` when also inside the window |
| Analyzer.ReferenceOf | analyzer.py:42-48 | the averaging policy; `ReferencePolicy` and `ReferenceWithinValidPrices` state which points it averages and its bounds |
| Analyzer.ReferencePrice | analyzer.py:9-48 | `calculate_weighted_average_last_24h` at `now`; `CalculateWeightedAverageLast24h` computes it and `EmptyHistoryHasNoReference` gives the empty case |
| Analyzer.CalculateWeightedAverageLast24h | analyzer.py:9-48 | the loop over rows, with its two lists and the early return on an empty history, computes `ReferencePrice` |
| Analyzer.DecodeAppend | analyzer.py:24-35 | rows are decoded independently of each other |
| Analyzer.PointsAppend | analyzer.py:37-40 | both point lists of a concatenation are the concatenated lists |
| Analyzer.RecentWithinPoints | analyzer.py:37-40 | every windowed point is also in `all_points` |
| Analyzer.ReferencePolicy | analyzer.py:42-48 | the windowed average when the window has points; else the average of all valid points; `None` exactly when no row is valid |
| Analyzer.EmptyHistoryHasNoReference | analyzer.py:15-16 | an empty history gives `None` |
| Analyzer.SkippedRowAddsNothing | analyzer.py:25-35 | a skipped row changes nothing in the result |
| Analyzer.OutOfWindowAddsNothing | analyzer.py:39-43 | when the window has points, adding a row outside it leaves the result unchanged |
| Analyzer.InsertedRowDecodes | analyzer.py:24-35 | a row inserted anywhere in the history contributes only its own decoded entry |
| Analyzer.PricesOfSublist | analyzer.py:39-46 | the windowed points' price range lies within the price range of all valid points |
| Analyzer.ReferenceWithinValidPrices | analyzer.py:42-48 | whenever there is a result, there is a valid point, and the result lies between the smallest and largest valid price |
| Analyzer.NoCommaInFormattedInt | analyzer.py:84 | `str` of an integer has no comma for the replacement to touch |
| Analyzer.SafeFloatOfWhole | analyzer.py:84 | an integer field becomes that number as a float |
| Analyzer.SafeFloatOfNull | analyzer.py:84 | a null field becomes `"None"`, which does not parse |
| Analyzer.SafeFloatRejectsMixedSeparators | analyzer.py:84 | text holding both `,` and `.` turns into two dots and fails, e.g. `"1,234.5"` |
| Analyzer.DecimalCommaExample | analyzer.py:84 | `"1,23"` becomes 1.23 |
| Analyzer.LeadingDotExample | analyzer.py:84 | `".5"` becomes 0.5: no whole part is needed |
| Analyzer.ZeroVolumeExample | analyzer.py:34-35 | a row with volume `"0"` is skipped |
| Analyzer.DiscountPercentage | analyzer.py:60-64 | without a positive average the discount is 0 |
| Analyzer.IsDiscountSignificant | analyzer.py:51-57 | never without a positive average; otherwise exactly when `discount_percentage` reaches the threshold |
| Analyzer.NoDiscountAtAverage | analyzer.py:60-64 | paying the average is a 0% discount |
| Analyzer.DiscountDeterminesPrice | analyzer.py:64 | average·(1 − discount/100) is the current price |
| Analyzer.DiscountStrictlyDecreasing | analyzer.py:60-64 | for a fixed positive average, a lower price is a strictly larger discount |
| Analyzer.SignificantIffAtMostTargetPrice | analyzer.py:51-57 | significant iff the price is at most average·(1 − threshold/100) |
| Analyzer.DiscountExample | analyzer.py:60-64 | 14.0 against 17.5 is a 20% discount, significant at 10% |
| SteamClient.TrimStart | steam_client.py:100 | `strip` drops only leading whitespace and stops at the first non-space |
| SteamClient.TrimEnd | steam_client.py:100 | `strip` drops only trailing whitespace and stops at the last non-space |
| SteamClient.Strip | steam_client.py:100 | `strip` never lengthens, leaves text that neither starts nor ends with whitespace, and is empty exactly when the text is all whitespace |
| SteamClient.IsSpace | steam_client.py:100 | the characters `str.isspace()` accepts, written out as code points; these are what `strip` removes |
| SteamClient.KeepPriceChars | steam_client.py:101-102 | the filter keeps only digits, `,` and `.` |
| SteamClient.KeepCounts | steam_client.py:101-102 | the filter keeps every digit, comma and dot, each as many times as it occurs |
| SteamClient.KeepDigits | steam_client.py:101-102 | the filter keeps every digit as many times as it occurs |
| SteamClient.KeepAppend | steam_client.py:101-102 | the filter works character by character |
| SteamClient.KeepClean | steam_client.py:101-102 | already-clean text passes the filter unchanged |
| SteamClient.StripIsInvisible | steam_client.py:100-102 | stripping before filtering changes nothing, since whitespace is dropped anyway |
| SteamClient.ResolveSeparators | steam_client.py:107-110 | the separator rule leaves no comma, keeps non-empty text non-empty, and leaves only digits and dots |
| SteamClient.ResolveCounts | steam_client.py:107-110 | with a dot present, the dots are kept; without one, each comma becomes a dot; the digits are kept |
| SteamClient.ParsePrice | steam_client.py:92-116 | a parsed price is never negative |
| SteamClient.ParseCleaned | steam_client.py:104-116 | empty cleaned text is `None`; a parsed price is never negative; `ParseCleanedSucceedsIff` gives exactly when it succeeds |
| SteamClient.ParsePriceOfText | steam_client.py:97-105 | the result depends only on the filtered text |
| SteamClient.ParseCleanedSucceedsIff | steam_client.py:104-116 | after filtering, parsing succeeds iff there is a digit and at most one dot once separators are resolved |
| SteamClient.ParsePriceSucceedsIff | steam_client.py:92-116 | success iff the raw text has a digit, at most one `.`, and, without a `.`, at most one `,` |
| SteamClient.OnlyPriceCharsMatter | steam_client.py:101-102 | currency signs, letters and spaces do not affect the result |
| SteamClient.CleanDecimal | steam_client.py:112-113 | a plain decimal parses to its value, also without a whole part or without a fraction |
| SteamClient.DropLeading | steam_client.py:101-102 | a leading currency sign is ignored |
| SteamClient.DropTrailing | steam_client.py:101-102 | a trailing currency sign is ignored |
| SteamClient.DecimalComma | steam_client.py:109-110 | `whole,frac` parses as `whole.frac`, also when one side is empty |
| SteamClient.ThousandsDecimal | steam_client.py:107-108 | `head,rest.frac` parses as `headrest.frac`, also when some of the three parts are empty (`",5.5"` is 5.5) |
| SteamClient.RemoveOneComma | steam_client.py:108 | removing the only comma joins the two sides |
| SteamClient.TwoDigitFraction | steam_client.py:112-113 | a two-digit fraction is hundredths |
| SteamClient.CentsValue | steam_client.py:112-113 | `.99` is the decimal 0.99 |
| SteamClient.SignThenDecimal | steam_client.py:95 | `"$1.23"`-shaped prices parse to the decimal |
| SteamClient.SignThenComma | steam_client.py:95 | `"₺45,99"`-shaped prices parse to the decimal comma value |
| SteamClient.CommaThenSign | steam_client.py:95 | `"1,23€"`-shaped prices parse to the decimal comma value |
| SteamClient.TwoCommas | steam_client.py:109-116 | two commas without a dot become two dots and fail |
| SteamClient.DollarExample | steam_client.py:95 | `"$1.23"` gives 1.23 |
| SteamClient.CentsExample | steam_client.py:95-113 | `"$.99"` gives 0.99 |
| SteamClient.EuroExample | steam_client.py:95 | `"1,23€"` gives 1.23 |
| SteamClient.LiraExample | steam_client.py:95 | `"₺45,99"` gives 45.99 |
| SteamClient.ThousandsExample | steam_client.py:107-108 | `"1,234.56"` gives 1234.56 |
| SteamClient.TwoCommasExample | steam_client.py:109-116 | `"1,2,3"` gives `None` |
| SteamClient.NoDigitsExample | steam_client.py:104-105 | `"$"` gives `None` |
| SteamClient.ThousandsSeparatorsIgnored | steam_client.py:107-108 | with a dot present, deleting every comma beforehand changes nothing |
| SteamClient.DecimalCommaIsDot | steam_client.py:109-110 | without a dot, writing a dot for every comma beforehand changes nothing |
| SteamClient.KeepRemoveChar | steam_client.py:101-108 | filtering and comma removal commute |
| SteamClient.KeepReplaceChar | steam_client.py:101-110 | filtering and comma replacement commute |
| SteamClient.RemoveAbsentChar | steam_client.py:108 | removing an absent character changes nothing |
| SteamClient.Utf8EncodeChar | steam_client.py:88 | each character is 1 to 4 bytes, a single byte exactly for ASCII, which is then its own code |
| SteamClient.Utf8Encode | steam_client.py:88 | the `.encode("utf-8")` inside `quote`: at least one byte per character; `Utf8RoundTrip` shows it loses nothing |
| SteamClient.Utf8CharRoundTrip | steam_client.py:88 | a character's bytes announce their own length and carry its code point |
| SteamClient.Utf8RoundTrip | steam_client.py:88 | decoding the UTF-8 bytes of a name gives the name back |
| SteamClient.HexDigit | steam_client.py:88 | hexadecimal digits are themselves unreserved characters |
| SteamClient.HexValue | steam_client.py:88 | a hexadecimal digit has a value below 16 |
| SteamClient.QuoteByte | steam_client.py:88 | a quoted byte is made only of unreserved characters and `%` |
| SteamClient.QuoteBytes | steam_client.py:88 | quoted text is made only of unreserved characters and `%` |
| SteamClient.Quote | steam_client.py:88 | `quote(name, safe="")`; `QuoteBytes`, `UnquoteQuoteBytes` and `QuoteKeepsUnreserved` give its alphabet, its inverse and its fixed points |
| SteamClient.UnquoteQuoteBytes | steam_client.py:88 | percent-decoding the quoted bytes gives them back |
| SteamClient.QuoteKeepsUnreserved | steam_client.py:88 | names made of letters, digits and `_.-~` are left as they are |
| SteamClient.QuoteAscii | steam_client.py:88 | a one-character ASCII name is quoted as its single byte |
| SteamClient.QuoteExamples | steam_client.py:88 | a space, the vertical bar and `/` become `%20`, `%7C` and `%2F` |
| SteamClient.TrademarkBytes | steam_client.py:88 | `™` (U+2122) is the three UTF-8 bytes E2 84 A2 |
| SteamClient.QuoteTrademark | steam_client.py:88 | `™` becomes `%E2%84%A2` |
| SteamClient.ListingUrlShape | steam_client.py:86-89 | the URL is the listings endpoint, `/`, then one path segment with no `/`, `?`, `#` or space, which decodes to the name's bytes |
| SteamClient.ListingUrlInjective | steam_client.py:86-89 | different names get different URLs |
| SteamClient.BuildListingUrl | steam_client.py:86-89 | `build_listing_url`; its shape is `ListingUrlShape` and its injectivity `ListingUrlInjective` |
| Watcher.ShouldNotify | main.py:49-51 | a skin never alerted on may always be alerted on |
| Watcher.CooldownExample | main.py:53-54 | with the 30-minute cooldown: 29 minutes after the last alert is too early, 30 and 31 minutes are not |
| Watcher.ShouldNotifyLater | main.py:53-54 | once the cooldown has passed, it stays passed |
| Watcher.SilencedRightAfterAlert | main.py:54 | with a positive cooldown, a skin stamped at `now` cannot be alerted on at `now` |
| Watcher.Decide | main.py:80-101 | a missing average or lowest price skips the skin; a dispatch happens iff the discount is significant at 10% and `should_notify` holds; its alert carries the prices, the listing URL and `discount_percentage` |
| Watcher.Stamp | main.py:100-101 | only the current skin's entry can change, and only to `now` after a delivered alert |
| Watcher.StepDecision | main.py:75-101 | one skin's decision on the current map; `DispatchMeansDeepDiscount` and `MissingDataLeavesMap` give its dispatches and its skips |
| Watcher.Step | main.py:100-101 | the map after one skin; `StepChanges`, `UndeliveredLeavesMap` and `NoRepeatAtSameInstant` state how it may change |
| Watcher.Pass | main.py:74-110 | the map after a pass; `PassKeepsUnwatched` and `PassStampsOnlyDeliveries` state which entries it may change and to what |
| Watcher.Decisions | main.py:74-110 | one decision per skin of the pass |
| Watcher.WatchLoop.constructor | main.py:68 | the cooldown map starts empty |
| Watcher.WatchLoop.CheckSkin | main.py:75-110 | one loop body: its decision is `StepDecision` on the current map and the new map is `Step` of the old one |
| Watcher.WatchLoop.RunPass | main.py:74-110 | one pass over `SKINS_TO_WATCH` leaves the map `Pass` computes and returns the decision of each step |
| Watcher.PassPrefix | main.py:74 | one more skin extends the pass by one step |
| Watcher.DecisionsFront | main.py:74 | dropping the last skin of a pass does not change the decisions of the earlier ones |
| Watcher.DispatchMeansDeepDiscount | main.py:89-98 | an alert goes out only for a price at most 90% of a positive average, and it reports a discount of at least 10% |
| Watcher.MissingDataLeavesMap | main.py:80-87 | without an average or a lowest price there is no dispatch and the map is unchanged |
| Watcher.StepChanges | main.py:100-101 | a step leaves the map as it was or sets the current skin to `now`, the latter only after a delivered alert |
| Watcher.UndeliveredLeavesMap | main.py:100-101 | a failed delivery leaves the map unchanged |
| Watcher.NoRepeatAtSameInstant | main.py:91-101 | after a delivered alert, the same skin cannot be alerted on again at the same instant, whatever the market reports |
| Watcher.PassKeepsUnwatched | main.py:74-101 | skins outside the pass keep their entries |
| Watcher.PassStampsOnlyDeliveries | main.py:74-101 | every entry after a pass was there before, or is the time of a step that dispatched an alert for that skin and had it delivered |

## Left out

- HTTP: the session, its headers, `get_price_history` and `get_lowest_price`, and `DiscordNotifier.send_price_alert`. These are network I/O. Their results enter the model as the fields of `Watcher.Observation`: the history rows, the lowest price, and whether the alert was delivered.
- The alert's message text: it is display formatting of floats.
- Process plumbing is not modelled:
  - `load_dotenv`;
  - the webhook check;
  - logging;
  - the random delays and `time.sleep`;
  - the outer `while True` loop;
  - the catch-all `except`, which abandons the rest of a pass after an error.
- Watcher.WatchLoop.CheckSkin: each skin step reads the clock once, as the parameter `now`. The source reads it separately in the average, in `should_notify` and for the stamp. `get_lowest_price` is called only when there is an average; the model supplies the lowest price in every `Observation` and ignores it in that case.
- Prices are exact reals. IEEE rounding, NaN and infinities are not modelled.
- Numerals.ParseFloat: models `float()` only on an optional sign followed by digits with at most one dot. Python also accepts exponents, `inf`, `nan`, underscores and surrounding whitespace; the model rejects them. It also reads non-ASCII decimal digits (`float("１.５")` is 1.5); the model's digits are `0` to `9` only, so `_safe_float` of such text gives a price in Python and `None` in the model. `_parse_price` is not affected: its filter keeps only ASCII digits.
- Numerals.ParseInt: models `int()` only on an optional sign followed by digits. Python also accepts underscores and surrounding whitespace; the model rejects them. It also reads non-ASCII decimal digits (`int("٥")` is 5), which the model rejects. And on Python 3.11 and later (and patched 3.7 to 3.10) `int()` refuses text of more than 4300 digits; the model has no such limit. So for such a volume `_safe_int` gives `None` and the row is skipped, while `SafeInt` and `NormalizeRow` accept it.
- SteamTimestamp.ParseWith: models `strptime` on fixed-width fields only:
  - English three-letter month names with exact case;
  - a two-digit day, hour and minute;
  - a four-digit year.

  `strptime` also accepts unpadded numbers and any letter case in month names, and it matches each space of a format against any run of whitespace (so `"May  18 2026 01:"`, with two spaces, parses). Its `%d`, `%Y` and `%H` also match non-ASCII decimal digits. The model rejects all of these. Locales are not modelled.
- Fields.Field: a history field is text, an integer or null. Floats and booleans, which JSON can also deliver, are left out. On them `int()` truncates (`int(5.7)` is 5), `int(True)` is 1, and `str` of a float can use an exponent (`str(1e-05)` is `"1e-05"`), which the model's `float()` does not read.
- SteamClient.Utf8Decode is only the left inverse of the encoder, used to state the round trips; it does not reject every malformed byte sequence.
- SteamClient.IsSpace: the whitespace set of `str.strip()` is written out as the code points `str.isspace()` accepts.
- The time zone: the market's timestamps are read as UTC, as the source asserts; no zone data is modelled.
