# json2rss: a verified model of the RSS feed builder

`json2rss.py` turns the article records that an earlier stage wrote as
`*_rewritten.json` files into one RSS 2.0 document. This project models,
in Dafny, the parts of that script that decide what the feed contains:

- the **file selection** of `read_json_files`, which keeps the names ending
  in `_rewritten.json`, in listing order;
- the **channel skeleton** of `create_rss_feed`: an `rss` element with
  version 2.0 and the Atom namespace, and a `channel` with fixed title,
  link, description, language `it` and one self `atom:link`;
- the **item builder**, run once per record in input order:
  - the title, with the default `Nessun Titolo`;
  - the description: the content (default `Nessun Contenuto`), then, when
    the record has a `links` key, a "Fonti" header and one anchor line per
    link;
  - the `pubDate`: `processed_at` parsed as `YYYY-MM-DD HH:MM:SS` and
    written in the date-time form of RFC 822 section 5 (as refined by
    RFC 2822 section 3.3), `Www, DD Mon YYYY HH:MM:SS GMT`, with the weekday
    computed from the proleptic Gregorian calendar as Python does;
  - the `guid`: a fixed URL prefix plus the title percent-encoded. The
    encoding is that of RFC 3986 sections 2.1 and 2.3, applied to its UTF-8
    bytes (RFC 3629), with '/' also kept;
- the empty-input check of `main`: no feed is built when no record was read.

Modules, one per concern: `Wrappers` (Option, Result), `Seqs` (slices and
concatenation of sequences), `Calendar` (leap
years, ordinals, weekdays), `Timestamp` (parsing and rendering the
timestamp), `Utf8`, `Quote` (percent-encoding and a decoder for it), `Item`
(records and items) and `Feed` (the channel, the whole document, file
selection and the program's outcome).

The state the script changes is modelled as it is changed. The channel
element is the class `Feed.Channel`, whose `Append` adds one item. The
description and the list of records grow in `for` loops
(`Item.BuildDescription`, `Feed.ReadJsonFiles`, `Feed.CreateRssFeed`). Each
of these methods is proved equal to a specification function
(`Item.Description`, `Feed.Selected`, `Feed.FeedOf`), and the properties are
proved about those functions. The date conversion and the guid are single
expressions in the source, so they are functions with lemmas.

The exceptions the script raises while building an item become
`Result.Err`. `strptime` raises `ValueError` in two ways, both modelled as
`Timestamp.DateError`:
- `Mismatch`: the text does not match the format. This includes a month
  outside 01–12, an hour of 24 and a minute of 60.
- `OutOfRange`: the fields match but build no `datetime`. This covers
  year 0000, a day past the end of its month (29 February of a common year)
  and a second of 60 or 61.

A record without `processed_at` gets the ISO text of the current time.
That text has a 'T' between date and time, so it never matches the format,
and because the exception is not caught, the whole feed fails. The clock is
a parameter (`Timestamp.Clock`).

The script does not merge with an existing feed, sort by date, filter by
age, cap the item count, read a configuration or add a model/provider line.
Its placeholders are Italian (`Nessun Titolo`, `Nessun Contenuto`).

A remark on the title default: a record whose title is missing and a
record whose title is literally `Nessun Titolo` get the same title and
guid. So the placeholder shows when the key is missing *or* holds the
placeholder itself (`Item.TitleDefaulting`).

## Model

| member | source | states |
|---|---|---|
| `Calendar.DaysInMonth` | json2rss.py:64 | months have 28 to 31 days, and 29 exactly for February of a leap year (the day-of-month check of `datetime`) |
| `Calendar.DaysBeforeYearStep` | json2rss.py:64 | the closed form of the days before a year grows by that year's length (365 or 366) from one year to the next |
| `Calendar.DaysBeforeYearCounts` | json2rss.py:64 | Python's closed form `365y + y/4 - y/100 + y/400` equals the year-by-year count of days, for every year |
| `Calendar.DaysBeforeMonthCounts` | json2rss.py:64 | Python's cumulative month table (with the leap-day correction) equals the month-by-month count of days |
| `Calendar.OrdinalCounts` | json2rss.py:64 | the ordinal used for the weekday is the position of the date in the sequence of all days from 0001-01-01 |
| `Calendar.OrdinalNextDay` | json2rss.py:64 | the day after any date, across month and year ends, has the next ordinal |
| `Calendar.WeekdayNextDay` | json2rss.py:64 | the weekday advances by one, cyclically, from each day to the next |
| `Calendar.WeekdayCounts` | json2rss.py:64 | the weekday is the number of days since 0001-01-01, a Monday, modulo 7 |
| `Timestamp.Parse` | json2rss.py:64 | an accepted timestamp is a valid date-time (year 1–9999, month, day within its month, hour, minute, second) |
| `Timestamp.ParseSound` | json2rss.py:64 | an accepted text is exactly the zero-padded `YYYY-MM-DD HH:MM:SS` text of the value it yields |
| `Timestamp.ParseComplete` | json2rss.py:64 | every valid date-time is accepted in that text and yields itself (with `ParseSound`: accepted exactly when canonical and valid) |
| `Timestamp.CanonicalFields` | json2rss.py:64 | the zero-padded text of fields that fit their widths has the shape of the format, and each of its fields reads back as the value written |
| `Timestamp.ParseFields` | json2rss.py:64 | on such a text, parsing refuses as a mismatch a field outside the pattern's bounds (month 1–12, day 1–31, hour 0–23, minute 0–59, second 0–61), then as out of range year 0, a day past its month's end and a leap second, and otherwise yields the fields |
| `Timestamp.ParseRejectsPattern` | json2rss.py:64 | month 13, hour 24 and minute 60 are refused as not matching the format |
| `Timestamp.ParseNarrowerOneDigitMonth` | json2rss.py:64 | shows where the model is narrower than `strptime`: "2024-1-01 00:00:00", which `strptime` reads as 1 January 2024, is refused by the model as not having the zero-padded shape |
| `Timestamp.ParseLeapDay` | json2rss.py:64 | 2024-02-29 is accepted; 2023-02-29 and 2024-04-31 are refused as out of range |
| `Timestamp.ParseRejectsRange` | json2rss.py:64 | second 60 and year 0000 match the format but are refused as out of range |
| `Timestamp.Rfc822Slices` | json2rss.py:64 | the pubDate is the weekday name, `, `, the padded day, the month name, the padded year, the time of day and ` GMT`, each at its fixed position |
| `Timestamp.Rfc822Fields` | json2rss.py:64 | the pubDate has 29 characters, `Www, DD Mon YYYY HH:MM:SS GMT`, and its fields decode to the weekday of the date, the day, the English month abbreviation, the year, hour, minute and second |
| `Timestamp.PubDateOfStamp` | json2rss.py:64 | for an accepted timestamp, the pubDate copies its day, year and time digits, names its month, and gives the weekday of its date |
| `Timestamp.IsoFormatNeverParses` | json2rss.py:63-64 | whatever the clock reads, its ISO text is refused as not matching the format |
| `Utf8.DecodeFirstEncodeChar` | json2rss.py:68 | the strict UTF-8 decoder reads back the one code point encoded at the front, whatever follows |
| `Utf8.DecodeEncode` | json2rss.py:68 | decoding the UTF-8 encoding of a string gives the string |
| `Utf8.EncodeInjective` | json2rss.py:68 | two strings have the same UTF-8 encoding exactly when they are equal |
| `Utf8.EncodeCharAscii` | json2rss.py:68 | an ASCII character encodes as its own byte; any other character encodes as bytes that are all 0x80 or above |
| `Utf8.EncodeAppend` | json2rss.py:68 | the encoding of a concatenation is the concatenation of the encodings |
| `Quote.UnquoteQuoteBytes` | json2rss.py:68 | per-byte percent-encoding is undone by percent-decoding |
| `Quote.UnquoteQuote` | json2rss.py:68 | decoding the quoted title recovers the title |
| `Quote.QuoteInjective` | json2rss.py:68 | two strings quote to the same text exactly when they are equal |
| `Quote.QuoteAppend` | json2rss.py:68 | quoting works character by character: the quote of a concatenation is the concatenation of the quotes |
| `Quote.QuoteKeepsSafe` | json2rss.py:68 | an ASCII letter, digit, `-`, `.`, `_`, `~` or `/` is kept unchanged |
| `Quote.QuoteEscapesOthers` | json2rss.py:68 | every other character becomes `%XX`, one escape per byte of its UTF-8 encoding, in order |
| `Quote.QuoteBytesAlphabet` | json2rss.py:68 | a quoted text contains only kept characters, `%` and uppercase hexadecimal digits |
| `Item.TitleDefaulting` | json2rss.py:49 | a present title is passed through verbatim (the empty one too); the title is the placeholder exactly when the key is missing or holds the placeholder |
| `Item.SourcesListAppend` | json2rss.py:57-58 | the list of source entries of two lists one after the other is the two lists' entries one after the other |
| `Item.SourcesListSplit` | json2rss.py:57-58 | the list splits around the entry of any link: the entries before it, its own entry, the entries after it |
| `Item.SourcesListEntry` | json2rss.py:57-58 | the entry of the link at position k stands in the list right after the entries of the links before it |
| `Item.BuildDescription` | json2rss.py:52-60 | the loop that appends the header and one entry per link yields the description function's value |
| `Item.DescriptionLayout` | json2rss.py:52-60 | the description begins with the content; without `links` it is the content; with `links` (even empty) the header follows, then the list of the links' anchor lines, and nothing else |
| `Item.DescriptionEntry` | json2rss.py:55-58 | in the description, the anchor line of the link at position k stands after the content, the header and the lines of the links before it |
| `Item.GuidOfTitle` | json2rss.py:68 | the guid is the prefix followed by a text that decodes to the title, and two records get the same guid exactly when they get the same title |
| `Item.BuildItem` | json2rss.py:46-68 | the item's title, description, pubDate and guid are those of the item function, or the error of the timestamp |
| `Item.ItemOfBuilt` | json2rss.py:62-64 | an item is built exactly when `processed_at` is present and parses; without it building fails with a mismatch; a built item does not depend on the clock |
| `Item.ItemPubDate` | json2rss.py:62-64 | the pubDate of a built item is the RFC 822 rendering of the record's own timestamp |
| `Feed.Channel.constructor` | json2rss.py:25-43 | the channel starts with the fixed title, link, description, language `it`, self link and no item |
| `Feed.Channel.Append` | json2rss.py:46 | appending adds one item after the others and leaves the metadata unchanged |
| `Feed.CollectStep` | json2rss.py:45-64 | building the next record either extends the items so far or, on an error, makes that error the error of the whole run |
| `Feed.CollectAll` | json2rss.py:45-64 | collecting per-record results succeeds, with every value in order, exactly when every record succeeds; otherwise it fails with the first error |
| `Feed.CreateRssFeed` | json2rss.py:20-68 | the loop over the records yields the whole-document function's value: the skeleton and the items, or the first error |
| `Feed.FeedItems` | json2rss.py:25-68 | a built document has the fixed metadata and exactly one item per record, each built from the record at the same position, with no reordering, dropping or duplication |
| `Feed.FeedFails` | json2rss.py:45-64 | the document is built exactly when every record can be built; otherwise its error is that of the first record that cannot |
| `Feed.MissingStampAborts` | json2rss.py:63-64 | one record without `processed_at` makes the whole feed fail |
| `Feed.SelectedAppend` | json2rss.py:12-13 | selecting from two listings one after the other selects from each, in order |
| `Feed.SelectedMembers` | json2rss.py:12-13 | a name is selected exactly when it is listed and ends in `_rewritten.json` |
| `Feed.SelectedCount` | json2rss.py:12-13 | a name with the suffix is selected as many times as it is listed, and a name without it never |
| `Feed.ReadJsonFiles` | json2rss.py:10-18 | the records are those of the selected files, one per file, in listing order |
| `Feed.Run` | json2rss.py:73-85 | nothing is built exactly when no file was selected; otherwise the document has the fixed metadata and one item per record in order, or the run fails with the error of the first record that cannot be built, every record before it being buildable |

## Left out

- Directory listing, file opening and JSON parsing are not modelled. `Feed.ReadJsonFiles` and `Feed.Run` take the listing (in the order the system lists it) and a function from file name to record as parameters. The errors of `json.load` are not modelled.
- Only string values are modelled, in objects. A JSON value of another type (a number or null title, a `links` string, which Python would iterate character by character, or a non-object file) makes the source raise or behave differently, and the model does not cover it.
- Building the XML tree is not modelled. Namespace registration, escaping of text and `tree.write` are library code. The document is a plain datatype (`Feed.Document`), and no file is written.
- Directory creation and console messages in `main` are not modelled.
- `Timestamp.Parse`: accepts only the canonical spelling: four-digit year and two-digit month, day, hour, minute and second, separated by exactly one space. Python's `strptime` with this format also accepts one-digit fields, a day written as a space and one digit, any run of whitespace between date and time, and non-ASCII decimal digits. The model answers `Mismatch` for those texts (`Timestamp.ParseNarrowerOneDigitMonth` shows one).
- `Timestamp.Rfc822`: always writes the year with four digits. On some platforms the C library writes years below 1000 without leading zeros.
- Day and month names are the English abbreviations of the C locale. Other locales are not modelled.
- The clock is read once per record in the source and once per run in the model (`now`). Its reading only decides that a record without `processed_at` fails, which `Item.ItemOfBuilt` proves for every reading.
- Titles are Dafny strings of Unicode scalar values. A Python string can also hold a lone surrogate (from a `\ud800` escape in the JSON); the source's `quote` would then raise `UnicodeEncodeError`, and the model has no such title.
- When an item fails, the source has already appended a partly built item element to the tree. The exception discards the tree, so the model returns only the error.
- `Quote.Unquote` is not part of the source. It is a decoder written to state that quoting loses nothing.
