# Modrinth approval tracker — a Dafny model of its core

The tracker is a single browser script (`source.js`). It asks the Modrinth
API for the newest mods, looks up their moderation records, and works out
how long each one waited between being queued and being approved. It shows
the average wait and one card per mod. This project models the part of
that script that computes things, and proves properties about it:

- **Sample size** (`sample.dfy`, module `Sample`). The `sample` query
  parameter is kept when it parses to an integer in [1, 500]. Otherwise the
  size is 50.
- **API calls** (`projects.dfy`, `Projects.Api`). A response whose status
  is not OK becomes the error `API call failed: <status text>`. An OK
  response yields its decoded body.
- **`downloadProjects`** (`projects.dfy`, module `Projects`). The listing
  hits are turned into their ids and into an icon map where the last hit
  with a given id wins. The lookup records are then stably sorted, most
  recently approved first. Each record becomes an entry with an icon and a
  delay. An icon that is missing or empty falls back to a placeholder
  image. The delay is approval time minus queue time. A failure of either
  API call aborts the whole operation with that call's error.
- **`getAverageDelay`** (`average.dfy`, module `Average`). The mean delay
  is computed exactly, as a real number, and is 0 when there are no entries.
- **`formatDuration`** (`duration.dfy`, module `Duration`). Milliseconds
  are rounded down to whole seconds, then split into days, hours and
  minutes with JavaScript's truncating `%`. At most two of the positive
  counters are kept, and minutes are dropped once both days and hours are
  present. Each is labelled with its unit, plural above one, and the labels
  are joined with " and ". An empty result reads "less than a minute".
- **Reading a duration back** (`durationtext.dfy`, module `DurationText`).
  This is an independent parser for the phrases the formatter writes. The
  round trip `ParseDuration(FormatDuration(ms)) == Some(ComponentsOf(ms))`
  is the formatter's partner property. It shows that the text loses none of
  the components it was built from.
- **Support modules.** `decimal.dfy` renders a whole number as a decimal
  string, the way a template literal does below 10^21, and reads it back. `wrappers.dfy`
  defines `Option` and `Result`. `seqs.dfy` holds small sequence facts.

Timestamps are whole milliseconds (`int`). Every arithmetic value is
unbounded and exact, so nothing overflows or rounds. The network is a
parameter: `DownloadProjects` receives the listing response, and the lookup
is a function from the id list to a response. Both responses arrive with
their JSON already decoded.

Three consequences of the code are worth stating:

- **Negative spans.** A negative span formats as "less than a minute",
  because a counter is shown only when it is positive.
  `Duration.Decompose` proves that no counter is positive for a negative
  number of seconds.
- **Plural labels.** A label is plural when its count is above one. Only
  positive counts are shown, so this is the same as "not exactly one".
- **Rounding seconds.** Seconds are rounded down with `Math.floor`, so
  -0.5 s becomes -1 s.

## Model

| member | source | states |
|---|---|---|
| Sample.ResolveSampleSize | source.js:2-5 | the sample size is always in [1, 500]; an integer in that range is kept as is; an unparsable or out-of-range value gives 50 |
| Projects.Api | source.js:33-38 | the call fails exactly when the response is not OK, with the message "API call failed: " followed by the status text; otherwise it yields the body |
| Projects.HitIds | source.js:59 | the ids list has one id per hit, in listing order |
| Projects.IconMap | source.js:60 | the map's keys are exactly the hit ids, and each id maps to the icon of the last hit carrying it (later hits overwrite earlier ones) |
| Projects.ResolveIcon | source.js:72 | the icon is never empty; it is the mapped icon when that is present and non-empty, and the placeholder URL otherwise |
| Projects.ResolveIconFromHits | source.js:60-72 | looking an id up in the icon map gives the usable icon of the last hit with that id, or the placeholder when no such hit has a usable icon |
| Projects.SortByApproval | source.js:63 | the result is a permutation of the records, never increasing in approval time, and records with equal approval times keep their input order (a stable sort) |
| Projects.StableSortIsUnique | source.js:63 | any sorted arrangement that keeps the input order among equal approval times is exactly the sort's result, so those properties pin the result down |
| Projects.InsertKeepsSorted | source.js:63 | inserting a record into a sorted sequence keeps it sorted |
| Projects.InsertApprovedAt | source.js:63 | inserting a record places it after every earlier record with the same approval time |
| Projects.EnrichProject | source.js:66-76 | an entry carries its record's id, title and timestamps, and its delay is approval time minus queue time |
| Projects.Enrich | source.js:59-78 | there is one entry per lookup record; the entries' records are a stable descending sort of the lookup records; every delay is approval minus queue time; every icon is the one the hits call for |
| Projects.DownloadProjects | source.js:56-79 | a failed listing call or a failed lookup call yields that call's error; the result is a success exactly when both calls succeed, and then it is the enrichment of the hits and the looked-up records |
| Average.AverageDelay | source.js:114-118 | the average is 0 for no entries, and otherwise it times the entry count equals the summed delays |
| Average.AverageDelayBounds | source.js:114-118 | the average lies between the smallest and the largest delay |
| Average.TotalDelayBounds | source.js:116 | the summed delays lie between count times the smallest delay and count times the largest delay |
| Average.TotalApprovalDelayPermutation | source.js:116 | the summed delay does not depend on the order of the records |
| Average.AverageOfEnrich | source.js:114-118 | the average shown on the page is the summed approval delay of the looked-up records divided by their count, whatever order the sort produced |
| Average.TwoEntriesExample | source.js:114-118 | delays of 1 s and 3 s average to 2000 ms |
| Duration.JsRem | source.js:123-124 | the remainder has the sign of the dividend and lies strictly between -d and d, and it is what is left after the quotient rounded toward zero (JavaScript's `%`) |
| Duration.FloorDiv | source.js:122-124 | `Math.floor(a / d)` is the unique q with q·d ≤ a < q·d + d |
| Duration.SecondsOf | source.js:121 | the whole seconds s satisfy s·1000 ≤ ms < (s + 1)·1000 |
| Duration.Decompose | source.js:121-124 | for a non-negative number of seconds, the hours are in [0, 23] and the minutes in [0, 59], and days, hours and minutes add back up to the input less fewer than 60 seconds; for a negative input no counter is positive |
| Duration.Present | source.js:126-128 | a counter contributes a phrase exactly when it is positive, carrying that counter and its unit |
| Duration.Candidates | source.js:125-128 | the parts hold at most two phrases, in day, hour, minute order, each with its own counter; days appear iff positive; hours appear iff positive; minutes appear iff positive and not both days and hours are present |
| Duration.Parts | source.js:125-129 | the parts after `slice(0, 2)` keep the properties just stated for the parts before it |
| Duration.Label | source.js:126-128 | a label starts with a digit and ends in "s" exactly when its count is above one |
| Duration.FormatComponents | source.js:129 | the joined text is "less than a minute" exactly when there are no parts |
| Duration.FormatDuration | source.js:120-130 | the text is "less than a minute" exactly when the input is below 60000 ms, negative inputs included |
| Duration.NoComponentsBelowAMinute | source.js:120-128 | no part is produced exactly when the input is below one minute |
| Decimal.NatToString | source.js:126-128 | a count renders as a non-empty string of digits with no leading zero |
| Decimal.DigitsValueOfNatToString | source.js:126-128 | reading the rendered digits back gives the count |
| DurationText.ParseLabelOfLabel | source.js:126-128 | a label followed by nothing, or by text that starts with a space, parses back to its count and unit and leaves that text unread |
| DurationText.ParseFormatComponents | source.js:125-129 | the text of at most two parts parses back to exactly those parts |
| DurationText.ParseFormatDuration | source.js:120-130 | parsing the formatted text of any duration recovers its parts: the formatter loses nothing it shows |
| DurationText.FormatDurationSeparatesComponents | source.js:120-130 | durations with different parts format to different texts |
| DurationText.NinetySecondsExample | source.js:120-130 | 90000 ms formats as "1 minute" |
| DurationText.HoursAndMinutesExample | source.js:120-130 | 3 h 25 min formats as "3 hours and 25 minutes" |
| DurationText.DayAndHoursExample | source.js:120-130 | 1 day 2 h 1 min formats as "1 day and 2 hours", dropping the minutes |

## Left out

- Theme toggle (source.js:7-31): page styling only, with no computation.
- `main` (source.js:40-54): writes to the page, logs, and replaces any failure with a fixed message. The model keeps the values it displays (`AverageDelay`, `FormatDuration`) and the errors that reach it (`DownloadProjects`).
- `populateModList` (source.js:81-112): builds page elements. Each card shows the entry's icon and title, and its approval time is "Approved in: " followed by `FormatDuration` of the entry's delay, which is modelled.
- URL and query construction (source.js:34, 57, 62): strings sent over the network; the model receives the responses instead.
- The network, `fetch` and `response.json()`: modelled as a `Response` value with its body already decoded. A body that is not valid JSON, and a rejected `fetch`, are not modelled.
- `parseInt` (source.js:2): modelled by its outcome only, `None` for `NaN` or `Some(n)`. The string parsing itself is left out.
- `new Date(...)` parsing of the timestamp strings (source.js:63, 67-68): timestamps are modelled as integers of milliseconds. Invalid dates (`NaN`) are not modelled.
- Projects.SortByApproval: assumes the engine's sort is stable, as ECMAScript 2019 and later require. Because the comparator subtracts dates, an invalid date would break the ordering; this case is not modelled.
- Average.AverageDelay: computes an exact real mean rather than an IEEE-754 double, so rounding of large sums is not modelled.
- Duration.FormatDuration: takes an exact real number of milliseconds. Floating-point rounding of `milliseconds / 1000` is not modelled, and neither are `NaN` or infinite inputs.
- Decimal.NatToString: writes every digit of a count. A template literal switches to exponent form from 10^21 on ("1e+21 days"), which the model does not reproduce; delays between valid dates stay below 1.728·10^16 ms, so no real count gets there.
- Projects.DownloadProjects: receives both response bodies as already-typed hits and records, so a body of the wrong shape is not modelled. In the code such a body throws, at source.js:59 when the listing has no `hits` array and at source.js:63 when the lookup body is not an array, and the throw aborts the call with no result; the model's "success exactly when both calls succeed" holds for well-shaped bodies only.
