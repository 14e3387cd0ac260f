# Station schedule viewer — verified model of its data core

The viewer is a single browser script that shows the trains arriving at and
departing from one railway station. Most of it is glue: network calls,
building DOM elements and wiring events. This project models the pure,
data-in/data-out part of it in Dafny and proves properties of that model:

- **Station view** (`StationView`): every live train is reduced to at most
  one display row for the queried station. The row comes from the train's
  first timetable row at that station that is a commercial stop. The
  origin and destination are the train's first and last stations. The row
  goes into the arrivals or the departures bucket according to the matched
  row's type.
- **Station names and the picker** (`Catalogue`): the code-to-name lookup
  falls back to the code itself. The option list holds the passenger
  stations, shown as "name (code)". The search box shows an option iff the
  lower-cased option text contains the lower-cased query.
- **Delay text** (`Delay`): "-" for no delay, otherwise signed minutes
  followed by " min".
- **Table bodies** (`Table`): one row per display row, or one placeholder
  row spanning the five columns when a bucket is empty.

Supporting modules:
- `Optional` holds the Option type.
- `Text` holds JavaScript's decimal text of integers and its inverse,
  lower-casing, and `includes`.
- `Seqs` holds `find` as `FirstIndex`. It also holds filter-and-transform
  as `FilterMap`, together with `Kept`, the positions of the elements it
  keeps.
- `Model` holds the records.

The time formatter (the `fi-FI` locale clock) is a parameter
`fmt: string -> string` of the view, so formatted times are opaque.

The code yields at most one row per train, from its first matching row. A
matched row whose type is neither ARRIVAL nor DEPARTURE puts the train in
neither bucket.

The delay cell of the station view uses the corrected formatter
`Delay.FormatDiff`, not the code as written (see "## Findings"). The two
differ only for a timetable row without a `differenceInMinutes` field.

## Model

| member | source | states |
|---|---|---|
| `StationView.MatchIndex` | script.js:83-85 | The matched row is a commercial stop at the queried station. No earlier row is one. There is no match iff no row of the train is such a stop. |
| `StationView.ViewRowFields` | script.js:89-103 | The display row of a train is built as follows. The train name is the train type, a space and the train number's decimal text, and the number can be read back from it. Origin and destination are the catalogue names of the train's first and last stations, or their codes when the catalogue lacks them. The scheduled time is the formatted scheduled time. The actual time is "-" when the field is absent or empty, otherwise the formatted actual time. The delay cell is that of the corrected `Delay.FormatDiff`: "-" iff the delay is absent, null or zero (as written, an absent field gives "undefined min"). Per bucket row, the statement is in `StationView.BucketRows`. |
| `StationView.RenderStationView` | script.js:75-107 | The one-pass classification loop builds exactly the arrivals and departures buckets of the reference definition. Together the two buckets hold no more rows than there are trains. |
| `StationView.BucketStep` | script.js:81-106 | Handling one more train appends to a bucket exactly what that train's push adds, and nothing else. |
| `StationView.BucketMembership` | script.js:81-106 | A train has a row in a bucket iff it has a commercial stop at the station and its first such row has the bucket's type. |
| `StationView.BucketOrder` | script.js:81-106 | A bucket holds exactly one row per selected train, and the selected trains appear in their input order. |
| `StationView.BucketRows` | script.js:87-106 | The k-th row of a bucket belongs to the k-th selected train. It carries that train's name and the names of its first and last stations, whichever row matched. It also carries the matched row's scheduled time, actual time, and delay text from the corrected `Delay.FormatDiff`. |
| `StationView.BucketsPartitionTrains` | script.js:83-106 | No train is in both buckets. A train is in one of them iff it has a commercial stop at the station and the matched row's type is ARRIVAL or DEPARTURE. Other trains are skipped. |
| `Catalogue.FindStation` | script.js:159 | Gives the position of the first catalogue station with the code, or none when no station has it. |
| `Catalogue.StationName` | script.js:158-161 | Returns the name of the first station with the code. Returns the code itself when the catalogue has no such station. |
| `Catalogue.StationNameOfMember` | script.js:158-161 | When short codes are unique, looking up a station's code gives that station's own name. |
| `Catalogue.PassengerOptions` | script.js:26-31 | The option list is never longer than the catalogue. Every passenger station's "name (code)" option is in it, and every option in it belongs to a passenger station. Order and multiplicity are stated in `Catalogue.OptionListExact`. |
| `Catalogue.OptionListExact` | script.js:26-31 | There is one option per passenger-traffic station and none for other stations, in catalogue order. Each option has the code as its value and "name (code)" as its text. |
| `Catalogue.OptionListKeepsOrder` | script.js:24-31 | If the catalogue is sorted by any ordering, the passenger stations behind the options are sorted by it too. |
| `Catalogue.FilterOptions` | script.js:176-183 | Each option gets a display value, in option order. It is "block" iff the lower-cased query occurs somewhere in the lower-cased option text. |
| `Catalogue.EmptyQueryShowsAll` | script.js:177-182 | An empty query hides no option. |
| `Catalogue.PieceOfTextShows` | script.js:177-182 | A query that equals some substring of an option's text up to case keeps the option visible. |
| `Catalogue.QueryCaseIgnored` | script.js:177-182 | A query and its lower-cased form show the same options. |
| `Delay.FormatDiff` | script.js:170-173 | The text is "-" iff the delay is absent, null or zero. A positive delay gives "+", its digits and " min". A negative delay gives "-", the digits of its magnitude and " min". |
| `Delay.FormatDiffRoundTrip` | script.js:170-173 | Every non-zero delay can be read back from its text. The placeholder reads back as no delay. |
| `Delay.FormatDiffExamples` | script.js:170-173 | 0 and null give "-", 5 gives "+5 min" and -3 gives "-3 min". |
| `Delay.FormatDiffAsWritten` | script.js:170-173 | The handler as written agrees with `FormatDiff` except for an absent field, where it does not give the placeholder. |
| `Delay.UndefinedDelayMisrendered` | script.js:171-172 | As written, an absent field renders as "undefined min". |
| `Text.NatToString` | script.js:89 | The decimal text of a train number is non-empty and all digits. It has no leading zero, and it is "0" iff the number is zero. |
| `Text.NatToStringRoundTrip` | script.js:89 | Reading the decimal text back gives the number again. |
| `Text.IntToString` | script.js:172 | The decimal text of a delay is non-empty and starts with a minus sign iff the delay is negative. |
| `Text.IntToStringRoundTrip` | script.js:172 | The signed decimal text of a delay reads back to the same integer. |
| `Text.ContainsIffOccurs` | script.js:182 | The recursive `includes` is true iff the query occurs at some position of the text. |
| `Table.TableBody` | script.js:120-132 | A table body is never empty. It is the single placeholder row iff the bucket is empty. |
| `Table.TableBodyShowsEveryRow` | script.js:120-132 | A non-empty bucket gives one data row per display row, in order and naming the same train. The body has as many data rows as the bucket has rows. |
| `Table.TablesShowCounterparts` | script.js:109-124 | The arrivals table's second column is each train's origin. The departures table's second column is each train's destination. |

## Left out

- Network access is not modelled: the station catalogue request, the live-trains request, `res.ok`, JSON parsing and the try/catch status messages. The model starts from the decoded lists.
- The "no trains" status for an empty response is left out, and so is skipping the render in that case. Both are status handling around the network call.
- DOM building and mutation are left out: `createElement`, `innerHTML`, `appendChild`, `style.display`, and the HTML and header text of the tables. Table rows are values. The display value is the result of `FilterOptions`.
- The sort of the catalogue by `localeCompare` is left out because its locale collation is a foreign library. `OptionListKeepsOrder` takes any ordering and assumes the catalogue is already sorted by it.
- `formatTime` is left out because it depends on `Date` parsing and the `fi-FI` locale. It is the parameter `fmt`. Only the rule "a falsy actual time shows -" is modelled.
- Event listeners, the empty-selection `alert` and the start-up call are browser wiring and are left out.
- Out-of-order rendering from overlapping fetches is a concurrency artefact and is not modelled.
- `FilterOptions` covers only the options built from the catalogue. Any option written in the page's HTML is not part of this model.
- StationView.RenderStationView: the delay cell of each row is the corrected `Delay.FormatDiff`. The code as written (`Delay.FormatDiffAsWritten`) shows "undefined min" where the model shows "-" for a matched row without a `differenceInMinutes` field; for null and every integer the two agree.
- StationView.ViewRowFields: the delay clause is that of the corrected `Delay.FormatDiff`. As written, an absent `differenceInMinutes` gives "undefined min", where this lemma states "-".
- StationView.BucketRows: states the delay cell as `Delay.FormatDiff` of the matched row, for the same reason. An absent delay field gives "-" here, and "undefined min" in the code as written.
- Text.LowerChar: lower-cases only ASCII and Latin-1 capitals, which covers Ä, Ö and Å. JavaScript's full Unicode case mapping is not modelled.
- Text.IntToString: renders every integer in plain decimal. JavaScript switches to exponent notation from 1e21 on. Delays and train numbers are taken to be integers below 2^53, as the API sends them: a fractional delay (which would show as "+2.5 min") or a number that loses precision as a JavaScript double is not modelled.
- The `type` of a timetable row is kept as text. Only the exact texts ARRIVAL and DEPARTURE select a bucket, as in the code.

## Findings

| source | as written | input that shows it | evidently intended | confidence | as-written member | corrected member |
|---|---|---|---|---|---|---|
| script.js:171-172 | `min === null` compares strictly, so an absent `differenceInMinutes` (undefined) is not caught. `undefined > 0` is false, so the field is interpolated as text. | A timetable row whose JSON has no `differenceInMinutes` field gives the delay cell "undefined min". | "-" for a missing delay, as for null. | medium (depends on the API omitting the field rather than sending null); not executed | `Delay.FormatDiffAsWritten`, `Delay.UndefinedDelayMisrendered` | `Delay.FormatDiff` (used by the station view) |
