# EveNex calendar export, modelled in Dafny

EveNex lets a visitor add an event to their calendar. The "Add to Calendar"
button builds an `EventDetails` record from the event page. `generateIcs` turns
that record into a single-event iCalendar text, shaped after RFC 5545, and
`downloadIcsFile` saves the text under a name derived from the title. This
project models these three pieces as pure Dafny functions and proves what they
promise.

- `js_string.dfy` (module `JsString`): the JavaScript string built-ins the
  code relies on. These are `replace` with a global pattern, `split`, `join`,
  `trim` (with the white-space set of the language standard), `toLowerCase` on
  ASCII, and the truthiness of `||`.
- `generate_ics.dfy` (module `Ics`) covers `formatDate`, `escapeText`, the
  line layout of `generateIcs`, and the file name rule of `downloadIcsFile`.
  It also defines a reader for the produced text. The reader lets the encoding
  be stated as invertible: reading back a generated calendar recovers the clock
  reading, both instants to the second, the title, description and location
  exactly, and the URL.
- `add_to_calendar_button.dfy` (module `AddToCalendarButton`) covers the
  handler's `EventDetails` construction: the location template with its
  `"Online Event"` case, the region fallback from state to country, and the
  event-page URL.

Two inputs come from the environment:

- The `Date.now()` reading is a parameter `now`, written in decimal.
- A `Date` is given by its UTC calendar fields (`DateTime`), with years 0 to
  9999. Those are the fields `toISOString` prints.

The JavaScript origin is `window.location.origin`, a parameter `origin`.

RFC 5545 (section 3.1) ends every content line with CRLF. The code writes
none after the last line (lib/generateIcs.ts:38), and the model follows the
code.

## Model

| member | source | states |
|---|---|---|
| JsString.OrElse | components/add-to-calendar-button.tsx:42 | the or-operator on strings gives the first operand when it is truthy and the second otherwise, so the result is falsy only when both are |
| JsString.ReplaceAll | lib/generateIcs.ts:17-20 | a global single-character `replace` leaves no occurrence when the replacement holds none, and changes nothing when the character is absent |
| JsString.ReplaceAllConcat | lib/generateIcs.ts:17-20 | a global replace distributes over concatenation |
| JsString.RemoveAll | lib/generateIcs.ts:12 | `replace(/[-:]/g, '')` leaves none of the removed characters and never lengthens the text |
| JsString.RemoveAllNone | lib/generateIcs.ts:12 | removing characters that do not occur changes nothing |
| JsString.RemoveAllConcat | lib/generateIcs.ts:12 | removal distributes over concatenation |
| JsString.BeforeFirst | lib/generateIcs.ts:12 | `split('.')[0]` is the longest prefix without a `.`; it is the whole text or is followed by a `.` |
| JsString.BeforeFirstConcat | lib/generateIcs.ts:12 | a prefix without the separator passes through `split(..)[0]` unchanged |
| JsString.BeforeFirstStops | lib/generateIcs.ts:12 | `split(..)[0]` stops at the first separator |
| JsString.Join | lib/generateIcs.ts:38 | `join` is as long as all the lines together plus one separator between each two neighbours |
| JsString.JoinEnds | lib/generateIcs.ts:38 | `join` of at least one line starts with the first line and ends with the last one, with no separator after it |
| JsString.JoinAt | lib/generateIcs.ts:38 | a join splits at any inner boundary into the joins of the two parts, one separator between them |
| JsString.JoinAround | lib/generateIcs.ts:38 | a join is the lines before an inner line, a separator, that line, a separator and the lines after it |
| JsString.JoinSameAround | lib/generateIcs.ts:38 | two joins of lists that agree everywhere but at one inner line are equal only when that line is too |
| JsString.SplitCrlf | lib/generateIcs.ts:38 | splitting at CRLF always yields at least one piece |
| JsString.SplitCrlfLine | lib/generateIcs.ts:38 | a line without a line feed followed by CRLF splits off as one piece |
| JsString.SplitJoin | lib/generateIcs.ts:38 | splitting the CRLF join of lines without line feeds gives back exactly those lines |
| JsString.LeadingRun | components/add-to-calendar-button.tsx:42 | the run `trim` removes in front never exceeds the string and stops at a character outside the removed set |
| JsString.TrailingRun | components/add-to-calendar-button.tsx:42 | the run `trim` removes at the end never exceeds the string and stops at a character outside the removed set |
| JsString.LeadingRunIn | components/add-to-calendar-button.tsx:42 | every character of the leading run is in the removed set |
| JsString.TrailingRunIn | components/add-to-calendar-button.tsx:42 | every character of the trailing run is in the removed set |
| JsString.LeadingRunBound | components/add-to-calendar-button.tsx:42 | the leading run ends at or before the first character outside the set |
| JsString.TrailingRunBound | components/add-to-calendar-button.tsx:42 | the trailing run starts at or after the last character outside the set |
| JsString.Strip | components/add-to-calendar-button.tsx:42 | stripping never lengthens a string, and leaves nothing exactly when every character is in the removed set |
| JsString.StripEnds | components/add-to-calendar-button.tsx:42 | a stripped string is empty or begins and ends outside the removed set |
| JsString.StripKeeps | components/add-to-calendar-button.tsx:42 | stripping removes only the two runs: a stretch that begins and ends outside the set survives, shifted by the leading run |
| JsString.StripEndsKept | components/add-to-calendar-button.tsx:42 | a string ending outside the set loses only its leading run |
| JsString.StripFixed | components/add-to-calendar-button.tsx:42 | a string that begins and ends outside the set is its own strip |
| JsString.Trim | components/add-to-calendar-button.tsx:42 | `trim` never lengthens a string, and gives the empty string exactly when the string is all white space |
| JsString.TrimRemovesWhiteSpace | components/add-to-calendar-button.tsx:42 | `trim` removes white space only, only at the ends, and leaves a result that is empty or begins and ends with a non-white-space character |
| JsString.TrimKeepsOccurrence | components/add-to-calendar-button.tsx:42 | an occurrence of a piece that begins and ends with non-white-space characters survives `trim`, shifted by the leading white space |
| JsString.TrimKeepsTail | components/add-to-calendar-button.tsx:42 | everything from a non-white-space character on survives when the string ends in one |
| JsString.TrimIdempotent | components/add-to-calendar-button.tsx:42 | trimming twice equals trimming once |
| JsString.LowerAsciiChar | lib/generateIcs.ts:49 | upper-case ASCII letters map to their lower-case letter; every other character is kept |
| JsString.LowerAscii | lib/generateIcs.ts:49 | `toLowerCase` keeps the length, works per character, and leaves no upper-case ASCII letter |
| Ics.Pad | lib/generateIcs.ts:12 | each ISO field is written in exactly its width of decimal digits |
| Ics.DigitsValue | lib/generateIcs.ts:12 | the value of `w` digits is below 10^w |
| Ics.PadValue | lib/generateIcs.ts:12 | a padded field reads back to its number when the number fits the width |
| Ics.Decimal | lib/generateIcs.ts:28 | `${Date.now()}` is a non-empty run of decimal digits |
| Ics.DecimalValue | lib/generateIcs.ts:28 | the decimal rendering reads back to the clock reading |
| Ics.IsoString | lib/generateIcs.ts:12 | `toISOString` has 24 characters for years 0 to 9999 |
| Ics.UtcDateTimeForm | lib/generateIcs.ts:11-13 | the UTC DATE-TIME form of RFC 5545 has 16 characters: eight digits, `T`, six digits, `Z` |
| Ics.ParseDateTime | lib/generateIcs.ts:11-13 | a read-back timestamp carries no milliseconds |
| Ics.RemoveIsoSeparators | lib/generateIcs.ts:12 | removing every `-` and `:` from the ISO string leaves its digit fields, `T`, `.`, the milliseconds and `Z` |
| Ics.FormatDate | lib/generateIcs.ts:11-13 | `formatDate` gives exactly the UTC DATE-TIME form of RFC 5545 of the date |
| Ics.FormatDateLayout | lib/generateIcs.ts:11-13 | `formatDate`'s replace, split and `Z` chain gives exactly the UTC DATE-TIME form |
| Ics.DateTimeFormRoundTrip | lib/generateIcs.ts:11-13 | the UTC form reads back to the date with milliseconds dropped |
| Ics.FormatDateRoundTrip | lib/generateIcs.ts:11-13 | `formatDate` yields 16 characters that read back to every field except the milliseconds |
| Ics.FormatDateInjective | lib/generateIcs.ts:11-13 | two dates render alike exactly when they agree to the second |
| Ics.FormatDateExample | lib/generateIcs.ts:11-13 | 2025-03-14 09:05:00.250 UTC renders as `20250314T090500Z` |
| Ics.EscapeText | lib/generateIcs.ts:15-21 | escaped text holds no raw line feed |
| Ics.EscapeTextConcat | lib/generateIcs.ts:15-21 | escaping distributes over concatenation |
| Ics.EscapeTextChar | lib/generateIcs.ts:15-21 | `\`, `;`, `,` and line feed become a backslash and their letter; every other character, `\r` and `:` among them, passes unchanged |
| Ics.EscapeTextLength | lib/generateIcs.ts:15-21 | the output length is the input length plus the number of `\`, `;`, `,` and line feeds |
| Ics.UnescapeEscapeText | lib/generateIcs.ts:15-21 | reading the escaped text back gives the original |
| Ics.EscapeTextOfUnescape | lib/generateIcs.ts:15-21 | any text that reads back is the escaping of what it reads to |
| Ics.EscapeTextInvertible | lib/generateIcs.ts:15-21 | a text escapes to `t` if and only if `t` reads back to that text |
| Ics.EscapeTextInjective | lib/generateIcs.ts:15-21 | distinct texts escape differently |
| Ics.ContentLines | lib/generateIcs.ts:23-37 | the line list has 13 lines, or 14 with a truthy url; it opens with `BEGIN:VCALENDAR`, closes with `END:VCALENDAR`, and carries the UID and both timestamps on lines 5 to 7 |
| Ics.IcsLines | lib/generateIcs.ts:23-37 | `generateIcs`' lines: 13 or 14 of them, the UID the clock reading in decimal plus `@evenex.com`, both instants in the UTC DATE-TIME form |
| Ics.GenerateIcs | lib/generateIcs.ts:10-41 | the output starts with `BEGIN:VCALENDAR` and ends with `END:VCALENDAR` |
| Ics.ContentLinesAt | lib/generateIcs.ts:23-38 | the position and text of every line, 13 lines without a URL and 14 with one |
| Ics.ContentLinesFrame | lib/generateIcs.ts:23-38 | the calendar opens first and closes last, and exactly one line opens the event (the fourth) and exactly one closes it (the second to last) |
| Ics.ContentLinesUrl | lib/generateIcs.ts:34 | a `URL:` line exists if and only if the url is truthy, and it is the eleventh line with the URL copied unescaped |
| Ics.IcsLinesFrame | lib/generateIcs.ts:23-38 | the same frame for `generateIcs`' own lines |
| Ics.IcsLinesUrl | lib/generateIcs.ts:34 | the same URL rule for `generateIcs`' own lines |
| Ics.IcsLinesFields | lib/generateIcs.ts:28-33 | the UID is the clock reading in decimal plus `@evenex.com`, the instants are in the UTC DATE-TIME form, and only title, description and location are escaped |
| Ics.ContentLinesUid | lib/generateIcs.ts:28 | no line but the UID line depends on the UID |
| Ics.ReadUidOfStamp | lib/generateIcs.ts:28 | the clock reading can be read back from the UID value |
| Ics.IcsLinesClock | lib/generateIcs.ts:28 | two runs at different instants differ in the UID line only, and only there |
| Ics.ReadField | lib/generateIcs.ts:28-34 | a read field value is what follows the field's name in the line |
| Ics.ReadFieldOf | lib/generateIcs.ts:28-34 | reading a field back gives the value written after its name |
| Ics.ReadContentLines | lib/generateIcs.ts:23-38 | the reader recovers each value of the layout from its line |
| Ics.FormatDateNoLineFeed | lib/generateIcs.ts:11-13 | a timestamp holds no line feed |
| Ics.ContentLinesNoLineFeed | lib/generateIcs.ts:23-38 | no line holds a line feed when no inserted value does |
| Ics.GenerateIcsLines | lib/generateIcs.ts:23-38 | splitting the output at CRLF gives back exactly the lines, when the url holds no line feed |
| Ics.GenerateIcsRoundTrip | lib/generateIcs.ts:10-41 | the output reads back to the clock reading, both instants to the second, the title, description and location exactly, and the url when truthy |
| Ics.GenerateIcsClock | lib/generateIcs.ts:28 | two outputs for one event are equal exactly when the clock readings are, whatever the event holds |
| Ics.DashNonAlphanumeric | lib/generateIcs.ts:49 | the length is kept; a character becomes `-` exactly when it is outside `[A-Za-z0-9]`, and every ASCII letter or digit is kept as it is |
| Ics.DefaultFilename | lib/generateIcs.ts:49 | the default name is the title's length plus `.ics`, made of `[a-z0-9-]`, with `-` exactly where the title has no ASCII letter or digit and the lower-cased letter or digit elsewhere |
| Ics.DefaultFilenameIgnoresCase | lib/generateIcs.ts:49 | titles that differ only in ASCII letter case get the same name |
| Ics.DefaultFilenameStable | lib/generateIcs.ts:49 | deriving a name from a default name's stem gives it back |
| Ics.DefaultFilenameExample | lib/generateIcs.ts:49 | the title `A b` is saved as `a-b.ics` |
| Ics.DownloadFilename | lib/generateIcs.ts:49 | a truthy `filename` is used as given; otherwise the name is the title's default name, which ends in `.ics` after a stem as long as the title |
| Ics.DownloadIcsFile | lib/generateIcs.ts:43-49 | the content opens with `BEGIN:VCALENDAR` and closes with `END:VCALENDAR` (its full contents are stated by the round-trip lemma), the media type is `text/calendar;charset=utf-8`, and the file name is a truthy `filename` as given, else the title's default name |
| Ics.DownloadIcsFileRoundTrip | lib/generateIcs.ts:43-49 | the downloaded content reads back to the event |
| AddToCalendarButton.Region | components/add-to-calendar-button.tsx:42 | the region is the state when it is truthy and the country otherwise |
| AddToCalendarButton.RawLocation | components/add-to-calendar-button.tsx:42 | the template starts with the venue and a space, holds the address right after it, and ends with `, <city>, <region>`, five separator characters in all; a falsy venue or address leaves its slot empty |
| AddToCalendarButton.ComposeLocation | components/add-to-calendar-button.tsx:40-42 | an online event's location is `Online Event` |
| AddToCalendarButton.EventPageUrl | components/add-to-calendar-button.tsx:43 | the URL is the origin, then exactly `/events/`, then the slug |
| AddToCalendarButton.ToEventDetails | components/add-to-calendar-button.tsx:35-44 | title, description and both instants are copied unchanged, the location is the composed one, and the url is always set and truthy |
| AddToCalendarButton.AddToCalendar | components/add-to-calendar-button.tsx:46 | the click's file is named by the title's default name |
| AddToCalendarButton.OnlineLocationFixed | components/add-to-calendar-button.tsx:40-41 | an online location is `Online Event` whatever the venue, address, city, state and country |
| AddToCalendarButton.RawLocationShape | components/add-to-calendar-button.tsx:42 | the template ends with a comma, a space, the city, a comma, a space and the region, right after the venue, a space and the address |
| AddToCalendarButton.PhysicalLocationKeepsCity | components/add-to-calendar-button.tsx:42 | a physical location always holds `, <city>,`: trimming keeps the separators |
| AddToCalendarButton.PhysicalLocationEndsWithRegion | components/add-to-calendar-button.tsx:42 | when the region (state if truthy, else country) ends in a non-white-space character, the location ends with `, <city>, <region>` |
| AddToCalendarButton.PhysicalLocationWithoutAddress | components/add-to-calendar-button.tsx:42 | with neither venue nor address the location is `, <city>, <region>`, leading comma kept |
| AddToCalendarButton.PhysicalLocationUntrimmed | components/add-to-calendar-button.tsx:42 | with a truthy venue that starts, and a region that ends, with a non-white-space character, the location is the whole template: venue, a space, address, `, <city>, <region>` |
| AddToCalendarButton.PhysicalLocationTrimmed | components/add-to-calendar-button.tsx:42 | a physical location has no white space left to trim |
| AddToCalendarButton.PuneExample | components/add-to-calendar-button.tsx:42 | Pune in state MH with no venue or address gives `, Pune, MH` |
| AddToCalendarButton.AddToCalendarHasUrl | components/add-to-calendar-button.tsx:43 | the button's calendar always has 14 lines, with the event-page URL as the eleventh |
| AddToCalendarButton.AddToCalendarRoundTrip | components/add-to-calendar-button.tsx:35-46 | the button's file reads back to the clock reading, the page's instants to the second (in any order, unchecked), title, description, composed location and page URL |

## Left out

- The browser side of `downloadIcsFile` is not modelled: the Blob, the anchor element, `click()` and the object URL (lib/generateIcs.ts:45-55). It is DOM I/O. The model returns the content, media type and file name it would hand over.
- `Date.now()` and `window.location.origin` are parameters.
- The conversion from epoch milliseconds to UTC calendar fields inside `new Date(..)` is not modelled. It is a library call; the fields are taken as input.
- Years outside 0 to 9999 are not modelled. For them `toISOString` switches to a six-digit extended form.
- An invalid `Date` (from `NaN`) makes `toISOString` throw. The handler catches the error and shows a toast. Neither the throw nor the catch is modelled.
- Toasts, console logging and the React button markup are not modelled (components/add-to-calendar-button.tsx:47-64). They are UI effects.
- Strings are sequences of Unicode scalar values, whereas JavaScript strings are UTF-16 code units. A character outside the Basic Multilingual Plane is two code units, so JavaScript turns it into two dashes in the default file name; the model turns it into one.
- `toLowerCase` is modelled on ASCII only. This is exact here, because only ASCII letters and digits reach it.
- `${Date.now()}` is modelled as plain decimal. JavaScript switches to exponent notation at 10^21, long past any clock reading.
- The code does not fold lines at 75 octets (section 3.1 of RFC 5545) and does not escape `\r` or other control characters. The model does not claim either; a `\r` passes through `escapeText` unchanged.
- Ics.GenerateIcsLines: the split-back requires a url without a line feed. The url is written unescaped, so a line feed in it would break the line structure.
- Ics.GenerateIcsRoundTrip: the same requirement on the url applies.
- Ics.DownloadIcsFileRoundTrip: requires a url without a line feed, for the same reason.
- AddToCalendarButton.AddToCalendarRoundTrip: requires an origin and a slug without a line feed, because the page URL built from them is written unescaped.
- The server route that serves calendars (app/api/calendar/[slug]/route.js) is not part of this model. Neither are the email and payment actions, the event-generation API route or the footer, which hold no calendar logic.
