# WellRESTed core: route matchers, message headers, response transmission

A Dafny model of three parts of the WellRESTed PHP library, with proofs of
what each part promises:

- **Route matchers.** `PrefixRoute` stores its target without trailing `*`
  characters. It matches a request target that starts with the stored target,
  using PHP's `strrpos` with a negative offset. `RegexRoute` asks the
  regular-expression engine (`preg_match`) about the request target. It
  clears its stored captures on every call and stores the engine's whole
  capture array when there is a match. It fails with
  `Invalid regular expression: <target>` when the engine reports an invalid
  pattern.
- **Message headers.** `Message` is an immutable HTTP message. Every `with*`
  operation clones the message and changes the copy. Header names are compared
  case-insensitively, but each field keeps the spelling of the name it was
  stored under. `withHeader` replaces a header, `withAddedHeader` appends to it,
  and `withoutHeader` removes it. `getHeaderLine` joins the values with `", "`.
  `withHeader` and `withAddedHeader` validate the header name and values
  before they copy the message. The constructor and `withoutHeader` validate
  nothing.
- **Transmission.** `Transmitter` adds a `Content-length` header when the
  response has none, is not sent `chunked`, and has a body of known size. Its
  doc comments also require a readable body, but the code does not test that
  (see "Findings"). It then emits the status line, then one `header()` call per
  header value in stored order, where only the first value of each field
  replaces. It emits the body last, and only when the body is readable.

Files, one module each: `wrappers.dfy` (`Option`, `Result`), `php_strings.dfy`
(strtolower, strval on integers, join, strrpos, string truthiness),
`header_collection.dfy` (the header store), `message.dfy` (`Message`),
`route.dfy` (route kinds), `prefix_route.dfy`, `regex_route.dfy`,
`transmitter.dfy`.

Modelling choices:

- The header store's PHP class is not part of this model. It is represented as
  an ordered list of fields (stored name, values). Names are distinct up to
  case, and no field lacks values (`WellFormed`). Assigning to a name appends
  one value; the first assignment creates the field at the end, under the name
  used then. That a later assignment under a different case keeps the first
  spelling is an assumption about the store class, which the files modelled
  here do not settle; `Set`, the first clause of `AppendSpelling` and
  `BuildHeadersSpelling` rest on it. `unset` removes the field. The store is
  a value, so the deep copy made by `__clone` comes for free.
- `Stream` is seen only through `size: Option<int>` and `readable: bool`. The
  default body `new Stream('')` is taken to be readable with size 0.
- A response is a `Message` plus a status code and a reason phrase. The
  `Response` class itself is not part of this model.
- `preg_match` is a parameter of `RegexRoute.MatchesRequestTarget`: a function
  from (pattern, subject) to `Matched(captures) | NoMatch | MatchError`.
- PHP's `header()` and the body output are an append-only log,
  `Transmitter.output`. The header loop of `transmit` is the method
  `EmitHeaders`. The steps after preparation (status line, headers, body) are
  the method `Emit`. `Transmit` calls `PrepareResponse`, computes the status
  line and reads the headers, then calls `Emit`.
- `strrpos` follows PHP 7: it returns false for an empty haystack or an empty
  needle. So a prefix route whose target was all `*` (stored target `""`)
  matches nothing (`EmptyTargetNeverMatches`). PHP 8 would match every target.
  This is the only case where the two versions differ.
- `RegexRoute` stores and returns `preg_match`'s whole capture array, group 0
  and the numbered groups included. The captures are kept on the route and
  read back through `getPathVariables`.
- Header-name spelling is tracked through `Lookup`, which gives the field a
  name finds: the spelling it is stored under, as `getHeaders()` reports it,
  and its values.

## Model

| member | source | states |
|---|---|---|
| `PrefixRoutes.NewPrefixRoute` | src/Routing/Route/PrefixRoute.php:10-13 | the stored target is `rtrim(target, '*')` |
| `PrefixRoutes.RTrim` | src/Routing/Route/PrefixRoute.php:12 | the result is a prefix of the input, does not end in the trimmed character, and everything cut off was that character |
| `PrefixRoutes.StoredTargetStripsStars` | src/Routing/Route/PrefixRoute.php:12 | the original target is the stored one followed by only `*`s, so every trailing `*` is removed and nothing else changes |
| `PrefixRoutes.NoStarUnchanged` | src/Routing/Route/PrefixRoute.php:12 | a target not ending in `*` is stored unchanged |
| `PrefixRoutes.GetType` | src/Routing/Route/PrefixRoute.php:15-18 | a prefix route has type `Prefix` |
| `PrefixRoutes.MatchesRequestTarget` | src/Routing/Route/PrefixRoute.php:26-29 | the strrpos test with offset `-strlen(requestTarget)`; it holds only for a non-empty stored target that the request target starts with |
| `PhpStrings.LastOccurrence` | src/Routing/Route/PrefixRoute.php:28 | the result is the greatest position in the range where the needle occurs, and None means no position in the range has it |
| `PhpStrings.StrRPos` | src/Routing/Route/PrefixRoute.php:28 | a found position is an occurrence, at or after a non-negative offset, and at most `length + offset` for a negative one |
| `PrefixRoutes.MatchesIffStartsWith` | src/Routing/Route/PrefixRoute.php:26-29 | with a non-empty stored target, the strrpos test holds exactly when the request target starts with the stored target |
| `PrefixRoutes.ExactTargetMatches` | src/Routing/Route/PrefixRoute.php:28 | a request target equal to the stored target matches (empty remainder) |
| `PrefixRoutes.LongerTargetNeverMatches` | src/Routing/Route/PrefixRoute.php:28 | a stored target longer than the request target never matches |
| `PrefixRoutes.EmptyTargetNeverMatches` | src/Routing/Route/PrefixRoute.php:28 | an empty stored target matches nothing (PHP 7 strrpos refuses an empty needle) |
| `PrefixRoutes.GetPathVariables` | src/Routing/Route/PrefixRoute.php:31-37 | a prefix route's path variables are always empty |
| `PrefixRoutes.CatsExample` | src/Routing/Route/PrefixRoute.php:10-29 | `/cats/*` is a prefix route storing `/cats/`; it matches `/cats/42/toys` and not `/dogs/42` |
| `RegexRoutes.RegexRoute.constructor` | src/Routing/Route/RegexRoute.php:13 | a new route keeps its target and has no captures |
| `RegexRoutes.RegexRoute.GetType` | src/Routing/Route/RegexRoute.php:15-18 | a regex route has type `Pattern` |
| `RegexRoutes.RegexRoute.MatchesRequestTarget` | src/Routing/Route/RegexRoute.php:26-37 | on a match: true, and the captures are the engine's whole capture array; on no match: false and no captures; on an engine error: the `Invalid regular expression: <target>` failure and no captures |
| `RegexRoutes.RegexRoute.GetPathVariables` | src/Routing/Route/RegexRoute.php:45-48 | returns the stored captures without changing the route |
| `RegexRoutes.MatchTwice` | src/Routing/Route/RegexRoute.php:28-36 | after two attempts on one route, the result and the path variables depend on the second attempt only, so no capture of the first survives |
| `HeaderCollection.Find` | src/Message/Message.php:126 | the result is the first field whose name equals the given one up to case; None means there is no such field |
| `HeaderCollection.IssetIff` | src/Message/Message.php:124-127 | a name is set exactly when some field has that name up to case |
| `HeaderCollection.GetNonEmpty` | src/Message/Message.php:145-146 | in a well-formed store a name has values exactly when it is set |
| `HeaderCollection.Get` | src/Message/Message.php:146 | `$headers[$name]`: an unset name gives no values |
| `HeaderCollection.Lookup` | src/Message/Message.php:143-150 | the field a name finds is in the store, has that name up to case, and holds the name's values; there is one exactly when the name is set |
| `HeaderCollection.Set` | src/Message/Message.php:46 | assignment adds a field exactly when the name was not set, and otherwise keeps the number of fields |
| `HeaderCollection.SetLookup` | src/Message/Message.php:46 | after assignment the name's field keeps the spelling it had, or is spelled as given when new, and holds the old values followed by the new one |
| `HeaderCollection.SetLookupOther` | src/Message/Message.php:46 | assignment leaves every other name's field, spelling and values, as it was |
| `HeaderCollection.SetExisting` | src/Message/Message.php:46 | assigning to a set name extends that field in place |
| `HeaderCollection.SetGet` | src/Message/Message.php:46 | assigning appends the value to that name's values and leaves every other name's values unchanged |
| `HeaderCollection.SetWellFormed` | src/Message/Message.php:46 | assignment keeps names distinct up to case and fields non-empty |
| `HeaderCollection.SetAllGet` | src/Message/Message.php:198-200 | assigning a list of values appends them in order and leaves other names unchanged |
| `HeaderCollection.SetAllWellFormed` | src/Message/Message.php:222-224 | assigning a list of values keeps the store well-formed |
| `HeaderCollection.SetAll` | src/Message/Message.php:222-224 | assigning a list keeps every field and adds at most one per value |
| `HeaderCollection.SetAllExisting` | src/Message/Message.php:222-224 | assigning a list to a set name extends that field in place, at the same position and with the same spelling |
| `HeaderCollection.SetAllNew` | src/Message/Message.php:198-200 | assigning a list to a name that is not set appends one field, spelled as given, holding the list |
| `HeaderCollection.SetAllLookup` | src/Message/Message.php:222-224 | after assigning a non-empty list the name's field keeps its old spelling, or the given one when new, and holds the old values followed by the list |
| `HeaderCollection.SetAllLookupOther` | src/Message/Message.php:222-224 | assigning a list leaves every other name's field as it was |
| `HeaderCollection.UnsetGet` | src/Message/Message.php:237 | after unset the name has no values and every other name keeps its own |
| `HeaderCollection.UnsetRemoves` | src/Message/Message.php:237 | after unset the name is not set |
| `HeaderCollection.UnsetWellFormed` | src/Message/Message.php:197 | unset keeps the store well-formed |
| `HeaderCollection.Unset` | src/Message/Message.php:237 | unset never adds a field |
| `HeaderCollection.UnsetLookupOther` | src/Message/Message.php:237 | unset leaves every other name's field, spelling and values, as it was |
| `HeaderCollection.ReplaceGet` | src/Message/Message.php:197-200 | unset followed by assigning values leaves exactly those values under the name; other names keep theirs |
| `HeaderCollection.ReplaceWellFormed` | src/Message/Message.php:197-200 | replacement keeps the store well-formed |
| `HeaderCollection.Replace` | src/Message/Message.php:197-200 | unset and then assignment leave the other fields in their order and put the name's field last, spelled as given, holding exactly the new values; with no values the field is just gone |
| `HeaderCollection.ReplaceKeepsSpelling` | src/Message/Message.php:181-202 | after replacement the name finds a field spelled exactly as given, holding the new values, or none for no values |
| `HeaderCollection.ReplaceLookupOther` | src/Message/Message.php:197-200 | replacement leaves every other name's field, spelling and values, as it was |
| `Messages.Message.constructor` | src/Message/Message.php:35-51 | the headers are every value of every entry assigned in order, a lone string counting as a one-value list; the body defaults to the empty stream and the version is `1.1` |
| `Messages.BuildHeadersValues` | src/Message/Message.php:41-48 | after construction a name's values are those of all entries with that name up to case, in order |
| `Messages.BuildHeadersWellFormed` | src/Message/Message.php:41-48 | construction yields a well-formed store |
| `Messages.FirstEntry` | src/Message/Message.php:41-48 | the first constructor entry whose name is the same as n up to case and that gives it a value; None when there is none |
| `Messages.BuildHeadersSpelling` | src/Message/Message.php:41-48 | after construction a name is present exactly when some entry gives it a value, and its field is spelled as the first such entry's name |
| `Messages.Message.Clone` | src/Message/Message.php:53-56 | a clone has the same version, body and an independent copy of the headers |
| `Messages.Message.WithProtocolVersion` | src/Message/Message.php:77-82 | a new message with the given version and the same headers and body; the receiver is unchanged |
| `Messages.Message.GetHeaders` | src/Message/Message.php:107-114 | returns every field in stored order, under its stored name |
| `Messages.Message.HasHeader` | src/Message/Message.php:124-127 | true exactly when some field has the name up to case |
| `Messages.HeaderValues` | src/Message/Message.php:143-150 | an absent name gives no values |
| `Messages.HeaderValuesNonEmpty` | src/Message/Message.php:143-150 | in a well-formed store, getHeader is non-empty exactly when the header is present |
| `Messages.Message.GetHeader` | src/Message/Message.php:143-150 | no values for an absent header; in a valid message, non-empty exactly when the header is present |
| `Messages.Message.GetHeaderLine` | src/Message/Message.php:172-179 | `""` for an absent header, otherwise the getHeader values joined with `", "` |
| `Messages.HeaderLine` | src/Message/Message.php:172-179 | the line is the values joined with `", "`, and `""` for an absent name |
| `PhpStrings.Join` | src/Message/Message.php:175 | joining no parts gives `""`, one part gives that part |
| `PhpStrings.JoinAppend` | src/Message/Message.php:175 | joining one more part adds the separator and that part at the end |
| `Messages.Message.WithHeader` | src/Message/Message.php:193-202 | fails exactly when validation fails, with its error; otherwise a new message whose headers are the old ones with the name replaced by the validated values; the receiver is unchanged |
| `Messages.ReplaceEffect` | src/Message/Message.php:181-202 | after withHeader, getHeader(name) is exactly the new values and the name is present only if there are any; the field is stored under exactly the spelling passed in, which getHeaders() reports; every other field, spelling and values, is unchanged |
| `Messages.Message.WithAddedHeader` | src/Message/Message.php:217-226 | fails exactly when validation fails; otherwise a new message with the validated values appended under the name |
| `Messages.AppendSpelling` | src/Message/Message.php:204-226 | after withAddedHeader a header already present keeps its spelling, a new one is stored under the name passed in, and every other field is unchanged |
| `Messages.AppendEffect` | src/Message/Message.php:217-226 | after withAddedHeader, getHeader(name) is the old values followed by the new ones; other headers are unchanged |
| `Messages.AppendLine` | src/Message/Message.php:172-179 | adding one value to a present header extends its line by `", "` and the value |
| `Messages.Message.WithoutHeader` | src/Message/Message.php:234-239 | a new message without the name and otherwise equal; the receiver is unchanged |
| `Messages.UnsetEffect` | src/Message/Message.php:234-239 | after withoutHeader the header is absent and every other field keeps its spelling and values |
| `Messages.Message.WithBody` | src/Message/Message.php:260-265 | a new message with the given body and the same headers and version |
| `Messages.GetValidatedHeaders` | src/Message/Message.php:276-296 | a non-string name fails with `Header name must be a string`; otherwise the call succeeds exactly when every value (a non-array counting as a one-element list) is a string or a number, or fails with `Header values must be a string or string[]`; on success there is one string per value |
| `Messages.StrVal` | src/Message/Message.php:295 | strval keeps a string and writes an integer in a decimal form that reads back to it |
| `Messages.ValidatedValuesKeepInput` | src/Message/Message.php:295 | the converted values are in input order, strings unchanged, integers in a decimal form that parses back to the integer |
| `PhpStrings.NatToString` | src/Message/Message.php:295 | the decimal form is non-empty, all digits, and has no leading zero |
| `PhpStrings.IntToString` | src/Transmission/Transmitter.php:86 | the decimal form starts with `-` exactly for negative numbers |
| `PhpStrings.IntToStringRoundTrip` | src/Transmission/Transmitter.php:86 | an integer's decimal form parses back to the integer |
| `PhpStrings.ParseNatToString` | src/Transmission/Transmitter.php:98 | the digits of a natural number parse back to it |
| `PhpStrings.Lower` | src/Transmission/Transmitter.php:82 | strtolower keeps the length and lower-cases each character |
| `Transmission.Transmitter.PrepareResponse` | src/Transmission/Transmitter.php:71-90 | the headers become `PreparedHeaders`, with the readability test of lines 75-79 added (see Findings); the status, reason, body and version are kept; the very same response is returned when no length is needed |
| `Transmission.NeedsContentLengthAsWritten` | src/Transmission/Transmitter.php:81-85 | the test as written holds only for a body that reports a size and a response without Content-length values |
| `Transmission.PreparedHeadersAsWritten` | src/Transmission/Transmitter.php:81-89 | as written: unchanged headers when the test fails; otherwise the last field is `Content-length` holding the size in decimal |
| `Transmission.UnreadableBodyGetsLength` | src/Transmission/Transmitter.php:81-88 | as written, a response with no headers and an unreadable body of size 5 emits the status line and `Content-length: 5` and no body |
| `Transmission.NeedsContentLength` | src/Transmission/Transmitter.php:75-85 | the documented test: exactly the tested conditions plus a readable body |
| `Transmission.PreparedHeaders` | src/Transmission/Transmitter.php:81-89 | corrected: the code's three conditions plus a readable body; unchanged headers when no length is needed; otherwise the last field is `Content-length`, spelled as the code writes it, holding the size in decimal |
| `Transmission.AddedLengthAnnouncesBody` | src/Transmission/Transmitter.php:56-88 | a Content-length that preparation adds comes with a readable body, which transmit outputs last, and holds that body's size |
| `Transmission.PreparedAddsSize` | src/Transmission/Transmitter.php:81-88 | corrected: when the conditions hold and the body is readable, `Content-length` gets one value, the body size in decimal, under the spelling `Content-length`, and every other header is unchanged |
| `Transmission.PreparedAsWrittenAddsSize` | src/Transmission/Transmitter.php:81-88 | as written: whenever the code's three conditions hold, readable body or not, `Content-length` gets one value, the body size in decimal, under the spelling `Content-length`, and every other header is unchanged |
| `Transmission.PreparedUnchanged` | src/Transmission/Transmitter.php:81-89 | corrected: when any condition fails or the body is unreadable the headers are unchanged |
| `Transmission.PreparedIdempotent` | src/Transmission/Transmitter.php:81-89 | preparing a prepared response changes nothing more |
| `Transmission.ChunkedIsExactMatch` | src/Transmission/Transmitter.php:82 | `gzip, chunked` does not count as chunked, while `CHUNKED` alone does, in any case |
| `Transmission.StatusLine` | src/Transmission/Transmitter.php:92-102 | the line starts with `HTTP/`, ends with the reason phrase when it is truthy, and otherwise ends with the decimal status code |
| `Transmission.StatusLineReadsBack` | src/Transmission/Transmitter.php:92-102 | the status line is `HTTP/`, the version, a space and the decimal code that parses back to the code; a space and the reason phrase follow exactly when the phrase is truthy (not `""` or `"0"`) |
| `Transmission.FieldLines` | src/Transmission/Transmitter.php:51-54 | one header call per value of the field |
| `Transmission.Transmitter.EmitHeaders` | src/Transmission/Transmitter.php:49-55 | the log grows by one `name: value` call per value, field by field, with replace true only for a field's first value |
| `Transmission.Transmitter.Emit` | src/Transmission/Transmitter.php:46-60 | the log grows by the given status line (replacing), then the header lines of the fields in order, then the body if readable |
| `Transmission.Transmitter.Transmit` | src/Transmission/Transmitter.php:39-61 | the log grows by the emission of the prepared response |
| `Transmission.OneReplacePerField` | src/Transmission/Transmitter.php:49-55 | a well-formed store yields exactly one replacing header call per field |
| `Transmission.ReplaceCountAppend` | src/Transmission/Transmitter.php:49-55 | replacing calls of consecutive output add up |
| `Transmission.HeaderLinesConcat` | src/Transmission/Transmitter.php:49 | the header lines of consecutive runs of fields follow each other |
| `Transmission.EmissionShape` | src/Transmission/Transmitter.php:46-60 | the status line comes first and replaces, the body is last exactly when readable, and there is one more replacing call than there are fields |
| `Transmission.Transmitter.constructor` | src/Transmission/Transmitter.php:13-14 | a new transmitter has chunk size 0 and has output nothing |
| `Transmission.Transmitter.SetChunkSize` | src/Transmission/Transmitter.php:66-69 | only the chunk size changes, to the given value |

## Left out

- The router, dispatcher, method map, route factory, the `Route` base class and the static and template routes are not part of this model.
- Route construction records only the target. The method map a route is built with is not modelled.
- The regular-expression engine: `preg_match` is an opaque parameter, and nothing is assumed about PCRE semantics.
- The header store class and the `Stream` class are represented only by what the messages and the transmitter observe.
- `Transmitter::outputBody` (src/Transmission/Transmitter.php:104-116) is recorded as one `BodyOutput` entry. The chunked read loop needs stream behaviour that is not modelled, and printing is output.
- The dispatcher given to the `Transmitter` constructor (src/Transmission/Transmitter.php:18-24) is not modelled, because transmission never uses it.
- `getProtocolVersion` and `getBody` are plain reads of the `protocolVersion` and `body` fields.
- Header values that are floats are not modelled, because `is_numeric` and `strval` on floats are floating-point formatting. Values are strings, integers, booleans, null or arrays.
- `Messages.Message.constructor` takes names as strings and values as a string or a list of strings. PHP turns integer-like array keys into integers, and a scalar non-string value makes `foreach` warn and skip; neither is modelled.
- PHP warnings and notices are not modelled.
- The key order of the array `getPathVariables()` returns is not modelled: captures are a `map` from group number or name to the captured text.
- `Transmission.Transmitter.PrepareResponse` and `Transmission.Transmitter.Transmit` use the corrected readability test described under "Findings". The code as written is modelled by `NeedsContentLengthAsWritten` and `PreparedHeadersAsWritten`.
- `Transmission.PreparedHeaders` states the corrected rule of "Findings" (a readable body is also required); the code as written is `PreparedHeadersAsWritten`.
- `Transmission.PreparedAddsSize` covers readable bodies only, under the corrected rule; the length the code also adds for an unreadable body with a size is stated by `PreparedAsWrittenAddsSize`.
- `Transmission.PreparedUnchanged` counts an unreadable body with a size among the unchanged cases, under the corrected rule; the code as written adds a length there (`UnreadableBodyGetsLength`).

## Findings

| source | as written | input that shows it | evidently intended | confidence | as-written member | corrected member |
|---|---|---|---|---|---|---|
| src/Transmission/Transmitter.php:81-88 | `prepareResponse` adds `Content-length` whenever the body reports a size. It never calls `isReadable()`, although the doc comments at lines 31-34 and 75-79 list "readable and reports a non-null size" as a condition. | A response with no headers and an unreadable body of size 5: `Content-length: 5` is sent, and `transmit` outputs no body (line 58). | Add the length only for a readable body, the only kind `transmit` outputs. | medium, not executed | `Transmission.UnreadableBodyGetsLength` | `Transmission.AddedLengthAnnouncesBody` |
