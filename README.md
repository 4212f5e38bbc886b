# Car catalog search: a verified model

The application is a small car dealership catalog. A Go server reads brands,
models and cars from PostgreSQL. A browser form lets a visitor search cars by
brand, model, exact year and maximum price. This project models and proves the
search path end to end:

- **Browser side:** the form's submit guards (`validateForm`, the "at least one
  criterion" check, the two numeric checks) and `buildSearchUrl`. The latter
  appends only the non-empty fields to a `URLSearchParams`, in the order brand,
  model, year, price, and returns `/search?` followed by its serialization.
- **URL:** the `application/x-www-form-urlencoded` serializer the browser applies,
  over UTF-8. Also the server's query-string parser (Go's `ParseQuery` /
  `QueryUnescape` / `Values.Get`), which reads the four filters back.
- **Server side:** `getCars`'s query builder, which holds one `if` per filter and
  appends the value to the positional arguments and a condition numbered `$n` to
  the condition list. Then the row-collection loop that getBrands, getModels and
  getCars share: run the query, scan each row into a record, and check the
  cursor's final status.

Modules:

| module | file | models |
|---|---|---|
| `Wrappers` | wrappers.dfy | `Option`, `Result` |
| `Utf8` | utf8.dfy | bytes and the UTF-8 encoder (Go strings are byte strings) |
| `Strings` | strings.dfy | `strings.Join` |
| `Catalog` | catalog.dfy | `Brand`, `Model`, `Car`, cursors, `Failure`, the collection loop, getBrands, getModels |
| `FormUrlEncoded` | form_url_encoded.dfy | `URLSearchParams.toString()` |
| `QueryString` | query_string.dfy | the server's query-string parsing |
| `SearchQuery` | search_query.dfy | the getCars builder, its search plan, the filters a request carries, getCars |
| `SearchForm` | search_form.dfy | `buildSearchUrl`, `validateForm`, the submit handler, and the client-to-server round trip |

The database is a parameter of the read operations: a function from SQL text
and positional arguments to either a failed query or an open cursor. A cursor
is its rows (each one scans into a record or fails to) plus the error that
`rows.Err()` reports at the end. The Go filter values are byte strings, and they
are bound to placeholders unchanged. `isNaN` is the parameter `isNumeric` of the
submit handler, standing for `!isNaN`.

## Model

| member | source | states |
|---|---|---|
| Catalog.FirstScanError | main.go:139-144 | the loop's first failing row: none exactly when every row scans, otherwise the index of a failing row with every earlier row scanned |
| Catalog.CollectSucceeds | main.go:138-154 | a read over an open cursor succeeds exactly when every row scans and the cursor ends without error |
| Catalog.CollectRecords | main.go:138-146 | a successful read holds one record per row, each the row's scanned record, in cursor order |
| Catalog.CollectFailure | main.go:141-152 | a failed read reports the first row that failed to scan, and the cursor's final error only when every row scanned |
| Catalog.CollectRows | main.go:138-155 | the Next/Scan/append loop followed by the `Err` check computes the read specified by `Collect` |
| Catalog.Fetch | main.go:219-239 | a failed query is reported before any row is read; otherwise the rows are collected |
| Catalog.GetBrands | main.go:130-155 | reads every brand with the fixed `SELECT id, name FROM brands` and no argument |
| Catalog.GetModels | main.go:158-182 | reads every model with the fixed `SELECT id, brand_id, name FROM models` and no argument |
| Utf8.EncodeChar | static/js/search.js:81 | one code point becomes 1 to 4 bytes: a single byte equal to the code point exactly when it is ASCII, otherwise a lead byte followed by continuation bytes |
| Utf8.EncodeCharPayload | static/js/search.js:81 | the lead byte of a multi-byte sequence fixes its length, and the sequence's payload bits are the code point, so nothing is lost |
| Utf8.Encode | static/js/search.js:81 | the encoding is at least as long as the text and empty only for the empty text |
| Utf8.EncodeConcat | static/js/search.js:81 | encoding distributes over concatenation |
| Utf8.EncodeAscii | static/js/search.js:81 | ASCII text encodes byte for byte |
| Strings.Join | main.go:217 | a join starts with its first part and is at least as long as the separators between the parts |
| Strings.JoinEmpty | main.go:217 | joining with a non-empty separator yields the empty string exactly when there is no part or a single empty part |
| FormUrlEncoded.EncodeByte | static/js/search.js:81 | each byte is written as 1 to 3 characters, none of them a query separator or non-ASCII |
| FormUrlEncoded.Encode | static/js/search.js:77-81 | an encoded name or value contains no `&`, `=`, `;`, `?` or `#`, and is empty only when the input is |
| FormUrlEncoded.Serialize | static/js/search.js:81 | `params.toString()` is empty exactly when no parameter was appended |
| QueryString.Cut | main.go:115-118 | the part before the first separator has no separator, and around the separator the two parts rebuild the input; without a separator the input is returned whole |
| QueryString.CutAfter | main.go:115-118 | cutting a separator-free prefix, followed by the separator, returns exactly that prefix and the rest |
| QueryString.Unescape | main.go:115-118 | `QueryUnescape` never lengthens the text, and text without `%` always decodes, to as many bytes |
| QueryString.ParsePiece | main.go:115-118 | a piece gives at most one pair, none when it is empty or holds a `;`, and exactly one when it is non-empty and has neither `;` nor `%` |
| QueryString.ParseQuery | main.go:115-118 | `ParseQuery` keeps at most one pair per piece, so never more pairs than bytes |
| QueryString.Get | main.go:115-118 | `Values.Get` gives the value of the first pair with the name, and empty when no pair has it |
| QueryString.RawQuery | main.go:115-118 | the raw query is exactly what follows the target's first `?`, and empty when there is none |
| QueryString.UnescapeEncoded | main.go:115-118 | unescaping undoes the browser's percent-encoding of any byte string |
| QueryString.ParseSerialized | main.go:115-118 | the server parses a serialized parameter list back into the UTF-8 bytes of its names and values, in order |
| SearchQuery.Decimal | main.go:199 | the `%d` rendering of a placeholder number is non-empty, all digits, with no leading zero |
| SearchQuery.DecimalRoundTrip | main.go:199 | the placeholder number is recovered from its text |
| SearchQuery.AddFilter | main.go:197-215 | one `if` block: a non-empty value adds its argument and its condition numbered by the new argument count; an empty value changes nothing |
| SearchQuery.BuildSearchQuery | main.go:186-217 | the builder produces the search plan's arguments and the base query followed by its conditions joined with spaces |
| SearchQuery.PresentMembers | main.go:197-215 | a filter takes part in the search exactly when its value is non-empty |
| SearchQuery.PresentOrdered | main.go:197-215 | the filters used always come in the order brand, model, year, price, each at most once |
| SearchQuery.ArgumentsAreFilterValues | main.go:194-215 | there is one argument per non-empty filter, and it is that filter's value, unchanged |
| SearchQuery.ConditionsBindArguments | main.go:197-215 | condition k is its filter's format string with `$k`; placeholder k names argument k, which is that filter's value; only price is an upper bound |
| SearchQuery.QueryTextShape | main.go:186-217 | the SQL text is the base query followed by the used filters' conditions numbered `$1`, `$2`, … and separated by spaces |
| SearchQuery.TextIgnoresValues | main.go:186-217 | filter values never reach the SQL text: searches with the same filters set send the same text and the same number of arguments |
| SearchQuery.NoFiltersNonePresent | main.go:197-215 | no filter is set exactly when no filter takes part |
| SearchQuery.NoFiltersBaseQuery | main.go:186-217 | with every filter empty the search sends exactly the base query and no argument, and only then |
| SearchQuery.RequestFilters | main.go:115-118 | each of the four filters is the first value the request's query gives for its name, and empty when the name is absent |
| SearchQuery.GetCars | main.go:184-240 | the search runs the built query with its arguments and collects the cars, reporting the query, scan or iteration failure |
| SearchForm.BuildSearchUrl | static/js/search.js:75-82 | the URL is `/search?` followed by the serialization of the non-empty fields' parameters, in form order |
| SearchForm.ParamsIncluded | static/js/search.js:77-80 | a parameter is in the URL exactly when its field is non-empty, and the names come in the order brand, model, year, price |
| SearchForm.SearchUrlShape | static/js/search.js:81 | the URL always starts with `/search?`, and is exactly that when every field is empty |
| SearchForm.GetMissing | main.go:115-118 | a parameter whose field was left out reads back as empty on the server |
| SearchForm.GetKept | main.go:115-118 | a parameter whose field was filled reads back as the field's bytes on the server |
| SearchForm.ServerGet | main.go:115-118 | the server's lookup of each of the four names in the fetched URL yields the field's UTF-8 bytes |
| SearchForm.ServerReadsFields | main.go:115-118 | the filters the server reads from the URL the form fetches are the UTF-8 bytes of the four fields, empty exactly for the fields left out |
| SearchForm.ValidateForm | static/js/search.js:8-27 | the form is valid exactly when some field is non-empty, that is, exactly when the search URL would carry at least one parameter |
| SearchForm.Submit | static/js/search.js:29-57 | the guard chain: an all-empty form is rejected, then a non-numeric year, then a non-numeric price; otherwise the search URL of the fields is fetched |
| SearchForm.NoCriteriaUnreachable | static/js/search.js:41-44 | the handler's own "at least one criterion" check never fires, because `validateForm` has already rejected that case |
| SearchForm.EncodedFieldsFilter | main.go:115-118 | a form with some field filled yields server filters that are not all empty |
| SearchForm.SubmittedSearchIsFiltered | static/js/search.js:29-57 | any search the form sends reaches the server with the fields as filters: never all empty, never the unfiltered base query, and year and price numeric when present |

## Left out

- HTTP handlers: routing, CORS headers, the JSON encoding of the result, the template page, and the `nil` slice encoded as `null` for an empty result.
- Connection handling: `connectDB`, the pgx connection lifecycle and the five-second context timeout.
- Logging, and the texts that wrap each error. The model keeps the error's kind and the driver's cause.
- SQL execution and the join's semantics: the database is a parameter, and what rows it yields is not modelled.
- The Go `int` width of record ids, years and prices: they are unbounded integers. Rows that fail to fit are scan errors.
- `isNaN`: it is the parameter `isNumeric`, not JavaScript's number parsing.
- The DOM, `fetch`, the response handling and the rendering of results.
- static/js/models_label.js, the model-list refresh, is not part of this model.
- Lone surrogates in JavaScript strings: Dafny strings hold Unicode scalar values only, so the browser's replacement of lone surrogates is not modelled.
- The server-side URL parsing beyond the query: Go's request-target parse, its other rejections and its limit on the number of parameters. The raw query is the part after the first `?`.
- Re-encoding of the URL by the browser before it is sent: the serialized URL is already ASCII with no character the browser would escape.
- AddFilter: the four `if` blocks of the query builder are one method called with each filter's value and format string, instead of four copies of the same code.
