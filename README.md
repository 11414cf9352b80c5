# Plant monitor: firmware responses and dashboard update, in Dafny

The system is an Arduino plant monitor with a browser dashboard. The board
runs a small HTTP server. For every line feed a connected client sends, it
reads its sensors and prints one HTTP/1.1 response. The body of that
response is a one-line JSON object with two temperatures, a soil-moisture
percentage and a raindrop percentage. The dashboard fetches this text,
splits it into lines and keeps the lines that look like a JSON object. It
parses the last one and overwrites three readings and the light field of its "Ashwagandha"
entry.

This project models both ends and the text that passes between them.

- `optional.dfy` (module `Optional`): the usual `Option` type.
- `text.dfy` (module `Text`): trimming by a class of whitespace characters,
  used with JavaScript's whitespace for `trim` and with JSON's whitespace
  for `JSON.parse`, and JavaScript's `split` with its inverse `Join`. It
  also has the decimal rendering of an `int` (Arduino's `String(int)`), its
  reading back as a JSON integer, and the shape of a JSON number in
  fixed-point notation.
- `sensor_json.dfy` (module `SensorJson`): the JSON line in its fixed key
  order. It has a reader for that layout, which stands in for `JSON.parse`,
  and the round trip between the two. A line whose temperature is not a
  JSON number, such as `nan`, is rejected.
- `http.dfy` (module `Http`): the bytes that a sequence of `println` calls
  puts on the wire, each line ended by CR LF. It also has the shape of an
  HTTP/1.1 response message from section 2.1 of RFC 9112, where field names
  are tokens as defined in section 5.6.2 of RFC 9110.
- `firmware.dfy` (module `Firmware`): the part of `main/main.cpp` that
  handles requests.
  - `ConvertToPercentage` uses exact integers and truncates toward zero.
  - `OnRaining` is the rain threshold.
  - `SendHttpResponse` is a method that prints the six lines of a response
    to a `Client` object.
  - `ServeClient` is the `loop()` body: a `while` loop that reads the
    client's bytes one at a time, then stops the connection.
- `dashboard.dfy` (module `Dashboard`): the selection and the update in
  `fetchSensorData` of `ui/Main.js`.
  - The filter keeps the JSON-looking lines in order.
  - The last kept line is the one parsed.
  - The class `PlantDashboard` holds `plantData` as a map. Its method
    `FetchSensorData` changes that map in place.
- `end_to_end.dfy` (module `EndToEnd`): the dashboard reading one served
  connection. The browser takes the status line and the header lines of
  the first response. The response says `Connection: close` and gives no
  length, so its body runs to the close. The text the dashboard gets is
  therefore the first JSON line followed by every later response whole.
  When no line feed was answered, the connection closes empty and the fetch
  fails.

The sensor readings are inputs. `sensors(k)` is the raw sample behind the
k-th response of a connection. The fetched text and `JSON.parse` are
parameters of `FetchSensorData`.

## Model

| member | source | states |
|---|---|---|
| Firmware.TruncDiv | main/main.cpp:326 | the `static_cast<int>` of the quotient rounds toward zero: for a non-negative dividend the result is the floor, for a negative one the ceiling |
| Firmware.ConvertToPercentage | main/main.cpp:325-327 | when lowerBound < upperBound and the value lies within the bounds, the result lies in [MIN_PERCENTAGE, MAX_PERCENTAGE] = [1, 100], which is what the doc comment promises |
| Firmware.PercentageIsFloor | main/main.cpp:326 | for a value at or above lowerBound, the result is 1 + floor(99 * (value - lowerBound) / (upperBound - lowerBound)) |
| Firmware.PercentageEndpoints | main/main.cpp:326 | lowerBound maps to 1 and upperBound maps to 100 |
| Firmware.PercentageMonotone | main/main.cpp:326 | for fixed bounds the result never decreases as the value grows, inside the bounds or outside them |
| Firmware.PercentageInRangeExactly | main/main.cpp:55-78 | the result is in [1, 100] if and only if lowerBound <= value and 99 * (value - lowerBound) < 100 * (upperBound - lowerBound); the body clamps nothing, so only the caller's range keeps the result a percentage |
| Firmware.PercentageExamples | main/main.cpp:305-306 | for the raindrop bounds (0, 1024), readings 0, 512 and 1024 give 1, 50 and 100; for the moisture bounds (200, 500), 200 and 500 give 1 and 100, and a reading of 50 gives -48 |
| Firmware.AnalogRange | main/main.cpp:305-306 | for every 10-bit analog reading 0..1023, the moisture percentage lies in [-65, 272] and the raindrop percentage in [1, 99], so both fit a 16-bit `int` |
| Firmware.OnRaining | main/main.cpp:340 | it rains when the raw raindrop reading exceeds RAIN_THRESHOLD = 500 |
| Firmware.RainThreshold | main/main.cpp:340 | the threshold is strict: a reading of 500 is not rain, 501 is, and any higher reading than a rainy one is rain too |
| Firmware.Measure | main/main.cpp:294-306 | the temperatures pass through unchanged; raindrop is scaled over [0, 1024] and moisture over [WET_MOISTURE, DRY_MOISTURE]; each percentage lies in [1, 100] when its raw reading is within those bounds |
| SensorJson.JsonLine | main/main.cpp:309-314 | the JSON line starts with `{` and ends with `}` |
| SensorJson.FieldsTextSpelled | main/main.cpp:309-314 | between the braces, the four members `"temperatureC":`, `"temperatureF":`, `"moisture":`, `"raindrop":` come in that order, separated by commas |
| SensorJson.JsonLineByAppends | main/main.cpp:309-314 | the JSON line is the opening brace, then each `"key":value` member with its trailing comma (none after the last) appended in turn, then the closing brace |
| SensorJson.JsonLineIsOneLine | main/main.cpp:309-314 | when the temperature texts hold no line break, the JSON line holds none either |
| SensorJson.ParseReading | ui/Main.js:99 | a line accepted as a reading has `{` as the first character and `}` as the last once the JSON whitespace around it (space, tab, LF, CR) is removed, and both of its temperatures are JSON numbers |
| SensorJson.JsonRoundTrip | ui/Main.js:99 | parsing the firmware's JSON line, with any trailing JSON whitespace such as the CR of its line ending, gives back exactly the snapshot it was built from when both temperatures are numbers |
| SensorJson.NonNumberRejected | ui/Main.js:99 | the firmware's line for a temperature text that is not a JSON number, such as `nan`, and holds no comma or line break, is rejected, as `JSON.parse` throws on it |
| SensorJson.NotANumberText | main/main.cpp:310-311 | example texts for a value that is not finite, bare or space-padded (`nan`, `inf`, ` nan`, ` inf`), are not JSON numbers; the exact spelling of `String(float, 2)` is not modelled, and `NonNumberRejected` covers any spelling |
| SensorJson.NumberTextIsPlain | main/main.cpp:310-311 | a JSON number holds no comma and no line break, so it keeps the layout of the JSON line |
| SensorJson.OwnMembersSplit | ui/Main.js:99 | trimmed of trailing JSON whitespace and split at the commas between its braces, the firmware's line gives back its four members |
| Text.DecimalString | main/main.cpp:312-313 | `String(int)` is non-empty and made only of digits and a minus sign |
| Text.IsJsonFixedPoint | main/main.cpp:310-311 | a JSON number without exponent, as a finite float formatted with two decimals prints: an optional minus sign, an integer part without a superfluous leading zero, and optionally a point with digits |
| Text.FixedPointCharacters | main/main.cpp:310-311 | such a number is made of digits, a minus sign and a point only |
| Text.DecimalRoundTrip | main/main.cpp:312-313 | reading back the decimal text of any `int`, negative ones included, gives the same integer |
| Text.TrimStart | ui/Main.js:96 | what is kept is no longer than the input, and is empty or starts with a character outside the whitespace class |
| Text.TrimEnd | ui/Main.js:96 | what is kept is no longer than the input, and is empty or ends with a character outside the whitespace class |
| Text.Trim | ui/Main.js:96 | `line.trim()`: both ends trimmed of JavaScript's WhiteSpace and LineTerminator characters |
| Text.JsonTrim | ui/Main.js:99 | the text `JSON.parse` reads: both ends trimmed of the whitespace JSON allows around a value (section 2 of RFC 8259) |
| Text.TrimStartRemovesWhitespace | ui/Main.js:96 | trimming the start keeps a suffix and removes only characters of the class |
| Text.TrimEndRemovesWhitespace | ui/Main.js:96 | trimming the end keeps a prefix and removes only characters of the class |
| Text.TrimIgnoresTrailing | ui/Main.js:96 | a string whose ends are outside the class trims to itself even with characters of the class appended |
| Text.TrimKeepsSolidHead | ui/Main.js:96 | a string that starts with a character outside the class keeps that character first after trimming |
| Text.Split | ui/Main.js:95 | `split('\n')` gives one more piece than the text has line feeds, and no piece contains a line feed |
| Text.SplitJoin | ui/Main.js:95 | splitting undoes joining when no piece contains the separator |
| Text.JoinSplit | ui/Main.js:95 | joining undoes splitting |
| Http.Wire | main/main.cpp:317-322 | the bytes of lines printed with `println`: each line followed by CR LF |
| Http.SplitWire | main/main.cpp:317-322 | the wire text of lines printed with CR LF, split at LF, gives every line with its CR, then one empty piece |
| Firmware.HttpResponse | main/main.cpp:317-322 | the six printed lines of one response: status line, three headers, the empty line, the JSON line |
| Firmware.ResponseIsHttp | main/main.cpp:317-322 | every response is an HTTP/1.1 message with status code 200: a status line, three header field lines, the empty line, then the JSON line as the body |
| Firmware.ResponseLinesAreLines | main/main.cpp:317-322 | no line of a response holds a line feed when the temperature texts hold none |
| Firmware.Responses | main/main.cpp:273-279 | the lines printed for n line feeds: the responses built from sensors(0) to sensors(n - 1), in that order |
| Firmware.ResponsesStep | main/main.cpp:273-279 | answering one more line feed appends exactly one more response |
| Firmware.ResponsesLayout | main/main.cpp:273-279 | answering n line feeds prints 6n lines, and the j-th response, built from sensors(j), takes lines 6j to 6j+5 |
| Firmware.Client.constructor | main/main.cpp:267 | a newly accepted client holds the request bytes unread, has been sent nothing and has not been stopped |
| Firmware.Client.Available | main/main.cpp:273 | `connected() && available()`: true exactly while a received byte is still unread |
| Firmware.Client.Read | main/main.cpp:275 | `read()` returns the first unread byte and consumes it |
| Firmware.Client.Println | main/main.cpp:317-322 | `println` appends one line to what the client has been sent |
| Firmware.Client.Stop | main/main.cpp:282 | `stop()` is counted, records how many lines had been printed when it happened, and changes nothing else |
| Firmware.SendHttpResponse | main/main.cpp:293-323 | the method builds the JSON line by appending, then prints the six response lines in order: the status line, the three headers, the empty line and the JSON line; nothing else of the client changes |
| Firmware.ServeClient | main/main.cpp:273-282 | the loop consumes every request byte; it prints one full response per line-feed byte and nothing for other bytes; the connection is stopped exactly once, after the last printed line, with no line printed after the stop |
| Dashboard.LooksLikeJson | ui/Main.js:96 | `line.trim().startsWith('{') && line.trim().endsWith('}')` |
| Dashboard.Filter | ui/Main.js:96 | `filter` keeps no more lines than it is given, and every kept line satisfies the predicate |
| Dashboard.FilterAppend | ui/Main.js:96 | the filter keeps the original order: filtering a concatenation gives the concatenation of the filtered parts |
| Dashboard.FilterSingle | ui/Main.js:96 | a single line is kept exactly when the predicate holds of it |
| Dashboard.NoneKept | ui/Main.js:96 | nothing is kept from lines of which the predicate holds of none |
| Dashboard.JsonLines | ui/Main.js:96 | every kept line, after trimming, starts with `{` and ends with `}` |
| Dashboard.Last | ui/Main.js:99 | `xs[xs.length - 1]` is the last element, and it is undefined exactly when the array is empty |
| Dashboard.LastKeptIsLastQualifying | ui/Main.js:98-99 | nothing is selected exactly when no line qualifies; otherwise the selected line sits at the last qualifying position, and no later line qualifies |
| Dashboard.LastQualifyingIsKept | ui/Main.js:98-99 | conversely, a qualifying line with no qualifying line after it is the one selected |
| Dashboard.SelectLatest | ui/Main.js:95-99 | a line selected from the raw text, after trimming, starts with `{` and ends with `}` |
| Dashboard.InitialPlants | ui/Main.js:2-33 | the page starts with exactly three plants, Ashwagandha, Mint and Common Herbs, each with the entry the page declares for it |
| Dashboard.AfterFetch | ui/Main.js:91-115 | the plant data after one fetch: unchanged when the fetch fails, when no line qualifies, when the parse throws or when there is no Ashwagandha entry; otherwise Ashwagandha's three readings and its light field are replaced |
| Dashboard.UpdatedEntry | ui/Main.js:101-105 | when the selected line parses, only the Ashwagandha entry is replaced. Its temperature leads to reported Celsius minus ten, its humidity becomes 100 - raindrop, its soil moisture becomes 105 - moisture and its light becomes "N/A" |
| Dashboard.FetchTouchesOnlyLivePlant | ui/Main.js:101-105 | a fetch keeps the set of plants and leaves every entry other than Ashwagandha unchanged, Mint and Common Herbs among them |
| Dashboard.FetchWithoutJsonLine | ui/Main.js:98-115 | when no line qualifies, indexing yields undefined, parsing throws, the error is caught, and the plant data is unchanged |
| Dashboard.FetchUpdatesLivePlant | ui/Main.js:98-105 | when the last qualifying line parses, Ashwagandha takes its readings with the offsets above and keeps its ideal ranges, fact, status and image |
| Dashboard.DisplayedRanges | ui/Main.js:103-104 | a raindrop percentage in [1, 100] shows as a humidity in [0, 99]; a moisture percentage in [1, 100] shows as a soil moisture in [5, 104] |
| Dashboard.PlantDashboard.constructor | ui/Main.js:2-33 | `plantData` starts as the three initial plants |
| Dashboard.PlantDashboard.FetchSensorData | ui/Main.js:86-116 | the method splits the text, filters it, parses the last kept line and updates Ashwagandha in place; a failed fetch, no qualifying line or a failed parse leaves `plantData` as it was |
| EndToEnd.FetchedText | ui/Main.js:91-92 | the fetched text exists exactly when at least one line feed was answered; it is the first response's body, which runs to the close of the connection |
| EndToEnd.ResponsesAreLines | main/main.cpp:309-322 | no line printed on a connection holds a line feed when every sample's temperature texts hold none |
| EndToEnd.HeadersSkipped | ui/Main.js:96 | the status line, the three header lines and the empty line, each with its CR, do not pass the JSON filter |
| EndToEnd.OneResponseSelection | ui/Main.js:96 | of the six lines of one response, as split at LF, only the JSON line (with its CR) is kept |
| EndToEnd.HeadOfConnectionSkipped | ui/Main.js:96 | the first five lines printed on a connection, which the browser reads as the status line and headers, are not kept |
| EndToEnd.BodySelection | ui/Main.js:96 | after those five lines, exactly the n JSON lines are kept, the first one included, in the order they were sent |
| EndToEnd.WireSelection | ui/Main.js:95-96 | splitting and filtering the fetched text for n > 0 answered line feeds gives exactly the n JSON lines, in the order they were sent |
| EndToEnd.LatestOfConnection | ui/Main.js:91-99 | the dashboard selects the JSON line of the last response; after a request without line feeds the fetch fails |
| EndToEnd.ShownReading | ui/Main.js:99-105 | when the selected line is the firmware's line for a snapshot, Ashwagandha shows exactly that snapshot's readings with the offsets |
| EndToEnd.RejectedReading | ui/Main.js:99-115 | when the last JSON line carries a temperature that is not a number, the parse throws, the error is caught and the data is unchanged |
| EndToEnd.DashboardShowsLastResponse | ui/Main.js:101-105 | after a request without line feeds, or when a temperature of the last response is not a number, the data is unchanged; otherwise Ashwagandha shows the last response's readings, with a humidity in [0, 99] for a raw raindrop reading in [0, 1024] and a soil moisture in [5, 104] for a raw moisture reading in [200, 500] |
| EndToEnd.OneJsonLinePerLineFeed | main/main.cpp:273-282 | a served connection carries one JSON line to the dashboard for every line feed of the request, and no text at all without one |

## Left out

- Wi-Fi access-point bring-up and its retry loop, `server.begin` and `server.available`, and the `delay` calls (main/main.cpp:233-270, 288). They are hardware and network I/O.
- The 16-bit `int` of the board, an Arduino Uno WiFi Rev2 (main/main.cpp:325-327). The model uses unbounded integers. Analog readings lie in 0..1023 and the bounds are constants. So `value - lowerBound` stays within 16 bits, and the product with 99 is taken in floating point. The converted result stays within [-65, 272] (`Firmware.AnalogRange`): moisture 0 gives -65, moisture 1023 gives 272, and raindrop stays within [1, 99]. No behaviour is lost.
- `analogRead` and the TMP36 driver (main/main.cpp:295-302). The raw readings and the formatted temperatures are inputs, given as `RawSample`.
- The `String(float, 2)` formatting of the temperatures (main/main.cpp:310-311). The temperatures stay opaque text. The layout lemmas require that text to hold no comma and no line break. The round trip requires it to be a JSON number. Text that is not one and holds no comma or line break is shown to be rejected.
- Firmware.ConvertToPercentage: computes with exact rationals instead of a `double`, so no rounding error can push a quotient across an integer. Also, the doc comment claims that the function checks its bounds and its range, but the body checks neither. The model therefore takes only lowerBound < upperBound as a precondition, which the constant call sites meet. It states the range as a conditional postcondition plus an if-and-only-if lemma, because a moisture reading outside [200, 500] is possible and reaches the unchecked formula.
- The `onRaining()`/`notify` demonstration after `client.stop()` and the `test` helper (main/main.cpp:284-285, 329-344). They write only to the serial console. `OnRaining` is modelled on the raw reading, which is passed in.
- Firmware.ServeClient: treats the request bytes as all buffered before the loop starts. It does not model bytes arriving later or the peer disconnecting mid-request, and it answers `connected() && available()` from the buffer alone.
- `fetch`, `response.text()`, `async`/`await`, `setInterval`, `viewPlant`, `goBack` and the DOM refresh (ui/Main.js:36-64, 91-92, 107-112, 118-120). They are browser I/O and timers. The fetched text is a parameter, with `None` for a fetch that throws.
- SensorJson.ParseReading: accepts only the firmware's own layout: the four members in order, temperatures as JSON numbers without exponent, integer percentages, and JSON whitespace around the object. It rejects valid JSON in any other layout, such as other member orders, whitespace inside the object or exponents, so it is not a general JSON parser. `FetchSensorData` takes `JSON.parse` as any function from a line to a reading.
- The browser's reading of the HTTP message (ui/Main.js:91-92). The fetched text is the body of the first response, which runs from after its empty line to the close of the connection. Chunked encoding and redirects do not arise with this firmware and are not modelled.
- Dashboard.PlantDashboard.FetchSensorData: takes the parsed record to carry the four fields. Only a parse that throws is modelled. An object without them, which JavaScript would turn into NaN values, is not.
- Dashboard.UpdatedEntry: keeps the new temperature symbolic as `ReadingLessTen` of the reported text. `temperatureC - 10` is floating-point arithmetic.
- The `console.log` calls and the commented-out earlier version of `fetchSensorData` (ui/Main.js:67-84, 107). `ui/backend.js` is not part of this model.
