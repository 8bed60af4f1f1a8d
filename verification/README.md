# googleAPIShowcase in Dafny

A model of the Salesforce Lightning web component `googleAPIShowcase`. The component geocodes
an address with Google's Geocoding API, keeps a list of locations, asks Google's Distance
Matrix API for travel times between every pair of them, and reshapes the reply into a flat
list of displayed results. It can also remember the API key in a browser cookie.

Every handler is a pure function from the component's state (`Showcase.State`: key, remember
flag, address form, active tab, location counter `locIndex`, location list, reshaped matrix)
to the next state plus the effects it emits: toasts, cookie writes, errors reported by a
`.catch` block, and the request a submit handler sends. Server replies come in as parsed
values.

Files:

- `js_values.dfy`: optional values, numbers kept as their JavaScript text, thrown errors.
- `locations.dfy`: removing and editing locations by id, with the ordering facts.
- `distance_matrix.dfy`: `calcDistanceMatrix`, the reshape of a matrix reply.
- `cookies.dfy`: `getCookie`, with `String.prototype.split` written out.
- `showcase.dfy`: the state record, every handler, an event dispatcher and the id invariant.

Three behaviours of the code are easy to misread:

- Ids are not unique. `handle_AddLocation` uses the counter and then increments it. The
  geocode branch increments it first and then uses it. So an entry added right after a
  geocoded one gets the same id (`Showcase.AddAfterGeocodeReusesId`). What does hold is
  weaker: ids never decrease along the list, none exceeds the counter, and the counter never
  goes down (`Showcase.RunKeepsIds`).
- Removal is not "remove the first match". The code splices the array inside its own
  `forEach`, so the entry that slides into a deleted slot is skipped and kept
  (`Locations.RemoveSkipsAdjacentMatch`). When no two matches are adjacent, removal deletes
  every match (`Locations.RemoveMatchesWithout`).
- A reshaped record's `id` is the origin row index, not a running counter over all cells.
  For a 2×2 matrix the ids are 0, 0, 1, 1 (`DistanceMatrix.SquareMatrixIds`).

## Model

| member | source | states |
|---|---|---|
| Locations.Remove | force-app/main/default/lwc/googleAPIShowcase/googleAPIShowcase.js:177-185 | The result comes from deleting only entries with the key id, and survivors keep their order. Without a match the list is unchanged. With any match the list gets shorter. At most the matching entries are lost. |
| Locations.Update | force-app/main/default/lwc/googleAPIShowcase/googleAPIShowcase.js:188-201 | Length and every id are kept. Each matching entry gets the new lat/lng. Every other entry is unchanged. |
| Locations.DeletesOnlyKeepsOrder | force-app/main/default/lwc/googleAPIShowcase/googleAPIShowcase.js:177-185 | Removal takes no entry from elsewhere. It keeps a list sorted by id, and keeps it within any bound on ids. |
| Locations.RemoveMatchesWithout | force-app/main/default/lwc/googleAPIShowcase/googleAPIShowcase.js:177-185 | When no two matches are adjacent, removal equals the ideal filter that drops every entry with the key. |
| Locations.RemoveSingleMatch | force-app/main/default/lwc/googleAPIShowcase/googleAPIShowcase.js:177-185 | With exactly one match, the list shrinks by exactly one. |
| Locations.RemoveSkipsAdjacentMatch | force-app/main/default/lwc/googleAPIShowcase/googleAPIShowcase.js:179-183 | The entry right after a deleted match is kept whatever its id: it slides into the spliced slot and is never examined. Removal then resumes with the entries after it. |
| DistanceMatrix.Cell | force-app/main/default/lwc/googleAPIShowcase/googleAPIShowcase.js:263-282 | Converting one cell throws exactly when: the origin or destination index is past the end of the location list, or an "OK" cell lacks its duration or distance. |
| DistanceMatrix.CalcDistanceMatrix | force-app/main/default/lwc/googleAPIShowcase/googleAPIShowcase.js:258-288 | The reshape succeeds exactly when no cell throws, and then yields as many records as all rows have cells together. Where each record sits and what it holds is stated by CalcDistanceMatrixShape and CalcDistanceMatrixRecord. |
| DistanceMatrix.CalcDistanceMatrixShape | force-app/main/default/lwc/googleAPIShowcase/googleAPIShowcase.js:258-288 | The reshape succeeds exactly when no cell throws. It then yields one record per cell, as many as the cells of all rows together. The records are in row-major order: cell (i, j) follows the cells of rows before i and the earlier cells of row i. |
| DistanceMatrix.SquareMatrixIds | force-app/main/default/lwc/googleAPIShowcase/googleAPIShowcase.js:260-285 | For a readable 2×2 reply, the four records have ids 0, 0, 1, 1: the origin row index, not a running count. |
| DistanceMatrix.CalcDistanceMatrixRecord | force-app/main/default/lwc/googleAPIShowcase/googleAPIShowcase.js:264-282 | The record for cell (i, j) has id i and the cell's status verbatim. `from` and `to` are "lat,lng" of locations i and j of the same list. Missing addresses are undefined. An "OK" cell gives "<value> seconds" and "<value> meters". Any other status gives "N/A" for both. |
| Cookies.Split | force-app/main/default/lwc/googleAPIShowcase/googleAPIShowcase.js:314 | `String.prototype.split` with a non-empty separator: at least one part. That joining the parts with the separator restores the text is SplitJoin, and that no part holds the separator is SplitPartsFree. |
| Cookies.SplitJoin | force-app/main/default/lwc/googleAPIShowcase/googleAPIShowcase.js:314 | Joining the parts of a split with the separator gives back the text. |
| Cookies.SplitPartsFree | force-app/main/default/lwc/googleAPIShowcase/googleAPIShowcase.js:314 | No part produced by the split contains the separator. |
| Cookies.FirstSegment | force-app/main/default/lwc/googleAPIShowcase/googleAPIShowcase.js:316 | The first part of a split on ";" is a prefix of the text. It holds no ';' and is followed by ';' or by the end of the text. |
| Cookies.GetCookie | force-app/main/default/lwc/googleAPIShowcase/googleAPIShowcase.js:312-319 | A value comes back exactly when "; name=" has a lone occurrence in "; " + cookie, and it never holds a ';'. Which text the value is, is stated by GetCookieSpec. |
| Cookies.GetCookieSpec | force-app/main/default/lwc/googleAPIShowcase/googleAPIShowcase.js:312-319 | The lookup yields a value exactly when "; name=" has a lone occurrence in "; " + cookie: leftmost, with none starting after it ends. The value is the text after that occurrence up to, but not including, the next ';'. |
| Cookies.GetCookieFoundOnce | force-app/main/default/lwc/googleAPIShowcase/googleAPIShowcase.js:313-316 | If "; name=" occurs at exactly one position, the lookup yields a value. |
| Cookies.GetCookieAbsent | force-app/main/default/lwc/googleAPIShowcase/googleAPIShowcase.js:313-318 | If "; name=" does not occur, the lookup yields null. |
| Cookies.GetCookieDuplicate | force-app/main/default/lwc/googleAPIShowcase/googleAPIShowcase.js:313-318 | If "; name=" occurs twice without overlap, the lookup yields null. |
| Cookies.GetCookieOverlap | force-app/main/default/lwc/googleAPIShowcase/googleAPIShowcase.js:313-316 | Overlapping occurrences of "; name=" do not block the lookup: for the cookie text "a=; a=; a=" and the name "a=; a", the separator occurs at 0 and at 4, yet the split cuts only at 0 and the value is empty. |
| Showcase.FieldNames | force-app/main/default/lwc/googleAPIShowcase/googleAPIShowcase.js:54-70 | Each of the seven field names selects its own field. Any other name selects none. |
| Showcase.InputFieldChange | force-app/main/default/lwc/googleAPIShowcase/googleAPIShowcase.js:53-78 | An address field name changes only that address field. "googleapikey" changes only the key, and writes the key cookie for 365 days if remember is set. "rememberAPIKey" sets the flag, then writes the cookie or clears it. An unknown name changes nothing. |
| Showcase.ClearGeoCodeForm | force-app/main/default/lwc/googleAPIShowcase/googleAPIShowcase.js:92-100 | All five address fields become empty, and nothing else changes. |
| Showcase.ValidateGoogleAPIKey | force-app/main/default/lwc/googleAPIShowcase/googleAPIShowcase.js:243-255 | It returns true exactly when the key is non-empty, and then changes nothing. Otherwise it sets the active tab to "apiKey" and shows one error toast. |
| Showcase.GeoCodeSubmit | force-app/main/default/lwc/googleAPIShowcase/googleAPIShowcase.js:103-116 | A geocoding request is sent exactly when the key is present, and carries the key and the five address fields. |
| Showcase.GeoCodeCompleted | force-app/main/default/lwc/googleAPIShowcase/googleAPIShowcase.js:117-153 | On "OK" the counter is incremented first. One entry is then appended whose id is the new counter, and the tab becomes "travelTimes". Any other status only shows an error toast, and a rejection only reports the error. "OK" with no results moves the counter but adds no entry. |
| Showcase.AddLocation | force-app/main/default/lwc/googleAPIShowcase/googleAPIShowcase.js:167-174 | It appends exactly one entry (old counter, 0, 0) and keeps the earlier entries. The counter goes up by exactly 1, and nothing else changes. |
| Showcase.RemoveLocation | force-app/main/default/lwc/googleAPIShowcase/googleAPIShowcase.js:177-185 | Only the list changes, and it becomes the result of the component's removal. Only entries with the key id are deleted. Without a match the state is unchanged. With a match the list gets shorter. |
| Showcase.LocationInputChange | force-app/main/default/lwc/googleAPIShowcase/googleAPIShowcase.js:188-201 | Only the list changes. Its length and ids are kept. Each entry with the key id gets the new lat/lng, and every other entry is unchanged. |
| Showcase.ClearLocations | force-app/main/default/lwc/googleAPIShowcase/googleAPIShowcase.js:204-208 | The list becomes empty. The counter is not reset, and nothing else changes. |
| Showcase.TravelTimesSubmit | force-app/main/default/lwc/googleAPIShowcase/googleAPIShowcase.js:211-220 | A travel-time request is sent exactly when the key is present, and carries the key and the current list. |
| Showcase.TravelTimesCompleted | force-app/main/default/lwc/googleAPIShowcase/googleAPIShowcase.js:221-239 | Only the reshaped matrix can change. The success toast appears exactly when the reply reshapes without throwing, and the stored list is then exactly the reshape of the reply against the current location list, one record per cell. A throw leaves the state alone and reports the error. |
| Showcase.HandleKeepsIds | force-app/main/default/lwc/googleAPIShowcase/googleAPIShowcase.js:135-208 | Every handler keeps ids non-decreasing along the list and at most the counter. No handler moves the counter backwards. |
| Showcase.RunKeepsIds | force-app/main/default/lwc/googleAPIShowcase/googleAPIShowcase.js:159-208 | The same holds after any sequence of events. |
| Showcase.AddAfterGeocodeReusesId | force-app/main/default/lwc/googleAPIShowcase/googleAPIShowcase.js:135-173 | After a successful geocode followed by an add, the last two entries have the same id: the new counter. |

## Left out

- Server calls `geoCodeAddress` and `getTravelTimes`, and the promise plumbing. A submit returns the request it would send. The completion functions take the parsed reply or the rejection.
- `JSON.parse` and `JSON.stringify`. A reply that fails to parse is treated like a rejected call. The raw reply strings stored in `geoResults` and `dispatchMatrixResults` are not modelled.
- `ShowToastEvent` and `console.error` are recorded as abstract effects. A `.catch` block is one `ReportError` effect carrying the cause. The engine's wording of a TypeError message is not modelled; the cause names the property that was read from `undefined`.
- Cookie writing (`createCookie`, `setCookie`, `clearCookie`): it depends on the clock, `escape` and `document.cookie`. A write is the effect `CreateCookie(name, value, days)`, and `clearCookie` is the same write with an empty value and no days.
- Numbers: coordinates, durations and distances are kept as the text JavaScript prints for them. Floating point and number-to-string conversion are not modelled.
- `dataset.index` is a string compared with `==` against numeric ids. The model takes the key as the integer that comparison coerces it to.
- `connectedCallback`, which reads the cookie at start-up and may leave the key `null`. Also left out: `handle_setActiveTab`, `handle_addressInputChange` and the LWC decorators. The state's key is always a string; the empty string stands for a missing key.
- The getter `locations` at line 162 reads an undeclared variable. The field of the same name shadows it, so it is dead code.
- The parsed replies are assumed to have the JSON shape their code reads: `rows`, `elements`, the address arrays, and each geocode result's `geometry.location`. Of the missing-data cases, the model covers only those the code can meet with such a reply: no geocode results, a short location list, and an "OK" cell without duration or distance.
- Overlapping requests are not modelled as concurrency. Each completion takes the state current when its reply arrives, so the reshape reads the list as it is then, as the code does.
