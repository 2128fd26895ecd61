# rn-gradient: the gradient engine in Dafny

This project models the gradient engine of rn-gradient, a web tool for designing linear
gradients. The tool exports a gradient in two forms:

- a CSS `linear-gradient(...)` string;
- a React Native `<LinearGradient .../>` declaration.

The repository carries two incompatible variants, and each has its own modules here:

- In `src/`, stop positions are fractions in [0, 1], stop colours must be `#RRGGBB`, and a
  gradient holds 2 to 5 stops.
- In `client/` and `shared/`, positions are percentages in [0, 100], colours are free text,
  and there is no upper bound on the number of stops.

Both variants share one `ColorStop`/`Gradient` shape (`GradientModel`). The modules are:

- `Js`: the JavaScript built-ins the engine relies on. It covers `Math.round`, `%` on
  integers, integer-to-string, `parseInt(s, 16)`, `toString(16)`, `padStart`, `toFixed(2)`,
  `<<` with 32-bit wrap-around, `join` and `split`.
- `StableSort`: the stable `sort((a, b) => a.position - b.position)`. It is specified by
  being sorted, being a permutation, and keeping the input order within every group of equal
  positions.
- `GradientModel`: stops, gradients, sorting by position, and `#RRGGBB` digit pairs.
- `ColorCodec`: the hex readers and writers. It covers `hexToRgb`, `rgbToHex` and the random
  colour.
- `ColorMath`: the shared arithmetic of the two HSB/HSL sector tables.
- `CssFrame`: the `linear-gradient(direction, stops)` frame and a reader for it. The reader
  is used to state that the generated CSS reads back.
- `SrcSchema` and `SharedSchema`: the two zod schemas, as parsers returning `Option`.
- `SrcGradient` and `ClientGradient`: the two `lib/gradient.ts` files. They cover the CSS and
  React Native generators, the random gradient and, in `src/`, the saved list kept in local
  storage.
- `SrcColorPicker` and `ClientColorPicker`: the two colour pickers.
- `JsMap` and `MemStorage`: a JavaScript `Map` with insertion order, and the server's
  in-memory store built on it.
- `SrcEditor` and `ClientEditor`: the state-update rules of the two `GradientGenerator`
  pages.

Nondeterminism is passed in as parameters:

- `Math.random()` is a sequence of draws in [0, 1), consumed in call order.
- `nanoid()` is a fresh id string.
- `new Date().toLocaleString()` is a stamp string.
- `Math.cos`/`Math.sin` are a `Trig` record of functions on degrees.
- Printing a non-integral number is a `fraction: real -> string` function.
- Local storage is a `Slot`: empty, holding text that does not parse, or holding a list.

The model follows the code in these behaviours, which a reader might expect to be otherwise:

- With the angle on, the `src/` React Native output starts at the centre (0.50, 0.50). It
  ends at the centre plus half a unit towards `angle % 360 - 90` degrees. It does not use a
  symmetric start/end pair.
- Malformed hex falls back to black in the client's `hexToRgba` instead of failing.
- There is no opacity field.
- The angle is not normalised before it is stored.
- `saveGradient` on the server throws on a missing id instead of assigning one.

## Model

| member | source | states |
|---|---|---|
| Js.Round | src/lib/gradient.ts:19 | `Math.round` gives the integer no more than a half above and less than a half below its argument |
| Js.IntRem | src/lib/gradient.ts:74 | `%` on integers truncates towards zero: the result lies strictly between -n and n, is never positive for a negative dividend, and is the ordinary remainder for a non-negative one |
| Js.IntRemTurn | src/lib/gradient.ts:74 | adding a full turn to a non-negative angle does not change `angle % 360` |
| Js.IntToStringRoundTrip | src/lib/gradient.ts:26 | an integer printed in decimal parses back to the same integer, so the printed angle and percentages determine the numbers |
| Js.IntToStringPlain | src/lib/gradient.ts:19-23 | a printed integer contains no `%`, comma, space or quote, so it cannot disturb the CSS separators |
| Js.ParseHexPair | src/components/ui/color-picker.tsx:194-196 | `parseInt` in base 16 of two hex digits is 16 times the first digit plus the second |
| Js.ParseHexNaN | src/components/ui/color-picker.tsx:194-196 | `parseInt` in base 16 of text that starts with a non-hex, non-space, non-sign character is NaN |
| Js.NatToHexPadded | src/components/ui/color-picker.tsx:264 | `toString(16).padStart(k, '0')` of a number below 16^k is exactly its k lowercase hex digits |
| Js.ToFixed2Half | src/lib/gradient.ts:85 | `(0.5).toFixed(2)` is `0.50` |
| Js.ToInt32 | client/src/components/ui/color-picker.tsx:34 | the 32-bit conversion under `<<` lies in the signed 32-bit range, differs from its argument by a multiple of 2^32, and leaves in-range values alone |
| Js.ShiftLeftSmall | client/src/components/ui/color-picker.tsx:34 | `x << k` is x times 2^k when that product fits in 31 bits |
| Js.QuotedListRoundTrip | src/lib/gradient.ts:64 | quoted items joined with `", "` read back as the same items when no item has a comma |
| Js.CountJoin | src/lib/gradient.ts:23 | the count of a character in a joined list is its count over the items plus its count in each separator |
| StableSort.SortBy | src/lib/gradient.ts:10 | the sort's result is ordered by key, is a permutation of the input, and keeps the input order within each group of equal keys |
| StableSort.SortedUnique | src/lib/gradient.ts:10 | two ordered lists with the same group for every key are equal, so the stable sort has exactly one possible result |
| StableSort.SortByKeyGroups | src/lib/gradient.ts:10 | inputs with the same group for every key sort to the same list |
| StableSort.SortPermutationInvariant | src/lib/gradient.ts:10 | with distinct keys, any two permutations of the stops sort to the same list |
| StableSort.SortSorted | client/src/lib/gradient.ts:25 | sorting a list that is already ordered leaves it unchanged |
| GradientModel.SortStops | src/lib/gradient.ts:10 | sorting the stops by position gives them in ascending position, as a permutation, with equal positions in input order |
| GradientModel.PairValue | src/lib/gradient.ts:16-18 | two hex digits spell a byte below 256 |
| GradientModel.MaxOf | src/pages/GradientGenerator.tsx:54 | `Math.max(...positions)` is one of the positions and is at least every position |
| GradientModel.MinOf | src/pages/GradientGenerator.tsx:55 | `Math.min(...positions)` is one of the positions and is at most every position |
| GradientModel.DropIndex | src/pages/GradientGenerator.tsx:92 | filtering out index i drops exactly that stop and keeps the others in order; an index out of range drops nothing |
| ColorCodec.HexToRgbLong | client/src/components/ui/color-picker.tsx:23-26 | a `#RRGGBB` colour reads as the bytes its three digit pairs spell |
| ColorCodec.HexToRgbShort | client/src/components/ui/color-picker.tsx:19-22 | a `#RGB` colour reads each digit doubled, that is 17 times the digit |
| ColorCodec.HashOptional | client/src/components/ui/color-picker.tsx:15 | one leading `#` is optional: the digits read the same with or without it |
| ColorCodec.HexInputChannels | client/src/components/ui/color-picker.tsx:13-30 | every text the hex pattern accepts reads as three numbers in 0..255, never NaN |
| ColorCodec.RgbToHexDigits | client/src/components/ui/color-picker.tsx:33-35 | for channels in 0..255, `rgbToHex` is `#` followed by the two-digit hex spellings of r, g and b in that order |
| ColorCodec.RgbToHexColor | client/src/components/ui/color-picker.tsx:33-35 | for channels in 0..255, `rgbToHex` gives `#` and exactly six lowercase hex digits |
| ColorCodec.RgbHexRoundTrip | client/src/components/ui/color-picker.tsx:13-35 | reading back what `rgbToHex` wrote gives the same three channels |
| ColorCodec.HexRgbRoundTrip | client/src/components/ui/color-picker.tsx:13-35 | writing back what `hexToRgb` read from a `#RRGGBB` colour gives that colour in lower case |
| ColorCodec.Sixteenth | src/lib/gradient.ts:108 | `Math.floor(Math.random() * 16)` is the index below 16 whose sixteenth of [0, 1) holds the draw |
| ColorCodec.RandomColor | src/lib/gradient.ts:104-111 | the random colour is `#` and six characters of `0123456789ABCDEF`, the k-th picked by the k-th draw |
| ColorMath.Scale255Monotone | src/components/ui/color-picker.tsx:256-258 | `Math.round(v * 255)` is monotone and maps [0, 1] into 0..255 |
| ColorMath.SecondaryRange | src/components/ui/color-picker.tsx:236 | the intermediate component x lies between 0 and the chroma |
| ColorMath.Extremes | src/components/ui/color-picker.tsx:239-259 | a sector assignment lifted by m has its largest channel at round(b * 255) and its smallest at round(m * 255) |
| CssFrame.CssTextCount | src/lib/gradient.ts:23-30 | when the direction has no `%`, the CSS text has as many `%` as the stop texts together |
| CssFrame.ReadCssText | src/lib/gradient.ts:23-30 | splitting the CSS text at commas recovers the direction and the stop pieces |
| SrcGradient.RgbaOfHexColor | src/lib/gradient.ts:14-19 | in rgba form a `#RRGGBB` colour prints its three digit pairs as decimal bytes with alpha `1` |
| SrcGradient.CssDirection | src/lib/gradient.ts:25-30 | with the angle on, the CSS opens with `<angle>deg`; with it off, it opens with `to bottom` and the angle has no influence |
| SrcGradient.StopTextPercent | src/lib/gradient.ts:19-21 | each stop prints with exactly one `%` (in hex form, when its colour has none) |
| SrcGradient.CssPercentCount | src/lib/gradient.ts:13-23 | the CSS holds exactly one `%` per stop |
| SrcGradient.CssStopOrder | src/lib/gradient.ts:10 | the CSS depends only on the sorted stops: lists with the same stops at every position, in the same relative order, give the same text |
| SrcGradient.CssPermutation | src/lib/gradient.ts:10 | with distinct positions, any reordering of the stops gives the same CSS |
| SrcGradient.ReadStopBack | src/lib/gradient.ts:21 | a hex stop prints as its colour, a space and its position times 100, rounded, then `%` |
| SrcGradient.ReadStopsBack | src/lib/gradient.ts:13-23 | the joined hex stop texts read back as every colour and rounded percentage, in list order |
| SrcGradient.CssReadBack | src/lib/gradient.ts:8-31 | hex CSS reads back as its direction and every stop's colour and rounded percentage, in ascending position order |
| SrcGradient.ValidCssReadBack | src/lib/gradient.ts:8-31 | every gradient the `src/` schema accepts reads back from its hex CSS |
| SrcGradient.PointDirection | src/lib/gradient.ts:72-75 | a start/end direction exists exactly when the angle is on |
| SrcGradient.LocationTexts | src/lib/gradient.ts:67-69 | location texts are produced exactly when they are asked for |
| SrcGradient.RnShape | src/lib/gradient.ts:61-94 | the code opens the component, lists the colours, has a `locations` line exactly when asked, and ends with the style line and `/>` |
| SrcGradient.RnLocationsLine | src/lib/gradient.ts:58-69 | with locations asked for, the line after the colours is `  locations={[...]}` listing String(position) of every stop, one per stop, in ascending position order |
| SrcGradient.RnColorsReadBack | src/lib/gradient.ts:42-64 | the colours line reads back as the hex colours in ascending position order |
| SrcGradient.StartEndValues | src/lib/gradient.ts:79-91 | with no direction the lines are `{ x: 0.5, y: 0 }` and `{ x: 0.5, y: 1 }`; with one, the start is `{ x: 0.50, y: 0.50 }` |
| SrcGradient.CentreLine | src/lib/gradient.ts:79-85 | the centre start point prints as `  start={{ x: 0.50, y: 0.50 }}` |
| SrcGradient.RnStartEnd | src/lib/gradient.ts:72-91 | with the angle off the code runs top to bottom whatever the angle and trigonometry; with it on it starts at the centre |
| SrcGradient.DirectionTurn | src/lib/gradient.ts:74-75 | a non-negative angle and the same angle one turn further give the same direction |
| SrcGradient.RnFullTurn | src/lib/gradient.ts:74-86 | a non-negative angle and the same angle one turn further produce the same code |
| SrcGradient.RnLinesCongruence | src/lib/gradient.ts:36-97 | the code depends on the gradient only through its stops and its start and end lines |
| SrcGradient.RnStopOrder | src/lib/gradient.ts:42 | like the CSS, the React Native code depends only on the sorted stops |
| SrcGradient.StopCount | src/lib/gradient.ts:117 | the number of stops drawn is 2, 3 or 4 |
| SrcGradient.RandomStops | src/lib/gradient.ts:119-126 | stop i gets a random colour from its six draws and position i / (n - 1) |
| SrcGradient.GenerateRandomGradient | src/lib/gradient.ts:102-135 | the random gradient has the given id, the name `Random Gradient`, the angle on, an angle in 0..359 from the first draw, and colours from the later draws |
| SrcGradient.EvenFraction | src/lib/gradient.ts:124 | the fractions i / (n - 1) lie in [0, 1], grow with i, and step by 1 / (n - 1) |
| SrcGradient.RandomStopsEven | src/lib/gradient.ts:119-126 | the random positions run from 0 to 1 in equal ascending steps |
| SrcGradient.RandomGradientShape | src/lib/gradient.ts:102-135 | the random gradient has 2 to 4 evenly spread stops from 0 to 1 that sorting leaves alone, and the schema accepts it |
| SrcGradient.IndexOfId | src/lib/gradient.ts:153 | `findIndex` gives the first position holding the id, or -1 exactly when no entry holds it |
| SrcGradient.IndexOfIdFirst | src/lib/gradient.ts:153 | the first position holding the id is the one `findIndex` returns |
| SrcGradient.GetSaved | src/lib/gradient.ts:173-185 | unavailable storage, a missing or empty entry, or text that does not parse all give the empty list |
| SrcGradient.SaveToSlot | src/lib/gradient.ts:140-168 | with storage unavailable or an unparsable entry nothing is written; on an empty entry the list becomes just this gradient |
| SrcGradient.SaveThenGet | src/lib/gradient.ts:153-161 | after a save the list holds the gradient: when some entry has its id, the first such entry (the `findIndex` match) is replaced in place and every other entry stays; when none has, the gradient is appended at the end; distinct ids stay distinct |
| SrcGradient.SaveIdempotent | src/lib/gradient.ts:140-168 | saving the same gradient twice is the same as saving it once |
| SrcGradient.RemoveId | src/lib/gradient.ts:200 | filtering by id never lengthens the list |
| SrcGradient.RemoveIdSpec | src/lib/gradient.ts:200 | after a delete no entry has the id, exactly the entries with other ids remain, and a list without the id is unchanged |
| SrcGradient.RemoveIdAppend | src/lib/gradient.ts:200 | filtering a concatenation filters each part |
| SrcGradient.DeleteFromSlot | src/lib/gradient.ts:190-207 | with storage unavailable, or no parsed list stored, a delete leaves the entry as it is |
| SrcGradient.DeleteAfterSave | src/lib/gradient.ts:140-207 | deleting is idempotent, and deleting a freshly saved new id restores the list as it was before the save |
| SrcGradient.ClearSlot | src/lib/gradient.ts:212-220 | after clearing, the saved list reads as empty; with storage unavailable nothing changes |
| ClientGradient.HexToRgbaLong | client/src/lib/gradient.ts:14-20 | a `#RRGGBB` colour prints as its three digit pairs in decimal with alpha `1` |
| ClientGradient.HexToRgbaShort | client/src/lib/gradient.ts:10-13 | a `#RGB` colour prints each digit doubled, that is 17 times its value |
| ClientGradient.HexToRgbaBlack | client/src/lib/gradient.ts:9-20 | any length other than 3 or 6 after the optional `#` silently gives `rgba(0, 0, 0, 1)`; the client picker's reader falls back the same way |
| ClientGradient.RgbaAgreesWithSrc | client/src/lib/gradient.ts:4-21 | on `#RRGGBB` colours the client's rgba text is the same as the `src/` one |
| ClientGradient.CssIgnoresUseAngle | client/src/lib/gradient.ts:33 | the client CSS always opens with `<angle>deg`, and `useAngle` has no influence on it |
| ClientGradient.StopTextPercent | client/src/lib/gradient.ts:28-30 | each stop prints with exactly one `%` when neither its colour nor its raw position has one |
| ClientGradient.CssPercentCount | client/src/lib/gradient.ts:28-33 | the CSS holds exactly one `%` per stop |
| ClientGradient.CssStopOrder | client/src/lib/gradient.ts:25 | the CSS depends only on the sorted stops |
| ClientGradient.CssPermutation | client/src/lib/gradient.ts:25 | with distinct positions any reordering of the stops gives the same CSS |
| ClientGradient.WholePositionsSorted | client/src/lib/gradient.ts:25 | sorting keeps whole-number positions whole |
| ClientGradient.ReadStopBack | client/src/lib/gradient.ts:30 | a stop at a whole position prints its colour and the raw, unrounded position followed by `%` |
| ClientGradient.CssReadBack | client/src/lib/gradient.ts:23-34 | hex CSS over whole positions reads back as `<angle>deg` and every stop's colour and position in ascending order |
| ClientGradient.StartEnd | client/src/lib/gradient.ts:65-70 | the start and end points are mirror images through the centre, spaced by the cosine and sine of 90 - angle |
| ClientGradient.StartEndInSquare | client/src/lib/gradient.ts:65-70 | when the cosine and sine lie in [-1, 1], both points lie in the unit square |
| ClientGradient.Locations | client/src/lib/gradient.ts:52 | every location is its stop's position divided by 100 |
| ClientGradient.LocationTexts | client/src/lib/gradient.ts:80-82 | location texts are produced exactly when asked for and there is at least one stop |
| ClientGradient.RnShape | client/src/lib/gradient.ts:55-87 | the code has the import, component and tag lines first and the style, close and export lines last, with a `locations` line exactly when asked for and a stop exists |
| ClientGradient.RnLocationsLine | client/src/lib/gradient.ts:51-82 | with locations asked for and a stop present, the line after the direction lines is `    locations={[...]}` listing String(position / 100) of every stop, one per stop, in ascending order |
| ClientGradient.RnDirection | client/src/lib/gradient.ts:60-78 | with the angle on, the lines are `useAngle={true}` and `angle={<angle>}` whatever the trigonometry; with it off they are the start and end points |
| ClientGradient.RnLinesCongruence | client/src/lib/gradient.ts:36-90 | the code depends on the gradient only through its stops and its two direction lines |
| ClientGradient.RnColorsReadBack | client/src/lib/gradient.ts:45-58 | the colours line reads back as the hex colours in ascending position order, single-quoted |
| ClientGradient.RnStopOrder | client/src/lib/gradient.ts:42 | the code depends only on the sorted stops |
| ClientGradient.StopCount | client/src/lib/gradient.ts:94 | the number of stops drawn is 2 or 3 |
| ClientGradient.RandomStops | client/src/lib/gradient.ts:98-104 | stop i gets a random colour and position round(i / (n - 1) * 100) |
| ClientGradient.GenerateRandomGradient | client/src/lib/gradient.ts:92-112 | the random gradient has the given id, no name, the angle off, an angle in 0..359, and colours from the draws |
| ClientGradient.RandomPositions | client/src/lib/gradient.ts:99 | two stops sit at 0 and 100, three at 0, 50 and 100 |
| ClientGradient.RandomStopsShape | client/src/lib/gradient.ts:98-104 | the random stops are ascending, schema-valid and `#RRGGBB` |
| ClientGradient.RandomGradientStops | client/src/lib/gradient.ts:92-104 | after the count draw, the stops consume the remaining draws six per colour |
| ClientGradient.RandomGradientShape | client/src/lib/gradient.ts:92-121 | the random gradient's stops sit at 0..100 in order, with `#RRGGBB` colours, sorting leaves them alone, and the shared schema accepts it |
| SharedSchema.Parse | shared/schema.ts:5-18 | an accepted gradient is valid and carries the input's fields, with `useAngle` defaulting to false; fewer than 2 stops, an angle outside [0, 360] or a position outside [0, 100] is rejected |
| SharedSchema.ParseAcceptsValid | shared/schema.ts:12-18 | a gradient is valid exactly when it parses to itself; id, name and `useAngle` may be omitted |
| SharedSchema.ColorUnchecked | shared/schema.ts:6 | any string is an acceptable colour: replacing a stop's colour keeps a valid gradient valid |
| SrcSchema.Parse | src/shared/schema.ts:4-20 | an accepted gradient is valid, with angle defaulting to 90 and `useAngle` to true; a missing id, a stop count outside 2..5, a colour that is not `#RRGGBB`, a position outside [0, 1] or an angle outside [0, 360] is rejected |
| SrcSchema.ParseAcceptsValid | src/shared/schema.ts:14-20 | a gradient is valid exactly when it parses to itself; angle and `useAngle` may be omitted |
| SrcSchema.ShorthandRejected | src/shared/schema.ts:5-7 | a three-digit shorthand colour is rejected |
| JsMap.HasKeys | server/storage.ts:49-63 | `has(k)` holds exactly when k is among the keys |
| JsMap.GetSet | server/storage.ts:49-55 | after `set(k, v)`, k reads v and every other key reads what it read before |
| JsMap.SetKeys | server/storage.ts:49-59 | a set on a present key keeps the key order; a set on a new key appends it |
| JsMap.SetIdempotent | server/storage.ts:49 | setting the same value twice is the same as setting it once |
| JsMap.SetValid | server/storage.ts:49 | a set keeps the keys distinct |
| JsMap.DeleteSpec | server/storage.ts:61-63 | `delete` answers whether the key was present, removes it, keeps every other key's value and the order of the rest |
| JsMap.ValuesInKeyOrder | server/storage.ts:57-59 | the i-th value is what the i-th key reads |
| JsMap.ClearEmpty | server/storage.ts:65-67 | a cleared map has no keys, no values and reads nothing |
| MemStorage.Empty | server/storage.ts:21-25 | a new store starts valid |
| MemStorage.ByUsernameSpec | server/storage.ts:31-35 | the user found by name is a stored user with that name and the first created; none is found exactly when no user has the name |
| MemStorage.CreateUserSpec | server/storage.ts:37-42 | a created user gets the old counter as a fresh id and is found under it; the counter grows by one and nothing else changes |
| MemStorage.CreateUserValid | server/storage.ts:37-42 | creating a user keeps the store valid |
| MemStorage.CreateAll | server/storage.ts:37-42 | users created one after another get consecutive ids from the counter |
| MemStorage.IdsIncrease | server/storage.ts:37-42 | user ids are strictly increasing in creation order |
| MemStorage.SaveFails | server/storage.ts:44-47 | a save fails exactly when the gradient's id is missing or empty |
| MemStorage.SaveThenGet | server/storage.ts:44-55 | a successful save returns the gradient, keeps the store valid, makes the id read it back and leaves other ids and users alone |
| MemStorage.SavedEntries | server/storage.ts:49 | every gradient stays stored under its own non-empty id after a save |
| MemStorage.SavePosition | server/storage.ts:49-59 | re-saving an id keeps its place in the listing; a new id is listed last |
| MemStorage.SaveIdempotent | server/storage.ts:44-51 | saving the same gradient twice is the same as saving it once |
| MemStorage.DeleteGradientSpec | server/storage.ts:61-63 | delete answers whether the id was stored; afterwards it is not, other ids read as before and the store stays valid |
| MemStorage.DeleteAllEmpty | server/storage.ts:65-67 | after deleting everything nothing is listed and no id reads a gradient |
| MemStorage.ListingMatchesIds | server/storage.ts:57-59 | each listed gradient is what its own id reads |
| SrcColorPicker.HexToRgbOfColor | src/components/ui/color-picker.tsx:193-198 | on `#RRGGBB` the fixed slices read the three digit pairs, as the client's reader does |
| SrcColorPicker.HexToRgbShort | src/components/ui/color-picker.tsx:193-198 | text of five characters or fewer leaves the blue slice empty, so blue is NaN |
| SrcColorPicker.HueRange | src/components/ui/color-picker.tsx:209-221 | the hue is a whole number of degrees in [0, 360) |
| SrcColorPicker.RgbToHsbGrey | src/components/ui/color-picker.tsx:209-226 | brightness is the largest channel over 255; a grey has hue 0 and saturation 0; black has saturation 0 |
| SrcColorPicker.RgbToHsbRange | src/components/ui/color-picker.tsx:200-227 | byte channels give a whole hue in [0, 360) and saturation and brightness in [0, 1] |
| SrcColorPicker.HexToHsbValid | src/components/ui/color-picker.tsx:229-232 | every `#RRGGBB` colour converts to an in-range HSB value |
| SrcColorPicker.Sector | src/components/ui/color-picker.tsx:239-253 | every sector assigns c, x and 0 to the three channels in some order |
| SrcColorPicker.SectorShaped | src/components/ui/color-picker.tsx:236-253 | with 0 <= x <= c the sector's largest component is c and its smallest 0 |
| SrcColorPicker.ChromaRange | src/components/ui/color-picker.tsx:235 | the chroma b * s lies between 0 and b |
| SrcColorPicker.HsbToRgbExtremes | src/components/ui/color-picker.tsx:234-260 | the largest channel is round(b * 255) and the smallest round((b - c) * 255) |
| SrcColorPicker.HsbToRgbRange | src/components/ui/color-picker.tsx:234-260 | in-range HSB gives three channels in 0..255 |
| SrcColorPicker.FullTurnHue | src/components/ui/color-picker.tsx:241-253 | hue 360 falls in the last sector and gives the same channels as hue 0 |
| SrcColorPicker.HsbToHexIsRgbToHex | src/components/ui/color-picker.tsx:262-265 | `hsbToHex` prints the channels exactly as the client's `rgbToHex` would |
| SrcColorPicker.HsbToHexColor | src/components/ui/color-picker.tsx:262-265 | `hsbToHex` gives `#` and six lowercase hex digits that read back as the channels |
| SrcColorPicker.ExtremesRoundTrip | src/components/ui/color-picker.tsx:229-265 | converting `#RRGGBB` to HSB and back keeps its largest and smallest channel exactly |
| SrcColorPicker.GreyRoundTrip | src/components/ui/color-picker.tsx:193-265 | a grey converts to HSB and back to the same colour in lower case |
| SrcColorPicker.UpdateSaturation | src/components/ui/color-picker.tsx:42-51 | the clamped pointer sets saturation to x and brightness to 1 - y, keeps the hue, and keeps HSB in range |
| SrcColorPicker.UpdateHue | src/components/ui/color-picker.tsx:84-91 | the clamped pointer sets the hue to x * 360 in [0, 360] and keeps saturation and brightness |
| SrcColorPicker.States | src/components/ui/color-picker.tsx:42-118 | from an in-range start, every state a run of pointer events passes through is in range, one state per event |
| SrcColorPicker.ReportedColors | src/components/ui/color-picker.tsx:31-36 | opening on a `#RRGGBB` colour and moving the pointer reports one `#RRGGBB` colour per state |
| ClientColorPicker.HslGrey | client/src/components/ui/color-picker.tsx:80-98 | when the largest and smallest channel agree, hue and saturation are 0 |
| ClientColorPicker.HueOfRange | client/src/components/ui/color-picker.tsx:87-98 | adding 6 when red is largest and g < b keeps the unrounded hue in [0, 360) |
| ClientColorPicker.SaturationRange | client/src/components/ui/color-picker.tsx:79-85 | the saturation of byte channels lies in [0, 1] |
| ClientColorPicker.HslRange | client/src/components/ui/color-picker.tsx:70-102 | byte channels give slider values within the sliders' ranges |
| ClientColorPicker.FullTurnReached | client/src/components/ui/color-picker.tsx:89-100 | rounding can reach hue 360, for example from (255, 0, 1) |
| ClientColorPicker.HslOfInput | client/src/components/ui/color-picker.tsx:66-103 | every text the hex pattern accepts gives slider values in range |
| ClientColorPicker.Sector | client/src/components/ui/color-picker.tsx:139-152 | every sector assigns c, x and 0 to the three channels in some order |
| ClientColorPicker.SectorShaped | client/src/components/ui/color-picker.tsx:139-152 | with 0 <= x <= c the sector's largest component is c and its smallest 0 |
| ClientColorPicker.ChromaBounds | client/src/components/ui/color-picker.tsx:135-137 | for slider values in range, the chroma and m are non-negative and m + c is at most 1 |
| ClientColorPicker.HslToRgbExtremes | client/src/components/ui/color-picker.tsx:133-156 | the largest channel is round((m + c) * 255) and the smallest round(m * 255) |
| ClientColorPicker.HslToRgbRange | client/src/components/ui/color-picker.tsx:133-156 | slider values in range give three channels in 0..255 |
| ClientColorPicker.ZeroSaturationGrey | client/src/components/ui/color-picker.tsx:133-156 | saturation 0 gives a grey whatever the hue |
| ClientColorPicker.FullTurnHue | client/src/components/ui/color-picker.tsx:133-158 | hue 360 gives the same channels and colour as hue 0 |
| ClientColorPicker.UpdateColorHex | client/src/components/ui/color-picker.tsx:133-160 | a slider move forwards `#` and six lowercase hex digits that read back as the computed channels |
| ClientColorPicker.ShorthandExpands | client/src/components/ui/color-picker.tsx:105-112 | a forwarded `#RGB` reads as each digit doubled and prints back as the six-digit colour |
| ClientColorPicker.PaletteColors | client/src/components/ui/color-picker.tsx:45-50 | every palette swatch is a `#RRGGBB` colour |
| ClientColorPicker.StepValid | client/src/components/ui/color-picker.tsx:105-166 | one control event keeps the sliders in range; what it forwards matches the hex pattern and is what the text field shows; typed text is forwarded exactly when it matches |
| ClientColorPicker.SlidValid | client/src/components/ui/color-picker.tsx:115-161 | a slider move keeps the new slider values and forwards the colour it shows |
| ClientColorPicker.ForwardedValid | client/src/components/ui/color-picker.tsx:105-166 | every colour a run of control events forwards matches the hex pattern |
| ClientColorPicker.SessionColors | client/src/components/ui/color-picker.tsx:37-166 | a picker opened on a hex colour starts in range and forwards only hex colours |
| SrcEditor.ChangeAngle | src/pages/GradientGenerator.tsx:32-34 | an angle edit changes only the angle (also client/src/pages/GradientGenerator.tsx:42-47) |
| SrcEditor.ToggleUseAngle | src/pages/GradientGenerator.tsx:37-39 | a toggle changes only `useAngle` (also the client page's lines 115-120) |
| SrcEditor.ChangeColorStop | src/pages/GradientGenerator.tsx:42-46 | changing stop i replaces only index i; all other stops and fields stay (also the client page's lines 49-56) |
| SrcEditor.RemoveColorStop | src/pages/GradientGenerator.tsx:89-94 | removing does nothing at 2 or fewer stops or out of range; otherwise exactly stop i goes and the rest keep order (also the client page's lines 77-87) |
| SrcEditor.WidestFromSpec | src/pages/GradientGenerator.tsx:65-74 | the gap scan ends holding the first of the widest positive gaps, or none when no gap is positive |
| SrcEditor.SortedPositionsSpec | src/pages/GradientGenerator.tsx:64 | the sorted positions are ascending and hold the same values |
| SrcEditor.GapWithin | src/pages/GradientGenerator.tsx:62-77 | with positions in [0, 1] the gap midpoint, or the default 0.5, lies in [0, 1] |
| SrcEditor.ChoosePositionSpec | src/pages/GradientGenerator.tsx:57-77 | the chosen position is new; it lies above all positions when the largest is below 1, below all when the largest is at least 1 and the smallest above 0, and in [0, 1] when they are |
| SrcEditor.NewPositionFresh | src/pages/GradientGenerator.tsx:53-77 | the new stop's position differs from every existing position |
| SrcEditor.NewPositionSides | src/pages/GradientGenerator.tsx:58-61 | the new position lies past the last stop, or before the first, in the first two cases |
| SrcEditor.NewPositionWithin | src/pages/GradientGenerator.tsx:57-77 | with positions in [0, 1] the new position lies in [0, 1] |
| SrcEditor.StopColorHex | src/pages/GradientGenerator.tsx:80 | the random stop colour is `#` and six lowercase hex digits spelling floor(d * 16777215), which is below 16777215 |
| SrcEditor.SixDigitColor | src/pages/GradientGenerator.tsx:80 | `toString(16).padStart(6, '0')` of a 24-bit number gives a `#RRGGBB` colour of its six hex digits |
| SrcEditor.AddColorStop | src/pages/GradientGenerator.tsx:49-86 | at 5 or more stops nothing changes; otherwise the new stop is appended after the unchanged stops, with the random colour at the position NewPosition chooses (so ChoosePositionSpec, NewPositionSides and NewPositionWithin apply to it) |
| SrcEditor.AddedStopIsNew | src/pages/GradientGenerator.tsx:49-86 | the appended stop's position differs from every earlier stop's |
| SrcEditor.AddedStopValid | src/pages/GradientGenerator.tsx:79-82 | the new stop satisfies the `src/` stop schema |
| SrcEditor.AddKeepsValid | src/pages/GradientGenerator.tsx:49-86 | adding keeps a schema-valid gradient valid |
| SrcEditor.EditsKeepValid | src/pages/GradientGenerator.tsx:31-94 | angle edits in range, toggles, removals and schema-valid stop changes keep a valid gradient valid |
| SrcEditor.SaveNamed | src/pages/GradientGenerator.tsx:103-115 | the gradient saved always has a non-blank name; a non-blank name is kept, nothing else changes, and the saved gradient is in the list shown afterwards |
| ClientEditor.RoundToWhole | client/src/pages/GradientGenerator.tsx:63 | `Math.round` gives a whole number within a half of its argument |
| ClientEditor.AddColorStop | client/src/pages/GradientGenerator.tsx:58-75 | adding gives one stop more, in ascending position, the old stops plus the `#8B5CF6` stop at the rounded midpoint; nothing else changes |
| ClientEditor.MidWithin | client/src/pages/GradientGenerator.tsx:60-63 | with positions in [0, 100] the rounded midpoint lies in [0, 100] |
| ClientEditor.AddedStopsFrom | client/src/pages/GradientGenerator.tsx:68-74 | every stop after the add is an old stop or the new one |
| ClientEditor.AddKeepsValid | client/src/pages/GradientGenerator.tsx:58-75 | adding keeps a valid gradient valid (there is no upper bound) and whole positions whole |
| ClientEditor.Save | client/src/pages/GradientGenerator.tsx:93-100 | a save puts a copy with the fresh id in front and keeps the older entries in order |
| ClientEditor.SaveKeepsDistinct | client/src/pages/GradientGenerator.tsx:93-100 | a fresh id keeps the saved ids distinct |
| ClientEditor.DeleteSpec | client/src/pages/GradientGenerator.tsx:106-109 | a missing or empty id leaves the list alone; otherwise no entry keeps the id and all others stay |
| ClientEditor.DeleteUndoesSave | client/src/pages/GradientGenerator.tsx:93-109 | deleting a freshly saved gradient by its id restores the list as it was before the save |
| ClientEditor.ClearAllEmpty | client/src/pages/GradientGenerator.tsx:111-113 | after clearing, the list is empty, a delete finds nothing and the next save leaves one entry |

## Left out

- Numbers are exact reals, not IEEE-754 doubles, so subtraction, multiplication and `Math.round` never round in binary. Where the source's double arithmetic lands just beside an exact tie, the model decides the tie differently. SrcEditor.NewPosition: a tie between gaps is decided exactly. For stops at 0, 0.2, 0.6 and 1 the model takes the first widest gap and puts the new stop at 0.4. In doubles, 0.6 - 0.2 is 0.39999999999999997, so the loop at src/pages/GradientGenerator.tsx:68-74 picks the last gap and 0.8. SrcGradient.ReadStopBack and SrcGradient.CssReadBack: a position on a half percent rounds up exactly. 0.285 (the new stop between 0, 0.57 and 1) prints as 29% in the model, while `Math.round(0.285 * 100)` at src/lib/gradient.ts:21 is `Math.round(28.499999999999996)`, which is 28. The same holds for the `Math.round` calls of both colour pickers (src/components/ui/color-picker.tsx:219,256-258 and client/src/components/ui/color-picker.tsx:100-102,154-156) when a product lands one binary unit below a half.
- Strings are sequences of characters, not of UTF-16 code units. JavaScript's `length` and indexing count code units, so on text with characters outside the Basic Multilingual Plane the length tests of the hex readers (client/src/lib/gradient.ts:10,14 and client/src/components/ui/color-picker.tsx:19,23) can take a different branch than the model does; hex colours are ASCII, where the two agree.
- NaN and infinities in numbers are not modelled. Reading a hex text that contains a NaN pair is `None` in `SrcColorPicker.HexToHsb`, where the source would carry NaN on and print `#NaNNaNNaN`.
- The React Native trigonometry (`Math.cos`, `Math.sin`) is a parameter. `toFixed(2)` is exact on reals, with no binary floating-point rounding.
- Printing a non-integral position (`${0.25}`, `locations.join`) is a parameter, because JavaScript's shortest round-trip decimal printing of doubles is not modelled.
- `Math.random()`, `nanoid()` and `new Date().toLocaleString()` are parameters.
- Local storage I/O, `isLocalStorageAvailable` and JSON text are not modelled. The entry is a `Slot` that is empty, holds text that does not parse, or holds a list. A stored list that parses but is not an array of gradients is not modelled.
- ClientEditor.AddColorStop: requires at least one stop. On an empty list `Math.max()` and `Math.min()` give infinities and the new stop's position would be NaN; both schemas demand two stops.
- SrcEditor.AddColorStop: requires at least one stop. On an empty list `Math.max()` gives `-Infinity` and the new stop's position would be `-Infinity`; the schema demands two stops.
- SrcEditor.ChangeColorStop: requires an index inside the list. An index past the end makes a JavaScript sparse array, which has no counterpart here.
- The pointer rectangle and DOM events of the `src/` picker are not modelled. The events are the pointer's fractions across and down the area, which the model clamps as the source does.
- The client picker's sliders hand `parseInt` of the slider text to the handlers. The model takes the slider value as an integer.
- The parent's `onChange` feeding the colour back into the picker and re-running the initialisation effect is not modelled. Neither are the `useState` starting values (hue 0, saturation 100, lightness 50).
- Users beyond the id counter and the lookup by name are not modelled. The HTTP routes and `index.js`, which repeats the server store, are left out.
- The `src/` page's load and randomise handlers and its delete and clear handlers are left out; they only call the library operations modelled in `SrcGradient`. So are the client page's load and randomise handlers and its effects that copy the list to and from local storage.
- SrcColorPicker.ExtremesRoundTrip: it does not claim a bound of one unit per channel for HSB round trips. Only the largest and smallest channels are proved to come back exactly, and greys come back exactly. The hue is rounded to whole degrees, so the middle channel can move.
- Angles are integers, since the controls and the random generator only produce whole degrees.
