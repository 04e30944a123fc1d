# Cell-value formatter: a verified model

This project models the value formatter of a telemetry table
(`src/examples/format.js`). A caller first asks the dispatcher
`getHandlerFuncs` for the handler of a field type, then applies that handler
to a raw cell value and a format pattern. The value may be null, a string, a
number, a boolean or a list. The handler returns what the table shows.

There are four families of handlers:

- **Identifier decoders.** They read a packed unsigned 64-bit network
  identifier, given as decimal text, and take fields out of it with masks and
  shifts:
  - the NE number, which is the PLMN times 10^9 plus the ECI;
  - the eNodeB and sector of an ECI;
  - the four fields of a GUMMEI.
- **Text shapers.** These are zero padding, IMEI grouping and the decimal
  count of a float pattern.
- **List, enumeration and boolean handlers.**
- **`general`.** It shows null as "N/A" and passes anything else through
  unchanged. Most handlers fall back on it; the coordinate handler applies it
  to each element instead.

The model has six modules:

- `Bits` defines unsigned arithmetic on `nat`: the bitwise AND, right shifts,
  and the lemmas that turn a mask of low one-bits into a remainder.
- `Text` defines the JavaScript string operations the handlers use:
  `padStart`, `indexOf`, `split`, `join`, `slice`, `substr`, `parseInt`, and
  numbers written in a radix.
- `Values` defines the raw value, JavaScript's `String(v)` and truthiness,
  `general`, and the host operations, which are taken as parameters.
- `Decoders` holds the identifier arithmetic.
- `Handlers` holds one member per handler.
- `Dispatch` holds the registry, `getHandlerFuncs`, and the handlers'
  null policy as a whole.

The IMEI handler updates its running offset and its result string piece by
piece. It is therefore a method with a loop, proved against the specification
function `ImeiText`. Everything else in the source is a pure expression and is
modelled by functions and lemmas.

Notes on what the code does, which the model follows:

- **What a handler returns.** A handler can return the raw value itself. The
  branches that fall back on `general` return a non-null value unchanged, and
  every other branch returns a string, so the model's handlers return a
  `RawValue`.
- **IMEI group lengths.** The IMEI pattern's groups are measured by their
  *length*, not read as numbers. "xx-xxxx-xxxxxx-x" cuts "123456789012345"
  into "12-3456-789012-3" (`ImeiExample`). The pattern "2-4-6-1" is four
  one-character groups and gives "1-2-3-4" (`ImeiDigitPattern`).
- **The integer-list handler.** It is defined beside the others but is
  missing from the registry, so no field type selects it
  (`GetHandlerFuncs` never returns `IntegerList`).
- **Null values.** Not every handler is total on null. The coordinate
  handler reads the value's length, and the padding and IMEI handlers call
  string methods under a non-empty pattern. These are stated as
  preconditions, gathered in `Dispatch.Admissible`.
- **The GUMMEI MCC.** The comment at line 127 names the MCC field
  `(val & 0xfff000000000)>>36`, but the code slices every hexadecimal digit
  above bit 36, which is `v >> 36`. The two agree only below 2^48. From 2^48
  up the MCC text has more than three digits: v = 2^48 gives the MCC "1000",
  where the commented field is 0. The model follows the code.

## Model

| member | source | states |
|---|---|---|
| `Values.General` | src/examples/format.js:176-179 | null is shown as "N/A"; any other value is returned unchanged; the result is never null |
| `Text.PadStart` | src/examples/format.js:36 | `padStart`: the result is as long as s or n, whichever is more, ends with s, and every added character is the fill character |
| `Text.PadStartIdempotent` | src/examples/format.js:36 | padding a padded string again changes nothing |
| `Text.IndexOf` | src/examples/format.js:61 | `indexOf` is -1 exactly when the character is absent, else the position of its first occurrence |
| `Text.Split` | src/examples/format.js:47 | `split` gives at least one piece and no piece holds the separator |
| `Text.SplitJoin` | src/examples/format.js:47 | splitting the join of separator-free pieces gives the pieces back |
| `Text.JoinSplit` | src/examples/format.js:47 | joining the pieces of a split with the separator gives the text back |
| `Text.Slice` | src/examples/format.js:127-130 | `slice`: the length is the clipped end position less the clipped start position, or 0, and character i is the input's character at the start position plus i |
| `Text.Substr` | src/examples/format.js:51 | `substr`: the characters from the start, at most the given number of them, clipped at the end of the text |
| `Text.JoinSnoc` | src/examples/format.js:21 | joining one more element appends the separator and that element |
| `Text.SplitFour` | src/examples/format.js:132 | four pieces free of the separator, joined by it, split back into exactly those four |
| `Text.SlicePosition` | src/examples/format.js:127-130 | a `slice` position counts from the end when negative; a position past the end lands at the end and one before the start at 0 |
| `Text.ParseInt` | src/examples/format.js:129-130 | `parseInt` is NaN exactly when the text does not start with a digit of the radix; a text of digits reads as its value |
| `Text.ToRadix` | src/examples/format.js:126 | `toString(radix)` of a number is a non-empty string of digits of the radix with no leading zero unless the number is 0 |
| `Text.ToRadixCanonical` | src/examples/format.js:147 | `toString(10)` writes a canonical decimal text: digits only, no leading zero unless the text is "0" |
| `Text.CanonicalDecimalUnique` | src/examples/format.js:147 | a canonical decimal text is exactly what `toString(10)` writes for the number it denotes, so two canonical texts of one value are equal |
| `Text.ParseToRadix` | src/examples/format.js:147 | reading back the digits of `toString(radix)` gives the number |
| `Text.ParseFixedDigits` | src/examples/format.js:128-130 | the last k hexadecimal digits of a number read back as the number modulo 16^k |
| `Text.ToRadixSplit` | src/examples/format.js:126-130 | the digits of a number of more than k digits are the digits of its quotient by radix^k followed by its last k digits |
| `Text.Reverse` | src/examples/format.js:20 | `reverse`: element i of the result is element i counted from the end of the input |
| `Values.JsString` | src/examples/format.js:157 | `String(v)`: a string is itself, a boolean is "true" or "false", an empty array is "", a one-element array is its element's text and a one-element array holding null is "" |
| `Values.Truthy` | src/examples/format.js:114 | a value is falsy exactly when it is null, "", 0 or false |
| `Bits.AndLowOnes` | src/examples/format.js:143 | masking with 2^k - 1 keeps the remainder modulo 2^k |
| `Bits.ShiftRightDiv` | src/examples/format.js:140 | shifting right by k bits divides by 2^k |
| `Bits.AndShiftRight` | src/examples/format.js:171 | a right shift distributes over AND |
| `Decoders.NeFields` | src/examples/format.js:139-143 | the PLMN read through PLMN_SHIFT and PLMN_MASK is bits 28..47 of the identifier; the ECI read through ECI_MASK is bits 0..27 |
| `Decoders.NeNumber` | src/examples/format.js:139-147 | the NE number divided by 10^9 gives the PLMN back and its remainder gives the ECI back |
| `Decoders.NeTextRoundTrip` | src/examples/format.js:144-147 | the decimal text of the NE number is canonical and reads back as a number whose quotient and remainder by 10^9 are the PLMN and the ECI |
| `Decoders.NeTextUnique` | src/examples/format.js:144-147 | any canonical decimal text with that quotient and remainder is the NE number's text, so those facts determine the output |
| `Decoders.NeLow48` | src/examples/format.js:136-148 | only bits 0..47 of the identifier affect the NE number |
| `Decoders.LteEci` | src/examples/format.js:162-163 | the low 32 bits masked with ECI_MASK are the identifier modulo 2^28 |
| `Decoders.EnbSectorFields` | src/examples/format.js:171-172 | on a 28-bit ECI, the eNodeB mask and shift divide by 256 (a result below 2^20) and the sector mask is the remainder modulo 256 |
| `Decoders.EnbSector` | src/examples/format.js:160-174 | the eNodeB is below 2^20, the sector below 256, and eNodeB * 256 + sector is the identifier modulo 2^28 |
| `Decoders.EnbSectorTextRoundTrip` | src/examples/format.js:173 | the "eNodeB.sector" text splits at the dot into two canonical decimal parts, the first below 2^20 and the second below 256, that rebuild the 28-bit ECI |
| `Decoders.EnbSectorTextUnique` | src/examples/format.js:171-173 | any text with those properties is the eNodeB-id text, so they determine the output |
| `Decoders.StripFiller` | src/examples/format.js:131 | a leading filler 'f' is removed; any other text is unchanged |
| `Decoders.GummeiTextParts` | src/examples/format.js:123-133 | whatever the identifier, its GUMMEI text splits at the dots into exactly four parts and the MMEC part has at least 3 characters |
| `Decoders.GummeiOfHexParts` | src/examples/format.js:126-132 | the same holds for the pieces cut from any hexadecimal text without a dot |
| `Decoders.GummeiOfHexPieces` | src/examples/format.js:126-132 | a hexadecimal text of at least 10 digits is sliced into MCC, MNC less a filler 'f', MMEGI and MMEC padded to 3, joined by dots |
| `Decoders.HexLayout` | src/examples/format.js:126-129 | the hexadecimal text of an identifier of at least 10 digits is the digits above bit 36 followed by 3, 4 and 2 fixed digits at the slice points |
| `Decoders.GummeiBitFields` | src/examples/format.js:127-130 | the slices hold these bit fields: all bits above 36 (v >> 36, which equals the commented `(val & 0xfff000000000)>>36` only below 2^48), (v >> 24) & 0xfff, (v >> 8) & 0xffff and v & 0xff |
| `Decoders.GummeiJoin` | src/examples/format.js:123-133 | for an identifier of at least 10 hexadecimal digits, the GUMMEI text is the four bit fields joined by dots |
| `Decoders.GummeiLayout` | src/examples/format.js:123-133 | splitting that GUMMEI text at the dots gives exactly the four bit fields, and the MMEC has exactly 3 characters |
| `Decoders.FieldsHaveNoDot` | src/examples/format.js:132 | no GUMMEI field contains a dot, which lets `GummeiLayout` split the text back into the fields |
| `Handlers.DecimalPlaces` | src/examples/format.js:61-63 | the decimal count is the number of characters after the first separator, 0 without a separator, and below the pattern's length when the pattern is not empty |
| `Handlers.ToFixFloatVal` | src/examples/format.js:59-64 | a non-number is "NaN"; a number gets `toFixed(0)` without a separator, else `toFixed` of the count of characters after the first separator |
| `Handlers.FloatDataFunc` | src/examples/format.js:117-121 | the float handler (and the distance handler, lines 150-153): null is "N/A", an empty pattern passes the value through, otherwise the value is rendered with the pattern's decimal count |
| `Handlers.FloatDecimals` | src/examples/format.js:117-121 | with the first '.' of the pattern at position k, a number gets as many decimals as there are characters after position k |
| `Handlers.IntegerDataFunc` | src/examples/format.js:35-43 | under a non-empty pattern the result is as long as the value or the pattern, whichever is longer, ends with the value, is '0' before it, and equals the value when that is already long enough; an empty pattern is `general` |
| `Handlers.IntegerDataIdempotent` | src/examples/format.js:35-43 | formatting a formatted integer again changes nothing |
| `Handlers.GroupLengths` | src/examples/format.js:47-52 | one length per '-'-separated group of the pattern, each the length of that group |
| `Handlers.ImeiPiece` | src/examples/format.js:50-53 | piece i is the slice of the value starting after the earlier groups' lengths, as long as group i, clipped at the end of the value |
| `Handlers.ImeiDataFunc` | src/examples/format.js:45-57 | the loop's result is the IMEI text, the pieces joined by '-'; an empty pattern is `general` |
| `Handlers.ImeiStep` | src/examples/format.js:50-53 | one pass of the loop appends the next piece and '-' and advances the offset by the group's length |
| `Handlers.TerminatedJoin` | src/examples/format.js:54 | dropping the last '-' of the pieces each followed by '-' gives their join |
| `Handlers.ImeiPiecesPrefix` | src/examples/format.js:45-57 | the pieces read in order are the prefix of the value as long as all the groups together, or the whole value when it is shorter |
| `Handlers.ImeiLengthsOnly` | src/examples/format.js:47-52 | two patterns with the same group lengths give the same IMEI text |
| `Handlers.ImeiSplit` | src/examples/format.js:45-57 | for a value without '-', splitting the IMEI text at '-' gives one piece per group of the pattern |
| `Handlers.ImeiExample` | src/examples/format.js:45-57 | "123456789012345" under "xx-xxxx-xxxxxx-x" is "12-3456-789012-3" |
| `Handlers.ImeiDigitPattern` | src/examples/format.js:45-57 | "123456789012345" under "2-4-6-1" is "1-2-3-4": the groups' lengths count, not their digits |
| `Handlers.CoordinateFunc` | src/examples/format.js:13-29 | a value without elements is "N/A"; a list gives a string |
| `Handlers.CoordinateReversed` | src/examples/format.js:13-29 | for a non-empty list in which no element's rendering contains ",", splitting the coordinate text at "," gives the elements' renderings in reverse order (through `general` under an empty pattern, else through the decimal count) |
| `Handlers.IntegerListDataFunc` | src/examples/format.js:155-158 | null is "N/A"; a list is its JavaScript text, its elements joined by "," |
| `Handlers.IntegerListInOrder` | src/examples/format.js:155-158 | for a non-empty list in which no element's text contains ",", splitting the integer-list text at "," gives the elements' texts in their own order, a null element as "" |
| `Handlers.EnumDataFunc` | src/examples/format.js:31-33 | a value whose text has an entry in the definition shows the entry's name; without a definition or an entry it is `general` |
| `Handlers.BoolDataFunc` | src/examples/format.js:112-115 | null is "N/A"; anything else is "True" exactly when it is truthy, else "False" |
| `Handlers.PercentDataFunc` | src/examples/format.js:66-69 | null is "N/A"; anything else is the host rendering followed by "%" |
| `Handlers.TimeDateDataFunc` | src/examples/format.js:71-84 | null is "N/A"; anything else is the host's locale rendering |
| `Handlers.DurationDataFunc` | src/examples/format.js:86-110 | null is "N/A"; anything else is the host's duration rendering |
| `Handlers.NEDataFunc` | src/examples/format.js:136-148 | null is "N/A"; an identifier gives a canonical decimal text whose quotient by 10^9 is the PLMN (bits 28..47) and whose remainder is the ECI (bits 0..27) |
| `Handlers.LteEnbIdDataFunc` | src/examples/format.js:160-174 | null is "N/A"; an identifier gives "eNodeB.sector", two canonical decimal parts, the eNodeB below 2^20 and the sector below 256, that rebuild its low 28 bits |
| `Handlers.GummeiDataFunc` | src/examples/format.js:123-133 | null is "N/A"; every identifier gives a text of four dot-separated parts whose MMEC part has at least 3 characters, and one of at least 10 hexadecimal digits gives a text that splits at the dots into its four GUMMEI bit fields |
| `Dispatch.GetHandlerFuncs` | src/examples/format.js:199-215 | every field type gets a handler, never the unregistered integer-list one; the two coordinate types get the coordinate handler |
| `Dispatch.SelectsOverrides` | src/examples/format.js:200-210 | the seven types of the switch select the coordinate, NE and eNodeB-id handlers |
| `Dispatch.RegistryKeys` | src/examples/format.js:181-197 | a field type whose name followed by "Func" is a registry key is one of the fourteen registered names ("general" never matches) |
| `Dispatch.RegistryEntries` | src/examples/format.js:181-197 | each registered name, followed by "Func", is a key whose handler lists that name |
| `Dispatch.ListedTypesSelect` | src/examples/format.js:199-215 | each field type listed for a handler selects that handler |
| `Dispatch.DispatchPreimage` | src/examples/format.js:199-215 | a field type selects a handler other than `general` exactly when it is listed for it |
| `Dispatch.DispatchFallback` | src/examples/format.js:214 | a field type falls back to `general` exactly when no handler lists it |
| `Dispatch.Apply` | src/examples/format.js:181-197 | running any handler on a value it accepts never gives null |
| `Dispatch.NullAdmissible` | src/examples/format.js:13-57 | null is accepted by every handler except the coordinate handler, and by the padding and IMEI handlers only under an empty pattern |
| `Dispatch.NullPolicy` | src/examples/format.js:13-179 | every handler that accepts null shows it as "N/A", except an enumeration with an entry for the text "null" |
| `Dispatch.UnknownTypeIsGeneral` | src/examples/format.js:214 | a field type no handler lists shows every value as `general` does |

## Left out

- Handlers.PercentDataFunc: only the null policy and the trailing "%" are stated. The number is multiplied by 100.0 in double precision, which is a host operation (`Runtime.percentText`).
- Handlers.TimeDateDataFunc: only the null policy is stated. `new Date(val).toLocaleDateString("en-US", ...)` is a host locale operation (`Runtime.localeDateTime`).
- Handlers.DurationDataFunc: only the null policy is stated. The minute, second and hour strings come from double-precision division, `%` and `toFixed`, which are a host operation here (`Runtime.durationText`).
- Handlers.ToFixFloatVal: `Number.prototype.toFixed` itself is a host operation (`Runtime.toFixed`). Its rounding and its RangeError above 100 digits are not modelled. `_.isNumber` is the `Num` tag of the value.
- Handlers.GummeiDataFunc: for every identifier the text is proved to split at the dots into exactly four parts with an MMEC part of at least 3 characters (`Decoders.GummeiTextParts`). Only the bit-field layout is limited to identifiers of at least 10 hexadecimal digits, which is every identifier whose MCC is not zero. For shorter identifiers the parts themselves are computed as written but not stated; 0x12345, for example, gives "..291.069".
- Handlers.ImeiDataFunc: `Dispatch.Apply` cannot call a method, so it applies the IMEI handler through its specification function `ImeiText`, which the method is proved to compute.
- `Long.shiftRight` at line 140 is an arithmetic shift: for an identifier with bit 63 set it fills bits 36..63 of the shifted value with ones, where the model's logical `ShiftRight` puts zeros. PLMN_MASK keeps only bits 0..19 of the shifted value (bits 28..47 of the identifier), so the NE number is the same either way (`Decoders.NeFields`).
- The value domain: a number is a `real`, so NaN, Infinity and -Infinity are not modelled, nor is `undefined`. This matters wherever the source tests a number: JavaScript's NaN is falsy (`Values.Truthy`, `Handlers.BoolDataFunc`), and `toFixed` of a non-finite number writes "NaN" or "Infinity" (`Handlers.ToFixFloatVal`). Objects other than arrays are not values of the model either.
- `Long.fromString` on text that is not a decimal unsigned 64-bit number (overflow, signs, other characters) is not modelled. The identifier handlers require such a text (`IsIdentifier`).
- `parseInt`'s skipping of leading white space and its sign are not modelled, because the GUMMEI handler only gives it hexadecimal digits.
- JavaScript's `&` converts its operands to signed 32-bit integers, so a `getLowBitsUnsigned` word of 2^31 or more becomes negative before it is masked. The model masks the unsigned word on `nat` instead (`Decoders.LteEci`). The result is the same because ECI_MASK clears bits 28 to 31, sign bit included, so the masked value is the word modulo 2^28 either way. The later `&` and `>>` act on that value, which is below 2^28.
- The unused `id` parameter of every handler is left out, and so are the unused `isCellId` and `CellNameList` parameters of the NE handler. The commented-out eNodeB-name lookup and the constant E_NODE_B_SHIFT that only it uses are left out too.
- The enumeration definition is a separate parameter of the enumeration handler. The source passes it in the pattern's place. An entry is the name it maps to. Entries whose value is falsy are not modelled, and neither are keys inherited from `Object.prototype`, such as "toString".
- The unsigned-integer handler is the same code as the integer handler, and the distance handler the same as the float handler. Each pair is modelled by one function, and the `Handler` datatype keeps them apart for dispatch.
- Lengths are counted in Dafny characters (Unicode scalar values). JavaScript's `.length`, `substr` and `padStart` count UTF-16 code units, so the two differ for characters outside the Basic Multilingual Plane. The padding, IMEI and decimal-count handlers, applied to such text, are not modelled.
- The table component, its column configuration and its filter widgets are not part of this model.
