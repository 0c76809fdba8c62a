# Pix "copia e cola" payload and slugify, modelled in Dafny

This project models the payment-code text generator of the `meu-cardapio`
menu app, plus its `slugify` helper.

The generator builds a Pix BR Code payload. A BR Code is a run of
ID-length-value data objects, as in the EMV QR Code Specification for
Payment Systems, Merchant-Presented Mode, section 4. Each object is a
two-character ID, its value's length as two decimal digits, and the value.
The payload ends in the "63" object: "6304" followed by four upper-case hex
digits. Those digits are CRC-16/CCITT-FALSE of ISO/IEC 13239 (polynomial
0x1021, initial value 0xFFFF, MSB first, no reflection, no final XOR),
taken over everything before them.

The repository has two divergent builders, and both are modelled as written:

- `src/helpers/pix.js`: `generatePixPayload`, its inner `formatTLV`, and
  `crc16`. Module `PixHelper`.
- `components/PixPage.jsx`: `crc16`, `pad2` and `pixPayload`. Module
  `PixPage`.

Shared parts:

- `JsText`: the JavaScript built-ins both builders rely on:
  - `toString(radix)` and `String(n)`;
  - `padStart`;
  - `toUpperCase`/`toLowerCase`;
  - `substring(0, n)`;
  - `toFixed(2)` on an amount held as integer cents.
- `Tlv`: the data-object encoder (`formatTLV`, `pad2`), a walker that reads
  a payload back into fields, and the round trip in both directions.
- `Crc`: the reference fold over bytes on a `bv16` register. It also models
  the JavaScript loop on a 32-bit register, and proves the two agree.
- `BrCode`: the request record, the object layout both builders share, and
  the checksum test a payload reader applies.

`slugify` (`src/helpers/utils.js`) is module `Slug`.

## How the two builders differ

Both quirks of `src/helpers/pix.js` are kept, not fixed:

- It writes no "01" (point-of-initiation) object. Its payload is "000201",
  then "26", "52", "53", "54", "58", "59", "60", "62", then "63".
- It cuts the name to 25 characters and the city to 15. It then wraps each
  in a further data object, "02" for the name and "03" for the city, and
  puts that object inside "59"/"60" instead of the bare text. A reader that
  expects the name itself in "59" sees "02", a length and the name.

Its inner `removeChars` is never called, so the model has no counterpart.

`components/PixPage.jsx` writes "01" = "12". It puts name and city into
"59"/"60" whole, without cutting them. Its `crc16` upper-cases the hex digits
before padding them, while the helper's pads first. `PixPage.Crc16` proves
the two give the same four characters for every string.

## Behaviour worth knowing

- **Object order.** Only `components/PixPage.jsx` writes the "01"
  point-of-initiation object. Only `src/helpers/pix.js` cuts name and city.
- **Over-long values.** Nothing rejects a value over 99 characters. The
  length is whatever `padStart(2, "0")` produces: three digits from 100 on
  (`Tlv.Pad2NoTruncation`). Such a payload no longer splits into the
  intended objects, so the round-trip lemmas require every value to fit two
  digits.
- **Amounts.** Neither builder checks the amount. `JsText.ToFixed2` renders
  any integer amount, with a "-" for a negative one.
- **Character codes.** The checksum loop XORs the full UTF-16 code unit,
  shifted left by 8, into the register. The register is masked to 16 bits
  after every shift, so only the code's low byte reaches the result.
  `Crc.JsRegister` proves this for every character code.
- **Non-ASCII text.** Names and cities are not stripped of accents before
  they are encoded. For such text, a reader of the payload's UTF-8 bytes
  disagrees with the code twice:
  - `.length` counts UTF-16 code units, so the two-digit length is too small
    for the bytes;
  - the CRC takes one low byte per code unit, so the checksum differs.

  `BrCode.ChecksumOk` follows the code, one low byte per code unit. It
  matches a byte-level reader only on ASCII payloads, and so do the
  `PayloadVerifies` lemmas.

## Model

| member | source | states |
|---|---|---|
| JsText.ToBase | meu-cardapio/src/helpers/pix.js:56 | `n.toString(base)` is a non-empty digit string in that base, without a leading zero unless it is "0" |
| JsText.ValueToBase | meu-cardapio/src/helpers/pix.js:56 | reading back the digits `toString(base)` wrote gives the number again |
| JsText.Decimal | meu-cardapio/components/PixPage.jsx:18 | `String(n)` of a non-negative integer is a non-empty string of decimal digits |
| JsText.ToUpper | meu-cardapio/src/helpers/pix.js:56 | `toUpperCase` keeps the length and leaves no small ASCII letter. Only the letter case changes (the lower-case forms agree position by position), and every other character stays |
| JsText.ToLower | meu-cardapio/src/helpers/utils.js:25 | `toLowerCase` keeps the length and leaves no capital. Each capital becomes the small letter 32 code points above it, and every other character stays |
| JsText.PadStart | meu-cardapio/components/PixPage.jsx:18 | `padStart` pads on the left to the target length, keeps the original characters at the end, and never truncates a longer string |
| JsText.PadStartValue | meu-cardapio/src/helpers/pix.js:56 | zero-padding does not change the value a digit string denotes |
| JsText.UpperPadCommute | meu-cardapio/components/PixPage.jsx:16 | upper-casing then padding with '0' equals padding then upper-casing |
| JsText.Prefix | meu-cardapio/src/helpers/pix.js:14-15 | `substring(0, n)` is a prefix of the input of length at most n: all of the input when it fits, exactly n characters otherwise |
| JsText.ToFixed2 | meu-cardapio/src/helpers/pix.js:21 | the amount text has at least four characters and starts with "-" exactly when the amount is negative |
| JsText.ToFixed2Shape | meu-cardapio/components/PixPage.jsx:37 | the amount text is integer digits (after the sign), a point, and exactly two fraction digits. The integer part has no leading zero unless it is the single digit "0" |
| JsText.ToFixed2RoundTrip | meu-cardapio/components/PixPage.jsx:37 | reading the amount text back gives the same number of cents |
| Tlv.Pad2 | meu-cardapio/components/PixPage.jsx:18 | `pad2(n)` is all digits, and it is exactly two characters long if and only if n ≤ 99 |
| Tlv.Pad2Value | meu-cardapio/components/PixPage.jsx:18 | the digits of `pad2(n)` denote n |
| Tlv.Pad2NoTruncation | meu-cardapio/components/PixPage.jsx:18 | from 100 on, `pad2(n)` is the plain decimal rendering, three digits or more, never cut to two |
| Tlv.FormatTlv | meu-cardapio/src/helpers/pix.js:7-10 | a data object has length ID + 2 + value when the value has at most 99 characters, and is longer than that otherwise |
| Tlv.Encode | meu-cardapio/components/PixPage.jsx:45 | `f.join("")` of the serialised objects takes at least two characters per object |
| Tlv.EncodeAppend | meu-cardapio/components/PixPage.jsx:23-45 | joining the serialised objects of two lists is serialising the joined list |
| Tlv.ParseEncode | meu-cardapio/src/helpers/pix.js:7-10 | walking the serialisation of well-formed objects (two-character ID, value of at most 99 characters) gives exactly those objects back |
| Tlv.EncodeParse | meu-cardapio/src/helpers/pix.js:7-10 | conversely, every string the walker accepts is the serialisation of the well-formed objects it returns |
| Tlv.ParseOne | meu-cardapio/src/helpers/pix.js:14-16 | a single nested data object reads back as itself |
| Tlv.ParseTwo | meu-cardapio/src/helpers/pix.js:18 | the two-object merchant account template reads back as its two objects |
| Crc.CheckValue | meu-cardapio/src/helpers/pix.js:48-55 | the reference fold gives 0x29B1 on the ASCII digits "123456789", the published CCITT-FALSE check value |
| Crc.StepAgrees | meu-cardapio/src/helpers/pix.js:52-53 | one inner pass on the 32-bit register (shift, conditional XOR with 0x1021, mask) is one MSB-first shift of the 16-bit reference register |
| Crc.JsStep | meu-cardapio/src/helpers/pix.js:52-53 | one inner pass leaves the register below 2^16 |
| Crc.JsShifts | meu-cardapio/src/helpers/pix.js:51-54 | n passes of the inner loop; after any positive number of them the register is below 2^16 |
| Crc.JsShiftsAgree | meu-cardapio/src/helpers/pix.js:51-54 | n inner passes follow n reference shifts on the low 16 bits |
| Crc.JsByte | meu-cardapio/src/helpers/pix.js:50-54 | one outer pass (`crc ^= charCode << 8`, then eight inner passes) leaves the register below 2^16 |
| Crc.JsByteAgrees | meu-cardapio/src/helpers/pix.js:50-54 | one outer pass, from a register below 2^16, stays below 2^16 and is the reference byte update applied to the low byte of the character code |
| Crc.JsRegister | meu-cardapio/src/helpers/pix.js:48-55 | the register after the loop is below 2^16, and its low 16 bits are CRC-16/CCITT-FALSE over the low bytes of the character codes |
| Crc.RegisterValue | meu-cardapio/src/helpers/pix.js:48-55 | as a number, the final register equals the CCITT-FALSE fold over the input bytes |
| Crc.HexRendering | meu-cardapio/src/helpers/pix.js:56 | padding `toString(16)` of a 16-bit value to four and upper-casing gives exactly four upper-case hex digits |
| Crc.HexRenderingValue | meu-cardapio/src/helpers/pix.js:56 | those four digits denote the value |
| BrCode.GuiObject | meu-cardapio/src/helpers/pix.js:12 | the GUI object is "0014BR.GOV.BCB.PIX" |
| BrCode.FixedObjects | meu-cardapio/src/helpers/pix.js:28-38 | "000201" is the object "00" = "01", and "6304" + crc is the object "63" with a four-character value |
| BrCode.ParseSealed | meu-cardapio/components/PixPage.jsx:45-46 | well-formed objects followed by "6304" and four characters read back as those objects plus the "63" object |
| PixHelper.Objects | meu-cardapio/src/helpers/pix.js:12-25 | the helper writes eight objects between header and checksum, with IDs 26, 52, 53, 54, 58, 59, 60, 62 in that order, and 52 = "0000", 53 = "986", 58 = "BR" |
| PixHelper.Crc16 | meu-cardapio/src/helpers/pix.js:47-57 | `crc16` returns exactly four upper-case hex digits |
| PixHelper.Crc16Value | meu-cardapio/src/helpers/pix.js:47-57 | those four digits denote CRC-16/CCITT-FALSE of the string's bytes |
| PixHelper.Frame | meu-cardapio/src/helpers/pix.js:28-41 | the framed payload is "000201", then exactly the joined objects, then "6304", then the `crc16` of everything before those four digits. This holds whatever the value lengths are |
| PixHelper.GeneratePixPayload | meu-cardapio/src/helpers/pix.js:2-44 | the payload starts with "000201", has "6304" just before its last four characters, and ends in the `crc16` of all that precedes them |
| PixHelper.FrameVerifies | meu-cardapio/src/helpers/pix.js:40-41 | a reader's checksum test accepts every framed payload |
| PixHelper.PayloadVerifies | meu-cardapio/src/helpers/pix.js:28-43 | a reader's checksum test accepts every payload `generatePixPayload` returns |
| PixHelper.EncodeFramed | meu-cardapio/src/helpers/pix.js:28-38 | the frame is the serialisation of the objects between the "00" and "63" objects |
| PixHelper.ParseFramed | meu-cardapio/src/helpers/pix.js:28-38 | a framed run of well-formed objects reads back as "00", the run, then "63" |
| PixHelper.ObjectsWellFormed | meu-cardapio/src/helpers/pix.js:12-25 | with key ≤ 77, amount ≤ 99 and txid ≤ 95 characters, every object has a two-character ID and a value of at most 99 characters |
| PixHelper.PayloadObjects | meu-cardapio/src/helpers/pix.js:18-38 | under those bounds the payload reads back as exactly "00" = "01", then 26, 52 = "0000", 53 = "986", 54 = amount, 58 = "BR", 59, 60, 62, then "63" holding the last four characters |
| PixHelper.NameCityObjects | meu-cardapio/src/helpers/pix.js:12-15 | for every request, "26" is "0014BR.GOV.BCB.PIX" followed by the "01" object of the key; "59" reads back as exactly one "02" object holding the name cut to 25, and "60" as one "03" object holding the city cut to 15 |
| PixHelper.NestedObjects | meu-cardapio/src/helpers/pix.js:12-25 | with a key and a txid of at most 99 characters, "26" reads back as the GUI under "00" and the key under "01", and "62" as the txid under "05" |
| PixPage.Crc16 | meu-cardapio/components/PixPage.jsx:7-17 | this `crc16` returns the same four characters as the helper's `crc16` for every string |
| PixPage.Objects | meu-cardapio/components/PixPage.jsx:21-43 | the page writes ten objects, with IDs 00, 01, 26, 52, 53, 54, 58, 59, 60, 62 in that order, and 00 = "01", 01 = "12", 52 = "0000", 53 = "986", 58 = "BR" |
| PixPage.Close | meu-cardapio/components/PixPage.jsx:45-46 | the payload is the joined objects, "6304", and the `crc16` of everything before those four characters |
| PixPage.PixPayload | meu-cardapio/components/PixPage.jsx:20-47 | for every request the payload opens with "000201010212", has "6304" just before its last four characters, and they are the `crc16` of everything before them |
| PixPage.PayloadVerifies | meu-cardapio/components/PixPage.jsx:45-46 | a reader's checksum test accepts every payload `pixPayload` returns |
| PixPage.ObjectsWellFormed | meu-cardapio/components/PixPage.jsx:21-43 | with key ≤ 77, amount, name and city ≤ 99 and txid ≤ 95 characters, every object is well formed |
| PixPage.NestedLengths | meu-cardapio/components/PixPage.jsx:26-30 | the "26" value built from a 14-character GUI and a key of at most 77 characters, and the "62" value built from a txid of at most 95, fit a two-digit length |
| PixPage.PayloadObjects | meu-cardapio/components/PixPage.jsx:32-46 | under those bounds the payload reads back as exactly 00 = "01", 01 = "12", 26, 52 = "0000", 53 = "986", 54, 58 = "BR", 59, 60, 62, then "63" holding the last four characters |
| PixPage.NameCityObjects | meu-cardapio/components/PixPage.jsx:21-30 | for every request, "26" is "0014BR.GOV.BCB.PIX" followed by the "01" object of the key, and "59" and "60" are the name and city verbatim, never cut |
| PixPage.NestedObjects | meu-cardapio/components/PixPage.jsx:26-43 | with a key and a txid of at most 99 characters, "26" reads back as the GUI under "00" and the key under "01", and "62" as the txid under "05" |
| Slug.Decompose | meu-cardapio/src/helpers/utils.js:26 | NFD leaves a character below U+00C0 as it is and maps every character to one or two characters |
| Slug.Nfd | meu-cardapio/src/helpers/utils.js:26 | NFD never shortens a string and at most doubles it |
| Slug.NfdAppend | meu-cardapio/src/helpers/utils.js:26 | NFD distributes over concatenation |
| Slug.NfdChar | meu-cardapio/src/helpers/utils.js:26 | NFD of a single character is its decomposition from the table, so with `NfdAppend` NFD is that decomposition applied to each character in order |
| Slug.StripMarks | meu-cardapio/src/helpers/utils.js:27 | no combining mark U+0300..U+036F is left, and the result is no longer than the input |
| Slug.StripMarksAppend | meu-cardapio/src/helpers/utils.js:27 | stripping works character by character: it distributes over concatenation |
| Slug.StripMarksChar | meu-cardapio/src/helpers/utils.js:27 | a single combining mark is removed, and any other character is kept |
| Slug.Prepare | meu-cardapio/src/helpers/utils.js:25-27 | lower-casing, NFD and mark stripping leave no combining mark and at most twice the input length |
| Slug.PrepareAppend | meu-cardapio/src/helpers/utils.js:25-27 | the three steps work character by character: preparing distributes over concatenation |
| Slug.PrepareAsciiChar | meu-cardapio/src/helpers/utils.js:25-27 | an ASCII character is only lower-cased |
| Slug.PrepareAscii | meu-cardapio/src/helpers/utils.js:25-27 | on ASCII text, preparing is exactly lower-casing |
| Slug.Collapse | meu-cardapio/src/helpers/utils.js:28 | the result has only `[a-z0-9]` and "-", never "--", is empty exactly when the input is, and starts with `[a-z0-9]` exactly when the input does |
| Slug.Trim | meu-cardapio/src/helpers/utils.js:29 | on a string without "--", removing one leading and one trailing "-" leaves no hyphen at either end |
| Slug.Slugify | meu-cardapio/src/helpers/utils.js:23-29 | the output has only a-z, 0-9 and "-", no "--" and no hyphen at either end; a null, undefined or empty input gives "" |
| Slug.CollapseFixed | meu-cardapio/src/helpers/utils.js:28 | collapsing leaves a string of `[a-z0-9-]` without "--" unchanged |
| Slug.SlugFixed | meu-cardapio/src/helpers/utils.js:23-29 | every slug is its own slug |
| Slug.SlugifyIdempotent | meu-cardapio/src/helpers/utils.js:23-29 | slugify(slugify(t)) == slugify(t) |
| Slug.AlnumsCollapse | meu-cardapio/src/helpers/utils.js:28 | collapsing keeps the `[a-z0-9]` characters, in order |
| Slug.AlnumsTrim | meu-cardapio/src/helpers/utils.js:29 | trimming removes only hyphens |
| Slug.SlugifyKeepsAlnums | meu-cardapio/src/helpers/utils.js:25-28 | the slug's `[a-z0-9]` characters are exactly those of the lower-cased, mark-stripped input, in order |
| Slug.SlugifyAsciiAlnums | meu-cardapio/src/helpers/utils.js:25-28 | on ASCII input, the slug's `[a-z0-9]` characters are exactly the lower-cased input's letters and digits, in order |
| Slug.EmptySlug | meu-cardapio/src/helpers/utils.js:24-29 | the slug is empty if and only if the lower-cased, mark-stripped input has no `[a-z0-9]` character |
| Slug.CollapseWords | meu-cardapio/src/helpers/utils.js:28 | from its first `[a-z0-9]` character on, a collapsed string is its alphanumeric runs joined by "-", plus one "-" if the input ends in another character |
| Slug.HyphenateWords | meu-cardapio/src/helpers/utils.js:28-29 | collapsing then trimming equals joining the alphanumeric runs with "-" |
| Slug.SlugifyWords | meu-cardapio/src/helpers/utils.js:23-29 | reference definition: the slug is the `[a-z0-9]` runs of the lower-cased, mark-stripped input, joined with "-" |

## Left out

- QR symbols. `generateQRCodeSVG` is a wrapper around an external library. `tinyQR` is a hash-driven placeholder, not a QR code. Neither has logic to model.
- Floating point. The amount `valor` is an integer number of cents. `toFixed(2)` rounding, and its exponent form for huge values, are not modelled.
- JsText.ToFixed2: does not model rounding of fractional cents, because the amount is held as integer cents.
- JsText.ToUpper: upper-cases ASCII letters only. The model applies it only to hex digits, where that is all `toUpperCase` changes.
- JsText.ToLower: lower-cases ASCII and the Latin-1 capitals U+00C0..U+00DE only. Other scripts' case mappings are not modelled.
- Slug.Prepare: the per-character result is stated for ASCII only (`PrepareAsciiChar`). For a Latin-1 letter with an entry in the `Decompose` table it is the lower-cased base letter. No lemma states this entry by entry: the 53-entry table would be checked one case at a time.
- Slug.Decompose: decomposes only the Latin-1 letters with a canonical decomposition (grave, acute, circumflex, tilde, diaeresis, ring, cedilla). Every other character is left whole, so the contract says nothing about NFD beyond Latin-1.
- Characters above U+FFFF: a Dafny `char` is a Unicode scalar value, so such a character is accepted but counted as one, where JavaScript's `.length` and `charCodeAt` see two surrogate code units. Lone surrogates cannot be written at all.
- Non-ASCII name or city text gives a wrong length prefix and a wrong CRC for a reader of the payload's UTF-8 bytes. The store's own city, "Uberlândia", is such text. `src/helpers/config.js` is not part of this model. `BrCode.ChecksumOk` and the `PayloadVerifies` lemmas judge the payload one low byte per code unit, as the code does.
- `String(t || "")` on non-string inputs (numbers, objects) is not modelled. The input is an optional string: `None` stands for null or undefined.
- `removeChars` in `src/helpers/pix.js` is never called, so it has no model.
- Page lifecycle and I/O: order creation on mount, local storage, and the clipboard in `components/PixPage.jsx`.
- `currency`, `getParam`, `parseHM` and `businessStatus` in `src/helpers/utils.js` are formatting, URL and wall-clock helpers.
- The `slugify` copy in `src/App.jsx` duplicates the modelled one without the null guard, and is not modelled separately.
- `src/components/PixPage.jsx` has no payload code of its own. It calls `generatePixPayload` with the store's key, name and city, and `valor: subtotal`, without the `|| 0` fallback of `components/PixPage.jsx`. It is page glue and is left out.
