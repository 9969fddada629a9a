# Catalogue product extraction, modelled in Dafny

The program fetches one page of product-catalogue JSON from an online shop's API. It
pulls five fields out of each entity in the response: id, name, brand, price with
tax, and a colour list. It stores them in `Product` records, serialises the records
as pretty-printed JSON, and turns the escaped apostrophes and ampersands in that
text back into literal characters.

This project models the extraction and the text clean-up from `Parser.java`, and
the `Product` record from `Product.java`:

- `lang.dfy` (module `Lang`) holds the Java platform behaviour the code relies on:
  - the 32-bit `int` and the narrowing `getAsInt` applies to a JSON number;
  - `Integer.toString`, with a proof that it reads back;
  - `Collectors.joining`, with `Split` as its inverse;
  - `String.replaceAll` with a literal pattern, with lemmas on what it leaves behind.
- `json.dfy` (module `JsonTree`) is the parsed JSON tree and the accessor calls made
  on it. Each call yields a value or fails as the Java call would throw: a missing
  key, a value of the wrong kind, or an index outside an array. `Walk` is an
  independent reading of a fixed key path, and the field accessors are specified
  against it.
- `product.dfy` (module `Products`) is the mutable `Product` class. Its setters
  change only their own field, and `toString` renders the fields in a fixed order.
- `parser.dfy` (module `Parser`) holds:
  - the four fixed-path field accessors;
  - the colour extraction: `ParseColorsFromEntity` is a method with a loop, proved
    equal to the pure `ColorsOf`, which a separate filter-then-map reading
    (`Unsold`) explains;
  - `parseJson`, as the method `ParseJson` and its specification `ExtractProduct`;
  - `beautifyJson`.

Failures are values of `JsonTree.Result`, not preconditions. `Err` carries the
cause: `MissingKey` where Java dereferences the `null` that `get` returned,
`WrongKind` where a `getAs…` call or a cast throws, and `IndexOutOfBounds` where
`JsonArray.get` throws. A Java `null` field or argument is `None`.

## Model

| member | source | states |
|---|---|---|
| `Lang.ToInt32` | src/main/java/test/assignment/Parser.java:71-73 | `getAsInt` keeps the number's value modulo 2^32 and returns it unchanged when it fits in an `int` |
| `Lang.IntToDecimalRoundTrip` | src/main/java/test/assignment/Product.java:59-60 | the decimal text of the price and the id reads back as the same number, and starts with `-` exactly for negative values |
| `Lang.SplitJoin` | src/main/java/test/assignment/Parser.java:130 | joining pieces with a one-character separator they do not contain is undone by splitting at it |
| `Lang.ReplaceAllAbsent` | src/main/java/test/assignment/Parser.java:151-152 | replacing a pattern that does not occur leaves the text unchanged |
| `Lang.ReplaceAllLeavesNo` | src/main/java/test/assignment/Parser.java:151-152 | after replacing `pat` by a text with no character of `q`, no `q` remains if `q` is `pat` or was absent before |
| `Lang.ReplaceAllSkips` | src/main/java/test/assignment/Parser.java:151-152 | characters that cannot begin the pattern are copied through, and the rest is replaced as if alone |
| `Products.Product.constructor` | src/main/java/test/assignment/Product.java:5-12 | a new product has id 0 and price 0, and its name, brand and colour are null |
| `Products.Product.SetId` | src/main/java/test/assignment/Product.java:14-20 | afterwards `GetId` returns the argument, and the other four fields are unchanged |
| `Products.Product.SetName` | src/main/java/test/assignment/Product.java:22-28 | afterwards `GetName` returns the argument, and the other four fields are unchanged |
| `Products.Product.SetBrand` | src/main/java/test/assignment/Product.java:30-36 | afterwards `GetBrand` returns the argument, and the other four fields are unchanged |
| `Products.Product.SetColor` | src/main/java/test/assignment/Product.java:42-48 | afterwards `GetColor` returns the same list, and the other four fields are unchanged |
| `Products.Product.SetPrice` | src/main/java/test/assignment/Product.java:38-40 | afterwards `GetPrice` returns the argument, and the other four fields are unchanged |
| `Products.Product.ToString` | src/main/java/test/assignment/Product.java:54-62 | renders `Product{ name='…', brand='…', color='…', price=…, id=…}` in that field order; null renders as `null`; the digits before the closing brace read back as the id |
| `Parser.ParseIdFromEntity` | src/main/java/test/assignment/Parser.java:71-73 | succeeds exactly when `id` is a number, and then yields it as an `int` |
| `Parser.ParseNameFromEntity` | src/main/java/test/assignment/Parser.java:75-80 | succeeds exactly when the path `attributes.name.values.label` exists and ends on a string, and yields that string; a missing key anywhere on the path fails |
| `Parser.ParseBrandFromEntity` | src/main/java/test/assignment/Parser.java:82-87 | the same for `attributes.brand.values.label` |
| `Parser.ParsePriceFromEntity` | src/main/java/test/assignment/Parser.java:89-93 | succeeds exactly when `priceRange.min.withTax` exists and is a number, and yields it as an `int` |
| `Parser.Labels` | src/main/java/test/assignment/Parser.java:127-131 | succeeds exactly when every element is an object with a string `label`, and then yields one label per element, in array order |
| `Parser.ParseColors` | src/main/java/test/assignment/Parser.java:127-131 | succeeds exactly when every element has a string label; an empty array gives `""`; one element gives its label alone |
| `Parser.ParseColorsSplits` | src/main/java/test/assignment/Parser.java:127-131 | for a non-empty array whose labels contain no `/`, splitting the result at `/` gives the labels in array order |
| `Parser.ParseColorsBlackWhite` | src/main/java/test/assignment/Parser.java:127-131 | labels `black` and `white` give `black/white` |
| `Parser.MainColorsArray` | src/main/java/test/assignment/Parser.java:98-100 | yields the array at `attributes.colorDetail.values`, and fails when that path does not end on an array |
| `Parser.SiblingArray` | src/main/java/test/assignment/Parser.java:108-113 | yields exactly the array at `advancedAttributes.siblings.values[0].fieldSet[0]` and fails wherever that path breaks; a missing `siblings` key fails with `MissingKey`, an empty `values` array with `IndexOutOfBounds(0, 0)` |
| `Parser.ColorsOf` | src/main/java/test/assignment/Parser.java:95-125 | a colour list is never empty and starts with the joined primary colour; with no `siblings` key it is exactly `[primary]`; a missing primary colour or `advancedAttributes` fails; with a `siblings` key whose path to the sibling array is broken, it fails with that path's error |
| `Parser.Unsold` | src/main/java/test/assignment/Parser.java:115-116 | keeps only siblings whose `isSoldOut` is false, in order, and is no longer than the sibling list |
| `Parser.AvailableColorsFilterMap` | src/main/java/test/assignment/Parser.java:115-122 | the sibling loop succeeds exactly when every sibling is well formed; it then yields one colour per unsold sibling, in order |
| `Parser.AvailableColorsFailFast` | src/main/java/test/assignment/Parser.java:115-122 | once a sibling fails, the whole loop fails with that sibling's error |
| `Parser.ColorsWithSiblings` | src/main/java/test/assignment/Parser.java:105-124 | with siblings, the list is the primary colour followed by the colour of each unsold sibling; its length is 1 plus the unsold count, at most 1 plus the sibling count |
| `Parser.SoldOutSiblingOmitted` | src/main/java/test/assignment/Parser.java:115-122 | a sold-out sibling followed by an unsold `red` one contributes exactly `["red"]` |
| `Parser.ParseColorsFromEntity` | src/main/java/test/assignment/Parser.java:95-125 | the loop that builds the list in place returns exactly `ColorsOf(entity)`, including its errors |
| `Parser.ExtractProduct` | src/main/java/test/assignment/Parser.java:53-69 | a non-object root gives the default record; a missing or non-array `entities` fails; an index out of range fails with `IndexOutOfBounds(i, size)`; a success has name, brand and colour set |
| `Parser.ExtractProductFields` | src/main/java/test/assignment/Parser.java:53-69 | a product from an object root holds exactly the values at the fixed paths of entity `i`, which exists and is an object |
| `Parser.ExtractProductSucceeds` | src/main/java/test/assignment/Parser.java:53-69 | entity `i` with every fixed path present and a readable colour list gives a product |
| `Parser.ParseJson` | src/main/java/test/assignment/Parser.java:53-69 | returns a fresh product filled through its setters; it succeeds exactly when `ExtractProduct` does, with the same error or the same field values, so the same `(root, i)` always gives the same record |
| `Parser.Unescape` | src/main/java/test/assignment/Parser.java:150-153 | the clean-up read as one left-to-right scan: each `\u0027` gives `'`, each `\u0026` gives `&`, any other character is kept; the result is never longer than the text |
| `Parser.TwoPassesUnescape` | src/main/java/test/assignment/Parser.java:151-152 | replacing every `\u0027` and then every `\u0026` gives exactly the scan `Unescape`, for every text: the first pass can neither create nor destroy an ampersand escape |
| `Parser.BeautifyJson` | src/main/java/test/assignment/Parser.java:150-153 | the result is `Unescape` of the text, so only the two escapes change and every other character is kept; it contains neither escape |
| `Parser.UnescapePlainPrefix` | src/main/java/test/assignment/Parser.java:150-153 | text without a backslash is kept as it is, whatever follows |
| `Parser.UnescapeKeepsOtherEscape` | src/main/java/test/assignment/Parser.java:150-153 | an escape whose tail holds no backslash, such as `\"`, `\n` or `\u003c` (not `\\`), is kept as it is, whatever follows |
| `Parser.EscapedBackslashMisread` | src/main/java/test/assignment/Parser.java:151-152 | an escaped backslash `\\` directly before `u0027` or `u0026` is not kept: its second backslash starts a match, leaving `\'` or `\&` |
| `Parser.BeautifyJsonEscapedBackslashExample` | src/main/java/test/assignment/Parser.java:151-152 | the serialised form `\\u0027` of a literal `\u0027` is cleaned to `\'` |
| `Parser.BeautifyJsonKeepsOtherEscapes` | src/main/java/test/assignment/Parser.java:150-153 | for backslash-free `a` and `b`, `a\u003cb\u0027` is cleaned to `a\u003cb'` |
| `Parser.BeautifyJsonUnchanged` | src/main/java/test/assignment/Parser.java:150-153 | text holding neither escape is returned unchanged |
| `Parser.BeautifyJsonNoBackslash` | src/main/java/test/assignment/Parser.java:150-153 | text without a backslash is returned unchanged |
| `Parser.BeautifyJsonIdempotent` | src/main/java/test/assignment/Parser.java:150-153 | cleaning twice gives the same text as cleaning once |
| `Parser.BeautifyJsonUndoesEscape` | src/main/java/test/assignment/Parser.java:150-153 | for text without a backslash, escaping apostrophes and ampersands and then cleaning gives the text back, so `Don't Stop` comes out literally; the no-backslash condition cannot be dropped: where an escaped backslash meets `u0027` or `u0026` the clean-up goes wrong (`EscapedBackslashMisread`) |

## Left out

- `readJson` (Parser.java:133-144) is not modelled. It does an HTTP GET and counts
  requests in a process-wide counter.
- `writeJson` (Parser.java:155-161) is not modelled. It writes a file.
- `main` (Parser.java:37-51) is not modelled. It only orchestrates I/O and printing.
  Product `k` of its list is `ParseJson(root, k)` for `k` in `0..99`.
- `convertSrcToJson` (Parser.java:146-148) and `JsonParser.parseString` (Parser.java:55)
  are Gson serialisation and parsing, which are not part of this model.
  - `ParseJson` takes the parsed tree instead of the text.
  - `BeautifyJson` takes any text.
  - `EscapeApostrophesAndAmpersands` is only a reference for what cleaning undoes. It
    does not model Gson's writer, which also escapes other characters.
- Gson's lenient coercions are not modelled; each accessor succeeds only on its own
  kind of value. What Gson accepts besides:
  - `getAsInt` on a string it parses as a number, or on a one-element array;
  - `getAsString` on a number or a boolean, which it renders, or on a one-element array;
  - `getAsBoolean` on a string, through `Boolean.parseBoolean`;
  - `getAsBoolean` on a number, which reads as false, so a sibling with
    `"isSoldOut": 0` is kept (Parser.java:116), where `SoldOutFlag` fails;
  - `getAsBoolean` on a one-element array, so `"isSoldOut": [true]` reads as true.
- JSON numbers with a fraction or exponent are not modelled (floating point). `JNum`
  holds integers only.
- `Products.Product.SetColor` stores the list as a value. Java stores the caller's
  `List` reference, so later changes through that reference would show.
- `Parser.ParseJson` takes the index as an unbounded integer, not a Java `int`.
  Every value outside the array fails the same way.
- Exception types and messages are reduced to three causes: `MissingKey`,
  `WrongKind` and `IndexOutOfBounds`.
