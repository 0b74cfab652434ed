# Material badge: the extraction engine

The browser extension shows two badges beside clothing products: the garment's
material composition and which sizes are in stock. Both come from the Next.js
data section a product page embeds, `<script id="__NEXT_DATA__" …>…</script>`.
The background worker fetches the page (`fetchProduct`) and takes four steps:

- It cuts the data section out of the page text.
- It finds the escaped `"var_material_composition_desc":"…"` value inside it,
  unescapes it, decodes it, and renders the groups and their materials as
  text (`parseMaterial`).
- It walks the decoded data depth first for the first `items` list that
  looks like a size table (`findItems`).
- It keeps only the named, stocked items, each with its stock state
  (`parseSizes`).

The content script repeats the three parsing functions under other names and
renders the sizes as HTML badges (`buildSizesHTML`).

The project has four modules:

- `Js`
  - The values `JSON.parse` produces.
  - The JavaScript semantics the engine relies on: truthiness, property
    reads (`None` is `undefined`), `${…}` stringification (which throws
    on an object with its own `toString` property), `for…of`
    iteration, `join`, `filter` and `map` with callbacks that may throw,
    and the global literal `replace`.
  - A thrown exception is `None`.
- `Patterns`: the two regular expressions of the engine as scanners with
  leftmost-match semantics, and their properties.
- `Background`: `parseMaterial`, `findItems`, `parseSizes`, and the part of
  `fetchProduct` that runs after the fetch.
  - `parseMaterial` is a method proved against the specification function
    `MaterialOf`. Its push loop is the generic method `Js.PushAll`, proved
    against the specification `Js.MapAll`.
  - The search is a reference predicate `HasCheck` ("some object inside
    has this test outcome"), with soundness and completeness lemmas.
- `Content`:
  - the content script's copies of the parsing functions, each proved equal
    to the background version on every input;
  - `buildSizesHTML`, with an inverse reader that recovers the stock states
    and names from the badges.

`JSON.parse` is the parameter `parse: string -> Option<Json>` of every
operation that decodes text. `None` means the call throws.

## Model

| member | source | states |
|---|---|---|
| Js.Lookup | background.js:67 | a field value is found exactly when some field has the key, and it is that field's value |
| Js.Member | background.js:67 | a property read yields a value exactly when the value is an object holding the key |
| Js.TruthyExactlyWhen | background.js:67 | `Truthy`: the falsy values are exactly undefined, null, false, 0 and the empty string |
| Js.NatToString | background.js:33 | a number's decimal text is a non-empty string of digits with no leading zero |
| Js.NatToStringRoundTrip | background.js:33 | reading a number's decimal text back gives the number |
| Js.IntToString | background.js:33 | the text starts with a minus sign exactly when the number is negative |
| Js.JoinLength | background.js:36 | a join holds every part and exactly one separator between each two, so its length is the parts' total plus the separators' |
| Js.JoinAppend | background.js:34-36 | pushing one more part appends the separator and the part to the join |
| Js.JoinEmptySeparatorConcat | content.js:59-62 | joining with `''` distributes over concatenation |
| Js.ToStrReadsBack | background.js:32-33 | `${…}` (`ToStr`, `JsonToStr`) renders a string as itself, a number as decimal digits without leading zeros that read back as the number (after a minus sign when negative), and undefined as `undefined` |
| Js.ToStrThrows | background.js:32-33 | `${…}` throws exactly on an object with its own `toString` property or an array holding one at any depth |
| Js.JsonToStrThrows | background.js:32-33 | a JSON value fails to stringify exactly when it is such an object or holds one inside arrays |
| Js.ElemsToStrThrows | background.js:32-33 | an array's `join` throws exactly when one of its elements fails to stringify |
| Js.Filter | background.js:47-48 | a filter's result is no longer than its input |
| Js.FilterFails | background.js:47-48 | a filter throws exactly when its callback throws on some element |
| Js.FilterMembers | background.js:48 | a filter keeps exactly the elements its callback accepts |
| Js.FilterAppend | background.js:47-48 | filtering preserves order: it distributes over concatenation |
| Js.MapAll | background.js:33 | a map's result has the input's length |
| Js.MapAllAt | background.js:33 | a map succeeds exactly when every callback does, and then holds their results in order |
| Js.MapAllFail | background.js:31-33 | one callback that throws makes the whole map throw |
| Js.MapAllSnoc | background.js:34 | pushing one more result extends the mapped list by it |
| Js.PushAll | background.js:30-35 | the push loop yields one result per element, in order, or throws as soon as a callback throws |
| Patterns.IndexOf | background.js:84 | the result is the first occurrence at or after the start, and there is none when it gives nothing |
| Patterns.IndexOfFirst | background.js:84 | an occurrence with none before it is what the search returns |
| Patterns.ClosingQuote | background.js:26 | the scan ends on a quote, and the text it passed is escaped text |
| Patterns.ClosingQuoteFinds | background.js:26 | a quote that ends escaped text is where the scan stops |
| Patterns.CompositionAt | background.js:26 | an attempt succeeds only where the key occurs |
| Patterns.Leftmost | background.js:26 | the search returns the first position whose attempt succeeds, and fails exactly when no attempt at or after the start succeeds |
| Patterns.LeftmostFirst | background.js:26 | a succeeding position with no success before it is what the search returns |
| Patterns.MatchComposition | background.js:26-27 | there is no match exactly when every attempt fails, and a captured value is always escaped text |
| Patterns.MatchCompositionFirst | background.js:26-27 | the match is the capture of the leftmost attempt that succeeds |
| Patterns.CompositionOfEmbedded | background.js:26 | in a text where no match starts before the key, the key followed by escaped text and a quote captures that text, whatever follows |
| Patterns.CompositionAtOpen | background.js:26 | the attempt at the key followed by escaped text and a quote captures that text |
| Patterns.NextDataAt | background.js:84 | an attempt succeeds only where the opening tag occurs, and its body never contains `</script>` |
| Patterns.NoCloseBefore | background.js:84 | the text before the first `</script>` contains none |
| Patterns.MatchNextData | background.js:84-85 | there is no match exactly when every attempt fails, and a body never contains `</script>` |
| Patterns.MatchNextDataFirst | background.js:84-85 | the body is that of the leftmost opening tag whose attempt succeeds |
| Patterns.FirstGreaterThan | background.js:84 | `[^>]*>` ends at the first `>` |
| Patterns.FirstScriptClose | background.js:84 | the lazy body ends at the first `</script>` |
| Patterns.NextDataOfPage | background.js:84 | a page where no match starts before a data section yields that section's body, when its attributes hold no `>` and its body no `</script>` |
| Patterns.NextDataAtOpen | background.js:84 | the attempt at an opening tag followed by attributes without `>`, `>`, a body without `</script>` and `</script>` captures that body |
| Background.Escape | background.js:29 | encoding a text as a JSON string value (for texts without control characters) gives escaped text that does not start with a quote |
| Background.QuotesUnescaped | background.js:29 | the first replace-all (`ReplaceAll` of `\"`) turns an escaped text into one where only the backslashes are still escaped |
| Background.EscapedBackslashKept | background.js:29 | the first replace-all leaves an escaped backslash alone when no quote follows it |
| Background.BackslashesUnescaped | background.js:29 | the second replace-all then restores the text |
| Background.UnescapeEscape | background.js:29 | `Unescape`, the two sequential replace-alls, inverts the escaping of any text |
| Background.GroupTexts | background.js:30-35 | when every group renders there is one text per group |
| Background.GroupTextsAt | background.js:30-35 | the group texts exist exactly when every group renders, and then appear in group order |
| Background.ParseMaterial | background.js:25-40 | the method returns what the specification `MaterialOf` gives |
| Background.FormatComposition | background.js:30-36 | iterating the decoded composition, pushing one text per group and joining returns the specified rendering |
| Background.MaterialWithoutClosedKey | background.js:26-27 | with no key, or with every value after the key unterminated, the result is null |
| Background.MaterialOfEmbedded | background.js:25-29 | `MaterialOf`: a text embedding an escaped composition after a prefix where no match starts renders what the composition decodes to, or null when it does not decode |
| Background.GroupTextShape | background.js:32-34 | `GroupText` (with `MaterialsText`, `MaterialText`): a group renders exactly when it is not null, its `type` stringifies where it is labelled, and its `materials` is an array of non-null entries whose `percentage` and `material` stringify; the text is the label followed by `percentage% material` entries in order, joined by `, ` |
| Background.MaterialTexts | background.js:33 | `MaterialText` over a group's materials succeeds exactly when every entry is non-null with a `percentage` and a `material` that stringify, giving `percentage% material` entries in order |
| Background.RenderedGroups | background.js:30-36 | `RenderComposition` of an array renders exactly when every group does, and the text is the groups in order joined by ` · ` |
| Background.SingleGroupUnlabelled | background.js:32 | a single group is rendered without a label |
| Background.SeveralGroupsLabelled | background.js:32 | with two or more groups every group's `type` stringifies and its text starts with `type: ` |
| Background.EmptyCompositions | background.js:30-36 | `RenderComposition` (with `Iterate`, which models `for…of`): an empty composition array, or the empty string, renders as the empty string and not as null |
| Background.RenderFailures | background.js:28-39 | `RenderComposition` (with `Iterate`, which models `for…of`): a value that cannot be iterated, a non-empty string, or a group without a `materials` array gives null |
| Background.UnconvertibleTypeFails | background.js:32 | a composition whose first group's `type` is an object with its own `toString` renders as null |
| Background.ItemsTable | background.js:67-69 | an object's own test returns its `items` exactly when that is an array that qualifies, and throws exactly when it is an array whose first element is null |
| Background.FindItems | background.js:58-75 | whatever the search returns is a size table |
| Background.FindInElems | background.js:60-66 | whatever the loop over the elements returns is a size table |
| Background.FindInFields | background.js:70-74 | whatever the loop over the fields returns is a size table |
| Background.FindItemsSound | background.js:58-75 | when the search stops, its result is the test outcome of some object in the tree |
| Background.FindInElemsSound | background.js:60-66 | when the loop over the elements stops, its result comes from one of the elements |
| Background.FindInFieldsSound | background.js:70-74 | when the loop over the fields stops, its result comes from one of the fields |
| Background.FindItemsComplete | background.js:58-75 | an object anywhere in the tree whose test qualifies or throws stops the search |
| Background.FindInElemsComplete | background.js:60-66 | such an object in any element stops the loop over the elements |
| Background.FindInFieldsComplete | background.js:70-74 | such an object in any field stops the loop over the fields |
| Background.FindItemsNotFoundIff | background.js:58-75 | the search returns null without throwing exactly when no object in the tree qualifies or throws |
| Background.UniqueTableFound | background.js:58-75 | the only qualifying list in a tree that does not throw is returned, whatever its depth |
| Background.FindItemsScalars | background.js:59 | null and the scalars give null |
| Background.FindInArrayFirstHit | background.js:60-66 | on an array the first element whose search returns something decides, and with none the result is null |
| Background.FindInObjectFirstHit | background.js:67-74 | an object's own `items` is tested before any field; failing that, the first field in key order whose search returns something decides |
| Background.FieldsFirstHit | background.js:70-74 | the first field whose search returns something decides the loop over the fields |
| Background.InStock | background.js:51 | the stock state is false exactly when `stock` is the string `no`, `out_of_stock` or `oos` |
| Background.KeepItem | background.js:48 | the filter callback throws exactly on null |
| Background.ToEntry | background.js:49-52 | an entry keeps the item's `name`, and is out of stock exactly for the three tokens |
| Background.ParseSizesOutcome | background.js:42-56 | `ParseSizes` gives a list exactly when the text parses, the search finds a table and the table holds no null; the list then starts with the table's first item, so it is never empty |
| Background.NormalizeFails | background.js:47-53 | normalisation throws exactly when the located list holds a null |
| Background.NormalizeKeeps | background.js:47-52 | `Normalize` (with `Entries`): the output is no longer than the list, keeps exactly the items with a truthy `name` and `stock`, and maps each to its name and stock state |
| Background.NormalizeAppend | background.js:47-52 | normalisation preserves order: it distributes over concatenation |
| Background.NullFirstItemHidesTable | background.js:44-55 | a null first element in an `items` list that is searched first makes the sizes null although a valid table comes later |
| Background.NullItemFailsSizes | background.js:47-55 | a null anywhere in the located list makes the sizes null |
| Background.FetchProduct | background.js:84-90 | without a data section the result is exactly the error; otherwise material and sizes both come from the first section's body |
| Background.PageWithoutSizeTable | background.js:84-90 | a page with a composition and no size table gives the decoded material and null sizes, both from the same body, for any text before the section and before the key in which no match starts |
| Content.ParseMaterialFromNextData | content.js:8-23 | the content script's copy returns what `parseMaterial` returns on every input |
| Content.FindItemsInData | content.js:38-55 | whatever the copy's search returns is a size table |
| Content.FindInDataElems | content.js:41-46 | whatever the copy's loop over the elements returns is a size table |
| Content.FindInDataFields | content.js:50-53 | whatever the copy's loop over the fields returns is a size table |
| Content.FindItemsInDataAgrees | content.js:38-55 | `findItemsInData` equals `findItems` on every JSON value |
| Content.ElemsAgree | content.js:41-46 | the two loops over an array's elements agree |
| Content.FieldsAgree | content.js:50-53 | the two loops over an object's fields agree |
| Content.ParseSizesFromNextDataAgrees | content.js:25-36 | `ParseSizesFromNextData` equals `parseSizes` on every input string |
| Content.SpanShape | content.js:60-61 | `SizeSpan` exists exactly when the name stringifies; it opens with the `cos-size--in` class exactly when the size is in stock, and holds the name text unescaped before the closing tag |
| Content.BuildSizesHTMLEmpty | content.js:58 | `BuildSizesHTML` of a null or empty size list is the empty string |
| Content.BuildSizesHTMLThrows | content.js:59-62 | `BuildSizesHTML` throws exactly when some name does not stringify |
| Content.BuildSizesHTMLCons | content.js:59-62 | the badges of a list are its head's span followed directly by the badges of the rest, with no separator, and throw when either does |
| Content.BuildSizesHTMLConcat | content.js:59-62 | the badges distribute over concatenation of size lists, throwing when either part does |
| Content.SpanAtSize | content.js:60-61 | reading a span back recovers its stock state and name text when the name stringifies to a text without `<` |
| Content.BuildSizesHTMLReadsBack | content.js:57-63 | when every name stringifies to a text without `<`, the badges exist and read back as exactly the sizes' stock states and names, one per size, in order |
| Content.NameIsNotEscaped | content.js:61 | markup in a name is copied into the badge as it is |

## Left out

- The message listener and its `cache` map (background.js:3-23): these are
  asynchronous messaging plumbing around `fetchProduct`.
- The fetch itself (background.js:77-82): network input. `FetchProduct`
  takes the page text as its argument, and the asynchrony of the promise is
  not modelled.
- `JSON.parse` is not modelled. It is the parameter `parse`, which returns
  `None` where the call throws.
  - Its key ordering is taken as given: an object is its fields in
    `Object.keys` order.
  - Its duplicate keys are taken as given: the fields are assumed distinct,
    and a read takes the first match where `JSON.parse` would keep the last
    value.
- Background.FindItems: the search recurses without a depth bound. In
  JavaScript a deeply nested value exhausts the call stack, and `parseSizes`
  turns the resulting RangeError into null; the same holds of
  Content.FindItemsInData. The engine's stack depth is not modelled.
- Background.Escape: the embedding of a text as a JSON string value is
  modelled for texts without control characters, which `JSON.stringify`
  writes as `\n`, `\t` or `\u00XX`; the two replace-alls do not undo those
  escapes. The model covers texts with no raw control characters, which is
  what `JSON.stringify` writes when it is given no indent argument. An
  indented composition text holds raw newlines between its tokens. Embedded
  in the page, those become `\n` escapes outside any inner string; the two
  replace-alls leave them, `JSON.parse` throws, and `parseMaterial` returns
  null. `MaterialOf` gives null there as well, but Background.MaterialOfEmbedded
  does not cover that case, because its premise is `Escape(t)`.
- The regular-expression engine in general: only the two patterns the engine
  uses are written out as scanners.
- Numbers are integers. Fractional and exponent-form numbers, and the text
  `${…}` gives them, are not modelled.
  - Js.IntToString: renders the exact decimal digits of any integer.
    JavaScript numbers are doubles, so above 2^53 they render as the shortest
    digits that round-trip (`2**60` gives `1152921504606847000`), and from
    1e21 upwards in exponent notation.
- Strings are sequences of code points.
  - `for…of` over a string does visit code points.
  - `length` counts UTF-16 units. It is read on arrays of groups, and on a
    decoded string, where it only decides the labels: a non-empty string fails
    on its first character whatever its length, and the empty string renders
    empty.
- All DOM, navigation and scheduling code of content.js, such as badge
  injection, card scanning, URL handling, the mutation observer, the timers
  and the module-level state. This is content.js:3-4 and 65-193, and it
  depends on a browser page.
- Content.BuildSizesHTMLReadsBack: the round trip is stated only for names
  that stringify to a text without `<`; a name that does not stringify makes
  the serialisation throw (Content.BuildSizesHTMLThrows). Names are copied without escaping
  (Content.NameIsNotEscaped), so a `<` in a name becomes markup.
