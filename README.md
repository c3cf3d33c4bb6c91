# Virtual dress try-on: outfit combinator and input rules

This project models the decision logic of a browser application in which a
user picks a photo of themselves and garments from a six-category catalogue
(outfits, tops, bottoms, footwear, headwear, accessories). For each
combination of garments, the application asks a generative-AI service for a
picture of the user wearing it. The model proves properties of that logic in
Dafny.

What is modelled:

- **Combinator** (`App.tsx`, `generateOutfitCombinations`). It turns the
  selection into the ordered list of looks to render.
  - The base layer is one look per selected outfit. With no outfit, it is the
    product of tops and bottoms.
  - Each base is crossed with the product of footwear, headwear and
    accessories. The rightmost category varies fastest.
  - Empty categories are skipped, not treated as annihilating.
  - The functions `Cartesian`, `Cross` and `Combinations` give the result
    as a value.
  - The methods `CollectBases`, `PushLooks` and `GenerateOutfitCombinations`
    are the push loops of the corrected code (see below). They are proved
    equal to `BaseLayer`, `Cross` and `Combinations` respectively.
    `CollectBases` skips the tops-and-bottoms product when both are empty,
    which the code as written (`App.tsx:38`) does not.
- **Try-on pre-flight** (`App.tsx`, `handleApplyFilter`). The run is refused,
  in this order, when:
  - there is no photo;
  - there are no looks;
  - a look holds a placeholder item, meaning a seed catalogue item with no
    image data.
- **Item naming** (`App.tsx`). An uploaded garment is named after its file,
  minus the last extension, or "Style Item".
- **Catalogue toggle** (`Catalogue.tsx`, `handleSelectItem`).
  - Clicking a selected item removes it; clicking an unselected item appends
    it.
  - Selecting an outfit clears tops and bottoms, and selecting a top or a
    bottom clears outfits.
  - The method `SelectItem` copies the selection into a map and updates it in
    place, as the handler does. It is proved equal to the function `Toggle`.
- **Style uploader** (`SareeUploader.tsx`, `processFiles`).
  - Non-image files are dropped, and a batch with no image at all is
    reported.
  - Images over 5 MiB are counted and reported.
  - The remaining files are passed on.
- **Photo uploader** (`ImageUploader.tsx`, `processFile`).
  - Size is checked before type.
  - The base64 payload is the second comma-separated piece of the data URL.
- **Error translation** (`geminiService.ts`, `parseGeminiError`). A thrown
  value becomes one of five user messages by keyword tests on the
  lower-cased error message, first match wins. A decision table
  (`Rules`/`FirstMatch`) serves as the reference definition.

`Strings` models the JavaScript string operations these rules use: `split`
and `join` on one character, `includes`, ASCII `toLowerCase`, and decimal
rendering of a number. It also defines an ASCII `ToUpper`, which no modelled
rule calls; it exists only to state `GeminiService.CaseInsensitive`. `Types` holds the record
shapes.

One point of the code does not do what it evidently means: what an entirely
empty selection produces (see Findings).
- The code as written produces one empty look, because `cartesian` of two
  empty lists is `[[]]` (`App.tsx:23`, `App.tsx:38`).
- Two branches are therefore unreachable: the accessory-only filter
  (`App.tsx:47-48`), and the "Please select at least one clothing item."
  guard of `handleApplyFilter` (`App.tsx:196-199`). Both exist only to
  handle a selection that gives no base look and no look at all. This shows
  that an empty selection was meant to give no look.
- The model has both versions. `CombinationsAsWritten` follows the code.
  `Combinations`, the corrected one, is what `GenerateOutfitCombinations`,
  the pre-flight checks and all other lemmas use.
- Through the user interface the two versions never differ. The handler's
  only caller is the "Try It On" button, and that button is disabled while
  nothing is selected (`App.tsx:240`, `App.tsx:307`; `TryOn.ButtonHidesEmptyLook`).

## Model

| member | source | states |
|---|---|---|
| Combinator.Cross | App.tsx:24-27 | the `flatMap` step has exactly \|bases\| × \|combos\| entries |
| Combinator.CrossAt | App.tsx:24-27 | entry `i*\|cs\|+j` of the step is base `i` followed by combination `j` (outer loop over bases) |
| Combinator.CrossMembers | App.tsx:24-27 | a sequence is in the step's result iff it is some base followed by some combination |
| Combinator.NonEmpty | App.tsx:22 | the `filter(arr => arr.length > 0)` keeps at most all arrays and every kept one is non-empty |
| Combinator.NonEmptyMembers | App.tsx:22 | every kept factor is an input factor, and every non-empty input factor is kept |
| Combinator.NonEmptyAppend | App.tsx:22 | the filter distributes over concatenation, so kept factors stay in their original order |
| Combinator.NonEmptyKeepsAll | App.tsx:22 | with no empty factor the filter returns its input unchanged |
| Combinator.Cartesian | App.tsx:21-28 | definition of `cartesian`: drop the empty factors, `[[]]` when none is left, else the left fold of the `reduce`; pinned down by `ProductMembers`, `CartesianLength`, `CartesianAppend` and `CartesianAppendOne` |
| Combinator.Product | App.tsx:24-27 | definition of the `reduce` from `[[]]`, each factor crossed in last; characterised independently by `ProductMembers` |
| Combinator.ChoiceCount | App.tsx:21-28 | reference definition: the product of the sizes of the non-empty factors (always at least 1), against which `CartesianLength` counts the helper's result |
| Combinator.SlotCount | App.tsx:17-58 | reference definition: the product of the sizes of the selected categories (at least 1), against which `CombinationsCount` counts the looks |
| Combinator.CartesianOfNoSlots | App.tsx:23 | with every factor empty, `cartesian` returns one empty combination |
| Combinator.CartesianSingle | App.tsx:21-28 | one non-empty factor gives one single-element combination per element, in order |
| Combinator.CartesianAppend | App.tsx:21-28 | the product of two factor lists side by side is the cross of their products (left list slowest) |
| Combinator.CartesianAppendOne | App.tsx:24-26 | the `reduce` step: a non-empty factor added last extends each earlier combination by each of its elements in turn |
| Combinator.ProductMembers | App.tsx:21-28 | a combination is produced iff it takes one element from each non-empty factor, in factor order |
| Combinator.CartesianLength | App.tsx:21-28 | the number of combinations is the product of the sizes of the non-empty factors |
| Combinator.Tag | App.tsx:30 | definition of `toTryOnItem` mapped over a category's list (as at App.tsx:34, 36-37, 41-43); `TagMembers` states its members |
| Combinator.TagMembers | App.tsx:30 | `toTryOnItem` over a category's list yields exactly its items tagged with that category |
| Combinator.SlotProductMembers | App.tsx:36-45 | a look is a combination of category selections iff it has exactly one item per filled category, in order, each from its own category |
| Combinator.NonEmptyCombos | App.tsx:48 | the final filter keeps exactly the non-empty combinations |
| Combinator.NonEmptyCombosKeepsAll | App.tsx:47-49 | the final filter changes nothing when no combination is empty |
| Combinator.NonEmptyCombosAppend | App.tsx:48 | the final filter distributes over concatenation, so kept combinations stay in order |
| Combinator.BaseLayerAsWritten | App.tsx:32-39 | definition of `baseItems` as written: the outfit singletons, else `cartesian(tops, bottoms)`, which is `[[]]` when both are empty; its effect is stated by `AsWrittenEmptyLook` |
| Combinator.BaseLayer | App.tsx:32-39 | definition of the corrected `baseItems`: empty when no outfit, top or bottom is selected; characterised by `OutfitBasesAsProduct` and `TopsOnlyBases`; the push loop `CollectBases` is proved equal to it |
| Combinator.AccessoryLayer | App.tsx:41-45 | definition of `accessoryCombos` as `cartesian(footwear, headwear, accessories)`; its members are given by `SlotProductMembers` |
| Combinator.Assemble | App.tsx:47-57 | definition of the final step: the non-empty accessory combinations when there is no base, else every base followed by every combination; characterised by `CrossAt` and `NonEmptyCombos` |
| Combinator.CombinationsAsWritten | App.tsx:17-58 | `generateOutfitCombinations` exactly as written; `AsWrittenEmptyLook` relates it to `Combinations` |
| Combinator.Combinations | App.tsx:17-58 | `generateOutfitCombinations` with the corrected base layer; characterised independently by `CombinationsAreSlotProduct`, `CombinationsMembers` and `CombinationsCount` |
| Combinator.OutfitBases | App.tsx:34 | definition: one single-item base per selected outfit, in selection order; `OutfitBasesAsProduct` relates it to the generic helper |
| Combinator.OutfitBasesAsProduct | App.tsx:33-34 | the per-outfit single-item bases equal `cartesian` over the single outfit factor, so outfits fit the same product as every other slot |
| Combinator.CombinationsAreSlotProduct | App.tsx:17-58 | the looks are the nested-loop product of the look's slot categories (base first), or none when nothing is selected |
| Combinator.CombinationsMembers | App.tsx:17-58 | a look is produced iff something is selected, its categories are exactly the look slots in order and each item is one selected in its category |
| Combinator.LookSlotsIncrease | App.tsx:33-45 | the slot categories of a look come in strictly increasing look order: base first, then footwear, headwear, accessories |
| Combinator.FilledKeepsOrder | App.tsx:22 | every category left after dropping the unselected ones comes from the input list, and the look order is kept |
| Combinator.FilledKeepsSelected | App.tsx:22 | every selected category of the input list is kept |
| Combinator.LookSlotIsSelected | App.tsx:33-45 | a look slot has a selected item, and is not tops or bottoms while an outfit is selected |
| Combinator.SelectedIsLookSlot | App.tsx:33-45 | a selected category is a look slot, unless it is tops or bottoms while an outfit is selected |
| Combinator.LookSlotMembers | App.tsx:33-45 | a category is a look slot iff something is selected in it, except tops and bottoms while an outfit is selected |
| Combinator.LookCategoriesIncrease | App.tsx:17-58 | the items of every look are in strictly increasing category order, so a look holds at most one item per category |
| Combinator.CombinationsCount | App.tsx:17-58 | the number of looks is the product of the sizes of the filled look slots, and 0 for an empty selection |
| Combinator.NoSlotsIffNothingSelected | App.tsx:33-45 | there is no look slot iff the selection is entirely empty |
| Combinator.NoLooksIffNothingSelected | App.tsx:17-58 | the corrected combinator returns no look iff the selection is entirely empty |
| Combinator.SingleSlotLooks | App.tsx:17-58 | a selection with a single look slot gives one single-item look per item of it |
| Combinator.OneCategoryOnly | App.tsx:17-58 | a single populated category of N items gives N single-item looks in selection order |
| Combinator.OutfitsOverrideSeparates | App.tsx:33-39 | with an outfit selected, the looks are the same as with tops and bottoms cleared |
| Combinator.OutfitLooks | App.tsx:33-55 | with an outfit selected there are \|outfits\| × \|accessory combos\| looks; look `i*\|acc\|+j` is outfit `i` alone followed by accessory combination `j` |
| Combinator.SeparatesThenAccessories | App.tsx:35-55 | without outfits, look `i*\|acc\|+j` is top/bottom base `i` followed by accessory combination `j` |
| Combinator.TopsOnlyBases | App.tsx:35-39 | tops without bottoms give one single-top base per top |
| Combinator.AccessoriesOnly | App.tsx:41-49 | without a base item, the looks are exactly the accessory combinations, none empty |
| Combinator.AsWrittenEmptyLook | App.tsx:35-49 | the code as written agrees with the corrected combinator except on the empty selection, where it yields one empty look |
| Combinator.SeparatesOnly | App.tsx:35-57 | tops and bottoms alone give every top-bottom pair, tops in the outer loop |
| Combinator.TwoTopsOneBottom | App.tsx:35-57 | tops [T1, T2] and bottoms [B1] give [[T1, B1], [T2, B1]] |
| Combinator.CollectBases | App.tsx:32-39 | the pushes into `baseItems` build the (corrected) base layer |
| Combinator.PushLooks | App.tsx:51-55 | the nested `forEach` pushes build every base followed by every accessory combination |
| Combinator.GenerateOutfitCombinations | App.tsx:17-58 | the procedure returns exactly the corrected combinations |
| TryOn.Flatten | App.tsx:201 | `flat()` holds exactly the items of all looks |
| TryOn.HasPlaceholder | App.tsx:201 | `some(item => !item.image.base64)` holds iff some item has empty image data |
| Combinator.FilledAreSelectedAt | App.tsx:33-45 | every look slot has at least one selected item |
| TryOn.SelectedItemIsUsed | App.tsx:17-58 | every selected item appears, under its category, in some look, except tops and bottoms while an outfit is selected |
| TryOn.EverySlotItemIsUsed | App.tsx:17-58 | every selected item of a look slot appears, under its category, in some look |
| TryOn.PlaceholderComesFromSlot | App.tsx:201 | a placeholder found in some look is a selected item of a look slot |
| TryOn.SlotPlaceholderIsUsed | App.tsx:201 | a placeholder selected in a look slot is found by the check |
| TryOn.PlaceholderIffSelected | App.tsx:201-205 | the placeholder check fires iff some selected item of a slot the looks use is a placeholder |
| TryOn.ApplyFilterOutcome | App.tsx:188-205 | no photo is rejected first; with a photo, "no items" iff nothing is selected; then "placeholder" iff a used item is one; otherwise all looks go ahead, none holding a placeholder |
| TryOn.AsWrittenGeneratesEmptyLook | App.tsx:188-205 | the handler as written, called with a photo and nothing selected, passes every check with one empty look (a dead branch through the interface, see `ButtonHidesEmptyLook`) |
| TryOn.SelectedItems | App.tsx:240 | `Object.values(selectedItems).flat()` is empty iff nothing is selected, and holds every selected item |
| TryOn.ApplyEnabled | App.tsx:307 | definition of the negated `disabled` test of the "Try It On" button: not loading, a photo chosen, an item selected; used by `ButtonHidesEmptyLook` |
| TryOn.ButtonHidesEmptyLook | App.tsx:307 | whenever the "Try It On" button is enabled (its `disabled` test uses `itemsToTryOn` of line 240), the handler as written and the corrected one agree, and the "no items" rejection cannot occur |
| TryOn.IsPlaceholder | App.tsx:201 | definition: an item whose image data is empty is a placeholder; used by `HasPlaceholder` and `PlaceholderIffSelected` |
| TryOn.PreFlight | App.tsx:188-205 | definition of the three checks in source order; its outcome is stated by `ApplyFilterOutcome` |
| TryOn.ApplyFilter | App.tsx:188-205 | `handleApplyFilter` up to generation over the corrected combinator; its outcome is stated by `ApplyFilterOutcome` |
| TryOn.ApplyFilterAsWritten | App.tsx:188-205 | `handleApplyFilter` over the combinator as written; related to `ApplyFilter` by `AsWrittenGeneratesEmptyLook` and `ButtonHidesEmptyLook` |
| TryOn.DropLast | App.tsx:123 | definition of `slice(0, -1)`: every piece but the last, none of an empty list; used by `NameDropsLastExtension` |
| TryOn.StyleItemName | App.tsx:123 | definition of the garment name; its behaviour is stated by `NameWithoutExtension`, `NameDropsLastExtension` and `NameIsNeverEmpty` |
| TryOn.NameWithoutExtension | App.tsx:123 | a file name without a dot gets the name "Style Item" |
| TryOn.NameDropsLastExtension | App.tsx:123 | `stem.ext` is named `stem`, dots in the stem kept, and "Style Item" when the stem is empty |
| TryOn.NameIsNeverEmpty | App.tsx:123 | the derived name is never empty |
| Catalogue.HasId | components/Catalogue.tsx:37 | `some(i => i.id === id)` holds iff an entry has that id |
| Catalogue.WithoutId | components/Catalogue.tsx:40 | the filter keeps exactly the entries with another id |
| Catalogue.WithoutAbsentId | components/Catalogue.tsx:40 | filtering out an absent id leaves the list unchanged |
| Catalogue.WithoutIdAppend | components/Catalogue.tsx:40 | the filter distributes over concatenation, so the kept entries stay in order |
| Catalogue.Toggle | components/Catalogue.tsx:29-56 | definition of the updater's result; the method `SelectItem` is proved equal to it and the toggle lemmas state what it does |
| Catalogue.ToggleRemoves | components/Catalogue.tsx:39-40 | clicking a selected item removes its id from its category and changes no other category |
| Catalogue.ToggleAppends | components/Catalogue.tsx:41-42 | clicking an unselected item appends it at the end of its category |
| Catalogue.SelectOutfitClearsSeparates | components/Catalogue.tsx:44-47 | selecting an outfit empties tops and bottoms and leaves the accessory categories alone |
| Catalogue.SelectSeparateClearsOutfits | components/Catalogue.tsx:49-51 | selecting a top or a bottom empties outfits and changes no other category |
| Catalogue.AccessoryToggleIsLocal | components/Catalogue.tsx:41-52 | footwear, headwear and accessory clicks change only their own category |
| Catalogue.ToggleKeepsExclusive | components/Catalogue.tsx:29-56 | every click keeps outfits and tops/bottoms mutually exclusive, and a new base item restores it |
| Catalogue.ToggleTwiceRestores | components/Catalogue.tsx:29-56 | selecting a new item and clicking it again restores the selection when the first click cleared nothing |
| Catalogue.SelectItem | components/Catalogue.tsx:29-56 | copying every category and then updating the copy in place yields the toggled selection |
| StyleUploader.IsImage | components/SareeUploader.tsx:22 | definition of `file.type.startsWith('image/')` as a prefix test; used by `AcceptedMembers` and `SameRuleAsStyleUploader` |
| StyleUploader.WithinLimit | components/SareeUploader.tsx:29 | definition of `file.size <= MAX_FILE_SIZE_BYTES`; its boundary is stated by `SizeLimitBoundary` |
| StyleUploader.ImageFiles | components/SareeUploader.tsx:22 | keeps exactly the files whose type starts with `image/` |
| StyleUploader.SizedFiles | components/SareeUploader.tsx:29 | keeps exactly the files of at most 5 MiB |
| StyleUploader.ImageAppend | components/SareeUploader.tsx:22 | the type filter distributes over concatenation, so kept files stay in order |
| StyleUploader.SizedAppend | components/SareeUploader.tsx:29 | the size filter distributes over concatenation, so kept files stay in order |
| StyleUploader.Accepted | components/SareeUploader.tsx:22-29 | reference definition: the images within the limit in one pass, in order; `FiltersAreAccepted` equates the two filters with it |
| StyleUploader.CountOversized | components/SareeUploader.tsx:30 | reference definition: the number of images over the limit; `FiltersAreAccepted` equates the length difference with it |
| StyleUploader.OversizedMessage | components/SareeUploader.tsx:33 | definition of the message text; `OversizedMessageLeadsWithCount` states that it leads with the count |
| StyleUploader.ProcessFiles | components/SareeUploader.tsx:20-39 | definition of `processFiles` as a value; its outcome is stated by `EmptyBatch`, `NoImageInBatch`, `WithImages` and `BatchOutcome` |
| StyleUploader.FiltersAreAccepted | components/SareeUploader.tsx:22-30 | the two filters in order keep the accepted files in order, and the count difference is the number of oversized images |
| StyleUploader.AcceptedMembers | components/SareeUploader.tsx:22-29 | a file is passed on iff it is an image of at most 5 MiB |
| StyleUploader.EmptyBatch | components/SareeUploader.tsx:20-39 | an empty batch clears the error and uploads nothing |
| StyleUploader.NoImageInBatch | components/SareeUploader.tsx:24-27 | a non-empty batch without images is reported and nothing is uploaded |
| StyleUploader.WithImages | components/SareeUploader.tsx:29-38 | with an image present, the result is the oversized-count message (if any) and the accepted files (if any) |
| StyleUploader.BatchOutcome | components/SareeUploader.tsx:29-38 | with an image present, the error is the oversized count message iff any image is oversized, and the accepted files are uploaded iff there are any |
| StyleUploader.SizeLimitBoundary | components/SareeUploader.tsx:5-6 | exactly 5 242 880 bytes is accepted, one byte more is not |
| StyleUploader.OversizedMessageLeadsWithCount | components/SareeUploader.tsx:33 | the message starts with the oversized count in decimal |
| ImageUploader.TooLargeMessage | components/ImageUploader.tsx:20 | definition of the too-large message, with the limit rendered in decimal; `SizeCheckedFirst` tells it apart from the type message |
| ImageUploader.CheckFile | components/ImageUploader.tsx:18-26 | definition of the two guards, size first; stated by `SizeCheckedFirst` and `SameRuleAsStyleUploader` |
| ImageUploader.ErrorAfterCheck | components/ImageUploader.tsx:18-27 | definition of the error left shown: the refusal message, or cleared on passing; stated by `SameRuleAsStyleUploader` |
| ImageUploader.ExtractBase64 | components/ImageUploader.tsx:33 | definition of `dataUrl.split(',')[1]` with `undefined` as `None`; stated by `ExtractPayload` and `NoCommaNoPayload` |
| ImageUploader.SizeCheckedFirst | components/ImageUploader.tsx:18-26 | an oversized file is refused as too large whatever its type; "not an image" only for files within the limit |
| ImageUploader.SameRuleAsStyleUploader | components/ImageUploader.tsx:18-27 | the photo guard passes, and clears the error, exactly for the files the style uploader keeps |
| ImageUploader.PhotoSizeBoundary | components/ImageUploader.tsx:9-22 | a 5 242 880-byte image passes, one byte more is too large |
| ImageUploader.ExtractPayload | components/ImageUploader.tsx:33 | the extracted base64 is the text between the first comma and the next one, whatever follows; for `header,payload` it is the payload |
| ImageUploader.PayloadHasNoComma | components/ImageUploader.tsx:33 | whatever the data URL, the extracted payload never holds a comma |
| ImageUploader.NoCommaNoPayload | components/ImageUploader.tsx:33 | a data URL without a comma yields no payload (`undefined`) |
| GeminiService.ParseGeminiError | services/geminiService.ts:10-27 | the reply is always one of the five user messages; a non-`Error` gets the generic one |
| GeminiService.Classify | services/geminiService.ts:12-24 | the keyword tests always give one of the five user messages |
| GeminiService.MatchesAny | services/geminiService.ts:19-22 | an `a \|\| b` of `includes` tests holds iff some keyword occurs |
| GeminiService.FirstMatch | services/geminiService.ts:12-26 | reference definition: the reply of the first rule of a table whose keywords match, else the generic message; `ParseIsFirstMatch` equates the code with it |
| GeminiService.ParseIsFirstMatch | services/geminiService.ts:10-27 | the chain of tests equals the decision table read top to bottom |
| GeminiService.FirstRuleWins | services/geminiService.ts:12-24 | the first matching rule decides whatever later rules say |
| GeminiService.NoRuleMatches | services/geminiService.ts:25-26 | with no matching rule the reply is the generic message |
| GeminiService.CaseInsensitive | services/geminiService.ts:12 | the reply does not depend on the letter case of the message |
| GeminiService.KeywordsAreLowerCase | services/geminiService.ts:13-22 | every keyword is its own lower-case form |
| GeminiService.KeywordSelectsReply | services/geminiService.ts:12-24 | a message carrying rule r's keyword anywhere gets rule r's reply unless an earlier rule matches |
| GeminiService.ApiKeyTakesPrecedence | services/geminiService.ts:13-15 | an invalid-key message is a configuration problem even if it also mentions quota or outages |
| GeminiService.NoKeywordIsGeneric | services/geminiService.ts:25-26 | a message with no keyword in lower case gets the generic reply |
| Strings.Split | App.tsx:123 | definition of `split` on one character, always at least one piece; stated by `JoinSplit`, `SplitAround` and `SplitWithoutSep` |
| Strings.Join | App.tsx:123 | definition of `join` on one character; `JoinSplit` makes it the inverse of `Split` |
| Strings.Contains | services/geminiService.ts:13-22 | definition of `includes`; `ContainsIff` equates it with an occurrence at some position |
| Strings.ToLower | services/geminiService.ts:12 | `toLowerCase` on ASCII, letter by letter, same length; `SameLowerCase` and `ToLowerAppend` state its algebra |
| Strings.SplitWithoutSep | components/ImageUploader.tsx:33 | a string without the separator splits into itself alone |
| Strings.ToLowerAppend | services/geminiService.ts:12 | lower-casing distributes over concatenation |
| Strings.JoinSplit | App.tsx:123 | joining the pieces of a split with the same separator gives back the string |
| Strings.SplitAround | App.tsx:123 | splitting at a separator splits each side independently |
| Strings.ContainsIff | services/geminiService.ts:13 | `includes` holds iff the keyword occurs at some position |
| Strings.SameLowerCase | services/geminiService.ts:12 | lower-casing forgets upper-casing and is idempotent |
| Strings.NatToString | components/SareeUploader.tsx:33 | a number renders as decimal digits without leading zeros |
| Strings.DecimalRoundTrip | components/SareeUploader.tsx:33 | reading a rendered number back gives the number |

## Left out

- The calls to the generative-AI service are out of the model: garment
  classification and try-on rendering. They are I/O over the network.
- The generation loop after the pre-flight checks of `handleApplyFilter`,
  and the sequential classification loop of `handleStyleUpload`, are left
  out. They are async, and they consist of timing and state updates around
  the service calls. Only the name derivation inside the second loop is
  modelled.
- File reading (`FileReader`), drag and drop, the camera, timers and
  `localStorage` are browser I/O. A file enters the model as its name, type
  and size, and a data URL enters as a string.
- Rendering in JSX and the React state hooks are not modelled. The model
  does not capture when `setError` or `setSelectedItems` take effect.
  - The `StyleUploader` error and upload are returned as a value.
  - `SelectItem` returns the next selection that the updater function would
    return.
- The variable `selectedCats` in `generateOutfitCombinations` is computed
  but never used, so it is not modelled.
- `Strings.ToLower`: covers ASCII letters only. JavaScript's full Unicode
  case mapping is not modelled, and the difference is visible. JavaScript
  lower-cases some non-ASCII letters to ASCII ones: U+212A KELVIN SIGN
  becomes "k". So a message that writes the "k" of "api key not valid" as that sign gets the
  configuration reply from the program, but the generic reply from the
  model. Likewise, JavaScript's `toUpperCase` turns "ı" (U+0131) into "I".
  So `GeminiService.CaseInsensitive` holds for the model's ASCII case
  mapping, not for the real functions on every input.
- `TryOn.IsPlaceholder`: treats an empty base64 string as a placeholder.
  The `undefined` value that `!item.image.base64` (`App.tsx:201`) also
  catches is not a string in the model. The test is true for both `""` and
  `undefined`, so an image read that yields no payload counts as a
  placeholder either way; the model's `""` stands for both.
- `Strings.Split`: a one-character separator only. That is the only kind
  the modelled code uses.
- Catalogue items are told apart by `id` alone, as in the code. A catalogue
  with two items sharing an id is allowed. For such a catalogue,
  `Catalogue.ToggleRemoves` states that every entry with the id goes.

## Findings

| source | as written | input that shows it | evidently intended | confidence | as-written member | corrected member |
|---|---|---|---|---|---|---|
| App.tsx:35-49, 196-199 | with no outfit, `cartesian(tops, bottoms)` returns `[[]]` even when both are empty, so `baseItems` is never empty and the accessory-only branch with its filter is dead code (accessory-only selections still come out right, crossed with the `[[]]` base) | every category empty: the result is `[[]]` (one empty look), so the guard at App.tsx:196-199 is dead and, if `handleApplyFilter` were called with a photo and nothing selected, one empty look would go to generation; its only caller, the "Try It On" button, is disabled for an empty selection (App.tsx:240, 307), so through the interface the defect is a dead branch and an unreachable guard, not a wrong run | an empty selection yields no look, and the try-on is refused with the "select at least one clothing item" message | high (derived from the code; not executed) | Combinator.AsWrittenEmptyLook, TryOn.AsWrittenGeneratesEmptyLook | Combinator.NoLooksIffNothingSelected, TryOn.ApplyFilterOutcome |
