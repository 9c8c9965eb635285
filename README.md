# Shop Profit Pulse: verified model of the import and list logic

This project is a Dafny model of the in-memory logic behind Shop Profit
Pulse. Shop Profit Pulse is a store dashboard that imports order exports,
shipping-label ledgers and product costs. The model takes each piece away
from its database, CSV-parser and UI calls, and proves what each piece
promises.

- `js_values.dfy` (module `JsValues`) holds the host semantics the sources rely on:
  - the CSV cell value and ordered rows (`Row` is a sequence of key/value pairs, in `Object.keys` order);
  - `String.prototype.trim` and lower-casing;
  - truthiness and `??`;
  - `Number()` on strings, which returns a `JsNumber` that can be finite, infinite or NaN;
  - the `parseFloat`/`parseInt` prefix readers;
  - currency formatting (used only to state round trips);
  - the generic helpers `FilterMap` (an order-preserving filter with a dropped count) and `FirstIndex` (`find`/`findIndex`), with their lemmas.
- `csv_import.dfy` (module `CsvImport`) models the order CSV import:
  - header normalisation and alias lookup;
  - the lenient amount and quantity readers;
  - grouping rows by order id;
  - the order payloads and their totals;
  - attaching line items after the upsert;
  - the reported counts.

  The upsert and the item insert are function parameters that stand for the store.
- `pirate_ship_csv.dfy` (module `PirateShipCsv`) models the Pirate Ship ledger cleaner: label/payment detection, the amount reader, and the loop that keeps labels and counts the rows it ignores.
- `pirate_ship_detailed.dfy` (module `PirateShipDetailed`) models the detailed Pirate Ship parser:
  - the two-phase case-insensitive column lookup `getValueCI`: exact match in candidate order first, then substring match in key order;
  - the type filter;
  - the per-row record with its defaults.
- `orders_columns.dfy` (module `OrdersColumns`) models the column preferences of the orders table:
  - the default columns;
  - `normalize`, `visibleColumns`, `toggleVisibility`, `resize`, `reset` and `reorder`;
  - a corrected `normalize` that keeps the stored order.
- `columns_customizer.dfy` (module `ColumnsCustomizer`) models the drag-and-drop dialog. Its drag state is a class. The drop moves one id with two splices.
- `expenses.dfy` (module `Expenses`) models the expenses page:
  - the parent/child category partition;
  - the local delete, rename and selection updates;
  - the variant-draft row operations;
  - the checks `onSaveProduct` makes before saving;
  - vendor resolution and the variant records;
  - tag splitting;
  - the field extraction and skip rule of the expenses CSV import.

Accounting exports often write a negative amount in parentheses, such as `(12.50)`. The order CSV import strips the parentheses (src/components/orders/CsvImport.tsx:27), so it reads such an amount as positive. `CsvImport.ParenthesisedAmountIsPositive` states that behaviour.

## Model

| member | source | states |
|---|---|---|
| CsvImport.NormalizeHeader | src/components/orders/CsvImport.tsx:16 | the normalised header holds only `a`-`z` and `0`-`9` |
| CsvImport.NormalizeIdempotent | src/components/orders/CsvImport.tsx:16 | normalising twice is normalising once |
| CsvImport.NormalizeIgnoresCase | src/components/orders/CsvImport.tsx:16 | letter case never changes the normalised header |
| CsvImport.NormalizeIgnoresSeparator | src/components/orders/CsvImport.tsx:16 | spaces, underscores and other non-alphanumerics between words are ignored |
| CsvImport.OrderIdSpellings | src/components/orders/CsvImport.tsx:16 | "Order ID", "Order_ID" and "OrderID" normalise alike |
| CsvImport.GetVal | src/components/orders/CsvImport.tsx:17-23 | the key loop returns what the first matching row key holds, or nothing |
| CsvImport.FindValNone | src/components/orders/CsvImport.tsx:17-23 | nothing is found exactly when no key matches any candidate |
| CsvImport.FindValFirstMatch | src/components/orders/CsvImport.tsx:17-23 | a found value belongs to the first key, in row order, that matches some candidate |
| CsvImport.FindValCandidateOrder | src/components/orders/CsvImport.tsx:17-23 | candidate lists with the same normalised set find the same value, so candidate order does not matter |
| CsvImport.MatchesViaSet | src/components/orders/CsvImport.tsx:20 | a key matches a candidate list exactly when its normal form is in the list's normalised set |
| CsvImport.FindValHeaderSpelling | src/components/orders/CsvImport.tsx:17-23 | rows whose headers normalise alike give the same lookups |
| CsvImport.ParseAmount | src/components/orders/CsvImport.tsx:25-30 | a missing or null value reads as 0 |
| CsvImport.FormattedAmountParses | src/components/orders/CsvImport.tsx:25-30 | a formatted dollar amount such as `$1,234.56` reads back as its value |
| CsvImport.AmountIgnoresParentheses | src/components/orders/CsvImport.tsx:27 | parentheses around an amount are stripped and have no effect |
| CsvImport.ParenthesisedAmountIsPositive | src/components/orders/CsvImport.tsx:27-29 | `($x)` reads as the positive amount x |
| CsvImport.AmountWithoutDigits | src/components/orders/CsvImport.tsx:27-29 | text without digits, such as `""` or `abc`, reads as 0 |
| CsvImport.ParseQuantity | src/components/orders/CsvImport.tsx:111-112 | the quantity is never 0, and a missing quantity is 1 |
| CsvImport.QuantityOfDigits | src/components/orders/CsvImport.tsx:111-112 | a signed digit string reads as its value, with 0 replaced by 1 |
| CsvImport.QuantityWithoutDigits | src/components/orders/CsvImport.tsx:111-112 | a quantity without digits is 1 |
| CsvImport.OrderIdOfRow | src/components/orders/CsvImport.tsx:75-76 | the row's order id is the trimmed text of the first order-id column |
| CsvImport.GroupOf | src/components/orders/CsvImport.tsx:73-80 | every row of a group has the group's id and comes from the input |
| CsvImport.GroupIdsSpec | src/components/orders/CsvImport.tsx:73-80 | the group ids are distinct, and they are exactly the non-empty ids that have rows |
| CsvImport.GroupMembership | src/components/orders/CsvImport.tsx:76-79 | a row with a non-empty id is in its own group; a row with an empty id is in no group |
| CsvImport.GroupRows | src/components/orders/CsvImport.tsx:73-80 | the grouping loop builds exactly the groups, in first-seen order, each in input order |
| CsvImport.GroupRow | src/components/orders/CsvImport.tsx:74-79 | one loop step adds the row to its group or opens a new one, and keeps the map's invariant |
| CsvImport.GroupedSumConserved | src/components/orders/CsvImport.tsx:73-80 | summed over the groups, any per-row weight totals the same as over the kept rows, so group sizes add up to the rows kept |
| CsvImport.LineItemDefaults | src/components/orders/CsvImport.tsx:107-119 | the quantity is never 0; the product defaults to "Unknown"; COGS is 0 |
| CsvImport.BuildLineItem | src/components/orders/CsvImport.tsx:106-125 | the line item built for a row |
| CsvImport.PayloadDefaults | src/components/orders/CsvImport.tsx:97-138 | `total_cogs` is 0, the source is "csv", and the store name defaults to "CSV Import" |
| CsvImport.BuildOrder | src/components/orders/CsvImport.tsx:92-139 | the accumulating loop yields the payload and its line items |
| CsvImport.BuildOrders | src/components/orders/CsvImport.tsx:89-140 | one payload per group, in group order, and the items by order id |
| CsvImport.ItemsSums | src/components/orders/CsvImport.tsx:121-122 | an order's totals are the sums of its line prices and fees |
| CsvImport.PayloadTotalsAreGroupSums | src/components/orders/CsvImport.tsx:121-137 | summed over the payloads, `total_price` and `total_fees` equal the grouped sums of the line values |
| CsvImport.OrderTotalsConserved | src/components/orders/CsvImport.tsx:73-137 | over all payloads, prices and fees add up to those of every row with an order id |
| CsvImport.ReplyMap | src/components/orders/CsvImport.tsx:150-151 | the inserted map's ids are exactly the order ids in the store's reply |
| CsvImport.CollectInserted | src/components/orders/CsvImport.tsx:150-151 | the loop builds that map, with later pairs overwriting earlier ones |
| CsvImport.Attach | src/components/orders/CsvImport.tsx:158-160 | every line gets the order's primary key, in line order |
| CsvImport.ItemsToInsertSpec | src/components/orders/CsvImport.tsx:154-161 | items are emitted only for orders the store returned, with that order's key, and every line of such an order is emitted |
| CsvImport.AttachItems | src/components/orders/CsvImport.tsx:154-161 | the nested loop emits exactly those items |
| CsvImport.HandleImport | src/components/orders/CsvImport.tsx:66-175 | the import's outcome: no rows, no order ids, failure message, or counts and items |
| CsvImport.FinishImport | src/components/orders/CsvImport.tsx:143-175 | the outcome once the payloads are sent |
| CsvImport.NoOrderIdsNoUpsert | src/components/orders/CsvImport.tsx:82-86 | with no order id in any row, the import stops, whatever the store would answer |
| CsvImport.StoreCounts | src/components/orders/CsvImport.tsx:168-170 | unique = number of groups, inserted = distinct returned ids, inserted + duplicates = unique, and duplicates >= 0 |
| CsvImport.ImportIdsDistinct | src/components/orders/CsvImport.tsx:73-80 | the order ids sent to the store are distinct and non-empty |
| PirateShipCsv.LabelTypePadded | src/lib/shipping/parsePirateShipCsv.ts:15-23 | "label" in any case and padding is a label type and not a payment type |
| PirateShipCsv.ParseNumber | src/lib/shipping/parsePirateShipCsv.ts:25-32 | numbers are returned unchanged; types other than string give null |
| PirateShipCsv.ParseNumberOfNumeral | src/lib/shipping/parsePirateShipCsv.ts:25-32 | a string whose `$`/`,`-stripped form is a finite numeral reads as that number |
| PirateShipCsv.FormattedNumeral | src/lib/shipping/parsePirateShipCsv.ts:28 | a formatted dollar amount such as `-$1,234.56`, stripped of `$` and `,`, is a numeral of its value, so with ParseNumberOfNumeral it reads back as that value |
| PirateShipCsv.ParseNumberBlank | src/lib/shipping/parsePirateShipCsv.ts:28 | a total of only `$`, `,` and spaces reads as 0, because `Number("")` is 0 |
| PirateShipCsv.CleanRow | src/lib/shipping/parsePirateShipCsv.ts:39-64 | a row is kept iff it is a label with a date, a description and a numeric total; the entry is provider "PirateShip", type "Label", trimmed fields, and the total with its sign |
| PirateShipCsv.CleanPirateShipCsvRows | src/lib/shipping/parsePirateShipCsv.ts:34-67 | the loop keeps the clean rows in order, and cleaned + ignored = rows |
| PirateShipCsv.NonLabelIgnored | src/lib/shipping/parsePirateShipCsv.ts:42-45 | a non-label row leaves no trace in the output and counts once as ignored |
| PirateShipCsv.PaymentIgnored | src/lib/shipping/parsePirateShipCsv.ts:20-45 | a payment row is never cleaned |
| PirateShipCsv.CleanedFromRows | src/lib/shipping/parsePirateShipCsv.ts:38-64 | every cleaned entry comes from an input row, and every clean row appears |
| PirateShipDetailed.FindKey | src/lib/shipping/parsePirateShipDetailed.ts:36 | `keys.find` of the key equal to a trimmed lower-cased candidate |
| PirateShipDetailed.AnyContained | src/lib/shipping/parsePirateShipDetailed.ts:42 | `candidates.some` of a candidate contained in the key |
| PirateShipDetailed.ExactPhase | src/lib/shipping/parsePirateShipDetailed.ts:35-38 | the first loop finds the first candidate, in candidate order, that some key equals |
| PirateShipDetailed.LoosePhase | src/lib/shipping/parsePirateShipDetailed.ts:40-43 | the second loop finds the first key, in row order, containing some candidate |
| PirateShipDetailed.GetValueCIOf | src/lib/shipping/parsePirateShipDetailed.ts:33-45 | the exact phase first, then the substring phase, then undefined |
| PirateShipDetailed.ExactIsLoose | src/lib/shipping/parsePirateShipDetailed.ts:36-42 | an exact match is also a substring match |
| PirateShipDetailed.GetValueCINone | src/lib/shipping/parsePirateShipDetailed.ts:33-45 | undefined iff no trimmed lower-cased key contains any candidate |
| PirateShipDetailed.FirstCandidateWins | src/lib/shipping/parsePirateShipDetailed.ts:35-38 | an exact hit on the first candidate wins over everything |
| PirateShipDetailed.LooseFirstKey | src/lib/shipping/parsePirateShipDetailed.ts:40-43 | without exact hits, the first key in row order containing a candidate gives the value |
| PirateShipDetailed.CandidateSpelling | src/lib/shipping/parsePirateShipDetailed.ts:36-42 | the case and padding of the candidates do not matter |
| PirateShipDetailed.OrDefault | src/lib/shipping/parsePirateShipDetailed.ts:61-79 | `??` gives the default exactly for missing or null values |
| PirateShipDetailed.ShipDate | src/lib/shipping/parsePirateShipDetailed.ts:55-56 | a falsy date gives null, any other date its string form |
| PirateShipDetailed.ParsePirateShipDetailed | src/lib/shipping/parsePirateShipDetailed.ts:47-87 | the loop outputs the entries of the kept rows in input order, and never more entries than rows |
| PirateShipDetailed.EntryDefaults | src/lib/shipping/parsePirateShipDetailed.ts:55-80 | the workspace is "default"; a missing or null currency is "USD", any other is kept, so the currency is never null; the amount is the parsed total or 0; the date is null iff falsy |
| PirateShipDetailed.DetailedFromRows | src/lib/shipping/parsePirateShipDetailed.ts:50-84 | every entry comes from a kept row, and every kept row gives an entry |
| PirateShipDetailed.UntypedRowKept | src/lib/shipping/parsePirateShipDetailed.ts:52-53 | a row with no type column is kept |
| PirateShipDetailed.DetailedAppend | src/lib/shipping/parsePirateShipDetailed.ts:50-84 | rows are handled one by one, so parsing keeps input order across concatenation |
| OrdersColumns.DefaultIdsDistinct | src/components/orders/useOrdersColumns.ts:25-37 | the default column ids are distinct |
| OrdersColumns.NormalizeOnto | src/components/orders/useOrdersColumns.ts:42-45 | the result has the default ids in default order, and a column with no saved entry is its default |
| OrdersColumns.NormalizeEntry | src/components/orders/useOrdersColumns.ts:43-44 | each entry is its default overlaid with the last saved entry of that id |
| OrdersColumns.NormalizeNothing | src/components/orders/useOrdersColumns.ts:43-44 | no saved list, or an empty one, gives the defaults |
| OrdersColumns.NormalizeDiscardsUnknown | src/components/orders/useOrdersColumns.ts:43-44 | saved entries with unknown ids are discarded |
| OrdersColumns.ReloadDefaultOrder | src/components/orders/useOrdersColumns.ts:42-45 | a stored layout in default order, with widths set, reloads unchanged |
| OrdersColumns.ReloadForgetsOrder | src/components/orders/useOrdersColumns.ts:42-45 | a stored layout reloads unchanged only if its ids are in default order |
| OrdersColumns.VisibleColumnsSpec | src/components/orders/useOrdersColumns.ts:58 | a column is visible-listed iff it is visible; the list is no longer than the columns |
| OrdersColumns.VisibleColumnsAppend | src/components/orders/useOrdersColumns.ts:58 | the filter keeps order across concatenation |
| OrdersColumns.ToggleVisibility | src/components/orders/useOrdersColumns.ts:136-142 | only columns with that id change, and only in `visible`, which becomes `next` or flips |
| OrdersColumns.ToggleTwice | src/components/orders/useOrdersColumns.ts:138 | toggling twice without `next` gives back the list |
| OrdersColumns.ToggleKeepsIds | src/components/orders/useOrdersColumns.ts:138 | toggling keeps the id order |
| OrdersColumns.ToggleVisible | src/components/orders/useOrdersColumns.ts:58-138 | `next = false` hides the column from the visible list, `next = true` shows it |
| OrdersColumns.Round | src/components/orders/useOrdersColumns.ts:157 | `Math.round` lands within half a pixel |
| OrdersColumns.ResizedWidth | src/components/orders/useOrdersColumns.ts:157 | the width is the larger of `minWidth ?? 60` and the rounded width |
| OrdersColumns.Resize | src/components/orders/useOrdersColumns.ts:155-161 | only that column's width changes, and nothing else |
| OrdersColumns.ResizeBounds | src/components/orders/useOrdersColumns.ts:157 | the new width is never below the minimum, and the ids are kept |
| OrdersColumns.ResizeIdempotent | src/components/orders/useOrdersColumns.ts:155-161 | resizing twice to the same width is resizing once |
| OrdersColumns.Reset | src/components/orders/useOrdersColumns.ts:163-169 | reset gives the default list |
| OrdersColumns.ById | src/components/orders/useOrdersColumns.ts:146 | the lookup finds a column with that id, or there is none |
| OrdersColumns.Reorder | src/components/orders/useOrdersColumns.ts:144-153 | the requested columns, then the unrequested ones appended in the loop |
| OrdersColumns.ReorderShape | src/components/orders/useOrdersColumns.ts:147-149 | with distinct ids: the requested known columns in requested order, then the rest in previous order |
| OrdersColumns.ReorderRequestedFirst | src/components/orders/useOrdersColumns.ts:147 | the requested columns come first, and each is a previous column with a requested id |
| OrdersColumns.ReorderIgnoresUnknown | src/components/orders/useOrdersColumns.ts:147 | an unknown requested id is dropped |
| OrdersColumns.ReorderPermutation | src/components/orders/useOrdersColumns.ts:144-153 | without duplicate requests, the result is a permutation of the previous list |
| OrdersColumns.ReorderPermutedIds | src/components/orders/useOrdersColumns.ts:144-153 | reordering by the ids of a permutation gives that permutation |
| OrdersColumns.ReloadKeepsOrder | src/components/orders/useOrdersColumns.ts:42-153 | the corrected reload gives back any stored layout of the known columns, including its order |
| OrdersColumns.KeepingOrderPermutation | src/components/orders/useOrdersColumns.ts:42-45 | the corrected reload is a permutation of the default-order merge |
| ColumnsCustomizer.Move | src/components/orders/OrdersColumnsCustomizer.tsx:29-31 | the splice pair keeps the length |
| ColumnsCustomizer.MoveSpec | src/components/orders/OrdersColumnsCustomizer.tsx:30-31 | the moved id lands at `index`, and the others keep their relative order |
| ColumnsCustomizer.MovePermutation | src/components/orders/OrdersColumnsCustomizer.tsx:29-31 | the new id list is a permutation of the old |
| ColumnsCustomizer.MoveBack | src/components/orders/OrdersColumnsCustomizer.tsx:30-31 | dragging back undoes a move |
| ColumnsCustomizer.DropMovesColumn | src/components/orders/OrdersColumnsCustomizer.tsx:29-32 | reordering by the moved ids moves the column itself |
| ColumnsCustomizer.DropLostOnReload | src/components/orders/OrdersColumnsCustomizer.tsx:27-34 | a real drop on the default layout does not survive a reload |
| ColumnsCustomizer.Customizer.HandleDragStart | src/components/orders/OrdersColumnsCustomizer.tsx:25 | the drag index is set |
| ColumnsCustomizer.Customizer.HandleDrop | src/components/orders/OrdersColumnsCustomizer.tsx:27-34 | no drag or the same index reorders nothing; otherwise the moved ids are handed on and the drag index is cleared |
| Expenses.CategoryPartition | src/pages/Expenses.tsx:116-117 | parents are exactly the top-level categories and children the rest; together they hold every category once |
| Expenses.DeleteCategorySpec | src/pages/Expenses.tsx:161 | exactly the deleted category and its direct children go |
| Expenses.DeleteKeepsGrandchildren | src/pages/Expenses.tsx:161 | a grandchild survives its grandparent's delete |
| Expenses.DeletedChildStaysSelected | src/pages/Expenses.tsx:161-163 | deleting the selected child category leaves its id selected |
| Expenses.SelectionFollowsDelete | src/pages/Expenses.tsx:162-163 | with the corrected update, the selected child is kept only when the delete keeps it |
| Expenses.RenameCategory | src/pages/Expenses.tsx:152 | only categories with that id change, and only in name |
| Expenses.RenameKeepsTree | src/pages/Expenses.tsx:116-152 | the parents after a rename are the renamed parents, and the children the renamed children, position by position with the same ids and parent ids |
| Expenses.FindParentCategory | src/pages/Expenses.tsx:304 | a found parent is top-level with a case-insensitive matching name; with none found, no such parent exists |
| Expenses.FindChildCategory | src/pages/Expenses.tsx:317 | the same for a child under the given parent |
| Expenses.FindParentCategoryFirst | src/pages/Expenses.tsx:304 | the first matching top-level category, in list order, is the one found |
| Expenses.FindChildCategoryFirst | src/pages/Expenses.tsx:317 | the first matching child under that parent, in list order, is the one found |
| Expenses.FindVendor | src/pages/Expenses.tsx:225 | a found vendor's name matches ignoring case; with none found, no vendor matches |
| Expenses.FindVendorIgnoresCase | src/pages/Expenses.tsx:351 | names that lower-case alike find the same vendor |
| Expenses.FindVendorFirst | src/pages/Expenses.tsx:225 | the first matching vendor in the list is the one found |
| Expenses.Patched | src/pages/Expenses.tsx:182 | an empty patch changes nothing |
| Expenses.AddVariantRow | src/pages/Expenses.tsx:180 | exactly one row is appended, with size and cost "" unless the preset sets them |
| Expenses.RemoveVariantRowSpec | src/pages/Expenses.tsx:181 | exactly row `idx` goes and the length drops by one; an index out of range changes nothing |
| Expenses.UpdateVariant | src/pages/Expenses.tsx:182 | only row `idx` changes, to the row overlaid with the patch |
| Expenses.UpdateThenRemove | src/pages/Expenses.tsx:181-182 | updating a row and then removing it is removing it |
| Expenses.CleanVariantsSpec | src/pages/Expenses.tsx:209 | exactly the rows with a size and a cost other than "" are kept |
| Expenses.FirstSet | src/pages/Expenses.tsx:205-212 | `a || b` on ids gives a non-empty one of the two |
| Expenses.CheckSaveProduct | src/pages/Expenses.tsx:203-212 | the checks in order, each both ways: sign-in is refused exactly without a user; the parent exactly when signed in and `productParentId \|\| selectedParentId` is empty; the name exactly when those pass and it trims to ""; the variants exactly when those pass and no row is clean; otherwise the save is ready, with the clean rows, the trimmed name, and the chosen parent and target ids |
| Expenses.SaveRefusedWithoutVariants | src/pages/Expenses.tsx:209-210 | past the earlier checks, saving is refused iff no row has both a size and a cost |
| Expenses.QuickAddNotSavable | src/pages/Expenses.tsx:184-210 | the quick-add rows alone can never be saved |
| Expenses.Split | src/pages/Expenses.tsx:297 | splitting gives at least one piece, and no piece holds the separator |
| Expenses.JoinSplit | src/pages/Expenses.tsx:297 | joining the pieces gives back the string |
| Expenses.SplitJoin | src/pages/Expenses.tsx:297 | splitting joined separator-free pieces gives the pieces |
| Expenses.TagsClean | src/pages/Expenses.tsx:246 | every tag is non-empty, trimmed and free of commas |
| Expenses.TagsRoundTrip | src/pages/Expenses.tsx:246 | clean tags joined by commas read back as the same list |
| Expenses.Dedup | src/pages/Expenses.tsx:221 | the vendor name set holds each name once, and exactly the names given |
| Expenses.ResolveVendors | src/pages/Expenses.tsx:223-236 | a known name maps to the existing vendor's id, a new one to its inserted id, a failed insert to nothing; exactly the inserted vendors are added |
| Expenses.OptionalText | src/pages/Expenses.tsx:242-247 | `v?.trim() \|\| null` is the trimmed text, or null when that is empty |
| Expenses.VariantRecords | src/pages/Expenses.tsx:238-248 | one record per clean variant, in order |
| Expenses.VariantVendorLinked | src/pages/Expenses.tsx:221-245 | a variant naming a known vendor in any case is linked to it; one whose vendor insert failed is linked to none |
| Expenses.RecordTagsClean | src/pages/Expenses.tsx:246 | saved tags are non-empty and comma-free |
| Expenses.TextOf | src/pages/Expenses.tsx:289-298 | the first truthy alias gives its trimmed text when it is a string and no field (the `.trim()` throw) otherwise; with every alias falsy, the field is "" |
| Expenses.CsvSkipRule | src/pages/Expenses.tsx:289-299 | an imported row has a non-empty trimmed product and size and a cost other than 0 or NaN; an empty product or size, or such a cost, skips it |
| Expenses.CsvBlankCostSkipped | src/pages/Expenses.tsx:294-299 | a blank cost cell reads as 0, so the row is skipped |
| Expenses.CsvProductFallback | src/pages/Expenses.tsx:291 | the product falls back from `product` to `item` |

## Left out

- Network and storage traffic is not modelled:
  - every database call (Supabase selects, inserts, upserts, updates and deletes), auth sessions and realtime;
  - the order upsert and item insert in `CsvImport`, which are function parameters;
  - the vendor insert in `Expenses.ResolveVendors`, which is a function parameter;
  - the column-preference persistence to localStorage and the settings table, which is taken to store the column list as it is.
- CSV file reading (Papa.parse) is not modelled. Each model starts from parsed rows.
- Parts of JavaScript number semantics are not modelled:
  - `Number()` with exponents, hex or binary literals is NaN in the model;
  - number-to-string conversion is carried as the cell's text;
  - float rounding and float summation are exact real arithmetic in the model.
- Dates (`new Date`, `toISOString`) are opaque values. The order date is the looked-up cell. A non-empty order date that does not parse makes `toISOString()` throw (src/components/orders/CsvImport.tsx:131). The catch at lines 179-185 then fails the whole import with "Invalid time value". `CsvImport.ImportSpec` never gives that outcome.
- Unicode case folding and whitespace are restricted. Lower-casing maps only `A`-`Z`. Whitespace is a fixed set of common space characters.
- CsvImport.HandleImport: the JavaScript ordering of `Object.entries` over integer-like order ids is not modelled. The items are emitted in group order, which gives the same set of items.
- Expenses.ResolveVendors: the map is keyed by the requested name. This assumes the vendor insert echoes back the name it was given (`vendorMap[ins.name]`).
- Expenses.FindVendor and the other name matches compare `toLowerCase()` only under the restricted lower-casing above.
- The remaining steps of the expenses CSV import are left out: creating the parent, child and item, resolving the vendor per row, and counting successes. They are database round trips; the field extraction, the skip rule and the category lookups are modelled.
- The items query of the expenses page and `childrenOfSelectedParent` are left out. They are query building and a UI filter.
- React rendering and UI state are left out, beyond the customizer's drag index.
- ColumnsCustomizer.Customizer.HandleDrop requires both positions to be rows of the list. The dialog only produces such positions, and `splice` beyond the end is not modelled.
- OrdersColumns.Round: the contract states a bound (within half a pixel). The definition, `floor(w + 0.5)`, is the exact `Math.round` rule.
- PirateShipCsv.ParseNumber: for strings, the contract is stated through PirateShipCsv.ParseNumberOfNumeral (a finite numeral after stripping reads as its value), PirateShipCsv.FormattedNumeral (formatted dollar amounts strip to numerals of their value), PirateShipCsv.ParseNumberBlank (blank totals read as 0) and the entries PirateShipCsv.CleanRow keeps. The two halves of the formatted round trip are not composed into one lemma, because that single proof exceeds the resource limit.

## Findings

| source | as written | input that shows it | evidently intended | confidence | as-written member | corrected member |
|---|---|---|---|---|---|---|
| src/components/orders/useOrdersColumns.ts:42-45 | `normalize` maps over the defaults, so a reloaded layout is always in default order, although `reorder` stores the new order (lines 62, 150) | drag "sku" to the front, then reload: the stored list starts with "sku"; the reloaded one starts with "order_id" | the reload keeps the stored order of the known columns and appends any new default columns | medium, not executed | OrdersColumns.ReloadForgetsOrder | OrdersColumns.ReloadKeepsOrder |
| src/pages/Expenses.tsx:163 | after a delete, the selected child is cleared only when it is a child of the deleted category, not when it is the deleted category itself | select child category `c`, then delete `c`: `selectedChildId` stays `c`, so a new product can target a category that no longer exists | the selection is also cleared when the selected child is the one deleted | medium, not executed | Expenses.DeletedChildStaysSelected | Expenses.SelectionFollowsDelete |
