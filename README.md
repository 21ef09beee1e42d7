# Schedule-of-Works upload pass — a Dafny model

This project models the core of a contractor-operations web application. A user uploads a
spreadsheet (the "Schedule of Works"), and the upload pass turns each row into a draft line
item. For each row it trims the code and the description and skips the row when both are
blank. It then classifies the row by the classification rules:

- an exact CODE rule first;
- otherwise the NONSOR rule, taken in ascending priority, whose pattern occurs in the
  description, ignoring case;
- otherwise "Other".

It checks the contract rate. The carpet item has a fixed price of 32.10; every other row
must carry the base rate plus 15%. It looks up the default contractor for
"category|region" and records every amount in pence. Around the pass the model also covers:

- the penny conversions of `utils/money.ts`;
- the demo-mode patch of the local item list in `updateItem`;
- the dashboard's completed-versus-total figures and its donut percentage.

Modules, leaves first:

- `Wrappers` (`wrappers.dfy`): `Option`.
- `JsText` (`js_text.dfy`): `trim`, ASCII `toLowerCase`, `includes`.
- `JsMath` (`js_math.dfy`): `Math.round`, `Math.abs`.
- `Money` (`money.dfy`): `toPence`, `fromPence`.
- `Classifier` (`classifier.dfy`): `classify`, with the stable priority sort.
- `Upload` (`upload.dfy`): `contractRateCheck`, the `rows.forEach` callback and the loop.
- `Scenarios` (`scenarios.dfy`): two rows of the demo job worked through the pass.
- `Items` (`items.dfy`): the `updateItem` patch of the local list.
- `Dashboard` (`dashboard.dfy`): the totals and `Donut`'s percentage.

Amounts in pounds are exact `real`s and pence are `int`s. A missing numeric cell is
`None`, and `x || 0` reads both `None` and zero as 0. A missing text cell is `""`, as the
spreadsheet parser's default value makes it. The source's `Array.prototype.sort` is stable,
so it is written as an insertion sort that keeps earlier rules ahead of later rules with the
same priority. `SortedFindIsBest` shows that searching the sorted list gives the matching
NONSOR rule of least effective priority (a missing priority counts as 100), and the earliest
such rule on a tie. Every stable sort orders the rules the same way, so this holds whatever
sort the JavaScript engine uses.

The row loop is the method `Upload.BuildDrafts`. It is proved equal to the filter-map
`Upload.Drafts`, and the lemmas state what `Upload.Drafts` emits.

Where the code and its design description differ, the model follows the code:

- A draft's `row_index` is the row's position among all rows, skipped rows included.
- The carpet item's review flag is the classification flag OR the rate check. So "needs no
  review iff the rate is within a penny of 32.10" holds only when a rule classifies the row.
  `Upload.NeedsReviewIff` states the full condition.
- The default assignee is also empty, and the status "Unassigned", when the defaults map
  holds an empty name for the key.

## Model

| member | source | states |
|---|---|---|
| `JsText.Trim` | app/app/page.tsx:278-279 | the trimmed text is a slice of the input with only ECMAScript whitespace and line terminators (`IsSpace`) cut on either side, and it neither starts nor ends with such a character |
| `JsText.TrimEmptyIff` | app/app/page.tsx:280 | a text trims to "" exactly when every character is whitespace or a line terminator |
| `JsText.TrimIdempotent` | app/app/page.tsx:278-279 | trimming an already trimmed text changes nothing |
| `JsText.Lower` | app/app/page.tsx:250 | A-Z become a-z, every other character is kept, and no upper-case ASCII letter remains |
| `JsText.LowerIdempotent` | app/app/page.tsx:250-256 | lower-casing twice is lower-casing once |
| `JsText.Contains` | app/app/page.tsx:256 | `includes` is true exactly when the pattern occurs at some offset of the text |
| `JsMath.Round` | utils/money.ts:1 | `Math.round` gives the unique integer n with n - 1/2 <= x < n + 1/2, so a tie goes towards +infinity |
| `JsMath.RoundUnique` | utils/money.ts:1 | no other integer satisfies that window |
| `JsMath.RoundMonotone` | utils/money.ts:1 | rounding is monotone |
| `JsMath.Abs` | app/app/page.tsx:270-273 | the absolute value is non-negative and equals x or -x |
| `Money.ToPence` | utils/money.ts:1 | the pence are the amount times 100, rounded half up |
| `Money.FromPence` | utils/money.ts:2 | a missing amount gives 0 pounds; otherwise the pounds times 100 are the pence |
| `Money.ToPenceFromPence` | utils/money.ts:1-2 | every whole number of pence survives the conversion to pounds and back |
| `Money.FromPenceToPence` | utils/money.ts:1-2 | converting to pence and back moves an amount by at most half a penny |
| `Money.ToPenceMonotone` | utils/money.ts:1 | a larger amount never gives fewer pence |
| `Classifier.FindExact` | app/app/page.tsx:246 | `find` returns an exact CODE rule of the list for the code, and nothing exactly when the list holds none |
| `Classifier.OnlyNonSor` | app/app/page.tsx:252 | the filter keeps every NONSOR rule of the list, as often as it occurs there, and nothing else |
| `Classifier.Insert` | app/app/page.tsx:253-255 | inserting into a priority-sorted list keeps it sorted and adds exactly the one rule |
| `Classifier.SortByPriority` | app/app/page.tsx:253-255 | the sort gives a permutation of the rules in ascending effective priority |
| `Classifier.FindMatch` | app/app/page.tsx:256 | `find` returns the first rule in list order that matches, and nothing exactly when no rule matches |
| `Classifier.SortedFind` | app/app/page.tsx:250-256 | the NONSOR step returns a NONSOR rule of the list that matches the description, and nothing exactly when no NONSOR rule matches |
| `Classifier.Classify` | app/app/page.tsx:241-260 | a classification needing review is "Other"; one needing none carries the category of a rule that claims the row, by its exact code or by its description |
| `Classifier.FindExactIsFirst` | app/app/page.tsx:246 | `find` returns the first exact CODE rule for the code, and nothing exactly when there is none |
| `Classifier.BestMatchUnique` | app/app/page.tsx:251-256 | at most one rule is the best NONSOR match |
| `Classifier.FindMatchInsert` | app/app/page.tsx:253-256 | in a sorted list, an inserted rule is found exactly when it matches and no earlier find has a strictly lower priority |
| `Classifier.SortedFindIsBest` | app/app/page.tsx:250-256 | searching the stably sorted NONSOR rules gives the matching rule of least effective priority (missing = 100), the earliest on a tie, and nothing exactly when no NONSOR rule matches |
| `Classifier.ClassifyByCode` | app/app/page.tsx:242-247 | when some CODE rule's pattern equals the trimmed code, the category is the first such rule's and no review is asked, whatever the NONSOR rules say |
| `Classifier.ClassifyByDescription` | app/app/page.tsx:249-257 | without an exact CODE rule, the category is that of the best NONSOR match of the lower-cased trimmed description, with no review |
| `Classifier.ClassifyFallback` | app/app/page.tsx:259 | when no rule applies, the category is "Other" and review is needed |
| `Classifier.ClassifyNeedsReviewIff` | app/app/page.tsx:241-260 | classification asks for review exactly when no CODE rule and no NONSOR rule applies |
| `Upload.DraftFor` | app/app/page.tsx:277-312 | the callback yields no draft exactly when the trimmed code and description are both empty; a draft carries the row's index and is Assigned exactly when its assignee is non-empty |
| `Upload.BuildDrafts` | app/app/page.tsx:276-313 | the `rows.forEach` loop leaves in `toInsert` exactly the filter-map `Drafts` of the rows |
| `Upload.BlankRowSkipped` | app/app/page.tsx:278-280 | a row yields no draft exactly when its code and description hold only whitespace |
| `Upload.DraftOfRow` | app/app/page.tsx:278-310 | a draft carries the trimmed code, description, location and comments, the untrimmed unit, the quantity, the row index, the base rate in pence and the classifier's category |
| `Upload.ContractRateCheck` | app/app/page.tsx:262-274 | `contractRateCheck` fixes the rate at 32.10 exactly for code "NONSOR" with the carpet description, otherwise expects base * 1.15, and is valid exactly when the contract rate is less than 0.01 away from the rate it fixes or expects |
| `Upload.CarpetRowPricing` | app/app/page.tsx:268-304 | for code "NONSOR" and the carpet description, the contract rate is 3210 pence and the total is `toPence(32.1 * qty)`, whatever the contract rate and TOTAL cells say |
| `Upload.UpliftRowRate` | app/app/page.tsx:283-301 | any other row keeps `toPence(contract)` as its contract rate |
| `Upload.UpliftRowTotal` | app/app/page.tsx:283-304 | any other row's total is `toPence(TOTAL)` when TOTAL is present and non-zero, else `toPence(contract * qty)` |
| `Upload.NeedsReviewIff` | app/app/page.tsx:262-311 | a draft needs review exactly when no rule classifies it or the contract rate is 0.01 or more from the expected rate (32.10 for the carpet item, base * 1.15 otherwise) |
| `Upload.AssigneeDefault` | app/app/page.tsx:293-309 | the assignee is `defaults[category + "|" + region]`, or "" if the key is absent; the region is the form's, else the job's; the status is Assigned exactly when the assignee is non-empty, else Unassigned |
| `Upload.Drafts` | app/app/page.tsx:276-313 | the pass emits at most one draft per row, and none when every row is blank |
| `Upload.EmittedAt` | app/app/page.tsx:276-313 | the k-th pushed draft comes from the k-th emitting row; these positions strictly increase, and every emitting row has one |
| `Upload.DraftsSound` | app/app/page.tsx:277-280 | there are no more drafts than rows, every draft is the callback's result for the row at its `row_index`, and row indices strictly increase |
| `Upload.DraftsComplete` | app/app/page.tsx:277-313 | every row that is not blank has its draft in the output |
| `Scenarios.GasRowUnmatched` | app/app/page.tsx:69-83 | with no rules, the gas safety row (58.01 base, 65.55 contract) is "Other", needs review and keeps 6555 pence, and its contract rate also fails the 15% uplift check |
| `Scenarios.CarpetRowClassified` | app/app/page.tsx:199-206 | the seed NONSOR rule files the carpet row under Flooring without review |
| `Scenarios.CarpetRowAssigned` | app/app/page.tsx:84-98 | the demo carpet row (qty 2, Gloucester), uploaded with the seed rule and a regional default for Flooring, becomes a Flooring draft of 2791 / 3210 / 6420 pence, assigned to that default, with no review needed |
| `Items.ApplyPatch` | app/app/page.tsx:385 | `{ ...r, ...patch }` overwrites exactly the fields the patch holds and keeps the id and every other field |
| `Items.UpdateItems` | app/app/page.tsx:385 | the patched list has the same length, order and ids; items with the given id are patched and all others are unchanged |
| `Items.UpdateItemsIdempotent` | app/app/page.tsx:409 | sending the same patch twice gives the same list as sending it once |
| `Items.UpdateItemsCommute` | app/app/page.tsx:385 | patches to two different ids give the same list in either order |
| `Items.UpdateItemsEmptyPatch` | app/app/page.tsx:385 | an empty patch leaves the list unchanged |
| `Dashboard.SumPence` | app/app/dashboard/page.tsx:37-39 | the sum counts a null total as 0: rows with no negative total sum to a non-negative amount, and all-null rows sum to 0 |
| `Dashboard.CompletedRows` | app/app/dashboard/page.tsx:38 | the filter keeps each row whose status is "Completed" as often as it occurs, and no other row |
| `Dashboard.ComputeTotals` | app/app/dashboard/page.tsx:37-40 | `countAll` is the number of rows and `countCompleted` is at most `countAll` |
| `Dashboard.TotalSplits` | app/app/dashboard/page.tsx:37-39 | the total (a null counting as 0) is the completed rows' sum plus the other rows' sum, and the two groups make up all rows |
| `Dashboard.CompletedWithinTotal` | app/app/dashboard/page.tsx:37-39 | when no total is negative, 0 <= completed pence <= total pence |
| `Dashboard.Percent` | app/app/dashboard/page.tsx:10 | the percentage is 0 when the total is not positive |
| `Dashboard.PercentInRange` | app/app/dashboard/page.tsx:10 | for 0 <= value <= total the percentage lies in [0, 100] |
| `Dashboard.PercentOfWhole` | app/app/dashboard/page.tsx:10 | a positive total is 100 per cent of itself |

## Left out

- Backend calls are not modelled, because they are network I/O against an external store. These are authentication, the queries of jobs, line items, categories, rules, regional defaults and contractors, the bulk insert, the evidence upload and the reloads.
- The building of the rules and the defaults map from the fetched rows is not modelled (app/app/page.tsx:222-236). The model takes the rules and the defaults map as inputs.
- The non-demo path of `updateItem` is not modelled (app/app/page.tsx:389-407). It includes the store-side automatic "Assigned" status.
- The spreadsheet codec (`parseXlsx`, `exportXlsx`) is not modelled, because it is a wrapper over a spreadsheet library and the file reader. Rows arrive already typed.
- `Number()` coercion of arbitrary strings to NaN is not modelled.
- A CODE or DESCRIPTION cell that the parser delivers as a number is not modelled, because cells are typed as text. In the source, the loop's `String(...)` makes such a cell text, but `classify` passes the raw cell to `norm`, and `(7300 || '').trim()` throws a TypeError (app/app/page.tsx:239, 242). That aborts the whole upload after the job has already been created (app/app/page.tsx:176-192) and before any line item is stored.
- Floating point is not modelled. `base * 1.15`, `gbp * 100` and the 0.01 comparisons use exact reals, with no IEEE-754 rounding.
- `Lower`: non-ASCII case mapping is not modelled. `toLowerCase` maps all of Unicode; the model maps only A-Z.
- `pounds` is not modelled, because it depends on locale currency formatting.
- React state, effects, the URL hash and `?job=` syncing, routing and all rendering are not modelled. This includes the donut's stroke geometry (app/app/dashboard/page.tsx:11-12).
- The `Date.now()`-based demo identifiers are not modelled (app/app/page.tsx:178, 317). The model takes item ids as given.
- `Items.ApplyPatch`: the patch covers only the fields the table's editors send (category, assignee name, status; app/app/page.tsx:782-801). A patch may in principle hold any field.
- Rule kinds other than CODE and NONSOR are collapsed into one constructor, `Unrecognised`. Both searches ignore such rules.
- A rule whose category name is missing (`r.categories?.name`) is not modelled. Category names are strings.
- The presentational and configuration files are not modelled: the UI components, the logo, the login page, the home, create and finance pages, the layout, the Tailwind configuration and the environment reader.
