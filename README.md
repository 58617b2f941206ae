# OfferBee merchant dashboard — a Dafny model

OfferBee's merchant dashboard lets a merchant list, create and delete
discount vouchers. All pricing and validation happen on a backend server; the
dashboard itself holds two small pieces of logic, and this project models
both and proves what they promise:

- **The voucher table** (`app/dashboard/page.tsx`, module `Dashboard`): the
  status badge of a voucher at a given time (Inactive, Scheduled, Expired,
  Exhausted or Active, checked in that order), the Discount and Usage cell
  captions, and the `vouchers` list that a fetch fills and a successful
  delete filters (class `VoucherTable`).
- **The create-voucher form** (`app/dashboard/create/page.tsx`, module
  `CreateVoucher`): the 8-character random code generator, the guard on the
  discount value input, the reset on a discount type change (class
  `CreateVoucherForm`), and the request body built on submit, with its
  eligibility object and its coercions of optional numbers.

Module `Js` models the JavaScript semantics these rely on. `Number(text)` is
a partial parse to a real, where None stands for NaN. A comparison with NaN
is false. `Number(null)` is 0, which is what a form field that is not on the
page reads as. A `Date` may be the Invalid Date, and every comparison with
it is false. The current time is a parameter `now` (milliseconds), and
`Math.random()` is a sequence of draws in [0, 1).

Two modelling decisions follow the code closely:
- The classifier does not assume activationDate < expiryDate and may meet an
  Invalid Date, so it is modelled and proved for inverted windows and
  Invalid Dates too.
- The maxDiscount fallback to the discount value's text
  (app/dashboard/create/page.tsx:97) is modelled as the code has it.

## Model

| member | source | states |
|---|---|---|
| `Dashboard.GetVoucherStatus` | app/dashboard/page.tsx:91-109 | Inactive exactly when the voucher is not active; Active exactly when it is active, not before activation, not after expiry and usageCount < usageLimit; the variant is destructive exactly for Inactive, Expired and Exhausted, secondary exactly for Scheduled, default exactly for Active |
| `Dashboard.InactiveOverridesAll` | app/dashboard/page.tsx:96-98 | an inactive voucher is Inactive/destructive whatever its dates and counts |
| `Dashboard.ScheduledBeforeActivation` | app/dashboard/page.tsx:99-101 | an active voucher before its activation is Scheduled/secondary, even when used up or when its expiry precedes its activation |
| `Dashboard.ExpiredStrictlyAfterExpiry` | app/dashboard/page.tsx:102-104 | once activated, a voucher is Expired exactly when now is strictly past expiry, so not at the expiry instant; Expired is destructive |
| `Dashboard.ExhaustedAtLimit` | app/dashboard/page.tsx:105-107 | inside its window a voucher with usageCount >= usageLimit, equality included, is Exhausted/destructive |
| `Dashboard.ActiveExactlyInWindow` | app/dashboard/page.tsx:96-108 | with readable dates, Active iff active, activationDate <= now <= expiryDate and usageCount < usageLimit |
| `Dashboard.InvalidDatesNeverDecide` | app/dashboard/page.tsx:93-104 | an unreadable activation date never yields Scheduled and an unreadable expiry date never yields Expired, since NaN comparisons are false |
| `Dashboard.StatusMovesForward` | app/dashboard/page.tsx:96-108 | as time passes the badge only moves Scheduled, then Active or Exhausted, then Expired, and the same phase means the same badge |
| `Dashboard.DiscountCellAsWritten` | app/dashboard/page.tsx:150-158 | the cell the page renders: the discount value, then "%" for a percentage and " USD" otherwise; nothing more for a null maxDiscount, a lone 0 for a maxDiscount of 0, and the "(max: $m)" note otherwise |
| `Dashboard.DiscountCell` | app/dashboard/page.tsx:150-158 | the corrected cell, not what the page renders: the cell starts with the discount value, then "%" for a percentage and " USD" otherwise; the "(max: $m)" note is there exactly when maxDiscount is non-null and non-zero |
| `Dashboard.DiscountCellStrayZero` | app/dashboard/page.tsx:153-157 | the cell as written equals the intended cell, except that it ends in an extra 0 exactly when maxDiscount is 0 |
| `Dashboard.StrayZeroExample` | app/dashboard/page.tsx:151-157 | a 10% voucher with maxDiscount 0 renders 10, "%", 0 where the intended cell has 10, "%" |
| `Dashboard.UsageCell` | app/dashboard/page.tsx:160 | the Usage cell is totalUsageCount, "/", usageLimit |
| `Dashboard.UsageCellAndStatusReadDifferentCounts` | app/dashboard/page.tsx:105-160 | the Usage cell does not depend on usageCount, and the badge does not depend on totalUsageCount |
| `Dashboard.ExhaustedWhileUsageCellShowsRoom` | app/dashboard/page.tsx:105-160 | a voucher can show 0/5 in its Usage cell and still be Exhausted |
| `Dashboard.WithoutId` | app/dashboard/page.tsx:85 | the filtered list is no longer than the original; no entry carries the id; a voucher is in it iff it was in the original and does not carry the id |
| `Dashboard.WithoutIdAppend` | app/dashboard/page.tsx:85 | filtering a concatenation is concatenating the filtered parts |
| `Dashboard.WithoutIdKeepsOrder` | app/dashboard/page.tsx:85 | every entry without the id is kept, at the position after the kept entries before it, so kept entries keep their order |
| `Dashboard.WithoutIdCounts` | app/dashboard/page.tsx:85 | every voucher without the id keeps its number of occurrences, and vouchers with the id occur no more |
| `Dashboard.WithoutAbsentId` | app/dashboard/page.tsx:85 | deleting an id that no entry carries leaves the list as it was |
| `Dashboard.WithoutIdIdempotent` | app/dashboard/page.tsx:85 | deleting the same id twice is deleting it once |
| `Dashboard.VoucherTable.constructor` | app/dashboard/page.tsx:33-34 | the list starts empty and loading |
| `Dashboard.VoucherTable.ReceiveVouchers` | app/dashboard/page.tsx:36-57 | after the fetch the list is the server's data if the response was ok and is unchanged otherwise; loading ends either way |
| `Dashboard.VoucherTable.DeleteVoucher` | app/dashboard/page.tsx:70-89 | after an ok response the list is the filter of the old list by the id, and no entry carries the id; otherwise it is unchanged; nothing else changes |
| `Js.NumberShowInt` | app/dashboard/create/page.tsx:53-57 | `Number` reads back the decimal text of every integer, negative ones included |
| `Js.NumberOfBlank` | app/dashboard/create/page.tsx:53-57 | `Number` of blank text, the empty string included, is 0 |
| `Js.NumberOfPaddedLiteral` | app/dashboard/create/page.tsx:53-57 | white space of any kind before and after any text whose ends are not white space leaves its `Number` unchanged |
| `Js.NumberOfPadded` | app/dashboard/create/page.tsx:53-57 | white space before and after the text of an integer does not change its value |
| `Js.NumberOfDecimal` | app/dashboard/create/page.tsx:53-57 | digits, a point and digits read as the whole part plus the digits after the point over the matching power of ten ("2.5" is 2 + 5/10) |
| `Js.NumberOfExponent` | app/dashboard/create/page.tsx:53-57 | digits, an "e" and an integer exponent read as the digits' value times ten to that exponent ("1e2" is 100, "5e-1" is 0.5) |
| `Js.NumberNeedsNumeralChars` | app/dashboard/create/page.tsx:53-57 | text holding a character that is neither white space nor one of the digits, ".", "e", "E", "+" and "-" is NaN |
| `Js.NumberOrUndefined` | app/dashboard/create/page.tsx:96 | `Number(field) \|\| undefined` has a value exactly when the field's number is neither NaN nor 0, and that value is the field's number |
| `CreateVoucher.PickIndex` | app/dashboard/create/page.tsx:45 | `Math.floor(draw * 36)` is a valid index into the alphabet for every draw in [0, 1) |
| `CreateVoucher.RandomCode` | app/dashboard/create/page.tsx:40-47 | the code has exactly 8 characters, all from A-Z and 0-9 |
| `CreateVoucher.BuildRandomCode` | app/dashboard/create/page.tsx:41-46 | the loop builds the code whose i-th character is the alphabet's character at the i-th draw's index; it has 8 characters, all from the alphabet |
| `CreateVoucher.EveryCodeCanBeDrawn` | app/dashboard/create/page.tsx:40-46 | every 8-character code over the alphabet comes out of some draws, so the generator leaves out no code |
| `CreateVoucher.AcceptsDiscountValue` | app/dashboard/create/page.tsx:52-59 | the guard accepts exactly "" or a number that is >= 0 and, for a percentage only, <= 100; NaN is never accepted |
| `CreateVoucher.AcceptsIntegerText` | app/dashboard/create/page.tsx:50-61 | integer text is accepted iff it lies in [0, 100] for a percentage and is >= 0 for any other type, including none chosen |
| `CreateVoucher.PercentageIsStricter` | app/dashboard/create/page.tsx:52-59 | text a percentage accepts is accepted under every discount type |
| `CreateVoucher.NotANumberIsRefused` | app/dashboard/create/page.tsx:52-59 | non-empty text that is NaN is refused under every discount type |
| `CreateVoucher.DiscountValueExamples` | app/dashboard/create/page.tsx:52-59 | "-1" is refused everywhere; "100" passes for a percentage and "101" does not; "101" passes for a fixed amount and with no type chosen |
| `CreateVoucher.OrUndefined` | app/dashboard/create/page.tsx:71-78 | `formData.get(name) \|\| undefined` is undefined exactly for a missing field or "", and the field's text otherwise |
| `CreateVoucher.EligibilityCriteria` | app/dashboard/create/page.tsx:69-80 | undefined exactly when the include box is off; otherwise the object has a gender, ageRange or userType key exactly when that criterion is checked |
| `CreateVoucher.EligibilityWithoutCriteria` | app/dashboard/create/page.tsx:69-80 | with the include box on and no criterion checked, the body carries an empty object, not undefined |
| `CreateVoucher.NumberOrUndefinedCases` | app/dashboard/create/page.tsx:96-100 | a numeric field that is missing, blank or NaN becomes undefined; integer text becomes undefined for 0 and its value otherwise |
| `CreateVoucher.RequestBodyOptionalNumbers` | app/dashboard/create/page.tsx:69-103 | minCartValue, usageLimit and both age bounds are undefined exactly when their field reads as 0 or NaN, and otherwise carry the field's number |
| `CreateVoucher.MaxDiscountOf` | app/dashboard/create/page.tsx:97 | maxDiscount is the field's number exactly when that is neither NaN nor 0, and the discount value's text otherwise |
| `CreateVoucher.RequestBody` | app/dashboard/create/page.tsx:91-103 | the object passed to `JSON.stringify`: discountValue is the field's number (NaN included); minCartValue and usageLimit are never 0; maxDiscount falls back exactly when its field reads as 0 or NaN, and then to the discount value's text; eligibilityCriteria is undefined exactly when the include box is off; reusable is the state's flag |
| `CreateVoucher.MaxDiscountFallback` | app/dashboard/create/page.tsx:97 | maxDiscount is the discount value's text when its own field is missing or blank, and the field's number when that is a non-zero integer |
| `CreateVoucher.FixedDiscountFallsBack` | app/dashboard/create/page.tsx:97 | for a fixed discount, whose maxDiscount input is not on the page (line 230), maxDiscount is always the discount value's text |
| `CreateVoucher.FallbackPassesGuard` | app/dashboard/create/page.tsx:97 | when the submitted fields come from the form's state and its value passes the guard, a fallback maxDiscount is that same text and passes the guard too (for a percentage, a number in [0, 100] or ""); the code and discount value sent are the state's |
| `CreateVoucher.CreateVoucherForm.constructor` | app/dashboard/create/page.tsx:27-37 | every field starts empty or off, and the discount value invariant holds |
| `CreateVoucher.CreateVoucherForm.GenerateRandomCode` | app/dashboard/create/page.tsx:40-48 | the code field becomes the code of the draws; nothing else changes |
| `CreateVoucher.CreateVoucherForm.HandleDiscountValueChange` | app/dashboard/create/page.tsx:50-61 | the new text is stored iff the guard accepts it for the current type, otherwise the old text stays; nothing else changes; the invariant that the stored value passes the guard is kept |
| `CreateVoucher.CreateVoucherForm.SelectDiscountType` | app/dashboard/create/page.tsx:176-179 | choosing a type sets it and always clears the value, which restores the invariant whatever the old value |
| `CreateVoucher.CreateVoucherForm.Submit` | app/dashboard/create/page.tsx:63-118 | from a valid state whose fields were submitted as the page renders them, the object passed to `JSON.stringify` is the request body of the fields and the state; it carries the state's code, a fixed discount sends its value's text as maxDiscount, a fallback maxDiscount passes the guard, and loading is off when the request settles |

## Left out

- Network and storage: the fetch calls, the bearer token in localStorage,
  toasts, `router.push` and page reloads. A request's outcome is an `ok`
  flag. A fetch that throws, a non-ok status and unreadable JSON all count
  as not ok.
- Rendering: JSX layout, styling, the loading spinner and animation. A cell
  is a sequence of text and number pieces, as React receives its children.
  The Status column calls `getVoucherStatus` twice (app/dashboard/page.tsx:170-171),
  and each call reads the clock anew (line 92), so the variant and the label
  may come from two instants; the model's `Status` takes both from one `now`.
  JavaScript's number-to-text formatting and `toLocaleDateString` (the Valid
  Period cell) are not modelled.
- Date parsing: `new Date(text)` for the voucher dates and the form's date
  fields, and the `toISOString` default of the activation field. Dates
  enter the model already parsed, as a timestamp or the Invalid Date.
- `Number(text)` covers white space, signs, digits with an optional point and
  an optional exponent. Three things are left out. `"Infinity"` and
  hexadecimal, octal or binary literals are read as NaN here. Numbers are
  exact reals, so IEEE rounding, overflow and -0 are not modelled. The
  inputs are `type="number"` fields, which the browser limits to finite
  decimal literals or "".
- Serialisation of the request body by `JSON.stringify`: keys whose value is
  undefined are dropped, so a criterion holding undefined and an omitted one
  are sent alike and a None minCartValue, usageLimit or eligibilityCriteria
  is absent from the text; NaN and the Invalid Date are sent as null, and a
  Date as ISO text. The model stops at the object passed to `JSON.stringify`.
- The plain setters of the form: the code input, the reusable and eligibility
  checkboxes, and the three criteria. Each one only replaces one field. The
  class exposes those fields directly.
- The cart and checkout flow of app/(testing)/demo/page.tsx is not part of
  this model. Discount amounts are computed by the server. The login and
  signup pages, the navigation components and the layouts hold no logic
  beyond rendering and I/O.
- Counts and limits are unbounded integers and money amounts are reals, as
  the JSON numbers the server sends.

## Findings

| source | as written | input that shows it | evidently intended | confidence | as-written member | corrected member |
|---|---|---|---|---|---|---|
| app/dashboard/page.tsx:153-157 | `{voucher.maxDiscount && (...)}` evaluates to the number 0 when maxDiscount is 0, and React renders a number child, so a 0 is appended to the cell | a percentage voucher with discountValue 10 and maxDiscount 0: the cell reads "10%0" | no max note and nothing else when maxDiscount is 0 | medium, not executed | `Dashboard.DiscountCellAsWritten`, `Dashboard.StrayZeroExample` | `Dashboard.DiscountCell` |
