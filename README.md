# Restaurant website: reservation, menu and favourites rules

This project models the rule layer of a restaurant website. The website has two
page scripts, `js/main.js` and `assets/js/main.js`, and a React menu demo,
`react-demo/src/MenuFilter.jsx`. The model covers:

- **Reservation validation, in two forms.**
  - `validateReservationForm` runs a table of field rules. Each rule's checks
    form an if/else-if chain, so only the first failing check writes the
    field's message.
  - `validate` makes one independent check per field.
  - Both then apply the opening-hours window to the time: 10:00 to 23:00,
    both ends included.
- **Reservation log.** After a successful validation, the submit handler
  appends one record, stamped with `createdAt`, to the `reservations` list in
  local storage.
- **Menu filter buttons.** A click makes the clicked button the only active
  one, and hides each card whose category does not match.
- **`setMinDate`.** Formats today's date as `yyyy-mm-dd`.
- **React menu demo.** The filtered list (category plus case-insensitive title
  search), the favourites toggle, and the choice between the loading message,
  the cards and the "nothing found" message.

## Modules

- `JsBuiltins` models the JavaScript built-ins the rules rely on:
  - `trim` with the ECMAScript white-space set;
  - `includes`;
  - `toLowerCase`;
  - `padStart(2, '0')`;
  - `String(n)` for integers;
  - `Number(s)` for decimal literals, with NaN written `None`.
- `OpeningHours` models `split(':').map(Number)`, minutes since midnight, and
  the window.
- `FormFields` names the six inputs and their error slots, shared by both
  validators.
- `RuleChainValidator` models `validateReservationForm` (in `js/main.js`).
- `IndependentValidator` models `validate` (in `assets/js/main.js`).
- `MenuCategory` holds the shared "gjitha" (all) category test.
- `FilterButtons` holds the click handler over button and card objects.
- `ReservationLog` holds the storage entry as a class, with both submit
  handlers.
- `MinDate` models `setMinDate`.
- `MenuCatalog` models the React demo.

## Model

| member | source | states |
|---|---|---|
| JsBuiltins.Trim | js/main.js:143 | `trim()` is empty exactly when every character is white space; otherwise it begins and ends with a non-space |
| JsBuiltins.TrimIsSlice | js/main.js:143 | `trim()` is a contiguous slice of the input with only white space before and after it |
| JsBuiltins.TrimKeepsInnerString | js/main.js:143 | a string whose ends are not white space is its own trim |
| JsBuiltins.Includes | js/main.js:149 | `includes` is true exactly when the needle occurs at some index |
| JsBuiltins.IncludesChar | js/main.js:149 | `includes('@')` is membership of '@' |
| JsBuiltins.ToLower | react-demo/src/MenuFilter.jsx:43 | `toLowerCase` keeps the length and lowers each character |
| JsBuiltins.ToLowerIdempotent | react-demo/src/MenuFilter.jsx:43 | lowering twice is lowering once |
| JsBuiltins.NatToString | assets/js/main.js:92-93 | `String(n)` is a non-empty digit string with no leading zero |
| JsBuiltins.ParseNatToString | assets/js/main.js:92-93 | reading `String(n)` back gives n |
| JsBuiltins.PadStart2 | assets/js/main.js:92-93 | `padStart(2,'0')`: length max(2, \|s\|), s as suffix, zeros in front |
| JsBuiltins.PadStart2Value | assets/js/main.js:92-93 | padding a digit string keeps its value |
| JsBuiltins.JsNumber | js/main.js:155 | `Number` of blank text is 0 |
| JsBuiltins.JsNumberOfDigits | js/main.js:155 | `Number` of a non-empty digit string is its decimal value |
| JsBuiltins.JsNumberOfNatToString | js/main.js:155 | `Number(String(n)) == n` |
| JsBuiltins.NumberOfHalf | js/main.js:155 | `Number("0.5")` is 0.5 |
| JsBuiltins.NumberOfExponent | js/main.js:155 | `Number("-2e1")` is -20 |
| JsBuiltins.NumberOfWord | js/main.js:155 | `Number("12px")` is NaN |
| OpeningHours.SplitAtColon | js/main.js:164 | the first piece has no colon; with a colon the text is piece + ":" + rest, without one the piece is the whole text |
| OpeningHours.SplitAtColonOfJoin | js/main.js:164 | splitting `a:b` (a colon-free) returns a and b |
| OpeningHours.MinutesOfJoin | js/main.js:164-165 | two colon-free texts that read as numbers h and m, joined by a colon, read as h*60+m minutes |
| OpeningHours.MinutesSinceMidnight | js/main.js:164-165 | `hh * 60 + mm` of the first two colon pieces read as numbers, NaN when either is; its values are stated by `MinutesOfJoin` and `MinutesOfClockText` |
| OpeningHours.OutsideOpeningHours | js/main.js:162-169 | a non-empty time whose minutes are a number below 600 or above 1380; its meaning on clock times is `OutsideOpeningHoursIff`, on blank times `BlankTimeIsNeverOutside` |
| OpeningHours.MinutesOfClockText | js/main.js:164-165 | an "HH:MM" text reads as h*60+m minutes |
| OpeningHours.OutsideOpeningHoursIff | js/main.js:162-169 | a clock time is refused exactly when its minutes are below 600 or above 1380 |
| OpeningHours.OpensAtTen | js/main.js:166 | "10:00" is accepted |
| OpeningHours.ClosesAtTwentyThree | js/main.js:166 | "23:00" is accepted |
| OpeningHours.RefusedBeforeTen | js/main.js:166 | "09:59" is refused |
| OpeningHours.RefusedAfterTwentyThree | js/main.js:166 | "23:01" is refused |
| OpeningHours.NoColonIsNeverOutside | js/main.js:162-166 | a time without a colon reads as NaN minutes and never gets the hours message, since NaN fails both comparisons |
| OpeningHours.BlankTimeIsNeverOutside | js/main.js:163-166 | a blank time never gets the opening-hours message |
| RuleChainValidator.MatchesPhonePattern | js/main.js:133 | `/^[0-9+() \-]{7,}$/`: at least seven characters, each a digit, '+', '(', ')', space or '-'; stated through `PhoneRuleIff` |
| RuleChainValidator.FirstFailure | js/main.js:143-158 | a field has no message exactly when none of its five checks fails; a message is never empty |
| RuleChainValidator.FieldRulesShape | js/main.js:130-137 | the rule table names each of the six slots once, with the time rule last |
| RuleChainValidator.FormAccepted | js/main.js:123-173 | every rule's first failure is none and the time is not outside the window (an empty or unreadable time never is); `AfterTimeCheck` and `ValidateReservationForm` return exactly this and tie it to every slot ending empty |
| RuleChainValidator.CheckFields | js/main.js:127-159 | the loop leaves the slots and the flag that running the rules in order from cleared slots gives (`SlotsAfter`, `AllPass`) |
| RuleChainValidator.SlotsAfterKeys | js/main.js:127-159 | running the rules never adds or removes a slot |
| RuleChainValidator.SlotsAfterUntouched | js/main.js:127-159 | a slot no rule names stays cleared |
| RuleChainValidator.SlotsAfterValues | js/main.js:140-159 | with distinct keys, each rule's slot ends with its own check's message, or cleared when the check passes |
| RuleChainValidator.AllPassIff | js/main.js:140-159 | the flag stays true exactly when no rule's check fails |
| RuleChainValidator.AllPassIffSlotsEmpty | js/main.js:127-159 | when the rules name every slot and messages are non-empty, the flag stays true exactly when every slot ends empty |
| RuleChainValidator.TableSlots | js/main.js:130-159 | on the page's table, each field's slot holds the message of its rule's first failing check, or is cleared |
| RuleChainValidator.TableFlag | js/main.js:130-159 | on the page's table, the flag stays true exactly when every check passes, and exactly when every slot is empty |
| RuleChainValidator.TimeOverride | js/main.js:162-170 | the hours message replaces only the time slot, and all slots end empty exactly when the loop left them empty and the time is not outside the window (an empty or unreadable time never is) |
| RuleChainValidator.AfterTimeCheck | js/main.js:123-173 | given the loop's slots and flag and the time check's override: the time slot holds the hours message when the time is outside the window and its rule's message otherwise, every other slot holds its rule's message, and the result is true exactly when the form is accepted, which is exactly when every slot is empty |
| RuleChainValidator.ValidateReservationForm | js/main.js:123-173 | every slot is cleared and then set as above; the hours message overrides the time slot; the result is true exactly when no check failed, which is exactly when every slot is empty |
| RuleChainValidator.BlankRequiredFieldFails | js/main.js:143-144 | a white-space-only required field gets the required message, whatever else holds |
| RuleChainValidator.NameLengthIsUntrimmed | js/main.js:146 | " a" passes minLength 2 and "a" gets "Minimum 2 karaktere. " |
| RuleChainValidator.NameRuleIff | js/main.js:143-147 | the name fails exactly when it is blank or shorter than 2, and a non-blank name shorter than 2 gets "Minimum 2 karaktere. " |
| RuleChainValidator.EmailRuleIff | js/main.js:149 | a non-blank email passes exactly when it contains '@', else gets the email message |
| RuleChainValidator.PhoneRuleIff | js/main.js:152 | a non-blank phone passes exactly when it has length ≥ 7 and only the characters 0-9 + ( ) space -, else gets the format message |
| RuleChainValidator.GuestsRuleIff | js/main.js:155 | a non-blank guest count gets the minimum message exactly when it reads as a number below 1 |
| RuleChainValidator.SampleNamePasses | js/main.js:143-147 | "Ana" passes the name rule |
| RuleChainValidator.SampleEmailPasses | js/main.js:149 | "ana@x.com" passes the email rule |
| RuleChainValidator.SamplePhonePasses | js/main.js:152 | "+355691234567" passes the phone rule |
| RuleChainValidator.SampleGuestsPass | js/main.js:155 | "2" passes the guests rule |
| RuleChainValidator.HalfGuestRefused | js/main.js:155 | "0.5" guests read as 0.5 and get the minimum message |
| RuleChainValidator.SampleDatePasses | js/main.js:135 | "2030-01-01" passes the date rule |
| RuleChainValidator.SampleTimePasses | js/main.js:136 | "10:00" passes the time rule |
| RuleChainValidator.SampleBookingAccepted | js/main.js:123-173 | the complete sample booking at opening time is accepted |
| RuleChainValidator.EarlyBookingRefused | js/main.js:162-169 | the same booking at 09:59 is refused |
| IndependentValidator.GuestsFails | assets/js/main.js:116 | `!guests.value \|\| Number(guests.value) < 1`; its cases are `GuestsFailsCases`, `PositiveGuestCountPasses` and `HalfGuestFails` |
| IndependentValidator.SlotMessage | assets/js/main.js:113-129 | each slot's message from its own check, the hours message overriding for a non-empty time outside the window; `Validate` writes exactly these and `SlotsAreIndependent` shows each depends on its own input |
| IndependentValidator.FormAccepted | assets/js/main.js:102-130 | the six field checks and the opening-hours check pass; `AcceptedIffSlotsEmpty` ties it to empty slots |
| IndependentValidator.Validate | assets/js/main.js:101-131 | every slot holds the message of its own check (the hours message when a non-empty time is outside the window); the result is true exactly when every check passes, which is exactly when every slot is empty |
| IndependentValidator.SlotMapOf | assets/js/main.js:102-130 | the six written slots are all the slots, and all are empty exactly when the form is accepted |
| IndependentValidator.AcceptedIffSlotsEmpty | assets/js/main.js:102-130 | `ok` stays true exactly when no slot gets a message |
| IndependentValidator.AcceptedSlotEmpty | assets/js/main.js:102-130 | an accepted form leaves every slot empty |
| IndependentValidator.RefusedSlot | assets/js/main.js:102-130 | a refused form has some slot with a message |
| IndependentValidator.SlotsAreIndependent | assets/js/main.js:113-118 | a slot's message depends only on its own input |
| IndependentValidator.EmptyTimeNeverOutside | assets/js/main.js:118-129 | the time slot gets "Zgjidhni orën." exactly when the time is empty, and the hours message exactly when it is non-empty and outside the window |
| IndependentValidator.NameFailsIff | assets/js/main.js:113 | the name fails exactly when it is all white space |
| IndependentValidator.GuestsFailsCases | assets/js/main.js:116 | an empty or blank guest count fails; an unreadable (NaN) non-empty count passes |
| IndependentValidator.PositiveGuestCountPasses | assets/js/main.js:116 | a written count of 1 or more passes |
| IndependentValidator.HalfGuestFails | assets/js/main.js:116 | "0.5" guests read as 0.5 and fail |
| FilterButtons.Click | js/main.js:48-61 | afterwards exactly the clicked button is active, and each card is hidden exactly when the filter is neither "gjitha" nor its category (same handler at assets/js/main.js:67-82) |
| ReservationLog.Existing | js/main.js:190 | a missing entry reads as the empty list |
| ReservationLog.Appended | js/main.js:191-203 | the written list keeps every earlier record in place and has the new record last |
| ReservationLog.RuleChainRecord | js/main.js:185-201 | the record holds exactly those of the seven destructured fields the form has, with their values, plus `createdAt` |
| ReservationLog.SpreadRecord | assets/js/main.js:137-140 | the record holds every form field except one named `createdAt`, which the stamp overrides |
| ReservationLog.AppendTwice | js/main.js:190-203 | two accepted submits append both records in order |
| ReservationLog.ReservationStorage.SubmitWithRuleChain | js/main.js:178-209 | a rejected form leaves storage unchanged; an accepted one appends its record; malformed storage throws before writing |
| ReservationLog.ReservationStorage.SubmitWithIndependentChecks | assets/js/main.js:133-141 | the same, with `validate` and the spread record |
| MinDate.MinDate | assets/js/main.js:89-97 | `${yyyy}-${mm}-${dd}` with month+1 and day padded to two digits; its shape and read-back are `MinDateFields`, its injectivity `MinDateInjective` |
| MinDate.DigitCount | assets/js/main.js:92-94 | `String(n)` has two digits for 10..99, three for 100..999 and four for 1000..9999 |
| MinDate.PaddedField | assets/js/main.js:92-93 | a padded field below 100 is two digits that read back as the number |
| MinDate.SplitDashed | assets/js/main.js:94 | cutting `yyyy-mm-dd` at its dashes gives the parts back |
| MinDate.MinDateFields | assets/js/main.js:89-97 | for a four-digit year the text has length 10 with '-' at 4 and 7, and reads back as year, month+1 and day |
| MinDate.MinDateInjective | js/main.js:109-119 | different days give different texts |
| MenuCategory.CategoryMatches | react-demo/src/MenuFilter.jsx:42 | the filter is "gjitha" or equals the category; used by `FilteredItems` and `FilterButtons.Click` |
| MenuCatalog.MatchesSearch | react-demo/src/MenuFilter.jsx:43 | empty term, or the lowered title includes the lowered term; case-insensitivity is `SearchIgnoresTermCase` and `SearchIgnoresTitleCase` |
| MenuCatalog.FilteredItems | react-demo/src/MenuFilter.jsx:41-45 | an item is in the result exactly when it is in the menu and passes both the category test and the search test |
| MenuCatalog.FilteredConcat | react-demo/src/MenuFilter.jsx:41-45 | the filter keeps menu order (it distributes over concatenation) |
| MenuCatalog.FilteredCount | react-demo/src/MenuFilter.jsx:41-45 | each shown item appears as often as in the menu; hidden ones never appear |
| MenuCatalog.ShowAllWithoutSearch | react-demo/src/MenuFilter.jsx:42-43 | "gjitha" with an empty search shows the whole menu |
| MenuCatalog.UnknownCategoryShowsNothing | react-demo/src/MenuFilter.jsx:42-44 | a category no item has shows nothing |
| MenuCatalog.FilteredIdempotent | react-demo/src/MenuFilter.jsx:41-45 | filtering twice equals filtering once |
| MenuCatalog.SearchIgnoresTermCase | react-demo/src/MenuFilter.jsx:43 | lowering the search term does not change the match |
| MenuCatalog.SearchIgnoresTitleCase | react-demo/src/MenuFilter.jsx:43 | lowering the title does not change the match |
| MenuCatalog.FilteredIgnoresTermCase | react-demo/src/MenuFilter.jsx:41-45 | a search term and its lower-case form show the same list |
| MenuCatalog.DrinksShowLemonade | react-demo/src/MenuFilter.jsx:26-45 | the "pije" category of the mock menu shows only the lemonade |
| MenuCatalog.RemoveAll | react-demo/src/MenuFilter.jsx:48 | `filter(fav => fav !== id)` keeps exactly the other ids |
| MenuCatalog.RemoveAllConcat | react-demo/src/MenuFilter.jsx:48 | the removal distributes over concatenation, so kept favourites stay in order |
| MenuCatalog.RemoveAllCount | react-demo/src/MenuFilter.jsx:48 | every occurrence of `id` goes and every other id stays as often as before |
| MenuCatalog.ToggleFavorite | react-demo/src/MenuFilter.jsx:48 | drop `id` when present, else append it; its properties are `ToggleFlipsOnlyId`, `ToggleKeepsNoDuplicates` and `ToggleTwiceRestores` |
| MenuCatalog.ToggleFlipsOnlyId | react-demo/src/MenuFilter.jsx:48 | a toggle flips whether `id` is a favourite and no other id's membership |
| MenuCatalog.RemoveAllKeepsNoDuplicates | react-demo/src/MenuFilter.jsx:48 | removing keeps a repeat-free list repeat-free |
| MenuCatalog.ToggleKeepsNoDuplicates | react-demo/src/MenuFilter.jsx:48 | a toggle keeps a repeat-free list repeat-free |
| MenuCatalog.RemoveAbsent | react-demo/src/MenuFilter.jsx:48 | removing an absent id changes nothing |
| MenuCatalog.RemoveAppended | react-demo/src/MenuFilter.jsx:48 | removing a freshly appended id gives the list back |
| MenuCatalog.ToggleTwiceRestores | react-demo/src/MenuFilter.jsx:48 | toggling a new id appends it last, and toggling it again restores the list |
| MenuCatalog.Render | react-demo/src/MenuFilter.jsx:85-96 | loading shows only the loading message; otherwise an empty list shows "nothing found", and a non-empty one shows one card per item, in order, marked exactly when its id is a favourite |

## Left out

- The DOM is not modelled: element lookup, event wiring, the mobile navigation, smooth scrolling, the scroll-spy and the footer year. They are browser glue with no rule in them.
- `loadMenu` is not modelled: its `fetch` and its HTML template rendering are network I/O and markup.
- The clock is not read. `new Date()` and `toISOString()` become inputs: the year, month and day for `setMinDate`, and the `createdAt` text for a record.
- `alert` and `form.reset()` are left out as UI calls. So is writing `min` into the date input.
- The browser's `validity.valid` verdicts on the email and phone inputs are inputs (`IndependentValidator.Validity`). The constraint checks behind them are not modelled.
- Error slots are returned as a map; the `.error` elements and their `textContent` are not modelled.
- `localStorage` and JSON are an abstract stored value: missing, a list of records, or malformed. An empty stored string behaves like a missing one (`|| '[]'`).
- The React parts are left out: state hooks, the mock load delay, the styles, and `handleSubmit`'s writes to local storage.
- A form without one of the inputs reads that input as the empty string. The pages always have all six inputs.
- An absent `data-filter` or `data-category` attribute (`undefined`) is not modelled; both are strings.
- JsBuiltins.JsNumber: reads decimal literals (optional sign, digits with an optional fraction, optional exponent) exactly, as reals. `Infinity`, and the `0x`, `0o` and `0b` forms, read as NaN; -0 and 0 are the same value; no rounding to double precision is modelled.
- JsBuiltins.ToLower: lowers only ASCII and Latin-1 capitals (Ç and Ë included). The rest of Unicode case mapping is not modelled.
- String lengths count Unicode scalar values, not UTF-16 code units. For the name's `minLength` the two differ only outside the Basic Multilingual Plane.
- Three behaviours of the code are easy to misread; the model follows the code:
  - The email rule is only "contains '@'". There is no check of the local part or the domain.
  - A stored value that `JSON.parse` rejects makes the submit handler throw before writing anything (`StorageError`). It is not treated as an empty list.
  - The guest count is stored as the text the form holds, not as a number.
