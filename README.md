# Calendar day-column layout and multi-step booking form

This Dafny project models two pieces of the cal.com booker front end and proves properties about them.

**Day-column slot layout** (`packages/features/calendars/weeklyview/components/event/Empty.tsx`), module `SlotLayout` in `slot_layout.dfy`:

- `AvailableCellsForDay` gives each available interval of a day a `topOffsetMinutes`.
  - The first interval's offset is the number of whole `slotDuration` steps between `dayStart` and its start, rounded down.
  - Each later interval sits one 60-unit row below the one before it. A gap opening before it adds `floor(gap / slotDuration)` more rows.
- `UnavailableCellsForDay` walks a cursor through every gap before, between and after the intervals. It emits one unavailable cell per `slotDuration` step and advances the row by 60 for each cell and each interval.
- `EmptyCell` places grid cell `slotIndex` at `slotIndex * 60`.

Both methods keep the source's loops and mutable locals (`currentOffset`, `previousSlotEnd`, `currentTime`). Each is proved against a specification function: `OffsetAt` for the available offsets, and `FillGap` / `WalkSlots` / `FinalWalk` for the unavailable walk. The lemmas then prove what those functions promise.

Time is counted in whole minutes, already in the display timezone. `dayStart` and `dayEnd` (the day at `startHour:00` and `endHour:00`) are inputs. As in the source, intervals are not sorted, de-duplicated, clamped or checked for `start < end`. An interval ending before the cursor moves the cursor backwards.

**Multi-step booking form** (`packages/features/bookings/Booker/components/BookEventForm/MultiStepBookEventForm.tsx`), module `BookEventForm` in `booking_form.dfy`:

- The pure parts are functions:
  - the field filter that turns booking fields into steps;
  - the email check;
  - `validateField`;
  - the error-message priority chooser `getError`;
  - the two button labels.
- The component's state (`currentStep`, `formValues`, `fieldError`) lives in the class `MultiStepForm`. Its methods `HandleInputChange`, `HandleNext` and `HandlePrevious` update that state.
- Two things outside the form are recorded as fields of the class:
  - `storedFormValues` holds what `setBookerStoreFormValues` last received;
  - `calls` lists the parent callbacks in the order they were invoked (`onSubmit`, `handleVerifyEmail`, `onCancel`).

`wrappers.dfy` holds the `Option` type, which stands for JavaScript's `undefined` / `null`.

How the layout code treats unusual input, which the model keeps:

- Intervals are laid out in the order given, and none is dropped, whatever its `start` and `end`.
- `slotDuration` is used as passed in. Nothing derives it from the intervals.
- `dayEnd` bounds only the loop over an empty day and the trailing loop after the last interval. The loops before each interval stop at that interval's start, even when it lies past `dayEnd`. The trailing loop starts from the last interval's end. So with `endHour <= startHour` an empty day gets no cells. A day with intervals gets only the cells of gaps that open before an interval, plus trailing cells when the last interval ends before `dayEnd`. With `dayStart` 600, `dayEnd` 540, 30-minute slots and one interval 500–510, one unavailable cell at 510 is emitted on row 60.
- A day with no intervals gets `ceil((dayEnd - dayStart) / slotDuration)` unavailable cells.
- For 9:00–17:00 with one interval 10:00–10:30 and 30-minute slots, the code emits 15 unavailable cells (rows 0, 60, then 180 … 900) and one available cell on row 120.

## Model

| member | source | states |
|---|---|---|
| `SlotLayout.EmptyCellOffset` | packages/features/calendars/weeklyview/components/event/Empty.tsx:19-22 | an empty cell's offset is a whole row, and the slot index is recovered exactly from it |
| `SlotLayout.MissingSlotsIsFloor` | packages/features/calendars/weeklyview/components/event/Empty.tsx:49-50 | the missing-slot count is the floor of gap / slotDuration, negative exactly for a negative gap |
| `SlotLayout.SlotsToCover` | packages/features/calendars/weeklyview/components/event/Empty.tsx:231-238 | the number of steps a gap loop takes is ceil(gap / slotDuration), and 0 when there is no gap |
| `SlotLayout.FirstOffsetUnclamped` | packages/features/calendars/weeklyview/components/event/Empty.tsx:45-51 | the first offset is the floor of the leading gap in rows, and is negative (not clamped) exactly when the first interval starts before dayStart |
| `SlotLayout.OffsetOnRow` | packages/features/calendars/weeklyview/components/event/Empty.tsx:51-69 | every available offset is a multiple of 60 |
| `SlotLayout.OffsetsIncrease` | packages/features/calendars/weeklyview/components/event/Empty.tsx:58-69 | offset j is at least offset i plus 60 × (j − i), whatever the order or overlap of the intervals |
| `SlotLayout.OffsetsOnIncreasingRows` | packages/features/calendars/weeklyview/components/event/Empty.tsx:55-73 | all offsets of a day lie on rows and increase strictly, by at least one row per interval |
| `SlotLayout.AvailableCellsForDay` | packages/features/calendars/weeklyview/components/event/Empty.tsx:40-76 | None exactly when the day's list is missing or empty; otherwise one cell per interval, in input order, each carrying its interval. The first offset is the floored leading gap and is negative before dayStart. A touching or overlapping interval adds exactly one row. Offsets are multiples of 60 and increase by at least 60 per step |
| `SlotLayout.FillGapShape` | packages/features/calendars/weeklyview/components/event/Empty.tsx:231-238 | a gap loop appends ceil(gap / slotDuration) cells at cursor + k × slotDuration on rows offset + 60k, keeps the earlier cells, and ends with the cursor and row advanced by that many steps |
| `SlotLayout.FillGapBeforeTarget` | packages/features/calendars/weeklyview/components/event/Empty.tsx:216-253 | every cell a gap loop emits starts at or after the cursor and strictly before the loop's target, so a zero-length gap emits nothing |
| `SlotLayout.EmptyDayLayout` | packages/features/calendars/weeklyview/components/event/Empty.tsx:216-225 | with no intervals, the cells are dayStart + k × slotDuration on rows 60k, all before dayEnd. There are ceil((dayEnd − dayStart) / slotDuration) of them, or none when dayEnd ≤ dayStart |
| `SlotLayout.FillGapAccounted` | packages/features/calendars/weeklyview/components/event/Empty.tsx:231-238 | a gap loop keeps "next row = 60 × (cells + intervals passed)" |
| `SlotLayout.WalkSlotsAccounted` | packages/features/calendars/weeklyview/components/event/Empty.tsx:227-243 | each interval advances the row by exactly 60 without emitting a cell, so the relation holds with one more interval passed |
| `SlotLayout.FinalOffset` | packages/features/calendars/weeklyview/components/event/Empty.tsx:212-253 | the final row is 60 × (cells emitted + intervals of the day) |
| `SlotLayout.FillGapOrdered` | packages/features/calendars/weeklyview/components/event/Empty.tsx:231-238 | a gap loop keeps the emitted rows non-negative, multiples of 60, strictly increasing and above the next row |
| `SlotLayout.WalkSlotsOrdered` | packages/features/calendars/weeklyview/components/event/Empty.tsx:227-243 | the walk over the intervals keeps that ordering, even when the cursor moves backwards |
| `SlotLayout.UnavailableRowsIncrease` | packages/features/calendars/weeklyview/components/event/Empty.tsx:207-257 | the unavailable cells of a day lie on distinct rows, multiples of 60, in increasing order |
| `SlotLayout.UnavailableCellsForDay` | packages/features/calendars/weeklyview/components/event/Empty.tsx:207-257 | the loops emit exactly the walk's cells (the leading, between and trailing gap loops, with each interval resetting the cursor to its end). Their rows are non-negative multiples of 60 and strictly increasing |
| `SlotLayout.FillGapExtends` | packages/features/calendars/weeklyview/components/event/Empty.tsx:231-238 | a gap loop only appends, and only at or below the walk's next row |
| `SlotLayout.WalkSlotsExtends` | packages/features/calendars/weeklyview/components/event/Empty.tsx:227-243 | the walk over a prefix of the intervals is a prefix of the walk over all of them |
| `SlotLayout.AlignedOffsetIsReservedRow` | packages/features/calendars/weeklyview/components/event/Empty.tsx:48-61 | with gaps rounded up and a first interval before dayStart put on row 0, interval i's offset is exactly the row the unavailable walk leaves free for it, for every list of intervals |
| `SlotLayout.AlignedRowsAreFree` | packages/features/calendars/weeklyview/components/event/Empty.tsx:48-61 | with those corrected offsets, no unavailable cell of the day lies on an available interval's row, for every list of intervals |
| `SlotLayout.WholeGapsAgree` | packages/features/calendars/weeklyview/components/event/Empty.tsx:48-61 | when every positive gap is a whole number of slots, the source's floored offsets equal the corrected ones, except that a first interval before dayStart shifts all of the source's rows up by its floored leading gap |
| `SlotLayout.NegativeFirstRowCollides` | packages/features/calendars/weeklyview/components/event/Empty.tsx:45-51 | as written, an interval 30 minutes before dayStart is drawn on row −60 while the walk passes it on row 0, so the next interval (after a 45-minute gap) lands on row 60, an unavailable cell's row; the corrected row is 180 |
| `SlotLayout.FloorOffsetCollides` | packages/features/calendars/weeklyview/components/event/Empty.tsx:49-51 | as written, a 45-minute leading gap with 30-minute slots puts the available cell on row 60, which is also the row of the second unavailable cell |
| `BookEventForm.IsFieldEmpty` | packages/features/bookings/Booker/components/BookEventForm/MultiStepBookEventForm.tsx:7-9 | a field is not empty exactly when it has a non-empty name and a non-empty type, and a non-empty label when its type is `text` |
| `BookEventForm.StepFields` | packages/features/bookings/Booker/components/BookEventForm/MultiStepBookEventForm.tsx:57-65 | the kept fields are exactly the listed fields that are non-empty and not named location, guests, rescheduleReason or notes |
| `BookEventForm.StepFieldsAppend` | packages/features/bookings/Booker/components/BookEventForm/MultiStepBookEventForm.tsx:57-65 | filtering distributes over concatenation, so the kept fields stay in their original order |
| `BookEventForm.BookingFields` | packages/features/bookings/Booker/components/BookEventForm/MultiStepBookEventForm.tsx:57-66 | [] when the event has no field list; otherwise exactly its step fields, each with a non-empty name and a type, and a label when it is a text field |
| `BookEventForm.IndexOf` | packages/features/bookings/Booker/components/BookEventForm/MultiStepBookEventForm.tsx:12 | the position found is the first `@` of the string, or there is none |
| `BookEventForm.IsValidEmail` | packages/features/bookings/Booker/components/BookEventForm/MultiStepBookEventForm.tsx:11-14 | `isValidEmail` is true exactly for the strings `^[^\s@]+@[^\s@]+\.[^\s@]+$` matches, with JavaScript's full `\s` set |
| `BookEventForm.ScanAcceptsOnlyPattern` | packages/features/bookings/Booker/components/BookEventForm/MultiStepBookEventForm.tsx:12 | a string the first-`@` scan accepts has a split matching the regular expression |
| `BookEventForm.PatternScanAccepts` | packages/features/bookings/Booker/components/BookEventForm/MultiStepBookEventForm.tsx:12 | every string the regular expression matches is accepted by the first-`@` scan |
| `BookEventForm.ValidEmailShape` | packages/features/bookings/Booker/components/BookEventForm/MultiStepBookEventForm.tsx:11-14 | an accepted email has no whitespace and exactly one `@`, with a non-empty part before it |
| `BookEventForm.TrimEmptyIff` | packages/features/bookings/Booker/components/BookEventForm/MultiStepBookEventForm.tsx:77 | `value.trim() === ''` exactly when every character is whitespace |
| `BookEventForm.ValidateField` | packages/features/bookings/Booker/components/BookEventForm/MultiStepBookEventForm.tsx:76-84 | `required_field` exactly for a required field with an empty or all-whitespace value, taking precedence. `invalid_email` exactly for a non-empty value of an email field that the email pattern rejects. `null` exactly otherwise |
| `BookEventForm.GetError` | packages/features/bookings/Booker/components/BookEventForm/MultiStepBookEventForm.tsx:17-31 | priority: head of a non-empty form error list, then head of a non-empty data error list, then a form error string, then a data error string. The result is always one of these or `something_went_wrong`, and it is `something_went_wrong` when neither value reports anything |
| `BookEventForm.FinalCallback` | packages/features/bookings/Booker/components/BookEventForm/MultiStepBookEventForm.tsx:102-106 | on the last step Next submits exactly when the confirm condition holds, else it asks for email verification; it never cancels |
| `BookEventForm.PrimaryButtonLabel` | packages/features/bookings/Booker/components/BookEventForm/MultiStepBookEventForm.tsx:167-173 | `next` exactly off the last step. On the last step it reads `confirm` exactly when the meeting is instant or Next would submit, and `verify_email_email_button` exactly when Next would ask for verification and the meeting is not instant |
| `BookEventForm.SecondaryButtonLabel` | packages/features/bookings/Booker/components/BookEventForm/MultiStepBookEventForm.tsx:160 | `cancel` exactly on step 0, where Previous cancels; `previous` otherwise |
| `BookEventForm.MultiStepForm.constructor` | packages/features/bookings/Booker/components/BookEventForm/MultiStepBookEventForm.tsx:47-49 | the form starts on step 0 with no values, no error, nothing stored and no callback invoked |
| `BookEventForm.MultiStepForm.HandleInputChange` | packages/features/bookings/Booker/components/BookEventForm/MultiStepBookEventForm.tsx:86-90 | only `formValues[name]` changes, every other key keeps its value, and the field error is cleared |
| `BookEventForm.MultiStepForm.HandleNext` | packages/features/bookings/Booker/components/BookEventForm/MultiStepBookEventForm.tsx:92-111 | A failed validation sets the error and changes nothing else. A success before the last step moves exactly one step on. A success on the last step stays on that step, stores the values and invokes the submit or verify callback. `0 ≤ currentStep < totalSteps` is preserved |
| `BookEventForm.MultiStepForm.HandlePrevious` | packages/features/bookings/Booker/components/BookEventForm/MultiStepBookEventForm.tsx:113-120 | after step 0 it moves one step back and clears the error; on step 0 it stays and invokes cancel. The step bounds are preserved |

## Findings

| source | as written | input that shows it | evidently intended | confidence | as-written member | corrected member |
|---|---|---|---|---|---|---|
| packages/features/calendars/weeklyview/components/event/Empty.tsx:49-61 | `AvailableCellsForDay` rounds each gap down (`Math.floor`). `UnavailableCellsForDay` emits ceil(gap / slotDuration) cells into the same gap and leaves the next row free for the interval | slotDuration 30, dayStart 0, dayEnd 60, one interval 45–60: the available cell is drawn on row 60, and the unavailable cells are at rows 0 and 60 | the available cell lands on the row the unavailable walk leaves free, so gaps round up | medium, not executed | `SlotLayout.FloorOffsetCollides` | `SlotLayout.AlignedRowsAreFree` |
| packages/features/calendars/weeklyview/components/event/Empty.tsx:45-51 | a first interval before `dayStart` gets a negative row, which is above the grid. `UnavailableCellsForDay` passes that interval on row 0, so every later available cell sits at least one row above the row the walk leaves free for it | slotDuration 30, dayStart 0, dayEnd 60, intervals −30–0 and 45–60: the second available cell is drawn on row 60, where the walk has drawn an unavailable cell (rows 60 and 120) | the first interval sits on row 0, the row the walk reserves for it | low, not executed | `SlotLayout.NegativeFirstRowCollides` | `SlotLayout.AlignedRowsAreFree` |

`AvailableCellsForDay` and `OffsetAt` keep the source's floor and its negative first row, so they model the code as written. The corrected offsets are `AlignedOffsetAt`: gaps rounded up, and a first interval before `dayStart` on row 0. `AlignedOffsetIsReservedRow` and `AlignedRowsAreFree` prove, for every list of intervals, that they agree with the unavailable walk. `WholeGapsAgree` proves that the two differ only when a gap is not a whole number of slots or the first interval starts before `dayStart`.

## Left out

- SlotLayout.AvailableCellsForDay: requires `slotDuration > 0`. With 0 the source divides by zero and gets an `Infinity`/`NaN` floating-point offset, which is not modelled. With a negative `slotDuration` the source still computes offsets (`Math.floor` of a negative quotient), but the model does not. The unavailable loops need the same bound: with 0 or a negative `slotDuration` the source's loops never end when there is a gap to fill, since the cursor never reaches the target.
- SlotLayout.EmptyCellOffset: takes `slotIndex` as an integer. The only caller of `EmptyCell` in `Calendar.tsx` passes `gridCellIdx` and no `slotIndex`, so the source computes `undefined * 60`, which is `NaN`. That `NaN` offset and how `Cell` renders it are not modelled.
- Timezone conversion and formatting by `dayjs`, and the lookup of the day's list by its formatted date (both methods take the day's list, None when the map or the key is missing). Timestamps are whole minutes in the display timezone. Sub-minute parts, which `diff(..., "minute")` would truncate, are not modelled.
- Rendering: the JSX, CSS `calc(...)` heights and positions, click handlers, `Cell`, `CustomCell`, `UnavailableCell` and the out-of-office indicator, whose component is not part of this model. No code here produces its `isDisabled` object.
- `useMemo`, the zustand stores, `useTimePreferences` and `useLocale`. Translations are modelled as their message keys.
- `Calendar.tsx` (grid layout and the defaults `startHour || 9`, `endHour || 21`, `hoverEventDuration || 4`), `BookingTerms.tsx` and `ProgressBar.tsx`. This includes the floating-point `progress` percentage, which divides by zero when there is a single step.
- The loading, error and missing-timeslot early returns of the form, which depend on query objects.
- A form with no step fields. The source dereferences an undefined `currentField` when it renders it and in `handleNext`, so `MultiStepForm` requires at least one step field.
- MultiStepForm: React's batched state updates are modelled as immediate assignments within one handler. `renderConfirmNotVerifyEmailButtonCond` and `isInstantMeeting` are passed in as parameters. The parent callbacks and the booker store are recorded in `calls` and `storedFormValues` rather than executed.
- BookEventForm.ValidateField: form values are strings. The source's `typeof value === 'string'` test is always true for the strings `handleNext` passes, but not for the inherited values described on the next line.
- BookEventForm.ValueOf: `formValues` is a map, so a name with no value reads as "". In the source it is a plain object, so `formValues[name] || ""` also finds members inherited from `Object.prototype`. For a required field named `constructor` with nothing typed, the source reads the function `Object`, which is truthy and not a string, so validation passes and Next moves on, while `HandleNext` sets `required_field`. Inherited lookups are not modelled.
- BookEventForm.GetError: error lists hold strings. The source would also pass a non-string first element to `t`.
