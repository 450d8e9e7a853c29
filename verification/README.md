# ralc calculator core, modelled in Dafny

ralc is a stack-based (RPN) calculator that runs in the browser. This project models two parts of it:

- **The input/state engine** of the `Calculator` component (`src/App.tsx`). Its state is:
  - a text `buffer` being edited;
  - a `stack` of committed numbers, oldest first;
  - two latches, `nextTypeWillClearBuffer` and `nextTypeWillPushBuffer`, that decide what the next keystroke does;
  - the "2nd" flag `altEnabled`.

  Every handler is one atomic transition that reads the state as it was before the event. Where a handler writes a field twice, the later write stays. For example, `makeConst` calls `pushBuffer`, which sets the clear latch, and then clears it again.
- **The display formatter** `formatNumber` (`src/format-number.ts`). It:
  - groups the integer digits in threes with commas;
  - cuts a fraction that does not fit a 14-character budget and rounds it half-up;
  - carries a round-up that overflows the fraction into the integer part;
  - keeps an `e` exponent, whose length is taken off the budget.
- **Small helpers of the component file:**
  - `makeClasses`, the class-attribute builder;
  - `coerceArray`, which turns a button's shortcut, one or many, into an array;
  - the key-string half of `modifyForHotkey` (`shift+ctrl+Digit6`).

Layout:

| file | module | contents |
|---|---|---|
| `text.dfy` | `Text` | The JavaScript string operations the core relies on: `split`, `join`, `replace` of one or all occurrences, `slice`, `indexOf`. |
| `numerals.dfy` | `Numerals` | Decimal text and its value. |
| `engine.dfy` | `Engine` | The state as a value. `State`'s member functions are the handlers' transitions. The class `Calculator` holds the same state as fields, and its methods update them in place. Each method is proved to perform exactly the transition of the corresponding `State` function: `PasteFromClipboard` performs `State.Paste`, and `TypeDigit` and `TypePeriod` perform `State.TypeKey`. Each also keeps the buffer well formed: not empty, at most one `.`, and not starting with a `0` followed by a digit. |
| `engine_properties.dfy` | `EngineProperties` | Properties of the engine that involve several handlers or keystrokes. |
| `format_number.dfy` | `Format` | `formatNumber` as written, and `FormatNumberCorrected`, which departs from it in the carry, in a long integer part, in a cut that keeps no digit, in a cut with an exponent and in the grouping of an integer's exponent (see Findings). |
| `grouping.dfy` | `Grouping` | The thousands regular expression `/\B(?=(\d{3})+(?!\d))/g`, related to grouping from the right. |
| `format_properties.dfy` | `FormatProperties` | Step lemmas: splitting, padded half-up rounding, cutting, and the carry. |
| `format_theorems.dfy` | `FormatTheorems` | `formatNumber` on whole literals: integers, short and long fractions, and mantissas with exponents, including what the carry does. |
| `app_helpers.dfy` | `AppHelpers` | `makeClasses`, `coerceArray` and hotkey parsing. |

Numbers are kept abstract in the engine:
- The number type is a type parameter.
- JavaScript's `+s`, `v.toString()` and `Number.isNaN` are uninterpreted functions, passed in a `Numbers` value.
- Operators are opaque function arguments.

The formatter works on text:
- Its two uses of JavaScript arithmetic, `Math.round(+p / 10)` and `+t + 1`, are computed exactly on naturals where JavaScript is exact: digit text whose value is below 2^53.
- Digits followed by a bare `e`, or by `e` and a sign, are read as `NaN`, as JavaScript does.
- Anything else is passed to the uninterpreted functions of an `Arith` value.

The formatter's tests in `src/format-number.test.ts` are instances of the general lemmas:
- `1234.5678` is `FormatsShortFraction` with `i = "1234"` and `f = "5678"`.
- `123456789.12345` is `FormatsRoundedFraction`.
- `1.23e45` is `FormatsShortMantissa`.

## Model

| member | source | states |
|---|---|---|
| `Engine.StripSpec` | src/App.tsx:268 | The removal of `/^0+(?=\d)/` returns a suffix of the buffer. Only zeros are removed, a digit follows what was removed, and no further match is possible on the result. |
| `Engine.NormalizeSpec` | src/App.tsx:267-268 | `normalizeBuffer` turns `"."` into `"0."`. Any other buffer loses only leading zeros, and loses some only when a digit follows them. The result does not start with a `0` followed by a digit. It is non-empty for a non-empty buffer and has a point exactly when the buffer had one. |
| `Engine.NormalizeBuffer` | src/App.tsx:267-268 | `normalizeBuffer`. It is specified by `Engine.NormalizeSpec` and `EngineProperties.NormalizeAppend`. |
| `Engine.State.PushBuffer` | src/App.tsx:224-238 | Enter appends exactly `parse(buffer)` to the stack and keeps the earlier entries in order. Buffer and 2nd flag are unchanged; the clear latch is set and the push latch cleared. |
| `Engine.State.PopStack` | src/App.tsx:262-264 | The last stack entry is removed (nothing happens on an empty stack), and no other field changes. |
| `Engine.State.TypeKey` | src/App.tsx:270-282 | With the push latch set, the old buffer's value is appended to the stack; otherwise the stack is unchanged. With either latch set, the buffer becomes `normalizeBuffer(k)`. With both clear, it becomes `normalizeBuffer(buffer + k)`, except that a second `.` leaves it as it is. Both latches and the 2nd flag end false. A digit or point keeps a well-formed buffer well formed. |
| `Engine.State.Backspace` | src/App.tsx:292-300 | A one-character buffer becomes `"0"`; otherwise exactly the last character goes. The stack and 2nd flag are unchanged, both latches are cleared, and a well-formed buffer stays well formed. |
| `Engine.State.ClearBuffer` | src/App.tsx:302-306 | The buffer becomes `"0"` and both latches are cleared; the stack and 2nd flag stay. |
| `Engine.State.ClearAll` | src/App.tsx:308-312 | The result is the initial state: buffer `"0"`, empty stack, all flags false. |
| `Engine.State.ClearOrClearAll` | src/App.tsx:314-322 | With buffer `"0"` and the clear latch false, everything is cleared. Otherwise only the buffer and latches are reset, and the stack and 2nd flag stay. |
| `Engine.State.Toggle2nd` | src/App.tsx:324-327 | Only the 2nd flag changes, and it flips. |
| `Engine.State.UnaryOp` | src/App.tsx:329-333 | The buffer becomes `show(fn(parse(buffer)))`; the stack and clear latch stay. The push latch is set and the 2nd flag cleared. |
| `Engine.State.BinaryOp` | src/App.tsx:335-343 | On an empty stack nothing changes. Otherwise the stack loses exactly its last entry `a`, the buffer becomes `show(fn(a, parse(buffer)))`, the push latch is set, the 2nd flag cleared and the clear latch kept. |
| `Engine.State.MakeConst` | src/App.tsx:410-417 | The buffer's value is pushed exactly when the clear latch is false. The buffer shows the constant, the clear latch ends false and the push latch true, and the 2nd flag stays. |
| `Engine.PastedValues` | src/App.tsx:249-252 | The numbers read from a pasted text. It is specified by `EngineProperties.PastedValuesAppend` and `Engine.ParseLines`. |
| `Engine.ParseLines` | src/App.tsx:249-252 | The pasted values are at most one per line, and none is NaN. |
| `Engine.State.Paste` | src/App.tsx:249-258 | With no value in the text, nothing changes. Otherwise the stack becomes the old stack, then `parse(buffer)`, then every pasted value but the last. The buffer shows the last value, the clear latch is false, the push latch true and the 2nd flag unchanged. |
| `Engine.Calculator.constructor` | src/App.tsx:221-232 | A new calculator is in the initial state with a well-formed buffer. |
| `Engine.Calculator.PushStack` | src/App.tsx:224-230 | The fields take the values of `State.PushStack`: the value is appended and the clear latch set. |
| `Engine.Calculator.PushBuffer` | src/App.tsx:235-238 | The fields take the values of `State.PushBuffer`, and the buffer stays well formed. |
| `Engine.Calculator.PopStack` | src/App.tsx:262-264 | The fields take the values of `State.PopStack`. |
| `Engine.Calculator.TypeKey` | src/App.tsx:270-282 | The fields take the values of `State.TypeKey`, including when `pushBuffer` sets the clear latch before it is cleared again. The buffer stays well formed. |
| `Engine.Calculator.TypeDigit` | src/App.tsx:284-286 | `typeKey` of the digit's character. |
| `Engine.Calculator.TypePeriod` | src/App.tsx:288-290 | `typeKey` of `.`. |
| `Engine.Calculator.Backspace` | src/App.tsx:292-300 | The fields take the values of `State.Backspace`, and the buffer stays well formed. |
| `Engine.Calculator.ClearBuffer` | src/App.tsx:302-306 | The fields take the values of `State.ClearBuffer`. |
| `Engine.Calculator.ClearAll` | src/App.tsx:308-312 | The fields take the values of `State.ClearAll`, which is the initial state. |
| `Engine.Calculator.ClearOrClearAll` | src/App.tsx:314-322 | The fields take the values of `State.ClearOrClearAll`. |
| `Engine.Calculator.Toggle2nd` | src/App.tsx:325-327 | The fields take the values of `State.Toggle2nd`. |
| `Engine.Calculator.UnaryOp` | src/App.tsx:329-333 | The fields take the values of `State.UnaryOp`, and the buffer stays well formed because shown numbers are well formed. |
| `Engine.Calculator.BinaryOp` | src/App.tsx:335-343 | The fields take the values of `State.BinaryOp`, and the buffer stays well formed. |
| `Engine.Calculator.MakeConst` | src/App.tsx:410-417 | The fields take the values of `State.MakeConst`: the later write to the clear latch wins over `pushBuffer`'s. |
| `Engine.Calculator.PasteFromClipboard` | src/App.tsx:247-259 | The fields take the values of `State.Paste` for the text read. |
| `EngineProperties.KeepFirstPointPoints` | src/App.tsx:276 | The keys that `typeKey` lets through contain a point exactly when one was typed, and at most one. |
| `EngineProperties.NormalizeAppend` | src/App.tsx:267-277 | For a text other than `"."`, normalizing it, appending a keystroke and normalizing again gives the same buffer as normalizing the text with the keystroke once. |
| `EngineProperties.TypingBuildsLiteral` | src/App.tsx:270-290 | Consider a run of digit and point keys on a fresh buffer (after Enter, an operator, a constant or a clear, or on `"0"`). The buffer ends as the normalized text of `0` followed by the keys, with every point after the first ignored. The old buffer is pushed exactly when the push latch was set, and all flags end false. |
| `EngineProperties.EnterTypeApply` | src/App.tsx:235-343 | Enter, a run of keys, then a binary operator: the stack ends as it was before Enter. The buffer shows the operator applied to the entered value and the typed value. |
| `EngineProperties.TypedBuffer` | src/App.tsx:267-282 | A digit or point appended to a well-formed buffer normalizes to the buffer followed by the key, except that a lone `0` followed by a digit normalizes to the digit alone. This holds for any appended point; `typeKey` itself ignores a second `.` before normalizing. |
| `EngineProperties.BackspaceUndoesTyping` | src/App.tsx:276-300 | Backspace takes back a key appended to a well-formed buffer: buffer and stack return to what they were. |
| `EngineProperties.ClearTwiceClearsAll` | src/App.tsx:314-322 | Pressing the clear key twice always clears everything. After one press, the next press is a clear-all. |
| `EngineProperties.PopUndoesPush` | src/App.tsx:235-264 | Popping right after Enter restores the stack. |
| `EngineProperties.UnaryResultPushedOnTyping` | src/App.tsx:270-333 | After a unary operator, the next key pushes the value of the shown result and starts a new buffer. |
| `EngineProperties.PastedValuesAppend` | src/App.tsx:249-252 | The values of a pasted text are those of its lines, in line order. |
| `EngineProperties.PasteThreeLines` | src/App.tsx:249-258 | Pasting three numeric lines pushes the buffer and the first two values, in order; the third value is shown. |
| `EngineProperties.MakeConstsStack` | src/App.tsx:410-417 | Inserting at least one constant, starting with the clear latch false: the buffer and every constant but the last end up on the stack, in order, and the last is shown. This holds if each inserted constant reads back as itself once shown. |
| `EngineProperties.PasteAsConstants` | src/App.tsx:247-259 | Pasting a text with at least one value is the same as clearing the clear latch and inserting the pasted values one by one as constants. This holds if each pasted value reads back as itself once shown; JavaScript's `-0` does not. |
| `Text.SplitPieces` | src/format-number.ts:2 | `split` on one character: no piece holds the separator, the pieces joined with it give the text back, and there is more than one piece exactly when the separator occurs. |
| `Text.RemoveFirst` | src/format-number.ts:2 | `replace('+', '')` removes only the first `+`, and returns a text without `+` unchanged. |
| `Text.Slice` | src/format-number.ts:12 | `slice(0, end)` returns a prefix of the length JavaScript gives, counting a negative end back from the end and clamping both ends. |
| `Text.RemoveAllSpec` | src/format-number.ts:16 | `replace(/,/g, '')` leaves no comma, adds nothing, and returns a text without commas unchanged. |
| `Grouping.CommaBeforeDigits` | src/format-number.ts:3 | In a digit string, the regular expression matches exactly at the inner positions whose distance to the end is a multiple of three. |
| `Grouping.GroupDigits` | src/format-number.ts:3 | The regular expression groups a digit string exactly as grouping in threes from the right does. |
| `Grouping.GroupSigned` | src/format-number.ts:3 | A leading minus sign gets no comma after it, and the digits after it are grouped as on their own. |
| `Format.GroupThousands` | src/format-number.ts:3 | The thousands regular expression. It is specified by `Grouping.GroupDigits`, `Grouping.GroupSigned`, `Grouping.GroupExponent` and `Grouping.Ungroup`. |
| `Grouping.GroupExponent` | src/format-number.ts:3 | Text with an `e` followed by digits: the text before the `e` and the digits after it are grouped as on their own, and a comma also goes right after the `e` when the number of digits is a multiple of three. |
| `Grouping.Ungroup` | src/format-number.ts:16 | Removing all commas undoes the grouping for any text. |
| `FormatProperties.FractionParts` | src/format-number.ts:2-3 | A signed literal with a fraction splits into its grouped integer part and its fraction. |
| `FormatProperties.PaddedRound` | src/format-number.ts:13-14 | The `'1'`-padded fraction divided by ten and rounded half-up has two possible forms. Either it is `1` followed by the kept digits rounded half-up (leading zeros kept), or it starts with `2` when they round past all nines. |
| `FormatProperties.HalfUp` | src/format-number.ts:14-19 | The kept digits are the cut digits divided by ten and rounded half-up. They are one fewer, and ten times their value is at most five above the cut digits' value and less than five below it. |
| `Format.RoundTenthText` | src/format-number.ts:14 | `Math.round(+p / 10).toString()`. It is specified by `FormatProperties.PaddedRound` and `FormatProperties.HalfUp`, and by `FormatTheorems.ExponentCutShowsNaN` for a text that reads as `NaN`. |
| `Format.IncrementText` | src/format-number.ts:16 | `(+t + 1).toString()`. It is specified by `FormatProperties.IncrementNat` and `FormatProperties.IncrementNegative`. |
| `FormatProperties.IncrementNat` | src/format-number.ts:16 | `(+t + 1).toString()` on a digit string below 2^53 is the text of its value plus one. |
| `FormatProperties.IncrementNegative` | src/format-number.ts:16 | `(+t + 1).toString()` on `-` followed by digits is the text of `1` minus their value. |
| `FormatTheorems.FormatsInteger` | src/format-number.ts:1-24 | An optionally negative integer literal is shown with its digits grouped in threes, and nothing else changes. |
| `FormatTheorems.FormatsShortFraction` | src/format-number.ts:11 | If the grouped integer part and the fraction fit 14 characters, the integer digits are grouped in threes and the fraction is kept as it is: `1234.5` is shown as `1,234.5`. This includes trailing zeros and a dangling point. |
| `FormatTheorems.FormatsRoundedFraction` | src/format-number.ts:11-21 | Take a grouped integer part of at most 14 characters and a fraction that does not fit, whose kept digits do not round past all nines (that case is `FormatsCarriedFraction`). The fraction is cut so that the output has 15 characters, the last kept digit rounded half-up on the next digit, and leading zeros kept. Corrected, the output is the same, except that an integer part of exactly 14 characters is shown without the point. |
| `FormatTheorems.DanglingPoint` | src/format-number.ts:12-21 | An integer part of exactly 14 characters, and a first fraction digit below 5: as written the output ends with a dangling point, and corrected it is the integer part alone. |
| `FormatTheorems.SliceEndFromTheEnd` | src/format-number.ts:12-21 | As written, with an integer part of more than 14 characters, the cut counts `k` characters back from the end of the fraction. With `k` zero or a fraction of at most `k` digits, the output is the integer part and a dangling point. Otherwise the first digits but `k` are rounded, which makes the output longer than 15 characters, or they carry into the integer part. |
| `FormatTheorems.FormatsWholeIntegerPart` | src/format-number.ts:12-21 | Corrected, an integer part of 14 or more characters is rounded half-up on the first fraction digit, and the point and fraction are dropped. |
| `FormatTheorems.FormatsCarriedFraction` | src/format-number.ts:11-17 | Take a grouped integer part of at most 14 characters, and kept digits that round past all nines. The fraction and point are dropped. As written, an unsigned integer part goes up by one, and a negative one is replaced by one plus its signed value. Corrected, the magnitude goes up by one. |
| `FormatTheorems.FormatsShortMantissa` | src/format-number.ts:6-11 | A literal whose grouped integer part and whole text after the point (mantissa, `e` and exponent) fit the budget less the exponent's length: the integer digits are grouped in threes, and the mantissa and exponent are kept as they are, as written and corrected. |
| `FormatTheorems.FormatsRoundedMantissa` | src/format-number.ts:6-21 | When the cut ends inside the mantissa, the mantissa is cut to the budget less the exponent's length and rounded half-up, and the exponent is put back. Corrected, the output is the same whenever at least one digit is kept (integer part and exponent shorter than 14 characters together). |
| `FormatTheorems.ExponentCutShowsNaN` | src/format-number.ts:6-21 | As written, when the cut ends right after the `e`, or after `e-`, the kept text is read as `NaN`, and the fraction is shown as `aN` followed by the exponent. |
| `FormatTheorems.FormatsFittingMantissa` | src/format-number.ts:6-21 | Corrected, a mantissa whose digits fit the budget less the exponent's length is kept with its exponent, however long the whole literal. |
| `FormatTheorems.FormatsCarriedMantissa` | src/format-number.ts:6-17 | A mantissa that rounds past all nines loses the exponent as written; corrected, the exponent stays on the incremented integer part. |
| `FormatTheorems.ExponentDigitsGrouped` | src/format-number.ts:2-3 | As written, an optionally negative integer with a positive exponent, such as `toString` writes from `1e21` on, has its integer digits grouped and also its exponent digits, with a comma right after the `e` when there are three of them: `1e+100` is shown as `1e,100`. |
| `FormatTheorems.FormatsIntegerExponent` | src/format-number.ts:2-3 | Corrected, such an integer is shown with its integer digits grouped and its exponent kept as it is, without the `+`: `1e+100` as `1e100`. |
| `FormatTheorems.PlusIgnored` | src/format-number.ts:2 | A single `+` (the one `toString` writes in a positive exponent) does not change the output. |
| `FormatTheorems.CorrectionAgrees` | src/format-number.ts:1-24 | Take a literal without an exponent after a point, without an `e` before any point and without a leading minus, with a grouped integer part shorter than 14 characters and a fraction, if any, of digits. There the corrected formatter agrees with the code as written. |
| `Format.FormatNumber` | src/format-number.ts:1-24 | `formatNumber` as written. It is specified by the `FormatTheorems` lemmas: integers, short and rounded fractions, the dangling point, the long integer part, carries, mantissas with exponents, and the `aN` fraction. |
| `Format.FormatNumberCorrected` | src/format-number.ts:1-24 | `formatNumber` with the corrections of the Findings. It is specified by the corrected halves of `FormatsInteger`, `FormatsRoundedFraction`, `DanglingPoint`, `FormatsWholeIntegerPart`, `FormatsCarriedFraction`, `FormatsShortMantissa`, `FormatsRoundedMantissa`, `FormatsFittingMantissa`, `FormatsCarriedMantissa` and `FormatsIntegerExponent` (all in `FormatTheorems`). It agrees with the code as written where `FormatTheorems.CorrectionAgrees` applies. |
| `FormatTheorems.NegativeCarryTowardZero` | src/format-number.ts:16 | As written, a negative number whose fraction carries is shown one closer to zero: `-0.99999999999999` as `1`, `-1.99…` as `0`, and `-m.99…` as `-(m-1)` otherwise. |
| `FormatTheorems.ExponentDroppedOnCarry` | src/format-number.ts:15-17 | As written, a carried mantissa, signed or not, is shown without any `e`. For an unsigned literal the corrected output is the as-written output followed by the exponent. |
| `AppHelpers.MakeClasses` | src/App.tsx:7-18 | `makeClasses`. It is specified by `AppHelpers.MakeClassesActive` and `AppHelpers.ClassesSplit`. |
| `AppHelpers.Truthy` | src/App.tsx:9 | `filter(v => v)` keeps only non-empty strings. |
| `AppHelpers.PicksEnabled` | src/App.tsx:17 | For an object, the names kept are the switched-on, non-empty keys in entry order. |
| `AppHelpers.MakeClassesActive` | src/App.tsx:7-18 | The class attribute is exactly the contributed names joined by single spaces, and no contributed name is empty. The contributed names are a non-empty string, the switched-on keys of an object, and those of each array element, in order; booleans and `undefined` contribute nothing. |
| `AppHelpers.ClassesSplit` | src/App.tsx:7-18 | When no contributed name holds a space, splitting the attribute on spaces gives the names back. |
| `AppHelpers.CoerceArray` | src/App.tsx:183-188 | An array is returned as it is; a single value becomes a one-element array. |
| `AppHelpers.ParseHotkey` | src/App.tsx:190-201 | The key listened for never contains `+`. A key string without `+` is the key itself, with neither modifier demanded. |
| `AppHelpers.HotkeyOfJoin` | src/App.tsx:190-201 | Modifiers and a key written with `+` between them parse back to the key. `ctrl` or `shift` is demanded exactly when it was written, or is the key itself after some modifier. |

## Left out

- Rendering, JSX, the button press/hover/touch handling, `useEventListener`, `useHotkey` and the window listeners. This is user-interface wiring.
- The half of `modifyForHotkey` that compares a `KeyboardEvent` with the parsed hotkey. It inspects browser events.
- `useLocalStorage` and the persisted degree toggle (browser storage and JSON), the scroll of the stack view after a push, `VersionIndicator`, `App` and the service-worker lifecycle.
- The clipboard is asynchronous I/O: copying the buffer and reading the text are left out. `PasteFromClipboard` takes the text that was read as its argument. The handler in the source uses the `stack` and `buffer` it captured before awaiting the read, so an event handled during the read is overwritten; the model treats the paste as one atomic step.
- The operator catalogue (`Math.sin`, `pow`, `log`, the degree/radian conversion) is floating-point arithmetic. Operators are opaque function arguments.
- JavaScript's number parsing and printing (`+s`, `toString`, `Number.isNaN`) are uninterpreted in the engine. Whether a shown number reads back as itself is an explicit hypothesis where a lemma needs it.
- `formatNumber` accepts a number as well as a string. Only the string path is modelled, since a number is first turned into a string by `toString`, which is not modelled.
- Three kinds of input to the formatter's arithmetic are left to the uninterpreted functions of `Arith`: values of 2^53 and beyond, where JavaScript is no longer exact; a cut that ends among the exponent digits, such as in `9.12345678e-10`, where the cut keeps `12345678e-1`; and text that is not a number of digits.
- `formatNumber` changes its local `parts` array step by step but has no loop. It is modelled as a function whose `let` bindings follow those steps.
- Where the code departs from the documented behaviour of the calculator, the model follows the code:
  - `backspace` special-cases only a one-character buffer, so `"-5"` becomes `"-"`, not `"0"`;
  - `popStack` does not clear the 2nd flag;
  - there is no swap handler;
  - a paste drops only NaN lines, so `Infinity` is kept;
  - `makeConst` pushes the buffer when the clear latch is false (src/App.tsx:411), not when the push latch is false;
  - a second `.` typed with both latches clear leaves the buffer as it is but is not a no-op: `typeKey` still clears the 2nd flag (src/App.tsx:276-280);
  - the formatter's budget counts the grouped integer part's characters (commas and sign included), the exponent's length reduces the budget, and no truncation indicator is shown.

## Findings

| source | as written | input that shows it | evidently intended | confidence | as-written member | corrected member |
|---|---|---|---|---|---|---|
| src/format-number.ts:16 | On a carry, `+parts[0] + 1` adds one to the signed integer part. | `-0.99999999999999` is shown as `1`; `-5.99999999999999` as `-4`. | The magnitude goes up: `-1`, `-6` (proved in `FormatTheorems.FormatsCarriedFraction`). | high; not executed | `FormatTheorems.NegativeCarryTowardZero` | `Format.FormatNumberCorrected` |
| src/format-number.ts:15-17 | A carry replaces `parts` by the incremented integer part only, so the `e` suffix is lost. | `9.99999999999999e-7` is shown as `10`; `-9.99999999999999e-7` as `-8`. | The exponent stays: `10e-7` (proved in `FormatTheorems.FormatsCarriedMantissa` and `FormatTheorems.ExponentDroppedOnCarry`). | high; not executed | `FormatTheorems.ExponentDroppedOnCarry` | `Format.FormatNumberCorrected` |
| src/format-number.ts:12 | The slice end `maxOverallLength - parts[0].length + 1` is zero or negative when the grouped integer part is longer than 14 characters, and `slice` then counts from the end of the fraction. | `123456789012.5` is shown as `123,456,789,012.`, unrounded; `-123456789012.549` as `-123,456,789,012.5`, 18 characters. | The integer part rounded on the first fraction digit: `123,456,789,013` and `-123,456,789,013` (proved in `FormatTheorems.FormatsWholeIntegerPart`). | high; not executed | `FormatTheorems.SliceEndFromTheEnd` | `Format.FormatNumberCorrected` |
| src/format-number.ts:19-20 | A rounding that keeps no fraction digit still joins the parts with `.`. | `12345678901.4` is shown as `12,345,678,901.`. | No dangling point: `12,345,678,901` (proved in `FormatTheorems.DanglingPoint`). | medium; not executed | `FormatTheorems.DanglingPoint` | `Format.FormatNumberCorrected` |
| src/format-number.ts:11-14 | The length test and the cut count the `e` and the exponent as fraction characters, while the budget already has the exponent's length taken off. | `9.1234567891e-7` is cut to `1234567891e-`, and `+"11234567891e-"` is `NaN`, and is shown as `9.aNe-7`. | A mantissa that fits is kept: `9.1234567891e-7` (proved in `FormatTheorems.FormatsFittingMantissa`). | high; not executed | `FormatTheorems.ExponentCutShowsNaN` | `Format.FormatNumberCorrected` |
| src/format-number.ts:3 | The grouping pattern is applied to the whole integer part, and an integer with a positive exponent has its `e` in that part. `e` is a word character, so the pattern also matches inside the exponent. | `1e+100` is shown as `1e,100`, and `1.5e+300` is not affected. | Only the digits before the `e` are grouped: `1e100` (proved in `FormatTheorems.FormatsIntegerExponent`). | high; not executed | `FormatTheorems.ExponentDigitsGrouped` | `Format.FormatNumberCorrected` |
