# Calculator core in Dafny

This project models the computational core of a desktop calculator: its
four-function engine, its programmer-mode engine (base conversion and
32-bit bit manipulation), its memory registers and calculation history,
its input validators, its financial formulas and its unit converter.
Every operation is stated over exact mathematical values, and its contract
says what the operation computes.

- `wrappers.dfy`: `Option` and `Result`. Operations that throw are modelled as returning `Failure(message)`.
- `types.dfy`: the shared declarations: number bases, calculator modes, memory slots, history entries and the category list.
- `int32.dfy`: JavaScript's 32-bit integer operators (`&`, `|`, `^`, `~`, `<<`, `>>`, `>>>`).
  - They are defined arithmetically on `ToInt32`/`ToUint32`.
  - They are also proved to act on the 32-bit two's-complement word, bit by bit.
- `programmer_engine.dfy`: the programmer engine.
  - Base conversion through `parseInt` and `toString(radix)`.
  - The bitwise operations, rotations and two's complement.
  - Bit access and bit counting. `countSetBits` is a method with its loop.
- `basic_engine.dfy`: the basic engine.
  - It is a class whose four fields change in place.
  - `parseFloat`, `String` and `sqrt` are an abstract codec passed to the constructor.
- `memory.dfy`: the memory registers.
  - A class holding the slot list and the active slot.
  - Add, subtract, store, recall, clear, add-slot and select.
- `history.dfy`: the history list.
  - Add keeps the newest 100.
  - Clear.
  - Delete by id.
- `validation.dfy`: the input validators and sanitizers.
  - The regular expressions are written out as character classes and scanners.
  - `isValidMathExpression` is a method with its parenthesis-counting loop.
- `financial.dfy`: the financial formulas.
  - They use exact reals. A result is `None` when JavaScript would produce NaN or an infinity.
  - Net present value is a method with its loop.
- `unit_converter.dfy`: the unit converter.
  - The conversion table, with every conversion stored as an affine map.
  - `convertUnit`.
  - `getUnitsForCategory`, a method that gathers the units and sorts them by insertion.

Where the repository's own documentation or tests disagree with the code,
the model follows the code:

- `%` in the basic engine is the floored `math.mod` of mathjs, not a truncating remainder.
- The memory capacity guard looks at the list's old length, so one write can grow a list past 10 slots.
- `deleteEntry` removes every entry with the given id.
- `twosComplement(v)` is `~v + 1`, that is `-v`; the repository's tests expect other values.

## Model

| member | source | states |
|---|---|---|
| BasicEngine.Calculator.constructor | src/renderer/engines/basicEngine.ts:6-9 | a new engine shows "0", has no left operand or operator and is not waiting |
| BasicEngine.Calculator.InputDigit | src/renderer/engines/basicEngine.ts:11-19 | the digit replaces the entry when waiting or when the entry is "0", else is appended; the flag is cleared and nothing else changes |
| BasicEngine.Calculator.InputDecimal | src/renderer/engines/basicEngine.ts:21-29 | "0." when waiting; one "." appended only when the entry has none; afterwards the entry holds a "." |
| BasicEngine.Calculator.Clear | src/renderer/engines/basicEngine.ts:31-37 | all four fields return to the initial state and "0" is shown |
| BasicEngine.Calculator.ClearEntry | src/renderer/engines/basicEngine.ts:39-42 | only the entry is reset to "0"; the pending operation and flag survive |
| BasicEngine.Calculator.PerformOperation | src/renderer/engines/basicEngine.ts:44-60 | first press stores the entry as left operand; with a pending operator the result of calculate goes into both value fields; a division by zero fails and leaves the state unchanged; the new operator is queued and the engine waits |
| BasicEngine.Calculate | src/renderer/engines/basicEngine.ts:62-82 | fails exactly for `/` or `÷` with a zero divisor, and then with the divide-by-zero error |
| BasicEngine.CalculateInverses | src/renderer/engines/basicEngine.ts:64-76 | `×` and `*`, `÷` and `/` agree; subtracting undoes adding and dividing undoes multiplying |
| BasicEngine.CalculateDefault | src/renderer/engines/basicEngine.ts:79-80 | any other operator, "=" included, yields the second operand |
| BasicEngine.ModIsFlooredRemainder | src/renderer/engines/basicEngine.ts:77-78 | mathjs mod: the remainder has the divisor's sign, is smaller in magnitude and differs from x by a multiple of it; x itself for a zero divisor |
| BasicEngine.Calculator.Percentage | src/renderer/engines/basicEngine.ts:84-88 | the entry becomes its value divided by 100; nothing else changes |
| BasicEngine.Calculator.SquareRoot | src/renderer/engines/basicEngine.ts:90-97 | a negative entry fails and changes nothing; otherwise the entry becomes its square root |
| BasicEngine.Calculator.Square | src/renderer/engines/basicEngine.ts:99-103 | the entry becomes its value squared |
| BasicEngine.Calculator.Negate | src/renderer/engines/basicEngine.ts:105-109 | the entry becomes its negation |
| BasicEngine.Calculator.GetExpression | src/renderer/engines/basicEngine.ts:115-120 | "prev op cur" exactly when an operator is set and a left operand is stored, else the entry alone |
| BasicEngine.ChainFoldsLeftToRight | src/renderer/engines/basicEngine.ts:44-60 | 10 + 5 * 2 = shows 30: operators fold left to right without precedence |
| BasicEngine.RepeatedAddition | src/renderer/engines/basicEngine.ts:44-60 | 5 + 3 + 2 = shows 10 |
| BasicEngine.DivisionByZeroKeepsState | src/renderer/engines/basicEngine.ts:71-75 | 5 / 0 = fails with divide-by-zero and the expression still reads "5 / 0" |
| Int32.ToInt32 | src/renderer/engines/programmerEngine.ts:39-61 | the ECMAScript ToInt32 conversion yields a signed 32-bit integer |
| Int32.ToUint32 | src/renderer/engines/programmerEngine.ts:63-73 | the ECMAScript ToUint32 conversion yields an unsigned 32-bit integer |
| Int32.And | src/renderer/engines/programmerEngine.ts:39-41 | `a & b` is a signed 32-bit integer; WordOfBitwise states that it is the bitwise and of the words |
| Int32.Or | src/renderer/engines/programmerEngine.ts:43-45 | `a \| b` is a signed 32-bit integer; WordOfBitwise states that it is the bitwise or of the words |
| Int32.Xor | src/renderer/engines/programmerEngine.ts:47-49 | `a ^ b` is a signed 32-bit integer; WordOfBitwise states that it is the bitwise exclusive or of the words |
| Int32.Not | src/renderer/engines/programmerEngine.ts:51-53 | `~a` is a signed 32-bit integer; WordOfNot states that it flips every bit |
| Int32.ShiftLeft | src/renderer/engines/programmerEngine.ts:55-57 | `a << k` is a signed 32-bit integer; WordOfShiftLeft and ShiftCountIsMasked state the shift |
| Int32.ShiftRight | src/renderer/engines/programmerEngine.ts:59-61 | `a >> k` is a signed 32-bit integer; WordOfShiftRight states the sign-filling shift |
| Int32.UnsignedShiftRight | src/renderer/engines/programmerEngine.ts:66 | `a >>> k` is an unsigned 32-bit integer; WordOfUnsignedShiftRight states the zero-filling shift |
| Int32.WordOfBitwise | src/renderer/engines/programmerEngine.ts:39-49 | `&`, `\|` and `^` combine the operands' 32-bit words bit by bit |
| Int32.WordOfNot | src/renderer/engines/programmerEngine.ts:51-53 | `~` flips every bit of the word |
| Int32.ShiftCountIsMasked | src/renderer/engines/programmerEngine.ts:55-61 | a shift uses only the count's low five bits (`count & 31`) |
| Int32.WordOfShiftLeft | src/renderer/engines/programmerEngine.ts:55-57 | `<<` moves the word up, zeros entering at the bottom |
| Int32.WordOfShiftRight | src/renderer/engines/programmerEngine.ts:59-61 | `>>` moves the word down, copies of the sign bit entering at the top |
| Int32.WordOfUnsignedShiftRight | src/renderer/engines/programmerEngine.ts:66 | `>>>` moves the word down, zeros entering at the top |
| Int32.SignedOfWord | src/renderer/engines/programmerEngine.ts:39-61 | reading a number's word as signed gives ToInt32 of it |
| Int32.ValueOfWord | src/renderer/engines/programmerEngine.ts:63-73 | reading a number's word as unsigned gives ToUint32 of it |
| Int32.WordDetermines | src/renderer/engines/programmerEngine.ts:39-61 | two 32-bit integers with the same word are equal |
| Int32.SignBit | src/renderer/engines/programmerEngine.ts:59-61 | bit 31 is set exactly when the 32-bit value is negative |
| ProgrammerEngine.BaseNamed | src/shared/types.ts:5 | exactly the four names binary, octal, decimal and hexadecimal denote a base |
| ProgrammerEngine.Radix | src/renderer/engines/programmerEngine.ts:10-18 | every base has radix 2, 8, 10 or 16 |
| ProgrammerEngine.ParseInt | src/renderer/engines/programmerEngine.ts:12-18 | parseInt of a numeral is negative only after a minus sign, and never positive after one; ParseIntOfToRadixString states that it inverts toString |
| ProgrammerEngine.ToRadixString | src/renderer/engines/programmerEngine.ts:27-33 | toString(radix) writes a numeral of the radix that starts with a minus sign exactly for a negative number; ParseIntOfToRadixString states its inverse |
| ProgrammerEngine.ToDecimal | src/renderer/engines/programmerEngine.ts:9-22 | fails with "Invalid base" exactly for a name outside the four bases; a negative result comes from a numeral with a minus sign |
| ProgrammerEngine.FromDecimal | src/renderer/engines/programmerEngine.ts:24-37 | fails with "Invalid base" exactly for a name outside the four bases; otherwise writes a numeral of the base that toDecimal reads back as the same integer |
| ProgrammerEngine.ConvertBase | src/renderer/engines/programmerEngine.ts:4-7 | fails with "Invalid base" exactly when either base is not one of the four; otherwise the output numeral has the same value in the target base as the input in the source base (ConvertBaseInvalid, ConvertBaseRoundTrip) |
| ProgrammerEngine.DigitChar | src/renderer/engines/programmerEngine.ts:27-33 | the digit written for d is read back by parseInt as d |
| ProgrammerEngine.Digits | src/renderer/engines/programmerEngine.ts:27-33 | toString writes valid digits of the radix with no leading zero |
| ProgrammerEngine.DigitsRoundTrip | src/renderer/engines/programmerEngine.ts:9-37 | the digits written for n have value n |
| ProgrammerEngine.ParseIntOfToRadixString | src/renderer/engines/programmerEngine.ts:9-37 | parseInt of toString(radix) gives the integer back, in every radix 2 to 36 |
| ProgrammerEngine.ToUpperCase | src/renderer/engines/programmerEngine.ts:33 | upper-casing keeps the length and maps each character |
| ProgrammerEngine.UpperNumeralValue | src/renderer/engines/programmerEngine.ts:17-18 | hexadecimal input reads the same in either case |
| ProgrammerEngine.HexOutputUpperCase | src/renderer/engines/programmerEngine.ts:32-33 | hexadecimal output holds only upper-case digits after an optional minus sign |
| ProgrammerEngine.ConvertBaseInvalid | src/renderer/engines/programmerEngine.ts:4-37 | convertBase fails with "Invalid base" exactly when either base is not one of the four |
| ProgrammerEngine.ConvertBaseRoundTrip | src/renderer/engines/programmerEngine.ts:4-7 | for 0 ≤ n ≤ Number.MAX_SAFE_INTEGER, converting the decimal numeral of n to any base and back yields the same decimal numeral |
| ProgrammerEngine.XorWithItself | src/renderer/engines/programmerEngine.ts:47-49 | a ^ a is 0 |
| ProgrammerEngine.AndWithZero | src/renderer/engines/programmerEngine.ts:39-41 | a & 0 is 0 |
| ProgrammerEngine.OrWithZero | src/renderer/engines/programmerEngine.ts:43-45 | a \| 0 is the 32-bit reading of a, and a itself when a fits in 32 bits |
| ProgrammerEngine.AndOne | src/renderer/engines/programmerEngine.ts:80 | x & 1 is the parity of x |
| ProgrammerEngine.BitwiseAnd | src/renderer/engines/programmerEngine.ts:39-41 | a 32-bit result; AndWithZero, BitwiseOfNaturals and AndExample state its value |
| ProgrammerEngine.BitwiseOr | src/renderer/engines/programmerEngine.ts:43-45 | a 32-bit result; OrWithZero, BitwiseOfNaturals and OrExample state its value |
| ProgrammerEngine.BitwiseXor | src/renderer/engines/programmerEngine.ts:47-49 | a 32-bit result; XorWithItself, BitwiseOfNaturals and XorExample state its value |
| ProgrammerEngine.BitwiseNot | src/renderer/engines/programmerEngine.ts:51-53 | a 32-bit result; WordOfNot and NotExamples state its value |
| ProgrammerEngine.LeftShift | src/renderer/engines/programmerEngine.ts:55-57 | a 32-bit result; WordOfShiftLeft and LeftShiftExamples state its value |
| ProgrammerEngine.RightShift | src/renderer/engines/programmerEngine.ts:59-61 | a 32-bit result; WordOfShiftRight and RightShiftExamples state its value |
| ProgrammerEngine.BitwiseOfNaturals | src/renderer/engines/programmerEngine.ts:39-49 | on non-negative 32-bit operands the operators are the bit operations on binary expansions |
| ProgrammerEngine.NaturalBitwiseBound | src/renderer/engines/programmerEngine.ts:39-49 | the bitwise combination of two numbers below 2^n stays below 2^n |
| ProgrammerEngine.AndExample | src/renderer/engines/programmerEngine.ts:39-41 | 12 & 10 is 8 |
| ProgrammerEngine.OrExample | src/renderer/engines/programmerEngine.ts:43-45 | 12 \| 10 is 14 |
| ProgrammerEngine.XorExample | src/renderer/engines/programmerEngine.ts:47-49 | 12 ^ 10 is 6 |
| ProgrammerEngine.NotExamples | src/renderer/engines/programmerEngine.ts:51-53 | ~5 is -6 and ~0 is -1 |
| ProgrammerEngine.LeftShiftExamples | src/renderer/engines/programmerEngine.ts:55-57 | 5 << 1 is 10 and 3 << 2 is 12 |
| ProgrammerEngine.RightShiftExamples | src/renderer/engines/programmerEngine.ts:59-61 | 10 >> 1 is 5 and 12 >> 2 is 3 |
| ProgrammerEngine.RotationMask | src/renderer/engines/programmerEngine.ts:64 | the mask lies between -2^31 - 1 and 2^31 - 1; RotationMaskWord states its bits |
| ProgrammerEngine.RotateLeft | src/renderer/engines/programmerEngine.ts:63-67 | a 32-bit result; WordOfRotateLeft, RotateRange and RotateRoundTrip state its value |
| ProgrammerEngine.RotateRight | src/renderer/engines/programmerEngine.ts:69-73 | a 32-bit result; WordOfRotateRight, RotateRange and RotateRoundTrip state its value |
| ProgrammerEngine.RotateLeftUnder | src/renderer/engines/programmerEngine.ts:63-67 | the left rotation yields a 32-bit integer |
| ProgrammerEngine.WordOfRotateLeft | src/renderer/engines/programmerEngine.ts:63-67 | for widths 1 to 31, rotateLeft rotates the low bitWidth bits of the word and clears the rest |
| ProgrammerEngine.WordOfRotateRight | src/renderer/engines/programmerEngine.ts:69-73 | for widths 1 to 31, rotateRight rotates the low bitWidth bits of the word and clears the rest |
| ProgrammerEngine.RotationMaskWord | src/renderer/engines/programmerEngine.ts:64 | the mask (1 << bitWidth) - 1 has the low bitWidth mod 32 bits set |
| ProgrammerEngine.RotateRange | src/renderer/engines/programmerEngine.ts:63-73 | both rotations lie in [0, 2^(bitWidth mod 32)) for any arguments |
| ProgrammerEngine.RotatedWordsRoundTrip | src/renderer/engines/programmerEngine.ts:63-73 | rotating a word back by the same amount restores its low bits |
| ProgrammerEngine.RotateRoundTrip | src/renderer/engines/programmerEngine.ts:63-73 | for widths 1 to 31, rotating right after left (or left after right) gives x mod 2^bitWidth |
| ProgrammerEngine.RotateWidth32IsZero | src/renderer/engines/programmerEngine.ts:64 | with the default width 32 both rotations return 0 for every input |
| ProgrammerEngine.RotateFixedRoundTrip | src/renderer/engines/programmerEngine.ts:63-73 | with an all-ones mask at width 32, the round trip holds for every width 1 to 32 |
| ProgrammerEngine.TwosComplement | src/renderer/engines/programmerEngine.ts:75-77 | the result lies in (-2^31, 2^31]; TwosComplementIsNegation states that it is the negation of the 32-bit value |
| ProgrammerEngine.GetBitAt | src/renderer/engines/programmerEngine.ts:79-81 | the result is 0 or 1; GetBitAtReadsBit states which bit it reads |
| ProgrammerEngine.SetBitAt | src/renderer/engines/programmerEngine.ts:83-89 | a 32-bit result; WordOfSetBitAt and GetBitAtOfSetBitAt state which bit changes and how |
| ProgrammerEngine.TwosComplementIsNegation | src/renderer/engines/programmerEngine.ts:75-77 | ~value + 1 is the negation of the 32-bit value; bitWidth has no effect |
| ProgrammerEngine.TwosComplementTwice | src/renderer/engines/programmerEngine.ts:75-77 | applying it twice restores the 32-bit value exactly when that value is not -2^31 |
| ProgrammerEngine.TwosComplementExamples | src/renderer/engines/programmerEngine.ts:75-77 | 5 gives -5 and 0 gives 0 |
| ProgrammerEngine.GetBitAtReadsBit | src/renderer/engines/programmerEngine.ts:79-81 | getBitAt is bit position mod 32 of the word, equally (value / 2^position) mod 2 |
| ProgrammerEngine.GetBitAtExampleLow | src/renderer/engines/programmerEngine.ts:79-81 | bit 0 of 5 is 1 |
| ProgrammerEngine.GetBitAtExampleClear | src/renderer/engines/programmerEngine.ts:79-81 | bit 1 of 5 is 0 |
| ProgrammerEngine.WordOfSingleBit | src/renderer/engines/programmerEngine.ts:85 | 1 << position has exactly bit position mod 32 set |
| ProgrammerEngine.WordOfSetBitAt | src/renderer/engines/programmerEngine.ts:83-89 | setBitAt changes only bit position mod 32, to 1 when bit is 1 and to 0 otherwise |
| ProgrammerEngine.GetBitAtOfSetBitAt | src/renderer/engines/programmerEngine.ts:79-89 | reading back gives the bit written, and every other bit reads as before |
| ProgrammerEngine.SetBitAtIdempotent | src/renderer/engines/programmerEngine.ts:83-89 | writing the bit already there gives the 32-bit value; writing twice equals writing once |
| ProgrammerEngine.SetBitAtArithmetic | src/renderer/engines/programmerEngine.ts:83-89 | setting a bit adds or subtracts 2^position exactly when the bit changes |
| ProgrammerEngine.SetBitAtExampleSet | src/renderer/engines/programmerEngine.ts:83-89 | setting bit 1 of 5 gives 7 |
| ProgrammerEngine.SetBitCountOfBits | src/renderer/engines/programmerEngine.ts:91-98 | the set bits of the n-bit word of x are its population count |
| ProgrammerEngine.CountSetBits | src/renderer/engines/programmerEngine.ts:91-98 | for a non-negative 32-bit value the loop ends and returns the number of set bits of its word |
| ProgrammerEngine.CountIsPopCount | src/renderer/engines/programmerEngine.ts:91-98 | that count is the population count of the number |
| ProgrammerEngine.CountExampleSeven | src/renderer/engines/programmerEngine.ts:91-98 | 7 has 3 set bits |
| ProgrammerEngine.CountSetBitsNeverEndsOnNegative | src/renderer/engines/programmerEngine.ts:93-95 | from a negative 32-bit value, `value >>= 1` never reaches 0, so the loop does not end |
| ProgrammerEngine.CountSetBitsFixed | src/renderer/engines/programmerEngine.ts:91-98 | with `>>>=` the loop ends for every input and counts all 32 bits |
| Memory.PadAndPush | src/renderer/hooks/useMemory.ts:23-26 | the list grows by empty slots up to the target index, then the new slot; the old slots are kept as they were |
| Memory.GrownLength | src/renderer/hooks/useMemory.ts:21-27 | a short list grows to target + 1 slots, even past 10; a list of 10 or more is left as it was |
| Memory.MemoryState.constructor | src/renderer/hooks/useMemory.ts:8-9 | the slots come from storage and slot 0 is active |
| Memory.MemoryState.Target | src/renderer/hooks/useMemory.ts:16 | an omitted slot index means the active slot |
| Memory.MemoryState.MemoryAdd | src/renderer/hooks/useMemory.ts:15-30 | adds to the target slot and keeps its label, or grows the list ending in the value; the active slot is unchanged |
| Memory.MemoryState.MemorySubtract | src/renderer/hooks/useMemory.ts:32-47 | subtracts from the target slot, or grows the list ending in the negated value |
| Memory.MemoryState.MemoryRecall | src/renderer/hooks/useMemory.ts:49-52 | the target slot's value, or 0 when there is no such slot |
| Memory.MemoryState.MemoryClear | src/renderer/hooks/useMemory.ts:54-73 | with no index, an empty list and slot 0 active; with an index, that slot is spliced out and the active slot steps back when it was at or past the old last index |
| Memory.MemoryState.MemoryStore | src/renderer/hooks/useMemory.ts:75-90 | replaces the target slot by a bare value with no label, or grows the list |
| Memory.MemoryState.MemoryAddSlot | src/renderer/hooks/useMemory.ts:92-97 | with fewer than 10 slots, appends one and makes it active; otherwise changes nothing |
| Memory.MemoryState.SetMemorySlot | src/renderer/hooks/useMemory.ts:99-103 | an existing index becomes active; any other index is ignored |
| Memory.StorePastCapacity | src/renderer/hooks/useMemory.ts:75-90 | storing 7 into slot 12 of an empty list yields 13 slots, and slot 12 recalls 7 |
| Memory.FullListIgnoresGrowth | src/renderer/hooks/useMemory.ts:21-27 | a full list ignores a write past its end, and a recall there gives 0 |
| History.AddEntry | src/renderer/hooks/useHistory.ts:12-23 | the new entry comes first, followed by the old entries in order, cut to 100 |
| History.ClearHistory | src/renderer/hooks/useHistory.ts:25-28 | the list is empty |
| History.DeleteEntry | src/renderer/hooks/useHistory.ts:30-32 | no kept entry carries the id, and the list does not grow |
| History.DeleteEntryMembers | src/renderer/hooks/useHistory.ts:31 | an entry is kept exactly when it was in the list and has another id |
| History.DeleteEntrySplits | src/renderer/hooks/useHistory.ts:31 | deleting works entry by entry, so the kept entries keep their order |
| History.DeleteUnknownIsNoOp | src/renderer/hooks/useHistory.ts:31 | an id no entry carries leaves the list unchanged |
| History.DeleteEntryIdempotent | src/renderer/hooks/useHistory.ts:31 | deleting the same id twice is deleting it once |
| History.BoundPreserved | src/renderer/hooks/useHistory.ts:21 | no operation takes a list of at most 100 entries past 100 |
| Validation.IsValidDigitForBase | src/renderer/utils/validation.ts:17-26 | an accepted digit is a single character |
| Validation.DigitForBaseIsParseIntDigit | src/renderer/utils/validation.ts:17-26 | accepted exactly when it is one character that parseInt reads as a digit below the base's radix |
| Validation.Keep | src/renderer/utils/validation.ts:34 | the filter keeps only characters of the class, never lengthening the string |
| Validation.KeepMembers | src/renderer/utils/validation.ts:34 | a character survives the filter exactly when it occurs in the input and is in the class |
| Validation.TrimStart | src/renderer/utils/validation.ts:39 | a suffix of the input, everything cut off is white space, and it does not start with white space |
| Validation.TrimEnd | src/renderer/utils/validation.ts:39 | a prefix of the input, everything cut off is white space, and it does not end with white space |
| Validation.TrimStartThenEnd | src/renderer/utils/validation.ts:39 | cutting both ends leaves a middle part of the input with only white space around it and none at its own ends |
| Validation.Trim | src/renderer/utils/validation.ts:39 | the result is a middle part s[a..a+\|r\|] of the input, everything around it is white space, and it neither starts nor ends with white space |
| Validation.TrimKeepsChars | src/renderer/utils/validation.ts:39 | the trim holds only characters of the input |
| Validation.TrimmedIsFixed | src/renderer/utils/validation.ts:39 | a string without white space at either end is its own trim |
| Validation.ScriptBlockAt | src/renderer/utils/validation.ts:37 | a script-block match at i starts with `<` and ends after i |
| Validation.NoAngleNoScript | src/renderer/utils/validation.ts:37 | a string without `<` is not changed by the script removal |
| Validation.StripScriptsExample | src/renderer/utils/validation.ts:37 | the pattern removes a script block with its contents |
| Validation.SanitizeMathExpression | src/renderer/utils/validation.ts:31-40 | the result is the trim of the input filtered to math-class characters: only those characters, no white space at either end |
| Validation.ScriptRemovalIsDead | src/renderer/utils/validation.ts:34-37 | after the filter, the script removal never changes the string |
| Validation.SanitizeKeepsClean | src/renderer/utils/validation.ts:31-40 | an expression of math-class characters with no white space at either end is returned unchanged |
| Validation.SanitizeIdempotent | src/renderer/utils/validation.ts:31-40 | sanitizing twice is sanitizing once |
| Validation.IsValidMathExpression | src/renderer/utils/validation.ts:45-63 | true exactly for non-empty, balanced strings of math-class characters |
| Validation.SanitizedBalancedIsAccepted | src/renderer/utils/validation.ts:31-63 | a non-empty, balanced sanitized expression passes validation |
| Validation.LimitInputLength | src/renderer/utils/validation.ts:68-70 | a prefix of the input of length min(len, max), with a negative limit counting back from the end |
| Validation.LimitIdempotent | src/renderer/utils/validation.ts:68-70 | limiting twice to the same length is limiting once |
| Validation.ValidateFinancialInput | src/renderer/utils/validation.ts:75-89 | valid exactly for a finite value that is non-negative unless the field is years or rate, and not above 100 for rate; a non-finite value reports "<field> must be a valid number", a negative value of another field "<field> cannot be negative", a rate above 100 "Interest rate seems unusually high (>100%)" |
| Validation.FinancialInputExamples | src/renderer/utils/validation.ts:75-89 | negative years pass, a negative principal is named in the error, a rate of 150 fails in any case |
| Validation.CountAtMostOne | src/renderer/utils/validation.ts:99-104 | counting at most one occurrence means no two positions hold the character |
| Validation.IndexOf | src/renderer/utils/validation.ts:107 | the first index of the character, or -1 exactly when it is absent |
| Validation.ValidateDecimalInput | src/renderer/utils/validation.ts:94-110 | valid exactly when the cleaned string has at most one point, at most one minus and the minus only in front; formatted is that cleaned string |
| Validation.DecimalFormattedChars | src/renderer/utils/validation.ts:94-110 | the formatted string keeps exactly the digits, points and minus signs of the input |
| Validation.ReplaceAll | src/renderer/utils/validation.ts:117-121 | a replacement without the replaced character removes it everywhere |
| Validation.SanitizeUserInput | src/renderer/utils/validation.ts:115-122 | the output contains none of `<`, `>`, `"`, `'`, `/` |
| Validation.SanitizeUserInputIsEscape | src/renderer/utils/validation.ts:115-122 | the five passes equal escaping each character on its own |
| Validation.SanitizeUserInputSplits | src/renderer/utils/validation.ts:115-122 | sanitizing distributes over concatenation |
| Validation.SanitizeUserInputChar | src/renderer/utils/validation.ts:117-121 | each single character becomes its entity, or itself when not special |
| Validation.SanitizeUserInputNotInjective | src/renderer/utils/validation.ts:115-122 | `<` and the text `&lt;` sanitize alike, so the escaping cannot be undone |
| Validation.ValidateGraphRange | src/renderer/utils/validation.ts:127-145 | valid exactly for finite bounds with min < max and a span between 0.001 and 1,000,000, with each check's own message in order |
| Financial.PowInt | src/renderer/engines/financialEngine.ts:16 | Math.pow for an integer exponent: the natural power for a non-negative exponent; not finite exactly for zero to a negative power; zero exactly for zero to a positive power |
| Financial.Div | src/renderer/engines/financialEngine.ts:62 | a quotient times the divisor is the dividend; not finite exactly for a zero divisor |
| Financial.PowIsZero | src/renderer/engines/financialEngine.ts:16 | a natural power is zero exactly when a zero base is raised to a positive exponent; PowNonzero and PowPositive give its sign |
| Financial.Bernoulli | src/renderer/engines/financialEngine.ts:16 | (1 + m)^n ≥ 1 + n·m for m > 0, strictly from n = 2 on |
| Financial.PowAboveOne | src/renderer/engines/financialEngine.ts:16 | a base above 1 to a power n ≥ 1 is above 1 |
| Financial.PowBelowOne | src/renderer/engines/financialEngine.ts:16 | a base between 0 and 1 to a power n ≥ 1 stays between 0 and 1 |
| Financial.PowMonotone | src/renderer/engines/financialEngine.ts:16 | for n ≥ 1, 0 < a < b gives a^n < b^n |
| Financial.PowAdd | src/renderer/engines/financialEngine.ts:16 | x^(i + j) = x^i · x^j |
| Financial.PowMul | src/renderer/engines/financialEngine.ts:16 | x^(i·j) = (x^i)^j |
| Financial.PowOfReciprocal | src/renderer/engines/financialEngine.ts:123 | the powers of reciprocal numbers are reciprocal |
| Financial.GeometricClosed | src/renderer/engines/financialEngine.ts:112-127 | with v = 1/(1 + m), m·(v + … + v^n) = 1 − v^n |
| Financial.GeometricBelow | src/renderer/engines/financialEngine.ts:112-127 | n discount factors between 0 and 1 sum to between 0 and n |
| Financial.GeometricMonotone | src/renderer/engines/financialEngine.ts:112-127 | the discounted sum grows strictly with the discount factor |
| Financial.DiscountedTotalBelow | src/renderer/engines/financialEngine.ts:112-127 | for m > 0 and n ≥ 1, 0 < (1 − (1 + m)^−n)/m < n |
| Financial.GrownTotalAbove | src/renderer/engines/financialEngine.ts:94-109 | for m > 0 and n ≥ 2, ((1 + m)^n − 1)/m > n |
| Financial.DiscountedIsGeometric | src/renderer/engines/financialEngine.ts:112-127 | (1 − (1 + m)^−n)/m is the sum of the discount factors v + … + v^n |
| Financial.CalculateLoanPayment | src/renderer/engines/financialEngine.ts:3-20 | at 0% the payment times the number of months is the principal, and there is a payment exactly when there are months; LoanPaymentPositive and LoanPaymentRisesWithRate give the positive-rate behaviour |
| Financial.LoanPaymentRepaysPrincipal | src/renderer/engines/financialEngine.ts:3-20 | the payment's annuity present value over the same months is the principal |
| Financial.LoanForm | src/renderer/engines/financialEngine.ts:14-19 | with q = (1 + m)^months, the payment exists exactly when q is not 1, and payment·(q − 1) = P·m·q |
| Financial.LoanZeroRateExample | src/renderer/engines/financialEngine.ts:10-13 | 12000 over 2 years at 0% is 500 a month |
| Financial.LoanPaymentPositive | src/renderer/engines/financialEngine.ts:3-20 | at a positive rate over years ≥ 1, a positive principal has a payment, it is positive, and the payments add up to more than the principal |
| Financial.LoanPaymentOverGeometric | src/renderer/engines/financialEngine.ts:3-20 | at a positive rate the payment is the principal divided by the sum of the monthly discount factors |
| Financial.LoanPaymentRisesWithRate | src/renderer/engines/financialEngine.ts:3-20 | a higher positive rate gives a strictly higher payment for the same principal and years |
| Financial.LoanHigherRateExample | tests/engines/financialEngine.test.ts:27-31 | 10000 over 3 years costs more a month at 10% than at 5% |
| Financial.CalculateCompoundInterest | src/renderer/engines/financialEngine.ts:23-35 | not finite exactly when the compounding base is 0 and the exponent negative; no interest at frequency 0; positive at a positive rate (FutureValueAbovePrincipal), larger monthly than annually (MonthlyBeatsAnnual) |
| Financial.CalculateFutureValue | src/renderer/engines/financialEngine.ts:38-49 | not finite exactly when the compounding base is 0 and the exponent negative; the principal at frequency 0; above the principal at a positive rate (FutureValueAbovePrincipal) |
| Financial.CompoundIsFutureValueGain | src/renderer/engines/financialEngine.ts:23-49 | compound interest is the future value less the principal, for the same arguments |
| Financial.FutureValueZeroRate | src/renderer/engines/financialEngine.ts:38-49 | at 0% the future value is the principal |
| Financial.FutureValueAbovePrincipal | src/renderer/engines/financialEngine.ts:23-49 | at a positive rate, frequency ≥ 1 and years ≥ 1, the future value exceeds a positive principal and the compound interest is positive |
| Financial.CompoundForm | src/renderer/engines/financialEngine.ts:23-35 | for frequency f ≥ 1 the interest is P·(1 + r/f)^(f·years) − P |
| Financial.MonthlyGrowthBeatsAnnual | src/renderer/engines/financialEngine.ts:23-35 | (1 + r/12)^(12·years) > (1 + r)^years for r > 0 and years ≥ 1 |
| Financial.MonthlyBeatsAnnual | src/renderer/engines/financialEngine.ts:23-35 | at a positive rate, monthly compounding earns strictly more interest on a positive principal than annual compounding |
| Financial.MonthlyBeatsAnnualExample | tests/engines/financialEngine.test.ts:56-60 | 1000 at 5% for a year earns more monthly than annually |
| Financial.CalculateSimpleInterest | src/renderer/engines/financialEngine.ts:52-58 | no interest at a zero rate, time or principal |
| Financial.SimpleInterestExamples | src/renderer/engines/financialEngine.ts:52-58 | 1000 at 5% for 3 years earns 150 |
| Financial.CalculateROI | src/renderer/engines/financialEngine.ts:61-63 | not finite exactly for a zero investment; otherwise ROI·initial = (final − initial)·100 |
| Financial.RoiExamples | src/renderer/engines/financialEngine.ts:61-63 | 20%, −20%, 0% and 100% on the sample investments |
| Financial.CalculateStraightLineDepreciation | src/renderer/engines/financialEngine.ts:66-72 | not finite exactly for a zero life; otherwise depreciation·life = cost − salvage |
| Financial.StraightLineExamples | src/renderer/engines/financialEngine.ts:66-72 | 4500 and 2000 on the sample assets |
| Financial.CalculateDecliningBalanceDepreciation | src/renderer/engines/financialEngine.ts:75-81 | not finite exactly at a 100% rate before year 1; at 100% the whole cost in year 1 and nothing after |
| Financial.DecliningFirstYear | src/renderer/engines/financialEngine.ts:75-81 | the first year writes off rate% of the cost |
| Financial.DecliningNextYear | src/renderer/engines/financialEngine.ts:75-81 | each later year is the previous year's amount times (1 − rate/100) |
| Financial.DecliningDecreases | src/renderer/engines/financialEngine.ts:75-81 | for a positive cost and 0 < rate < 100 every year writes off less than the one before |
| Financial.DecliningExamples | src/renderer/engines/financialEngine.ts:75-81 | 10000 at 20% writes off 2000 in the first year and less in the second |
| Financial.CalculatePresentValue | src/renderer/engines/financialEngine.ts:84-91 | not finite exactly when 1 + r/100 is 0 over positive years, 0 over negative ones; for years ≥ 0 the present value grown over the years is the future value; below the future value at a positive rate (PresentValueBelowFuture) |
| Financial.PresentValueZeroRate | src/renderer/engines/financialEngine.ts:84-91 | at 0% the present value is the future amount |
| Financial.PresentValueUndoesFutureValue | src/renderer/engines/financialEngine.ts:38-91 | discounting an annually compounded amount over the same years gives the principal back |
| Financial.PresentValueBelowFuture | src/renderer/engines/financialEngine.ts:84-91 | at a positive rate over years ≥ 1, a positive future amount has a present value strictly between 0 and itself |
| Financial.CalculateAnnuityFutureValue | src/renderer/engines/financialEngine.ts:94-109 | at 0% the value is payment × months; above payment × months at a positive rate (AnnuityFutureAboveTotal) |
| Financial.CalculateAnnuityPresentValue | src/renderer/engines/financialEngine.ts:112-127 | at 0% the value is payment × months; between 0 and payment × months at a positive rate (AnnuityPresentBelowTotal) |
| Financial.AnnuityZeroRate | src/renderer/engines/financialEngine.ts:101-104 | with no interest both annuity values are the plain total of the payments |
| Financial.AnnuityForms | src/renderer/engines/financialEngine.ts:94-127 | with q = (1 + m)^months, the future value is p·(q − 1)/m and the present value p·(1 − 1/q)/m |
| Financial.AnnuityFutureIsPresentGrown | src/renderer/engines/financialEngine.ts:94-127 | the annuity future value is its present value grown over all the months |
| Financial.AnnuityFutureAboveTotal | src/renderer/engines/financialEngine.ts:94-109 | at a positive rate over years ≥ 1, positive payments grow to more than payment × months |
| Financial.AnnuityPresentBelowTotal | src/renderer/engines/financialEngine.ts:112-127 | at a positive rate over years ≥ 1, positive payments are worth between 0 and payment × months today |
| Financial.AnnuityPresentIsGeometric | src/renderer/engines/financialEngine.ts:112-127 | the annuity present value is the payment times the sum of the monthly discount factors |
| Financial.PositiveRateExamples | tests/engines/financialEngine.test.ts:64-272 | the positive-rate examples: 1000 grows above 1000, discounts below 1000; 100 a month for 10 years grows above and discounts below 12000; the tiny and the large loan have positive payments |
| Financial.CalculateBreakEvenPoint | src/renderer/engines/financialEngine.ts:130-136 | not finite exactly when price equals variable cost; otherwise units·margin = fixed costs |
| Financial.BreakEvenExamples | src/renderer/engines/financialEngine.ts:130-136 | 10000 fixed at a margin of 20 is 500 units; a thinner margin needs more units |
| Financial.BreakEvenFallsWithMargin | src/renderer/engines/financialEngine.ts:130-136 | with positive fixed costs, a smaller positive margin gives a higher break-even point |
| Financial.CalculateNPV | src/renderer/engines/financialEngine.ts:139-152 | −initial plus each cash flow i discounted over i + 1 periods; with no cash flows exactly −initial, at every rate including −100%; not finite at a rate of −100% exactly when there are cash flows |
| Financial.DiscountedAtZeroRate | src/renderer/engines/financialEngine.ts:147-150 | undiscounted, the cash flows simply add up |
| Financial.DiscountedPositive | src/renderer/engines/financialEngine.ts:147-150 | positive cash flows at a rate above −100% have a positive present value |
| Financial.NpvZeroRateExample | src/renderer/engines/financialEngine.ts:139-152 | 10000 invested and 5000 back in each of three years at 0% gives 5000 |
| UnitConverter.Lookup | src/renderer/utils/unitConverter.ts:91 | no conversion exactly when no entry has the key, and a found conversion belongs to an entry with that key |
| UnitConverter.ConvertUnit | src/renderer/utils/unitConverter.ts:76-97 | equal units return the value; otherwise success exactly when the category and key exist, applying that entry; an unknown category or conversion fails with its message |
| UnitConverter.ReverseUndoes | src/renderer/utils/unitConverter.ts:9-74 | the reverse conversion undoes a conversion |
| UnitConverter.ReverseIsUndone | src/renderer/utils/unitConverter.ts:9-74 | a conversion undoes its reverse |
| UnitConverter.TableIsGood | src/renderer/utils/unitConverter.ts:9-74 | every category stores its conversions in mutually inverse pairs, with dash-free unit names and no repeated pair |
| UnitConverter.KeyDeterminesUnits | src/renderer/utils/unitConverter.ts:84 | a key "a-b" of dash-free names names one pair of units only |
| UnitConverter.LookupFinds | src/renderer/utils/unitConverter.ts:91 | in such a table an entry's key finds that entry's conversion |
| UnitConverter.LookupMissing | src/renderer/utils/unitConverter.ts:91-94 | a pair of dash-free units that no entry converts between is not found |
| UnitConverter.ConvertFinds | src/renderer/utils/unitConverter.ts:84-96 | converting between an entry's two units applies that entry's conversion |
| UnitConverter.ConvertRoundTrip | src/renderer/utils/unitConverter.ts:76-97 | converting a value and converting the result back yields the value |
| UnitConverter.FahrenheitToKelvinViaCelsius | src/renderer/utils/unitConverter.ts:76-97 | Fahrenheit to Kelvin equals Fahrenheit to Celsius then Celsius to Kelvin |
| UnitConverter.KelvinToFahrenheitViaCelsius | src/renderer/utils/unitConverter.ts:76-97 | Kelvin to Fahrenheit equals Kelvin to Celsius then Celsius to Fahrenheit |
| UnitConverter.FeetToInchesIsUnknown | src/renderer/utils/unitConverter.ts:91-94 | feet to inches fails as an unknown conversion: each converts only to and from meters |
| UnitConverter.MetersToKilometersExample | src/renderer/utils/unitConverter.ts:11 | 1000 meters are 1 kilometer |
| UnitConverter.TableCategoriesAreListed | src/shared/constants.ts:21-32 | the table's categories are exactly the first seven listed categories |
| UnitConverter.ListedCategoriesWithoutTable | src/renderer/utils/unitConverter.ts:85-89 | the last three listed categories fail with an unknown category for any two different units |
| UnitConverter.Split | src/renderer/utils/unitConverter.ts:105 | splitting yields at least one piece |
| UnitConverter.SplitJoin | src/renderer/utils/unitConverter.ts:105 | joining the pieces with the separator restores the string |
| UnitConverter.SplitKey | src/renderer/utils/unitConverter.ts:105 | a key of two dash-free names splits into those two names |
| UnitConverter.BelowTotal | src/renderer/utils/unitConverter.ts:110 | the default sort order ranks any two different strings one way or the other |
| UnitConverter.BelowTransitive | src/renderer/utils/unitConverter.ts:110 | the default sort order is transitive |
| UnitConverter.BelowIrreflexive | src/renderer/utils/unitConverter.ts:110 | no string sorts before itself |
| UnitConverter.InsertSorted | src/renderer/utils/unitConverter.ts:110 | inserting keeps the sequence strictly ascending and adds exactly the new string |
| UnitConverter.AscendingUnique | src/renderer/utils/unitConverter.ts:110 | a set of strings has one strictly ascending arrangement |
| UnitConverter.GetUnitsForCategory | src/renderer/utils/unitConverter.ts:99-111 | no units for an unknown category; otherwise strictly ascending, holding exactly the from and to units of the category's keys |
| UnitConverter.TemperatureUnits | src/renderer/utils/unitConverter.ts:99-111 | the temperature units are Celsius, Fahrenheit, Kelvin in that order |

## Left out

- Floating point: every number is an exact real or integer. IEEE rounding, `-0` and overflow to Infinity are not modelled. NaN and the infinities appear only as `None` in the financial formulas and as `JsNumber` in the validators.
- BasicEngine.Calculator: `parseFloat`, `String` and `math.sqrt` are the abstract codec `Numerics`, so the contracts relate the fields through that codec. The examples assume how the codec renders the few numbers they use.
- `getCurrentValue` in the basic engine returns the `currentValue` field. In the model that field can be read directly, so there is no separate member.
- ProgrammerEngine.ConvertBase: requires a numeral that is well formed for its base. `parseInt`'s prefix reading of malformed input (NaN, stopping at the first bad digit, `0x` prefixes, leading white space) is not modelled.
- ProgrammerEngine.ToDecimal: the same restriction, for the same reason.
- ProgrammerEngine.ConvertBaseRoundTrip: holds only up to Number.MAX_SAFE_INTEGER (2^53 - 1). Above it `parseInt` rounds to the nearest double, so 9007199254740993 reads as 9007199254740992. From 10^21 on, `toString(10)` also switches to exponential notation (`1e+21`). The model's integers are exact, so the lemma's bound states the source's limit.
- ProgrammerEngine.FromDecimal: its integers are exact. It does not model the double rounding above 2^53, nor the exponential notation `toString(10)` uses from 10^21 on.
- Operand values in the programmer engine are integers. The 32-bit operators' handling of fractional and non-finite numbers, which `ToInt32` truncates or maps to 0, is not modelled.
- ProgrammerEngine.CountSetBits: requires a non-negative 32-bit value, because for a negative value the source loop never ends (see Findings).
- The rotation examples of the repository's tests (8-bit rotations) are not stated as lemmas. The general lemmas `WordOfRotateLeft` and `RotateRoundTrip` cover those widths.
- The repository's twosComplement tests expect 5 to give -4 and 0 to give 1. The code computes `~v + 1`, which gives -5 and 0, and the model follows the code.
- Memory and history persistence (storage reads and writes, `useEffect`), React state batching, and the `hasMemory`/`maxSlots` fields are not modelled. The history entry's random UUID and timestamp are parameters.
- Memory slot indices are natural numbers. Negative indices, which the source would turn into array properties, are not modelled; `setMemorySlot` takes any integer and ignores out-of-range ones, as in the source.
- Financial formulas take integer years, periods, frequencies and exponents, so non-integer powers are not modelled. `calculateSimpleInterest` takes real years because it uses no power.
- Strings are sequences of code points. UTF-16 surrogate pairs are not modelled, which matters only for `limitInputLength` on characters outside the Basic Multilingual Plane.
- Case-insensitive matching and `toLowerCase` fold ASCII letters only. For the field names and script tags they are compared against, this is exact.
- The unit table is a list of entries searched for the first matching key, not a JavaScript object. The keys of each category are proved distinct, so the first match is the only one.
- Category names that `Object.prototype` supplies (`constructor`, `toString`, …) are modelled as found categories without conversions, which is what the source's truthiness test does with them.
- `debounce` and `isValidNumber` in the validators, the scientific engine, the graphing code, storage, the keyboard hook and all UI components are not part of this model.

## Findings

| source | as written | input that shows it | evidently intended | confidence | as-written member | corrected member |
|---|---|---|---|---|---|---|
| src/renderer/engines/programmerEngine.ts:64 | the mask `(1 << bitWidth) - 1` is computed with a 32-bit shift, so at the default width 32 `1 << 32` is 1 and the mask is 0 | `rotateLeft(5, 1)` with the default width 32 returns 0 | an all-ones mask at width 32, so that the rotation keeps every bit | not executed | ProgrammerEngine.RotateWidth32IsZero | ProgrammerEngine.RotateFixedRoundTrip |
| src/renderer/engines/programmerEngine.ts:93-95 | the loop shifts with the sign-propagating `>>=`, and a negative value stays negative forever | `countSetBits(-1)` does not terminate | shifting with `>>>=`, which ends after at most 32 rounds and counts all set bits | not executed | ProgrammerEngine.CountSetBitsNeverEndsOnNegative | ProgrammerEngine.CountSetBitsFixed |
