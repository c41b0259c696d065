# Fixed-point decimals, FIX ExecType and Taifex symbol ordering

A Dafny model of four small pieces of a trading-utilities repository.

- **FixedPoint** (`fixedpoint.dfy`, `fixedpoint_text.dfy`). A decimal value is a pair `(value, precision)` that stands for `value / 10^precision`. The model covers the `fputil` operations:
  - construction;
  - `add`, `subtract`, `multiply` and `divide`, with a domain error on a zero divisor;
  - `to_int`, truncating toward zero;
  - `equals`, `less_than` and `greater_than`, and the operators derived from them;
  - `to_string` and `from_string`, with the stream operators read as those two.

  Every arithmetic and comparison contract is stated against the exact rational value, `RealValue`. The text form is tied to the number by a round-trip lemma.
- **FIX ExecType** (`exectype.dfy`). The ExecType field (tag 150) of FIX Protocol 5.0. It has an enumeration of 20 kinds and a table from one-character wire codes to kinds. Lookup is a total function to `Option`, and the table is proved to be a bijection in declaration order.
- **Ordered sets** (`ordered_set.dfy`). `std::set<T, Compare>` filled from a range. The set is the sequence its iteration visits.
  - `Insert` finds the first element not less than the new one and inserts unless that element is equivalent.
  - `Build` inserts a range one element at a time.
  - Both methods are proved against the functions `Inserted` and `Built`. For any strict weak order the built set is proved strictly sorted, and to hold exactly the first input element of each equivalence class.
- **Taifex futures symbols** (`sort_future.dfy`). A comparator on the month code and year digit at the end of a symbol. It is delivery order on any two consecutive years, across the decade wrap too, and it is not transitive over three years. The program's list sorts to TXFA3 TXFG3 TXFL3 TXFD4 TXFG4 TXFH4.
- **Taifex option symbols** (`sort_option.dfy`). A comparator on the five-character strike field at offset 3. It is lexicographic order on that field and a strict weak order. The program's list sorts by strike.

`wrappers.dfy` holds `Option` and `Result`. `arithmetic.dfy` holds powers of ten, the exact-ratio lemmas and truncating division.

The implementation header `fixedpoint.h` is not part of this model. The FixedPoint operations are modelled from what `FixedPoint/test_fixedpoint.cpp` asserts about them. Where that leaves a choice open, the choice is a parameter or is listed under "Left out".

## Model

| member | source | states |
|---|---|---|
| FixedPointNumber.Default | FixedPoint/test_fixedpoint.cpp:6-8 | the default value represents zero |
| FixedPointNumber.ConstructorExamples | FixedPoint/test_fixedpoint.cpp:6-12 | the default value is the pair (0, 0) |
| FixedPointNumber.Align | FixedPoint/test_fixedpoint.cpp:48-53 | rescaling to a finer precision sets that precision and keeps the represented number |
| FixedPointNumber.Add | FixedPoint/test_fixedpoint.cpp:48-49 | the sum is at the larger precision and represents the exact sum |
| FixedPointNumber.Subtract | FixedPoint/test_fixedpoint.cpp:51-53 | the difference is at the larger precision and represents the exact difference |
| FixedPointNumber.Multiply | FixedPoint/test_fixedpoint.cpp:55-57 | precisions add, and the result represents the exact product |
| FixedPointNumber.Divide | FixedPoint/test_fixedpoint.cpp:59-61 | fails exactly on a zero divisor, with DivisionByZero; otherwise the precision is min(dividend precision + guard digits, MAX_PRECISION), and the value is the exact quotient at that precision truncated toward zero |
| FixedPointNumber.QuotientAtScale | FixedPoint/test_fixedpoint.cpp:60 | the integer division used by divide truncates the exact quotient toward zero |
| FixedPointNumber.ToInt | FixedPoint/test_fixedpoint.cpp:26-29 | to_int is the represented number truncated toward zero |
| Arithmetic.TowardZeroUnique | FixedPoint/test_fixedpoint.cpp:26-29 | at most one integer is a number truncated toward zero, so the truncation contracts of to_int and divide each fix a single result |
| FixedPointNumber.Equals | FixedPoint/test_fixedpoint.cpp:69-70 | equals holds exactly when the represented numbers are equal |
| FixedPointNumber.LessThan | FixedPoint/test_fixedpoint.cpp:71-72 | less_than holds exactly when the first number is smaller |
| FixedPointNumber.GreaterThan | FixedPoint/test_fixedpoint.cpp:73-74 | greater_than holds exactly when the first number is larger |
| FixedPointNumber.NotEqual | FixedPoint/test_fixedpoint.cpp:82 | != holds exactly when the numbers differ |
| FixedPointNumber.AtMost | FixedPoint/test_fixedpoint.cpp:85 | <= holds exactly when the first number is not larger |
| FixedPointNumber.AtLeast | FixedPoint/test_fixedpoint.cpp:86 | >= holds exactly when the first number is not smaller |
| FixedPointNumber.Trichotomy | FixedPoint/test_fixedpoint.cpp:64-75 | exactly one of less_than, equals and greater_than holds |
| FixedPointNumber.ComparisonLaws | FixedPoint/test_fixedpoint.cpp:81-86 | equals is an equivalence, less_than is transitive, and <= and >= are the disjunctions they name |
| FixedPointNumber.ZeroAtAnyPrecision | FixedPoint/test_fixedpoint.cpp:110-112 | zero at precision 0 equals zero at any precision |
| FixedPointNumber.SamePrecisionArithmetic | FixedPoint/test_fixedpoint.cpp:48-53 | at equal precisions, add and subtract act on the values and keep the precision |
| FixedPointNumber.SubtractUndoesAdd | FixedPoint/test_fixedpoint.cpp:88-92 | (a + b) - b equals a, and is the same pair when a is at least as fine as b |
| FixedPointNumber.ArithmeticExamples | FixedPoint/test_fixedpoint.cpp:48-57 | 1.23 + 4.56 is (579, 2), 4.56 - 1.23 is (333, 2), 1.23 * 4.56 is (56088, 4), and to_int gives 123, 1 and -1 |
| FixedPointNumber.ComparisonExamples | FixedPoint/test_fixedpoint.cpp:64-86 | the asserted comparisons of 1.23 and 4.56, and that 0 equals 0.000 |
| FixedPointText.ToString | FixedPoint/test_fixedpoint.cpp:16-19 | non-empty; starts with '-' exactly for a negative value; has no point at precision 0; otherwise the point has exactly precision digits after it |
| FixedPointText.ToStringDigits | FixedPoint/test_fixedpoint.cpp:16-19 | the digits before the point read as |value| / 10^precision with no leading zero, and the digits after it read as |value| mod 10^precision |
| FixedPointText.Unsigned | FixedPoint/test_fixedpoint.cpp:16-19 | the unsigned text: a whole part reading as m / 10^precision with no leading zero, then at a positive precision a point and exactly precision digits reading as m mod 10^precision |
| FixedPointText.FractionDigits | FixedPoint/test_fixedpoint.cpp:19 | the fraction is the remainder written with exactly precision digits, zero-padded on the left |
| FixedPointText.FromString | FixedPoint/test_fixedpoint.cpp:35-40 | the empty string fails; a parsed string has only digits, a point and a leading sign; the value is all its digits read as one integer, negated after a leading '-'; a nonzero value is negative exactly when the text starts with '-'; the precision is the number of digits after the point, or 0 without one |
| FixedPointText.ParseUnsigned | FixedPoint/test_fixedpoint.cpp:35-40 | the unsigned part: only digits and a point; the value is the digits read as one integer, ignoring the point; the precision is counted after the point, or 0 without one |
| FixedPointText.DigitsOnly | FixedPoint/test_fixedpoint.cpp:35-40 | the digits of a text, in order, with everything else dropped; the result is all digits and no longer than the text |
| FixedPointText.DigitsOnlySplit | FixedPoint/test_fixedpoint.cpp:36 | dropping the point from whole digits, a point and fraction digits leaves the digits joined |
| FixedPointText.ParseUnsignedAccepts | FixedPoint/test_fixedpoint.cpp:35-40 | the unsigned parser succeeds exactly on digits, or on digits, a point and digits |
| FixedPointText.FromStringAccepts | FixedPoint/test_fixedpoint.cpp:35-40 | from_string succeeds exactly on such text with an optional leading '+' or '-' |
| FixedPointText.FromStringToString | FixedPoint/test_fixedpoint.cpp:16-19 | from_string(to_string(x)) gives back x for every value |
| FixedPointText.UnsignedRoundTrip | FixedPoint/test_fixedpoint.cpp:16-19 | the unsigned digits of any magnitude and precision parse back to that pair |
| FixedPointText.ParseUnsignedOfSplit | FixedPoint/test_fixedpoint.cpp:36-37 | whole digits, a point and fraction digits parse to the joined digits, with the fraction length as precision |
| FixedPointText.ToStringWholeExample | FixedPoint/test_fixedpoint.cpp:16 | to_string(123, 0) is "123" |
| FixedPointText.ToStringFractionExample | FixedPoint/test_fixedpoint.cpp:17 | to_string(123, 2) is "1.23" |
| FixedPointText.ToStringNegativeExample | FixedPoint/test_fixedpoint.cpp:18 | to_string(-123, 2) is "-1.23", also at lines 115-116 |
| FixedPointText.ToStringPaddedExample | FixedPoint/test_fixedpoint.cpp:19 | to_string(5, 3) is "0.005" |
| FixedPointText.FromStringExamples | FixedPoint/test_fixedpoint.cpp:35-40 | "1.23" parses to (123, 2) and "123" to (123, 0) |
| FixedPointText.LeadingZerosExample | FixedPoint/test_fixedpoint.cpp:35-40 | "007" parses to (7, 0) |
| FixedPointText.PlusSignExample | FixedPoint/test_fixedpoint.cpp:35-40 | "+5" parses to (5, 0) |
| FixedPointText.MinusSignExample | FixedPoint/test_fixedpoint.cpp:35-40 | "-12" parses to (-12, 0) |
| FixedPointText.FromStringRejects | FixedPoint/test_fixedpoint.cpp:35-40 | "1.", ".5" and "-" fail to parse |
| FixedPointText.StreamExamples | FixedPoint/test_fixedpoint.cpp:95-106 | writing (123, 2) gives "1.23" and reading "4.56" gives (456, 2) |
| FixExecType.Ordinal | FIX/ExecType.h:10-31 | each enumerator's value is below 20 |
| FixExecType.Lookup | FIX/ExecType.h:33-53 | a code has an entry exactly when it is a single character among '0', '3' to '9' and 'A' to 'L' |
| FixExecType.Code | FIX/ExecType.h:33-53 | every constant has a one-character key that looks up to it |
| FixExecType.OrdinalInjective | FIX/ExecType.h:10-31 | distinct enumerators have distinct values |
| FixExecType.TableMatchesLookup | FIX/ExecType.h:33-53 | the table has 20 entries, and each key looks up to its entry's constant |
| FixExecType.TableInDeclarationOrder | FIX/ExecType.h:10-53 | the k-th entry maps to the constant declared k-th |
| FixExecType.TableKeysDistinct | FIX/ExecType.h:33-53 | no two entries share a key or a constant |
| FixExecType.LookupIsTableSearch | FIX/ExecType.h:33-53 | lookup succeeds exactly on the table's keys and returns that entry's constant |
| FixExecType.LookupInjective | FIX/ExecType.h:33-53 | two codes that find the same constant are the same code |
| FixExecType.CodeLookupInverse | FIX/ExecType.h:10-53 | lookup and Code are inverse, so the table is a bijection between its keys and the 20 constants |
| FixExecType.UnassignedCodes | FIX/ExecType.h:34-35 | "1", "2", "" and "00" have no entry |
| OrderedSet.Inserted | SortSymbol/SortOptionSymbol.cpp:15-16 | insertion never shortens the set and lengthens it by at most one element |
| OrderedSet.Built | SortSymbol/SortOptionSymbol.cpp:15-16 | the set built from a range is no longer than the range |
| OrderedSet.Insert | SortSymbol/SortFutureSymbol.cpp:47-48 | the insertion loop returns the set with x inserted at its lower bound, or unchanged when an equivalent is present |
| OrderedSet.InsertedUnfold | SortSymbol/SortFutureSymbol.cpp:47-48 | one insertion step: pass a smaller head, place x before a larger head, stop at an equivalent head |
| OrderedSet.Build | SortSymbol/SortOptionSymbol.cpp:15-16 | the range constructor returns the set built by inserting the range in order |
| OrderedSet.BuiltSnoc | SortSymbol/SortOptionSymbol.cpp:15-16 | building from a range plus one element inserts that element into the set built from the range |
| OrderedSet.InsertedElements | SortSymbol/SortOptionSymbol.cpp:15-16 | insertion adds nothing but x, and x ends up present or already represented by an equivalent |
| OrderedSet.StrictWeakOrderOnSubset | SortSymbol/SortOptionSymbol.cpp:15-16 | a strict weak order on a range is one on any sub-collection |
| OrderedSet.InsertedSorted | SortSymbol/SortOptionSymbol.cpp:15-16 | under a strict weak order, insertion keeps the set strictly sorted |
| OrderedSet.TailOfSnoc | SortSymbol/SortOptionSymbol.cpp:15-16 | the strict weak order holds on the tail of the set plus x |
| OrderedSet.BelowHead | SortSymbol/SortOptionSymbol.cpp:15-16 | an x below the head of a sorted set is below all of it |
| OrderedSet.InsertedSortedPastHead | SortSymbol/SortOptionSymbol.cpp:15-16 | inserting past the head keeps the head first and the set sorted |
| OrderedSet.InsertedContents | SortSymbol/SortOptionSymbol.cpp:15-16 | insertion leaves the set unchanged when an equivalent is present, and otherwise adds exactly x |
| OrderedSet.InsertedContentsPastHead | SortSymbol/SortOptionSymbol.cpp:15-16 | inserting past the head changes the contents as the tail's insertion does |
| OrderedSet.BuiltFromInput | SortSymbol/SortOptionSymbol.cpp:15-16 | every element of the set comes from the range |
| OrderedSet.BuiltIsOrderedSet | SortSymbol/SortOptionSymbol.cpp:15-16 | the built set is strictly sorted, represents every input, and holds exactly the first input of each equivalence class |
| OrderedSet.FirstOfClassSnoc | SortSymbol/SortOptionSymbol.cpp:15-16 | the first-of-class elements of a range plus x are those of the range, and x when nothing before is equivalent to it |
| OrderedSet.InsertSkipsEquivalent | SortSymbol/SortOptionSymbol.cpp:15-16 | an x with an equivalent already in the set is not first of its class |
| OrderedSet.InsertAddsNew | SortSymbol/SortOptionSymbol.cpp:15-16 | an x with no equivalent in the set is first of its class and becomes represented |
| FutureSymbolOrder.Cmp | SortSymbol/SortFutureSymbol.cpp:32-45 | the comparator: never true between symbols with the same month and year; always true for year 9 before year 0, and never for year 0 before year 9 |
| FutureSymbolOrder.CmpAsWritten | SortSymbol/SortFutureSymbol.cpp:32-45 | the lambda as written, reading rhs at lhs's last index, where one past rhs's end is its terminating '\0'; it agrees with Cmp on symbols of equal length |
| FutureSymbolOrder.AsWrittenMisordersLongerSymbol | SortSymbol/SortFutureSymbol.cpp:44 | with a longer right-hand symbol the as-written comparator does not put December 2029 before January 2030 |
| FutureSymbolOrder.CmpIrreflexiveAsymmetric | SortSymbol/SortFutureSymbol.cpp:32-45 | the comparator is irreflexive and asymmetric |
| FutureSymbolOrder.CmpEquivalence | SortSymbol/SortFutureSymbol.cpp:32-48 | two symbols are equivalent, and the set keeps one, exactly when month code and year digit match |
| FutureSymbolOrder.CmpIsDeliveryOrder | SortSymbol/SortFutureSymbol.cpp:23-44 | on two consecutive years, including 9 then 0, the comparator is earlier year first, then earlier month |
| FutureSymbolOrder.CmpStrictWeakOrderInWindow | SortSymbol/SortFutureSymbol.cpp:23-45 | on symbols from two consecutive years the comparator is a strict weak order |
| FutureSymbolOrder.FutureSetInDeliveryOrder | SortSymbol/SortFutureSymbol.cpp:47-48 | such a set iterates in delivery order and keeps the first symbol listed for each month |
| FutureSymbolOrder.CmpCyclesOverThreeYears | SortSymbol/SortFutureSymbol.cpp:40-44 | over three years the order cycles: TXFA1 < TXFA2 < TXFA3 < TXFA1 |
| FutureSymbolOrder.FutureListSorted | SortSymbol/SortFutureSymbol.cpp:29-48 | the listed symbols come out as TXFA3 TXFG3 TXFL3 TXFD4 TXFG4 TXFH4 |
| FutureSymbolOrder.DecadeWrapListSorted | SortSymbol/SortFutureSymbol.cpp:27-48 | the commented-out list comes out as TXFJ9 TXFK9 TXFL9 TXFA0 TXFD0 TXFG0 TXFH0 |
| OptionSymbolOrder.Strike | SortSymbol/SortOptionSymbol.cpp:12 | substr(3, 5): the characters of the symbol from offset 3, exactly min(5, length - 3) of them |
| OptionSymbolOrder.LexLess | SortSymbol/SortOptionSymbol.cpp:12 | string <: holds only between different strings, and never with an empty right-hand side |
| OptionSymbolOrder.Cmp | SortSymbol/SortOptionSymbol.cpp:11-13 | the comparator holds only between symbols whose strike fields differ |
| OptionSymbolOrder.CmpIsStrikeOrder | SortSymbol/SortOptionSymbol.cpp:11-13 | the comparator holds exactly when lhs's strike field comes first in lexicographic order |
| OptionSymbolOrder.LexLessIsLexBefore | SortSymbol/SortOptionSymbol.cpp:12 | string < is lexicographic order: a proper prefix, or the first differing character is smaller |
| OptionSymbolOrder.LexLessIrreflexive | SortSymbol/SortOptionSymbol.cpp:12 | no string is less than itself |
| OptionSymbolOrder.LexLessTransitive | SortSymbol/SortOptionSymbol.cpp:12 | string < is transitive |
| OptionSymbolOrder.LexLessTotal | SortSymbol/SortOptionSymbol.cpp:12 | two different strings are ordered one way or the other |
| OptionSymbolOrder.CmpEquivalence | SortSymbol/SortOptionSymbol.cpp:11-16 | two symbols are equivalent, and the set keeps one, exactly when their strike fields are equal |
| OptionSymbolOrder.CmpStrictWeakOrder | SortSymbol/SortOptionSymbol.cpp:11-13 | the comparator is a strict weak order on any symbols |
| OptionSymbolOrder.CmpIgnoresOutsideStrike | SortSymbol/SortOptionSymbol.cpp:12 | characters outside offsets 3 to 7 never change the comparison |
| OptionSymbolOrder.OptionSetInStrikeOrder | SortSymbol/SortOptionSymbol.cpp:15-20 | the set iterates in strictly increasing strike order and keeps the first symbol listed for each strike |
| OptionSymbolOrder.OptionListSorted | SortSymbol/SortOptionSymbol.cpp:8-16 | the listed symbols come out as TXO03900A5 TXO18500A5 TXO19800A5 TXO22000A5 TXO24400A5 |
| OptionSymbolOrder.SameStrikeKeepsFirst | SortSymbol/SortOptionSymbol.cpp:15-16 | of two symbols with the same strike, only the first listed stays |

## Left out

- `to_double` and `from_double` (FixedPoint/test_fixedpoint.cpp:21-24, 31-33) are left out, because they are binary floating point and the rounding rule is not pinned down.
- The native width of `value` is not modelled. Values are unbounded integers, so neither overflow nor a parse error on overflow is.
- Stream state is not modelled. `operator<<` and `operator>>` (FixedPoint/test_fixedpoint.cpp:95-106) are taken to be `to_string` and `from_string`.
- FixedPointNumber.Divide: `MAX_PRECISION` and the number of guard digits are parameters, because `fixedpoint.h` is not part of this model. The result precision is min(dividend precision + guard digits, MAX_PRECISION), and no specific quotient of the source is claimed.
- FixedPointNumber.Multiply: the product's precision is not capped at MAX_PRECISION, because the test asserts precision 4 as the plain sum of the precisions.
- FixedPointText.FromString: the accepted grammar is an optional sign, then digits, then optionally a point and digits. It is a choice, because `fixedpoint.h` is not part of this model. Malformed text yields a `ParseError` instead of a thrown exception.
- Characters compare by code point. That matches `char` comparison for the ASCII symbols involved.
- Futures symbols shorter than 2 characters and option symbols shorter than 3 are excluded by the `Symbol` subset types. In the source they index outside the string (undefined behaviour), or `substr` throws.
- FutureSymbolOrder.CmpAsWritten: requires lhs to be at most one character longer than rhs. At exactly one longer, `rhs[lhs_size - 1]` is rhs's terminating '\0' and the model reads that character. Any longer lhs reads past the end of rhs, which is undefined behaviour.
- `std::set` is modelled as the sequence its iteration visits. The red-black tree, its node layout and its allocation are not modelled.
- `PrintSet`, the print loop and all `std::cout` output are left out as I/O.
- FixedPoint/benchmark.cpp, GoogleAppsScript/StockPrice/StockPrice.js, LatencyDashboard/server.js and LatencyDashboard/scripts/data/generate_data.js are not part of this model. They are timing harnesses, network and database I/O, and random data generation.

## Findings

| source | as written | input that shows it | evidently intended | confidence | as-written member | corrected member |
|---|---|---|---|---|---|---|
| SortSymbol/SortFutureSymbol.cpp:44 | the decade-wrap branch compares lhs's year digit with `rhs[lhs_size - 1]`, an index computed from the left-hand symbol's length | lhs "TXFL9", rhs "XTXFA0": the branch compares '9' with 'A', so December 2029 is not ordered before January 2030 | `rhs[rhs_size - 1]`, rhs's own year digit, as on lines 36 and 40 | not executed; latent, because every listed symbol has length 5 and the two agree on equal lengths | FutureSymbolOrder.AsWrittenMisordersLongerSymbol | FutureSymbolOrder.CmpIsDeliveryOrder |
