# BraneCloud core, modelled in Dafny

This project models six parts of BraneCloud's evolutionary-computation library and its matrix
package, and proves what each part promises:

- **Parameter store** (`ParametersTree_LOW.cs`). It looks a key up in a graph of stores,
  searching each store's own properties first and then its parents, depth first. A store
  is entered at most once per lookup. A value that trims to nothing counts as
  absent. On top of the lookup sit the typed accessors: boolean, integer (32- and 64-bit, with
  a minimum, a range or a default), string and string-with-default. The model also covers the
  integer parser, its hex and `.0` fallbacks, and the command-line `key=value` parser.
  Modules: `Strings`, `NumberParsing`, `ParameterValues`, `ParameterTree`.
- **Long vector individual** (`LongVectorIndividual.cs`). A genome of 64-bit integers with
  per-gene bounds. Modelled operations: resize, range check, clamp, split at cut points, join,
  one-point, two-point and any-point crossover by chunks, random-walk mutation, equality,
  clone, and the closed-interval random draw. Module: `LongVector`.
- **Breeding sources** (`SelectionMethod.cs`, `RuleCrossoverPipeline.cs`,
  `MuPlusLambdaBreeder.cs`). These define:
  - how many individuals a produce call appends;
  - whether the appended individuals are the population's own objects or new copies;
  - how rule sets are crossed between two parents;
  - how the (mu + lambda) breeder appends clones of the parents.

  Module: `Breeding`.
- **Edge automaton construction nodes** (`Split.cs`, `BLoop.cs`). Each node grows a set of
  parallel arrays and then dispatches its two children. Module: `EdgeAutomaton`.
- **Bitwise boolean GP nodes** (`And.cs` of the multiplexer problem; `Nand.cs` and `Xor.cs` of
  the majority problem). Each node combines its children's results bit by bit, in place.
  Module: `BooleanNodes`.
- **Submatrix view** (`DSubmatrixD1.cs`). A window onto a dense matrix that translates reads
  and writes into the original, and extracts a copy of itself. Module: `Submatrix`.

Objects whose fields the source updates in place are classes:
- `ParameterDatabase`, `LongVectorIndividual`, `Individual`, `IndividualList`,
  `RuleCrossoverPipeline`, `Edge`, `MultiplexerData`, `MajorityData` and `SubmatrixView`.

Their methods are proved against pure specification functions, and the lemmas about those
functions carry the properties.

Some members of `SelectionMethod` are constants with nothing to prove. They are modelled
as constants and have no row in the table:
- `Produces` always answers true.
- `TypicalIndsProduced` is 1.
- `PreparePipeline`, `PrepareToProduce` and `FinishProducing` do nothing. Their empty
  frames say so.

Random draws, child evaluations and the choices of subclasses are parameters of the
operations.

In four places the code does something other than its comments or a first reading suggest.
The model follows the code:
- **Hex integers.** `ParseInt`/`ParseLong` treat a value as hexadecimal only when it starts
  with a lower-case `x`. The test `(text[0] == (c = 'x')) || c == 'X'` compares `c` after
  assigning it `'x'`, so its second half is never true. The documentation comments promise
  `X` as well. Lemmas: `NumberParsing.LowerXIsHex`,
  `NumberParsing.UpperXIsNotHex`. The store's getters keep the code's reading;
  `NumberParsing.ParseIntegerIntended` is the intended one, listed under Findings.
- **Cloning in `SelectionMethod.Produce`.** The method clones every individual it appends.
  Only `ProduceWithoutCloning` hands out the population's own objects.
- **No copies from a shared source.** `RuleCrossoverPipeline` makes no copies when both of
  its sources are one object. Its two children can then be the population's own individuals.
- **The rule-count check is crossed.** Rule set x of the first parent receives `temp[1]`,
  and the code checks `temp[1]` against the second parent's bounds. Likewise `temp[0]`, which
  goes to the second parent, is checked against the first parent's bounds. `Breeding.Crossover`
  states exactly this.

## Model

| member | source | states |
|---|---|---|
| Strings.Trim | Source/Projects/EC/BraneCloud.Evolution.EC.Configuration/ParameterModel/Tree/ParametersTree_LOW.cs:790-792 | the trimmed text neither starts nor ends with white space and is no longer than the input |
| Strings.TrimPadded | Source/Projects/EC/BraneCloud.Evolution.EC.Configuration/ParameterModel/Tree/ParametersTree_LOW.cs:790-792 | trimming removes exactly the white space padding around a core that has none at its ends |
| Strings.TrimIdempotent | Source/Projects/EC/BraneCloud.Evolution.EC.Configuration/ParameterModel/Tree/ParametersTree_LOW.cs:790-792 | trimming twice gives the same text as trimming once |
| Strings.ToLower | Source/Projects/EC/BraneCloud.Evolution.EC.Configuration/ParameterModel/Tree/ParametersTree_LOW.cs:45 | same length; upper-case ASCII letters become lower case and every other character is kept |
| Strings.IndexOf | Source/Projects/EC/BraneCloud.Evolution.EC.Configuration/ParameterModel/Tree/ParametersTree_LOW.cs:1123 | -1 exactly when the character is absent, otherwise the position of its first occurrence |
| NumberParsing.Wrap | Source/Projects/EC/BraneCloud.Evolution.EC.Configuration/ParameterModel/Tree/ParametersTree_LOW.cs:365 | the two's-complement value of a bit pattern: in range, congruent to the input, and the input itself when already in range |
| NumberParsing.ParseInteger | Source/Projects/EC/BraneCloud.Evolution.EC.Configuration/ParameterModel/Tree/ParametersTree_LOW.cs:359-389 | a parsed value always fits the width; an argument error can only come from the hex branch |
| NumberParsing.ParseDecimal | Source/Projects/EC/BraneCloud.Evolution.EC.Configuration/ParameterModel/Tree/ParametersTree_LOW.cs:372 | an accepted value fits the width; a failure is a format or overflow error, never an argument error |
| NumberParsing.ParseHex | Source/Projects/EC/BraneCloud.Evolution.EC.Configuration/ParameterModel/Tree/ParametersTree_LOW.cs:362-366 | an accepted value fits the width |
| NumberParsing.ParseDecimalLiteral | Source/Projects/EC/BraneCloud.Evolution.EC.Configuration/ParameterModel/Tree/ParametersTree_LOW.cs:374-387 | a literal is read only from a non-empty text, and is negative exactly when the text starts with `-` |
| NumberParsing.DigitRunLiteral | Source/Projects/EC/BraneCloud.Evolution.EC.Configuration/ParameterModel/Tree/ParametersTree_LOW.cs:374-387 | a plain run of decimal digits reads as a literal with exponent 0 whose integer value is the run's value |
| NumberParsing.ParseDecimalRoundTrip | Source/Projects/EC/BraneCloud.Evolution.EC.Configuration/ParameterModel/Tree/ParametersTree_LOW.cs:372 | every in-range integer, written in decimal, parses back to itself |
| NumberParsing.ParseHexRoundTrip | Source/Projects/EC/BraneCloud.Evolution.EC.Configuration/ParameterModel/Tree/ParametersTree_LOW.cs:362-366 | every in-range integer, written as `x` and its two's-complement hex digits, parses back to itself |
| NumberParsing.HexOfDigitRun | Source/Projects/EC/BraneCloud.Evolution.EC.Configuration/ParameterModel/Tree/ParametersTree_LOW.cs:365 | a run of hex digits below 2^width is read as the two's-complement value of that bit pattern |
| NumberParsing.WrapOfBitPattern | Source/Projects/EC/BraneCloud.Evolution.EC.Configuration/ParameterModel/Tree/ParametersTree_LOW.cs:365 | reading an integer's bit pattern back as two's complement returns the integer |
| NumberParsing.DigitsValueOfDigits | Source/Projects/EC/BraneCloud.Evolution.EC.Configuration/ParameterModel/Tree/ParametersTree_LOW.cs:372 | the digits of a number in a base have that number as their value |
| NumberParsing.LeadingDigitsOfDigits | Source/Projects/EC/BraneCloud.Evolution.EC.Configuration/ParameterModel/Tree/ParametersTree_LOW.cs:372 | a text made only of digits is read to its end |
| NumberParsing.LowerXIsHex | Source/Projects/EC/BraneCloud.Evolution.EC.Configuration/ParameterModel/Tree/ParametersTree_LOW.cs:362-366 | `x1A` parses as hexadecimal 26 |
| NumberParsing.UpperXIsNotHex | Source/Projects/EC/BraneCloud.Evolution.EC.Configuration/ParameterModel/Tree/ParametersTree_LOW.cs:362 | `X1A` is not taken as hexadecimal and fails as a format error |
| NumberParsing.ParseIntegerIntended | Source/Projects/EC/BraneCloud.Evolution.EC.Configuration/ParameterModel/Tree/ParametersTree_LOW.cs:359-366 | with the prefix test as intended (`x` or `X`), a parsed value still fits the width, and outside the hex branch no argument error arises |
| NumberParsing.IntendedDiffersOnlyOnUpperX | Source/Projects/EC/BraneCloud.Evolution.EC.Configuration/ParameterModel/Tree/ParametersTree_LOW.cs:362 | the intended parse agrees with the code on every text that does not start with `X`, and `X1A` shows the difference: 26 against a format error |
| NumberParsing.IntendedHexRoundTrip | Source/Projects/EC/BraneCloud.Evolution.EC.Configuration/ParameterModel/Tree/ParametersTree_LOW.cs:362-366 | every in-range integer, written as `x` or `X` and its two's-complement hex digits, is read back by the intended parse |
| NumberParsing.IntegralFloatingLiteral | Source/Projects/EC/BraneCloud.Evolution.EC.Configuration/ParameterModel/Tree/ParametersTree_LOW.cs:374-380 | a floating literal with an integral value (`4.0`) is accepted as that integer |
| NumberParsing.FractionalFloatingLiteral | Source/Projects/EC/BraneCloud.Evolution.EC.Configuration/ParameterModel/Tree/ParametersTree_LOW.cs:380-385 | a floating literal with a fraction (`4.5`) fails with the original format error |
| ParameterValues.DefaultCatchesFormatErrors | Source/Projects/EC/BraneCloud.Evolution.EC.Configuration/ParameterModel/Tree/ParametersTree_LOW.cs:309-323 | GetIntWithDefault gives the default for a missing key or a format error, the parsed value otherwise, and lets other errors through |
| ParameterValues.Strict | Source/Projects/EC/BraneCloud.Evolution.EC.Configuration/ParameterModel/Tree/ParametersTree_LOW.cs:261-275 | a missing key is a format error; an accepted value comes from a present text and fits the width |
| ParameterValues.AtLeast | Source/Projects/EC/BraneCloud.Evolution.EC.Configuration/ParameterModel/Tree/ParametersTree_LOW.cs:284-301 | the result is at least minValue or the sentinel minValue - 1; any other result is the parse of the present text; format errors never escape |
| ParameterValues.Within | Source/Projects/EC/BraneCloud.Evolution.EC.Configuration/ParameterModel/Tree/ParametersTree_LOW.cs:333-352 | the result lies in [minValue, maxValue] or is the sentinel; any other result is the parse of the present text; format errors never escape |
| ParameterValues.WithDefault | Source/Projects/EC/BraneCloud.Evolution.EC.Configuration/ParameterModel/Tree/ParametersTree_LOW.cs:309-323 | a missing key gives the default; a result other than the default is the parse of the present text; format errors never escape |
| ParameterValues.BooleanSetting | Source/Projects/EC/BraneCloud.Evolution.EC.Configuration/ParameterModel/Tree/ParametersTree_LOW.cs:41-46 | a missing key gives the default; a present value reads false only if it is five characters long, and `false` reads false |
| ParameterValues.BooleanSettingFalseIff | Source/Projects/EC/BraneCloud.Evolution.EC.Configuration/ParameterModel/Tree/ParametersTree_LOW.cs:41-46 | a present value reads false if and only if it is `false` spelled with each of its five letters in either case |
| ParameterValues.StringWithDefault | Source/Projects/EC/BraneCloud.Evolution.EC.Configuration/ParameterModel/Tree/ParametersTree_LOW.cs:693-722 | the result is always trimmed; a present value that is not blank wins, trimmed; a missing or blank value gives the trimmed default, or null when the default is null |
| ParameterValues.AtLeastSentinel | Source/Projects/EC/BraneCloud.Evolution.EC.Configuration/ParameterModel/Tree/ParametersTree_LOW.cs:284-301 | GetInt with a minimum gives minValue - 1 for a missing key, a format error or a value below the minimum, the value otherwise; only non-format errors propagate |
| ParameterValues.WithinSentinel | Source/Projects/EC/BraneCloud.Evolution.EC.Configuration/ParameterModel/Tree/ParametersTree_LOW.cs:333-352 | GetIntWithMax gives minValue - 1 for a missing key, a format error or a value outside [minValue, maxValue], the value otherwise |
| ParameterValues.SentinelWrapsAtMinimum | Source/Projects/EC/BraneCloud.Evolution.EC.Configuration/ParameterModel/Tree/ParametersTree_LOW.cs:284-301 | with minValue equal to the width's minimum, the "missing" sentinel wraps to the maximum and cannot be told apart from a stored maximum |
| ParameterValues.ParsedAtLeast | Source/Projects/EC/BraneCloud.Evolution.EC.Configuration/ParameterModel/Tree/ParametersTree_LOW.cs:290-293 | a value that parses and meets the minimum is returned unchanged |
| ParameterValues.BooleanSpellings | Source/Projects/EC/BraneCloud.Evolution.EC.Configuration/ParameterModel/Tree/ParametersTree_LOW.cs:41-46 | only `false` in any letter case reads as false; `no` and `0` read as true |
| ParameterValues.StringWithDefaultKeepsValue | Source/Projects/EC/BraneCloud.Evolution.EC.Configuration/ParameterModel/Tree/ParametersTree_LOW.cs:693-722 | a non-empty trimmed value is returned as it is, whatever the default |
| ParameterTree.LookupFindsDefinition | Source/Projects/EC/BraneCloud.Evolution.EC.Configuration/ParameterModel/Tree/ParametersTree_LOW.cs:762-796 | a value found is the trimmed, non-blank local value of some store the search entered for the first time |
| ParameterTree.LookupParentsFindsDefinition | Source/Projects/EC/BraneCloud.Evolution.EC.Configuration/ParameterModel/Tree/ParametersTree_LOW.cs:777-785 | a value found among the parents is the local value of a store the search entered |
| ParameterTree.LookupMisses | Source/Projects/EC/BraneCloud.Evolution.EC.Configuration/ParameterModel/Tree/ParametersTree_LOW.cs:762-796 | a failed search entered the start store and every store it entered holds no usable value for the key |
| ParameterTree.LookupParentsMisses | Source/Projects/EC/BraneCloud.Evolution.EC.Configuration/ParameterModel/Tree/ParametersTree_LOW.cs:777-785 | a failed search of the parents entered every parent and found no usable value in any store it entered |
| ParameterTree.LookupCovered | Source/Projects/EC/BraneCloud.Evolution.EC.Configuration/ParameterModel/Tree/ParametersTree_LOW.cs:770-785 | the stores a search newly marks lie in any set that contains the start and is closed under parents within the marked region |
| ParameterTree.Lookup | Source/Projects/EC/BraneCloud.Evolution.EC.Configuration/ParameterModel/Tree/ParametersTree_LOW.cs:762-796 | a search only adds stores of the graph to the marked set and never unmarks one |
| ParameterTree.LookupParents | Source/Projects/EC/BraneCloud.Evolution.EC.Configuration/ParameterModel/Tree/ParametersTree_LOW.cs:777-785 | the same for a search over a list of parents |
| ParameterTree.LookupParentsCovered | Source/Projects/EC/BraneCloud.Evolution.EC.Configuration/ParameterModel/Tree/ParametersTree_LOW.cs:777-785 | the same for a search over a list of parents |
| ParameterTree.SearchedWithoutValueGrows | Source/Projects/EC/BraneCloud.Evolution.EC.Configuration/ParameterModel/Tree/ParametersTree_LOW.cs:777-785 | two consecutive fruitless search steps make one fruitless search |
| ParameterTree.ResolvedValueIsTrimmed | Source/Projects/EC/BraneCloud.Evolution.EC.Configuration/ParameterModel/Tree/ParametersTree_LOW.cs:790-792 | every value a lookup returns is non-empty and already trimmed |
| ParameterTree.ExampleLocalFirst | Source/Projects/EC/BraneCloud.Evolution.EC.Configuration/ParameterModel/Tree/ParametersTree_LOW.cs:774-794 | a store's own value wins over its parents': store 0 answers "1" although its parent holds "7" for the key, and that parent answers its own "7" |
| ParameterTree.ExampleBlankHides | Source/Projects/EC/BraneCloud.Evolution.EC.Configuration/ParameterModel/Tree/ParametersTree_LOW.cs:790-792 | a value that trims to nothing counts as absent, and the search does not go on to the parents |
| ParameterTree.ExampleFirstParent | Source/Projects/EC/BraneCloud.Evolution.EC.Configuration/ParameterModel/Tree/ParametersTree_LOW.cs:777-785 | parents are searched in order: store 0 lacks the key and gets "3" from its first parent, although its second parent holds "6" (which that parent itself answers) |
| ParameterTree.ExampleBackEdge | Source/Projects/EC/BraneCloud.Evolution.EC.Configuration/ParameterModel/Tree/ParametersTree_LOW.cs:770-772 | a parent already on the search path is skipped, so a cycle ends the search |
| ParameterTree.ExampleSecondParent | Source/Projects/EC/BraneCloud.Evolution.EC.Configuration/ParameterModel/Tree/ParametersTree_LOW.cs:777-785 | when the first parent yields nothing, the second parent is searched |
| ParameterTree.ExampleMissing | Source/Projects/EC/BraneCloud.Evolution.EC.Configuration/ParameterModel/Tree/ParametersTree_LOW.cs:762-796 | a key defined nowhere gives no value, after every reachable store has been entered once |
| ParameterTree.CommandLineEntrySplits | Source/Projects/EC/BraneCloud.Evolution.EC.Configuration/ParameterModel/Tree/ParametersTree_LOW.cs:1116-1129 | a line is accepted exactly when it trims to a non-empty text that does not start with `#` and contains `=`; key and value are the text before and after the first `=` |
| ParameterTree.CommandLineEntryRoundTrip | Source/Projects/EC/BraneCloud.Evolution.EC.Configuration/ParameterModel/Tree/ParametersTree_LOW.cs:1116-1129 | writing a key and a value as `key=value` and parsing the line gives them back |
| ParameterTree.TrimmedLine | Source/Projects/EC/BraneCloud.Evolution.EC.Configuration/ParameterModel/Tree/ParametersTree_LOW.cs:1118 | such a line is unchanged by the trim |
| ParameterTree.WithProperty | Source/Projects/EC/BraneCloud.Evolution.EC.Configuration/ParameterModel/Tree/ParametersTree_LOW.cs:1126-1127 | setting a property keeps the set of stores and keeps the graph closed; the store's own properties gain the key with the value, its parents stay, and every other store is unchanged |
| ParameterTree.OverrideShadowsParents | Source/Projects/EC/BraneCloud.Evolution.EC.Configuration/ParameterModel/Tree/ParametersTree_LOW.cs:1126-1127 | a value set on the root is what the next lookup of that key returns, shadowing every parent |
| ParameterTree.StringWithDefaultOfResolved | Source/Projects/EC/BraneCloud.Evolution.EC.Configuration/ParameterModel/Tree/ParametersTree_LOW.cs:693-722 | GetStringWithDefault never falls back to the default while the key has a value, and gives the trimmed default (or null) when the key has none |
| ParameterTree.ParameterDatabase.constructor | Source/Projects/EC/BraneCloud.Evolution.EC.Configuration/ParameterModel/Tree/ParametersTree_LOW.cs:848-859 | a new store starts in the state lookups expect and Uncheck restores: valid, every checked flag clear, empty access tables |
| ParameterTree.ParameterDatabase.Get | Source/Projects/EC/BraneCloud.Evolution.EC.Configuration/ParameterModel/Tree/ParametersTree_LOW.cs:762-796 | the value and the set flags are exactly those of the recursive lookup; nothing else changes |
| ParameterTree.ParameterDatabase.Uncheck | Source/Projects/EC/BraneCloud.Evolution.EC.Configuration/ParameterModel/Tree/ParametersTree_LOW.cs:848-859 | flags are only cleared, the start store's flag is cleared, and a cleared store leaves no parent flagged; a store already clear changes nothing; a flag is cleared only on stores reached from the start through a chain of flagged parents (every set that holds the start and each flagged parent of its flagged members holds every store cleared) |
| ParameterTree.ParameterDatabase.LookupAndUncheck | Source/Projects/EC/BraneCloud.Evolution.EC.Configuration/ParameterModel/Tree/ParametersTree_LOW.cs:762-796 | the result is the lookup's value and every flag is clear again afterwards |
| ParameterTree.ParameterDatabase.Exists | Source/Projects/EC/BraneCloud.Evolution.EC.Configuration/ParameterModel/Tree/ParametersTree_LOW.cs:728-740 | true exactly when the key has a value; the key is recorded as accessed |
| ParameterTree.ParameterDatabase.Take | Source/Projects/EC/BraneCloud.Evolution.EC.Configuration/ParameterModel/Tree/ParametersTree_LOW.cs:742-757 | returns the key's value and records the key as accessed and as gotten |
| ParameterTree.ParameterDatabase.GetBoolean | Source/Projects/EC/BraneCloud.Evolution.EC.Configuration/ParameterModel/Tree/ParametersTree_LOW.cs:41-46 | the default when the key is missing, otherwise false exactly for `false` in any letter case; the access is recorded |
| ParameterTree.ParameterDatabase.GetInteger | Source/Projects/EC/BraneCloud.Evolution.EC.Configuration/ParameterModel/Tree/ParametersTree_LOW.cs:261-275 | the parsed value of the key, a format error when it is missing or malformed, and other parse errors as they are |
| ParameterTree.ParameterDatabase.GetIntegerAtLeast | Source/Projects/EC/BraneCloud.Evolution.EC.Configuration/ParameterModel/Tree/ParametersTree_LOW.cs:284-301 | the value when it parses and meets the minimum, else minValue - 1 wrapped to the width |
| ParameterTree.ParameterDatabase.GetIntegerWithin | Source/Projects/EC/BraneCloud.Evolution.EC.Configuration/ParameterModel/Tree/ParametersTree_LOW.cs:333-352 | the value when it parses and lies in [minValue, maxValue], else minValue - 1 wrapped to the width |
| ParameterTree.ParameterDatabase.GetIntegerWithDefault | Source/Projects/EC/BraneCloud.Evolution.EC.Configuration/ParameterModel/Tree/ParametersTree_LOW.cs:309-323 | the value when it parses, the default for a missing key or a format error |
| ParameterTree.ParameterDatabase.GetString | Source/Projects/EC/BraneCloud.Evolution.EC.Configuration/ParameterModel/Tree/ParametersTree_LOW.cs:677-686 | the key's trimmed value, or none; the access is recorded |
| ParameterTree.ParameterDatabase.GetStringWithDefault | Source/Projects/EC/BraneCloud.Evolution.EC.Configuration/ParameterModel/Tree/ParametersTree_LOW.cs:693-722 | the key's resolved value when it has one; otherwise the default trimmed, or null when the default is null |
| ParameterTree.ParameterDatabase.ParseCommandLineArg | Source/Projects/EC/BraneCloud.Evolution.EC.Configuration/ParameterModel/Tree/ParametersTree_LOW.cs:1116-1129 | true exactly for a line of the form `key=value`, in which case the root store holds that value and no other store changes |
| LongVector.SplitJoinRoundTrip | Source/Projects/EC/BraneCloud.Evolution.EC/Vector/LongVectorIndividual.cs:175-206 | joining the pieces a genome is split into at sorted points gives the genome back |
| LongVector.ConcatPrefix | Source/Projects/EC/BraneCloud.Evolution.EC/Vector/LongVectorIndividual.cs:175-188 | the first k pieces together are the genome up to the k-th cut |
| LongVector.ConcatLength | Source/Projects/EC/BraneCloud.Evolution.EC/Vector/LongVectorIndividual.cs:193-206 | a join's length is the sum of the pieces' lengths |
| LongVector.CutsSorted | Source/Projects/EC/BraneCloud.Evolution.EC/Vector/LongVectorIndividual.cs:175-188 | with 0 and the length added, sorted cut points stay sorted and inside the genome |
| LongVector.ClampGeneInBounds | Source/Projects/EC/BraneCloud.Evolution.EC/Vector/LongVectorIndividual.cs:221-236 | a clamped gene lies within its bounds and is unchanged exactly when it was already within them |
| LongVector.ExchangeKeepsPairs | Source/Projects/EC/BraneCloud.Evolution.EC/Vector/LongVectorIndividual.cs:275-322 | crossover swaps the two genes at a position or keeps both, so each position's pair of values is preserved |
| LongVector.OnePointSwapsPrefix | Source/Projects/EC/BraneCloud.Evolution.EC/Vector/LongVectorIndividual.cs:287-295 | one-point crossover exchanges exactly the genes before the cut point times the chunk size |
| LongVector.TwoPointSwapsSlice | Source/Projects/EC/BraneCloud.Evolution.EC/Vector/LongVectorIndividual.cs:297-312 | two-point crossover exchanges exactly the genes between the smaller and the larger cut, whichever point was drawn first |
| LongVector.WalkStepStaysInside | Source/Projects/EC/BraneCloud.Evolution.EC/Vector/LongVectorIndividual.cs:383-404 | one random-walk step stays within the bounds and moves by exactly one whenever the interval allows it |
| LongVector.WalkStaysInside | Source/Projects/EC/BraneCloud.Evolution.EC/Vector/LongVectorIndividual.cs:383-404 | any number of walk steps from a gene within bounds ends within bounds |
| LongVector.AsWrittenBoundWraps | Source/Projects/EC/BraneCloud.Evolution.EC/Vector/LongVectorIndividual.cs:254 | as written, the bound max - min + 1 wraps to long.MinValue for [0, long.MaxValue] and for [long.MinValue, -1] |
| LongVector.IntervalPlanCorrected | Source/Projects/EC/BraneCloud.Evolution.EC/Vector/LongVectorIndividual.cs:243-255 | an offset draw covers exactly [min, max]; rejection sampling is chosen only when the width does not fit a positive long |
| LongVector.PlansAgreeOtherwise | Source/Projects/EC/BraneCloud.Evolution.EC/Vector/LongVectorIndividual.cs:243-255 | the code as written and the corrected plan differ exactly when max - min is long.MaxValue, where the written bound is not positive |
| LongVector.RandomValueFromClosedInterval | Source/Projects/EC/BraneCloud.Evolution.EC/Vector/LongVectorIndividual.cs:243-255 | the corrected plan (see Findings), which differs from the source only where AsWrittenBoundWraps holds: the value drawn lies in [min, max], min plus the offset drawn, or the first draw that falls inside when the interval is too wide |
| LongVector.ArrayCopy | Source/Projects/EC/BraneCloud.Evolution.EC/Vector/LongVectorIndividual.cs:182 | Array.Copy: the destination range receives the source range and the rest of the destination is kept |
| LongVector.LongVectorIndividual.constructor | Source/Projects/EC/BraneCloud.Evolution.EC/Vector/LongVectorIndividual.cs:152-164 | a new individual has a fresh genome of the given length, all zero, as Setup allocates it |
| LongVector.LongVectorIndividual.SetGenomeLength | Source/Projects/EC/BraneCloud.Evolution.EC/Vector/LongVectorIndividual.cs:125-130 | the new genome keeps the old prefix when shrinking, and the old genes followed by zeros when growing |
| LongVector.LongVectorIndividual.IsInRange | Source/Projects/EC/BraneCloud.Evolution.EC/Vector/LongVectorIndividual.cs:137-147 | true exactly when every gene lies within its species bounds |
| LongVector.LongVectorIndividual.Clamp | Source/Projects/EC/BraneCloud.Evolution.EC/Vector/LongVectorIndividual.cs:221-236 | every gene becomes its clamped value, so the genome is in range whenever the bounds are consistent |
| LongVector.LongVectorIndividual.Split | Source/Projects/EC/BraneCloud.Evolution.EC/Vector/LongVectorIndividual.cs:175-188 | the new pieces are the genome cut at the given points |
| LongVector.LongVectorIndividual.CopyOut | Source/Projects/EC/BraneCloud.Evolution.EC/Vector/LongVectorIndividual.cs:181-182 | a fresh array holding the genes of one piece |
| LongVector.LongVectorIndividual.Join | Source/Projects/EC/BraneCloud.Evolution.EC/Vector/LongVectorIndividual.cs:193-206 | the new genome is the pieces concatenated in order, as long as their lengths together |
| LongVector.SumLengths | Source/Projects/EC/BraneCloud.Evolution.EC/Vector/LongVectorIndividual.cs:195 | the sum of the pieces' lengths |
| LongVector.ConcatInto | Source/Projects/EC/BraneCloud.Evolution.EC/Vector/LongVectorIndividual.cs:197-203 | the destination holds the pieces one after another, in order |
| LongVector.LongVectorIndividual.DefaultCrossover | Source/Projects/EC/BraneCloud.Evolution.EC/Vector/LongVectorIndividual.cs:275-322 | fails and changes nothing when the lengths differ; otherwise both genomes become the exchange the draw describes |
| LongVector.LongVectorIndividual.ExchangeGenes | Source/Projects/EC/BraneCloud.Evolution.EC/Vector/LongVectorIndividual.cs:285-322 | each position is swapped exactly when the draw exchanges it |
| LongVector.LongVectorIndividual.SwapChunks | Source/Projects/EC/BraneCloud.Evolution.EC/Vector/LongVectorIndividual.cs:314-322 | any-point crossover swaps exactly the chunks whose coin came up, every other gene is kept |
| LongVector.LongVectorIndividual.SwapRange | Source/Projects/EC/BraneCloud.Evolution.EC/Vector/LongVectorIndividual.cs:289-294 | the genes in [from, to) change places with the other genome's, every other gene of both is kept |
| LongVector.LongVectorIndividual.RandomWalkMutate | Source/Projects/EC/BraneCloud.Evolution.EC/Vector/LongVectorIndividual.cs:376-408 | the walk bounds are the species' bounds for the gene, or the whole long range when the mutation is unbounded; tries stop at the first that changes the gene and number at most duplicate-retries + 1; every earlier try gave the gene back unchanged; only gene x changes, to the walk of the last try, and a gene within its bounds stays within them |
| LongVector.LongVectorIndividual.WalkGene | Source/Projects/EC/BraneCloud.Evolution.EC/Vector/LongVectorIndividual.cs:392-403 | one run of the do-while walk changes only gene x, to the walk of its old value over the coins |
| LongVector.LongVectorIndividual.Equals | Source/Projects/EC/BraneCloud.Evolution.EC/Vector/LongVectorIndividual.cs:430-439 | true exactly when both have the same kind and the same genes |
| LongVector.LongVectorIndividual.Clone | Source/Projects/EC/BraneCloud.Evolution.EC/Vector/LongVectorIndividual.cs:444-452 | a new individual with a new genome array holding the same genes |
| Breeding.ProduceCount | Source/Projects/EC/BraneCloud.Evolution.EC/Core/SelectionMethod.cs:122-124 | the count never exceeds max, is at least min when min <= max, and is the typical count when that lies in [min, max] |
| Breeding.SelectionMethod.ProduceWithoutCloning | Source/Projects/EC/BraneCloud.Evolution.EC/Core/SelectionMethod.cs:111-140 | appends exactly the n selected individuals themselves, after the unchanged old entries, and puts each selected index alone in its parent-bag slot |
| Breeding.SelectionMethod.Produce | Source/Projects/EC/BraneCloud.Evolution.EC/Core/SelectionMethod.cs:89-109 | the same count and parent bags, but each appended slot holds a new copy of the selected individual; earlier slots are untouched |
| Breeding.IndividualList.CloneFrom | Source/Projects/EC/BraneCloud.Evolution.EC/Core/SelectionMethod.cs:102-106 | every slot from start on is replaced by a new copy of its individual, the earlier slots are kept |
| Breeding.AppendClones | Source/Projects/EC/BraneCloud.Evolution.EC/ES/MuPlusLambdaBreeder.cs:71-77 | appends new copies of the first count individuals of the old subpopulation, in order, and nothing else |
| Breeding.MuPlusLambdaBreeder.constructor | Source/Projects/EC/BraneCloud.Evolution.EC/ES/MuPlusLambdaBreeder.cs:36-40 | the maximum mu/lambda divisor is 1 |
| Breeding.MuPlusLambdaBreeder.PostProcess | Source/Projects/EC/BraneCloud.Evolution.EC/ES/MuPlusLambdaBreeder.cs:67-79 | returns the same population, each of whose subpopulations x gets, appended after its old members, new copies of the first mu[x] parents in order |
| Breeding.CrossRuleSet | Source/Projects/EC/BraneCloud.Evolution.EC/Rule/breed/RuleCrossoverPipeline.cs:194-221 | the first acceptable split is the one used, all earlier ones were unacceptable, and rule set x of each parent receives its half |
| Breeding.Crossover | Source/Projects/EC/BraneCloud.Evolution.EC/Rule/breed/RuleCrossoverPipeline.cs:184-222 | fatal exactly when the rule-set counts differ; otherwise bounds are kept, each rule set of each parent is either crossed (its rules fit the other parent's bounds and the other's fit its own) or as it was, and all are crossed when completed |
| Breeding.Mate | Source/Projects/EC/BraneCloud.Evolution.EC/Rule/breed/RuleCrossoverPipeline.cs:192-228 | fatal exactly when the rule-set counts differ, and then neither parent's evaluated flag changes; otherwise both parents are marked unevaluated and a completed crossing leaves each pair of rule sets crossed; for two parents of one shape of bounds, it is never fatal, keeps the shape, keeps fitting parents fitting, and a completed crossing makes both fit |
| Breeding.CrossingFits | Source/Projects/EC/BraneCloud.Evolution.EC/Rule/breed/RuleCrossoverPipeline.cs:192-222 | when both parents keep one shape of bounds, a crossing keeps a parent whose rule sets fit their own bounds fitting, and a completed crossing makes them fit whatever they were |
| Breeding.Handed | Source/Projects/EC/BraneCloud.Evolution.EC/Rule/breed/RuleCrossoverPipeline.cs:157-173 | a parent is the source's own individual, a copy, or missing exactly when the supply has run out |
| Breeding.RoundChildren | Source/Projects/EC/BraneCloud.Evolution.EC/Rule/breed/RuleCrossoverPipeline.cs:230-247 | one round appends the first parent, and the second one only while two slots remain and tossing is off |
| Breeding.OffspringChildren | Source/Projects/EC/BraneCloud.Evolution.EC/Rule/breed/RuleCrossoverPipeline.cs:151-248 | the round-by-round production and the closed form agree on the origin of every child |
| Breeding.ChildOriginShift | Source/Projects/EC/BraneCloud.Evolution.EC/Rule/breed/RuleCrossoverPipeline.cs:151-248 | counting a full round's children later is the same as starting one round further along the sources |
| Breeding.RoundChildOrigins | Source/Projects/EC/BraneCloud.Evolution.EC/Rule/breed/RuleCrossoverPipeline.cs:230-247 | the children of round r are children 2r and 2r + 1 (r when tossing) of the whole call |
| Breeding.RuleCrossoverPipeline.Setup | Source/Projects/EC/BraneCloud.Evolution.EC/Rule/breed/RuleCrossoverPipeline.cs:99-109 | toss defaults to false and the probability to 0.5; setup fails exactly when the probability is outside [0, 1] |
| Breeding.RuleCrossoverPipeline.FetchParents | Source/Projects/EC/BraneCloud.Evolution.EC/Rule/breed/RuleCrossoverPipeline.cs:154-173 | two parents from one shared source without copies, or one from each source, copied unless that source is a breeding pipeline; a parent that already existed is one of the individuals this call handed out |
| Breeding.RuleCrossoverPipeline.Breed | Source/Projects/EC/BraneCloud.Evolution.EC/Rule/breed/RuleCrossoverPipeline.cs:154-228 | fatal exactly for parents with different rule-set counts; otherwise both parents are marked unevaluated, nothing unevaluated becomes evaluated, and a completed round leaves each rule set crossed with the other parent's. When all individuals on offer share one shape of bounds: never fatal, the shape is kept, both parents' rule sets then fit their own bounds, and no individual that fitted stops fitting. Every individual that existed before, other than the two parents, keeps its rule sets and evaluated flag |
| Breeding.RuleCrossoverPipeline.Round | Source/Projects/EC/BraneCloud.Evolution.EC/Rule/breed/RuleCrossoverPipeline.cs:154-247 | one pass appends one or two unevaluated children with the origins the closed form gives, or none when the round fails; with a supply of one shape, it is not fatal, and when the children made earlier in the call fitted their bounds, they still do and so does every child it appends; every individual that existed before and was not handed out by the sources in this round is unchanged |
| Breeding.RuleCrossoverPipeline.TypicalIndsProduced | Source/Projects/EC/BraneCloud.Evolution.EC/Rule/breed/RuleCrossoverPipeline.cs:93 | the typical count is the most one crossing round makes: it takes one round, and one child more would take two |
| Breeding.RuleCrossoverPipeline.Produce | Source/Projects/EC/BraneCloud.Evolution.EC/Rule/breed/RuleCrossoverPipeline.cs:114-250 | returns the clamped count (a negative count appends nothing); without crossing, source 0's next n individuals are appended; with it, exactly n unevaluated children of known origin when no round fails; old entries are kept; with a supply of one shape, no round is fatal and every child has each rule set within its own bounds; every individual that existed before and was not handed out by the sources is unchanged, nothing that existed changes without crossing, and nothing that existed changes when both sources are copied |
| Breeding.RuleCrossoverPipeline.Cross | Source/Projects/EC/BraneCloud.Evolution.EC/Rule/breed/RuleCrossoverPipeline.cs:151-248 | the loop appends at most n children, exactly n when no round fails, each unevaluated and from the origin the closed form gives; with a supply of one shape, no round is fatal and every appended child has each rule set within its own bounds; every individual that existed before and was not handed out by the sources during the loop is unchanged |
| Breeding.RuleCrossoverPipeline.Clone | Source/Projects/EC/BraneCloud.Evolution.EC/Rule/breed/RuleCrossoverPipeline.cs:255-262 | the copy shares settings and sources but owns a new parents list with the same individuals |
| EdgeAutomaton.SplitMakesPath | Source/Projects/EC/BraneCloud.Evolution.EC.Problems/Edge/Func/Split.cs:77-91 | the edge becomes a path of two edges through the new node, both reading the old symbol; the automaton stays well formed and every other edge is kept |
| EdgeAutomaton.LoopAddsSelfLoop | Source/Projects/EC/AppTests/BraneCloud.Evolution.EC.App.Edge.Test/Func/BLoop.cs:64-68 | a self-loop reading the edge's symbol is added at the edge's source node, and everything else is kept |
| EdgeAutomaton.Doubled | Source/Projects/EC/BraneCloud.Evolution.EC.Problems/Edge/Func/Split.cs:54-65 | a fresh array twice as long that holds the old contents first |
| EdgeAutomaton.Edge.GrowEdges | Source/Projects/EC/BraneCloud.Evolution.EC.Problems/Edge/Func/Split.cs:54-65 | full edge arrays are doubled, others are kept; either way there is room for one more edge and the edges in use are unchanged |
| EdgeAutomaton.Edge.GrowNodes | Source/Projects/EC/BraneCloud.Evolution.EC.Problems/Edge/Func/Split.cs:67-75 | full node arrays are doubled, others are kept; either way there is room for one more node |
| EdgeAutomaton.Edge.SplitEval | Source/Projects/EC/BraneCloud.Evolution.EC.Problems/Edge/Func/Split.cs:42-103 | the automaton becomes the split of the given edge with one new non-start, non-accept node; the node has the two children Split expects, each evaluated once, the left with the old edge and the right with the new one |
| EdgeAutomaton.Edge.AddSplit | Source/Projects/EC/BraneCloud.Evolution.EC.Problems/Edge/Func/Split.cs:77-91 | the new node and edge are written so that the edges in use are the split |
| EdgeAutomaton.Edge.LoopEval | Source/Projects/EC/AppTests/BraneCloud.Evolution.EC.App.Edge.Test/Func/BLoop.cs:30-81 | on a node that passes the constraint check (exactly two children), the automaton gains the self-loop and no node, and each child is evaluated once: the left with the old edge, the right with the loop |
| EdgeAutomaton.Edge.AddLoop | Source/Projects/EC/AppTests/BraneCloud.Evolution.EC.App.Edge.Test/Func/BLoop.cs:64-68 | the new edge is written so that the edges in use gain the self-loop |
| BooleanNodes.NandBitwise | Source/Projects/EC/App/Majority/Func/Nand.cs:31-32 | bit i of the Nand result is set exactly when bit i is not set in both operands |
| BooleanNodes.XorBitwise | Source/Projects/EC/App/Majority/Func/Xor.cs:31-32 | bit i of the Xor result is set exactly when the operands' bits i differ |
| BooleanNodes.AndBitwise | Source/Projects/EC/BraneCloud.Evolution.EC.Problems/Multiplexer/Func/And.cs:75-82 | bit i of a 64-bit And is set exactly when it is set in both operands |
| BooleanNodes.And8Bitwise | Source/Projects/EC/BraneCloud.Evolution.EC.Problems/Multiplexer/Func/And.cs:75-76 | the same for the 8-bit cases of the 3-multiplexer |
| BooleanNodes.MajorityData.ChildEval | Source/Projects/EC/App/Majority/Func/Nand.cs:23-29 | a child evaluation leaves its two result words in the data object |
| BooleanNodes.NandEval | Source/Projects/EC/App/Majority/Func/Nand.cs:16-33 | each data word becomes the Nand of the two children's words |
| BooleanNodes.NandEvalPerCase | Source/Projects/EC/App/Majority/Func/Nand.cs:16-33 | for each fitness case, the node's result is false exactly when both children were true |
| BooleanNodes.NandEvalSymmetric | Source/Projects/EC/App/Majority/Func/Nand.cs:16-33 | the words a Nand node leaves do not depend on the order of its children, and two children with equal results give the Not of that result |
| BooleanNodes.XorEval | Source/Projects/EC/App/Majority/Func/Xor.cs:16-33 | each data word becomes the Xor of the two children's words |
| BooleanNodes.XorEvalSymmetric | Source/Projects/EC/App/Majority/Func/Xor.cs:16-33 | the words a Xor node leaves do not depend on the order of its children, and two children with equal results give false in every case |
| BooleanNodes.AndWordsPerCase | Source/Projects/EC/BraneCloud.Evolution.EC.Problems/Multiplexer/Func/And.cs:79-82 | for each word and bit of the 11-multiplexer data, the result is set exactly when both children's are |
| BooleanNodes.MultiplexerData.PopDat11 | Source/Projects/EC/BraneCloud.Evolution.EC.Problems/Multiplexer/Func/And.cs:65 | a spare buffer of 32 words, taken from the spares when there is one and new otherwise |
| BooleanNodes.MultiplexerData.PushDat11 | Source/Projects/EC/BraneCloud.Evolution.EC.Problems/Multiplexer/Func/And.cs:83 | the buffer is added to the spares |
| BooleanNodes.MultiplexerData.ChildEval | Source/Projects/EC/BraneCloud.Evolution.EC.Problems/Multiplexer/Func/And.cs:57-71 | a child evaluation leaves its result in the field for the problem size, and the other fields are kept |
| BooleanNodes.AndEval | Source/Projects/EC/BraneCloud.Evolution.EC.Problems/Multiplexer/Func/And.cs:44-85 | for each problem size, the data becomes the bitwise And of the two children's results, and the spare buffers are returned; the words of the other problem sizes keep their values |
| BooleanNodes.AndEvalSymmetric | Source/Projects/EC/BraneCloud.Evolution.EC.Problems/Multiplexer/Func/And.cs:44-85 | for every problem size, the data an And node leaves does not depend on the order of its children, and two children with equal results pass that result up unchanged |
| BooleanNodes.AndInto | Source/Projects/EC/BraneCloud.Evolution.EC.Problems/Multiplexer/Func/And.cs:81-82 | the destination words become their And with the saved words |
| BooleanNodes.Store | Source/Projects/EC/BraneCloud.Evolution.EC.Problems/Multiplexer/Func/And.cs:66-68 | the destination array holds exactly the given words |
| Submatrix.SubmatrixView.constructor | Source/Projects/SharpMatrix/SharpMatrix/Data/DSubmatrixD1.cs:33-42 | the view is the given window onto the given original |
| Submatrix.SubmatrixView.Whole | Source/Projects/SharpMatrix/SharpMatrix/Data/DSubmatrixD1.cs:33-42 | the view covers the whole original |
| Submatrix.SubmatrixView.SetView | Source/Projects/SharpMatrix/SharpMatrix/Data/DSubmatrixD1.cs:44-52 | the window becomes exactly the one given |
| Submatrix.SubmatrixView.SetOriginal | Source/Projects/SharpMatrix/SharpMatrix/Data/DSubmatrixD1.cs:54-59 | the window ends at the new original's last row and column and still starts where it did |
| Submatrix.SubmatrixView.Rows | Source/Projects/SharpMatrix/SharpMatrix/Data/DSubmatrixD1.cs:61-64 | the window's height, which fits in the original when the window lies inside it |
| Submatrix.SubmatrixView.Cols | Source/Projects/SharpMatrix/SharpMatrix/Data/DSubmatrixD1.cs:66-69 | the window's width, which fits in the original when the window lies inside it |
| Submatrix.SubmatrixView.SetCell | Source/Projects/SharpMatrix/SharpMatrix/Data/DSubmatrixD1.cs:76-79 | only the translated cell of the original changes, and a get at the same place reads the value back |
| Submatrix.WindowsAgree | Source/Projects/SharpMatrix/SharpMatrix/Data/DSubmatrixD1.cs:71-74 | a get reads the original's own cell: two views onto one original give the same value for the same cell of it |
| Submatrix.SubmatrixView.Extract | Source/Projects/SharpMatrix/SharpMatrix/Data/DSubmatrixD1.cs:81-94 | a new Rows by Cols matrix whose every cell is the view's get at the same place |
| Submatrix.SubmatrixView.CopyRow | Source/Projects/SharpMatrix/SharpMatrix/Data/DSubmatrixD1.cs:87-92 | one row of the window copied, every other row of the result kept |
| Submatrix.ExtractWhole | Source/Projects/SharpMatrix/SharpMatrix/Data/DSubmatrixD1.cs:33-42 | a view of the whole original extracts a cell-for-cell copy of it |

## Left out

- Double and float accessors (`GetDouble` and friends), `GetValueType`, file loading, the
  listener and lock plumbing and the user interface parts of the parameter store are not
  modelled. They read files or use binary floating point.
- `Double.Parse` in the integer fallback is modelled as an exact decimal literal:
  `[sign] digits [. digits] [e [sign] digits]`. Binary64 rounding, `NaN`, `Infinity`,
  thousands separators and culture-specific formats are not modelled.
- `GetLong`, `GetLongWithDefault` and the other 64-bit accessors are the integer accessors
  with the width parameter set to 64 bits. They have no members of their own.
- LongVectorIndividual: `Reset`, `GetHashCode`, the genotype reading and writing, and the
  line and intermediate recombination are not modelled. They need the random generator's
  internals, hashing or text I/O.
- LongVector.LongVectorIndividual.RandomWalkMutate: models one gene's random walk with its
  duplicate retries. The outer loop over genes and its per-gene probability draw are left
  to the caller. The coins of each try are an oracle with one entry per possible try. The
  reset-mutation branch of `DefaultMutate` is not modelled.
- LongVector.LongVectorIndividual.Equals: takes a non-null individual. `Equals(null)`,
  which returns false in the source, has no counterpart in the model.
- LongVector.LongVectorIndividual.Join: the C# total length is an `int` and could overflow
  for pieces whose lengths sum beyond 2^31 - 1. The model's length is unbounded.
- LongVector.RandomValueFromClosedInterval: `NextLong(n)` is taken to need n > 0, which is
  how the source uses it. The random generator is not part of this model. Its draws are
  parameters.
- LongVector.LongVectorIndividual.Split: requires the cut points to be sorted and within
  the genome. The source would throw on any other input.
- Breeding: `SplitIntoTwo` is an oracle of split attempts. `OutOfAttempts` stands for an
  oracle that ran dry and is not a path of the source, which retries until a split fits.
- Breeding: `PreprocessIndividual` and `PostprocessIndividual` are not modelled. They are
  virtual hooks that do nothing in the rule individual itself.
- Breeding: the likelihood draw is a parameter (`proceed`). The selection index is an
  oracle (`picks`). A source hands out a fixed supply of individuals in order.
- Breeding.RuleCrossoverPipeline.Produce: the parent-bag tracking through `misc` is not
  modelled for the crossover pipeline. It is modelled for `SelectionMethod`.
- Breeding.RuleCrossoverPipeline.Produce: with a negative count, source 0 is taken to
  append nothing, as `SelectionMethod` does. Other sources are not part of this model.
- Breeding.RuleCrossoverPipeline.Clone: copies the settings and the parents list. The
  deep copy of the sources, which the base breeding-pipeline class makes, is not part of
  this model.
- Breeding.MuPlusLambdaBreeder.PostProcess: requires the subpopulation objects of both
  populations to be distinct. The source's populations never share subpopulations.
  It also requires `Mu[x]` to be at most the size of old subpopulation x. The source
  would throw an index error otherwise.
- Breeding.SelectionMethod.ProduceWithoutCloning: requires the parent-bag array to have
  a slot for every appended index. The source would throw an index error otherwise.
- Breeding.RuleCrossoverPipeline.Breed: the shape results hold only when every individual
  the sources can hand out has rule sets of one shape. Without that, a later round can
  cross an earlier child with a parent of other bounds, and nothing is promised about
  the fit.
- ParameterTree: a null parameter name, for which `_get` and `_exists` return null or
  false, has no counterpart in the model, since keys are strings. The `ParametersTree`
  constructor is in another part of the partial class and is not part of this model.
  `ParameterDatabase.constructor` sets up the state the lookup code relies on.
- Strings.ToLower: only ASCII upper-case letters are lowered. Every other character,
  non-ASCII letters included, is kept unchanged, whereas .NET lowers those too.
- EdgeAutomaton: the children of a construction node are not evaluated. The model reports
  the edge each child is dispatched with, in order.
- EdgeAutomaton.Edge.GrowEdges: doubling a capacity is unbounded in the model. The C#
  `int` capacity could overflow after 2^30 edges.
- BooleanNodes: the children's evaluations are parameters, their results left in the data
  object. Children are taken to leave the spare-buffer stack as they found it.
- BooleanNodes.MultiplexerData.PopDat11: the stack of spare buffers is a sequence of
  arrays. `MultiplexerData.cs` is not part of this model. Its buffer length of 32 words,
  2048 fitness cases of 64 bits each, is taken as a constant.
- Submatrix: `DMatrixD1` is a two-dimensional array. Out-of-bounds accesses, which throw in
  the source, are preconditions. The no-argument constructor and `print` are not modelled.

## Findings

| source | as written | input that shows it | evidently intended | confidence | as-written member | corrected member |
|---|---|---|---|---|---|---|
| Source/Projects/EC/BraneCloud.Evolution.EC/Vector/LongVectorIndividual.cs:254 | the bound of the offset draw is `max - min + 1` in unchecked 64-bit arithmetic | min = 0, max = long.MaxValue: the bound wraps to long.MinValue, which is not a valid bound for `NextLong` | draw from [min, max] by rejection whenever max - min + 1 does not fit a positive long | not executed | LongVector.AsWrittenBoundWraps | LongVector.RandomValueFromClosedInterval |
| Source/Projects/EC/BraneCloud.Evolution.EC.Configuration/ParameterModel/Tree/ParametersTree_LOW.cs:362 | `(text[0] == (c = 'x')) \|\| c == 'X'` assigns `'x'` to `c` before comparing it with `'X'`, so only a lower-case `x` selects hexadecimal | `X1A` goes to the decimal parser and fails with a format error | a leading `x` or `X` selects hexadecimal, as the second half of the test says | not executed | NumberParsing.UpperXIsNotHex | NumberParsing.ParseIntegerIntended |
