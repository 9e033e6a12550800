# Verified models of LFortran's numeric and driver helpers

Dafny models, with proofs, of five parts of the LFortran repository.

- **Payne-Hanek reduction** (`Radix`, `PayneHanek`, `RemPio2`, `Margin`, `LargeArgument`): reducing a large
  double modulo pi/2 with a table of 2/pi in 24-bit chunks. The doubles involved hold exact integers
  up to the point where the code multiplies by pi/2, so they are integers here, with the bounds that
  make them exact checked at every assignment. `z` after `scalbn(z,q0)` is counted in units of
  2^min(q0,0). The jump back to `recompute` is a loop. The table is arbitrary. A run in which the
  C code would index outside an array ends in `Overrun`; the runs that do are characterised exactly.
- **C descriptors** (`CfiDescriptor`): recursive sums and doubling over strided arrays, and contiguity
  as in section 18.5.5.6 of ISO/IEC 1539-1:2018. Sums wrap around at 32 bits.
- **CLI11, as vendored in the driver** (`ConfigSections`, `SectionFiles`, `IniValues`, `CommandLine`,
  `Assignments`, `OptionNames`, `SubcommandExclusion`, `CheckedMultiply`): section events of the config
  reader, printing and reading of values, the argument loop, option names, excluded subcommands,
  checked multiplication. `SectionFiles` and `Assignments` write files and command lines from what they
  are to mean and prove that the reader and the loop give just that back.
- **Symbol lists** (`SymbolLists`): nested scopes flattened into a list with parent indices.
- **CUDA payloads** (`CudaPayload`): NUL-delimited sources in an object file section.

Shared pieces: `Arithmetic`, `CInt`, `Sequences`, `Text`, `Wrappers`.

Code that changes vectors, arrays or fields in place is written as methods; each is tied to a function
or predicate about which the lemmas are proved. A reference parameter of the C++ code is a field, or
goes in and out as a value.

Four claims turn out not to hold of the code on all inputs. For each the exact condition is proved.

- *Section events are well nested.* Not when a `[default]` header leaves a section of two or more
  segments and an item or the end of the file comes next: the outer sections then stay open. Nor when
  an item with a value is itself named `++` or `--`: it is replayed as an event
  (`ConfigSections.FromConfig`, `ConfigSections.StrandedExample`, `ConfigSections.LeftOpenExample`,
  `ConfigSections.MarkerExample`).
- *Printed values are read back.* Not for an argument that ends in a backslash, is the single character
  `'` or holds quotes of both kinds, nor for a number with a leading blank, which `std::strtold` accepts and so is printed
  without quotes, nor for one that itself stands in a pair of quotes, which the reader takes off, nor
  for one with a line break, which the reader joins the trimmed lines over (`IniValues.PrintAndRead`,
  `IniValues.BlankNumberIsLost`, `IniValues.QuotesAreLost`, `IniValues.LineBreakIsLost`).
- *No spelling resolves to two options.* Not when one option ignores only case, another only
  underscores, and two of their long names differ only in these (`OptionNames.AmbiguousWhen`,
  `OptionNames.MixedExample`). With windows-style words, which are compared with names of both kinds,
  also not when a short name of one option is a long name of another, as far as their flags tell
  (`OptionNames.AmbiguousWindowsWhen`, `CommandLine.SlashAnswersBoth`).
- *The recompute loop ends.* Not when x·2/π comes too near an integer for the buffers of 20 entries and
  the table. It ends if x·2/π, all chunks of the table taken, stays (2^(24(2jk-m)) + nx·2^24) units of
  the chunk at jk away from the integers (`Margin.FarSettles`), and only if it stays 2^(24jk) - nx·2^24
  units of the chunk at the index where it ends away from them (`Margin.SettledIsFar`). Between the two
  the distance does not decide: two inputs with the same product and the same sizes, one that ends and
  one that overruns, are in `Margin.ProductDoesNotDecide`. What decides there is the product cut at the
  indices tried, which `PayneHanek.Settle` follows exactly. For a large double it is enough to stay
  (1 + 3·2^24)·2^(q0-96) away (`LargeArgument.RemPio2Large`).

`dafny verify dfyconfig.toml` checks everything.

## Model

| member | source | states |
|---|---|---|
| `LargeArgument.RemPio2Large` | integration_tests/lfortran_intrinsic_sin_c.c:484-496 | x·2/π for a large double is 8k + n ± f plus a tail below 2^(26-96)·f, with 0 < f ≤ 1/2, n in 0..7 and f held exactly by the returned chunks; a negative argument flips the octant and the remainder; the kernel overruns its buffers exactly when `Settle` finds no index, never when x·2/π is (1 + 3·2^24)·2^(q0-96) or more away from the integers, always when it is no farther than (2^96 - 3·2^24)·2^(q0-456) |
| `LargeArgument.SplitSignificand` | integration_tests/lfortran_intrinsic_sin_c.c:484-493 | the chunks are 24-bit, the last is non-zero, and together they are the 53-bit significand |
| `LargeArgument.KernelMeaning` | integration_tests/lfortran_intrinsic_sin_c.c:168-271 | whatever the kernel returns satisfies: product of x and the table = 8k + n ± f + tail, tail·2^(24·jk) < nx·2^24·f, for every table, every x and every e0 |
| `LargeArgument.LargeMeaning` | integration_tests/lfortran_intrinsic_sin_c.c:487-494 | the same for the significand before zero chunks are left off |
| `LargeArgument.LargeFarReduces` | integration_tests/lfortran_intrinsic_sin_c.c:484-496 | a significand whose product with the table keeps that distance from the integers is reduced, zero chunks left off or not |
| `LargeArgument.LargeReducedIsFar` | integration_tests/lfortran_intrinsic_sin_c.c:242-257 | every significand that is reduced keeps the smaller distance |
| `RemPio2.KernelRemPio2` | integration_tests/lfortran_intrinsic_sin_c.c:174-271 | the run settles where `Settle` says, or overruns exactly when it says so; octant, sign and value of the chopped chunks are those of the product cut there |
| `RemPio2.Position` | integration_tests/lfortran_intrinsic_sin_c.c:181-184 | table index and exponent; with truncating division and clamping |
| `RemPio2.Build` | integration_tests/lfortran_intrinsic_sin_c.c:186-193 | f and q hold table entries and chunks of the product, every value an integer that a double holds exactly |
| `RemPio2.Extend` | integration_tests/lfortran_intrinsic_sin_c.c:249-254 | after a jump back, f and q are exactly what building them for the larger jz would give |
| `RemPio2.Convolve` | integration_tests/lfortran_intrinsic_sin_c.c:192 | one chunk of the product, exact at every partial sum |
| `RemPio2.Distill` | integration_tests/lfortran_intrinsic_sin_c.c:197-202 | digits and z carry the base-2^24 value of q; every cast fits an int, every z is exact |
| `RemPio2.DistillStep` | integration_tests/lfortran_intrinsic_sin_c.c:198-202 | one turn of the loop conserves that value |
| `RemPio2.ExtractOctant` | integration_tests/lfortran_intrinsic_sin_c.c:204-216 | n, the fraction left in z and the digits, and ih, are integer part mod 8, fractional part and rounding direction of the product |
| `RemPio2.NegativeExponent` | integration_tests/lfortran_intrinsic_sin_c.c:205-208 | q0 < 0: z alone decides the octant and the comparison with one half |
| `RemPio2.TopDigit` | integration_tests/lfortran_intrinsic_sin_c.c:210-215 | q0 = 0, 1, 2: the bits shifted off the top digit complete the octant and its next bit decides the rounding |
| `RemPio2.TakeTopBits` | integration_tests/lfortran_intrinsic_sin_c.c:210-215 | the two shifts split the top digit |
| `RemPio2.ComplementDigits` | integration_tests/lfortran_intrinsic_sin_c.c:219-227 | the digits become B^jz minus their value, with the carry |
| `RemPio2.MaskTop` | integration_tests/lfortran_intrinsic_sin_c.c:228-235 | masking the complemented top digit takes off exactly the octant bits |
| `RemPio2.Complement` | integration_tests/lfortran_intrinsic_sin_c.c:218-240 | the fraction becomes its distance to the next integer in all three cases of q0 |
| `RemPio2.NeedsMoreTerms` | integration_tests/lfortran_intrinsic_sin_c.c:242-246 | the test is true exactly when the fraction is below B^jk |
| `RemPio2.CountTerms` | integration_tests/lfortran_intrinsic_sin_c.c:247 | k is jk+1 less the number of digits of the fraction; zero digits throughout is the run off the array |
| `RemPio2.MoreTerms` | integration_tests/lfortran_intrinsic_sin_c.c:246-255 | a jump back strictly raises jz by the terms needed and rebuilds the arrays, or overruns |
| `RemPio2.Recompute` | integration_tests/lfortran_intrinsic_sin_c.c:195-257 | the goto loop terminates, at the index that `Settle` gives |
| `RemPio2.DropZeroChunks` | integration_tests/lfortran_intrinsic_sin_c.c:259-262 | stops at or above digit jk with the value unchanged and a non-zero top chunk |
| `RemPio2.AppendTop` | integration_tests/lfortran_intrinsic_sin_c.c:263-271 | z becomes one or two top chunks with the value unchanged |
| `RemPio2.Chop` | integration_tests/lfortran_intrinsic_sin_c.c:259-271 | the chunks hold the fraction, top chunk non-zero, jz at least jk |
| `PayneHanek.OctantMeaning` | integration_tests/lfortran_intrinsic_sin_c.c:204-240 | octant and fraction are congruent to the number modulo 8 |
| `PayneHanek.Settle` | integration_tests/lfortran_intrinsic_sin_c.c:195-257 | when it is defined, the fraction at the settled index has at least jk+1 digits and the index fits the buffers |
| `PayneHanek.SettlesBy` | integration_tests/lfortran_intrinsic_sin_c.c:242-257 | if x·2/π, cut anywhere up to index m, keeps 2^(q0-24(m-jk)) away from the integers, the loop settles by m; `Margin.FarSettles` states it of the whole product |
| `Margin.FarSettles` | integration_tests/lfortran_intrinsic_sin_c.c:242-257 | if the whole product stays (2^(24(2jk-m)) + nx·2^24) units of the chunk at jk away from the integers, the loop settles, at index m or before |
| `Margin.FarReduces` | integration_tests/lfortran_intrinsic_sin_c.c:174-271 | the kernel then returns a reduction, with no chunk below that at index m |
| `Margin.SettledIsFar` | integration_tests/lfortran_intrinsic_sin_c.c:242-257 | whenever the loop settles, the whole product is more than 2^(24jk) - nx·2^24 units of the last chunk kept away from the integers |
| `Margin.NearOverruns` | integration_tests/lfortran_intrinsic_sin_c.c:246-255 | a product nearer than that at the last index that fits makes the loop overrun |
| `Margin.CutDistance` | integration_tests/lfortran_intrinsic_sin_c.c:204-240 | the fraction found at any cut is the distance of the whole product from the integers, up to nx·2^24 units of its last chunk |
| `Margin.ProductDoesNotDecide` | integration_tests/lfortran_intrinsic_sin_c.c:242-257 | two inputs with equal sizes and equal products, one of which settles while the other overruns |
| `Margin.NothingToFind` | integration_tests/lfortran_intrinsic_sin_c.c:247 | an input on which the kernel overruns: no digit is non-zero |
| `PayneHanek.WholeProduct` | integration_tests/lfortran_intrinsic_sin_c.c:186-193 | all chunks of the convolution together are the product of the two numbers |
| `PayneHanek.HeadIsMultipleOfEight` | integration_tests/lfortran_intrinsic_sin_c.c:181-184 | the table entries before jv only contribute multiples of eight, for every e0 |
| `PayneHanek.ProductBound` | integration_tests/lfortran_intrinsic_sin_c.c:190-193 | bounds the chunks left out after index jz |
| `PayneHanek.ReductionMeaning` | integration_tests/lfortran_intrinsic_sin_c.c:181-240 | the full product is 8k + octant ± fraction plus a tail below nx·2^24 units of the last chunk |
| `PayneHanek.TailIsSmall` | integration_tests/lfortran_intrinsic_sin_c.c:242-257 | that tail is below nx·2^(24-24jk) of a fraction with jk+1 digits, below 2^(26-24jk) for three chunks |
| `CfiDescriptor.Memory.SumI32` | integration_tests/bindc_iso_fb_01c.c:33-39 | the wrapped sum of the cells of all elements |
| `CfiDescriptor.OneCell` | integration_tests/bindc_iso_fb_01c.c:34 | the total of a single element is its cell |
| `CfiDescriptor.Memory.DblI32` | integration_tests/bindc_iso_fb_01c.c:102-106 | each cell is doubled once for every element stored in it; no other cell changes |
| `CfiDescriptor.IsContiguous` | integration_tests/bindc_iso_fb_01c.c:143-150 | true exactly when every stride covers the dimensions before it |
| `CfiDescriptor.PackedWhen` | integration_tests/bindc_iso_fb_01c.c:143-150 | that is, when each stride is the element length times the extents of the dimensions before it |
| `CfiDescriptor.TotalSize` | integration_tests/bindc_iso_fb_05c.c:626-633 | the wrapped product of the extents |
| `CfiDescriptor.PackedIsFlat` | integration_tests/bindc_iso_fb_01c.c:33-39 | for any rank and non-negative extents, the recursive sum over a contiguous descriptor is that of a plain loop over total-size cells |
| `CfiDescriptor.Memory.SumContiguous` | integration_tests/bindc_iso_fb_01c.c:264-275 | when the stride test answers yes and the element count is an int32_t, the recursive sum is that of a plain loop over total-size elements |
| `CfiDescriptor.GridIsFlat` | integration_tests/bindc_iso_fb_01c.c:35-37 | summing a packed grid by rows or in address order is the same |
| `CfiDescriptor.TimesMeaning` | integration_tests/bindc_iso_fb_01c.c:33-39 | the recursion visits an address exactly when some index in bounds has it |
| `CfiDescriptor.DistinctTimes` | integration_tests/bindc_iso_fb_01c.c:102-106 | with distinct element addresses, every addressed cell is visited once |
| `CfiDescriptor.PackedIsDistinct` | integration_tests/bindc_iso_fb_01c.c:143-150 | a contiguous descriptor has distinct element addresses |
| `CfiDescriptor.LinearInjective` | integration_tests/bindc_iso_fb_01c.c:143-150 | the mixed-radix position of an index tuple determines it |
| `CfiDescriptor.DoublesEachOnce` | integration_tests/bindc_iso_fb_01c.c:102-106 | for any strides with distinct element addresses, exactly the addressed cells are doubled, once |
| `CfiDescriptor.DoubledSum` | integration_tests/bindc_iso_fb_01c.c:33-39 | after doubling, the sum is twice what it was, modulo 2^32 |
| `ConfigSections.FromConfig` | src/bin/CLI11.hpp:8474-8571 | replaying the events as a stack succeeds, ends empty and finds every value in file order under its own section, if and only if no `[default]` header leaves a section of two or more segments with an item or the end of the file next, and no item is named `++` or `--` (one so named that has no values is left open) |
| `SectionFiles.ReadBlocks` | src/bin/CLI11.hpp:8474-8571 | a file written from sections and items, with dotted paths of any length, is read back: the events nest, and every value is found under its own section, path and name in the order written |
| `SectionFiles.FileMeans` | src/bin/CLI11.hpp:8474-8571 | what such a file means, line by line |
| `ConfigSections.JoinedSection` | src/bin/CLI11.hpp:8400-8422 | the path of a dotted section name is the list of its pieces, without their quotes |
| `ConfigSections.JoinedItem` | src/bin/CLI11.hpp:8400-8422 | in an item's name the last piece is its own name and the others its path |
| `ConfigSections.DefaultSection` | src/bin/CLI11.hpp:8503-8504 | `[default]` in any case of letters, and no other name |
| `ConfigSections.EventNames` | src/bin/CLI11.hpp:8425-8471 | `++` opens a section one segment below the one on top and `--` closes the one on top; nothing else changes what is open |
| `Text.SplitJoined` | src/bin/CLI11.hpp:164-178 | splitting takes joined pieces apart again; a final delimiter adds nothing |
| `Text.SplitIsUndivided` | src/bin/CLI11.hpp:164-178 | no piece holds the delimiter |
| `ConfigSections.ReadHeader` | src/bin/CLI11.hpp:8491-8509 | keeps the reader on track, or lost for good, over a header line |
| `ConfigSections.ReadItem` | src/bin/CLI11.hpp:8540-8557 | the same over an item line |
| `ConfigSections.CloseFile` | src/bin/CLI11.hpp:8559-8570 | the closing events at the end of the file, and the if-and-only-if for the whole file |
| `ConfigSections.AddItem` | src/bin/CLI11.hpp:8550-8557 | a value list joins the item before it when path and name agree; the replay places its values either way, under the section on top |
| `ConfigSections.GenerateParents` | src/bin/CLI11.hpp:8400-8422 | path and own name of an item, quotes removed |
| `ConfigSections.CheckParentSegments` | src/bin/CLI11.hpp:8425-8471 | from the section just closed, or from none, the events lead to the new section being open under all its parents; from a section left open they lead to a failed replay |
| `ConfigSections.SwitchParents` | src/bin/CLI11.hpp:8429-8458 | closes what the two sections do not share and opens the rest |
| `ConfigSections.CloseDownTo` | src/bin/CLI11.hpp:8431-8434 | repeats the close event one segment up |
| `ConfigSections.OpenParents` | src/bin/CLI11.hpp:8453-8464 | opens the missing parents in order |
| `ConfigSections.CountCommon` | src/bin/CLI11.hpp:8437-8444 | the number of leading segments shared |
| `ConfigSections.StrandedExample` | src/bin/CLI11.hpp:8503-8504 | the reader run on a file with an item after such a header: replaying its events does not work out |
| `ConfigSections.LeftOpenExample` | src/bin/CLI11.hpp:8559-8570 | the same for a file that ends there |
| `ConfigSections.MarkerExample` | src/bin/CLI11.hpp:8540-8557 | the reader run on a file with an item named `++` |
| `ConfigSections.MarkersAreLost` | src/bin/CLI11.hpp:8550-8557 | the values of an item so named are found nowhere in the replay, whatever else is in the file |
| `IniValues.ConvertArgForIni` | src/bin/CLI11.hpp:8329-8371 | which arguments are printed as they are, `true`, `false`, `nan`, `inf`, numbers and literals of base 16, 8 and 2 among them, and which quote is put around the others |
| `IniValues.IniJoin` | src/bin/CLI11.hpp:8374-8398 | brackets and separators around the printed arguments |
| `IniValues.PrintedExample` | src/bin/CLI11.hpp:8374-8398 | two arguments as they are printed, character by character |
| `IniValues.SplitUp` | src/bin/CLI11.hpp:436-486 | the tokens of the text |
| `IniValues.NextToken` | src/bin/CLI11.hpp:448-482 | one turn of the loop |
| `IniValues.FindClosing` | src/bin/CLI11.hpp:450-455 | the first quote that no backslash precedes, and whether an escaped one was passed |
| `IniValues.ReplaceEscapes` | src/bin/CLI11.hpp:363-373 | in-place replacement agrees with left-to-right unescaping |
| `IniValues.RoundTrip` | src/bin/CLI11.hpp:8374-8398 | splitting the printed list gives the list back if and only if no argument ends in a backslash, is the single character `'`, holds quotes of both kinds or is a number with a leading blank; taking quotes off the tokens gives it back if and only if, besides, no argument stands in quotes of its own |
| `IniValues.ReadableWhen` | src/bin/CLI11.hpp:8329-8371 | the choice of quote fails an argument just in those cases |
| `IniValues.EscapedIsRead` | src/bin/CLI11.hpp:448-466 | quoted text in which each such quote has a backslash is read as the text |
| `IniValues.TrimWhen` | src/bin/CLI11.hpp:227-256 | trimming takes the blanks off both ends and nothing else |
| `IniValues.QuotedHead` | src/bin/CLI11.hpp:448-466 | a readable quoted argument is the first token |
| `IniValues.QuotedHeadFails` | src/bin/CLI11.hpp:448-481 | an unreadable one is not |
| `IniValues.UnquotedHeadFails` | src/bin/CLI11.hpp:8523-8546 | nor does taking quotes off the first token give an unreadable argument back |
| `IniValues.BareHead` | src/bin/CLI11.hpp:467-475 | so is a bare argument |
| `IniValues.BlankHead` | src/bin/CLI11.hpp:441-443 | a bare argument with a leading blank is not |
| `IniValues.PlainIsReadable` | src/bin/CLI11.hpp:8329-8371 | arguments without quotes and backslashes are readable, numbers with a leading blank aside |
| `IniValues.BlankNumberIsLost` | src/bin/CLI11.hpp:8337-8342 | the round trip fails for a number with a leading blank |
| `IniValues.QuotesAreLost` | src/bin/CLI11.hpp:8540-8546 | an argument in quotes, `'x'`, is split off as it is, and then comes back as `x` |
| `IniValues.ReadValues` | src/bin/CLI11.hpp:8523-8546 | a list loses its brackets and is split at commas, other text is split at commas or blanks, quotes are taken off |
| `IniValues.BlankValues` | src/bin/CLI11.hpp:8530-8534 | words without quotes and commas, with blanks between them, come back as the words; text without blanks comes back as it is |
| `IniValues.CommaValues` | src/bin/CLI11.hpp:8528-8529 | and so do words with commas between them |
| `IniValues.ReadItem` | src/bin/CLI11.hpp:8521-8546 | the text behind the delimiter up to the line end, further trimmed lines until a list is closed, and the values in it |
| `IniValues.ContinuedList` | src/bin/CLI11.hpp:8523-8528 | a list goes on over a line break, the blanks of the next line left out |
| `IniValues.ItemOneLine` | src/bin/CLI11.hpp:8523-8527 | no text that is read holds a line break |
| `IniValues.WholeLine` | src/bin/CLI11.hpp:8521-8527 | a list written without line breaks is read as it was written, and nothing after it |
| `IniValues.LineBreakIsLost` | src/bin/CLI11.hpp:8524-8527 | readable arguments do not come back when one holds a line break |
| `IniValues.PrintAndRead` | src/bin/CLI11.hpp:8523-8546 | written into a file and read back by the config reader, whatever follows there, a list of two or more comes back if and only if no argument ends in a backslash, is the single character `'`, holds quotes of both kinds, stands in quotes of its own, holds a line break, or is a number with a leading blank; what follows is then left to read |
| `CommandLine.App.Parse` | src/bin/CLI11.hpp:7491-7505 | the loop terminates; it uses up the command line if and only if some run can, and else ends with the exception at the first word that cannot be dealt with; undoing the steps taken gives the command line back, results and missing words are what the steps gave, and each step is the one that the results before it and the words left after it call for |
| `Assignments.ParseAssignments` | src/bin/CLI11.hpp:7491-7505 | a command line written from values, in long, short and windows-style form, attached or not, defaults, clusters of flags, words for a positional and words that nothing answers to, is parsed back: each option gets just its values in order, just the rest is left over |
| `Assignments.ParseOneValue` | src/bin/CLI11.hpp:7812-7964 | `--name=value`, `--name value`, `-nvalue`, `-n value`, `/name:value`, `/name value` give an option that takes one value just that value |
| `Assignments.ParseWithMark` | src/bin/CLI11.hpp:7589-7601 | behind a `--` every word goes to the positional, whatever it looks like |
| `Assignments.ParseWithPrefix` | src/bin/CLI11.hpp:7735-7756 | with prefix commands all words from the first one that nothing answers to are left over |
| `Assignments.ParseReserving` | src/bin/CLI11.hpp:7927-7941 | an option that could take them all leaves a required positional its words |
| `Assignments.OptionWordParts` | src/bin/CLI11.hpp:2395-2439 | an option word without value is taken apart into its name |
| `Assignments.AttachedWordParts` | src/bin/CLI11.hpp:2395-2439 | an option word is taken apart into just the name and the value or rest that it was put together from |
| `CommandLine.FirstChars` | src/bin/CLI11.hpp:319-322 | the characters that a name may begin with |
| `CommandLine.PlainWords` | src/bin/CLI11.hpp:7124-7146 | words that name no option |
| `CommandLine.MinNumWhen` | src/bin/CLI11.hpp:7886 | an option with values needs those of one type at least, whatever the expected number |
| `CommandLine.MaxNumWhen` | src/bin/CLI11.hpp:7887-7893 | the maximum is the product of type size and expected number, without limit for very large ones |
| `CommandLine.SeparatorWhen` | src/bin/CLI11.hpp:7880-7884 | when a separator comes between occurrences |
| `CommandLine.PaddingWhen` | src/bin/CLI11.hpp:7954-7957 | a type of which only a part was given is filled up |
| `CommandLine.NothingLacking` | src/bin/CLI11.hpp:7632-7643 | nothing is reserved just if no required positional lacks words |
| `CommandLine.OneLessLacking` | src/bin/CLI11.hpp:7632-7643 | a word for one that lacks some is one less to reserve |
| `CommandLine.App.ParseSingle` | src/bin/CLI11.hpp:7589-7629 | each turn succeeds exactly when the next word can be dealt with, shortens the remaining text, keeps the record exact, and treats a word as positional only when it looks like no option or an earlier step closes the options |
| `CommandLine.OutcomeIsDetermined` | src/bin/CLI11.hpp:7491-7505 | a run that ends in an exception and one that uses up the same command line do not go together |
| `CommandLine.RunIsDetermined` | src/bin/CLI11.hpp:7491-7505 | runs of equally many steps from the same command line are the same, words left included |
| `CommandLine.StepIsDetermined` | src/bin/CLI11.hpp:7589-7629 | the steps before a step and the words on the stack allow for no other step |
| `CommandLine.NamedIsDetermined` | src/bin/CLI11.hpp:7875-7962 | an option word takes the same words along in every run |
| `CommandLine.DueProceeds` | src/bin/CLI11.hpp:7589-7629 | a step is only due for a word that can be dealt with |
| `CommandLine.App.ParseArg` | src/bin/CLI11.hpp:7812-7964 | an option word and what it takes along form exactly one step, for the word on top; an unknown one goes to the missing words; an exception comes exactly when the option cannot do with the words there are |
| `CommandLine.App.TakeOption` | src/bin/CLI11.hpp:7875-7962 | the step is in accordance with names, minimum, maximum, separator, attached text and padding of the first option that answers, and takes words until one of the stopping conditions holds; it succeeds exactly when the flag values asked for exist and the words suffice for the minimum |
| `CommandLine.App.GiveOwn` | src/bin/CLI11.hpp:7880-7912 | a separator exactly when asked for after a non-empty result, then flag value or attached text; fails exactly when the flag value throws |
| `CommandLine.App.EatRequired` | src/bin/CLI11.hpp:7914-7921 | words up to the minimum, in order |
| `CommandLine.App.EatOptional` | src/bin/CLI11.hpp:7927-7941 | only words that look like no option, up to the maximum, stopping for the reserved positionals |
| `CommandLine.App.EatRest` | src/bin/CLI11.hpp:7927-7952 | optional words until one of the four stopping conditions holds, the `--` behind them whenever there is one, and the default of a value not given, failing exactly when that throws |
| `CommandLine.App.ParsePositional` | src/bin/CLI11.hpp:7659-7756 | the word goes to the required positional at the end, the first positional with room, the missing words, or raises the exception |
| `CommandLine.App.Dismiss` | src/bin/CLI11.hpp:7593-7601 | one word joins the missing words |
| `CommandLine.App.EveryWordOnce` | src/bin/CLI11.hpp:7499-7505 | the words of the steps are, each as often, those of the command line and the rests that clustered short flags left: each word is consumed exactly once |
| `CommandLine.App.WordsInOrder` | src/bin/CLI11.hpp:7499-7505 | and in order, clusters glued, when no flag is allowed extra arguments |
| `CommandLine.Setup.DueWords` | src/bin/CLI11.hpp:7957-7960 | the same count of words after any part of a run |
| `CommandLine.UndoIsCommandLine` | src/bin/CLI11.hpp:7499-7505 | words consumed in order, for any tail of words |
| `CommandLine.Setup.Recognize` | src/bin/CLI11.hpp:7124-7146 | the classes of words |
| `CommandLine.SlashAnswersBoth` | src/bin/CLI11.hpp:7841-7850 | `/a` is a windows-style word that an option `-a` and an option `--a` both answer to |
| `CommandLine.App.StepDone` | src/bin/CLI11.hpp:7589-7629 | what every turn of the loop keeps |
| `OptionNames.AmbiguousWhen` | src/bin/CLI11.hpp:4701-4720 | two options share a spelling if and only if matching_name reports a name, or one ignores only case, the other only underscores, and two long names differ only in those |
| `OptionNames.AmbiguousWindowsWhen` | src/bin/CLI11.hpp:7841-7850 | compared with names of both kinds, two options share a spelling if and only if they do so anyway or a short name of one equals a long name of the other, case ignored if either option ignores it and underscores if the long name's option does |
| `OptionNames.CrossedWhen` | src/bin/CLI11.hpp:394-422 | some spelling reaches a short name of one and a long name of the other if and only if two such names are equal under those flags |
| `OptionNames.CrossedExample` | src/bin/CLI11.hpp:4701-4720 | `-a` and `--a`: no test reports them and no short or long spelling is shared, but both accept `a` |
| `OptionNames.MatchIsHit` | src/bin/CLI11.hpp:4701-4720 | the inverse test that matching_name leaves out without flags would find nothing new |
| `OptionNames.FindMember` | src/bin/CLI11.hpp:394-422 | finds a name equal under the flags, or there is none |
| `OptionNames.CheckWhen` | src/bin/CLI11.hpp:394-422 | an option answers to its names, with the case of letters ignored when it ignores case and, for long names, underscores when it ignores those |
| `OptionNames.CaseHits` | src/bin/CLI11.hpp:4701-4720 | long names that differ only in the case of letters match if either option ignores case |
| `OptionNames.WithoutUnderscore` | src/bin/CLI11.hpp:357-360 | underscores are taken out and everything else stays |
| `Text.SameInLowerCase` | src/bin/CLI11.hpp:349-354 | texts are equal in lower case if and only if each pair of characters is equal or the two cases of one letter |
| `Text.Alphabet` | src/bin/CLI11.hpp:349-354 | the letters that have a lower case, and which it is |
| `OptionNames.NormCoarser` | src/bin/CLI11.hpp:394-422 | ignoring more accepts whatever ignoring less accepts |
| `OptionNames.MergeMatchesBoth` | src/bin/CLI11.hpp:394-422 | a spelling with the underscores of one name and the case of another matches both |
| `OptionNames.MixedExample` | src/bin/CLI11.hpp:4701-4720 | a pair that no test reports although one spelling reaches both |
| `OptionNames.App.AddOption` | src/bin/CLI11.hpp:5725-5764 | keeps names free of matches; succeeds exactly when no option matches the names under the default flags; refused exactly when one matches without them; an exception from copying defaults leaves the option registered |
| `OptionNames.App.CopyDefaults` | src/bin/CLI11.hpp:3936-3941 | throws exactly when another option matches the names under both default flags |
| `OptionNames.App.RemoveOption` | src/bin/CLI11.hpp:6084-6103 | drops just that option |
| `OptionNames.App.IgnoreCase` | src/bin/CLI11.hpp:4449-4467 | keeps names free of matches; refused, with the flag off, exactly when a match would arise |
| `OptionNames.App.IgnoreUnderscore` | src/bin/CLI11.hpp:4473-4491 | the same for underscores |
| `OptionNames.App.Unambiguous` | src/bin/CLI11.hpp:4701-4720 | after any run of these operations a short or long spelling reaches two options only in the mixed case |
| `OptionNames.App.UnambiguousWindows` | src/bin/CLI11.hpp:7841-7850 | and a windows-style one only in the mixed or the crossed case |
| `SubcommandExclusion.App.Excludes` | src/bin/CLI11.hpp:6548-6561 | exclusion stays mutual and irreflexive; exactly the one pair is added |
| `SubcommandExclusion.App.RemoveExcludes` | src/bin/CLI11.hpp:6593-6602 | the mutual calls terminate, take exactly the one pair away, and keep exclusion mutual |
| `SubcommandExclusion.App.RemoveSubcommand` | src/bin/CLI11.hpp:6154-6168 | exclusion stays mutual; exactly the links with siblings are cut, so that none of them excludes or needs the subcommand or is excluded by it, and the subcommand is dropped |
| `CheckedMultiply.Multiply` | src/bin/CLI11.hpp:3220-3233 | true if and only if the product is representable, for every signed or unsigned width; then stored, else the operand is unchanged |
| `CheckedMultiply.Ranges` | src/bin/CLI11.hpp:3204-3217 | a signed type reaches one further down than up, an unsigned one starts at zero |
| `CheckedMultiply.OverflowCheckExact` | src/bin/CLI11.hpp:3204-3217 | the overflow test is exact away from the minimum value, with division towards zero |
| `SymbolLists.Accessor.PopulateSymbolLists` | src/bin/lfortran_accessor.h:51-93 | appends the preorder listing of the scope, and only appends |
| `SymbolLists.TableListing` | src/bin/lfortran_accessor.h:81-92 | a module, a function or a program is followed by the listing of its table |
| `SymbolLists.OtherListing` | src/bin/lfortran_accessor.h:81-92 | any other symbol stands alone |
| `SymbolLists.GeneratedListing` | src/bin/lfortran_accessor.h:59-61 | a name that the compiler made up, with a `~`, leaves nothing behind, nor does its table |
| `SymbolLists.ParentsComeFirst` | src/bin/lfortran_accessor.h:62-65 | every parent index is the given one or smaller than its own index |
| `SymbolLists.RebuildsSegment` | src/bin/lfortran_accessor.h:51-93 | a listing anywhere in a list gives its scope back |
| `SymbolLists.Reversible` | src/bin/lfortran_accessor.h:51-93 | rebuilding a forest from the parent indices returns the tree without generated names |
| `SymbolLists.TableRebuilt` | src/bin/lfortran_accessor.h:81-92 | rebuilding the listing of one symbol gives the symbol with its visible table if it is a module, a function or a program, and with none otherwise |
| `CudaPayload.AppendPayload` | src/bin/cuda_link_helpers.cpp:165-190 | succeeds exactly when the payload is empty or ends in NUL; appends the sources either way |
| `CudaPayload.ParsesEncoding` | src/bin/cuda_link_helpers.cpp:165-190 | any list of non-empty NUL-free strings, each followed by one or more NULs, parses to itself |
| `CudaPayload.TwoSources` | src/bin/cuda_link_helpers.cpp:165-190 | two sources and the padding between them, character by character |
| `CudaPayload.Concatenation` | src/bin/cuda_link_helpers.cpp:165-190 | parsing two payloads run together gives the two lists run together |

## Left out

- The final multiplication by pi/2 and the compression into y[] (rounding), and the small and medium argument paths of the reduction.
- That the real table of 2/pi never makes the reduction overrun: the table is arbitrary here; the condition is that of `LargeArgument.LargeFarReduces`.
- Underflow of `scalbn` for exponents e0 below about -900, which the caller never passes.
- Byte-level overlap of descriptor elements: cells are int32 values at distinct addresses, as alignment makes them; index arithmetic is unbounded.
- Cutting a config file into headers, items and comments, and splitting an item at its delimiter: lines come as headers and items, and what is behind the delimiter as text (`IniValues.ReadItem`).
- ConfigSections.FromConfig: promises nothing for a file in which an item named `++` or `--` has an empty list of values; such an item nests or not depending on its path.
- The number test of value printing is a parameter; `std::strtold` is only taken to accept no empty text, separator, quote or final blank.
- Printing and reading a single argument, which has no brackets.
- Subcommands, option groups and fallthrough in the argument loop; `get_flag_value` and the validators of positionals are parameters.
- Splitting of a result at a delimiter or in brackets inside `add_result`, and `parse_order_`.
- CommandLine.App.Parse: says nothing about the state after an exception.
- CommandLine.App.WordsInOrder: leaves out flags that are allowed extra arguments, which a cluster lets take words out of turn; `CommandLine.App.EveryWordOnce` counts the words for them too.
- Option links (`needs`, `excludes`) and help pointers that `remove_option` clears; positional and environment names.
- Exclusions that a removed subcommand has with Apps other than its siblings stay, as in the source.
- Floating-point `checked_multiply`.
- Source positions in symbol lists, and the order of names in a symbol table, which is the order given.
- The driver, the language server, LLVM object reading, the other C interoperability helpers, CI and documentation scripts.
