# swift-envfetch core, modelled in Dafny

swift-envfetch is a Swift library that reports facts about the machine it runs
on: the Swift toolchain's version and target triple, uptime, displays, GPUs,
memory in use and more. Most of that is operating-system probing. This project
models the rules that sit between those probes and the values the library
returns, all in `Sources/EnvironmentFetch/EnvironmentFetch.swift`. The probes
themselves become inputs:

- **Toolchain banner** (`toolchain.dfy`, on top of `text.dfy`). `swiftVersion`
  and `swiftTriple` read the output of `swift --version`. Each splits it on a
  phrase with `split(separator:)`, takes the last piece, then takes the first
  space-separated word and/or trims whitespace. `text.dfy` models Swift's
  `split(separator:)`, which drops empty pieces by default. It also models
  `contains` and `trimmingCharacters(in: .whitespacesAndNewlines)`.
- **Uptime text** (`uptime.dfy`, on top of `numeric.dfy`).
  `String(forInterval:)` truncates an interval to whole seconds. It splits the
  seconds into hours, minutes and seconds with Swift's truncating `/` and `%`,
  then prints them with `"%0.2dh:%0.2dm:%0.2ds"`.
- **Displays and GPUs** (`devices.dfy`). The value types are `SystemDisplay`
  and `SystemGPU`. `displays` is a loop over the screen list: it truncates each
  size and keeps a refresh rate only when it is positive. `gpus` is a loop over
  the registry services: it keeps those with a model string and classifies each
  one as integrated when the model names Intel or Apple.
- **Memory in use** (`memory.dfy`). `usedMemory` adds the active, inactive and
  wired page counts and multiplies the sum by 16384. It reports 0 when the
  statistics call fails.

`options.dfy` holds Swift's optionals and the `first`/`last` accessors of
arrays.

Which parts are inputs:

- `shell` is reduced to three inputs: whether the process launched, its exit
  status, and its output decoded as UTF-8.
- The screen list is a sequence of frame sizes and optional refresh rates.
- The registry iterator is a success flag plus a sequence of optional "model"
  properties.
- The Mach statistics call is a result code plus three page counts.

## Model

| member | source | states |
|---|---|---|
| Numeric.Trunc | Sources/EnvironmentFetch/EnvironmentFetch.swift:228 | converting a floating value to an integer truncates toward zero: the result lies within one of the value, on the zero side |
| Numeric.Quot | Sources/EnvironmentFetch/EnvironmentFetch.swift:231-232 | Swift's `Int` division truncates: the product with the divisor stays on the dividend's side, within one divisor of it |
| Numeric.Rem | Sources/EnvironmentFetch/EnvironmentFetch.swift:230-231 | Swift's `%` is the remainder of the truncating quotient, with the dividend's sign and smaller than the divisor |
| Numeric.QuotQuot60 | Sources/EnvironmentFetch/EnvironmentFetch.swift:231-232 | `(t / 60) / 60 == t / 3600` under truncating division, for every sign of `t` |
| Numeric.QuotUnique | Sources/EnvironmentFetch/EnvironmentFetch.swift:231-232 | the truncating quotient is the only one that leaves a remainder of the dividend's sign below the divisor |
| Numeric.TruncInRange | Sources/EnvironmentFetch/EnvironmentFetch.swift:228 | for a range lo..hi that contains 0, as every integer type's does, an integer initialiser on a floating value yields a result in lo..hi exactly when the value lies strictly between lo - 1 and hi + 1 |
| Options.Option.GetOr | Sources/EnvironmentFetch/EnvironmentFetch.swift:102 | `??` (here and at line 49): the wrapped value when there is one, otherwise the default |
| Options.First | Sources/EnvironmentFetch/EnvironmentFetch.swift:26 | `.first`: nil exactly on an empty array, otherwise the element the array starts with |
| Options.Last | Sources/EnvironmentFetch/EnvironmentFetch.swift:24 | `.last` (here and at line 34): nil exactly on an empty array, otherwise the element the array ends with |
| Text.IndexFrom | Sources/EnvironmentFetch/EnvironmentFetch.swift:149 | the result is the leftmost occurrence of the pattern at or after the start index; nil means there is none |
| Text.Contains | Sources/EnvironmentFetch/EnvironmentFetch.swift:149 | a pattern is found only if it fits in the text, and always when the text starts with it (the exact meaning: Text.ContainsIff) |
| Text.ContainsIff | Sources/EnvironmentFetch/EnvironmentFetch.swift:149 | `contains` is true exactly when the pattern occurs at some index |
| Text.ContainsAt | Sources/EnvironmentFetch/EnvironmentFetch.swift:149 | any occurrence makes `contains` true |
| Text.ContainsTrans | Sources/EnvironmentFetch/EnvironmentFetch.swift:24-28 | a substring of a substring is a substring |
| Text.OccursInSuffix | Sources/EnvironmentFetch/EnvironmentFetch.swift:24 | an occurrence in a suffix is the shifted occurrence in the whole text, and back |
| Text.OccursInPrefix | Sources/EnvironmentFetch/EnvironmentFetch.swift:24 | an occurrence in a prefix is an occurrence in the whole text that ends inside the prefix, and back |
| Text.Pieces | Sources/EnvironmentFetch/EnvironmentFetch.swift:24 | splitting at the leftmost non-overlapping separators yields at least one piece |
| Text.PiecesProperties | Sources/EnvironmentFetch/EnvironmentFetch.swift:24 | no piece contains the separator and every piece is a substring of the text |
| Text.PieceBeforeFirst | Sources/EnvironmentFetch/EnvironmentFetch.swift:24 | the text before the first separator has no separator and is part of the text |
| Text.SuffixPieces | Sources/EnvironmentFetch/EnvironmentFetch.swift:24 | substrings of a suffix are substrings of the text |
| Text.JoinPieces | Sources/EnvironmentFetch/EnvironmentFetch.swift:24 | joining the pieces with the separator gives back the text: splitting loses nothing but the separators |
| Text.PiecesStep | Sources/EnvironmentFetch/EnvironmentFetch.swift:24 | past the first separator, the pieces are the text before it followed by the pieces of the remainder |
| Text.NonEmpty | Sources/EnvironmentFetch/EnvironmentFetch.swift:24 | only non-empty pieces survive, all taken from the input; the result is empty exactly when every piece was empty (which pieces, and in what order: Text.NonEmptyAtPositions) |
| Text.NonEmptyPositions | Sources/EnvironmentFetch/EnvironmentFetch.swift:24 | the positions of the non-empty pieces: increasing, each holding a non-empty piece, and every non-empty piece among them |
| Text.NonEmptyAtPositions | Sources/EnvironmentFetch/EnvironmentFetch.swift:24 | the k-th kept piece is the piece at the k-th non-empty position, and there are as many kept pieces as such positions: no non-empty piece is dropped, repeated or moved |
| Text.Split | Sources/EnvironmentFetch/EnvironmentFetch.swift:24 | `split(separator:)` yields non-empty pieces that hold no separator and are substrings of the text (that they are all the non-empty pieces, in order: Text.SplitAtPositions) |
| Text.SplitAtPositions | Sources/EnvironmentFetch/EnvironmentFetch.swift:24 | the split lists exactly the non-empty pieces, in their order |
| Text.SplitEmptyIff | Sources/EnvironmentFetch/EnvironmentFetch.swift:34-35 | the split is empty exactly when the text is zero or more copies of the separator |
| Text.JoinOfEmpties | Sources/EnvironmentFetch/EnvironmentFetch.swift:34 | joining n empty pieces gives n-1 separators |
| Text.PiecesOfRepeat | Sources/EnvironmentFetch/EnvironmentFetch.swift:34 | a text of copies of the separator splits into empty pieces only |
| Text.SplitLeadingSeparator | Sources/EnvironmentFetch/EnvironmentFetch.swift:24 | a leading separator does not change the split |
| Text.SplitTrailingSeparator | Sources/EnvironmentFetch/EnvironmentFetch.swift:24 | for a separator that cannot overlap itself, a trailing separator does not change the split |
| Text.PiecesTrailing | Sources/EnvironmentFetch/EnvironmentFetch.swift:24 | for a separator that cannot overlap itself, a trailing separator adds exactly one empty piece at the end |
| Text.NonEmptyDropsEmpty | Sources/EnvironmentFetch/EnvironmentFetch.swift:24 | an empty piece at the end is left out of the split |
| Text.LastIndexBelow | Sources/EnvironmentFetch/EnvironmentFetch.swift:24 | the result is the rightmost occurrence below the bound; nil means there is none |
| Text.AfterLast | Sources/EnvironmentFetch/EnvironmentFetch.swift:24 | the text after the last separator is a suffix of the text |
| Text.AfterLastWithout | Sources/EnvironmentFetch/EnvironmentFetch.swift:35 | with no separator, the whole text is what follows the last one |
| Text.NoLastMeansAbsent | Sources/EnvironmentFetch/EnvironmentFetch.swift:35 | finding no last separator means the text does not contain it |
| Text.FirstCharUnique | Sources/EnvironmentFetch/EnvironmentFetch.swift:24 | a separator whose first character does not recur cannot overlap itself |
| Text.OverlapBorder | Sources/EnvironmentFetch/EnvironmentFetch.swift:24 | two overlapping occurrences force the pattern to have a border |
| Text.LastPieceAfterLast | Sources/EnvironmentFetch/EnvironmentFetch.swift:24 | for a separator that cannot overlap itself, the last piece is the text after the last separator |
| Text.LastPieceStep | Sources/EnvironmentFetch/EnvironmentFetch.swift:24 | for a separator that cannot overlap itself: if the last piece of the remainder is what follows its last separator, the same holds for the whole text |
| Text.NoneMeansNoLast | Sources/EnvironmentFetch/EnvironmentFetch.swift:24 | with no separator at all, what follows the last one is the whole text |
| Text.AfterLastOfRest | Sources/EnvironmentFetch/EnvironmentFetch.swift:24 | for a separator that cannot overlap itself: past any separator, the text after the last one is that of the remainder |
| Text.LastWhenRestIsFree | Sources/EnvironmentFetch/EnvironmentFetch.swift:24 | for a separator that cannot overlap itself, an occurrence with no separator after it is the last one |
| Text.LastInRest | Sources/EnvironmentFetch/EnvironmentFetch.swift:24 | the last occurrence in the remainder is the last in the text |
| Text.LastIsUnique | Sources/EnvironmentFetch/EnvironmentFetch.swift:24 | an occurrence with none after it is the one found as last |
| Text.OccursChar | Sources/EnvironmentFetch/EnvironmentFetch.swift:26 | a one-character pattern occurs exactly where that character is |
| Text.RunPrefix | Sources/EnvironmentFetch/EnvironmentFetch.swift:26 | the longest prefix free of the character, stopped by that character or the end |
| Text.FirstRun | Sources/EnvironmentFetch/EnvironmentFetch.swift:26 | nil exactly when the text is only that character; otherwise a non-empty run without it |
| Text.FirstOfSplitOnChar | Sources/EnvironmentFetch/EnvironmentFetch.swift:26 | `split(separator: " ").first` is the first maximal run of non-spaces |
| Text.LastOfNonEmpty | Sources/EnvironmentFetch/EnvironmentFetch.swift:24 | a non-empty last piece is also the last non-empty piece |
| Text.SplitWithoutSeparator | Sources/EnvironmentFetch/EnvironmentFetch.swift:34 | without the separator the split is the text itself, or nothing for the empty text |
| Text.IsWhitespaceOrNewline | Sources/EnvironmentFetch/EnvironmentFetch.swift:28 | `CharacterSet.whitespacesAndNewlines` (here and at line 36) is exactly Unicode categories Zs, Zl and Zp, tab, U+000A to U+000D and U+0085 |
| Text.SkipLeading | Sources/EnvironmentFetch/EnvironmentFetch.swift:28 | the first position that is not whitespace: everything skipped is whitespace and the scan stops only at a non-whitespace character or the end |
| Text.SkipTrailing | Sources/EnvironmentFetch/EnvironmentFetch.swift:28 | scanning back, everything skipped is whitespace and the scan stops only after a non-whitespace character or at the lower bound |
| Text.Trim | Sources/EnvironmentFetch/EnvironmentFetch.swift:28 | `trimmingCharacters(in: .whitespacesAndNewlines)` leaves no whitespace at either end and is never longer than the input |
| Text.TrimShape | Sources/EnvironmentFetch/EnvironmentFetch.swift:28 | only whitespace is removed: the result occurs in the input with nothing but whitespace before and after it |
| Text.TrimAt | Sources/EnvironmentFetch/EnvironmentFetch.swift:28 | the trimmed text starts where the leading whitespace ends and is followed only by whitespace |
| Text.TrimOfTrimmed | Sources/EnvironmentFetch/EnvironmentFetch.swift:36 | a string with no whitespace at either end is left unchanged |
| Text.TrimIdempotent | Sources/EnvironmentFetch/EnvironmentFetch.swift:36 | trimming twice is trimming once |
| Text.TrimKeepsOut | Sources/EnvironmentFetch/EnvironmentFetch.swift:28 | trimming adds no character |
| Text.MissingCharNoOccurrence | Sources/EnvironmentFetch/EnvironmentFetch.swift:149 | a pattern holding a character the text lacks occurs nowhere in it |
| Text.OccurrenceKeepsOut | Sources/EnvironmentFetch/EnvironmentFetch.swift:28 | a character absent from a text is absent from every substring of it |
| Toolchain.ShellOutput | Sources/EnvironmentFetch/EnvironmentFetch.swift:39-52 | there is output exactly when the process launched and exited with status 0; undecodable output reads as "" |
| Toolchain.SwiftVersion | Sources/EnvironmentFetch/EnvironmentFetch.swift:21-29 | a version is there only with output, and has no whitespace at either end; output whose split on "Apple Swift version " is empty gives none (the rest: VersionShape, VersionAfterLastPhrase, VersionTrailingPhrase) |
| Toolchain.SwiftTriple | Sources/EnvironmentFetch/EnvironmentFetch.swift:31-37 | nil exactly when there is no output or its split on "Target: " is empty; a triple has no whitespace at either end |
| Toolchain.PhrasesOverlapFree | Sources/EnvironmentFetch/EnvironmentFetch.swift:24-35 | neither "Apple Swift version " nor "Target: " can overlap itself |
| Text.CharInContains | Sources/EnvironmentFetch/EnvironmentFetch.swift:26 | a character of the text is a one-character substring of it |
| Text.TrimIsSubstring | Sources/EnvironmentFetch/EnvironmentFetch.swift:28 | the trimmed string is a substring of the untrimmed one |
| Toolchain.VersionShape | Sources/EnvironmentFetch/EnvironmentFetch.swift:21-29 | a version exists only with output; it holds no space, has no whitespace at either end, and is a substring of the banner |
| Text.LastPieceIsPart | Sources/EnvironmentFetch/EnvironmentFetch.swift:24-25 | the last piece of a split is a substring of the text split |
| Toolchain.WordShape | Sources/EnvironmentFetch/EnvironmentFetch.swift:26-28 | the first word, trimmed, has no space and no whitespace at either end and is a substring of the text |
| Toolchain.VersionAfterLastPhrase | Sources/EnvironmentFetch/EnvironmentFetch.swift:24-28 | when the output does not end with "Apple Swift version ", the version is the first space-free word after the last such phrase, trimmed; nil when only spaces follow |
| Toolchain.VersionTrailingPhrase | Sources/EnvironmentFetch/EnvironmentFetch.swift:24-28 | an output ending with "Apple Swift version " gives the version of the output without that phrase |
| Toolchain.TripleShape | Sources/EnvironmentFetch/EnvironmentFetch.swift:31-37 | a triple exists only with output; it has no whitespace at either end and is a substring of the banner |
| Toolchain.TripleNilOnlyWhenNoPiece | Sources/EnvironmentFetch/EnvironmentFetch.swift:33-35 | the triple is nil exactly when there is no output or the output is only copies of "Target: " |
| Toolchain.TripleAfterLastPhrase | Sources/EnvironmentFetch/EnvironmentFetch.swift:34-36 | when the output is non-empty and does not end with "Target: ", the triple is the text after the last "Target: ", trimmed |
| Toolchain.TripleTrailingPhrase | Sources/EnvironmentFetch/EnvironmentFetch.swift:34-36 | an output ending with "Target: " gives the triple of the output without that phrase ("x Target: " gives "x") |
| Toolchain.TripleWithoutPhrase | Sources/EnvironmentFetch/EnvironmentFetch.swift:34-36 | without "Target: " the whole non-empty output, trimmed, is the triple |
| Toolchain.FailedToolchain | Sources/EnvironmentFetch/EnvironmentFetch.swift:22-23 | a toolchain that cannot launch or that fails gives neither version nor triple |
| Uptime.Fields | Sources/EnvironmentFetch/EnvironmentFetch.swift:228-232 | hours*3600 + minutes*60 + seconds is the truncated interval; minutes and seconds lie in [0, 60) and ms in [0, 1000) for a non-negative interval, and are non-positive and above -60 (or -1000) for a negative one |
| Uptime.FitsInt64 | Sources/EnvironmentFetch/EnvironmentFetch.swift:228 | `NSInteger(interval)` does not trap exactly when the truncated interval fits in a signed 64-bit integer |
| Uptime.FieldsUnique | Sources/EnvironmentFetch/EnvironmentFetch.swift:230-232 | for whole seconds t ≥ 0, the fields are the only hours, minutes and seconds below 60 that add up to t |
| Uptime.Decimal | Sources/EnvironmentFetch/EnvironmentFetch.swift:233 | the decimal digits of n: digits only, at least one, denoting n, with no leading zero |
| Uptime.Padded | Sources/EnvironmentFetch/EnvironmentFetch.swift:233 | `%0.2d`: the decimal digits of the value with no padding from 100 up, after a minus sign for a negative value; exactly two digits (one zero added in front of a single digit) below 100 |
| Uptime.LeadingZero | Sources/EnvironmentFetch/EnvironmentFetch.swift:233 | a leading zero does not change the value a digit string denotes |
| Uptime.FormatInterval | Sources/EnvironmentFetch/EnvironmentFetch.swift:227-234 | the uptime text is at least 11 characters and ends in "s" (what it says: Uptime.FormatReadsBack) |
| Uptime.DigitRun | Sources/EnvironmentFetch/EnvironmentFetch.swift:233 | reference reading of the printed text, used by FormatReadsBack (the source has no parser): the run of digits a text starts with, stopped by a non-digit or the end |
| Uptime.DigitRunOf | Sources/EnvironmentFetch/EnvironmentFetch.swift:233 | reference reading of the printed text, used by FormatReadsBack (the source has no parser): the digit run of digits followed by a non-digit is exactly those digits |
| Uptime.ParsePadded | Sources/EnvironmentFetch/EnvironmentFetch.swift:233 | reference reading of the printed text, used by FormatReadsBack (the source has no parser): a padded field followed by a non-digit reads back as its value |
| Uptime.ParseUnsigned | Sources/EnvironmentFetch/EnvironmentFetch.swift:233 | reference reading of the printed text, used by FormatReadsBack (the source has no parser): unsigned digits followed by a non-digit read back as their value and the rest |
| Uptime.ParseNegative | Sources/EnvironmentFetch/EnvironmentFetch.swift:233 | reference reading of the printed text, used by FormatReadsBack (the source has no parser): a minus sign and digits followed by a non-digit read back as the negated value and the rest |
| Uptime.ParseDigitsOf | Sources/EnvironmentFetch/EnvironmentFetch.swift:233 | reference reading of the printed text, used by FormatReadsBack (the source has no parser): a digit string followed by a non-digit is read exactly, leaving the rest |
| Uptime.ParsePaddedUnit | Sources/EnvironmentFetch/EnvironmentFetch.swift:233 | reference reading of the printed text, used by FormatReadsBack (the source has no parser): a padded field and its unit read back as the value and the rest |
| Uptime.ParsePaddedLastUnit | Sources/EnvironmentFetch/EnvironmentFetch.swift:233 | reference reading of the printed text, used by FormatReadsBack (the source has no parser): a padded field and the final unit read back as the value with nothing left |
| Uptime.ParseLayout | Sources/EnvironmentFetch/EnvironmentFetch.swift:233 | reference reading of the printed text, used by FormatReadsBack (the source has no parser): "<h>h:<m>m:<s>s" with padded fields reads back as (h, m, s) for every sign |
| Uptime.ParseIntervalOf | Sources/EnvironmentFetch/EnvironmentFetch.swift:233 | reference reading of the printed text, used by FormatReadsBack (the source has no parser): three fields read back in turn with their units give back the three values |
| Uptime.ParseUnitsInTurn | Sources/EnvironmentFetch/EnvironmentFetch.swift:233 | reference reading of the printed text, used by FormatReadsBack (the source has no parser): reading hours, minutes and seconds in order, with nothing after the seconds, yields the triple |
| Uptime.FormatReadsBack | Sources/EnvironmentFetch/EnvironmentFetch.swift:228-233 | the uptime text reads back as hours, minutes and seconds that add up to the truncated interval, with minutes and seconds in [0, 60) for a non-negative interval and in (-60, 0] with hours not above 0 for a negative one |
| Uptime.FractionNotPrinted | Sources/EnvironmentFetch/EnvironmentFetch.swift:229-233 | intervals with the same whole seconds print the same text: ms never appears |
| Uptime.FormatWidth | Sources/EnvironmentFetch/EnvironmentFetch.swift:233 | for a non-negative interval below 100 hours the text is exactly 11 characters |
| Uptime.FormatZero | Sources/EnvironmentFetch/EnvironmentFetch.swift:227-234 | 0 seconds prints "00h:00m:00s" |
| Uptime.FormatOneHourOneMinuteOneSecond | Sources/EnvironmentFetch/EnvironmentFetch.swift:227-234 | 3661 seconds prints "01h:01m:01s" |
| Uptime.FormatOfFields | Sources/EnvironmentFetch/EnvironmentFetch.swift:227-233 | a whole, non-negative number of seconds prints as the padded hours, minutes and seconds that add up to it, minutes and seconds below 60 |
| Uptime.PaddedSmall | Sources/EnvironmentFetch/EnvironmentFetch.swift:233 | a single digit is printed after one zero |
| Devices.SizeConvertible | Sources/EnvironmentFetch/EnvironmentFetch.swift:104 | `UInt16(Float(...))` on the frame size does not trap exactly when both truncated sides fit in 16 unsigned bits |
| Devices.RateConvertible | Sources/EnvironmentFetch/EnvironmentFetch.swift:102 | `Int16(Float(refreshRate ?? -1))` does not trap exactly when the rate is missing or its truncation fits in 16 signed bits |
| Devices.RefreshRate | Sources/EnvironmentFetch/EnvironmentFetch.swift:101-103 | a rate is kept exactly when present with a positive truncation, and is then that truncation |
| Devices.Displays | Sources/EnvironmentFetch/EnvironmentFetch.swift:96-107 | one entry per screen in order; entry i has index i, the truncated width and height, and the refresh-rate rule's result |
| Devices.IsIntegrated | Sources/EnvironmentFetch/EnvironmentFetch.swift:149 | integrated exactly when "Intel" or "Apple" occurs in the model, case-sensitively |
| Devices.Models | Sources/EnvironmentFetch/EnvironmentFetch.swift:147-151 | no more model strings than services |
| Devices.ModelPositions | Sources/EnvironmentFetch/EnvironmentFetch.swift:147-151 | increasing positions that are exactly the services with a model string |
| Devices.ModelsAtPositions | Sources/EnvironmentFetch/EnvironmentFetch.swift:147-151 | the k-th model string belongs to the k-th service with one: those services are kept in order and the others dropped |
| Devices.ModelsStep | Sources/EnvironmentFetch/EnvironmentFetch.swift:147-151 | one more service adds its model string, and its position, exactly when it has one |
| Devices.Gpus | Sources/EnvironmentFetch/EnvironmentFetch.swift:141-157 | empty when matching fails; otherwise one GPU per model string in registry order, integrated by the Intel/Apple rule |
| Devices.IntelIsIntegrated | Sources/EnvironmentFetch/EnvironmentFetch.swift:149 | "Intel UHD Graphics" is integrated |
| Devices.RadeonIsDiscrete | Sources/EnvironmentFetch/EnvironmentFetch.swift:149 | "AMD Radeon Pro" is not integrated |
| Devices.NoIntelInRadeon | Sources/EnvironmentFetch/EnvironmentFetch.swift:149 | "Intel" occurs nowhere in "AMD Radeon Pro" |
| Devices.NoAppleInRadeon | Sources/EnvironmentFetch/EnvironmentFetch.swift:149 | "Apple" occurs nowhere in "AMD Radeon Pro" |
| Memory.UsedMemory | Sources/EnvironmentFetch/EnvironmentFetch.swift:166-180 | 0 when the statistics call fails; otherwise a multiple of 16384 whose quotient is active + inactive + wired pages, always within UInt64 |
| Memory.UsedMemoryMonotone | Sources/EnvironmentFetch/EnvironmentFetch.swift:178 | more pages in use never reports less memory |

## Left out

- Text.IsWhitespaceOrNewline: the set follows the categories Apple documents for `CharacterSet.whitespacesAndNewlines`; the library's own tables are not part of this model, so any character they add beyond the documented categories is not captured.
- Operating-system calls with opaque results are not modelled: `uname`, `Host`, `ProcessInfo`, `sysctlbyname` (CPU name, cores, frequency), the IOPS power-source dictionaries (battery level and charging), and `ByteCountFormatter` (the `*String` variants).
- The `#if os`/`#if arch` branches are chosen at compile time; they have no runtime behaviour to model.
- Process, Pipe and the wait for exit in `shell` are reduced to `Toolchain.ShellOutput`'s three inputs.
- IOKit handles, `IOIteratorNext` and `IOObjectRelease` are reduced to a success flag and a sequence of optional "model" strings. The Mach `host_statistics64` call and its pointer rebinding are reduced to a result code and three counts.
- Floating point is modelled as exact reals, for the frame size, the refresh rate and the interval. The intermediate `Float(...)` rounding in `displays` and Double rounding in the uptime `ms` are not modelled. Truncation is modelled, and so are the `UInt16`/`Int16` range traps, as preconditions.
- Uptime.Fields: the trap of `NSInteger(interval)` on an interval whose truncation does not fit in 64 bits is a precondition (`Uptime.FitsInt64`, also required by `Uptime.FormatInterval`); the trap itself is not modelled.
- Memory.UsedMemory: the trap of the `UInt32` addition of the three page counts on overflow is a precondition (a successful call requires their sum below 2^32); the trap itself is not modelled.
- Devices.Displays: the `UInt16(Float(width))` conversion is modelled on the exact value, so a width that rounds across a 16-bit bound as a `Float` is not captured.
- Strings are sequences of Unicode scalars. Swift compares and splits by grapheme cluster with canonical equivalence; that is not modelled.
- Text.LastPieceAfterLast, Text.SplitTrailingSeparator, the lemmas built on them and the steps they are built from (Text.PiecesTrailing, Text.LastPieceStep, Text.AfterLastOfRest, Text.LastWhenRestIsFree) hold for separators that cannot overlap themselves (for one that can, a trailing separator may change the split: "xaaa" on "aa" gives "x" and "a", "xa" gives "xa"). Both phrases used here are such separators; the general case is not stated.
- Uptime.FormatInterval: `%d` reads each `Int` argument as a 32-bit C `int`. Hours of 2^31 or more (about 245,000 years of uptime) print truncated; the model prints the full value.
- `Sources/EnvironmentFetchExec/main.swift` only prints and force-unwraps the probes, and `Package.swift` is a build manifest; neither is modelled.
- `swiftTriple` is not nil merely because the phrase is absent: the code splits the output and uses all of it when "Target: " does not occur (Toolchain.TripleWithoutPhrase). It is nil only when the output is empty or made only of copies of the phrase (Toolchain.TripleNilOnlyWhenNoPiece). A reading of the library in which a missing phrase gives nil is not what the code does; the model follows the code.
