# Cthulhu core: size strings and the resume record

Cthulhu is a segmented HTTP downloader. It splits a file into byte-range
chunks, fetches them in parallel and records per-chunk progress so that an
interrupted transfer can be resumed. This project models two pieces of its
core and proves properties of them.

- `ParseChunkSize.ParseSize` (module `ParseChunkSize`, `parse_chunk_size.dfy`)
  turns a chunk-size string such as `"16MB"` or `"4MiB"` into a byte count.
  It trims the string and upper-cases it. A plain signed 64-bit integer, as
  `long.TryParse` with `NumberStyles.Integer` reads it, is returned as it is.
  Otherwise the ending picks a factor from a six-entry table (1 when no entry
  matches). The maximal run of leading digits is the number, and the result
  is number × factor. An empty digit run makes `double.Parse` throw, which is
  modelled as `Err(FormatError)`.
- `Chunk` and `SessionMeta` (module `Session`, `session_meta.dfy`) are the
  resume record. `Chunk` is a class with init-only `start`/`end` (inclusive
  offsets), the one mutable field `bytesWritten`, and the derived `Done`.
  `SessionMeta` is a class whose fields are all `const`.
- `Longs` (`int64.dfy`) holds the bounds of a C# `long`, the `int64` type and
  `Wrap`, which is unchecked two's-complement arithmetic.
- `Wrappers` (`wrappers.dfy`) holds `Option` and `Result`.

The source computes `Done` as `BytesWritten >= (End - Start + 1)` in unchecked
`long` arithmetic. The model keeps that wrap-around (`Session.InclusiveLength`).
For the range `[0, long.MaxValue]` the length wraps to `long.MinValue`, so the
chunk reads as done with nothing written (`Session.DoneWrapsOnFullRange`).
A chunk is meant to be done once all `End - Start + 1` bytes of its range are
written. The model follows the code and proves that the computed `Done` means
exactly that whenever the length fits in a `long`, and in particular for every
chunk of a session whose chunks tile the file (`Session.DoneInSession`).

The predicate `Session.Tiles` describes a well-formed chunk list: non-empty
ranges that follow one another and cover `[0, contentLength)`. The code that
plans and updates chunks is not part of this model. So `Tiles` is only a
definition, and the lemmas about it hold for any list that satisfies it. No
lemma claims the code produces such a list.

## Model

| member | source | states |
|---|---|---|
| Longs.Wrap | Cthulhu.Core/SessionMeta.cs:15 | the result is the one `long` congruent to the exact value modulo 2^64, and equals it when the exact value is in range |
| ParseChunkSize.ToUpperInvariant | Cthulhu.Core/ParseChunkSize.cs:6 | same length; each character is upper-cased (ASCII `a`-`z` to `A`-`Z`), all others unchanged |
| ParseChunkSize.TrimStart | Cthulhu.Core/ParseChunkSize.cs:6 | drops leading white space; specified by `TrimStartSpec` |
| ParseChunkSize.TrimEnd | Cthulhu.Core/ParseChunkSize.cs:6 | drops trailing white space; specified by `TrimEndSpec` |
| ParseChunkSize.Trim | Cthulhu.Core/ParseChunkSize.cs:6 | `string.Trim`; specified by `TrimSpec` and `TrimOfPadded` |
| ParseChunkSize.Normalize | Cthulhu.Core/ParseChunkSize.cs:6 | trim, then upper-case; `NormalizeUpperFirst`, `ParseSizeIgnoresPadding` and `ParseSizeIgnoresCase` state its effect on the result |
| ParseChunkSize.TrimStartSpec | Cthulhu.Core/ParseChunkSize.cs:6 | `TrimStart` leaves a suffix whose cut-off part is all white space and which does not start with white space |
| ParseChunkSize.TrimEndSpec | Cthulhu.Core/ParseChunkSize.cs:6 | `TrimEnd` leaves a prefix whose cut-off part is all white space and which does not end with white space |
| ParseChunkSize.TrimSpec | Cthulhu.Core/ParseChunkSize.cs:6 | `Trim` leaves a slice of the input; everything cut away at both ends is white space; the result neither starts nor ends with white space |
| ParseChunkSize.TrimOfPadded | Cthulhu.Core/ParseChunkSize.cs:6 | trimming a string padded with white space on both sides gives the trim of the unpadded string |
| ParseChunkSize.NormalizeUpperFirst | Cthulhu.Core/ParseChunkSize.cs:6 | trimming and upper-casing commute |
| ParseChunkSize.ParseSizeIgnoresPadding | Cthulhu.Core/ParseChunkSize.cs:6 | white space around a size string changes neither the result nor whether it is defined |
| ParseChunkSize.ParseSizeIgnoresCase | Cthulhu.Core/ParseChunkSize.cs:6 | two size strings equal once upper-cased parse to the same result |
| ParseChunkSize.DropTrailingNuls | Cthulhu.Core/ParseChunkSize.cs:7-12 | the NULs .NET number parsing tolerates after a number; specified by `DropNulsOfPadded` |
| ParseChunkSize.DropNulsOfPadded | Cthulhu.Core/ParseChunkSize.cs:7-12 | removes exactly the NULs appended to a string that does not end in one |
| ParseChunkSize.IsSignedDigits | Cthulhu.Core/ParseChunkSize.cs:7-12 | the `NumberStyles.Integer` shape once white space is stripped: an optional `+` or `-` and at least one digit |
| ParseChunkSize.SignedValue | Cthulhu.Core/ParseChunkSize.cs:7-12 | the value of such a text, negated after `-`; `ParseSizeOfPlainInteger` and `SignedDecimalShape` tie it to the result |
| ParseChunkSize.TryParseLong | Cthulhu.Core/ParseChunkSize.cs:7-12 | a successful parse always yields a value within the range of `long` |
| ParseChunkSize.TryParseLongOfBare | Cthulhu.Core/ParseChunkSize.cs:7-12 | on a string with nothing to strip, the parse succeeds exactly when the string is an optionally signed digit run whose value fits in a `long`, and then yields that value |
| ParseChunkSize.ParseSizeOfInteger | Cthulhu.Core/ParseChunkSize.cs:7-12 | the decimal text of any `long` (with `-` when negative) parses to that same value, with no suffix logic |
| ParseChunkSize.ParseSizeOfPlainInteger | Cthulhu.Core/ParseChunkSize.cs:7-12 | every in-range optionally signed digit run, with any leading zeros and trailing NULs, parses to its value (`"+5"`, `"007"`, `"-0"`, `"5\0"`) |
| ParseChunkSize.EndsWith | Cthulhu.Core/ParseChunkSize.cs:13-18 | ordinal `string.EndsWith`; used by `UnitsUnambiguous` and `FactorOfSuffix` |
| ParseChunkSize.FactorIn | Cthulhu.Core/ParseChunkSize.cs:13-18 | the first table entry whose suffix ends the string gives the factor, 1 if none; specified by `FactorInMatch` and `FactorInNoMatch` |
| ParseChunkSize.Factor | Cthulhu.Core/ParseChunkSize.cs:13-18 | `FactorIn` over the six entries (`MIB`, `MB`, `KIB`, `KB`, `GB`, `GIB` with 2^20, 10^6, 2^10, 10^3, 10^9, 2^30) in the source's order; specified by `FactorOfSuffix` and `FactorOfOtherEnding` |
| ParseChunkSize.UnitsIndependent | Cthulhu.Core/ParseChunkSize.cs:13-18 | no suffix in the table is an ending of another suffix in it |
| ParseChunkSize.UnitsUnambiguous | Cthulhu.Core/ParseChunkSize.cs:13-18 | at most one table suffix ends any given string |
| ParseChunkSize.FactorInMatch | Cthulhu.Core/ParseChunkSize.cs:13-18 | scanning the table from any earlier entry, a string ending in a table suffix gets that entry's factor |
| ParseChunkSize.FactorInNoMatch | Cthulhu.Core/ParseChunkSize.cs:13-18 | a string that ends in none of the remaining suffixes gets factor 1 |
| ParseChunkSize.FactorOfSuffix | Cthulhu.Core/ParseChunkSize.cs:13-18 | a string ending in a table suffix gets that suffix's factor wherever the entry stands, so the order of the tests does not matter |
| ParseChunkSize.FactorOfOtherEnding | Cthulhu.Core/ParseChunkSize.cs:18 | any other ending gives factor 1 |
| ParseChunkSize.LeadingDigits | Cthulhu.Core/ParseChunkSize.cs:20 | the taken prefix consists of digits only |
| ParseChunkSize.LeadingDigitsSpec | Cthulhu.Core/ParseChunkSize.cs:20 | the taken prefix is the maximal one: a prefix of the input, followed by a non-digit or by the end |
| ParseChunkSize.LeadingDigitsOfDigitsThen | Cthulhu.Core/ParseChunkSize.cs:20 | digits followed by text that starts with a non-digit yield exactly those digits |
| ParseChunkSize.DigitsValue | Cthulhu.Core/ParseChunkSize.cs:21 | the value `double.Parse` gives a digit run; `Decimal` is its inverse |
| ParseChunkSize.Decimal | Cthulhu.Core/ParseChunkSize.cs:21 | decimal text of a natural number is a non-empty ASCII digit run whose `DigitsValue` is that number |
| ParseChunkSize.ParseNormalized | Cthulhu.Core/ParseChunkSize.cs:7-21 | on a trimmed upper-case string: an integer accepted by `long.TryParse` is the result; otherwise a success is the leading digits' value times the factor of the ending; it fails exactly when the integer parse fails and the string does not start with a digit; every success lies within `long` |
| ParseChunkSize.ParseSize | Cthulhu.Core/ParseChunkSize.cs:5-22 | the same on the normalized string: the plain integer when `long.TryParse` accepts it, otherwise leading digits × factor, and `Err` exactly when the normalized string is not a plain integer and does not start with a digit |
| ParseChunkSize.DigitsThenText | Cthulhu.Core/ParseChunkSize.cs:6-20 | digits followed by upper-case text ending in a letter are left alone by line 6, are not a plain integer, and yield exactly those digits |
| ParseChunkSize.ParseSizeOfDigitsThen | Cthulhu.Core/ParseChunkSize.cs:13-21 | a digit run followed by upper-case text that starts with a non-digit and ends in a letter parses to the run's value times the factor its ending selects (`"16 MB"`, `"007KB"`) |
| ParseChunkSize.ParseSizeOfScaled | Cthulhu.Core/ParseChunkSize.cs:13-21 | for every number n and table entry, `n` followed by the suffix parses to n × factor |
| ParseChunkSize.ParseSizeOfOtherSuffix | Cthulhu.Core/ParseChunkSize.cs:13-21 | `n` followed by an upper-case ending that no table suffix ends parses to n |
| ParseChunkSize.NoUnitEndsDigitsThen | Cthulhu.Core/ParseChunkSize.cs:13-18 | a table suffix that does not end a letter run does not end digits followed by that run either |
| ParseChunkSize.ParseSizeOfFraction | Cthulhu.Core/ParseChunkSize.cs:20-21 | `n.m` followed by a table suffix parses to n × factor: the fraction is dropped |
| ParseChunkSize.ParseSizeOfSignedScaled | Cthulhu.Core/ParseChunkSize.cs:20-21 | a `+` or `-` before digits and a table suffix leaves no leading digit, so parsing fails |
| ParseChunkSize.ParseSizeExample16MB | Cthulhu.Core/ParseChunkSize.cs:5 | `"16MB"` gives 16,000,000 |
| ParseChunkSize.ParseSizeExample4MiB | Cthulhu.Core/ParseChunkSize.cs:5 | `"4MiB"` gives 4,194,304 |
| ParseChunkSize.ParseSizeExamplePadded | Cthulhu.Core/ParseChunkSize.cs:6 | `" 4mib "` gives 4,194,304 |
| ParseChunkSize.ParseSizeExampleFraction | Cthulhu.Core/ParseChunkSize.cs:20-21 | `"1.5MB"` gives 1,000,000 |
| ParseChunkSize.ParseSizeExampleOtherSuffix | Cthulhu.Core/ParseChunkSize.cs:18-21 | `"16XB"` gives 16 |
| ParseChunkSize.ParseSizeExampleSpaced | Cthulhu.Core/ParseChunkSize.cs:13-21 | `"16 MB"` gives 16,000,000 |
| ParseChunkSize.ParseSizeExampleSignedZeros | Cthulhu.Core/ParseChunkSize.cs:7-12 | `"+007"` gives 7 |
| ParseChunkSize.ParseSizeExampleNegative | Cthulhu.Core/ParseChunkSize.cs:7-12 | `"-5"` gives -5 |
| ParseChunkSize.ParseSizeExampleSignedSuffix | Cthulhu.Core/ParseChunkSize.cs:20-21 | `"+5MB"` and `"-5MB"` fail |
| ParseChunkSize.ParseSizeExampleNoNumber | Cthulhu.Core/ParseChunkSize.cs:20-21 | `"MB"` fails |
| Session.InclusiveLength | Cthulhu.Core/SessionMeta.cs:15 | `End - Start + 1` in `long` arithmetic; it is the exact inclusive length whenever that fits in a `long` |
| Session.DoneAt | Cthulhu.Core/SessionMeta.cs:15 | the `Done` getter on the three values it reads; specified by `DoneIsInclusiveLength`, `DoneMonotone` and `DoneWrapsOnFullRange` |
| Session.Chunk.Done | Cthulhu.Core/SessionMeta.cs:15 | computed from `start`, `end` and `bytesWritten` on every read, never stored, so it cannot disagree with them |
| Session.Chunk.constructor | Cthulhu.Core/SessionMeta.cs:11-15 | a new chunk keeps its range and has written nothing, so it is not done when `start <= end` and the length fits |
| Session.Chunk.Resumed | Cthulhu.Core/SessionMeta.cs:11-14 | a chunk restored with recorded progress holds exactly that range and progress |
| Session.Chunk.SetBytesWritten | Cthulhu.Core/SessionMeta.cs:12-15 | sets the progress and leaves `start`/`end` unchanged; more progress keeps a done chunk done, and less keeps an unfinished chunk unfinished |
| Session.DoneMonotone | Cthulhu.Core/SessionMeta.cs:14-15 | with the same range, more bytes written never turns done into not done |
| Session.DoneIsInclusiveLength | Cthulhu.Core/SessionMeta.cs:15 | when the length does not overflow, done holds exactly when at least `end - start + 1` bytes were written |
| Session.EmptyRangeDone | Cthulhu.Core/SessionMeta.cs:15 | a range whose end is right before its start is done with nothing written |
| Session.DoneWrapsOnFullRange | Cthulhu.Core/SessionMeta.cs:15 | for `[0, long.MaxValue]` the length wraps to `long.MinValue` and the chunk is done with nothing written |
| Session.SessionMeta.constructor | Cthulhu.Core/SessionMeta.cs:2-9 | every field holds the value it was initialised with; none can be reassigned |
| Session.StartsAtLeastZero | Cthulhu.Core/SessionMeta.cs:12 | in a tiling chunk list every chunk starts at offset 0 or later |
| Session.EndsBeforeLength | Cthulhu.Core/SessionMeta.cs:13 | in a tiling chunk list every chunk ends before `contentLength` |
| Session.ChunkInFile | Cthulhu.Core/SessionMeta.cs:7-13 | every chunk of a tiling list lies within the file |
| Session.ChunksDisjoint | Cthulhu.Core/SessionMeta.cs:8-13 | an earlier chunk ends before a later one starts |
| Session.OffsetInOneChunk | Cthulhu.Core/SessionMeta.cs:8-13 | no offset lies in two chunks |
| Session.OffsetCovered | Cthulhu.Core/SessionMeta.cs:7-13 | every offset of the file lies in some chunk |
| Session.OffsetCoveredFrom | Cthulhu.Core/SessionMeta.cs:7-13 | an offset at or after chunk k's start lies in chunk k or a later one |
| Session.TilesSpanLength | Cthulhu.Core/SessionMeta.cs:7-13 | the inclusive lengths of the chunks add up to `contentLength` |
| Session.DoneInSession | Cthulhu.Core/SessionMeta.cs:7-15 | in a session whose chunks tile the file, each chunk's `Done` does not overflow and holds exactly when its whole range was written |

## Left out

- ParseChunkSize.ParseSize: requires an ASCII string. .NET's `Trim`, `ToUpperInvariant` and `char.IsDigit` are Unicode-aware. For example, Arabic-Indic digits pass `TakeWhile(char.IsDigit)` and then make `double.Parse` throw. Only ASCII behaviour is modelled.
- ParseChunkSize.ParseSize: requires `ExactInDouble`, meaning the integer path is taken or digits × factor is at most 2^53. Beyond that, `double.Parse` and the multiply round, and the `(long)` cast of an out-of-range `double` is not modelled. The result there is left unspecified.
- ParseChunkSize.EndsWith: `string.EndsWith(string)` is culture-sensitive in .NET; the model compares ordinally. Culture rules that ignore some characters (for example `'\0'`) are not modelled.
- ParseChunkSize.TryParseLong: covers the invariant culture and `NumberStyles.Integer` over ASCII, including .NET's acceptance of trailing `'\0'` characters. Other culture symbols are not modelled.
- A `null` size string, which throws `NullReferenceException`, is not modelled: Dafny strings are never null.
- Session.SessionMeta: `Chunks` is a `List<Chunk>` whose reference is init-only but whose contents can still be changed by `Add` or `Remove`. The model holds a `seq<Chunk>`, so it does not capture changes to the list in place.
- Session.SessionMeta: `Uri` is modelled as its text, without parsing or validation. `DateTimeOffset` is modelled as ticks and an offset in minutes, without range checks.
- Session.Chunk: `BytesWritten` may be updated from several download tasks; no concurrency or memory ordering is modelled.
- The code that plans chunks, loads and saves the metadata file, and resolves output-path collisions is not part of this model, so `Session.Tiles` stays a definition.
- Cthulhu.Core/Downloader.cs, OffsetWriter.cs and HttpClientFactory.cs (HTTP and file I/O), Cthulhu.Core/Settings (persisted preferences) and Cthulhu.Cli (argument parsing and prompts) are I/O and are not part of this model.
