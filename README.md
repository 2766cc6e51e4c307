# LuzFaltex.Utilities in Dafny

A model of the utility library LuzFaltex.Utilities, with proofs about it:

- `BiDictionary<TFirst, TSecond>`: a two-way dictionary kept as a forward and a backward .NET `Dictionary`.
- `FileSize`: a byte count with unit factories, conversions, a renderer and a parser.
- The extension methods on `Dictionary` (`AddRange` with its three merge policies, `Add`, `TryAdd`).
- The extension methods on `string` (`Contains`, `TruncateTo`, `ExpandTo`, `Left`, `Right`).
- The shell colour type `TextColor`.
- The list deconstructors of `GenericExtensions`.
- `EnumTools.ParseFromValue`.

The model follows the C# code as written, quirks included:

- `FromTerabytes`, `FromPetabytes` and `FromExabytes` shift an `int` by 40, 50 and 60. C# reduces those counts modulo 32, so they multiply by 2^8, 2^18 and 2^28, and the product wraps.
- `Parse("20GB")` is 0 bytes.
- `ToString` divides every count from 2 to 1023 by 2, because the table row it stops at is `(2, " Bytes")`: 500 bytes render as 250 " Bytes".
- The exabyte marker of the parser is `ex`, not `eb`.
- `BiDictionary.Contains(key, value)` does not check that the key and the value are linked to each other.
- The `BiDictionary` indexer setters are not atomic.

Modules, one per concern:

| file | module | what it holds |
|---|---|---|
| `results.dfy` | `Results` | the .NET exceptions the code throws, `Result`, `Outcome`, `Option` |
| `machine_integers.dfy` | `MachineIntegers` | `int`/`long` as `int32`/`int64`, unchecked wrap-around, the C# shift operators |
| `sequences.dfy` | `Sequences` | distinct sequences |
| `dotnet_strings.dfy` | `DotNetStrings` | the `string` and `char` library calls the code makes |
| `dotnet_dictionary.dfy` | `DotNetDictionary` | a .NET `Dictionary` as a class: an enumeration order and a map |
| `bi_dictionary.dfy` | `Collections` | `BiDictionary` |
| `file_size.dfy` | `FileSizes` | `FileSize` |
| `dictionary_extensions.dfy` | `DictionaryExtensions` | `AddRange`, `Add`, `TryAdd` |
| `string_extensions.dfy` | `StringExtensions` | the `string` extensions |
| `text_color.dfy` | `Shell` | `TextColor` |
| `generic_extensions.dfy` | `GenericExtensions` | `Deconstruct` for 1 to 5 variables |
| `enum_tools.dfy` | `EnumTools` | `ParseFromValue` |

Modelling choices:

- A thrown exception is a returned value: `Throws(e)` of a `Result` or `Raised(e)` of an `Outcome`. State changed before the throw stays changed, as it does in .NET.
- A .NET `Dictionary` is a sequence of keys in enumeration order plus a map. `Add` appends. `Remove` deletes from the sequence.
- `BiDictionary` is a class with the fields `keyOrder`, `keyValue` and `valueKey`.
  - `Valid()` is the forward `Dictionary`'s own well-formedness, and every method keeps it.
  - `Consistent()` says the two indexes are mutual inverses. Each method's contract says when it keeps consistency and when it breaks it.
- The constructors that can throw are static methods that return a `Result`.
- `FileSize` is a datatype over an `int64`. `ToString` is specified by the function `Rendered`, and `TryParse` by the function `ParseSpec`. Both are loops proved equal to their specification.
- `null` is `None` where the code handles it: `Contains` with `source?.`, and `IsNullOrWhiteSpace` in `Parse` and `TryParse`.

Where the code and its own documentation comments differ, the model follows the code:

- `Contains(key, value)` and `Contains(pair)` are documented to find a key "which links to the specified value" (BiDictionary.cs:147, :156). The code only tests that the key and the value are each present.
- `RemoveByKey` and `RemoveByValue` are documented to return false when the element is not found (BiDictionary.cs:185-186, :201-202). They look the key up with the indexer first, so an absent key or value throws `KeyNotFoundException`.
- `Add` is documented as a "nuclear operation" that throws `ArgumentException` on a present key or value (BiDictionary.cs:109, :114). The code returns silently instead (BiDictionary.cs:118).
- The indexer setters are documented to create a new element for an absent key or value (BiDictionary.cs:70-72, :91-93). Both read the indexer first (BiDictionary.cs:81, :102), so they throw `KeyNotFoundException`.
- The by-key setter removes the old value backward, assigns forward, and only then adds to the backward index (BiDictionary.cs:81-83). The by-value setter removes the old key forward, assigns backward, and only then adds to the forward index (BiDictionary.cs:102-104). In either setter a collision in that last add throws `ArgumentException` after the first two steps, which leaves the indexes inconsistent. `Remove(pair)` with a key and a value that are both present but not linked removes both, which also breaks consistency.

## Model

| member | source | states |
|---|---|---|
| Collections.BiDictionary.constructor | LuzFaltex.Utilities.Collections/BiDictionary.cs:39-43 | a new map is empty, valid and consistent |
| Collections.BiDictionary.FromDictionary | LuzFaltex.Utilities.Collections/BiDictionary.cs:45-59 | throws `ArgumentException` exactly when two keys share a value; otherwise the forward index enumerates the input's pairs in its order and the backward index is its inverse |
| Collections.AllValuesUnique | LuzFaltex.Utilities.Collections/BiDictionary.cs:47-51 | true exactly when the collection has no repeated element |
| Collections.BiDictionary.FromArray | LuzFaltex.Utilities.Collections/BiDictionary.cs:61-62 | succeeds exactly when both the keys and the values of the array are distinct, and then enumerates the array's pairs; otherwise `ArgumentException` |
| Collections.BiDictionary.ExplicitConversion | LuzFaltex.Utilities.Collections/BiDictionary.cs:262-265 | the same outcome as the dictionary constructor |
| Collections.BiDictionary.Count | LuzFaltex.Utilities.Collections/BiDictionary.cs:32 | the number of enumerated keys; with consistent indexes also the size of the backward index |
| Collections.BiDictionary.Enumerate | LuzFaltex.Utilities.Collections/BiDictionary.cs:251-252 | `Count()` pairs, exactly the forward index's pairs, each key once, in the forward index's order |
| Collections.BiDictionary.GetByKey | LuzFaltex.Utilities.Collections/BiDictionary.cs:78 | throws `KeyNotFoundException` exactly when the key is absent; otherwise an enumerated pair, whose value maps back to the key when consistent |
| Collections.BiDictionary.GetByValue | LuzFaltex.Utilities.Collections/BiDictionary.cs:99 | throws `KeyNotFoundException` exactly when the value is absent; otherwise the backward index's key for the value, which, when consistent, forms an enumerated pair |
| Collections.BiDictionary.SetByKey | LuzFaltex.Utilities.Collections/BiDictionary.cs:79-84 | an absent key throws `KeyNotFoundException` with no change; otherwise the forward entry is replaced, the old value unbound, and a value held by another key throws `ArgumentException` with those changes kept; re-setting a pair is a no-op, a fresh value keeps consistency, and a value held by another key breaks consistency |
| Collections.BiDictionary.SetByValue | LuzFaltex.Utilities.Collections/BiDictionary.cs:100-105 | the mirror image of `SetByKey`: an absent value throws `KeyNotFoundException` with no change; otherwise the old key is removed forward; a key bound elsewhere throws `ArgumentException` after that; on success the key is appended to the model's enumeration order |
| Collections.BiDictionary.Add | LuzFaltex.Utilities.Collections/BiDictionary.cs:115-122 | a present key or value changes nothing and throws nothing; otherwise the pair is in both indexes and appended to the enumeration; consistency is preserved |
| Collections.BiDictionary.AddPair | LuzFaltex.Utilities.Collections/BiDictionary.cs:130-131 | the same as `Add` on the pair's key and value |
| Collections.BiDictionary.Clear | LuzFaltex.Utilities.Collections/BiDictionary.cs:136-140 | both indexes are empty, which is consistent, and `Count()` is 0 |
| Collections.BiDictionary.Contains | LuzFaltex.Utilities.Collections/BiDictionary.cs:149-150 | true exactly when the key and the value are each present; a linked pair is contained, and so is any present value beside a present key |
| Collections.BiDictionary.ContainsPair | LuzFaltex.Utilities.Collections/BiDictionary.cs:158-159 | the same as `Contains` on the pair's key and value |
| Collections.BiDictionary.ContainsKey | LuzFaltex.Utilities.Collections/BiDictionary.cs:166-167 | true exactly when the key is enumerated |
| Collections.BiDictionary.ContainsValue | LuzFaltex.Utilities.Collections/BiDictionary.cs:174-175 | true exactly when the by-value getter does not throw, i.e. the value is in the backward index; with consistent indexes, exactly when some enumerated pair has the value |
| Collections.BiDictionary.RemoveByKey | LuzFaltex.Utilities.Collections/BiDictionary.cs:188-195 | an absent key throws `KeyNotFoundException`; a key whose value is not bound backward gives false with no change; otherwise both entries go and the result is true; consistency is preserved, and then a present key is always removed |
| Collections.BiDictionary.RemoveByValue | LuzFaltex.Utilities.Collections/BiDictionary.cs:204-211 | the mirror image of `RemoveByKey` |
| Collections.BiDictionary.Remove | LuzFaltex.Utilities.Collections/BiDictionary.cs:218-224 | false with no change unless the key and the value are both present; otherwise the key's forward entry and the value's backward entry go; a linked pair keeps consistency, an unlinked one breaks it |
| Collections.BiDictionary.TryGetKey | LuzFaltex.Utilities.Collections/BiDictionary.cs:235-236 | `None` exactly where the by-value getter throws, and its result elsewhere |
| Collections.BiDictionary.TryGetValue | LuzFaltex.Utilities.Collections/BiDictionary.cs:245-246 | `None` exactly where the by-key getter throws, and its result elsewhere |
| Collections.BiDictionary.CopyTo | LuzFaltex.Utilities.Collections/BiDictionary.cs:248-249 | a negative index throws `ArgumentOutOfRangeException` and too little room `ArgumentException`, both with the array unchanged; otherwise the enumeration is written from the index and the rest of the array is untouched |
| Collections.BiDictionary.Equals | LuzFaltex.Utilities.Collections/BiDictionary.cs:257-258 | equal maps have the same forward pairs in the same order, and the same backward index when both are consistent; the same forward pairs in the same order are equal |
| Collections.AddToEmptyGivesOnePair | LuzFaltex.Utilities.Tests/BiDictionaryTests.cs:14-21 | adding `(1, "one")` to a new map gives count 1 and exactly that pair |
| Collections.RemoveByKeyLeavesOnePair | LuzFaltex.Utilities.Tests/BiDictionaryTests.cs:24-35 | removing key 1 from `{1: "one", 2: "two"}` returns true and leaves only `(2, "two")` |
| Collections.SameAddsAreEqual | LuzFaltex.Utilities.Tests/BiDictionaryTests.cs:38-51 | two maps built by the same `Add` are equal |
| Collections.ContainsIgnoresLinks | LuzFaltex.Utilities.Collections/BiDictionary.cs:149-150 | `Contains(1, "two")` is true in `{1: "one", 2: "two"}`, where key 1 is linked to "one" |
| FileSizes.UnitsArePowersOf1024 | LuzFaltex.Utilities/FileSize.cs:19-34 | the unit constants are 1024^1 to 1024^6, and the theoretical maximum is 2^64 - 1024 |
| FileSizes.Ensure | LuzFaltex.Utilities/FileSize.cs:65-69 | never throws, because the bound exceeds every `long` |
| FileSizes.New | LuzFaltex.Utilities/FileSize.cs:54-58 | stores every `long`, negatives included |
| FileSizes.FromBytes | LuzFaltex.Utilities/FileSize.cs:75-76 | the count is stored as given |
| FileSizes.FromKilobytes | LuzFaltex.Utilities/FileSize.cs:83-84 | n·1024 wrapped to 32 bits, and exactly n·1024 while that fits in an `int` |
| FileSizes.FromMegabytes | LuzFaltex.Utilities/FileSize.cs:90-91 | n·2^20 wrapped to 32 bits; exact for \|n\| below 2048 |
| FileSizes.FromGigabytes | LuzFaltex.Utilities/FileSize.cs:97-98 | n·2^30 wrapped to 32 bits; exact only for -2 to 1 |
| FileSizes.FromTerabytes | LuzFaltex.Utilities/FileSize.cs:104-105 | the shift by 40 is a shift by 8: n·256 wrapped to 32 bits |
| FileSizes.FromPetabytes | LuzFaltex.Utilities/FileSize.cs:111-112 | the shift by 50 is a shift by 18: n·2^18 wrapped to 32 bits |
| FileSizes.FromExabytes | LuzFaltex.Utilities/FileSize.cs:120-121 | the shift by 60 is a shift by 28: n·2^28 wrapped to 32 bits |
| FileSizes.LargeFactoriesShiftModulo32 | LuzFaltex.Utilities/FileSize.cs:104-121 | one terabyte, petabyte and exabyte from the factories are 256, 2^18 and 2^28 bytes |
| FileSizes.TwoGigabytesOverflow | LuzFaltex.Utilities/FileSize.cs:97-98 | two gigabytes overflow to -2^31 bytes |
| FileSizes.ManyGigabytesWrapToZero | LuzFaltex.Utilities/FileSize.cs:97-98 | 20 and 200 gigabytes wrap to 0 bytes |
| FileSizes.AsBytes | LuzFaltex.Utilities/FileSize.cs:131-132 | `FromBytes` of the result gives the same size back |
| FileSizes.ToKilobytes | LuzFaltex.Utilities/FileSize.cs:138-139 | the floor of bytes / 1024, negatives included |
| FileSizes.ToMegabytes | LuzFaltex.Utilities/FileSize.cs:145-146 | the floor of bytes / 2^20 |
| FileSizes.ToGigabytes | LuzFaltex.Utilities/FileSize.cs:152-153 | the floor of bytes / 2^30 |
| FileSizes.ToTerabytes | LuzFaltex.Utilities/FileSize.cs:159-160 | the floor of bytes / 2^40 |
| FileSizes.ToPetabytes | LuzFaltex.Utilities/FileSize.cs:166-167 | the floor of bytes / 2^50 |
| FileSizes.ToExabytes | LuzFaltex.Utilities/FileSize.cs:173-174 | the floor of bytes / 2^60 |
| FileSizes.WholeUnitsConvertBack | LuzFaltex.Utilities/FileSize.cs:75-174 | n whole units of any unit, for every n from -8 to 7 (all that fit a `long` in exabytes), built with `FromBytes`, convert back to n |
| FileSizes.Equals | LuzFaltex.Utilities/FileSize.cs:200-201 | equal byte counts exactly when the sizes are equal |
| FileSizes.UnitIndexIsLargestThreshold | LuzFaltex.Utilities/FileSize.cs:180-188 | the row is 0 (no scaling) exactly for counts below 2; otherwise it is the largest threshold not above the count; the singular " Byte" suffix is never used |
| FileSizes.ToString | LuzFaltex.Utilities/FileSize.cs:180-188 | the top-down scan equals `Rendered`; 0 is "0 Bytes", and 2 to 1023 bytes are divided by 2 with suffix " Bytes" |
| FileSizes.RenderedExamples | LuzFaltex.Utilities.Tests/FileSizeTests.cs:88-100 | 1 MB, 2 MB, 128.75 GB and the two MB figures of the tests are scaled by the unit the tests expect; 1 byte is "1 Bytes" |
| FileSizes.LeadingDigits | LuzFaltex.Utilities/FileSize.cs:239-246 | the longest prefix of decimal digits |
| FileSizes.LeadingDigitsAt | LuzFaltex.Utilities/FileSize.cs:239-246 | a digit run that ends at the end or at a non-digit is that prefix |
| FileSizes.ParseLong | LuzFaltex.Utilities/FileSize.cs:248-252 | a digit string parses exactly when it is non-empty and below 2^63 |
| FileSizes.TryParse | LuzFaltex.Utilities/FileSize.cs:231-303 | the loop equals `ParseSpec`; true exactly when a size is produced; false for null or white space, for no leading count, and for a count of 2^63 or more |
| FileSizes.Parse | LuzFaltex.Utilities/FileSize.cs:215-223 | `ArgumentNullException` for null or white space, `FormatException` where `TryParse` fails, otherwise its size |
| FileSizes.ParseCountThenMarker | LuzFaltex.Utilities/FileSize.cs:239-303 | a count followed by text without digits parses to the count in the marker's unit, or fails for an unknown marker |
| FileSizes.Parse100b | LuzFaltex.Utilities.Tests/FileSizeTests.cs:11-19 | "100b" is 100 bytes |
| FileSizes.Parse1000kb | LuzFaltex.Utilities.Tests/FileSizeTests.cs:11-19 | "1000kb" is 1024000 bytes |
| FileSizes.Parse20GB | LuzFaltex.Utilities.Tests/FileSizeTests.cs:11-19 | "20GB" parses, to 0 bytes |
| FileSizes.Parse200Gigabytes | LuzFaltex.Utilities.Tests/FileSizeTests.cs:11-19 | "200 gigabytes" parses, to 0 bytes |
| FileSizes.ExabyteMarkerIsEx | LuzFaltex.Utilities/FileSize.cs:294-296 | "1ex" parses to 2^28 bytes |
| FileSizes.ExabyteMarkerIsNotEb | LuzFaltex.Utilities/FileSize.cs:256-303 | "1eb" is rejected |
| FileSizes.CountTruncatedToInt | LuzFaltex.Utilities/FileSize.cs:264-268 | the count is cast to `int` first: "4294967297kb" is one kilobyte |
| FileSizes.MarkerDropsEveryCopyOfTheCount | LuzFaltex.Utilities/FileSize.cs:254 | every copy of the count is removed from the marker: "10b10" is 10 bytes |
| FileSizes.ParseNeedsLeadingCount | LuzFaltex.Utilities/FileSize.cs:239-252 | leading white space or a sign leaves no count: " 5mb" and "-5kb" are rejected |
| DictionaryExtensions.AddRange | LuzFaltex.Utilities/Extensions/DictionaryExtensions.cs:16-60 | returns `source` itself; `IgnoreDuplicates` keeps `source`'s values and `Overwrite` takes `second`'s, both appending the new keys in `second`'s order; `Throw` throws an `AggregateException` of one `ArgumentException` per shared key exactly when there is one, changing nothing, and otherwise adds every pair; any other option changes nothing |
| DictionaryExtensions.MergeIgnoringDuplicates | LuzFaltex.Utilities/Extensions/DictionaryExtensions.cs:21-27 | the result is `second`'s pairs overridden by `source`'s, with `second`'s new keys appended |
| DictionaryExtensions.MergeOverwriting | LuzFaltex.Utilities/Extensions/DictionaryExtensions.cs:28-37 | the result is `source`'s pairs overridden by `second`'s, with `second`'s new keys appended |
| DictionaryExtensions.DuplicateKeyErrors | LuzFaltex.Utilities/Extensions/DictionaryExtensions.cs:39-47 | one `ArgumentException` per key of `source` that `second` holds |
| DictionaryExtensions.AddAll | LuzFaltex.Utilities/Extensions/DictionaryExtensions.cs:53-54 | adding a disjoint `second` pair by pair gives the union, with `second`'s keys appended in order |
| DictionaryExtensions.DisjointMergesAgree | LuzFaltex.Utilities/Extensions/DictionaryExtensions.cs:16-60 | with no shared key, the three policies build the same dictionary: the unions agree both ways and every key of `second` is appended |
| DictionaryExtensions.Add | LuzFaltex.Utilities/Extensions/DictionaryExtensions.cs:62-63 | `ArgumentException` with no change when the key is present; otherwise the pair is appended |
| DictionaryExtensions.TryAdd | LuzFaltex.Utilities/Extensions/DictionaryExtensions.cs:67-74 | false with no change exactly when the key is present; otherwise the pair is appended |
| DictionaryExtensions.TryAddPair | LuzFaltex.Utilities/Extensions/DictionaryExtensions.cs:65-66 | the same as `TryAdd` on the pair's key and value |
| StringExtensions.Contains | LuzFaltex.Utilities/Extensions/StringExtensions.cs:15-16 | true exactly when the source is not null and `toCheck` occurs in it |
| StringExtensions.ContainsEmpty | LuzFaltex.Utilities/Extensions/StringExtensions.cs:15-16 | the empty string is in every non-null string, and nothing is in null |
| StringExtensions.ContainsSubstring | LuzFaltex.Utilities/Extensions/StringExtensions.cs:15-16 | every substring of a string is contained in it |
| StringExtensions.TruncateTo | LuzFaltex.Utilities/Extensions/StringExtensions.cs:23-29 | throws `ArgumentOutOfRangeException` exactly for a negative length; otherwise the prefix of length min(length, \|source\|) |
| StringExtensions.TruncateToIdempotent | LuzFaltex.Utilities/Extensions/StringExtensions.cs:23-29 | truncating twice to a length is truncating once |
| StringExtensions.TruncateIsLeft | LuzFaltex.Utilities/Extensions/StringExtensions.cs:23-29 | for a string longer than the length, truncating is `Left` |
| StringExtensions.ExpandTo | LuzFaltex.Utilities/Extensions/StringExtensions.cs:36-45 | the source followed by spaces up to the length; a string of at least that length unchanged |
| StringExtensions.ExpandThenTruncateFits | LuzFaltex.Utilities/Extensions/StringExtensions.cs:23-45 | expanding and then truncating to a non-negative width gives exactly that width |
| StringExtensions.Left | LuzFaltex.Utilities/Extensions/StringExtensions.cs:52-53 | `ArgumentOutOfRangeException` exactly when the length is outside 0..\|source\|; otherwise the first `length` characters |
| StringExtensions.Right | LuzFaltex.Utilities/Extensions/StringExtensions.cs:60-61 | `ArgumentOutOfRangeException` exactly when the length is outside 0..\|source\|; otherwise the last `length` characters |
| StringExtensions.LeftRightSplit | LuzFaltex.Utilities/Extensions/StringExtensions.cs:52-61 | the left n and the right \|s\| - n characters together are the string |
| Shell.PaletteCodes | LuzFaltex.Utilities.Shell/TextColor.cs:65-80 | the sixteen named colours have the codes 0 to 15 in order |
| Shell.FromCode | LuzFaltex.Utilities.Shell/TextColor.cs:16-17 | the colour carries the given code |
| Shell.FromCodeInjective | LuzFaltex.Utilities.Shell/TextColor.cs:11-17 | different codes give different colours |
| Shell.ToString | LuzFaltex.Utilities.Shell/TextColor.cs:19-20 | "&" followed by lowercase hexadecimal digits, without leading zeros, that read back as the code's 32-bit two's-complement pattern |
| Shell.HexRoundTrip | LuzFaltex.Utilities.Shell/TextColor.cs:19-20 | the `"x"` digits of a number read back as that number |
| Shell.ToStringInjective | LuzFaltex.Utilities.Shell/TextColor.cs:19-20 | different colours have different strings |
| Shell.WhiteString | LuzFaltex.Utilities.Shell/TextColor.cs:19-20 | `White` is "&f" |
| Shell.BlackString | LuzFaltex.Utilities.Shell/TextColor.cs:19-20 | `Black` is "&0" |
| Shell.MinusOneString | LuzFaltex.Utilities.Shell/TextColor.cs:19-20 | code -1 is written as `ffffffff` |
| Shell.ToConsoleColor | LuzFaltex.Utilities.Shell/TextColor.cs:22-23 | converting the result back to a colour gives the same colour |
| Shell.FromConsoleColor | LuzFaltex.Utilities.Shell/TextColor.cs:25-63 | the sixteen console colours map to the named colour with the same number; any other value gives `White` |
| Shell.ConsoleColorRoundTrip | LuzFaltex.Utilities.Shell/TextColor.cs:22-63 | a console colour goes to a `TextColor` and back to itself |
| Shell.TextColorRoundTrip | LuzFaltex.Utilities.Shell/TextColor.cs:22-63 | a colour with code 0 to 15 goes to a console colour and back to itself |
| GenericExtensions.Padded | LuzFaltex.Utilities/Extensions/GenericExtensions.cs:9-38 | the list cut or padded with the default to exactly n elements |
| GenericExtensions.PaddedAt | LuzFaltex.Utilities/Extensions/GenericExtensions.cs:9-38 | position i is the list's element there, or the default past the end |
| GenericExtensions.Deconstruct1 | LuzFaltex.Utilities/Extensions/GenericExtensions.cs:9-12 | the first element, or the default |
| GenericExtensions.Deconstruct2 | LuzFaltex.Utilities/Extensions/GenericExtensions.cs:13-17 | the first two elements, each the default past the end |
| GenericExtensions.Deconstruct3 | LuzFaltex.Utilities/Extensions/GenericExtensions.cs:18-23 | the first three elements, each the default past the end |
| GenericExtensions.Deconstruct4 | LuzFaltex.Utilities/Extensions/GenericExtensions.cs:24-30 | the first four elements, each the default past the end |
| GenericExtensions.Deconstruct5 | LuzFaltex.Utilities/Extensions/GenericExtensions.cs:31-38 | the first five elements, each the default past the end |
| GenericExtensions.PaddedPrefix | LuzFaltex.Utilities/Extensions/GenericExtensions.cs:9-38 | padding to m and then to a smaller n is padding to n |
| GenericExtensions.SmallerArityAgrees | LuzFaltex.Utilities/Extensions/GenericExtensions.cs:9-38 | a deconstruction into fewer variables gives the first variables of one into more |
| GenericExtensions.ExtraElementsIgnored | LuzFaltex.Utilities/Extensions/GenericExtensions.cs:31-38 | elements past the fifth play no part |
| GenericExtensions.JohnDoe | LuzFaltex.Utilities.Tests/GenericExtensionsTests.cs:24-30 | `["John", "Doe"]` deconstructs into "John" and "Doe" |
| EnumTools.OrAllStep | LuzFaltex.Utilities/EnumTools.cs:14-15 | one more member ORs its bits into the mask |
| EnumTools.ParseFromValue | LuzFaltex.Utilities/EnumTools.cs:8-18 | the loop's mask is the OR of all members, and the result is the value's bits within it |
| EnumTools.MaskIsUnion | LuzFaltex.Utilities/EnumTools.cs:14-15 | a bit is in the mask exactly when some member has it |
| EnumTools.MemberComesBack | LuzFaltex.Utilities.Tests/EnumTests.cs:11-21 | a declared member's value comes back unchanged |
| EnumTools.ResultWithinMask | LuzFaltex.Utilities/EnumTools.cs:17 | the result has no bit outside the mask or outside the value, and feeding it back gives it again |
| EnumTools.DisjointGivesDefault | LuzFaltex.Utilities/EnumTools.cs:17 | a value sharing no bit with any member gives 0, the default |
| EnumTools.UnionOfMembersComesBack | LuzFaltex.Utilities.Tests/EnumTests.cs:23-33 | a value made only of members' bits comes back unchanged, defined as a member or not |

## Left out

- I/O, threads and hash codes: the library performs no I/O. `GetHashCode` and the `DebuggerDisplay` attribute have no behaviour to model.
- `FileSizes.ToString`: the quotient is a `double` formatted by the current culture. The model returns the dividend, the threshold and the suffix, not the digits.
- `FileSizes.ToKilobytes`: this and the other `To…` conversions return a `double` that holds an integer. They are modelled as that integer. Every `long >> k` for k of 10 and more is at most 2^53 in magnitude, so the `double` holds it exactly.
- `FileSizes.TryParse`: `char.IsDigit` accepts non-ASCII decimal digits and `ToLowerInvariant`/`Trim` handle all of Unicode. The model recognises ASCII digits and lowercases ASCII letters; its white space is that of `char.IsWhiteSpace`.
- `FileSizes.ParseLong`: `long.TryParse` is modelled only on the digit strings that the loop before it builds, which is all it is ever given there.
- The .NET `Dictionary` enumeration order: after a removal, .NET reuses the freed slot for the next insertion. The model removes the key from the order and appends new keys at the end.
- The read-only views `KeyValue` and `ValueKey`, `Keys`, `Values`, `IsReadOnly` and the obsolete `IDictionary.Remove`: plain field reads or delegations, with no behaviour beyond the members modelled.
- Null arguments other than the `source?.` of `Contains` and the null test of `FileSize.Parse`/`TryParse`. A .NET null argument throws `ArgumentNullException` or `NullReferenceException`. The model's parameters are never null, so `Add` of a dictionary extension never sees a null `source`.
- `Collections.BiDictionary.ExplicitConversion`: the C# operator passes an undefined name, `dic`, and so does not compile as written. The model takes the evident meaning, a call to the dictionary constructor.
- `DictionaryExtensions.AddRange`: requires `source` and `second` to be different objects; calling it with the same dictionary for both is not modelled.
- `StringExtensions.TruncateTo`, `StringExtensions.ExpandTo`, `StringExtensions.Left`, `StringExtensions.Right`: lengths and positions count Unicode scalar values, whereas .NET's `Length` and `Substring` count UTF-16 code units. The results agree with .NET only on text without characters above U+FFFF; for example .NET's `TruncateTo(1)` of the one-character string U+1F600 is a lone surrogate, which a Dafny string cannot hold.
- `StringExtensions.Contains`: the `StringComparison` argument is read as ordinal. Culture-sensitive and case-insensitive comparisons are not modelled, and a null `toCheck` (which throws) is not modelled.
- `TextColor`'s named colours are `static` fields that could be reassigned. They are modelled as constants with their initial codes.
- `EnumTools.ParseFromValue`: the members of the enum, which reflection supplies, are a parameter. A `long` is modelled as the set of its 1-bit positions, so `|` is union and `&` is intersection. `Enum.TryParse` of the number's decimal text always succeeds for a value that fits the enum's underlying type, and the model returns that value. The fallback to `default` on overflow of a narrower underlying type is not modelled.
- The enum `ExampleEnum` of the enum tests is not part of this model, so those tests are stated about members in general.
- `GenericExtensions`: the `default` of the element type is a parameter, since Dafny has no generic default value.
- The Discord helper `SocketGuildUserExtensions` and `MaxAttribute`: outside the modelled core.
