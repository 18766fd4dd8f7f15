# CRC-32 engine of AuroraLib.Cryptography, modelled in Dafny

This project models the CRC-32 hash of `AuroraLib.Cryptography` in three parts:

- **The catalog of predefined variants** (`Crc32Algorithm` and its four lookups `Polynomial`, `Reverse`,
  `Initial`, `XorOut`). This is the Dafny module `Crc32Info` in `crc32_info.dfy`.
- **The lookup-table generator and its per-key memo cache** (`Crc32TableCache`). This is `crc32_table_cache.dfy`.
  - `InitializeTable` keeps the source's form: an array of 256 words filled by two nested loops, one branch per direction.
  - The cache is a class whose `tables` map is updated in place.
- **The incremental hash object `Crc32`**. This is `crc32_engine.dfy`.
  - Its fields: the running accumulator (the only mutable one), the initial value, the XOR-out mask, the direction and the table.
  - Its operations: its three constructors, `Value`, `Compute` (the table path), `Reset` and `SetSeed`.

Every imperative operation is proved against a specification function:

- **The byte-level fold `Update`** folds one table lookup per byte over the input, from the left.
  - `Compute` is proved to leave exactly `Update(table, reflected, old value, input)` in the accumulator.
- **The bit-at-a-time reference `BitwiseUpdate`** is independent of the table: eight shift-and-XOR division steps per byte.
  - The central theorem, `UpdateIsBitwise`, proves that the generated table makes `Update` equal to `BitwiseUpdate` for every polynomial, direction, starting value and input.
  - So the table the generator builds really does implement division by the polynomial, in both directions.
- **Known check values** for a one-byte message follow from that theorem, for one variant in each direction (`crc32_known_answers.dfy`).

`bits.dfy` defines `SwapBits`, a 32-bit end-to-end bit reversal. The LSB-first table generator applies it to the polynomial.

About the naming: in the usual CRC terminology, "reflected" means LSB-first. This library's `Reverse`/`reflected` flag means the opposite. When `true`, it selects the **left-shifting, MSB-first** table and update. When `false`, it selects the right-shifting, LSB-first ones, with the bit-reversed polynomial. The model follows the library's code and keeps the flag with the library's meaning.

Integer widths: `uint` is `bv32` and `byte` is `bv8`. Shifts therefore drop the bits that leave the word, exactly as C#'s `uint` shifts do.

## Model

| member | source | states |
|---|---|---|
| Bits.SwapBits | src/AuroraLib.Cryptography/Hash/Crc32TableCache.cs:47 | bit `i` of the result is bit `31 - i` of the argument, for every position |
| Bits.SwapBitsInvolutive | src/AuroraLib.Cryptography/Hash/Crc32TableCache.cs:47 | reversing the polynomial twice gives it back, so the reversal loses nothing |
| Bits.SwapBitsOfStandardPolynomials | src/AuroraLib.Cryptography/Hash/Crc32TableCache.cs:47 | the reversal maps 0x04C11DB7 to 0xEDB88320 and 0x1EDC6F41 to 0x82F63B78, the usual reflected forms |
| Crc32Info.Polynomial | src/AuroraLib.Cryptography/Hash/Crc32Algorithm.cs:41-63 | the generator polynomial of each variant, one of five constants; `PolynomialFamilies` states which variants share each one |
| Crc32Info.Reverse | src/AuroraLib.Cryptography/Hash/Crc32Algorithm.cs:65-84 | the direction flag of each variant; `ReverseVariants` states exactly which six variants set it |
| Crc32Info.Initial | src/AuroraLib.Cryptography/Hash/Crc32Algorithm.cs:86-106 | the initial accumulator of each variant, one of three values; `InitialValues` states which variants start from each |
| Crc32Info.XorOut | src/AuroraLib.Cryptography/Hash/Crc32Algorithm.cs:108-127 | the final XOR mask of each variant, all ones or zero; `XorOutValues` states which variants use each |
| Crc32Info.PolynomialFamilies | src/AuroraLib.Cryptography/Hash/Crc32Algorithm.cs:41-63 | for each of the five polynomials, exactly which variants use it (both directions of each equivalence) |
| Crc32Info.ReverseVariants | src/AuroraLib.Cryptography/Hash/Crc32Algorithm.cs:65-84 | `Reverse` is true exactly for BZIP2, MPEG2, POSIX, SATA, XFER and CRC32Q |
| Crc32Info.InitialValues | src/AuroraLib.Cryptography/Hash/Crc32Algorithm.cs:86-106 | each of the three initial values is used by exactly the listed variants |
| Crc32Info.XorOutValues | src/AuroraLib.Cryptography/Hash/Crc32Algorithm.cs:108-127 | the XOR-out mask is all ones for exactly five variants and zero for exactly the other five |
| Crc32Info.JamCrcIsDefaultWithoutXorOut | src/AuroraLib.Cryptography/Hash/Crc32Algorithm.cs:14 | JAMCRC agrees with Default in polynomial, direction and initial value, and differs only in having no final XOR |
| Crc32Info.ConfigurationsDistinct | src/AuroraLib.Cryptography/Hash/Crc32Algorithm.cs:41-127 | two different variant names never give the same four-part configuration |
| Crc32TableCache.MsbFirstStepBranches | src/AuroraLib.Cryptography/Hash/Crc32TableCache.cs:36-39 | the MSB-first division step is the generator's two-way branch: shift and XOR the polynomial when bit 31 is set, otherwise only shift |
| Crc32TableCache.LsbFirstStepBranches | src/AuroraLib.Cryptography/Hash/Crc32TableCache.cs:54-57 | the LSB-first division step is the generator's two-way branch on bit 0, using the reversed polynomial |
| Crc32TableCache.Entry | src/AuroraLib.Cryptography/Hash/Crc32TableCache.cs:30-60 | table entry `i`: eight MSB-first division steps from `i << 24`, or eight LSB-first steps from `i` under the reversed polynomial; `MsbFirstEntry` and `LsbFirstEntry` prove the source's inner loops compute it, and `TableEntryZero` gives entry 0 |
| Crc32TableCache.Table | src/AuroraLib.Cryptography/Hash/Crc32TableCache.cs:27-62 | the 256 entries for a key, as a sequence; `InitializeTable` is proved to fill its array with exactly this, and `Cache.GetOrCreate` to return it |
| Crc32TableCache.MsbFirstEntry | src/AuroraLib.Cryptography/Hash/Crc32TableCache.cs:32-40 | the inner counting-down loop, seeded with `i << 24`, produces table entry `i` of the MSB-first table |
| Crc32TableCache.LsbFirstEntry | src/AuroraLib.Cryptography/Hash/Crc32TableCache.cs:50-58 | the inner loop, seeded with `i`, produces eight LSB-first division steps of `i` |
| Crc32TableCache.FillMsbFirst | src/AuroraLib.Cryptography/Hash/Crc32TableCache.cs:30-42 | after the outer loop, every one of the 256 array slots holds the MSB-first table entry for its index |
| Crc32TableCache.FillLsbFirst | src/AuroraLib.Cryptography/Hash/Crc32TableCache.cs:48-60 | after the outer loop, every one of the 256 array slots holds the LSB-first entry for its index, built from the reversed polynomial |
| Crc32TableCache.InitializeTable | src/AuroraLib.Cryptography/Hash/Crc32TableCache.cs:25-63 | returns a freshly allocated 256-entry array whose contents are the table for (polynomial, reverse) in both branches; the reversed polynomial stays local to the generator |
| Crc32TableCache.TableEntryZero | src/AuroraLib.Cryptography/Hash/Crc32TableCache.cs:27-62 | entry 0 of every table is 0, whatever the polynomial and direction |
| Crc32TableCache.MsbFirstPassThrough | src/AuroraLib.Cryptography/Hash/Crc32TableCache.cs:33-40 | bits below the top byte pass through the eight MSB-first steps unchanged (shifted up by eight), which is what lets a table indexed by the top byte stand in for the steps |
| Crc32TableCache.LsbFirstPassThrough | src/AuroraLib.Cryptography/Hash/Crc32TableCache.cs:51-58 | bits above the low byte pass through the eight LSB-first steps unchanged (shifted down by eight), which is what lets a table indexed by the low byte stand in for the steps |
| Crc32TableCache.Cache.constructor | src/AuroraLib.Cryptography/Hash/Crc32TableCache.cs:8 | the cache starts empty and every stored table is the table of its key |
| Crc32TableCache.Cache.GetOrCreate | src/AuroraLib.Cryptography/Hash/Crc32TableCache.cs:10-23 | always returns the table of the key; on a hit it returns the stored table and changes nothing; on a miss it stores the generated table under the key and nothing else |
| Crc32TableCache.GetOrCreateTwice | src/AuroraLib.Cryptography/Hash/Crc32TableCache.cs:10-23 | two requests for one key return the same table, and the second adds nothing to the cache |
| Crc32Engine.TableIndex | src/AuroraLib.Cryptography/Hash/Crc32.cs:97 | the `& 0xFF` index is always inside the 256-entry table |
| Crc32Engine.MsbFirstByteStep | src/AuroraLib.Cryptography/Hash/Crc32.cs:97 | one MSB-first byte: shift the accumulator left by eight and XOR the table entry indexed by its top byte XOR the input byte; `MsbFirstByteStepIsBitwise` proves that with the generated table it is eight bit-at-a-time division steps |
| Crc32Engine.LsbFirstByteStep | src/AuroraLib.Cryptography/Hash/Crc32.cs:104 | one LSB-first byte: shift the accumulator right by eight and XOR the table entry indexed by its low byte XOR the input byte; `LsbFirstByteStepIsBitwise` proves that with the generated table it is eight bit-at-a-time division steps |
| Crc32Engine.Update | src/AuroraLib.Cryptography/Hash/Crc32.cs:93-106 | the accumulator after the whole input, one byte step per byte from the left; `Compute`, `UpdateMsbFirst` and `UpdateLsbFirst` are proved to compute it, `UpdateConcat` gives streaming, and `UpdateIsBitwise` equates it with the bit-at-a-time remainder |
| Crc32Engine.Checksum | src/AuroraLib.Cryptography/Hash/Crc32.cs:18 | the visible checksum of a whole message: the fold from the initial value with the XOR-out mask applied; `ChecksumIsBitwise`, `EmptyChecksum` and the check values of `Crc32KnownAnswers` are stated on it |
| Crc32Engine.UpdateEmpty | src/AuroraLib.Cryptography/Hash/Crc32.cs:93-108 | feeding an empty input leaves the accumulator unchanged |
| Crc32Engine.UpdateSingle | src/AuroraLib.Cryptography/Hash/Crc32.cs:95-98 | feeding one byte is one table step |
| Crc32Engine.UpdateConcat | src/AuroraLib.Cryptography/Hash/Crc32.cs:76-108 | streaming: feeding `a` and then `b` reaches the same accumulator as feeding `a + b` at once |
| Crc32Engine.MsbFirstByteStepIsBitwise | src/AuroraLib.Cryptography/Hash/Crc32.cs:97 | one MSB-first table lookup equals eight MSB-first division steps of the accumulator with the byte XORed into its top byte |
| Crc32Engine.LsbFirstByteStepIsBitwise | src/AuroraLib.Cryptography/Hash/Crc32.cs:104 | one LSB-first table lookup equals eight LSB-first division steps of the accumulator with the byte XORed into its low byte |
| Crc32Engine.ByteStepIsBitwise | src/AuroraLib.Cryptography/Hash/Crc32.cs:93-106 | in either direction, one table step equals the bit-at-a-time reference step |
| Crc32Engine.UpdateIsBitwise | src/AuroraLib.Cryptography/Hash/Crc32.cs:93-106 | for every polynomial, direction, start value and input, the table-driven accumulator equals the bit-at-a-time remainder |
| Crc32Engine.ChecksumIsBitwise | src/AuroraLib.Cryptography/Hash/Crc32.cs:18 | the visible checksum of a message is the bit-at-a-time remainder with the XOR-out mask applied |
| Crc32Engine.EmptyChecksum | src/AuroraLib.Cryptography/Hash/Crc32.cs:18 | the checksum of the empty message is the initial value XOR the mask |
| Crc32Engine.NativeCrc32cEligible | src/AuroraLib.Cryptography/Hash/Crc32.cs:47 | the constructor's test for the hardware path: CRC32C's polynomial and direction on an SSE4.2 CPU; `NativeOnlyForCrc32c` states which variants pass it |
| Crc32Engine.NativeOnlyForCrc32c | src/AuroraLib.Cryptography/Hash/Crc32.cs:47 | among the predefined variants, the hardware path is chosen exactly for CRC32C on a CPU with SSE4.2 |
| Crc32Engine.UpdateMsbFirst | src/AuroraLib.Cryptography/Hash/Crc32.cs:93-99 | the left-shifting loop leaves the MSB-first fold of the input in the accumulator |
| Crc32Engine.UpdateLsbFirst | src/AuroraLib.Cryptography/Hash/Crc32.cs:100-106 | the right-shifting loop leaves the LSB-first fold of the input in the accumulator |
| Crc32Engine.Crc32.constructor | src/AuroraLib.Cryptography/Hash/Crc32.cs:39-54 | stores the direction, initial value and mask, starts the accumulator at the initial value, and takes from the cache the table of (polynomial, reflected), which the cache then holds under that key |
| Crc32Engine.Crc32.FromAlgorithm | src/AuroraLib.Cryptography/Hash/Crc32.cs:66-67 | the object is configured with the variant's four catalog values |
| Crc32Engine.Crc32.Default | src/AuroraLib.Cryptography/Hash/Crc32.cs:70-71 | the parameterless object is the IEEE 802.3 variant: 0x04C11DB7, LSB-first, all-ones start and mask |
| Crc32Engine.Crc32.Value | src/AuroraLib.Cryptography/Hash/Crc32.cs:18 | the visible value is the accumulator with the mask applied; XORing the mask again gives back the accumulator |
| Crc32Engine.Crc32.Compute | src/AuroraLib.Cryptography/Hash/Crc32.cs:74-109 | the new accumulator is the fold of the input from the old accumulator, in the object's direction, and nothing else changes |
| Crc32Engine.Crc32.Reset | src/AuroraLib.Cryptography/Hash/Crc32.cs:125-126 | the accumulator returns to the initial value |
| Crc32Engine.Crc32.SetSeed | src/AuroraLib.Cryptography/Hash/Crc32.cs:130-131 | the accumulator becomes the given seed |
| Crc32Engine.NewObjectAccumulator | src/AuroraLib.Cryptography/Hash/Crc32.cs:39-109 | a new object fed an input holds the fold of that input from the initial value, through the table of its key |
| Crc32Engine.EmptyInputValue | src/AuroraLib.Cryptography/Hash/Crc32.cs:74-109 | computing over an empty input leaves the accumulator at the initial value and the visible value as it was |
| Crc32Engine.ComputeInTwoParts | src/AuroraLib.Cryptography/Hash/Crc32.cs:74-109 | two `Compute` calls on consecutive pieces give the accumulator one call on the whole message gives |
| Crc32Engine.ComputeAfterReset | src/AuroraLib.Cryptography/Hash/Crc32.cs:125-126 | after `Reset`, whatever was consumed before is forgotten: the object behaves like a new one |
| Crc32Engine.ComputeAfterSetSeed | src/AuroraLib.Cryptography/Hash/Crc32.cs:130-131 | after `SetSeed(s)`, the object continues from `s`, whatever it had consumed before |
| Crc32KnownAnswers.LsbFirstChecksumOfLetterA | src/AuroraLib.Cryptography/Hash/Crc32.cs:100-106 | the LSB-first configuration with polynomial 0x04C11DB7 and all-ones start and mask maps the byte 0x61 to 0xE8B7BE43 |
| Crc32KnownAnswers.MsbFirstChecksumOfLetterA | src/AuroraLib.Cryptography/Hash/Crc32.cs:93-99 | the MSB-first configuration with polynomial 0x04C11DB7 and all-ones start and mask maps the byte 0x61 to 0x19939B6B |
| Crc32KnownAnswers.DefaultOfLetterA | src/AuroraLib.Cryptography/Hash/Crc32Algorithm.cs:10-11 | the Default variant's checksum of "a" is 0xE8B7BE43, the published CRC-32 value |
| Crc32KnownAnswers.Bzip2OfLetterA | src/AuroraLib.Cryptography/Hash/Crc32Algorithm.cs:12-13 | the BZIP2 variant's checksum of "a" is 0x19939B6B, the published CRC-32/BZIP2 value |

## Left out

- The `lock` around the cache is left out. The model is sequential, so the claim that concurrent first requests generate a table only once is not modelled.
- The cache is a static global in the library; here it is an object passed to the constructors.
- `Crc32Engine.Crc32.constructor`: always fetches the table from the cache. It does not model the field `_is_nativ_crc32c`, which on .NET 6 and later skips the table for CRC32C on SSE4.2 hardware. Only that choice itself is modelled, as `NativeCrc32cEligible` and `NativeOnlyForCrc32c`.
- `Crc32Engine.Crc32.Compute`: models only the table path. The SSE4.2 `crc32` instruction path is a foreign hardware call whose behaviour cannot be seen here.
- `GetBytes` and `Write` are left out. They only serialise `Value` to four bytes in machine byte order, through runtime helpers.
- The `IHash<uint>` interface plumbing and the `MethodImpl` inlining hints are left out; they do not change behaviour.
- `ByteSize` is modelled as a constant 4 with no contract of its own.
- The code of `BitConverterX.SwapBits` is not part of this model. `Bits.SwapBits` assumes it is a full 32-bit bit reversal.
- The table is held by the object as the sequence it denotes. The library shares one array between all objects of the same key, and that sharing is not modelled. No code writes to a table after generation, so the difference cannot be observed.
- The `default: throw` branches of the four catalog lookups cannot be reached in the model, because the Dafny match over the datatype is exhaustive. The C# enum can hold other integer values, and those values throw.
- The table generator's step is written with a mask, `-(bit)`, rather than an `if`. `MsbFirstStepBranches` and `LsbFirstStepBranches` prove that it equals the source's two branches, and the two entry loops keep those branches.
