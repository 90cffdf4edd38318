# FlakeGen in Dafny

A model of the core of FlakeGen. FlakeGen is a decentralised generator of
k-ordered identifiers: each id is built from a clock reading, a worker
identifier and a sequence number, so that the ids one generator issues
increase and never repeat.

The model covers three parts of FlakeGen:

- `IdGuidGenerator` (`id_guid.dfy`, module `IdGuid`). It is a class holding
  the two fields HandleTime updates (the last tick and the sequence), the
  epoch and the six worker bytes. Its members are:
  - the `long` and `byte[]` constructors, with the byte[] constructor's
    argument checks;
  - `HandleTime`, specified by the state function `Step`;
  - `NextId`, which packs the state into the eleven Guid constructor
    arguments (`Pack`), with the inverse `TimestampOf`/`WorkerOf`/`SequenceOf`;
  - `GenerateId`;
  - `Take`, the enumerator-based `Take(n).ToArray()` the tests use.

  The clock is a parameter. Each call receives the reading HandleTime would
  take first, and the reading it would take once its spin-wait returns.
  Ticks are DateTime ticks of 100 ns.
- `Encoder.Encode32` (`encoder.dfy`, module `Encoder`). It is a method over a
  13-character array that keeps the source's do-while loop. It is proved to
  compute the reference function `Encoded`: the base-32 digits of the
  number taken modulo 2^65, padded to 13 characters when asked. Round-trip,
  injectivity, length, alphabet and order lemmas are proved about
  `Encoded`.
- `IdStringGeneratorWrapper` (`string_wrapper.dfy`, module
  `StringWrapper`). It has:
  - the five predefined converters;
  - both constructors with their null checks;
  - the prefix normalisation;
  - `GenerateId`.

  It wraps the test double `FakeIdGenerator`, a class over a fixed list of
  longs with a cyclic index. Six test cases of `IdStringGeneratorWrapperTest`
  run over that fake: `VerifyToStringDefaul`, `VerifyBase32`,
  `VerifyBase32WithLeadingZero`, `VerifyToStringDefaulWithPrefix`,
  `VerifyUpperHex` and `VerifyLoweHex` (names spelled as in the source).
  They are methods whose postconditions are the expected strings.

Shared pieces:

- `common.dfy` holds:
  - the integer widths;
  - the `(short)` and `(int)` casts of NextId (`ToInt16`, `ToInt32`), and
    `ToInt64`, the reinterpretation the decoder `TimestampOf` uses;
  - the `Option`/`Result` wrappers and the exceptions of the constructors;
  - a few division lemmas.
- `ordering.dfy` holds:
  - the lexicographic order used for Guids and for ordinal strings;
  - the test helpers `AreSorted` and `AreUnique`, and the stable sort
    `SortedCopy` that stands for `OrderBy` in `AreSorted`.

The Guid order is field by field, each field compared unsigned. On the
k-ordering claim:

- The layout is k-ordered: `PackOrder` proves it for non-negative
  timestamps and 16-bit sequences.
- A run of calls yields sorted, unique ids when every step meets three
  conditions (`StaysInOrder`): it moves the clock state forward, the new
  last tick is at or after the epoch, and the new sequence is at most
  65535 (`RunIdsSortedAndUnique`, `Take`). Without the last one the state
  (t, 65536) packs like (t, 0).

The class comment of `IdGuidGenerator` speaks of "milliseconds since the
epoch". The code stores `DateTime.UtcNow.Ticks` (100 ns units) minus the
epoch's ticks. The model follows the code.

## Model

| member | source | states |
|---|---|---|
| Common.ToInt16 | src/FlakeGen/IdGuidGenerator.cs:250-251 | the `(short)` cast keeps exactly the low 16 bits of its argument |
| Common.ToInt32 | src/FlakeGen/IdGuidGenerator.cs:249 | the `(int)` cast keeps exactly the low 32 bits of its argument |
| Ordering.LexLessAppend | src/FlakeGen.Test/AssertUtil.cs:10-13 | comparing two concatenations with equal-length first parts: the first parts decide, the second parts only when the first are equal |
| Ordering.LexLessIrreflexive | src/FlakeGen.Test/AssertUtil.cs:10-13 | lexicographic order under an irreflexive element order is irreflexive |
| Ordering.LexLessAsymmetric | src/FlakeGen.Test/AssertUtil.cs:10-13 | lexicographic order under a strict element order is asymmetric |
| Ordering.PairwiseDistinctIsUnique | src/FlakeGen.Test/AssertUtil.cs:15-18 | pairwise distinct elements make the distinct count equal the count (AreUnique) |
| Ordering.AreUniqueIsPairwiseDistinct | src/FlakeGen.Test/AssertUtil.cs:15-18 | `AreUnique` (`Distinct().Count() == Count()`, the set of elements as large as the sequence) holds exactly when no two positions hold the same element |
| Ordering.DistinctCountAtMost | src/FlakeGen.Test/AssertUtil.cs:17 | a sequence never has more distinct elements than elements |
| Ordering.Insert | src/FlakeGen.Test/AssertUtil.cs:12 | one step of the stable `OrderBy` sort: the result holds the old elements plus the new one |
| Ordering.SortedCopy | src/FlakeGen.Test/AssertUtil.cs:12 | `ids.OrderBy(id => id)` as a stable insertion sort: a permutation of its input |
| Ordering.SortedIsItsSortedCopy | src/FlakeGen.Test/AssertUtil.cs:10-13 | for any order, a sequence in which no later element is below an earlier one equals its sorted copy |
| Ordering.InsertSorted | src/FlakeGen.Test/AssertUtil.cs:12 | under a strict weak order, inserting into a sorted sequence keeps it sorted |
| Ordering.SortedCopyIsSorted | src/FlakeGen.Test/AssertUtil.cs:12 | under a strict weak order, the sorted copy has no later element below an earlier one |
| Ordering.AreSortedIsSortedCopy | src/FlakeGen.Test/AssertUtil.cs:10-13 | `AreSorted` ("no later element is below an earlier one") holds exactly when `SequenceEqual(ids, ids.OrderBy(id => id))` does, under a strict weak order |
| Ordering.LexLessTransitive | src/FlakeGen.Test/AssertUtil.cs:12 | lexicographic order is transitive over a strict total element order |
| Ordering.LexLessTotal | src/FlakeGen.Test/AssertUtil.cs:12 | two sequences are equal or one is lexicographically below the other |
| Ordering.LexLessStrictWeak | src/FlakeGen.Test/AssertUtil.cs:12 | lexicographic order over a strict total element order is asymmetric and its "not below" is transitive |
| Ordering.OrdinalLessIsStrictWeakOrder | src/FlakeGen.Test/AssertUtil.cs:12 | ordinal string order is a strict weak order, so `AreSortedIsSortedCopy` applies to it |
| Ordering.IncreasingIsSortedAndUnique | src/FlakeGen.Test/AssertUtil.cs:10-18 | a strictly increasing sequence satisfies both AreSorted and AreUnique |
| Encoder.PadLeft | src/FlakeGen/Encoder.cs:25 | `PadLeft(13, '0')`: the result has length max(13, \|s\|), ends with s, and everything before s is '0' |
| Encoder.AlphabetAt | src/FlakeGen/Encoder.cs:10 | character d of the 32-character alphabet is a digit character whose position is d |
| Encoder.AlphabetAscending | src/FlakeGen/Encoder.cs:10 | the alphabet is strictly ascending and holds exactly the digit characters, each at its own position |
| Encoder.DigitsRoundTrip | src/FlakeGen/Encoder.cs:17-22 | the digits of m are alphabet characters and read back as m |
| Encoder.DigitsLength | src/FlakeGen/Encoder.cs:14-22 | m has at most k digits exactly when m < 32^k (so the 13-slot buffer fits every 65-bit value) |
| Encoder.DigitsNoLeadingZero | src/FlakeGen/Encoder.cs:22 | the first digit is '0' only for the number 0 |
| Encoder.DigitsAt | src/FlakeGen/Encoder.cs:19-20 | digit k from the right is `EncodingChars[(m >> 5k) & 0x1F]` |
| Encoder.ValueCompare | src/FlakeGen/Encoder.cs:10 | on digit strings of equal length, ordinal order is numeric order and equal values mean equal strings |
| Encoder.ValueZeroPrefix | src/FlakeGen/Encoder.cs:25 | leading '0' characters do not change the value a digit string reads as |
| Encoder.EncodedDigits | src/FlakeGen/Encoder.cs:12-26 | the encoded number is the long taken modulo 2^65 (the long itself when non-negative, at least 2^60 when negative); the output ends with its digits and is '0' before them |
| Encoder.EncodedLength | src/FlakeGen/Encoder.cs:14-25 | the output has 1 to 13 characters; exactly 13 with padding or for a negative number |
| Encoder.EncodedAllDigits | src/FlakeGen/Encoder.cs:19 | every output character is a digit character |
| Encoder.EncodedAlphabet | src/FlakeGen/Encoder.cs:10-19 | every output character is in EncodingChars |
| Encoder.EncodedValue | src/FlakeGen/Encoder.cs:12-26 | the output read as base 32 is the number modulo 2^65, padded or not |
| Encoder.EncodedRoundTrip | src/FlakeGen/Encoder.cs:12-26 | for a non-negative number, reading the output as base 32 gives the number back |
| Encoder.EncodedNoLeadingZero | src/FlakeGen/Encoder.cs:17-24 | the unpadded output starts with '0' exactly when the number is 0, and 0 encodes as "0" |
| Encoder.EncodedInjective | src/FlakeGen/Encoder.cs:12-26 | equal outputs (padded or not) come only from equal longs |
| Encoder.EncodedOrder | src/FlakeGen/Encoder.cs:12-26 | for 0 <= a < b the padded output of a is ordinally below that of b, and so are the unpadded ones of equal length |
| Encoder.EncodedDigitAt | src/FlakeGen/Encoder.cs:19-20 | for every long, negative ones included, output digit k from the right is the alphabet at `(number >> 5k) & 0x1F` |
| Encoder.EncodedNonNegative | src/FlakeGen/Encoder.cs:12-26 | for a non-negative long the output is its plain base-32 digits, padded when asked |
| Encoder.LowGroups | src/FlakeGen/Encoder.cs:19-20 | below 13 groups, the k-th five-bit group of a number is unchanged by taking it modulo 2^65, so the arithmetic shift of a negative long yields the same digits |
| Encoder.Pow32Split | src/FlakeGen/Encoder.cs:20 | shifting by 5(a+b) bits is shifting by 5a and then by 5b: 32^(a+b) = 32^a · 32^b |
| Encoder.DigitsInAlphabet | src/FlakeGen/Encoder.cs:19 | every digit written in a given alphabet is a character of that alphabet |
| Encoder.SevenThenVs | src/FlakeGen/Encoder.cs:17-22 | 8·32^i − 1 is written as '7' followed by i 'V' characters |
| Encoder.EncodedExamples | src/FlakeGen.Test/IdStringGeneratorWrapperTest.cs:52-80 | 0, 1, 10, 63, 64 and long.MaxValue encode as "0", "1", "A", "1V", "20", "7VVVVVVVVVVVV", and padded to 13 characters with '0' |
| Encoder.StepDigit | src/FlakeGen/Encoder.cs:19-20 | one pass writes the low five bits as the last digit and leaves the digits of the shifted number still to write |
| Encoder.LoopStep | src/FlakeGen/Encoder.cs:17-22 | each pass of the do-while loop establishes or keeps the loop invariant: owed digits followed by written digits are the digits of the number mod 2^65 |
| Encoder.ShiftBounds | src/FlakeGen/Encoder.cs:20 | after the arithmetic shift `>>= 5` the remaining number lies in [−8·32^(i−1), 32^i) when i slots remain |
| Encoder.LoopExit | src/FlakeGen/Encoder.cs:22-24 | when the buffer is full or the number is 0, the written slots are the full digit string |
| Encoder.Encode32 | src/FlakeGen/Encoder.cs:12-26 | the method returns exactly `Encoded(number, withLeadingZero)` |
| IdGuid.WorkerFromLong | src/FlakeGen/IdGuidGenerator.cs:164-171 | the six bytes the `long` constructor keeps spell the identifier modulo 2^48 (bytes 6 and 7 are dropped) |
| IdGuid.ByteAt | src/FlakeGen/IdGuidGenerator.cs:166-171 | `(byte)(identifier >> 8k & 0xff)` is byte k of the identifier: its value modulo 256^(k+1) divided by 256^k |
| IdGuid.Pack | src/FlakeGen/IdGuidGenerator.cs:246-259 | the eleven Guid arguments: the unsigned fields are the timestamp's three fields, the worker bytes and the two sequence bytes; the worker bytes and the sequence modulo 2^16 read back out |
| IdGuid.TimestampFieldsValue | src/FlakeGen/IdGuidGenerator.cs:249-251 | the three timestamp fields spell the timestamp modulo 2^64 |
| IdGuid.TimestampRoundTrip | src/FlakeGen/IdGuidGenerator.cs:246-251 | the timestamp NextId packs into a, b, c decodes back to the same long |
| IdGuid.PackRoundTrip | src/FlakeGen/IdGuidGenerator.cs:246-259 | packing is exact: timestamp, worker bytes and a 16-bit sequence all come back out of the Guid |
| IdGuid.TimestampFieldsOrder | src/FlakeGen/IdGuidGenerator.cs:249-251 | for non-negative timestamps the unsigned fields compare (and are equal) exactly as the timestamps do |
| IdGuid.SequenceFieldsOrder | src/FlakeGen/IdGuidGenerator.cs:258-259 | for 16-bit sequences the two sequence bytes compare (and are equal) exactly as the sequences do |
| IdGuid.PackOrder | src/FlakeGen/IdGuidGenerator.cs:246-259 | k-ordering of the layout: for one worker, Guid order is timestamp order, then sequence order |
| IdGuid.GuidLessStrict | src/FlakeGen/IdGuidGenerator.cs:248-259 | the Guid order is irreflexive and asymmetric |
| IdGuid.GuidLessIsStrictWeakOrder | src/FlakeGen.Test/AssertUtil.cs:12 | the Guid order is a strict weak order, so `AreSortedIsSortedCopy` applies to it |
| IdGuid.Step | src/FlakeGen/IdGuidGenerator.cs:211-240 | HandleTime's three branches: the new last tick; the sequence is bumped exactly when the reading equals the last tick and reset to 0 otherwise; the state moves forward exactly when the clock did not go back or resumed past the last tick |
| IdGuid.RunIncreases | src/FlakeGen/IdGuidGenerator.cs:211-240 | along a run that stays in order, the states strictly increase, sit at or after the epoch and keep 16-bit sequences |
| IdGuid.RunIdsIncrease | src/FlakeGen/IdGuidGenerator.cs:242-260 | the ids of a run that stays in order strictly increase in Guid order |
| IdGuid.RunIdsSortedAndUnique | src/FlakeGen.Test/IdGuidGeneratorTest.cs:37-55 | the ids of a run that stays in order satisfy AreSorted and AreUnique, the two assertions of UniqueGuidIds and SortableGuidIds, and equal their own sorted copy |
| IdGuid.SequenceOverflowRepeatsId | src/FlakeGen/IdGuidGenerator.cs:258-259 | only 16 bits of the sequence reach the Guid: sequence k + 65536 on the same tick issues the same id as sequence k |
| IdGuid.StepStaysInOrder | src/FlakeGen/IdGuidGenerator.cs:215-239 | HandleTime as written keeps a run in order when readings are at or after the epoch, no tick overflows 16 bits, and every backward reading resumes strictly past the last tick |
| IdGuid.ResumeAtLastTickRepeatsId | src/FlakeGen/IdGuidGenerator.cs:228-239 | as written, a clock that steps back and resumes exactly at the last tick yields the same id twice |
| IdGuid.StepFixed | src/FlakeGen/IdGuidGenerator.cs:211-240 | the corrected HandleTime always moves the state strictly forward and never lands before the reading |
| IdGuid.StepFixedStaysInOrder | src/FlakeGen/IdGuidGenerator.cs:211-240 | the corrected HandleTime keeps every run in order, with no hypothesis on backward readings |
| IdGuid.ResumeAtLastTickFixed | src/FlakeGen/IdGuidGenerator.cs:228-239 | on that same input the corrected step issues strictly increasing ids |
| IdGuid.EffectiveEpoch | src/FlakeGen/IdGuidGenerator.cs:156 | an epoch of 0 becomes DefaultEpoch's ticks (1970-01-01); any other epoch is kept |
| IdGuid.IdGuidGenerator.FromLong | src/FlakeGen/IdGuidGenerator.cs:164-174 | the worker bytes are the identifier's six low-order bytes (its value modulo 2^48), the epoch is the effective epoch, and the state starts at (0, 0) |
| IdGuid.IdGuidGenerator.FromBytes | src/FlakeGen/IdGuidGenerator.cs:149-156 | the worker bytes are the first six bytes of the array, with the effective epoch and state (0, 0) |
| IdGuid.IdGuidGenerator.Create | src/FlakeGen/IdGuidGenerator.cs:137-157 | a null identifier throws ArgumentNullException, fewer than six bytes throws ArgumentException (both naming "identifier"), otherwise a fresh generator over the first six bytes |
| IdGuid.IdGuidGenerator.HandleTime | src/FlakeGen/IdGuidGenerator.cs:211-240 | the new state is `Step` of the old one; the last tick never decreases exactly when the spin-wait's condition held; the state moves forward exactly when the reading advances it |
| IdGuid.IdGuidGenerator.NextId | src/FlakeGen/IdGuidGenerator.cs:242-260 | the id is the packing of the new state; when the state moves forward within 16-bit sequences after the epoch, the id is above the previous one |
| IdGuid.IdGuidGenerator.GenerateId | src/FlakeGen/IdGuidGenerator.cs:186-192 | the same as NextId |
| IdGuid.IdGuidGenerator.Take | src/FlakeGen.Test/IdGuidGeneratorTest.cs:37-55 | `Take(n)` returns the ids of the run from the starting state and leaves its final state; when the run stays in order the ids are sorted and unique |
| IdGuid.ExampleWorkerBytes | src/FlakeGen.Test/IdGuidGeneratorTest.cs:91-96 | the identifier 0x0123456789abcdef keeps the bytes EF CD AB 89 67 45, least significant first |
| IdGuid.IdentifierUsesLowOrderBytes | src/FlakeGen.Test/IdGuidGeneratorTest.cs:91-107 | fields d to i of the id (bytes 8 to 13 of the Guid) are 45 67 89 AB CD EF |
| StringWrapper.NormalizePrefix | src/FlakeGen/IdStringGeneratorWrapper.cs:64 | a null prefix becomes the empty string; any other prefix is kept (empty stays empty) |
| StringWrapper.FakeCycles | src/FlakeGen.Test/IdStringGeneratorWrapperTest.cs:22-28 | call number c of a fresh fake generator over n ids reads slot c mod n, and its index stays within 0..n |
| StringWrapper.FakeIdGenerator.constructor | src/FlakeGen.Test/IdStringGeneratorWrapperTest.cs:17-21 | the generator holds a copy of the ids, with index 0 |
| StringWrapper.FakeIdGenerator.GenerateId | src/FlakeGen.Test/IdStringGeneratorWrapperTest.cs:22-28 | returns the id in the current slot, after going back to slot 0 at the end of the list, and moves the index one slot on; call number c returns fakeIds[c mod n] |
| StringWrapper.IdStringGeneratorWrapper.constructor | src/FlakeGen/IdStringGeneratorWrapper.cs:62-64 | the wrapper keeps the base generator and the converter, and the normalised prefix |
| StringWrapper.IdStringGeneratorWrapper.Create | src/FlakeGen/IdStringGeneratorWrapper.cs:53-65 | a null base generator or null converter throws ArgumentNullException naming it (the base generator checked first); otherwise a fresh wrapper |
| StringWrapper.IdStringGeneratorWrapper.CreateDefault | src/FlakeGen/IdStringGeneratorWrapper.cs:48-51 | the two-argument constructor is the three-argument one with the Default converter |
| StringWrapper.IdStringGeneratorWrapper.GenerateId | src/FlakeGen/IdStringGeneratorWrapper.cs:69-72 | draws exactly one id from the base generator and returns the prefix followed by the converted id; call number c converts fakeIds[c mod n] |
| StringWrapper.PrefixKeepsOrder | src/FlakeGen/IdStringGeneratorWrapper.cs:71 | a common prefix does not change ordinal order |
| StringWrapper.Base32KeepsUnique | src/FlakeGen/IdStringGeneratorWrapper.cs:28-32 | distinct longs stay distinct under Base32 or Base32LeadingZero with any prefix (AreUnique) |
| StringWrapper.Base32LeadingZeroKeepsOrder | src/FlakeGen/IdStringGeneratorWrapper.cs:31-32 | increasing non-negative longs give ordinally increasing, sorted and unique strings under Base32LeadingZero with any prefix, equal to their ordinal sorted copy |
| StringWrapper.DigitsOfList | src/FlakeGen/IdStringGeneratorWrapper.cs:13-26 | the digits of the number a digit list spells are that list's characters |
| StringWrapper.SpellDigits | src/FlakeGen/IdStringGeneratorWrapper.cs:13-26 | a digit list without a leading zero spells exactly the digits of its value |
| StringWrapper.DecimalOf | src/FlakeGen/IdStringGeneratorWrapper.cs:13-14 | `ToString()`: a non-empty string that starts with '-' exactly for a negative long, every other character a decimal digit |
| StringWrapper.UpperHexOf | src/FlakeGen/IdStringGeneratorWrapper.cs:19-20 | `ToString("X")`: upper-case hexadecimal digits only; for a non-negative long, exactly its hexadecimal digits |
| StringWrapper.HexLowerCase | src/FlakeGen/IdStringGeneratorWrapper.cs:25-26 | the lower-case hexadecimal digits of a number are its upper-case ones, letter by letter lowered |
| StringWrapper.LowerHexOf | src/FlakeGen/IdStringGeneratorWrapper.cs:25-26 | `ToString("x")`: the "X" string with A-F lowered, of the same length; for a non-negative long, exactly its lower-case hexadecimal digits |
| StringWrapper.PredefinedConverters | src/FlakeGen/IdStringGeneratorWrapper.cs:13-32 | the five converters Default, UpperHex, LowerHex, Base32 and Base32LeadingZero are the formats above and the two encodings; both encodings read back as the long modulo 2^65 |
| StringWrapper.PlainDigits | src/FlakeGen.Test/IdStringGeneratorWrapperTest.cs:44-50 | the decimal digits of 5416969582936064 are "5416969582936064" |
| StringWrapper.PrefixedIdDigits | src/FlakeGen.Test/IdStringGeneratorWrapperTest.cs:82-88 | the decimal digits of 5416969582936001 are "5416969582936001" |
| StringWrapper.DecimalExample | src/FlakeGen.Test/IdStringGeneratorWrapperTest.cs:44-50 | 5416969582936064 prints as "5416969582936064" |
| StringWrapper.DecimalPrefixExample | src/FlakeGen.Test/IdStringGeneratorWrapperTest.cs:82-88 | 5416969582936001 prints as "5416969582936001" |
| StringWrapper.UpperHexExample | src/FlakeGen.Test/IdStringGeneratorWrapperTest.cs:90-97 | 0x7f23f22ffcdffff1 formats with "X" as "7F23F22FFCDFFFF1" |
| StringWrapper.LowerHexExample | src/FlakeGen.Test/IdStringGeneratorWrapperTest.cs:99-106 | 0x7f23f22ffcdfffc1 formats with "x" as "7f23f22ffcdfffc1" |
| StringWrapper.VerifyToStringDefault | src/FlakeGen.Test/IdStringGeneratorWrapperTest.cs:44-50 | a default wrapper over a fake holding 5416969582936064 returns "5416969582936064" |
| StringWrapper.VerifyToStringDefaultWithPrefix | src/FlakeGen.Test/IdStringGeneratorWrapperTest.cs:82-88 | with prefix "x" it returns "x5416969582936001" |
| StringWrapper.VerifyUpperHex | src/FlakeGen.Test/IdStringGeneratorWrapperTest.cs:90-97 | the UpperHex wrapper returns "7F23F22FFCDFFFF1" |
| StringWrapper.VerifyLowerHex | src/FlakeGen.Test/IdStringGeneratorWrapperTest.cs:99-106 | the LowerHex wrapper returns "7f23f22ffcdfffc1" |
| StringWrapper.WrapEach | src/FlakeGen.Test/IdStringGeneratorWrapperTest.cs:52-80 | as many wrapper calls as the fake holds ids return each id once, in order, converted and after the prefix |
| StringWrapper.Base32Expected | src/FlakeGen.Test/IdStringGeneratorWrapperTest.cs:52-65 | the six Base32 results of the test are "0", "1", "A", "1V", "20", "7VVVVVVVVVVVV" |
| StringWrapper.Base32LeadingZeroExpected | src/FlakeGen.Test/IdStringGeneratorWrapperTest.cs:67-80 | the six Base32LeadingZero results of the test are the same digits padded with '0' to 13 characters |
| StringWrapper.VerifyBase32 | src/FlakeGen.Test/IdStringGeneratorWrapperTest.cs:52-65 | six calls of a Base32 wrapper over the fake return the six expected strings |
| StringWrapper.VerifyBase32WithLeadingZero | src/FlakeGen.Test/IdStringGeneratorWrapperTest.cs:67-80 | six calls of a Base32LeadingZero wrapper over the fake return the six expected padded strings |

## Left out

- Locking: `GenerateId` takes a monitor lock around `NextId`. The model is
  sequential, so it does not cover the lock or the multi-threaded test
  (IdGuidGeneratorTest.cs:57-89).
- The clock: `DateTime.UtcNow` and `SpinWait.SpinUntil` are not modelled as
  calls. Each call receives the first reading and the reading taken after
  the spin-wait as a `Reading`. That the spin-wait's condition held is the
  predicate `SpinSatisfied`, a hypothesis rather than a fact, because the
  second read is a separate clock read.
- IdGuid.StepStaysInOrder: the `Debug.Assert(_sequence <= 65535)` is not a
  check in release builds. The model states it as the hypothesis
  `NoOverflow` on a run rather than proving it. Overflow needs 65536
  calls between two distinct clock readings. How often readings repeat
  depends on the clock's resolution, which can be milliseconds rather than
  one 100 ns tick, so it is within reach. The model assumes it does not
  happen; `SequenceOverflowRepeatsId` shows that the id then repeats.
- The public constructors that only forward to the two private ones
  (IdGuidGenerator.cs:62-124) are not separate members. `DateTime epoch`
  arguments are their `Ticks`, and `DefaultEpoch` is the constant
  `DefaultEpochTicks`.
- `GetEnumerator` (both classes) yields `GenerateId()` forever. It appears
  only through finite prefixes: `Take` for the Guid generator, which takes
  one reading per id, and `WrapEach` for the string wrapper.
- `Guid.ToByteArray` byte order: `IdentifierUsesLowOrderBytes` states the
  Guid constructor arguments d to i. Those are bytes 8 to 13 of
  `ToByteArray`, which copies them in order.
- `long.ToString()` and `ToString("X")`/`ToString("x")` are modelled as
  decimal digits with a '-' sign, and as the 64-bit two's complement
  pattern in hexadecimal. Culture-specific formatting is not modelled.
- `AssertUtil.AreSorted` on strings sorts with `Comparer<string>.Default`,
  a culture-sensitive order. The model uses the ordinal order
  (`OrdinalLess`) and promises nothing about the culture order. The two
  can differ on the wrapper's strings: under Czech collation "CH" is one
  letter after "H", so the padded encodings of 401 ("…CH") and 402
  ("…CI") sort the other way round and the C# check depends on the
  culture it runs in.
- The wrapper's base generator is typed `IIdGenerator<long>`. Traits are
  not used here, so the wrapper holds the test double `FakeIdGenerator`,
  the only `IIdGenerator<long>` that the modelled tests use.
  `Id64Generator` is not part of this model.
- The eight `Id64Generator` test cases of `IdStringGeneratorWrapperTest`
  (IdStringGeneratorWrapperTest.cs:111-202: `UniqueDefaultToStringIds`,
  `UniqueUpperHexIds`, `UniqueLowerHexIds`, `SortedDefaultToStringIds`,
  `SortedUpperHexIds`, `SortedLowerHexIds`, `UniqueBase64Ids`,
  `SortedBase64Ids`) go with it. `SortedBase64Ids` uses the unpadded
  `Base32`; for unpadded output the model proves order only between
  outputs of equal length (`EncodedOrder`), and `Base32LeadingZeroKeepsOrder`
  is about the padded converter.
- StringWrapper.FakeIdGenerator.GenerateId: an empty id list makes the C#
  code index outside its array. The model excludes it with a precondition
  instead of modelling the IndexOutOfRangeException.
- StringWrapper.VerifyBase32: the expected strings are stated per call
  index, not as the equality of whole arrays.
- The console program (src/FlakeGenConsole/Program.cs) and the timing
  tests are not modelled.

## Findings

| source | as written | input that shows it | evidently intended | confidence | as-written member | corrected member |
|---|---|---|---|---|---|---|
| src/FlakeGen/IdGuidGenerator.cs:228-239 | after the clock goes back, HandleTime waits until the clock is at or past `_lastTicks`, then takes the new reading as `_lastTicks` with sequence 0, even when that reading equals the old `_lastTicks` | state (t, 0) after an id at tick t; the next call reads t − 1, waits, and reads t again: the state is (t, 0) again and the same Guid is issued twice | a resumed reading equal to the last tick continues that tick's sequence (or the wait waits for a strictly later tick), so ids never repeat | not executed | IdGuid.ResumeAtLastTickRepeatsId | IdGuid.StepFixed, IdGuid.StepFixedStaysInOrder |

The generator class keeps HandleTime as written (`Step`), since it models
the source's lines. The run lemmas `RunIncreases`, `RunIdsIncrease` and
`RunIdsSortedAndUnique` take the step function as a parameter. With
`StepFixedStaysInOrder` they give sorted, unique ids for every run of the
corrected step. For the step as written, they need the extra hypothesis
`ResumesLater`.
