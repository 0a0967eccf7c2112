# Date packer of tools4j/time, modelled in Dafny

tools4j/time packs a calendar date (year, month, day) into one Java `int`
without allocating. `DatePacker` offers two packings.

- **BINARY** stores the year's low 14 bits from bit 9, the month's low 4 bits from bit 5 and the day's low 5 bits from bit 0.
- **DECIMAL** stores `year*10000 + month*100 + day`, so 21-Jan-2017 becomes 20170121.

Both raw codecs do no checking. The `Validated` decorator wraps a packer with
one of three validation methods:

- `UNVALIDATED`;
- `INVALIDATE_RESULT`, which returns `INVALID = -1`;
- `THROW_EXCEPTION`, which throws a `DateTimeException`.

It checks the fields before packing and after unpacking, then hands the
arithmetic to the wrapped packer. A set of default methods is shared by every
packer:

- the `NULL = 0` sentinel;
- `isValid`, `validate` and `forValidationMethod`;
- `packFromDate`.

A 2×3 table of cached instances is indexed by packing and validation method.

The project has five modules, one per file:

| file | module | models |
|---|---|---|
| `java_int.dfy` | `JavaInt` | Java `int`: 32-bit wrap-around, the unsigned reading behind `>>>`, and truncating `/` and `%` |
| `date_validator.dfy` | `DateValidator` | the validation methods, the legal year, month and day ranges (Gregorian leap rule), and how a failed check is reported |
| `date_packer.dfy` | `DatePacking` | the BINARY and DECIMAL codecs, the `Validated` decorator (a recursive datatype, so decorators may nest as in Java), and the default methods as functions over a packer value |
| `packer_instances.dfy` | `PackerInstances` | the instance table as a class over a 2-D array, filled by the same nested loops as the source |
| `date_packer_lemmas.dfy` | `DatePackerLemmas` | the properties: layouts and round trips, order preservation, behaviour on legal and illegal dates, sentinels, `isValid`/`validate`, and `packFromDate` |

## How the model represents the source

- A call that returns an `int` or throws becomes an `Outcome`.
  - `Returned(v)` is the `int` the method returns.
  - `Thrown(field, value)` is the `DateTimeException`, with the field it names and that field's value.
- `INVALID` is `Returned(-1)`, exactly as in Java. So the `!= DateValidator.INVALID` tests in `Validated.pack` and `validate` are modelled literally.
- A `& (2^k-1)` mask is Euclidean `% 2^k`.
- `>>> k` divides the unsigned reading of the 32 bits (`Unsigned`). So the binary codec reads year 16383, month 15 and day 31 from `INVALID`.
- DECIMAL uses Java's truncating `/` and `%` (`Quot`, `Rem`).
- The decimal pack wraps modulo 2^32 as Java does. No precondition on the year is needed.
- `DateValidator` is not part of this model's source, so its rules are derived from the packer's test vectors.
  - The year must be in 1..9999.
  - The month must be in 1..12.
  - The day must be in 1..days-in-month, under the Gregorian leap rule.
  - A day of -1 is rejected, as the tests require.
  - A whole-date check reports the year first, then the month, then the day. This order is an assumption: no test vector has more than one illegal field.
- The enum ordinals are assumed to be BINARY=0 and DECIMAL=1, and UNVALIDATED=0, INVALIDATE_RESULT=1 and THROW_EXCEPTION=2. `Packing.java` and `ValidationMethod.java` are not part of this model. The table's correctness does not depend on the order: `Ordinal` and `...ByOrdinal` are inverse bijections.

## Model

| member | source | states |
|---|---|---|
| `JavaInt.Wrap` | src/main/java/org/tools4j/time/pack/DatePacker.java:303-305 | the result is the `int` congruent to the exact value modulo 2^32, and is that value when it fits |
| `JavaInt.Unsigned` | src/main/java/org/tools4j/time/pack/DatePacker.java:266-273 | the unsigned reading of an `int` lies in [0, 2^32) and is congruent to it (what `>>>` shifts) |
| `JavaInt.Quot` | src/main/java/org/tools4j/time/pack/DatePacker.java:308-310 | Java's `/` by a positive divisor rounds toward zero: it brackets a non-negative dividend from below and a negative one from above |
| `JavaInt.Rem` | src/main/java/org/tools4j/time/pack/DatePacker.java:313-320 | Java's `%` satisfies `a == (a/b)*b + a%b`, and the remainder takes the sign of the dividend with magnitude below the divisor |
| `DateValidator.ValidationMethod.Ordinal` | src/main/java/org/tools4j/time/pack/DatePacker.java:401 | ordinals are below 3 and 0 is exactly UNVALIDATED |
| `DateValidator.ValidationMethodByOrdinal` | src/main/java/org/tools4j/time/pack/DatePacker.java:405-407 | `valueByOrdinal` inverts `ordinal` |
| `DateValidator.DaysInMonth` | src/test/java/org/tools4j/time/pack/DatePackerTest.java:57-87 | February has 29 days in Gregorian leap years and 28 otherwise; April, June, September and November have 30; every other month has 31 |
| `DateValidator.FirstInvalidField` | src/test/java/org/tools4j/time/format/DateParserTest.java:213-231 | an illegal date is reported against its one illegal field, as every invalid vector has exactly one; when several are illegal the year comes first, then the month (an assumed order) |
| `DateValidator.Reject` | src/main/java/org/tools4j/time/pack/DatePacker.java:91-96 | an illegal field yields INVALID under INVALIDATE_RESULT and an exception naming the field and its value under THROW_EXCEPTION |
| `DateValidator.ValidateYear` | src/test/java/org/tools4j/time/pack/DatePackerTest.java:180-182 | a legal year (1..9999), or any year when unvalidated, is returned unchanged; otherwise it is rejected as a year |
| `DateValidator.ValidateMonth` | src/test/java/org/tools4j/time/pack/DatePackerTest.java:183-185 | a legal month (1..12), or any month when unvalidated, is returned unchanged; otherwise it is rejected as a month |
| `DateValidator.ValidateDay` | src/test/java/org/tools4j/time/pack/DatePackerTest.java:178-197 | the day comes back unchanged for a legal date (or when unvalidated); otherwise the first illegal field is rejected; under INVALIDATE_RESULT the result is INVALID exactly for illegal dates |
| `DateValidator.LegalDateVectors` | src/test/java/org/tools4j/time/pack/DatePackerTest.java:57-87 | every date the tests list as valid, leap days of 2016, 2000, 1600, 400 and 4 included, is legal |
| `DateValidator.IllegalDateVectors` | src/test/java/org/tools4j/time/pack/DatePackerTest.java:178-197 | every triple the tests list as invalid is illegal: years 0, -1 and 10000; months 0, -1 and 13; days 0, -1 and 32; 29 February 2017 and 1900; 30 February; 31 April, June, September and November |
| `DatePacking.PackingByOrdinal` | src/main/java/org/tools4j/time/pack/DatePacker.java:396 | the packing with a given ordinal; inverts `ordinal` |
| `DatePacking.Packing.Ordinal` | src/main/java/org/tools4j/time/pack/DatePacker.java:400 | packing ordinals are below the packing count 2 |
| `DatePacking.BinaryPack` | src/main/java/org/tools4j/time/pack/DatePacker.java:261-263 | a binary packed date lies in [0, 2^23) whatever the input |
| `DatePacking.BinaryUnpackYear` | src/main/java/org/tools4j/time/pack/DatePacker.java:266-268 | the unpacked year is a 14-bit value, never negative |
| `DatePacking.BinaryUnpackMonth` | src/main/java/org/tools4j/time/pack/DatePacker.java:271-273 | the unpacked month is a 4-bit value |
| `DatePacking.BinaryUnpackDay` | src/main/java/org/tools4j/time/pack/DatePacker.java:276-278 | the unpacked day is a 5-bit value |
| `DatePacking.DecimalPack` | src/main/java/org/tools4j/time/pack/DatePacker.java:303-305 | without overflow the packed value is `year*10000 + month*100 + day` |
| `DatePacking.DecimalUnpackYear` | src/main/java/org/tools4j/time/pack/DatePacker.java:308-310 | the unpacked year is within ±214748 and rounds toward zero: `r*10000 <= packed < r*10000 + 10000` for a non-negative value, mirrored for a negative one |
| `DatePacking.DecimalUnpackMonth` | src/main/java/org/tools4j/time/pack/DatePacker.java:313-315 | the unpacked month lies strictly between -100 and 100 |
| `DatePacking.DecimalUnpackDay` | src/main/java/org/tools4j/time/pack/DatePacker.java:318-320 | the unpacked day lies strictly between -100 and 100 |
| `DatePacking.InstanceOf` | src/main/java/org/tools4j/time/pack/DatePacker.java:395-397 | the cached instance has the requested packing and validation method |
| `DatePacking.Pack` | src/main/java/org/tools4j/time/pack/DatePacker.java:356-362 | for a legal date any packer, decorated or not and however nested, returns exactly what the raw codec of its packing returns |
| `DatePacking.UnpackYear` | src/main/java/org/tools4j/time/pack/DatePacker.java:364-367 | a legal raw year is returned unchanged by any packer, decorated or not |
| `DatePacking.UnpackMonth` | src/main/java/org/tools4j/time/pack/DatePacker.java:369-372 | a legal raw month is returned unchanged by any packer, decorated or not |
| `DatePacking.UnpackDay` | src/main/java/org/tools4j/time/pack/DatePacker.java:374-380 | when the raw year, month and day form a legal date, any packer returns the raw day unchanged |
| `DatePacking.ForValidationMethod` | src/main/java/org/tools4j/time/pack/DatePacker.java:239-242 | the returned packer keeps this packer's packing and has the requested validation method |
| `DatePacking.PackingOf` | src/main/java/org/tools4j/time/pack/DatePacker.java:346-349 | a decorator reports the packing of the packer it wraps; `InstanceOf` and `ForValidationMethod` state what it yields for every cached instance |
| `DatePacking.MethodOf` | src/main/java/org/tools4j/time/pack/DatePacker.java:351-354 | the raw codecs are unvalidated and a decorator reports its validator's method; `InstanceOf` and `ForValidationMethod` state what it yields for every cached instance |
| `DatePacking.PackNull` | src/main/java/org/tools4j/time/pack/DatePacker.java:153-156 | the null value is not INVALID and `isValid` accepts it |
| `DatePacking.UnpackNull` | src/main/java/org/tools4j/time/pack/DatePacker.java:158-161 | `unpackNull` holds exactly for the value `packNull` returns |
| `DatePacking.PackLocalDate` | src/main/java/org/tools4j/time/pack/DatePacker.java:163-168 | an absent date packs to a value `unpackNull` recognises; a present legal date packs exactly as the raw codec of the packer's packing packs its fields |
| `DatePacking.IsValid` | src/main/java/org/tools4j/time/pack/DatePacker.java:217-222 | `isValid` holds exactly for NULL and for non-INVALID values whose raw fields form a legal date |
| `DatePacking.Validate` | src/main/java/org/tools4j/time/pack/DatePacker.java:224-227 | an unvalidated packer returns its input; a validating one returns a non-INVALID input unchanged exactly when `isValid` holds for it |
| `DatePacking.ValidateWith` | src/main/java/org/tools4j/time/pack/DatePacker.java:229-237 | NULL and an unvalidated request pass through; otherwise the input comes back when its raw fields are legal, else INVALID or an exception for the first illegal field |
| `DatePacking.PackFromDate` | src/main/java/org/tools4j/time/pack/DatePacker.java:180-187 | `packFromDate` as written; its behaviour is stated by `PackFromDateShortcut`, `PackFromDateUsesMonthAsDay` and `PackFromDateDropsDay` |
| `DatePacking.PackFromDateCorrected` | src/main/java/org/tools4j/time/pack/DatePacker.java:180-187 | `packFromDate` with the unpacked day in the day's place; `PackFromDateCorrectedRepacks` proves that it re-packs every legal date |
| `PackerInstances.InstancesByPackingAndValidationMethod` | src/main/java/org/tools4j/time/pack/DatePacker.java:399-412 | the freshly built 2×3 table holds, at ordinals (p, v), the raw codec of p when v is UNVALIDATED and otherwise a `Validated` decorator around it with method v |
| `PackerInstances.Instances.constructor` | src/main/java/org/tools4j/time/pack/DatePacker.java:393 | the static table is built once and every cell is filled correctly |
| `PackerInstances.Instances.ValueOf` | src/main/java/org/tools4j/time/pack/DatePacker.java:395-397 | the looked-up instance has the requested packing and method; it is the raw codec exactly when unvalidated, and otherwise a decorator around that raw codec |
| `DatePackerLemmas.BinaryPackMasksFields` | src/main/java/org/tools4j/time/pack/DatePacker.java:261-263 | only the low 14/4/5 bits of the fields matter, a day of -1 is stored as 31, and a binary packed value is never INVALID |
| `DatePackerLemmas.BinaryRoundTrip` | src/main/java/org/tools4j/time/pack/DatePacker.java:261-278 | unpacking a binary packed date gives back each field modulo 2^14, 2^4 and 2^5 |
| `DatePackerLemmas.BinaryUnpackInvalid` | src/main/java/org/tools4j/time/pack/DatePacker.java:266-278 | the binary codec reads year 16383, month 15 and day 31 from INVALID |
| `DatePackerLemmas.DecimalRoundTrip` | src/main/java/org/tools4j/time/pack/DatePacker.java:303-320 | decimal unpacking returns the exact fields for a non-negative year, two-digit month and day, and no overflow |
| `DatePackerLemmas.DecimalExample` | src/main/java/org/tools4j/time/pack/DatePacker.java:45 | 21-Jan-2017 packs to 20170121 in decimal and to 2017·2^9 + 1·2^5 + 21 in binary |
| `DatePackerLemmas.RawRoundTrip` | src/test/java/org/tools4j/time/pack/DatePackerTest.java:116-127 | either raw codec unpacks a legal date to exactly its fields |
| `DatePackerLemmas.PackedDateIsNotSentinel` | src/main/java/org/tools4j/time/pack/DatePacker.java:59-61 | a legal date packs to a positive value, so it is neither NULL nor INVALID |
| `DatePackerLemmas.BinaryPreservesOrder` | src/main/java/org/tools4j/time/pack/DatePacker.java:38-40 | for legal dates, binary packed values compare exactly as the dates compare, and are equal exactly when the dates are |
| `DatePackerLemmas.DecimalPreservesOrder` | src/main/java/org/tools4j/time/pack/DatePacker.java:38-40 | for legal dates, decimal packed values compare exactly as the dates compare, and are equal exactly when the dates are |
| `DatePackerLemmas.PackPreservesOrder` | src/main/java/org/tools4j/time/pack/DatePacker.java:38-40 | for legal dates, one date is before another exactly when its packed value is smaller, and two dates are equal exactly when their packed values are equal, in both packings |
| `DatePackerLemmas.MinusOneDayStaysIllegal` | src/test/java/org/tools4j/time/pack/DatePackerTest.java:237-258 | the tests' triple (2017, 4, -1), packed by either raw codec, is not INVALID, and the fields read back from it still form an illegal date |
| `DatePackerLemmas.InstancePack` | src/test/java/org/tools4j/time/pack/DatePackerTest.java:203-227 | every cached instance packs a legal date as the raw codec does; for an illegal date, INVALIDATE_RESULT returns INVALID and THROW_EXCEPTION throws for the first illegal field |
| `DatePackerLemmas.InstanceUnpack` | src/test/java/org/tools4j/time/pack/DatePackerTest.java:229-258 | a cached instance's `unpackYear` and `unpackMonth` check only their own raw field, while `unpackDay` checks year, month and day together and rejects the first illegal one |
| `DatePackerLemmas.InstanceRoundTrip` | src/test/java/org/tools4j/time/pack/DatePackerTest.java:116-127 | under every packing and validation method a legal date packs to the same value and unpacks to its own year, month and day |
| `DatePackerLemmas.Sentinels` | src/main/java/org/tools4j/time/pack/DatePacker.java:153-168 | `unpackNull(packNull())` holds, `unpackNull` is true only for 0, an absent LocalDate packs to NULL, NULL is valid and INVALID is not, `validate(NULL, vm)` is NULL, and unvalidated `validate` is the identity |
| `DatePackerLemmas.PackedLocalDateIsNotNull` | src/test/java/org/tools4j/time/pack/DatePackerTest.java:107-114 | a present legal LocalDate packs, with any cached instance, to a valid non-null value |
| `DatePackerLemmas.IsValidIffLegalFields` | src/main/java/org/tools4j/time/pack/DatePacker.java:217-222 | `isValid` holds exactly for NULL and for non-INVALID values whose raw fields form a legal date; the packer's own validation method plays no part, so it never throws |
| `DatePackerLemmas.ValidateWithOutcome` | src/main/java/org/tools4j/time/pack/DatePacker.java:229-237 | for a non-null value under a validating method, `validate` returns the value when its raw fields are legal, and otherwise INVALID or an exception for the first illegal field |
| `DatePackerLemmas.IsValidAgreesWithValidate` | src/main/java/org/tools4j/time/pack/DatePacker.java:217-237 | `isValid(p)` holds exactly when p is not INVALID and `validate(p, INVALIDATE_RESULT)` returns p |
| `DatePackerLemmas.ValidateOwnMethod` | src/main/java/org/tools4j/time/pack/DatePacker.java:224-227 | `validate(p)` is the identity for an unvalidated packer; for an INVALIDATE_RESULT packer it returns p exactly when p is valid |
| `DatePackerLemmas.ValidUnpacksAlike` | src/main/java/org/tools4j/time/pack/DatePacker.java:364-380 | a valid value other than NULL unpacks to the raw codec's fields under every validation method; NULL is the exception (see `NullUnpacksAsYearZero`) |
| `DatePackerLemmas.NullUnpacksAsYearZero` | src/main/java/org/tools4j/time/pack/DatePacker.java:217-222 | NULL is valid, yet both codecs read year, month and day 0 from it, so the unvalidated `unpackDay` returns 0, INVALIDATE_RESULT returns INVALID and THROW_EXCEPTION throws for year 0 |
| `DatePackerLemmas.ValidateInvalid` | src/main/java/org/tools4j/time/pack/DatePacker.java:229-237 | neither codec reads a legal date from INVALID, so a validating `validate(INVALID)` returns INVALID or throws |
| `DatePackerLemmas.DecimalValidRepacks` | src/main/java/org/tools4j/time/pack/DatePacker.java:303-320 | re-packing the decimal fields of a valid non-null value reproduces the value |
| `DatePackerLemmas.BinaryRepacksLowBits` | src/main/java/org/tools4j/time/pack/DatePacker.java:261-278 | re-packing the binary fields of any value within the 23 layout bits reproduces the value |
| `DatePackerLemmas.BinaryValidIgnoresHighBits` | src/main/java/org/tools4j/time/pack/DatePacker.java:217-222 | `isValid` accepts a binary value with bit 23 set, and re-packing its fields does not reproduce it |
| `DatePackerLemmas.PackFromDateShortcut` | src/main/java/org/tools4j/time/pack/DatePacker.java:180-184 | an unvalidated packer asked to re-pack its own packing returns the packed date untouched |
| `DatePackerLemmas.PackFromDateUsesMonthAsDay` | src/main/java/org/tools4j/time/pack/DatePacker.java:185-186 | outside the shortcut, `packFromDate` as written re-packs a legal date with its month in the day's place |
| `DatePackerLemmas.PackFromDateDropsDay` | src/main/java/org/tools4j/time/pack/DatePacker.java:186 | BINARY re-packing decimal 20170121 yields 2017-01-01, not 2017-01-21 |
| `DatePackerLemmas.PackFromDateCorrectedRepacks` | src/main/java/org/tools4j/time/pack/DatePacker.java:180-187 | the corrected `packFromDate` turns a legal date packed in any packing into the same date packed by this packer |

## Findings

| source | as written | input that shows it | evidently intended | confidence | as-written member | corrected member |
|---|---|---|---|---|---|---|
| src/main/java/org/tools4j/time/pack/DatePacker.java:186 | `packFromDate` passes `dp.unpackMonth(packedDate)` as the day argument of `pack` | `DatePacker.BINARY.packFromDate(20170121, DECIMAL)` packs 2017-01-01 | pass `dp.unpackDay(packedDate)`, so the date is re-packed unchanged | high (not executed) | `DatePackerLemmas.PackFromDateUsesMonthAsDay` (exhibited by `DatePackerLemmas.PackFromDateDropsDay`) | `DatePackerLemmas.PackFromDateCorrectedRepacks` (about `DatePacking.PackFromDateCorrected`) |

## Behaviour worth knowing

- `isValid` does not look at bits 23 to 31 of a BINARY value. So re-packing the fields of a valid value need not reproduce it.
  - `BinaryValidIgnoresHighBits` gives a valid value with bit 23 set that re-packing changes.
  - `BinaryRepacksLowBits` proves re-packing reproduces every value within the 23 layout bits.
  - `DecimalValidRepacks` proves it for every valid, non-null DECIMAL value.
- A day of -1 is illegal, as the tests at DatePackerTest.java:187 require. An unvalidated BINARY packer stores it as 31 (`BinaryPackMasksFields`).
- NULL is valid, because `isValid` and `validate` return early for it. Yet every field of NULL reads as 0, so a validating instance's `unpackDay` returns INVALID or throws for the year 0 (`NullUnpacksAsYearZero`). `ValidUnpacksAlike` therefore covers valid values other than NULL only.

## Left out

- `packEpochDay`, `unpackEpochDay`, `packEpochMilli` and `unpackEpochMilli` (DatePacker.java:197-215) delegate to `Epoch`. `Epoch` is not part of this model.
- `packFromDateTime` (DatePacker.java:171-178) delegates to `DateTimePacker`. `DateTimePacker` is not part of this model.
- `unpackLocalDate`, and the `LocalDate` value type beyond a year/month/day triple, are left out. `java.time.LocalDate` performs its own validation, which is not part of this model. `pack(LocalDate)` is kept, with an absent date as `None`.
- The `DateValidator` rules are derived from test vectors, not from its source. So is the assumption that an unvalidated check returns its field unchanged.
- DateValidator.FirstInvalidField: the year-then-month-then-day precedence for a date with several illegal fields is assumed. The tests never name the field an exception reports, and each invalid vector has only one illegal field.
- The exception type and message are reduced to the offending field and its value.
- `toString`, `packing()` reflection, the `@Allocation` annotations and the `DatePacker.valueOf` overloads are left out. The overloads only forward to the instance table.
- `DatePacking.DecimalPack`: its contract states only the overflow-free case. The wrapped value for huge years is computed by the model but not characterised.
