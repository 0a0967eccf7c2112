/**
 * Properties of the date packer: the layout and round trips of the two raw
 * codecs, order preservation, how the cached instances behave on legal and
 * illegal dates, the NULL and INVALID sentinels, `isValid` and `validate`,
 * and the re-packing done by `packFromDate`.
 */
module DatePackerLemmas {
  import opened JavaInt
  import opened DateValidator
  import opened DatePacking

  /** The natural date order: by year, then month, then day. */
  predicate Before(a: LocalDate, b: LocalDate)
  {
    a.year < b.year ||
    (a.year == b.year && (a.month < b.month || (a.month == b.month && a.day < b.day)))
  }

  // ------------------------------------------------------ arithmetic helpers

  /** Euclidean division undoes `q * b + r` for a remainder in range. */
  lemma DivModOfSum(q: int, b: int, r: int)
    requires b > 0 && 0 <= r < b
    ensures (q * b + r) / b == q && (q * b + r) % b == r
  {
    var n := q * b + r;
    var q', r' := n / b, n % b;
    assert n == q' * b + r' && 0 <= r' < b;
    assert (q - q') * b == r' - r;
    if q' < q {
      MulMonotone(b, q - q', 1);
    } else if q' > q {
      MulMonotone(b, q' - q, 1);
    }
  }

  /** A product by a natural factor that is smaller has the smaller cofactor. */
  lemma MulCancelLess(x: nat, y: int, z: int)
    ensures x * y < x * z ==> y < z
  {
    if y >= z {
      MulMonotone(x, y, z);
    }
  }

  /**
   * Comparing `hi * base + lo` values with `lo` in range compares `hi` first
   * and `lo` second.
   */
  lemma LexicographicSum(hi1: int, lo1: int, hi2: int, lo2: int, base: int)
    requires base > 0 && 0 <= lo1 < base && 0 <= lo2 < base
    ensures hi1 * base + lo1 < hi2 * base + lo2 <==> hi1 < hi2 || (hi1 == hi2 && lo1 < lo2)
    ensures hi1 * base + lo1 == hi2 * base + lo2 <==> hi1 == hi2 && lo1 == lo2
  {
    if hi1 < hi2 {
      MulMonotone(base, hi2, hi1 + 1);
    } else if hi2 < hi1 {
      MulMonotone(base, hi1, hi2 + 1);
    }
  }

  // -------------------------------------------------------------- BINARY

  /**
   * Each field is stored modulo its width, so only its low bits matter: in
   * particular a day of -1 is stored as 31.
   */
  lemma BinaryPackMasksFields(year: Int32, month: Int32, day: Int32)
    ensures BinaryPack(year, month, day) == BinaryPack(year % 0x4000, month % 0x10, day % 0x20)
    ensures BinaryPack(year, month, -1) == BinaryPack(year, month, 31)
    ensures BinaryPack(year, month, day) != INVALID
  {
  }

  /** Unpacking a binary packed date returns each field modulo its width. */
  lemma {:induction false} BinaryRoundTrip(year: Int32, month: Int32, day: Int32)
    ensures BinaryUnpackYear(BinaryPack(year, month, day)) == year % 0x4000
    ensures BinaryUnpackMonth(BinaryPack(year, month, day)) == month % 0x10
    ensures BinaryUnpackDay(BinaryPack(year, month, day)) == day % 0x20
  {
    var y, m, d := year % 0x4000, month % 0x10, day % 0x20;
    var p := BinaryPack(year, month, day);
    assert p == y * 0x200 + (m * 0x20 + d);
    assert Unsigned(p) == p;
    DivModOfSum(y, 0x200, m * 0x20 + d);
    assert p / 0x20 == y * 0x10 + m by {
      assert p == (y * 0x10 + m) * 0x20 + d;
      DivModOfSum(y * 0x10 + m, 0x20, d);
    }
    DivModOfSum(y, 0x10, m);
    DivModOfSum(y * 0x10 + m, 0x20, d);
  }

  /** Unpacking the INVALID sentinel with the binary codec reads 16383, 15 and 31. */
  lemma BinaryUnpackInvalid()
    ensures BinaryUnpackYear(INVALID) == 16383
    ensures BinaryUnpackMonth(INVALID) == 15
    ensures BinaryUnpackDay(INVALID) == 31
  {
  }

  // ------------------------------------------------------------- DECIMAL

  /**
   * Decimal unpacking with truncating division returns the fields exactly
   * when the year is not negative, month and day are two-digit values and the
   * packed value does not overflow.
   */
  lemma {:induction false} DecimalRoundTrip(year: Int32, month: Int32, day: Int32)
    requires 0 <= year && 0 <= month <= 99 && 0 <= day <= 99
    requires year * 10000 + month * 100 + day <= MAX_VALUE
    ensures DecimalUnpackYear(DecimalPack(year, month, day)) == year
    ensures DecimalUnpackMonth(DecimalPack(year, month, day)) == month
    ensures DecimalUnpackDay(DecimalPack(year, month, day)) == day
  {
    var p := DecimalPack(year, month, day);
    assert p == year * 10000 + (month * 100 + day);
    DivModOfSum(year, 10000, month * 100 + day);
    assert p == (year * 100 + month) * 100 + day;
    DivModOfSum(year * 100 + month, 100, day);
    DivModOfSum(year, 100, month);
  }

  /** The documented example: 21-Jan-2017 packs to 20170121 in decimal. */
  lemma DecimalExample()
    ensures DecimalPack(2017, 1, 21) == 20170121
    ensures BinaryPack(2017, 1, 21) == 2017 * 0x200 + 1 * 0x20 + 21
  {
  }

  // ------------------------------------------------- raw codecs on dates

  /** A legal date is packed without loss by either codec. */
  lemma RawRoundTrip(p: Packing, year: Int32, month: Int32, day: Int32)
    requires ValidDate(year, month, day)
    ensures RawUnpackYear(p, RawPack(p, year, month, day)) == year
    ensures RawUnpackMonth(p, RawPack(p, year, month, day)) == month
    ensures RawUnpackDay(p, RawPack(p, year, month, day)) == day
  {
    match p
    case Binary => BinaryRoundTrip(year, month, day);
    case Decimal => DecimalRoundTrip(year, month, day);
  }

  /** The packed value of a legal date is positive, so it is neither NULL nor INVALID. */
  lemma PackedDateIsNotSentinel(p: Packing, year: Int32, month: Int32, day: Int32)
    requires ValidDate(year, month, day)
    ensures RawPack(p, year, month, day) > 0
    ensures RawPack(p, year, month, day) != NULL && RawPack(p, year, month, day) != INVALID
  {
  }

  /** A legal date's fields are positive, with month and day below 13 and 32. */
  lemma ValidDateBounds(d: LocalDate)
    requires ValidDate(d.year, d.month, d.day)
    ensures 1 <= d.year <= 9999 && 1 <= d.month <= 12 && 1 <= d.day <= 31
  {
  }

  /** Fields already within their widths are laid out side by side. */
  lemma BinaryPackInRange(year: Int32, month: Int32, day: Int32)
    requires 0 <= year < 0x4000 && 0 <= month < 0x10 && 0 <= day < 0x20
    ensures BinaryPack(year, month, day) == year * 0x200 + (month * 0x20 + day)
  {
  }

  /** Binary packing of a legal date is `year*2^9 + month*2^5 + day` and preserves order. */
  lemma {:induction false} BinaryPreservesOrder(a: LocalDate, b: LocalDate)
    requires ValidDate(a.year, a.month, a.day) && ValidDate(b.year, b.month, b.day)
    ensures Before(a, b) <==> BinaryPack(a.year, a.month, a.day) < BinaryPack(b.year, b.month, b.day)
    ensures a == b <==> BinaryPack(a.year, a.month, a.day) == BinaryPack(b.year, b.month, b.day)
  {
    ValidDateBounds(a);
    ValidDateBounds(b);
    var lowA, lowB := a.month * 0x20 + a.day, b.month * 0x20 + b.day;
    BinaryPackInRange(a.year, a.month, a.day);
    BinaryPackInRange(b.year, b.month, b.day);
    LexicographicSum(a.month, a.day, b.month, b.day, 0x20);
    LexicographicSum(a.year, lowA, b.year, lowB, 0x200);
  }

  /** Decimal packing of a legal date is `year*10000 + month*100 + day` and preserves order. */
  lemma {:induction false} DecimalPreservesOrder(a: LocalDate, b: LocalDate)
    requires ValidDate(a.year, a.month, a.day) && ValidDate(b.year, b.month, b.day)
    ensures Before(a, b) <==> DecimalPack(a.year, a.month, a.day) < DecimalPack(b.year, b.month, b.day)
    ensures a == b <==> DecimalPack(a.year, a.month, a.day) == DecimalPack(b.year, b.month, b.day)
  {
    ValidDateBounds(a);
    ValidDateBounds(b);
    var lowA, lowB := a.month * 100 + a.day, b.month * 100 + b.day;
    assert DecimalPack(a.year, a.month, a.day) == a.year * 10000 + lowA;
    assert DecimalPack(b.year, b.month, b.day) == b.year * 10000 + lowB;
    LexicographicSum(a.month, a.day, b.month, b.day, 100);
    LexicographicSum(a.year, lowA, b.year, lowB, 10000);
  }

  /**
   * Both packings preserve the natural date order: sorting packed legal dates
   * sorts the dates, and equal packed values are equal dates.
   */
  lemma PackPreservesOrder(p: Packing, a: LocalDate, b: LocalDate)
    requires ValidDate(a.year, a.month, a.day) && ValidDate(b.year, b.month, b.day)
    ensures Before(a, b) <==> RawPack(p, a.year, a.month, a.day) < RawPack(p, b.year, b.month, b.day)
    ensures a == b <==> RawPack(p, a.year, a.month, a.day) == RawPack(p, b.year, b.month, b.day)
  {
    match p
    case Binary => BinaryPreservesOrder(a, b);
    case Decimal => DecimalPreservesOrder(a, b);
  }

  /**
   * A triple packed by a raw codec is not INVALID, yet the fields the codec
   * reads back from it do not form a legal date.
   */
  predicate PackedStaysIllegal(p: Packing, year: Int32, month: Int32, day: Int32)
  {
    RawPack(p, year, month, day) != INVALID && !RawFieldsValid(p, RawPack(p, year, month, day))
  }

  /**
   * The tests' triple 2017-04 with day -1, packed by either raw codec, is not
   * INVALID, and validated unpacking still reads an illegal date from it: the
   * binary codec reads day 31 of April, the decimal codec month 3, day 99.
   */
  lemma MinusOneDayStaysIllegal(p: Packing)
    ensures PackedStaysIllegal(p, 2017, 4, -1)
  {
    match p
    case Binary =>
      var packed := BinaryPack(2017, 4, -1);
      assert packed == 2017 * 0x200 + 4 * 0x20 + 31;
      BinaryRoundTrip(2017, 4, -1);
      assert BinaryUnpackDay(packed) == 31 && BinaryUnpackMonth(packed) == 4;
    case Decimal =>
      var packed := DecimalPack(2017, 4, -1);
      assert packed == 20170399;
      assert Quot(packed, 100) == 201703;
      assert DecimalUnpackMonth(packed) == 3;
  }

  // ------------------------------------------------- cached instances

  /**
   * Packing with a cached instance: a legal date, or any date when
   * unvalidated, packs as the raw codec packs it; an illegal date yields
   * INVALID or a thrown error naming the first illegal field.
   */
  lemma InstancePack(p: Packing, vm: ValidationMethod, year: Int32, month: Int32, day: Int32)
    ensures vm == Unvalidated || ValidDate(year, month, day) ==>
              Pack(InstanceOf(p, vm), year, month, day) == Returned(RawPack(p, year, month, day))
    ensures vm == InvalidateResult && !ValidDate(year, month, day) ==>
              Pack(InstanceOf(p, vm), year, month, day) == Returned(INVALID)
    ensures vm == ThrowException && !ValidDate(year, month, day) ==>
              var f := FirstInvalidField(year, month, day);
              Pack(InstanceOf(p, vm), year, month, day) == Thrown(f, FieldValue(f, year, month, day))
  {
  }

  /**
   * Unpacking with a cached instance: `unpackYear` and `unpackMonth` check
   * only their own raw field, `unpackDay` checks the raw year, month and day
   * together.
   */
  lemma InstanceUnpack(p: Packing, vm: ValidationMethod, packed: Int32)
    ensures var y := RawUnpackYear(p, packed);
      UnpackYear(InstanceOf(p, vm), packed) ==
        if vm == Unvalidated || ValidYear(y) then Returned(y) else Reject(vm, Year, y)
    ensures var m := RawUnpackMonth(p, packed);
      UnpackMonth(InstanceOf(p, vm), packed) ==
        if vm == Unvalidated || ValidMonth(m) then Returned(m) else Reject(vm, Month, m)
    ensures var y, m, d := RawUnpackYear(p, packed), RawUnpackMonth(p, packed), RawUnpackDay(p, packed);
      UnpackDay(InstanceOf(p, vm), packed) ==
        if vm == Unvalidated || ValidDate(y, m, d) then Returned(d)
        else Reject(vm, FirstInvalidField(y, m, d), FieldValue(FirstInvalidField(y, m, d), y, m, d))
  {
  }

  /**
   * Round trip through every cached instance: a legal date packs to the same
   * value under every validation method, and unpacks to its own fields.
   */
  lemma InstanceRoundTrip(p: Packing, vm: ValidationMethod, year: Int32, month: Int32, day: Int32)
    requires ValidDate(year, month, day)
    ensures var inst := InstanceOf(p, vm);
      var packed := RawPack(p, year, month, day);
      Pack(inst, year, month, day) == Returned(packed) &&
      UnpackYear(inst, packed) == Returned(year) &&
      UnpackMonth(inst, packed) == Returned(month) &&
      UnpackDay(inst, packed) == Returned(day)
  {
    RawRoundTrip(p, year, month, day);
    InstanceUnpack(p, vm, RawPack(p, year, month, day));
  }

  // ---------------------------------------------------------- sentinels

  /**
   * NULL and INVALID: the null value unpacks as null and is valid, INVALID is
   * not valid, and validation passes NULL through under every method and any
   * value through when unvalidated.
   */
  lemma Sentinels(dp: DatePacker, packed: Int32, vm: ValidationMethod)
    ensures PackNull(dp) == NULL && UnpackNull(dp, PackNull(dp))
    ensures PackLocalDate(dp, None) == Returned(NULL)
    ensures UnpackNull(dp, packed) <==> packed == NULL
    ensures IsValid(dp, NULL) && !IsValid(dp, INVALID)
    ensures ValidateWith(dp, NULL, vm) == Returned(NULL)
    ensures ValidateWith(dp, packed, Unvalidated) == Returned(packed)
  {
  }

  /** A present legal date never packs to the null value, with any cached instance. */
  lemma PackedLocalDateIsNotNull(p: Packing, vm: ValidationMethod, d: LocalDate)
    requires ValidDate(d.year, d.month, d.day)
    ensures PackLocalDate(InstanceOf(p, vm), Some(d)).Returned?
    ensures !UnpackNull(InstanceOf(p, vm), PackLocalDate(InstanceOf(p, vm), Some(d)).value)
    ensures IsValid(InstanceOf(p, vm), PackLocalDate(InstanceOf(p, vm), Some(d)).value)
  {
    PackedDateIsNotSentinel(p, d.year, d.month, d.day);
    RawRoundTrip(p, d.year, d.month, d.day);
  }

  // ------------------------------------------------ isValid and validate

  /**
   * `isValid` holds exactly for NULL and for the values (other than INVALID)
   * whose raw fields form a legal date; it depends on the packing only, not
   * on the packer's own validation method.
   */
  lemma IsValidIffLegalFields(dp: DatePacker, packed: Int32)
    ensures IsValid(dp, packed) <==>
              packed != INVALID && (packed == NULL || RawFieldsValid(PackingOf(dp), packed))
    ensures IsValid(dp, packed) == IsValid(Raw(PackingOf(dp)), packed)
  {
    InstanceUnpack(PackingOf(dp), InvalidateResult, packed);
  }

  /**
   * `validate(packed, vm)` for a value other than NULL under a validating
   * method: the value when its raw fields form a legal date, otherwise INVALID
   * or an error naming the first illegal field.
   */
  lemma ValidateWithOutcome(dp: DatePacker, packed: Int32, vm: ValidationMethod)
    requires packed != NULL && vm != Unvalidated
    ensures RawFieldsValid(PackingOf(dp), packed) ==> ValidateWith(dp, packed, vm) == Returned(packed)
    ensures !RawFieldsValid(PackingOf(dp), packed) ==>
              var p := PackingOf(dp);
              var y, m, d := RawUnpackYear(p, packed), RawUnpackMonth(p, packed), RawUnpackDay(p, packed);
              var f := FirstInvalidField(y, m, d);
              ValidateWith(dp, packed, vm) == Reject(vm, f, FieldValue(f, y, m, d))
  {
    InstanceUnpack(PackingOf(dp), vm, packed);
  }

  /** `isValid(packed)` agrees with `validate(packed, INVALIDATE_RESULT)` returning its input. */
  lemma IsValidAgreesWithValidate(dp: DatePacker, packed: Int32)
    ensures IsValid(dp, packed) <==>
              packed != INVALID && ValidateWith(dp, packed, InvalidateResult) == Returned(packed)
  {
    IsValidIffLegalFields(dp, packed);
    if packed != NULL {
      ValidateWithOutcome(dp, packed, InvalidateResult);
    }
  }

  /**
   * `validate(packed)` uses the packer's own method: the identity for an
   * unvalidated packer; for an INVALIDATE_RESULT packer it returns its input
   * exactly when the input is valid.
   */
  lemma ValidateOwnMethod(dp: DatePacker, packed: Int32)
    ensures MethodOf(dp) == Unvalidated ==> Validate(dp, packed) == Returned(packed)
    ensures MethodOf(dp) == InvalidateResult ==>
              (IsValid(dp, packed) <==> packed != INVALID && Validate(dp, packed) == Returned(packed))
  {
    IsValidAgreesWithValidate(dp, packed);
  }

  /**
   * A valid value other than NULL unpacks to the same fields under every
   * validation method of its packing.
   */
  lemma ValidUnpacksAlike(dp: DatePacker, packed: Int32, vm: ValidationMethod)
    requires IsValid(dp, packed) && packed != NULL
    ensures var inst, p := InstanceOf(PackingOf(dp), vm), PackingOf(dp);
      UnpackYear(inst, packed) == Returned(RawUnpackYear(p, packed)) &&
      UnpackMonth(inst, packed) == Returned(RawUnpackMonth(p, packed)) &&
      UnpackDay(inst, packed) == Returned(RawUnpackDay(p, packed))
  {
    IsValidIffLegalFields(dp, packed);
  }

  /**
   * NULL is valid, yet no validating instance reads a legal date from it:
   * every field of NULL is 0, so `unpackDay` rejects the year 0.
   */
  lemma NullUnpacksAsYearZero(p: Packing, dp: DatePacker)
    ensures IsValid(dp, NULL)
    ensures RawUnpackYear(p, NULL) == 0 && RawUnpackMonth(p, NULL) == 0 && RawUnpackDay(p, NULL) == 0
    ensures UnpackDay(InstanceOf(p, Unvalidated), NULL) == Returned(0)
    ensures UnpackDay(InstanceOf(p, InvalidateResult), NULL) == Returned(INVALID)
    ensures UnpackDay(InstanceOf(p, ThrowException), NULL) == Thrown(Year, 0)
  {
    InstanceUnpack(p, InvalidateResult, NULL);
    InstanceUnpack(p, ThrowException, NULL);
  }

  /** The INVALID sentinel never validates: both codecs read illegal fields from it. */
  lemma ValidateInvalid(dp: DatePacker, vm: ValidationMethod)
    requires vm != Unvalidated
    ensures !RawFieldsValid(PackingOf(dp), INVALID)
    ensures vm == InvalidateResult ==> ValidateWith(dp, INVALID, vm) == Returned(INVALID)
    ensures vm == ThrowException ==> ValidateWith(dp, INVALID, vm).Thrown?
  {
    ValidateWithOutcome(dp, INVALID, vm);
  }

  /** A valid decimal value other than NULL is reproduced by re-packing its fields. */
  lemma {:induction false} DecimalValidRepacks(dp: DatePacker, packed: Int32)
    requires PackingOf(dp) == Decimal && IsValid(dp, packed) && packed != NULL
    ensures DecimalPack(DecimalUnpackYear(packed), DecimalUnpackMonth(packed), DecimalUnpackDay(packed)) == packed
  {
    IsValidIffLegalFields(dp, packed);
    var y := DecimalUnpackYear(packed);
    assert packed >= 0;
    var n: nat := packed;
    var q := n / 100;
    DivModOfSum(q, 100, n % 100);
    DivModOfSum(q / 100, 100, q % 100);
    assert n == (q / 100) * 10000 + (q % 100) * 100 + n % 100;
    assert n / 10000 == q / 100 by {
      assert n == (q / 100) * 10000 + ((q % 100) * 100 + n % 100);
      DivModOfSum(q / 100, 10000, (q % 100) * 100 + n % 100);
    }
  }

  /**
   * Any binary value within the 23 bits of the layout, valid or not, is
   * reproduced by re-packing the fields the binary codec reads from it.
   */
  lemma {:induction false} BinaryRepacksLowBits(packed: Int32)
    requires 0 <= packed < 0x80_0000
    ensures BinaryPack(BinaryUnpackYear(packed), BinaryUnpackMonth(packed), BinaryUnpackDay(packed)) == packed
  {
    var n: nat := packed;
    var q, d := n / 0x20, n % 0x20;
    var y, m := q / 0x10, q % 0x10;
    assert n == y * 0x200 + (m * 0x20 + d);
    DivModOfSum(y, 0x200, m * 0x20 + d);
    MulCancelLess(0x200, y, 0x4000);
    assert BinaryUnpackYear(packed) == y;
    assert BinaryUnpackMonth(packed) == m;
    assert BinaryUnpackDay(packed) == d;
    BinaryPackInRange(y, m, d);
  }

  /**
   * `isValid` does not look at bits 23 to 31 of a binary value, so a valid
   * value with such a bit set is not reproduced by re-packing its fields.
   */
  lemma BinaryValidIgnoresHighBits()
    ensures var packed := 0x80_0000 + BinaryPack(2017, 1, 1);
      IsValid(BINARY, packed) &&
      BinaryPack(BinaryUnpackYear(packed), BinaryUnpackMonth(packed), BinaryUnpackDay(packed)) != packed
  {
    var packed := 0x80_0000 + BinaryPack(2017, 1, 1);
    assert BinaryUnpackYear(packed) == 2017 && BinaryUnpackMonth(packed) == 1 && BinaryUnpackDay(packed) == 1;
    IsValidIffLegalFields(BINARY, packed);
  }

  // -------------------------------------------------------- packFromDate

  /** An unvalidated packer of the packing asked for returns the packed date untouched. */
  lemma PackFromDateShortcut(dp: DatePacker, packedDate: Int32)
    requires MethodOf(dp) == Unvalidated
    ensures PackFromDate(dp, packedDate, PackingOf(dp)) == Returned(packedDate)
    ensures PackFromDateCorrected(dp, packedDate, PackingOf(dp)) == Returned(packedDate)
  {
  }

  /**
   * `packFromDate` as written re-packs a legal date with its month in place
   * of its day (outside the shortcut).
   */
  lemma PackFromDateUsesMonthAsDay(dp: DatePacker, packing: Packing, year: Int32, month: Int32, day: Int32)
    requires ValidDate(year, month, day)
    requires !(packing == PackingOf(dp) && MethodOf(dp) == Unvalidated)
    ensures PackFromDate(dp, RawPack(packing, year, month, day), packing) == Pack(dp, year, month, month)
  {
    InstanceRoundTrip(packing, MethodOf(dp), year, month, day);
  }

  /** The input that shows it: 21-Jan-2017 re-packed from decimal to binary becomes 01-Jan-2017. */
  lemma PackFromDateDropsDay()
    ensures PackFromDate(BINARY, 20170121, Decimal) == Returned(BinaryPack(2017, 1, 1))
    ensures PackFromDate(BINARY, 20170121, Decimal) != Pack(BINARY, 2017, 1, 21)
  {
    DecimalExample();
    PackFromDateUsesMonthAsDay(BINARY, Decimal, 2017, 1, 21);
    BinaryRoundTrip(2017, 1, 1);
    BinaryRoundTrip(2017, 1, 21);
  }

  /**
   * The corrected `packFromDate` re-packs a legal date packed with any packing
   * into the same date under this packer, for every packer.
   */
  lemma PackFromDateCorrectedRepacks(dp: DatePacker, packing: Packing, year: Int32, month: Int32, day: Int32)
    requires ValidDate(year, month, day)
    ensures PackFromDateCorrected(dp, RawPack(packing, year, month, day), packing) == Pack(dp, year, month, day)
    ensures PackFromDateCorrected(dp, RawPack(packing, year, month, day), packing) ==
              Returned(RawPack(PackingOf(dp), year, month, day))
  {
    InstanceRoundTrip(packing, MethodOf(dp), year, month, day);
  }
}
