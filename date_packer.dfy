/**
 * The date packer: a (year, month, day) triple packed into one Java `int`.
 *
 * Two raw codecs do the arithmetic without any checks: BINARY puts the masked
 * fields side by side in bit ranges, DECIMAL writes them as base-100 digit
 * groups. The `Validated` decorator wraps a packer with a validation method:
 * it checks the fields before packing and after unpacking, and delegates the
 * arithmetic to the wrapped packer. The shared default methods (null and
 * invalid sentinels, `isValid`, `validate`, `forValidationMethod`,
 * `packFromDate`) are written once for every packer.
 */
module DatePacking {
  import opened JavaInt
  import opened DateValidator

  /** Value of `packNull()`, and of packing an absent date. */
  const NULL: Int32 := 0
  // The packer's own INVALID is -1, the same value as DateValidator.INVALID,
  // which this module uses for both.

  /** The two packing schemes. */
  datatype Packing = Binary | Decimal
  {
    /** The Java enum ordinal, used to index the instance table. */
    function Ordinal(): (i: nat)
      ensures i < 2
    {
      match this
      case Binary => 0
      case Decimal => 1
    }
  }

  /** The scheme with a given ordinal; the inverse of `Ordinal`. */
  function PackingByOrdinal(i: nat): (p: Packing)
    requires i < 2
    ensures p.Ordinal() == i
  {
    if i == 0 then Binary else Decimal
  }

  /**
   * A packer instance: one of the two raw codecs, or a `Validated` decorator
   * holding the packer it wraps and the validation method of its validator.
   */
  datatype DatePacker = Raw(packing: Packing) | Validated(packer: DatePacker, validator: ValidationMethod)

  /** The BINARY and DECIMAL packers, which perform no validation. */
  const BINARY: DatePacker := Raw(Binary)
  const DECIMAL: DatePacker := Raw(Decimal)

  /** A calendar date as a `LocalDate` hands it over: year, month value and day of month. */
  datatype LocalDate = LocalDate(year: Int32, month: Int32, day: Int32)

  /** A reference that may be null. */
  datatype Option<T> = None | Some(value: T)

  // ---------------------------------------------------------------- BINARY

  /**
   * BINARY packing: the year's low 14 bits from bit 9, the month's low 4 bits
   * from bit 5, the day's low 5 bits from bit 0. A mask `& (2^k - 1)` is
   * `% 2^k`, a shift `<< k` of a masked field cannot overflow and is `* 2^k`,
   * and the `|` of disjoint bit ranges is `+`.
   */
  function BinaryPack(year: Int32, month: Int32, day: Int32): (r: Int32)
    ensures 0 <= r < 0x80_0000
  {
    (year % 0x4000) * 0x200 + (month % 0x10) * 0x20 + day % 0x20
  }

  /** `(packed >>> 9) & 0x3fff`. */
  function BinaryUnpackYear(packed: Int32): (r: Int32)
    ensures 0 <= r < 0x4000
  {
    Unsigned(packed) / 0x200 % 0x4000
  }

  /** `(packed >>> 5) & 0xf`. */
  function BinaryUnpackMonth(packed: Int32): (r: Int32)
    ensures 0 <= r < 0x10
  {
    Unsigned(packed) / 0x20 % 0x10
  }

  /** `packed & 0x1f`. */
  function BinaryUnpackDay(packed: Int32): (r: Int32)
    ensures 0 <= r < 0x20
  {
    packed % 0x20
  }

  // --------------------------------------------------------------- DECIMAL

  /** DECIMAL packing: `year*10000 + month*100 + day` in wrapping `int` arithmetic. */
  function DecimalPack(year: Int32, month: Int32, day: Int32): (r: Int32)
    ensures MIN_VALUE <= year * 10000 + month * 100 + day <= MAX_VALUE ==>
              r == year * 10000 + month * 100 + day
  {
    Wrap(year * 10000 + month * 100 + day)
  }

  /** `packed / 10000`, truncating. */
  function DecimalUnpackYear(packed: Int32): (r: Int32)
    ensures -214748 <= r <= 214748
    ensures 0 <= packed ==> 0 <= r && r * 10000 <= packed < r * 10000 + 10000
    ensures packed < 0 ==> r <= 0 && r * 10000 - 10000 < packed <= r * 10000
  {
    Quot(packed, 10000)
  }

  /** `(packed / 100) % 100`, truncating. */
  function DecimalUnpackMonth(packed: Int32): (r: Int32)
    ensures -100 < r < 100
  {
    Rem(Quot(packed, 100), 100)
  }

  /** `packed % 100`, truncating. */
  function DecimalUnpackDay(packed: Int32): (r: Int32)
    ensures -100 < r < 100
  {
    Rem(packed, 100)
  }

  // ------------------------------------------------- raw codec by packing

  function RawPack(p: Packing, year: Int32, month: Int32, day: Int32): Int32
  {
    match p
    case Binary => BinaryPack(year, month, day)
    case Decimal => DecimalPack(year, month, day)
  }

  function RawUnpackYear(p: Packing, packed: Int32): Int32
  {
    match p
    case Binary => BinaryUnpackYear(packed)
    case Decimal => DecimalUnpackYear(packed)
  }

  function RawUnpackMonth(p: Packing, packed: Int32): Int32
  {
    match p
    case Binary => BinaryUnpackMonth(packed)
    case Decimal => DecimalUnpackMonth(packed)
  }

  function RawUnpackDay(p: Packing, packed: Int32): Int32
  {
    match p
    case Binary => BinaryUnpackDay(packed)
    case Decimal => DecimalUnpackDay(packed)
  }

  /** The fields a raw codec reads from `packed` form a legal date. */
  predicate RawFieldsValid(p: Packing, packed: Int32)
  {
    ValidDate(RawUnpackYear(p, packed), RawUnpackMonth(p, packed), RawUnpackDay(p, packed))
  }

  // ------------------------------------------------------ packer instances

  /** `packing()`: a decorator reports the packing of the packer it wraps. */
  function PackingOf(dp: DatePacker): Packing
  {
    match dp
    case Raw(p) => p
    case Validated(inner, _) => PackingOf(inner)
  }

  /** `validationMethod()`: the raw codecs are unvalidated. */
  function MethodOf(dp: DatePacker): ValidationMethod
  {
    match dp
    case Raw(_) => Unvalidated
    case Validated(_, vm) => vm
  }

  /**
   * The cached instance for a packing and a validation method: the raw codec
   * when unvalidated, otherwise a decorator around the raw codec. The instance
   * table built in module PackerInstances holds exactly these values.
   */
  function InstanceOf(p: Packing, vm: ValidationMethod): (dp: DatePacker)
    ensures PackingOf(dp) == p && MethodOf(dp) == vm
  {
    if vm == Unvalidated then Raw(p) else Validated(Raw(p), vm)
  }

  /**
   * `pack(year, month, day)`. A decorator validates all three fields first and
   * delegates to the wrapped packer unless the check yields INVALID. Whatever
   * the nesting, a legal date packs exactly as the raw codec packs it.
   */
  function Pack(dp: DatePacker, year: Int32, month: Int32, day: Int32): (r: Outcome)
    ensures ValidDate(year, month, day) ==> r == Returned(RawPack(PackingOf(dp), year, month, day))
  {
    match dp
    case Raw(p) => Returned(RawPack(p, year, month, day))
    case Validated(inner, vm) =>
      match ValidateDay(vm, year, month, day)
      case Thrown(f, v) => Thrown(f, v)
      case Returned(checked) =>
        if checked != INVALID then Pack(inner, year, month, day) else Returned(INVALID)
  }

  /**
   * `unpackYear(packed)`. A decorator checks only the year the wrapped packer
   * reads; a legal raw year comes back unchanged whatever the nesting.
   */
  function UnpackYear(dp: DatePacker, packed: Int32): (r: Outcome)
    ensures ValidYear(RawUnpackYear(PackingOf(dp), packed)) ==>
              r == Returned(RawUnpackYear(PackingOf(dp), packed))
  {
    match dp
    case Raw(p) => Returned(RawUnpackYear(p, packed))
    case Validated(inner, vm) =>
      match UnpackYear(inner, packed)
      case Thrown(f, v) => Thrown(f, v)
      case Returned(year) => ValidateYear(vm, year)
  }

  /**
   * `unpackMonth(packed)`. A decorator checks only the month the wrapped packer
   * reads; a legal raw month comes back unchanged whatever the nesting.
   */
  function UnpackMonth(dp: DatePacker, packed: Int32): (r: Outcome)
    ensures ValidMonth(RawUnpackMonth(PackingOf(dp), packed)) ==>
              r == Returned(RawUnpackMonth(PackingOf(dp), packed))
  {
    match dp
    case Raw(p) => Returned(RawUnpackMonth(p, packed))
    case Validated(inner, vm) =>
      match UnpackMonth(inner, packed)
      case Thrown(f, v) => Thrown(f, v)
      case Returned(month) => ValidateMonth(vm, month)
  }

  /**
   * `unpackDay(packed)`. A decorator unpacks year, month and day from the
   * wrapped packer and checks all three together, so a legal raw date yields
   * its day unchanged whatever the nesting.
   */
  function UnpackDay(dp: DatePacker, packed: Int32): (r: Outcome)
    ensures RawFieldsValid(PackingOf(dp), packed) ==>
              r == Returned(RawUnpackDay(PackingOf(dp), packed))
  {
    match dp
    case Raw(p) => Returned(RawUnpackDay(p, packed))
    case Validated(inner, vm) =>
      match UnpackYear(inner, packed)
      case Thrown(f, v) => Thrown(f, v)
      case Returned(year) =>
        match UnpackMonth(inner, packed)
        case Thrown(f, v) => Thrown(f, v)
        case Returned(month) =>
          match UnpackDay(inner, packed)
          case Thrown(f, v) => Thrown(f, v)
          case Returned(day) => ValidateDay(vm, year, month, day)
  }

  /** A validating cached instance checks the raw year, month and day of `packed` together. */
  lemma CachedUnpackDay(p: Packing, vm: ValidationMethod, packed: Int32)
    requires vm != Unvalidated
    ensures UnpackDay(InstanceOf(p, vm), packed) ==
              ValidateDay(vm, RawUnpackYear(p, packed), RawUnpackMonth(p, packed), RawUnpackDay(p, packed))
  {
  }

  // ------------------------------------------------------ default methods

  /** `packNull()`. */
  function PackNull(dp: DatePacker): (r: Int32)
    ensures r != INVALID && IsValid(dp, r)
  {
    NULL
  }

  /** `unpackNull(packed)`. */
  predicate UnpackNull(dp: DatePacker, packed: Int32): (b: bool)
    ensures b <==> packed == PackNull(dp)
  {
    packed == NULL
  }

  /** `pack(LocalDate)`: an absent date packs to NULL, a present one by its fields. */
  function PackLocalDate(dp: DatePacker, localDate: Option<LocalDate>): (r: Outcome)
    ensures localDate.None? ==> r.Returned? && UnpackNull(dp, r.value)
    ensures localDate.Some? && ValidDate(localDate.value.year, localDate.value.month, localDate.value.day) ==>
              r == Returned(RawPack(PackingOf(dp), localDate.value.year, localDate.value.month, localDate.value.day))
  {
    match localDate
    case None => Returned(PackNull(dp))
    case Some(d) => Pack(dp, d.year, d.month, d.day)
  }

  /** `forValidationMethod(vm)`: the cached instance with this packing and method `vm`. */
  function ForValidationMethod(dp: DatePacker, vm: ValidationMethod): (r: DatePacker)
    ensures PackingOf(r) == PackingOf(dp) && MethodOf(r) == vm
  {
    InstanceOf(PackingOf(dp), vm)
  }

  /**
   * `isValid(packed)`: always checks through the INVALIDATE_RESULT instance of
   * the same packing, whose `unpackDay` checks all three fields and never throws.
   */
  predicate IsValid(dp: DatePacker, packed: Int32): (b: bool)
    ensures b <==> packed != INVALID && (packed == NULL || RawFieldsValid(PackingOf(dp), packed))
  {
    CachedUnpackDay(PackingOf(dp), InvalidateResult, packed);
    packed != INVALID &&
    (packed == NULL || UnpackDay(ForValidationMethod(dp, InvalidateResult), packed) != Returned(INVALID))
  }

  /** `validate(packed)`: validation with the packer's own method. */
  function Validate(dp: DatePacker, packed: Int32): (r: Outcome)
    ensures MethodOf(dp) == Unvalidated ==> r == Returned(packed)
    ensures MethodOf(dp) != Unvalidated ==>
              (IsValid(dp, packed) <==> packed != INVALID && r == Returned(packed))
  {
    ValidateWith(dp, packed, MethodOf(dp))
  }

  /**
   * `validate(packed, vm)`: NULL and an unvalidated request pass through;
   * otherwise the instance for `vm` unpacks the day, which checks all fields.
   */
  function ValidateWith(dp: DatePacker, packed: Int32, vm: ValidationMethod): (r: Outcome)
    ensures packed == NULL || vm == Unvalidated ==> r == Returned(packed)
    ensures packed != NULL && vm != Unvalidated && RawFieldsValid(PackingOf(dp), packed) ==>
              r == Returned(packed)
    ensures packed != NULL && vm != Unvalidated && !RawFieldsValid(PackingOf(dp), packed) ==>
              var p := PackingOf(dp);
              var y, m, d := RawUnpackYear(p, packed), RawUnpackMonth(p, packed), RawUnpackDay(p, packed);
              var f := FirstInvalidField(y, m, d);
              r == Reject(vm, f, FieldValue(f, y, m, d))
  {
    if packed == NULL || vm == Unvalidated then Returned(packed)
    else
      CachedUnpackDay(PackingOf(dp), vm, packed);
      match UnpackDay(ForValidationMethod(dp, vm), packed)
      case Thrown(f, v) => Thrown(f, v)
      case Returned(day) => if day != INVALID then Returned(packed) else Returned(INVALID)
  }

  /**
   * `packFromDate(packedDate, packing)` as written: an unvalidated packer of
   * the same packing returns its input; otherwise the date is unpacked by the
   * instance for `packing` and this packer's method and packed again, with the
   * unpacked MONTH passed as the day.
   */
  function PackFromDate(dp: DatePacker, packedDate: Int32, packing: Packing): Outcome
  {
    if packing == PackingOf(dp) && MethodOf(dp) == Unvalidated then Returned(packedDate)
    else
      var source := InstanceOf(packing, MethodOf(dp));
      match UnpackYear(source, packedDate)
      case Thrown(f, v) => Thrown(f, v)
      case Returned(year) =>
        match UnpackMonth(source, packedDate)
        case Thrown(f, v) => Thrown(f, v)
        case Returned(month) =>
          match UnpackMonth(source, packedDate)
          case Thrown(f, v) => Thrown(f, v)
          case Returned(day) => Pack(dp, year, month, day)
  }

  /** `packFromDate` as evidently intended: the third field is the unpacked day. */
  function PackFromDateCorrected(dp: DatePacker, packedDate: Int32, packing: Packing): Outcome
  {
    if packing == PackingOf(dp) && MethodOf(dp) == Unvalidated then Returned(packedDate)
    else
      var source := InstanceOf(packing, MethodOf(dp));
      match UnpackYear(source, packedDate)
      case Thrown(f, v) => Thrown(f, v)
      case Returned(year) =>
        match UnpackMonth(source, packedDate)
        case Thrown(f, v) => Thrown(f, v)
        case Returned(month) =>
          match UnpackDay(source, packedDate)
          case Thrown(f, v) => Thrown(f, v)
          case Returned(day) => Pack(dp, year, month, day)
  }
}
