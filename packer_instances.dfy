/**
 * The cache of packer instances: a table indexed by the ordinals of packing
 * and validation method, built once and only read afterwards.
 */
module PackerInstances {
  import opened DateValidator
  import opened DatePacking

  const PACKING_COUNT: nat := 2
  const VALIDATION_METHOD_COUNT: nat := 3

  /** The instance that belongs in the cell at ordinals (`p`, `v`). */
  function CellSpec(p: nat, v: nat): DatePacker
    requires p < PACKING_COUNT && v < VALIDATION_METHOD_COUNT
  {
    InstanceOf(PackingByOrdinal(p), ValidationMethodByOrdinal(v))
  }

  class Instances {
    /** Row: packing ordinal; column: validation method ordinal; `None` is a Java null. */
    const byPackingAndValidationMethod: array2<Option<DatePacker>>

    /** Every cell holds the cached instance for its packing and validation method. */
    ghost predicate Valid()
      reads byPackingAndValidationMethod
    {
      var t := byPackingAndValidationMethod;
      t.Length0 == PACKING_COUNT && t.Length1 == VALIDATION_METHOD_COUNT &&
      forall p, v :: 0 <= p < PACKING_COUNT && 0 <= v < VALIDATION_METHOD_COUNT ==>
        t[p, v] == Some(CellSpec(p, v))
    }

    /** The static initialiser of the table. */
    constructor ()
      ensures Valid()
    {
      var table := InstancesByPackingAndValidationMethod();
      byPackingAndValidationMethod := table;
    }

    /**
     * `valueOf(packing, validationMethod)`: the cell at the two ordinals, which
     * has the requested packing and method, and is a raw codec exactly when
     * the method is unvalidated.
     */
    method ValueOf(packing: Packing, vm: ValidationMethod) returns (dp: DatePacker)
      requires Valid()
      ensures PackingOf(dp) == packing && MethodOf(dp) == vm
      ensures dp.Raw? <==> vm == Unvalidated
      ensures dp.Validated? ==> dp.packer == Raw(packing)
    {
      var cell := byPackingAndValidationMethod[packing.Ordinal(), vm.Ordinal()];
      assert PackingByOrdinal(packing.Ordinal()) == packing;
      assert ValidationMethodByOrdinal(vm.Ordinal()) == vm;
      dp := cell.value;
    }
  }

  /**
   * Builds the table: the unvalidated column first gets the raw codecs, then
   * every other cell is a decorator around the raw codec of its row, with the
   * validation method of its column.
   */
  method InstancesByPackingAndValidationMethod() returns (instances: array2<Option<DatePacker>>)
    ensures fresh(instances)
    ensures instances.Length0 == PACKING_COUNT && instances.Length1 == VALIDATION_METHOD_COUNT
    ensures forall p, v :: 0 <= p < PACKING_COUNT && 0 <= v < VALIDATION_METHOD_COUNT ==>
              instances[p, v] == Some(CellSpec(p, v))
  {
    instances := new Option<DatePacker>[PACKING_COUNT, VALIDATION_METHOD_COUNT]((_, _) => None);
    var vOrdUnvalidated := Unvalidated.Ordinal();
    instances[Binary.Ordinal(), vOrdUnvalidated] := Some(BINARY);
    instances[Decimal.Ordinal(), vOrdUnvalidated] := Some(DECIMAL);
    var pOrd := 0;
    while pOrd < PACKING_COUNT
      invariant 0 <= pOrd <= PACKING_COUNT
      invariant forall p :: 0 <= p < PACKING_COUNT ==> instances[p, vOrdUnvalidated] == Some(Raw(PackingByOrdinal(p)))
      invariant forall p, v :: 0 <= p < pOrd && 0 <= v < VALIDATION_METHOD_COUNT ==>
                  instances[p, v] == Some(CellSpec(p, v))
    {
      var vOrd := 0;
      while vOrd < VALIDATION_METHOD_COUNT
        invariant 0 <= vOrd <= VALIDATION_METHOD_COUNT
        invariant forall p :: 0 <= p < PACKING_COUNT ==> instances[p, vOrdUnvalidated] == Some(Raw(PackingByOrdinal(p)))
        invariant forall p, v :: 0 <= p < pOrd && 0 <= v < VALIDATION_METHOD_COUNT ==>
                    instances[p, v] == Some(CellSpec(p, v))
        invariant forall v :: 0 <= v < vOrd ==> instances[pOrd, v] == Some(CellSpec(pOrd, v))
      {
        if vOrd != vOrdUnvalidated {
          var raw := instances[pOrd, vOrdUnvalidated].value;
          instances[pOrd, vOrd] := Some(Validated(raw, ValidationMethodByOrdinal(vOrd)));
        }
        vOrd := vOrd + 1;
      }
      pOrd := pOrd + 1;
    }
  }
}
