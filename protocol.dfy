/**
  What the adapter sees of a parsed PostgreSQL binary array: the result of
  `postgres_protocol::types::array_from_sql`. The byte layout and the parser
  itself belong to another crate; here a parsed array is an abstract value and
  its element iterator is a small stateful object.
 */
module ArrayProtocol {
  import opened PostgresTypes

  /**
    A parsed array header. `dimensionCount` is what counting the (fallible)
    dimension iterator gives; `values` are the elements the value iterator
    yields in order, and `valuesEnd` says how that iterator stops once they
    are exhausted: normally (`None`) or with an error. `sizeHint` is the lower
    bound the value iterator reports before it is advanced.
   */
  datatype WireArray = WireArray(
    dimensionCount: Result<nat>,
    sizeHint: nat,
    values: seq<RawValue>,
    valuesEnd: Option<Error>)

  /** The parser `array_from_sql`, supplied by the caller. */
  type ArrayParser = seq<byte> -> Result<WireArray>

  /** The fallible iterator returned by `array.values()`. */
  class ArrayValues {
    const values: seq<RawValue>
    const valuesEnd: Option<Error>
    const sizeHint: nat
    var pos: nat

    ghost predicate Valid()
      reads this
    {
      pos <= |values|
    }

    /** The elements the iterator has not yet yielded. */
    ghost function Remaining(): seq<RawValue>
      reads this
      requires Valid()
    {
      values[pos..]
    }

    /** `array.values()`: a fresh iterator positioned before the first element. */
    constructor (arr: WireArray)
      ensures Valid()
      ensures values == arr.values && valuesEnd == arr.valuesEnd
      ensures sizeHint == arr.sizeHint
      ensures pos == 0 && Remaining() == arr.values
    {
      values := arr.values;
      valuesEnd := arr.valuesEnd;
      sizeHint := arr.sizeHint;
      pos := 0;
    }

    /**
      `FallibleIterator::next`: the next element, or, once all are yielded,
      `Ok(None)` at a normal end and `Err(e)` when the iterator ends in error.
     */
    method Next() returns (r: Result<Option<RawValue>>)
      requires Valid()
      modifies this
      ensures Valid()
      ensures old(pos) < |values| ==>
        r == Ok(Some(values[old(pos)])) && pos == old(pos) + 1
      ensures old(pos) == |values| ==>
        pos == old(pos) &&
        r == (if valuesEnd.None? then Ok(None) else Err(valuesEnd.value))
    {
      if pos < |values| {
        r := Ok(Some(values[pos]));
        pos := pos + 1;
      } else if valuesEnd.None? {
        r := Ok(None);
      } else {
        r := Err(valuesEnd.value);
      }
    }
  }
}
