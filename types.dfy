/**
  The vocabulary shared by the conversion traits of `postgres-types`: type
  descriptors and their kinds, the boxed error of a failed conversion, the
  `IsNull` flag of an encoder, and wire bytes.
 */
module PostgresTypes {

  /** One byte of the PostgreSQL binary wire format. */
  newtype byte = x: int | 0 <= x < 256

  /** A boxed `dyn Error`: only its description is observable here. */
  datatype Error = Error(description: string)

  /** The fixed error returned for an array with more than one dimension. */
  const TooManyDimensions: Error := Error("array contains too many dimensions")

  /** `Result<T, Box<dyn Error + Sync + Send>>`, usable with `:-` like Rust's `?`. */
  datatype Result<+T> = Ok(value: T) | Err(error: Error) {

    predicate IsFailure() {
      Err?
    }

    function PropagateFailure<U>(): Result<U>
      requires Err?
    {
      Err(error)
    }

    function Extract(): T
      requires Ok?
    {
      value
    }
  }

  datatype Option<+T> = None | Some(value: T)

  /** One encoded array element as the wire format delivers it: `None` is SQL NULL. */
  type RawValue = Option<seq<byte>>

  /** Whether an encoder wrote a value or a SQL NULL. */
  datatype IsNull = Yes | No

  /** A PostgreSQL type descriptor; the adapter consults only its kind. */
  datatype Type = Type(name: string, oid: nat, kind: Kind)

  /** The structural kind of a type; `Array(member)` is an array of `member`. */
  datatype Kind =
    | Simple
    | Enum(variants: seq<string>)
    | Pseudo
    | Array(member: Type)
    | Range(subtype: Type)
    | Multirange(rangeType: Type)
    | Domain(baseType: Type)
    | Composite(fields: seq<Field>)

  /** A named, typed field of a composite type. */
  datatype Field = Field(name: string, fieldType: Type)
}
