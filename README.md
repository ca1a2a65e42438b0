# ThinVec array adapter of postgres-types, in Dafny

This project models the `FromSql`/`ToSql` implementation for `ThinVec<T>` in
`postgres-types` (`postgres-types/src/thin_vec_02.rs`). The adapter turns a
PostgreSQL binary array value into a `ThinVec<T>` and writes a `ThinVec<T>` back
out. The model proves what the adapter itself decides:

- the type kind must be an array kind;
- more than one dimension is refused;
- each value is decoded in order and pushed;
- the first failure aborts the decode.

Everything else is code from other crates or from the element type. It enters
the model as function parameters:

- the array parser `postgres_protocol::types::array_from_sql` is an `ArrayParser`;
- the element decoder `T::from_sql_nullable` is an `ElementDecoder<T>`;
- `T::accepts` and `<&[T] as ToSql>::accepts` are a `TypeAccepts`;
- the slice encoder `<&[T] as ToSql>::to_sql` is a `SliceEncoder<T>`.

Files:

- `types.dfy` (module `PostgresTypes`) holds the shared vocabulary: `Type` and
  its `Kind`, the boxed error, a `Result` usable with `:-` (standing for Rust's
  `?`), `IsNull` and bytes.
- `protocol.dfy` (module `ArrayProtocol`) holds what the adapter sees of a
  parsed array. That is a `WireArray` value with:
  - the outcome of counting the dimensions;
  - the iterator's size hint;
  - the element values (`None` is SQL NULL);
  - how the value iterator ends: normally, or with an error.

  It also holds the fallible value iterator, the class `ArrayValues`, whose
  `Next` advances a position.
- `thin_vec_02.dfy` (module `ThinVec02`) holds the adapter itself:
  - `FromSql` is a method. Its `while` loop pulls values from an `ArrayValues`
    object and appends each decoded element to a sequence, which stands for the
    `ThinVec`. The method is proved equal to the function `FromSqlSpec`. That
    function is built on `Collect`, which decodes the values in order and stops
    at the first error.
  - The lemmas then state, for all inputs: the error cases, the dimension
    guard, element order, the first-failure rule, independence from the size
    hint, and a round trip through `ToSql`.

The source's guard is `count > 1`. An array with zero dimensions therefore
goes on to element decoding, just like one with a single dimension. PostgreSQL
sends an empty array with zero dimensions. The model follows this code: a
zero-dimension array is accepted, not rejected, and zero and one dimension
both go on to decode the elements (`DimensionGuard`).

## Model

| member | source | states |
|---|---|---|
| ThinVec02.FromSql | postgres-types/src/thin_vec_02.rs:14-35 | For an array-kind type: the outcome of the decode/push loop is exactly `FromSqlSpec`. The loop invariant is that the pushed prefix followed by the decode of the remaining values gives the decode of all values. A non-array kind is the source's panic, so it is a precondition. |
| ThinVec02.FromSqlSpec | postgres-types/src/thin_vec_02.rs:14-34 | Success happens exactly when four things hold: the buffer parses, the dimensions count to at most 1, the iterator ends normally, and every value decodes. The elements are then the decoded values, with the same count and in source order. |
| ThinVec02.Collect | postgres-types/src/thin_vec_02.rs:27-34 | The collect loop succeeds exactly when the iterator ends normally and every value decodes. It then returns one element per value, element `i` being the decode of value `i`. |
| ThinVec02.FirstFailure | postgres-types/src/thin_vec_02.rs:30-31 | The index of the first value that fails to decode, or the number of values: every value before it decodes, and the value at it does not. |
| ThinVec02.CollectStopsAtFirstFailure | postgres-types/src/thin_vec_02.rs:30-31 | The collect loop fails with exactly the error of the first failing value. If no value fails but the iterator ends in error, it fails with exactly that error. |
| ThinVec02.CollectIgnoresLaterValues | postgres-types/src/thin_vec_02.rs:30-31 | The outcome does not depend on any value after the first failing one, nor on how the iterator would have ended. No later value is decoded. |
| ThinVec02.HeaderFailure | postgres-types/src/thin_vec_02.rs:20-21 | A parse failure, or a failure while counting dimensions, is returned unchanged as the result. |
| ThinVec02.DimensionGuard | postgres-types/src/thin_vec_02.rs:21-23 | More than one dimension gives `Err("array contains too many dimensions")` whatever the values. Zero or one dimension gives the collect loop's result over the values. |
| ThinVec02.FromSqlFirstFailure | postgres-types/src/thin_vec_02.rs:30-31 | Once the header is accepted, the decode fails with exactly the first failing element's error. If every element decodes, it fails with the iterator's own error. No partial container is returned. |
| ThinVec02.EmptyArray | postgres-types/src/thin_vec_02.rs:27-34 | An accepted header with no values and a normal end decodes to the empty container. |
| ThinVec02.SizeHintIrrelevant | postgres-types/src/thin_vec_02.rs:28 | Two parsers that agree on everything but the size hint, which sizes the container's capacity, give the same decoded result. |
| ThinVec02.Accepts | postgres-types/src/thin_vec_02.rs:37-42 | True exactly when the kind is `Array(inner)` and the element type accepts `inner`. Every other kind gives false. |
| ThinVec02.ToSql | postgres-types/src/thin_vec_02.rs:46-48 | Writing gives exactly the slice encoder's outcome and output buffer for the same elements in the same order. |
| ThinVec02.ToSqlAccepts | postgres-types/src/thin_vec_02.rs:50-52 | The encode acceptance predicate is exactly the slice encoder's acceptance predicate. |
| ThinVec02.RoundTrip | postgres-types/src/thin_vec_02.rs:14-48 | Suppose the slice encoder writes a non-NULL value. Suppose the parser reads it back as an array of at most one dimension with a normal end. Suppose the element decoder maps its values back to the elements. Then decoding what `ToSql` wrote gives back exactly the elements. |
| ArrayProtocol.ArrayValues.constructor | postgres-types/src/thin_vec_02.rs:27 | `array.values()` gives an iterator over all of the array's values, positioned before the first. |
| ArrayProtocol.ArrayValues.Next | postgres-types/src/thin_vec_02.rs:30 | `values.next()` yields the next value and advances. Once the values are exhausted, it gives `Ok(None)` at a normal end or the iterator's error, and does not advance. |

## Left out

- The binary layout of PostgreSQL arrays and the parser `array_from_sql` belong to `postgres_protocol`, which is not part of this model. Their output is an abstract `WireArray`.
- The element-level `T::from_sql_nullable` and `T::accepts` depend on the element type. They are function parameters, and NULL handling is whatever the decoder does with `None`.
- The `to_sql_checked!` macro and the `BytesMut` writes are left out. The output buffer is a byte sequence passed in and returned.
- ToSql: its contract is only delegation to the slice encoder, because `<&[T] as ToSql>::to_sql` is foreign code whose behaviour is unknown here.
- `ThinVec`'s memory layout and capacity are left out. The container is the sequence of its elements, and the capacity computed from the size hint is read but has no effect.
- Allocation failure is not modelled: `ThinVec::with_capacity` on a huge size hint from the wire header can abort or panic with a capacity overflow before the iterator reports any error, and the model allocates nothing.
- `Box<dyn Error + Sync + Send>` is reduced to a description string.
- The non-array variants of `Kind` and the rest of `Type` (name, OID) are defined in `postgres-types/src/lib.rs`, which is not part of this model. They are listed only so that "not an array" can be expressed.
- The panic on a non-array kind is not modelled as behaviour. It is the precondition of `FromSql` and `FromSqlSpec`, and `Accepts` returning true implies it.
