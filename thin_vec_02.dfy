/**
  The `FromSql`/`ToSql` adapter for `ThinVec<T>` of `postgres-types`
  (`postgres-types/src/thin_vec_02.rs`). A `ThinVec<T>` is modelled by its
  contents, a `seq<T>`. The element type's own conversions, the array parser
  and the slice encoder are foreign code and are passed in as functions.
 */
module ThinVec02 {
  import opened PostgresTypes
  import opened ArrayProtocol

  /** `T::from_sql_nullable(member_type, value)`: decodes one element, NULL included. */
  type ElementDecoder<T> = (Type, RawValue) -> Result<T>

  /** An acceptance predicate such as `T::accepts` or `<&[T] as ToSql>::accepts`. */
  type TypeAccepts = Type -> bool

  /**
    `<&[T] as ToSql>::to_sql`: given the elements, the target type and the
    output buffer, it gives the outcome and the buffer after writing.
   */
  type SliceEncoder<!T> = (seq<T>, Type, seq<byte>) -> (Result<IsNull>, seq<byte>)

  // ---------------------------------------------------------------------------
  // Decoding: the specification

  /** `xs` is, element by element and in order, what `decode` makes of `values`. */
  ghost predicate DecodedFrom<T>(member: Type, values: seq<RawValue>, decode: ElementDecoder<T>, xs: seq<T>)
  {
    |xs| == |values| &&
    forall i :: 0 <= i < |values| ==> decode(member, values[i]) == Ok(xs[i])
  }

  /** Puts `prefix` in front of a successful result; an error passes through. */
  function Cons<T>(prefix: seq<T>, rest: Result<seq<T>>): Result<seq<T>>
  {
    match rest
    case Ok(xs) => Ok(prefix + xs)
    case Err(e) => Err(e)
  }

  /**
    The collect loop as a function: decode the values in order, stopping at
    the first decoding error; once the values are exhausted, the iterator's
    own end decides between success and its error.
   */
  function Collect<T>(member: Type, values: seq<RawValue>, valuesEnd: Option<Error>, decode: ElementDecoder<T>)
    : (r: Result<seq<T>>)
    ensures r.Ok? <==>
      valuesEnd.None? && forall i :: 0 <= i < |values| ==> decode(member, values[i]).Ok?
    ensures r.Ok? ==> DecodedFrom(member, values, decode, r.value)
    decreases |values|
  {
    if values == [] then
      match valuesEnd
      case None => Ok([])
      case Some(e) => Err(e)
    else
      match decode(member, values[0])
      case Err(e) => Err(e)
      case Ok(x) =>
        var rest := Collect(member, values[1..], valuesEnd, decode);
        assert forall i :: 1 <= i < |values| ==> values[i] == values[1..][i - 1];
        Cons([x], rest)
  }

  /** The index of the first value that fails to decode, or `|values|` if none does. */
  function FirstFailure<T>(member: Type, values: seq<RawValue>, decode: ElementDecoder<T>): (k: nat)
    ensures k <= |values|
    ensures forall i :: 0 <= i < k ==> decode(member, values[i]).Ok?
    ensures k < |values| ==> decode(member, values[k]).Err?
    decreases |values|
  {
    if values == [] then 0
    else if decode(member, values[0]).Err? then 0
    else
      var k := FirstFailure(member, values[1..], decode);
      assert forall i :: 1 <= i < |values| ==> values[i] == values[1..][i - 1];
      1 + k
  }

  /**
    `from_sql` as a function of its inputs. Its precondition is the source's
    panic on a non-array kind.
   */
  function FromSqlSpec<T>(ty: Type, raw: seq<byte>, parse: ArrayParser, decode: ElementDecoder<T>)
    : (r: Result<seq<T>>)
    requires ty.kind.Array?
    ensures r.Ok? <==>
      && parse(raw).Ok?
      && parse(raw).value.dimensionCount.Ok?
      && parse(raw).value.dimensionCount.value <= 1
      && parse(raw).value.valuesEnd.None?
      && forall i :: 0 <= i < |parse(raw).value.values| ==>
           decode(ty.kind.member, parse(raw).value.values[i]).Ok?
    ensures r.Ok? ==> DecodedFrom(ty.kind.member, parse(raw).value.values, decode, r.value)
  {
    match parse(raw)
    case Err(e) => Err(e)
    case Ok(arr) =>
      match arr.dimensionCount
      case Err(e) => Err(e)
      case Ok(n) =>
        if n > 1 then Err(TooManyDimensions)
        else Collect(ty.kind.member, arr.values, arr.valuesEnd, decode)
  }

  // ---------------------------------------------------------------------------
  // Decoding: the method

  /**
    `FromSql::from_sql`: parse the buffer, refuse more than one dimension,
    then pull values from the iterator and push each decoded element, the
    first failure returning at once.
   */
  method FromSql<T>(ty: Type, raw: seq<byte>, parse: ArrayParser, decode: ElementDecoder<T>)
    returns (r: Result<seq<T>>)
    requires ty.kind.Array?
    ensures r == FromSqlSpec(ty, raw, parse, decode)
  {
    var memberType := ty.kind.member;
    var arr :- parse(raw);
    var dimensions :- arr.dimensionCount;
    if dimensions > 1 {
      return Err(TooManyDimensions);
    }
    var values := new ArrayValues(arr);
    // `ThinVec::with_capacity(values.size_hint().0)`: the capacity only
    // reserves storage, and the container is modelled by its contents.
    var capacity := values.sizeHint;
    var v: seq<T> := [];
    ghost var whole := Collect(memberType, arr.values, arr.valuesEnd, decode);
    assert whole.Ok? ==> [] + whole.value == whole.value;
    while true
      invariant values.Valid()
      invariant whole == Cons(v, Collect(memberType, values.Remaining(), arr.valuesEnd, decode))
      decreases |arr.values| - values.pos
    {
      ghost var remaining := values.Remaining();
      var next :- values.Next();
      match next {
        case None =>
          assert values.Remaining() == [] && v + [] == v;
          break;
        case Some(value) =>
          assert remaining != [] && remaining[0] == value && remaining[1..] == values.Remaining();
          CollectUnfold(memberType, remaining, arr.valuesEnd, decode);
          var element :- decode(memberType, value);
          ConsAppend(v, element, Collect(memberType, values.Remaining(), arr.valuesEnd, decode));
          v := v + [element];
      }
    }
    return Ok(v);
  }

  /** One step of `Collect` on a non-empty sequence of values. */
  lemma CollectUnfold<T>(member: Type, values: seq<RawValue>, valuesEnd: Option<Error>, decode: ElementDecoder<T>)
    requires values != []
    ensures Collect(member, values, valuesEnd, decode) ==
      match decode(member, values[0])
      case Err(e) => Err(e)
      case Ok(x) => Cons([x], Collect(member, values[1..], valuesEnd, decode))
  {
  }

  /** Pushing one element onto the decoded prefix. */
  lemma ConsAppend<T>(prefix: seq<T>, x: T, rest: Result<seq<T>>)
    ensures Cons(prefix, Cons([x], rest)) == Cons(prefix + [x], rest)
  {
    if rest.Ok? {
      assert prefix + ([x] + rest.value) == (prefix + [x]) + rest.value;
    }
  }

  // ---------------------------------------------------------------------------
  // Decoding: properties

  /**
    The first failure decides the error: the first element that fails to
    decode, or else the iterator's own error after the last element.
   */
  lemma {:induction false} CollectStopsAtFirstFailure<T>(
    member: Type, values: seq<RawValue>, valuesEnd: Option<Error>, decode: ElementDecoder<T>)
    ensures var k := FirstFailure(member, values, decode);
      k < |values| ==> Collect(member, values, valuesEnd, decode) == Err(decode(member, values[k]).error)
    ensures var k := FirstFailure(member, values, decode);
      k == |values| && valuesEnd.Some? ==> Collect(member, values, valuesEnd, decode) == Err(valuesEnd.value)
    decreases |values|
  {
    if values != [] && decode(member, values[0]).Ok? {
      CollectStopsAtFirstFailure(member, values[1..], valuesEnd, decode);
      assert values[1..][FirstFailure(member, values[1..], decode)..] ==
             values[1 + FirstFailure(member, values[1..], decode)..];
    }
  }

  /**
    Nothing after the first failing element is looked at: values after it,
    and how the iterator would have ended, do not change the outcome.
   */
  lemma {:induction false} CollectIgnoresLaterValues<T>(
    member: Type, values: seq<RawValue>, valuesEnd: Option<Error>,
    values': seq<RawValue>, valuesEnd': Option<Error>, decode: ElementDecoder<T>)
    requires FirstFailure(member, values, decode) < |values|
    requires FirstFailure(member, values, decode) < |values'|
    requires values'[..FirstFailure(member, values, decode) + 1] == values[..FirstFailure(member, values, decode) + 1]
    ensures Collect(member, values', valuesEnd', decode) == Collect(member, values, valuesEnd, decode)
    decreases |values|
  {
    assert values'[0] == values'[..1][0] == values[..1][0] == values[0];
    if decode(member, values[0]).Ok? {
      var k := FirstFailure(member, values[1..], decode);
      assert values'[1..][..k + 1] == values'[..k + 2][1..];
      assert values[1..][..k + 1] == values[..k + 2][1..];
      CollectIgnoresLaterValues(member, values[1..], valuesEnd, values'[1..], valuesEnd', decode);
    }
  }

  /** Zero and one dimensions both go on to decode the elements; more are refused. */
  lemma DimensionGuard<T>(ty: Type, raw: seq<byte>, parse: ArrayParser, decode: ElementDecoder<T>)
    requires ty.kind.Array? && parse(raw).Ok? && parse(raw).value.dimensionCount.Ok?
    ensures parse(raw).value.dimensionCount.value > 1 ==>
      FromSqlSpec(ty, raw, parse, decode) == Err(TooManyDimensions)
    ensures parse(raw).value.dimensionCount.value <= 1 ==>
      FromSqlSpec(ty, raw, parse, decode) ==
        Collect(ty.kind.member, parse(raw).value.values, parse(raw).value.valuesEnd, decode)
  {
  }

  /** A failure to parse the buffer or to count its dimensions is returned unchanged. */
  lemma HeaderFailure<T>(ty: Type, raw: seq<byte>, parse: ArrayParser, decode: ElementDecoder<T>)
    requires ty.kind.Array?
    ensures parse(raw).Err? ==> FromSqlSpec(ty, raw, parse, decode) == Err(parse(raw).error)
    ensures parse(raw).Ok? && parse(raw).value.dimensionCount.Err? ==>
      FromSqlSpec(ty, raw, parse, decode) == Err(parse(raw).value.dimensionCount.error)
  {
  }

  /**
    Once the header is accepted, `from_sql` fails with exactly the error of the
    first element that fails to decode, or, if every element decodes, with the
    iterator's own error.
   */
  lemma FromSqlFirstFailure<T>(ty: Type, raw: seq<byte>, parse: ArrayParser, decode: ElementDecoder<T>)
    requires ty.kind.Array? && parse(raw).Ok?
    requires parse(raw).value.dimensionCount.Ok? && parse(raw).value.dimensionCount.value <= 1
    ensures var arr := parse(raw).value;
      var k := FirstFailure(ty.kind.member, arr.values, decode);
      k < |arr.values| ==>
        FromSqlSpec(ty, raw, parse, decode) == Err(decode(ty.kind.member, arr.values[k]).error)
    ensures var arr := parse(raw).value;
      FirstFailure(ty.kind.member, arr.values, decode) == |arr.values| && arr.valuesEnd.Some? ==>
        FromSqlSpec(ty, raw, parse, decode) == Err(arr.valuesEnd.value)
  {
    var arr := parse(raw).value;
    CollectStopsAtFirstFailure(ty.kind.member, arr.values, arr.valuesEnd, decode);
  }

  /** An array without elements that ends normally decodes to an empty container. */
  lemma EmptyArray<T>(ty: Type, raw: seq<byte>, parse: ArrayParser, decode: ElementDecoder<T>)
    requires ty.kind.Array? && parse(raw).Ok?
    requires parse(raw).value.dimensionCount.Ok? && parse(raw).value.dimensionCount.value <= 1
    requires parse(raw).value.values == [] && parse(raw).value.valuesEnd.None?
    ensures FromSqlSpec(ty, raw, parse, decode) == Ok([])
  {
  }

  /**
    The size hint that sizes the container's capacity does not affect what is
    decoded: two parsers that agree on everything but the size hint give the
    same result.
   */
  lemma SizeHintIrrelevant<T>(ty: Type, raw: seq<byte>, parse: ArrayParser, parse': ArrayParser, decode: ElementDecoder<T>)
    requires ty.kind.Array?
    requires parse(raw).Err? ==> parse'(raw) == parse(raw)
    requires parse(raw).Ok? ==>
      parse'(raw).Ok? && parse'(raw).value.(sizeHint := 0) == parse(raw).value.(sizeHint := 0)
    ensures FromSqlSpec(ty, raw, parse', decode) == FromSqlSpec(ty, raw, parse, decode)
  {
  }

  // ---------------------------------------------------------------------------
  // Acceptance and encoding

  /** `FromSql::accepts`: an array type whose member type the element type accepts. */
  function Accepts(ty: Type, memberAccepts: TypeAccepts): (b: bool)
    ensures b <==> ty.kind.Array? && memberAccepts(ty.kind.member)
  {
    match ty.kind
    case Array(inner) => memberAccepts(inner)
    case _ => false
  }

  /** `ToSql::to_sql`: the contents, as a slice in the same order, go to the slice encoder. */
  function ToSql<T>(elements: seq<T>, ty: Type, w: seq<byte>, encodeSlice: SliceEncoder<T>)
    : (r: (Result<IsNull>, seq<byte>))
    ensures r == encodeSlice(elements, ty, w)
  {
    encodeSlice(elements, ty, w)
  }

  /** `ToSql::accepts`: the slice encoder's acceptance predicate. */
  function ToSqlAccepts(ty: Type, sliceAccepts: TypeAccepts): (b: bool)
    ensures b == sliceAccepts(ty)
  {
    sliceAccepts(ty)
  }

  /**
    Round trip: when the slice encoder writes bytes that the parser reads back
    as an array of at most one dimension whose values the element decoder
    maps back to the elements, decoding what `ToSql` wrote gives the elements.
   */
  lemma RoundTrip<T>(
    elements: seq<T>, ty: Type, parse: ArrayParser, decode: ElementDecoder<T>, encodeSlice: SliceEncoder<T>)
    requires ty.kind.Array?
    requires ToSql(elements, ty, [], encodeSlice).0 == Ok(IsNull.No)
    requires var parsed := parse(ToSql(elements, ty, [], encodeSlice).1);
      && parsed.Ok?
      && parsed.value.dimensionCount.Ok? && parsed.value.dimensionCount.value <= 1
      && parsed.value.valuesEnd.None?
      && DecodedFrom(ty.kind.member, parsed.value.values, decode, elements)
    ensures FromSqlSpec(ty, ToSql(elements, ty, [], encodeSlice).1, parse, decode) == Ok(elements)
  {
    var written := ToSql(elements, ty, [], encodeSlice).1;
    var r := FromSqlSpec(ty, written, parse, decode);
    var values := parse(written).value.values;
    assert forall i :: 0 <= i < |values| ==> decode(ty.kind.member, values[i]).Ok?;
    assert r.value == elements by {
      forall i | 0 <= i < |elements| ensures r.value[i] == elements[i] {
        assert decode(ty.kind.member, values[i]) == Ok(r.value[i]);
      }
    }
  }
}
