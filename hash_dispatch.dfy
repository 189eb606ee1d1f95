/**
 * The hash compilation the package installs for the PostgreSQL backend: an
 * ibis `Hash` over an argument is compiled to one of PostgreSQL's 64-bit
 * "extended" hash functions, chosen by the argument's data type and always
 * called with seed 0; any other data type is refused.
 */
module HashDispatch {
  import opened Outcomes
  import Text

  /** The ibis data types an argument can have. */
  datatype TypeKind =
    | Int8 | Int16 | Int32 | Int64
    | UInt8 | UInt16 | UInt32 | UInt64
    | Float16 | Float32 | Float64 | Decimal
    | Boolean | String | Binary
    | Date | Time | Timestamp | Interval
    | MacAddr | INet | Uuid | Json
    | Array | Map | Struct | NullType

  datatype DType = DType(kind: TypeKind, nullable: bool)

  /** The seed every generated hash call passes. */
  const HASH_SEED: int := 0

  /** A call of a backend function on the compiled argument and a seed. */
  datatype HashCall<A> = HashCall(name: string, arg: A, seed: int)

  datatype HashError = UnsupportedOperation(dtype: DType, dialect: string)

  /** Width in bytes of the signed integer and floating-point kinds. */
  function ByteWidth(k: TypeKind): nat
  {
    match k
    case Int8 => 1
    case Int16 => 2
    case Int32 => 4
    case Int64 => 8
    case Float16 => 2
    case Float32 => 4
    case Float64 => 8
    case _ => 0
  }

  predicate IsSignedInteger(k: TypeKind) { k.Int8? || k.Int16? || k.Int32? || k.Int64? }

  predicate IsFloating(k: TypeKind) { k.Float16? || k.Float32? || k.Float64? }

  /**
   * The kinds PostgreSQL has an extended hash function for: signed integers
   * and floats of 2, 4 or 8 and 4 or 8 bytes, text, and MAC addresses.
   */
  predicate Supported(k: TypeKind)
  {
    || (IsSignedInteger(k) && ByteWidth(k) in {2, 4, 8})
    || (IsFloating(k) && ByteWidth(k) in {4, 8})
    || k.String?
    || k.MacAddr?
  }

  /**
   * PostgreSQL's name of the type a supported kind is hashed as: integer and
   * float types are named by their width in bytes (int2, float8, ...).
   */
  function PgTypeName(k: TypeKind): string
    requires Supported(k)
  {
    if IsSignedInteger(k) then "int" + [Text.DigitChar(ByteWidth(k))]
    else if IsFloating(k) then "float" + [Text.DigitChar(ByteWidth(k))]
    else if k.String? then "text"
    else "macaddr8"
  }

  /** The supported kinds, one by one. */
  lemma SupportedKinds(k: TypeKind)
    ensures Supported(k) <==> k.Int16? || k.Int32? || k.Int64? || k.Float32? || k.Float64? || k.String? || k.MacAddr?
  {
    match k
    case Int8 =>
    case Float16 =>
    case _ =>
  }

  /** The name of a type's extended hash function: "hash", the type name, "extended". */
  function HashFunctionName(k: TypeKind): string
    requires Supported(k)
  {
    "hash" + PgTypeName(k) + "extended"
  }

  /** The backend's extended hash functions of the integer types. */
  lemma IntegerHashNames()
    ensures HashFunctionName(Int16) == "hashint2extended"
    ensures HashFunctionName(Int32) == "hashint4extended"
    ensures HashFunctionName(Int64) == "hashint8extended"
  {
    assert PgTypeName(Int16) == "int2" && PgTypeName(Int32) == "int4" && PgTypeName(Int64) == "int8";
  }

  /** The backend's extended hash functions of the floating-point types. */
  lemma FloatHashNames()
    ensures HashFunctionName(Float32) == "hashfloat4extended"
    ensures HashFunctionName(Float64) == "hashfloat8extended"
  {
    assert PgTypeName(Float32) == "float4" && PgTypeName(Float64) == "float8";
  }

  /** The backend's extended hash functions of text and MAC addresses. */
  lemma OtherHashNames()
    ensures HashFunctionName(String) == "hashtextextended"
    ensures HashFunctionName(MacAddr) == "hashmacaddr8extended"
  {
  }

  /**
   * `visit_Hash`: the compiled call for a `Hash` of `arg` whose type is
   * `dtype`, or the error raised for a type the backend cannot hash.
   */
  function VisitHash<A>(dtype: DType, arg: A, dialect: string): (r: Result<HashCall<A>, HashError>)
    ensures r.Ok? <==> Supported(dtype.kind)
    ensures r.Ok? ==> r.value.name == HashFunctionName(dtype.kind)
    ensures r.Ok? ==> r.value.arg == arg && r.value.seed == HASH_SEED
    ensures r.Err? ==> r.error == UnsupportedOperation(dtype, dialect)
  {
    var k := dtype.kind;
    IntegerHashNames();
    FloatHashNames();
    OtherHashNames();
    SupportedKinds(k);
    if k.Int16? then Ok(HashCall("hashint2extended", arg, 0))
    else if k.Int32? then Ok(HashCall("hashint4extended", arg, 0))
    else if k.Int64? then Ok(HashCall("hashint8extended", arg, 0))
    else if k.Float32? then Ok(HashCall("hashfloat4extended", arg, 0))
    else if k.Float64? then Ok(HashCall("hashfloat8extended", arg, 0))
    else if k.String? then Ok(HashCall("hashtextextended", arg, 0))
    else if k.MacAddr? then Ok(HashCall("hashmacaddr8extended", arg, 0))
    else Err(UnsupportedOperation(dtype, dialect))
  }

  /** Whether the type is nullable plays no part in the choice. */
  lemma DispatchIgnoresNullability<A>(k: TypeKind, arg: A, dialect: string)
    ensures VisitHash(DType(k, true), arg, dialect).Ok? == VisitHash(DType(k, false), arg, dialect).Ok?
    ensures VisitHash(DType(k, true), arg, dialect).Ok? ==>
              VisitHash(DType(k, true), arg, dialect).value == VisitHash(DType(k, false), arg, dialect).value
  {
  }

  /** Different supported kinds are hashed by different functions. */
  lemma DispatchInjective<A>(a: DType, b: DType, arg: A, dialect: string)
    requires VisitHash(a, arg, dialect).Ok? && VisitHash(b, arg, dialect).Ok?
    requires VisitHash(a, arg, dialect).value.name == VisitHash(b, arg, dialect).value.name
    ensures a.kind == b.kind
  {
    var na, nb := VisitHash(a, arg, dialect).value.name, VisitHash(b, arg, dialect).value.name;
    assert na[4..|na| - 8] == PgTypeName(a.kind);
    assert nb[4..|nb| - 8] == PgTypeName(b.kind);
  }

  /** A string argument, such as the salted split key, is hashed by `hashtextextended(arg, 0)`. */
  lemma StringHashCall<A>(nullable: bool, arg: A, dialect: string)
    ensures VisitHash(DType(String, nullable), arg, dialect) == Ok(HashCall("hashtextextended", arg, HASH_SEED))
  {
  }
}
