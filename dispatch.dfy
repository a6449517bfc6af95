/**
 * getTruncator: the choice of truncator from a column's primitive type and its
 * original (logical) type annotation.
 */
module Dispatch {
  import opened Wrappers
  import opened BinaryTruncator

  /** The physical types of the storage format. */
  datatype PrimitiveTypeName =
    Int64 | Int32 | Boolean | Binary | Float | Double | Int96 | FixedLenByteArray

  /** The original-type annotations of the storage format. */
  datatype OriginalType =
    | Map | List | Utf8 | MapKeyValue | Enum | Decimal | Date
    | TimeMillis | TimeMicros | TimestampMillis | TimestampMicros
    | Uint8 | Uint16 | Uint32 | Uint64 | Int8 | Int16 | Int32Annotation | Int64Annotation
    | Json | Bson | Interval

  /** A column type: its primitive type name and optional original type. */
  datatype PrimitiveType = PrimitiveType(name: PrimitiveTypeName, originalType: Option<OriginalType>)

  datatype Error = IllegalArgument(message: string)

  /** Byte-array physical types, whose values the UTF-8 truncator may shorten. */
  predicate IsByteArray(name: PrimitiveTypeName) {
    name == Binary || name == FixedLenByteArray
  }

  /** Annotations that mark a byte array as text (or a byte string compared as such). */
  predicate IsTextLike(o: Option<OriginalType>) {
    o == None || o == Some(Utf8) || o == Some(Enum) || o == Some(Json) || o == Some(Bson)
  }

  /**
   * A missing type and INT96 get the no-op truncator; BINARY and FIXED_LEN_BYTE_ARRAY get
   * the UTF-8 truncator when unannotated or annotated UTF8, ENUM, JSON or BSON, and the
   * no-op truncator under any other annotation; every other primitive type is an error.
   */
  function GetTruncator(t: Option<PrimitiveType>): (r: Result<Truncator, Error>)
    ensures r.Failure? <==> t.Some? && t.value.name != Int96 && !IsByteArray(t.value.name)
    ensures r == Success(DefaultUtf8) <==>
      t.Some? && IsByteArray(t.value.name) && IsTextLike(t.value.originalType)
    ensures r == Success(NoOp) <==>
      t.None? || t.value.name == Int96 || (IsByteArray(t.value.name) && !IsTextLike(t.value.originalType))
  {
    match t
    case None => Success(NoOp)
    case Some(pt) =>
      match pt.name
      case Int96 => Success(NoOp)
      case Binary | FixedLenByteArray =>
        (match pt.originalType
         case None => Success(DefaultUtf8)
         case Some(o) =>
           (match o
            case Utf8 | Enum | Json | Bson => Success(DefaultUtf8)
            case _ => Success(NoOp)))
      case _ => Failure(IllegalArgument("No truncator is available for the type"))
  }

  /**
   * Whatever truncator the table selects, its min and max are bounds of the value:
   * truncated min <= value <= truncated max in unsigned lexicographic order.
   */
  lemma SelectedTruncatorKeepsBounds(t: Option<PrimitiveType>, v: seq<Bytes.byte>, length: nat)
    requires GetTruncator(t).Success?
    ensures var tr := GetTruncator(t).value;
      Bytes.LexLe(TruncatedMin(tr, v, length), v) && Bytes.LexLe(v, TruncatedMax(tr, v, length))
  {
    TruncatedMinIsLowerBound(GetTruncator(t).value, v, length);
    TruncatedMaxIsUpperBound(GetTruncator(t).value, v, length);
  }
}
