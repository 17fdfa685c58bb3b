/** Logical types of Vortex columns. */
module Types {
  import opened Wrappers

  datatype Kind =
    | KNull | KBool
    | KU8 | KU16 | KU32 | KU64
    | KI8 | KI16 | KI32 | KI64
    | KF16 | KF32 | KF64
    | KUtf8 | KBinary
    | KStruct | KExtension
    | KOther(name: string)

  /** `fields` belongs to structs and `storage` to extensions; field names are
      not part of the model. */
  datatype Type = Type(kind: Kind, nullable: bool, fields: seq<Type>, storage: Option<Type>) {

    /** Bytes of one value, 0 for kinds without a fixed word. */
    function Width(): nat {
      match kind
      case KBool => 1
      case KU8 => 1
      case KI8 => 1
      case KU16 => 2
      case KI16 => 2
      case KF16 => 2
      case KU32 => 4
      case KI32 => 4
      case KF32 => 4
      case KU64 => 8
      case KI64 => 8
      case KF64 => 8
      case _ => 0
    }

    predicate IsSigned() { kind in {KI8, KI16, KI32, KI64} }

    predicate IsInteger() { IsSigned() || kind in {KU8, KU16, KU32, KU64} }
  }

  /** A type without fields or storage. */
  function Plain(kind: Kind, nullable: bool): Type {
    Type(kind, nullable, [], None)
  }
}
