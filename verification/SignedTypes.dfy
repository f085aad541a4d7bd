/**
 `signed` and `unsigned` in front of a type name rename the type, since the interpreter knows widths and signs by
 name alone (crates/hxy-010-lang/src/parser.rs:1242-1271 and 1544-1575, crates/hxy-010-lang/src/interp.rs:629-703).
 */
module SignedTypes {
  import opened StmtGrammar

  /** The names of the built-in integers that a sign can be given to, by kind. */
  datatype Kind = Character | Byte | Int16 | Int32 | Int64

  function NamesOf(kind: Kind): seq<string> {
    match kind
    case Character => ["char", "uchar"]
    case Byte => ["byte", "ubyte"]
    case Int16 => ["short", "int16", "ushort", "uint16", "WORD"]
    case Int32 => ["int", "int32", "long", "LONG", "uint", "uint32", "ulong", "ULONG", "DWORD"]
    case Int64 => ["int64", "QUAD", "__int64", "uint64", "UQUAD", "ULONG64", "QWORD"]
  }

  /** The name of the kind with that sign. */
  function WithSign(kind: Kind, signed: bool): string {
    match kind
    case Character => if signed then "char" else "uchar"
    case Byte => if signed then "byte" else "ubyte"
    case Int16 => if signed then "int16" else "uint16"
    case Int32 => if signed then "int32" else "uint32"
    case Int64 => if signed then "int64" else "uint64"
  }

  lemma Int16Signs(name: string, signed: bool)
    requires name in NamesOf(Int16)
    ensures RenameSignedness(name, signed) == WithSign(Int16, signed)
  {
  }

  lemma Int32Signs(name: string, signed: bool)
    requires name in NamesOf(Int32)
    ensures RenameSignedness(name, signed) == WithSign(Int32, signed)
  {
  }

  lemma Int64Signs(name: string, signed: bool)
    requires name in NamesOf(Int64)
    ensures RenameSignedness(name, signed) == WithSign(Int64, signed)
  {
  }

  /** A sign in front of one of these names gives the type of the same kind with that sign, whatever sign it had. */
  lemma SignInFront(kind: Kind, name: string, signed: bool)
    requires name in NamesOf(kind)
    ensures RenameSignedness(name, signed) == WithSign(kind, signed)
  {
    if kind == Int16 {
      hide *;
      Int16Signs(name, signed);
    } else if kind == Int32 {
      hide *;
      Int32Signs(name, signed);
    } else if kind == Int64 {
      hide *;
      Int64Signs(name, signed);
    }
  }

  /** Every other name stays as it is, and with it the sign. */
  lemma OtherNamesStay(name: string, signed: bool)
    requires forall kind: Kind :: name !in NamesOf(kind)
    ensures RenameSignedness(name, signed) == name
  {
    assert name !in NamesOf(Character) && name !in NamesOf(Byte) && name !in NamesOf(Int16);
    assert name !in NamesOf(Int32) && name !in NamesOf(Int64);
  }

  /** So `unsigned INT`, `unsigned SHORT`, `unsigned INT64` and `unsigned int8`, signed built-ins all, stay signed. */
  lemma AliasesStaySigned(name: string)
    requires name in ["INT", "SHORT", "INT64", "LONG64", "int8"]
    ensures RenameSignedness(name, false) == name
  {
  }
}
