/** The D-Bus values a method call carries, with their type signatures, after
    the "Type System" section of the D-Bus Specification.  Only the type codes
    the woodchuck server inspects are distinguished; every other basic type is
    an OtherBasic value carrying its one-character code. */
module Dbus {

  /** Complete D-Bus types. */
  datatype DType =
    | TString
    | TUint32
    | TUint64
    | TBoolean
    | TVariant
    | TArray(elem: DType)
    | TStruct(fields: seq<DType>)
    | TDictEntry(key: DType, val: DType)
    | TOtherBasic(code: char)

  /** Argument values.  An array records its element type, so that an empty
      array still has a signature. */
  datatype Value =
    | Str(s: string)
    | U32(u: nat)
    | U64(t: nat)
    | Bool(b: bool)
    | Variant(inner: Value)
    | Array(elemType: DType, elems: seq<Value>)
    | Struct(fields: seq<Value>)
    | DictEntry(key: Value, val: Value)
    | OtherBasic(code: char)

  const UINT32_LIMIT: nat := 0x1_0000_0000
  const UINT64_LIMIT: nat := 0x1_0000_0000_0000_0000

  /** Codes of the basic types other than s, u, t and b: byte, int16, uint16,
      int32, int64, double, object path, signature, unix fd. */
  predicate IsOtherCode(c: char) {
    c in "ynqixdogh"
  }

  predicate IsBasicType(t: DType) {
    t.TString? || t.TUint32? || t.TUint64? || t.TBoolean? || (t.TOtherBasic? && IsOtherCode(t.code))
  }

  /** The well-formed types: structs are not empty and dict entries have a
      basic key. */
  predicate WfType(t: DType) {
    match t
    case TOtherBasic(c) => IsOtherCode(c)
    case TArray(e) => WfType(e)
    case TStruct(fs) => |fs| > 0 && forall i :: 0 <= i < |fs| ==> WfType(fs[i])
    case TDictEntry(k, v) => IsBasicType(k) && WfType(v)
    case _ => true
  }

  predicate WfTypes(ts: seq<DType>) {
    forall i :: 0 <= i < |ts| ==> WfType(ts[i])
  }

  function TypeSig(t: DType): (r: string)
    ensures |r| > 0
  {
    match t
    case TString => "s"
    case TUint32 => "u"
    case TUint64 => "t"
    case TBoolean => "b"
    case TVariant => "v"
    case TArray(e) => "a" + TypeSig(e)
    case TStruct(fs) => "(" + TypeSigs(fs) + ")"
    case TDictEntry(k, v) => "{" + TypeSig(k) + TypeSig(v) + "}"
    case TOtherBasic(c) => [c]
  }

  function TypeSigs(ts: seq<DType>): (r: string)
    ensures |r| >= |ts|
  {
    if ts == [] then "" else TypeSig(ts[0]) + TypeSigs(ts[1..])
  }

  function TypeOf(v: Value): DType {
    match v
    case Str(_) => TString
    case U32(_) => TUint32
    case U64(_) => TUint64
    case Bool(_) => TBoolean
    case Variant(_) => TVariant
    case Array(t, _) => TArray(t)
    case Struct(fs) => TStruct(TypesOf(fs))
    case DictEntry(k, x) => TDictEntry(TypeOf(k), TypeOf(x))
    case OtherBasic(c) => TOtherBasic(c)
  }

  function TypesOf(vs: seq<Value>): (ts: seq<DType>)
    ensures |ts| == |vs|
    ensures forall i :: 0 <= i < |vs| ==> ts[i] == TypeOf(vs[i])
  {
    if vs == [] then [] else [TypeOf(vs[0])] + TypesOf(vs[1..])
  }

  /** The signature of a value (dbus_message_iter_get_signature). */
  function Sig(v: Value): string {
    TypeSig(TypeOf(v))
  }

  /** The signature of an argument list (dbus_message_get_signature). */
  function Sigs(vs: seq<Value>): string {
    TypeSigs(TypesOf(vs))
  }

  /** What libdbus guarantees of every message it delivers: numbers are in
      range, every array element has the array's element type, structs are
      not empty and dict entries have basic keys. */
  predicate WellTyped(v: Value) {
    match v
    case U32(u) => u < UINT32_LIMIT
    case U64(t) => t < UINT64_LIMIT
    case OtherBasic(c) => IsOtherCode(c)
    case Variant(x) => WellTyped(x)
    case Array(t, es) => WfType(t) && forall i :: 0 <= i < |es| ==> TypeOf(es[i]) == t && WellTyped(es[i])
    case Struct(fs) => |fs| > 0 && forall i :: 0 <= i < |fs| ==> WellTyped(fs[i])
    case DictEntry(k, x) => IsBasicType(TypeOf(k)) && WellTyped(k) && WellTyped(x)
    case _ => true
  }

  predicate AllWellTyped(vs: seq<Value>) {
    forall i :: 0 <= i < |vs| ==> WellTyped(vs[i])
  }

  lemma {:induction false} WellTypedHasWfType(v: Value)
    requires WellTyped(v)
    ensures WfType(TypeOf(v))
  {
    match v
    case Struct(fs) =>
      forall i | 0 <= i < |fs| ensures WfType(TypesOf(fs)[i]) {
        WellTypedHasWfType(fs[i]);
      }
    case DictEntry(k, x) =>
      WellTypedHasWfType(x);
    case _ =>
  }

  lemma WellTypedHaveWfTypes(vs: seq<Value>)
    requires AllWellTyped(vs)
    ensures WfTypes(TypesOf(vs))
  {
    forall i | 0 <= i < |vs| ensures WfType(TypesOf(vs)[i]) {
      WellTypedHasWfType(vs[i]);
    }
  }

  /** No signature of a well-formed type starts with a closing bracket. */
  lemma TypeSigHead(t: DType)
    requires WfType(t)
    ensures TypeSig(t)[0] != ')' && TypeSig(t)[0] != '}'
  {
  }

  lemma TypeSigsHead(ts: seq<DType>)
    requires WfTypes(ts) && ts != []
    ensures TypeSigs(ts)[0] != ')' && TypeSigs(ts)[0] != '}'
  {
    TypeSigHead(ts[0]);
  }

  /** Two well-formed types whose signatures start alike have the same outer
      constructor; a one-character signature identifies its type. */
  lemma SameHead(t1: DType, t2: DType)
    requires WfType(t1) && WfType(t2)
    requires TypeSig(t1)[0] == TypeSig(t2)[0]
    ensures t1.TArray? <==> t2.TArray?
    ensures t1.TStruct? <==> t2.TStruct?
    ensures t1.TDictEntry? <==> t2.TDictEntry?
    ensures !t1.TArray? && !t1.TStruct? && !t1.TDictEntry? ==> t1 == t2 && |TypeSig(t1)| == 1
  {
  }

  /** Complete type signatures are prefix-free: a signature followed by some
      text determines both the type and the text. */
  lemma {:induction false} TypeSigPrefixFree(t1: DType, t2: DType, s1: string, s2: string)
    requires WfType(t1) && WfType(t2)
    requires TypeSig(t1) + s1 == TypeSig(t2) + s2
    ensures t1 == t2 && s1 == s2
    decreases |TypeSig(t1)|, 1
  {
    HeadOfConcat(TypeSig(t1), s1);
    HeadOfConcat(TypeSig(t2), s2);
    SameHead(t1, t2);
    if t1.TArray? {
      var e1, e2 := t1.elem, t2.elem;
      SigTail("a", TypeSig(e1), s1);
      SigTail("a", TypeSig(e2), s2);
      TypeSigPrefixFree(e1, e2, s1, s2);
    } else if t1.TStruct? {
      var fs1, fs2 := t1.fields, t2.fields;
      StructSigTail(TypeSigs(fs1), s1);
      StructSigTail(TypeSigs(fs2), s2);
      TypeSigsPrefixFree(fs1, fs2, s1, s2);
    } else if t1.TDictEntry? {
      DictEntryPrefixFree(t1, t2, s1, s2);
    } else {
      SigTail(TypeSig(t1), [], s1);
      SigTail(TypeSig(t2), [], s2);
    }
  }

  lemma StructSigTail(f: string, s: string)
    ensures ("(" + f + ")" + s)[1..] == f + ")" + s
  {
  }

  lemma HeadOfConcat(x: string, s: string)
    requires |x| > 0
    ensures (x + s)[0] == x[0]
  {
  }

  /** Dropping a one-character head from a signature followed by s. */
  lemma SigTail(h: string, x: string, s: string)
    requires |h| == 1
    ensures (h + x + s)[1..] == x + s
    ensures h + (x + s) == h + x + s
    ensures h + [] == h
  {
  }

  lemma {:induction false} DictEntryPrefixFree(t1: DType, t2: DType, s1: string, s2: string)
    requires t1.TDictEntry? && t2.TDictEntry? && WfType(t1) && WfType(t2)
    requires TypeSig(t1) + s1 == TypeSig(t2) + s2
    ensures t1 == t2 && s1 == s2
    decreases |TypeSig(t1)|, 0
  {
    var k1, v1, k2, v2 := t1.key, t1.val, t2.key, t2.val;
    DictSigParts(TypeSig(k1), TypeSig(v1), s1);
    DictSigParts(TypeSig(k2), TypeSig(v2), s2);
    TypeSigPrefixFree(k1, k2, TypeSig(v1) + "}" + s1, TypeSig(v2) + "}" + s2);
    TypeSigPrefixFree(v1, v2, "}" + s1, "}" + s2);
  }

  /** How the signature of a dict entry followed by s splits into the key's
      signature, the value's, the closing brace and s. */
  lemma DictSigParts(k: string, v: string, s: string)
    ensures ("{" + k + v + "}" + s)[1..] == k + (v + "}" + s)
    ensures v + "}" + s == v + ("}" + s)
    ensures ("}" + s)[1..] == s
  {
  }

  /** The list form: the field signatures of two structs, each followed by the
      closing bracket and some text. */
  lemma {:induction false} TypeSigsPrefixFree(ts1: seq<DType>, ts2: seq<DType>, s1: string, s2: string)
    requires WfTypes(ts1) && WfTypes(ts2)
    requires TypeSigs(ts1) + ")" + s1 == TypeSigs(ts2) + ")" + s2
    ensures ts1 == ts2 && s1 == s2
    decreases |TypeSigs(ts1)|, 2
  {
    var a, b := TypeSigs(ts1) + ")" + s1, TypeSigs(ts2) + ")" + s2;
    if ts1 == [] && ts2 == [] {
      assert s1 == a[1..] && s2 == b[1..];
    } else if ts1 == [] {
      assert a[0] == ')' && b[0] == TypeSigs(ts2)[0];
      TypeSigsHead(ts2);
    } else if ts2 == [] {
      assert b[0] == ')' && a[0] == TypeSigs(ts1)[0];
      TypeSigsHead(ts1);
    } else {
      assert a == TypeSig(ts1[0]) + (TypeSigs(ts1[1..]) + ")" + s1);
      assert b == TypeSig(ts2[0]) + (TypeSigs(ts2[1..]) + ")" + s2);
      TypeSigPrefixFree(ts1[0], ts2[0], TypeSigs(ts1[1..]) + ")" + s1, TypeSigs(ts2[1..]) + ")" + s2);
      TypeSigsPrefixFree(ts1[1..], ts2[1..], s1, s2);
      assert ts1 == [ts1[0]] + ts1[1..] && ts2 == [ts2[0]] + ts2[1..];
    }
  }

  /** The signature of a well-typed argument list determines the types of the
      arguments: comparing signatures as strings compares argument types. */
  lemma SigsDetermineTypes(vs: seq<Value>, ts: seq<DType>)
    requires AllWellTyped(vs) && WfTypes(ts)
    requires Sigs(vs) == TypeSigs(ts)
    ensures TypesOf(vs) == ts
  {
    WellTypedHaveWfTypes(vs);
    assert Sigs(vs) + ")" + "" == TypeSigs(ts) + ")" + "";
    TypeSigsPrefixFree(TypesOf(vs), ts, "", "");
  }

  /** Inverting TypeOf on the basic types. */
  lemma TypeOfBasic(v: Value)
    ensures TypeOf(v) == TString ==> v.Str?
    ensures TypeOf(v) == TUint32 ==> v.U32?
    ensures TypeOf(v) == TUint64 ==> v.U64?
    ensures TypeOf(v) == TBoolean ==> v.Bool?
  {
  }
}
