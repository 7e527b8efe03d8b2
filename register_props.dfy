/** The register methods' arguments: how a client encodes its properties,
    that the dispatcher decodes them back (lines 150-432 of
    src/murmeltier-dbus-server.c), and what it replies. */
module RegisterProps {
  import opened Wrappers
  import opened Dbus
  import opened Woodchuck
  import opened ServerApi
  import opened DispatchSpec
  import opened DispatchProps

  /** The struct type of the Versions property's elements, (stub). */
  const STUB_TYPE := TStruct([TString, TUint64, TUint32, TBoolean])

  lemma StubTypeSig()
    ensures TypeSig(STUB_TYPE) == "(stub)" && WfType(STUB_TYPE)
  {
    assert TypeSigs([TBoolean]) == "b";
    assert TypeSigs([TUint32, TBoolean]) == "ub";
    assert TypeSigs([TUint64, TUint32, TBoolean]) == "tub";
    assert TypeSigs([TString, TUint64, TUint32, TBoolean]) == "stub";
  }

  predicate IsStubRow(row: seq<Value>) {
    |row| == 4 && row[0].Str? && row[1].U64? && row[2].U32? && row[3].Bool?
  }

  /** How a client encodes a property value: a variant holding a string, a
      uint32, a uint64 or an a(stub). */
  function EncodeProperty(v: PropValue): Value {
    match v
    case PString(s) => Str(s)
    case PUint(u) => U32(u)
    case PUint64(t) => U64(t)
    case PStructs(rows) => Array(STUB_TYPE, StubElems(rows))
  }

  function StubElems(rows: seq<seq<Value>>): (elems: seq<Value>)
    ensures |elems| == |rows|
    ensures forall j :: 0 <= j < |rows| ==> elems[j] == Struct(rows[j])
  {
    seq(|rows|, j requires 0 <= j < |rows| => Struct(rows[j]))
  }

  function EncodeEntries(ps: seq<(string, PropValue)>): (es: seq<Value>)
    ensures |es| == |ps|
    ensures forall i :: 0 <= i < |ps| ==> es[i] == DictEntry(Str(ps[i].0), Variant(EncodeProperty(ps[i].1)))
  {
    seq(|ps|, i requires 0 <= i < |ps| => DictEntry(Str(ps[i].0), Variant(EncodeProperty(ps[i].1))))
  }

  /** The arguments of a register call: the property dictionary, then
      only_if_cookie_unique. */
  function EncodeRegisterArgs(ps: seq<(string, PropValue)>, unique: bool): seq<Value> {
    [Array(TDictEntry(TString, TVariant), EncodeEntries(ps)), Bool(unique)]
  }

  predicate Encodable(ps: seq<(string, PropValue)>) {
    forall i :: 0 <= i < |ps| && ps[i].1.PStructs? ==>
      forall j :: 0 <= j < |ps[i].1.rows| ==> IsStubRow(ps[i].1.rows[j])
  }

  /** The reference reading of a property list: inserted in order, a later
      key replacing an earlier one. */
  function PropsOf(ps: seq<(string, PropValue)>): Props {
    if ps == [] then map[] else PropsOf(ps[..|ps| - 1])[ps[|ps| - 1].0 := ps[|ps| - 1].1]
  }

  /** The number of a(stub) properties in a list. */
  function StubCount(ps: seq<(string, PropValue)>): nat {
    if ps == [] then 0 else StubCount(ps[..|ps| - 1]) + (if ps[|ps| - 1].1.PStructs? then 1 else 0)
  }

  lemma {:induction false} PropsOfKeys(ps: seq<(string, PropValue)>)
    ensures PropsOf(ps).Keys == set i | 0 <= i < |ps| :: ps[i].0
  {
    if ps != [] {
      var init := ps[..|ps| - 1];
      PropsOfKeys(init);
      assert forall i :: 0 <= i < |init| ==> init[i] == ps[i];
    }
  }

  /** The value of a key is the one of its last entry. */
  lemma {:induction false} PropsOfLastWins(ps: seq<(string, PropValue)>, i: nat)
    requires i < |ps|
    requires forall j :: i < j < |ps| ==> ps[j].0 != ps[i].0
    ensures ps[i].0 in PropsOf(ps) && PropsOf(ps)[ps[i].0] == ps[i].1
  {
    if i < |ps| - 1 {
      var init := ps[..|ps| - 1];
      assert init[i] == ps[i];
      PropsOfLastWins(init, i);
    }
  }

  /** The rows of a well-formed a(stub) come back unchanged. */
  lemma StubRowsDecode(rows: seq<seq<Value>>)
    requires forall j :: 0 <= j < |rows| ==> IsStubRow(rows[j])
    ensures DecodeStubArray(StubElems(rows)) == Some(rows)
  {
    var elems := StubElems(rows);
    forall j | 0 <= j < |elems| ensures ElementOk(elems, j) {
      assert FieldsOf(elems[j]) == rows[j];
    }
    assert RowsOf(elems) == rows;
  }

  lemma EncodedEntryDecodes(key: string, v: PropValue)
    requires v.PStructs? ==> forall j :: 0 <= j < |v.rows| ==> IsStubRow(v.rows[j])
    ensures DecodeEntry(DictEntry(Str(key), Variant(EncodeProperty(v)))) == EntryOk(key, v, if v.PStructs? then 1 else 0)
  {
    if v.PStructs? {
      StubTypeSig();
      StubRowsDecode(v.rows);
    }
  }

  lemma {:induction false} EncodedDictDecodes(ps: seq<(string, PropValue)>, n: nat)
    requires Encodable(ps) && n <= |ps|
    ensures DecodeDict(EncodeEntries(ps), n) == DictOk(PropsOf(ps[..n]), StubCount(ps[..n]))
  {
    if n > 0 {
      EncodedDictDecodes(ps, n - 1);
      EncodedEntryDecodes(ps[n - 1].0, ps[n - 1].1);
      assert ps[..n][..n - 1] == ps[..n - 1];
    }
  }

  /** Decoding the arguments a client builds gives back its properties, its
      flag, and one queued array per a(stub) property. */
  lemma RegisterRoundTrip(ps: seq<(string, PropValue)>, unique: bool)
    requires Encodable(ps)
    ensures DecodeRegisterArgs(EncodeRegisterArgs(ps, unique)) == RegOk(PropsOf(ps), unique, StubCount(ps))
  {
    EncodedDictDecodes(ps, |ps|);
    assert ps[..|ps|] == ps;
  }

  /** The decoded dictionary is accepted exactly when every entry is. */
  lemma {:induction false} DecodeDictOkIff(es: seq<Value>, n: nat)
    requires n <= |es|
    ensures DecodeDict(es, n).DictOk? <==> forall i :: 0 <= i < n ==> DecodeEntry(es[i]).EntryOk?
  {
    if n > 0 {
      DecodeDictOkIff(es, n - 1);
    }
  }

  /** An accepted register call ends with its one boolean and holds nothing
      else but the optional dictionary, whose entries are all accepted. */
  lemma RegisterOkShape(args: seq<Value>)
    requires DecodeRegisterArgs(args).RegOk?
    ensures |args| == 1 || |args| == 2
    ensures args[|args| - 1] == Bool(DecodeRegisterArgs(args).onlyIfUnique)
    ensures |args| == 2 ==>
      args[0].Array? && forall i :: 0 <= i < |args[0].elems| ==> DecodeEntry(args[0].elems[i]).EntryOk?
  {
    if |args| > 0 && args[0].Array? {
      DecodeDictOkIff(args[0].elems, |args[0].elems|);
    }
  }

  /** Nothing may follow the boolean. */
  lemma RegisterTrailingRejected(args: seq<Value>, extra: Value)
    requires DecodeRegisterArgs(args).RegOk?
    ensures DecodeRegisterArgs(args + [extra]).RegBad?
  {
    RegisterOkShape(args);
    if |args| == 2 {
      assert (args + [extra])[1..] == args[1..] + [extra];
      assert (args + [extra])[0] == args[0];
    }
  }

  lemma RegisterRejectedReply(m: Message, svc: CoreService)
    requires Reaches(m) && HandlerFor(m) == Register && DecodeRegisterArgs(m.args).RegBad?
    ensures Dispatch(m, svc) == ErrorReply(DBUS_ERROR_INVALID_ARGS, BadSignatureMessage(m, REGISTER_SIG))
  {
    ReachesHandle(m, svc);
  }

  /** On success the reply is the new object's uuid. */
  lemma RegisterSuccessReply(m: Message, svc: CoreService)
    requires Reaches(m) && HandlerFor(m) == Register && DecodeRegisterArgs(m.args).RegOk?
    requires var r := DecodeRegisterArgs(m.args);
      var c := RegisterCall(Resolved(m).kind, Resolved(m).id, m.member, r.props, r.onlyIfUnique, svc);
      c.code == 0 && c.error.None?
    ensures var r := DecodeRegisterArgs(m.args);
      var c := RegisterCall(Resolved(m).kind, Resolved(m).id, m.member, r.props, r.onlyIfUnique, svc);
      Dispatch(m, svc) == MethodReturn([Str(c.out)])
  {
    ReachesHandle(m, svc);
  }

  // ---------------------------------------------------------------------
  // a(stub) properties.

  /** In an accepted a(stub), every field is an s, u, t or b value, at a
      position the first row has, with the first row's type there. */
  lemma StubArrayHomogeneous(elems: seq<Value>, j: nat, k: nat)
    requires DecodeStubArray(elems).Some?
    requires j < |elems| && k < |FieldsOf(elems[j])|
    ensures k < |FieldsOf(elems[0])| && GTypeOf(FieldsOf(elems[j])[k]).Some?
    ensures GTypeOf(FieldsOf(elems[j])[k]) == GTypeOf(FieldsOf(elems[0])[k])
  {
    assert ElementOk(elems, j);
    assert FieldOk(elems, j, k);
  }

  lemma StubElementFields(e: Value)
    requires TypeOf(e) == STUB_TYPE
    ensures e.Struct? && |e.fields| == 4
    ensures e.fields[0].Str? && e.fields[1].U64? && e.fields[2].U32? && e.fields[3].Bool?
  {
    assert TypesOf(e.fields) == STUB_TYPE.fields;
    TypeOfBasic(e.fields[0]);
    TypeOfBasic(e.fields[1]);
    TypeOfBasic(e.fields[2]);
    TypeOfBasic(e.fields[3]);
  }

  /** libdbus only delivers a(stub) arrays whose elements are (stub)
      structs, and every one of those is accepted. */
  lemma WellTypedStubArrayDecodes(v: Value)
    requires WellTyped(v) && v.Array? && Sig(v) == STUB_ARRAY_SIG
    ensures DecodeStubArray(v.elems) == Some(RowsOf(v.elems))
  {
    StubTypeSig();
    assert TypeSig(v.elemType) + "" == TypeSig(STUB_TYPE) + "" by {
      assert Sig(v) == "a" + TypeSig(v.elemType);
      assert TypeSig(v.elemType) == Sig(v)[1..];
      assert STUB_ARRAY_SIG[1..] == "(stub)";
    }
    TypeSigPrefixFree(v.elemType, STUB_TYPE, "", "");
    var elems := v.elems;
    forall j | 0 <= j < |elems| ensures ElementOk(elems, j) {
      StubElementFields(elems[j]);
      StubElementFields(elems[0]);
    }
  }
}
