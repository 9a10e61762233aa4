/** The MessagePack value codec the byte backends share: the envelope written
    by `msgpackEncodeValue`, the decision tree of `msgpackDecodeValue`, and the
    process-wide type registry filled by `RegisterMsgpackType`.

    The msgpack library and Go reflection are not part of the model. A Go
    value is its dynamic type plus an abstract document, and the library is a
    record of four functions (`Lib`) of which only the laws in `Lib.Lawful`
    are assumed, and only where a lemma says so. */
module Msgpack {
  import opened Common

  /** A Go type as reflection sees it: a named type (which may be an
      interface type) or a pointer to another type. */
  datatype GoType = Named(name: string, isInterface: bool) | Pointer(elem: GoType)

  /** `reflect.Type.String()`: a pointer type prints as "*" before its element. */
  function TypeName(t: GoType): (s: string)
    ensures t.Named? ==> s == t.name
    ensures t.Pointer? ==> |s| > 0 && s[0] == '*' && s[1..] == TypeName(t.elem)
  {
    match t
    case Named(n, _) => n
    case Pointer(e) => "*" + TypeName(e)
  }

  /** What `msgpack.Unmarshal` produces for an untyped destination, and what
      `msgpack.Marshal` consumes. */
  datatype Doc =
    | DNil
    | DBool(b: bool)
    | DInt(i: int)
    | DStr(s: string)
    | DBin(bin: Bytes)
    | DArray(items: seq<Doc>)
    | DMap(entries: map<string, Doc>)

  /** A Go value held in an `any`: the nil interface, or a value of a dynamic
      type whose content is described by a document. */
  datatype GoValue = Nil | Value(typ: GoType, content: Doc)

  /** The msgpack library, abstracted.
      - `toDoc(v)`: the document `msgpack.Marshal` writes for `v`, or None
        when `v` cannot be encoded;
      - `marshal(d)`: the bytes of a document;
      - `parse(b)`: `msgpack.Unmarshal` into an untyped destination;
      - `decodeAs(b, t)`: `msgpack.Unmarshal` into a destination of type `t`. */
  datatype Lib = Lib(
    toDoc: GoValue -> Option<Doc>,
    marshal: Doc -> Bytes,
    parse: Bytes -> Option<Doc>,
    decodeAs: (Bytes, GoType) -> Option<GoValue>)
  {
    /** The laws the round-trip lemmas rely on: parsing what was marshalled
        gives the document back, a marshalled document is never empty, and
        decoding the document of a value into that value's type gives the
        value back. */
    ghost predicate Lawful()
    {
      && (forall d :: parse(marshal(d)) == Some(d))
      && (forall d :: |marshal(d)| > 0)
      && (forall v: GoValue, d :: v.Value? && toDoc(v) == Some(d) ==> decodeAs(marshal(d), v.typ) == Some(v))
    }
  }

  /** The type registry: type names to types. */
  type Registry = map<string, GoType>

  /** Whether encoding adds a type tag: the value is not nil and its type is
      not an interface type. */
  predicate Tagged(v: GoValue)
  {
    v.Value? && !(v.typ.Named? && v.typ.isInterface)
  }

  /** The envelope map that is marshalled: the value's document under "data",
      plus its type name under "type" when the value is tagged. */
  function Envelope(v: GoValue, content: Doc): (e: map<string, Doc>)
    ensures "data" in e && e["data"] == content
    ensures "type" in e <==> Tagged(v)
    ensures Tagged(v) ==> e["type"] == DStr(TypeName(v.typ))
    ensures e.Keys <= {"data", "type"}
  {
    if Tagged(v) then map["data" := content, "type" := DStr(TypeName(v.typ))]
    else map["data" := content]
  }

  /** The bytes `msgpackEncodeValue` returns, or None when marshalling the
      envelope fails, which happens exactly when the value cannot be encoded. */
  function Encoded(lib: Lib, v: GoValue): (r: Option<Bytes>)
    ensures r.Some? <==> lib.toDoc(v).Some?
  {
    match lib.toDoc(v)
    case None => None
    case Some(d) => Some(lib.marshal(DMap(Envelope(v, d))))
  }

  /** A pointer type is registered as its element type. */
  function Stripped(t: GoType): (s: GoType)
    ensures t.Pointer? ==> s == t.elem
    ensures !t.Pointer? ==> s == t
  {
    if t.Pointer? then t.elem else t
  }

  /** The registry after `RegisterMsgpackType(v)`: nothing for nil; otherwise
      the type, with one pointer level removed, under its own name. */
  function Registered(reg: Registry, v: GoValue): (r: Registry)
    ensures v.Nil? ==> r == reg
    ensures v.Value? ==> TypeName(Stripped(v.typ)) in r && r[TypeName(Stripped(v.typ))] == Stripped(v.typ)
    ensures forall n :: n in reg ==> n in r
    ensures forall n :: n in r && (v.Nil? || n != TypeName(Stripped(v.typ))) ==> n in reg && r[n] == reg[n]
  {
    if v.Nil? then reg else reg[TypeName(Stripped(v.typ)) := Stripped(v.typ)]
  }

  /** Registering the same value twice is the same as registering it once. */
  lemma RegisterIdempotent(reg: Registry, v: GoValue)
    ensures Registered(Registered(reg, v), v) == Registered(reg, v)
  {
  }

  /** Registering a pointer value registers the pointed-to type under the
      pointed-to type's name, and not the pointer type's name. */
  lemma RegisterPointerStripsOneLevel(reg: Registry, e: GoType, content: Doc)
    requires TypeName(Pointer(e)) !in reg
    ensures var r := Registered(reg, Value(Pointer(e), content));
      TypeName(e) in r && r[TypeName(e)] == e && TypeName(Pointer(e)) !in r
  {
    assert TypeName(Pointer(e)) != TypeName(e) by {
      TypeNameOfPointerIsLonger(e);
    }
  }

  /** A pointer type's name is one character longer than its element's. */
  lemma TypeNameOfPointerIsLonger(e: GoType)
    ensures |TypeName(Pointer(e))| == |TypeName(e)| + 1
  {
  }

  /** The registry after `msgpackEncodeValue(v)`: a tagged value whose type
      name is not yet registered is registered. This happens before marshalling,
      so also when the encoding then fails. */
  function RegistryAfterEncode(reg: Registry, v: GoValue): (r: Registry)
    ensures !Tagged(v) ==> r == reg
    ensures Tagged(v) ==> TypeName(v.typ) in r || (v.typ.Pointer? && TypeName(v.typ.elem) in r)
    ensures Tagged(v) && TypeName(v.typ) in reg ==> r == reg
  {
    if Tagged(v) && TypeName(v.typ) !in reg then Registered(reg, v) else reg
  }

  /** Encoding a value twice registers nothing new the second time. */
  lemma EncodeRegistersOnce(reg: Registry, v: GoValue)
    ensures RegistryAfterEncode(RegistryAfterEncode(reg, v), v) == RegistryAfterEncode(reg, v)
  {
    if Tagged(v) && TypeName(v.typ) !in reg && v.typ.Pointer? {
      TypeNameOfPointerIsLonger(v.typ.elem);
    }
  }

  /** Why `msgpackDecodeValue` fails. */
  datatype DecodeError =
    | Malformed                 // the bytes are not a msgpack map (or nil)
    | DirectDecodeFailed        // no "data" field, and the whole input does not decode as V
    | InnerDecodeFailed         // untagged or unregistered, and "data" does not decode as V
    | ConcreteDecodeFailed      // "data" does not decode as the registered type
    | ExpectedTypeDecodeFailed  // "data" decodes as the registered type but not as V

  /** The static type V the adapter decodes into, and its zero value. */
  datatype ValueCodec = ValueCodec(lib: Lib, dest: GoType, zero: GoValue)
  {
    /** Unmarshalling into `dest`, with the error the caller reports. */
    function DecodeInto(b: Bytes, onError: DecodeError): (r: Result<GoValue, DecodeError>)
      ensures r.Ok? <==> lib.decodeAs(b, dest).Some?
      ensures r.Ok? ==> r.value == lib.decodeAs(b, dest).value
      ensures r.Err? ==> r.error == onError
    {
      match lib.decodeAs(b, dest)
      case None => Err(onError)
      case Some(v) => Ok(v)
    }

    /** `msgpackDecodeValue[V]` against a snapshot `reg` of the registry. */
    function Decode(reg: Registry, data: Bytes): (r: Result<GoValue, DecodeError>)
      ensures |data| == 0 ==> r == Ok(zero)
      ensures |data| > 0 && (lib.parse(data).None? || !(lib.parse(data).value.DMap? || lib.parse(data).value.DNil?)) ==>
        r == Err(Malformed)
      ensures r.Err? ==> |data| > 0
      ensures r.Err? && r.error != Malformed ==> lib.parse(data).Some?
      ensures r.Ok? && |data| > 0 && !(dest.Named? && dest.isInterface) ==>
        exists b :: lib.decodeAs(b, dest) == Some(r.value)
    {
      if |data| == 0 then Ok(zero)
      else match lib.parse(data)
        case None => Err(Malformed)
        case Some(doc) =>
          if !(doc.DMap? || doc.DNil?) then Err(Malformed)
          else
            // a nil document leaves the wrapper map nil: every lookup misses
            var wrapper := if doc.DMap? then doc.entries else map[];
            if "data" !in wrapper then DecodeInto(data, DirectDecodeFailed)
            else
              var raw := wrapper["data"];
              if !("type" in wrapper && wrapper["type"].DStr?) then DecodeInto(lib.marshal(raw), InnerDecodeFailed)
              else if wrapper["type"].s !in reg then DecodeInto(lib.marshal(raw), InnerDecodeFailed)
              else
                match lib.decodeAs(lib.marshal(raw), reg[wrapper["type"].s])
                case None => Err(ConcreteDecodeFailed)
                case Some(concrete) =>
                  if dest.Named? && dest.isInterface then Ok(concrete)
                  else DecodeInto(lib.marshal(raw), ExpectedTypeDecodeFailed)
    }
  }

  /** Empty input decodes to the zero value without error. */
  lemma DecodeEmptyIsZero(c: ValueCodec, reg: Registry)
    ensures c.Decode(reg, []) == Ok(c.zero)
  {
  }

  /** Non-empty input that is not a msgpack map (nor nil) is an error. */
  lemma DecodeMalformedFails(c: ValueCodec, reg: Registry, data: Bytes)
    requires |data| > 0
    requires c.lib.parse(data).None? || !(c.lib.parse(data).value.DMap? || c.lib.parse(data).value.DNil?)
    ensures c.Decode(reg, data) == Err(Malformed)
  {
  }

  /** An envelope whose type tag is missing, not a string, or not registered
      decodes its "data" field directly as V. */
  lemma DecodeUntaggedFallsBack(c: ValueCodec, reg: Registry, data: Bytes, wrapper: map<string, Doc>)
    requires |data| > 0 && c.lib.parse(data) == Some(DMap(wrapper)) && "data" in wrapper
    requires !("type" in wrapper && wrapper["type"].DStr?) || wrapper["type"].s !in reg
    ensures c.Decode(reg, data) == c.DecodeInto(c.lib.marshal(wrapper["data"]), InnerDecodeFailed)
  {
  }

  /** A map without a "data" field is decoded as V as a whole. */
  lemma DecodeWithoutDataIsDirect(c: ValueCodec, reg: Registry, data: Bytes, wrapper: map<string, Doc>)
    requires |data| > 0 && c.lib.parse(data) == Some(DMap(wrapper)) && "data" !in wrapper
    ensures c.Decode(reg, data) == c.DecodeInto(data, DirectDecodeFailed)
  {
  }

  /** No other registered type goes by the name of `t`. */
  predicate NoNameClash(reg: Registry, t: GoType)
  {
    TypeName(t) in reg ==> reg[TypeName(t)] == t
  }

  /** Encoding keeps the name of the encoded type free of clashes. */
  lemma EncodeKeepsNoNameClash(reg: Registry, v: GoValue)
    requires v.Value? && NoNameClash(reg, v.typ)
    ensures NoNameClash(RegistryAfterEncode(reg, v), v.typ)
  {
    if Tagged(v) && TypeName(v.typ) !in reg && v.typ.Pointer? {
      TypeNameOfPointerIsLonger(v.typ.elem);
    }
  }

  /** Round trip: decoding, as the value's own type, the bytes encoding
      produced gives the value back, provided no other registered type shares
      its name. */
  lemma {:induction false} RoundTripAsOwnType(lib: Lib, reg: Registry, v: GoValue, zero: GoValue)
    requires lib.Lawful()
    requires v.Value? && !(v.typ.Named? && v.typ.isInterface)
    requires lib.toDoc(v).Some? && NoNameClash(reg, v.typ)
    ensures var c := ValueCodec(lib, v.typ, zero);
      c.Decode(RegistryAfterEncode(reg, v), Encoded(lib, v).value) == Ok(v)
  {
    var d := lib.toDoc(v).value;
    var reg' := RegistryAfterEncode(reg, v);
    EncodeKeepsNoNameClash(reg, v);
    var env := Envelope(v, d);
    assert lib.parse(lib.marshal(DMap(env))) == Some(DMap(env));
    assert |lib.marshal(DMap(env))| > 0;
    assert lib.decodeAs(lib.marshal(d), v.typ) == Some(v);
  }

  /** Round trip into an interface destination (`V` = `any`): a value of a
      named, non-pointer type comes back as itself, through the registry. */
  lemma {:induction false} RoundTripIntoInterface(lib: Lib, reg: Registry, v: GoValue, dest: GoType)
    requires lib.Lawful()
    requires v.Value? && v.typ.Named? && !v.typ.isInterface
    requires dest.Named? && dest.isInterface
    requires lib.toDoc(v).Some? && NoNameClash(reg, v.typ)
    ensures var c := ValueCodec(lib, dest, Nil);
      c.Decode(RegistryAfterEncode(reg, v), Encoded(lib, v).value) == Ok(v)
  {
    var d := lib.toDoc(v).value;
    var reg' := RegistryAfterEncode(reg, v);
    EncodeKeepsNoNameClash(reg, v);
    var env := Envelope(v, d);
    assert lib.parse(lib.marshal(DMap(env))) == Some(DMap(env));
    assert |lib.marshal(DMap(env))| > 0;
    assert lib.decodeAs(lib.marshal(d), v.typ) == Some(v);
    assert TypeName(v.typ) in reg';
  }

  /** A pointer value misses the registry on the way back: it is tagged with
      "*T" but registered as "T", so (unless "*T" was registered by a value of
      type **T) it is decoded by the untyped fallback, whatever V is. */
  lemma {:induction false} PointerValueMissesRegistry(lib: Lib, reg: Registry, e: GoType, content: Doc, dest: GoType, zero: GoValue)
    requires lib.Lawful()
    requires lib.toDoc(Value(Pointer(e), content)).Some?
    requires TypeName(Pointer(e)) !in reg
    ensures var v := Value(Pointer(e), content);
      var c := ValueCodec(lib, dest, zero);
      TypeName(Pointer(e)) !in RegistryAfterEncode(reg, v) &&
      c.Decode(RegistryAfterEncode(reg, v), Encoded(lib, v).value)
        == c.DecodeInto(lib.marshal(lib.toDoc(v).value), InnerDecodeFailed)
  {
    var v := Value(Pointer(e), content);
    var d := lib.toDoc(v).value;
    TypeNameOfPointerIsLonger(e);
    var env := Envelope(v, d);
    assert lib.parse(lib.marshal(DMap(env))) == Some(DMap(env));
    assert |lib.marshal(DMap(env))| > 0;
  }

  /** The process-wide registry, a map the encoder adds to. */
  class TypeRegistry {
    var types: Registry

    constructor ()
      ensures types == map[]
    {
      types := map[];
    }

    /** `RegisterMsgpackType`. */
    method Register(v: GoValue)
      modifies this
      ensures types == Registered(old(types), v)
    {
      if v.Value? {
        var t := if v.typ.Pointer? then v.typ.elem else v.typ;
        types := types[TypeName(t) := t];
      }
    }

    /** `msgpackEncodeValue`: registers a tagged value's type if its name is
        new, then marshals the envelope. */
    method EncodeValue(lib: Lib, v: GoValue) returns (encoded: Option<Bytes>)
      modifies this
      ensures types == RegistryAfterEncode(old(types), v)
      ensures encoded == Encoded(lib, v)
    {
      if Tagged(v) {
        if TypeName(v.typ) !in types {
          Register(v);
        }
      }
      match lib.toDoc(v)
      case None =>
        encoded := None;
      case Some(d) =>
        encoded := Some(lib.marshal(DMap(Envelope(v, d))));
    }
  }
}
