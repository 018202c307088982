/** SerializableFactory: the registry from type names to codecs, the self-describing envelope
    `4-byte tag length ++ tag ++ codec output`, and the List codec, whose elements are envelopes. */
module Factory {
  import opened Wrappers
  import opened Binary
  import opened Values
  import opened SerUtils
  import opened Codecs

  datatype Codec = StringCodec | BytesCodec | ScalarCodec | NdArrayCodec | ListCodec

  /** Type name (the wire tag) to codec. Registering a name again replaces its codec. */
  type Registry = map<string, Codec>

  /** The registrations made when the serializer package is imported. */
  function DefaultRegistry(): (reg: Registry)
    ensures reg.Keys == {"str", "bytes", "int", "float", "complex", "bool", "ndarray", "list"}
  {
    map["str" := StringCodec, "bytes" := BytesCodec,
        "int" := ScalarCodec, "float" := ScalarCodec, "complex" := ScalarCodec, "bool" := ScalarCodec,
        "ndarray" := NdArrayCodec, "list" := ListCodec]
  }

  // ----- serialization -----

  /** The codec's own `serialize`. */
  function Serialize(reg: Registry, c: Codec, obj: Value): (r: Result<Bytes>)
    ensures r.Ok? ==> |r.value| >= 4
    decreases obj, 1
  {
    match c
    case StringCodec => StringSerialize(obj)
    case BytesCodec => BytesSerialize(obj)
    case ScalarCodec => ScalarSerialize(obj)
    case NdArrayCodec => NdArraySerialize(obj)
    case ListCodec => ListSerialize(reg, obj)
  }

  /** `get_apply_serializer`: look the codec up by the value's exact type name and prefix the
      codec's bytes with the tag, itself serialized as a string. */
  function ApplySerializer(reg: Registry, obj: Value): (r: Result<Bytes>)
    ensures TypeName(obj) !in reg ==> r == Err(UnregisteredType(TypeName(obj)))
    ensures r.Ok? ==> |r.value| >= 8
    decreases obj, 2
  {
    var name := TypeName(obj);
    if name !in reg then Err(UnregisteredType(name))
    else
      var payload :- Serialize(reg, reg[name], obj);
      Ok(StringSerialize(Str(name)).value + payload)
  }

  /** ListSerializeDeserialize.serialize: the element count, then each element's envelope. */
  function ListSerialize(reg: Registry, obj: Value): (r: Result<Bytes>)
    ensures r.Ok? ==> obj.List? && |obj.items| < TWO_32
    ensures !obj.List? ==> r == Err(TypeError)
    decreases obj, 0
  {
    match obj
    case List(items) =>
      var count :- IntToBytes(Int(|items|));
      var body :- SerializeItems(reg, items);
      Ok(count + body)
    case _ => Err(TypeError)
  }

  function SerializeItems(reg: Registry, items: seq<Value>): (r: Result<Bytes>)
    ensures r.Ok? ==> |r.value| >= 8 * |items|
    decreases items
  {
    if items == [] then Ok([])
    else
      var first :- ApplySerializer(reg, items[0]);
      var rest :- SerializeItems(reg, items[1..]);
      Ok(first + rest)
  }

  /** A list serializes exactly when every one of its elements does. */
  lemma {:induction false} SerializeItemsOk(reg: Registry, items: seq<Value>)
    ensures SerializeItems(reg, items).Ok? <==> forall i | 0 <= i < |items| :: ApplySerializer(reg, items[i]).Ok?
    decreases items
  {
    if items != [] {
      SerializeItemsOk(reg, items[1..]);
      assert forall i | 1 <= i < |items| :: items[1..][i - 1] == items[i];
    }
  }

  /** `get_serializer(type)`: the serializer registered for a type name, as a function of the value. */
  function GetSerializer(reg: Registry, name: AsciiString): (r: Result<Value -> Result<Bytes>>)
    ensures r.Ok? <==> name in reg
    ensures name !in reg ==> r == Err(UnregisteredType(name))
    ensures r.Ok? ==> forall v | TypeName(v) == name :: r.value(v) == ApplySerializer(reg, v)
  {
    if name !in reg then Err(UnregisteredType(name))
    else
      var c := reg[name];
      Ok((obj: Value) =>
        var tag :- StringSerialize(Str(name));
        var payload :- Serialize(reg, c, obj);
        Ok(tag + payload))
  }

  // ----- deserialization -----

  /** The codec's own `deserialize`: the value and the bytes after it. */
  function Deserialize(reg: Registry, c: Codec, b: Bytes): (r: Result<(Value, Bytes)>)
    ensures r.Ok? ==> IsSuffix(r.value.1, b) && |r.value.1| < |b|
    decreases |b|, 1
  {
    match c
    case StringCodec =>
      var (s, rest) :- StringDeserialize(b);
      Ok((Str(s), rest))
    case BytesCodec =>
      var (raw, rest) :- BytesDeserialize(b);
      Ok((ByteStr(raw), rest))
    case ScalarCodec => ScalarDeserialize(b)
    case NdArrayCodec => NdArrayDeserialize(b)
    case ListCodec => ListDeserialize(reg, b)
  }

  /** `get_apply_deserializer(b, only_object=False)`: read the tag, then let its codec decode. */
  function ApplyDeserializer(reg: Registry, b: Bytes): (r: Result<(Value, Bytes)>)
    ensures r.Ok? ==> IsSuffix(r.value.1, b) && |r.value.1| < |b|
    decreases |b|, 0
  {
    var (tag, rest) :- StringDeserialize(b);
    if tag !in reg then Err(UnknownTag(tag))
    else Deserialize(reg, reg[tag], rest)
  }

  /** `get_apply_deserializer(b)`: the decoded value alone, whatever bytes follow it. */
  function ApplyDeserializerObject(reg: Registry, b: Bytes): (r: Result<Value>)
    ensures r.Ok? <==> ApplyDeserializer(reg, b).Ok?
  {
    var (v, _) :- ApplyDeserializer(reg, b);
    Ok(v)
  }

  /** ListSerializeDeserialize.deserialize: read the count, then that many envelopes. */
  function ListDeserialize(reg: Registry, b: Bytes): (r: Result<(Value, Bytes)>)
    ensures r.Ok? ==> IsSuffix(r.value.1, b) && |r.value.1| < |b|
    ensures r.Ok? ==> |b| >= 4 && r.value.0.List? && |r.value.0.items| == FromBigEndian(b[..4])
    decreases |b|, 0
  {
    if |b| < 4 then Err(TruncatedData)
    else
      var (items, rest) :- DeserializeItems(reg, BytesToInt(b[..4]), b[4..]);
      Ok((List(items), rest))
  }

  function DeserializeItems(reg: Registry, n: nat, b: Bytes): (r: Result<(seq<Value>, Bytes)>)
    ensures r.Ok? ==> |r.value.0| == n && IsSuffix(r.value.1, b)
    decreases |b|, 1
  {
    if n == 0 then Ok(([], b))
    else
      var (v, rest) :- ApplyDeserializer(reg, b);
      var (vs, rest2) :- DeserializeItems(reg, n - 1, rest);
      Ok(([v] + vs, rest2))
  }

  // ----- round trips -----

  /** Whatever the registry, an envelope the factory produced decodes to the value it came from,
      and the bytes after it are handed back untouched. */
  lemma {:induction false} ApplyRoundTrip(reg: Registry, v: Value, tail: Bytes)
    requires ApplySerializer(reg, v).Ok?
    ensures ApplyDeserializer(reg, ApplySerializer(reg, v).value + tail) == Ok((v, tail))
    decreases v, 2
  {
    var name := TypeName(v);
    var payload := Serialize(reg, reg[name], v).value;
    var tag := StringSerialize(Str(name)).value;
    assert ApplySerializer(reg, v).value == tag + payload;
    Append3(tag, payload, tail);
    StringRoundTrip(name, payload + tail);
    assert StringDeserialize(tag + (payload + tail)) == Ok((name, payload + tail));
    CodecRoundTrip(reg, reg[name], v, tail);
    assert Deserialize(reg, reg[name], payload + tail) == Ok((v, tail));
  }

  lemma {:induction false} CodecRoundTrip(reg: Registry, c: Codec, v: Value, tail: Bytes)
    requires Serialize(reg, c, v).Ok?
    ensures Deserialize(reg, c, Serialize(reg, c, v).value + tail) == Ok((v, tail))
    decreases v, 1
  {
    match c
    case StringCodec => StringRoundTrip(v.s, tail);
    case BytesCodec => BytesRoundTrip(v.raw, tail);
    case ScalarCodec => ScalarRoundTrip(v, tail);
    case NdArrayCodec => ArrayRoundTrip(v, tail);
    case ListCodec => ListRoundTrip(reg, v, tail);
  }

  lemma {:induction false} ListRoundTrip(reg: Registry, v: Value, tail: Bytes)
    requires ListSerialize(reg, v).Ok?
    ensures ListDeserialize(reg, ListSerialize(reg, v).value + tail) == Ok((v, tail))
    decreases v, 0
  {
    var count := IntToBytes(Int(|v.items|)).value;
    var body := SerializeItems(reg, v.items).value;
    var b := ListSerialize(reg, v).value + tail;
    assert b == count + (body + tail);
    assert b[..4] == count && b[4..] == body + tail;
    IntRoundTrip(|v.items|);
    ItemsRoundTrip(reg, v.items, tail);
  }

  lemma {:induction false} ItemsRoundTrip(reg: Registry, items: seq<Value>, tail: Bytes)
    requires SerializeItems(reg, items).Ok?
    ensures DeserializeItems(reg, |items|, SerializeItems(reg, items).value + tail) == Ok((items, tail))
    decreases items
  {
    if items != [] {
      SerializeCons(reg, items);
      var first := ApplySerializer(reg, items[0]).value;
      var rest := SerializeItems(reg, items[1..]).value;
      var b := SerializeItems(reg, items).value + tail;
      assert b == first + (rest + tail) by { Append3(first, rest, tail); }
      assert ApplyDeserializer(reg, b) == Ok((items[0], rest + tail)) by {
        ApplyRoundTrip(reg, items[0], rest + tail);
      }
      ItemsRoundTrip(reg, items[1..], tail);
      DeserializeCons(reg, items[0], items[1..], rest + tail, tail, b);
      assert [items[0]] + items[1..] == items;
    }
  }

  lemma SerializeCons(reg: Registry, items: seq<Value>)
    requires items != [] && SerializeItems(reg, items).Ok?
    ensures ApplySerializer(reg, items[0]).Ok? && SerializeItems(reg, items[1..]).Ok?
    ensures SerializeItems(reg, items).value
            == ApplySerializer(reg, items[0]).value + SerializeItems(reg, items[1..]).value
  {
  }

  lemma DeserializeCons(reg: Registry, v: Value, vs: seq<Value>, rest: Bytes, tail: Bytes, b: Bytes)
    requires ApplyDeserializer(reg, b) == Ok((v, rest))
    requires DeserializeItems(reg, |vs|, rest) == Ok((vs, tail))
    ensures DeserializeItems(reg, |vs| + 1, b) == Ok(([v] + vs, tail))
  {
  }

  /** `get_apply_deserializer(get_apply_serializer(v)) == v`. */
  lemma FactoryRoundTrip(reg: Registry, v: Value)
    requires ApplySerializer(reg, v).Ok?
    ensures ApplyDeserializerObject(reg, ApplySerializer(reg, v).value) == Ok(v)
  {
    ApplyRoundTrip(reg, v, []);
    assert ApplySerializer(reg, v).value + [] == ApplySerializer(reg, v).value;
  }

  /** A codec's `deserialize(serialize(v)) == (v, b'')`: nothing is left over. */
  lemma CodecRoundTripExact(reg: Registry, c: Codec, v: Value)
    requires Serialize(reg, c, v).Ok?
    ensures Deserialize(reg, c, Serialize(reg, c, v).value) == Ok((v, []))
  {
    CodecRoundTrip(reg, c, v, []);
    assert Serialize(reg, c, v).value + [] == Serialize(reg, c, v).value;
  }

  // ----- what the default registry accepts -----

  /** The values the default registry can serialize: every length, count and dimension fits in
      4 bytes, every int fits numpy's int64, and every array is well formed. */
  predicate Fits(v: Value)
    decreases v
  {
    match v
    case Str(s) => |s| < TWO_32
    case ByteStr(raw) => |raw| < TWO_32
    case Int(i) => -TWO_63 <= i < TWO_63
    case Float(_) => true
    case Complex(_, _) => true
    case Bool(_) => true
    case NdArray(d, shape, data) =>
      && |data| == Product(shape) && |shape| < TWO_32
      && (forall i | 0 <= i < |shape| :: shape[i] < TWO_32)
      && (forall i | 0 <= i < |data| :: EncodeItem(d, data[i]).Ok?)
    case List(items) => |items| < TWO_32 && forall i | 0 <= i < |items| :: Fits(items[i])
  }

  lemma {:induction false} DefaultSerializes(v: Value)
    requires Fits(v)
    ensures ApplySerializer(DefaultRegistry(), v).Ok?
    decreases v
  {
    var reg := DefaultRegistry();
    if v.List? {
      forall i | 0 <= i < |v.items|
        ensures ApplySerializer(reg, v.items[i]).Ok?
      {
        DefaultSerializes(v.items[i]);
      }
      SerializeItemsOk(reg, v.items);
      assert ListSerialize(reg, v).Ok?;
    }
  }

  /** The round trip through the default registry, for every value it accepts. */
  lemma DefaultRoundTrip(v: Value)
    requires Fits(v)
    ensures ApplySerializer(DefaultRegistry(), v).Ok?
    ensures ApplyDeserializerObject(DefaultRegistry(), ApplySerializer(DefaultRegistry(), v).value) == Ok(v)
  {
    DefaultSerializes(v);
    FactoryRoundTrip(DefaultRegistry(), v);
  }

  // ----- envelope layout and dispatch -----

  /** The factory's envelope is `4-byte big-endian tag length ++ tag ++ codec serialization`,
      the same bytes the serializer from `get_serializer(type(v))` produces. */
  lemma EnvelopeLayout(reg: Registry, v: Value)
    requires TypeName(v) in reg && Serialize(reg, reg[TypeName(v)], v).Ok?
    ensures var name := TypeName(v);
            ApplySerializer(reg, v)
            == Ok(IntToBytes(Int(|name|)).value + EncodeAscii(name) + Serialize(reg, reg[name], v).value)
    ensures GetSerializer(reg, TypeName(v)).Ok?
    ensures GetSerializer(reg, TypeName(v)).value(v) == ApplySerializer(reg, v)
  {
  }

  /** Dispatch by exact type: a bool travels under the tag "bool" and the scalar codec, never as an int. */
  lemma BoolIsTaggedBool(flag: bool)
    ensures ApplySerializer(DefaultRegistry(), Bool(flag))
            == Ok([0, 0, 0, 4] + EncodeAscii("bool") + ScalarSerialize(Bool(flag)).value)
    ensures StringDeserialize(ApplySerializer(DefaultRegistry(), Bool(flag)).value)
            == Ok(("bool", ScalarSerialize(Bool(flag)).value))
  {
    var payload := ScalarSerialize(Bool(flag)).value;
    DefaultBoolEnvelope(flag);
    BoolTag();
    StringRoundTrip("bool", payload);
  }

  lemma DefaultBoolEnvelope(flag: bool)
    ensures ApplySerializer(DefaultRegistry(), Bool(flag))
            == Ok(StringSerialize(Str("bool")).value + ScalarSerialize(Bool(flag)).value)
  {
    assert DefaultRegistry()["bool"] == ScalarCodec;
  }

  lemma BoolTag()
    ensures StringSerialize(Str("bool")).value == [0, 0, 0, 4] + EncodeAscii("bool")
  {
    IntToBytesIsBigEndian(4);
  }

  /** `register` overwrites: the latest codec registered under a name is the one used, and
      values of other non-container types are served as before. */
  lemma RegisterOverwrites(reg: Registry, name: AsciiString, c: Codec, v: Value)
    ensures TypeName(v) == name && Serialize(reg[name := c], c, v).Ok? ==>
              ApplySerializer(reg[name := c], v)
              == Ok(StringSerialize(Str(name)).value + Serialize(reg[name := c], c, v).value)
    ensures TypeName(v) != name && !v.List? ==> ApplySerializer(reg[name := c], v) == ApplySerializer(reg, v)
  {
    if TypeName(v) != name && !v.List? && TypeName(v) in reg {
      var d := reg[TypeName(v)];
      if d == ListCodec {
        assert ListSerialize(reg[name := c], v) == Err(TypeError) == ListSerialize(reg, v);
      } else {
        assert Serialize(reg[name := c], d, v) == Serialize(reg, d, v);
      }
    }
  }

  // ----- the List codec's loops -----

  /** Bytes already written, followed by what the remaining elements produce. */
  function Prefixed(acc: Bytes, r: Result<Bytes>): Result<Bytes>
  {
    if r.Ok? then Ok(acc + r.value) else r
  }

  /** Values already decoded, followed by what the remaining envelopes decode to. */
  function Gathered(acc: seq<Value>, r: Result<(seq<Value>, Bytes)>): Result<(seq<Value>, Bytes)>
  {
    if r.Ok? then Ok((acc + r.value.0, r.value.1)) else r
  }

  lemma ListSerializeUnfold(reg: Registry, items: seq<Value>)
    ensures IntToBytes(Int(|items|)).Err? ==>
              ListSerialize(reg, List(items)) == Err(IntToBytes(Int(|items|)).error)
    ensures IntToBytes(Int(|items|)).Ok? ==>
              ListSerialize(reg, List(items)) == Prefixed(IntToBytes(Int(|items|)).value, SerializeItems(reg, items))
  {
  }

  lemma SerializeStep(reg: Registry, items: seq<Value>, i: nat)
    requires i < |items|
    ensures ApplySerializer(reg, items[i]).Err? ==>
              SerializeItems(reg, items[i..]) == Err(ApplySerializer(reg, items[i]).error)
    ensures ApplySerializer(reg, items[i]).Ok? ==>
              SerializeItems(reg, items[i..])
              == Prefixed(ApplySerializer(reg, items[i]).value, SerializeItems(reg, items[i + 1..]))
  {
    assert items[i..][0] == items[i] && items[i..][1..] == items[i + 1..];
  }

  lemma PrefixedAppend(acc: Bytes, e: Bytes, r: Result<Bytes>)
    ensures Prefixed(acc, Prefixed(e, r)) == Prefixed(acc + e, r)
  {
    if r.Ok? {
      assert acc + (e + r.value) == acc + e + r.value;
    }
  }

  lemma PrefixedDone(reg: Registry, acc: Bytes, items: seq<Value>)
    ensures Prefixed(acc, SerializeItems(reg, items[|items|..])) == Ok(acc)
  {
    assert items[|items|..] == [] && acc + [] == acc;
  }

  lemma GatherFails(reg: Registry, acc: seq<Value>, left: nat, cursor: Bytes)
    requires left > 0 && ApplyDeserializer(reg, cursor).Err?
    ensures Gathered(acc, DeserializeItems(reg, left, cursor)) == Err(ApplyDeserializer(reg, cursor).error)
  {
  }

  lemma GatherUnfold(reg: Registry, acc: seq<Value>, left: nat, cursor: Bytes, v: Value, rest: Bytes)
    requires left > 0 && ApplyDeserializer(reg, cursor) == Ok((v, rest))
    ensures Gathered(acc, DeserializeItems(reg, left, cursor)) == Gathered(acc + [v], DeserializeItems(reg, left - 1, rest))
  {
    var tail := DeserializeItems(reg, left - 1, rest);
    if tail.Ok? {
      assert acc + ([v] + tail.value.0) == acc + [v] + tail.value.0;
    }
  }

  lemma GatherRename(reg: Registry, acc: seq<Value>, v: Value, left: nat, rest: Bytes,
                     acc': seq<Value>, left': nat, cursor': Bytes)
    requires left > 0 && acc' == acc + [v] && left' == left - 1 && cursor' == rest
    ensures Gathered(acc', DeserializeItems(reg, left', cursor')) == Gathered(acc + [v], DeserializeItems(reg, left - 1, rest))
  {
  }

  /** One iteration of the element loop keeps the loop's prediction of the final result. */
  lemma GatherStep(reg: Registry, acc: seq<Value>, left: nat, cursor: Bytes,
                   acc': seq<Value>, left': nat, cursor': Bytes)
    requires left > 0 && ApplyDeserializer(reg, cursor).Ok?
    requires acc' == acc + [ApplyDeserializer(reg, cursor).value.0]
    requires cursor' == ApplyDeserializer(reg, cursor).value.1 && left' == left - 1
    ensures Gathered(acc, DeserializeItems(reg, left, cursor)) == Gathered(acc', DeserializeItems(reg, left', cursor'))
  {
    var (v, rest) := ApplyDeserializer(reg, cursor).value;
    GatherRename(reg, acc, v, left, rest, acc', left', cursor');
    GatherUnfold(reg, acc, left, cursor, v, rest);
  }

  /** The List codec's decoder is the element decoder's result wrapped as a list. */
  function AsList(r: Result<(seq<Value>, Bytes)>): Result<(Value, Bytes)>
  {
    if r.Ok? then Ok((List(r.value.0), r.value.1)) else Err(r.error)
  }

  lemma ListDeserializeUnfold(reg: Registry, b: Bytes)
    requires |b| >= 4
    ensures ListDeserialize(reg, b) == AsList(DeserializeItems(reg, BytesToInt(b[..4]), b[4..]))
  {
  }

  lemma GatheredEmpty(r: Result<(seq<Value>, Bytes)>)
    ensures Gathered([], r) == r
  {
    if r.Ok? {
      assert [] + r.value.0 == r.value.0;
    }
  }

  lemma GatheredDone(reg: Registry, acc: seq<Value>, cursor: Bytes)
    ensures Gathered(acc, DeserializeItems(reg, 0, cursor)) == Ok((acc, cursor))
  {
    assert acc + [] == acc;
  }

  /** ListSerializeDeserialize.serialize as the source writes it: the count, then one element
      envelope appended per iteration. */
  method SerializeList(reg: Registry, obj: Value) returns (r: Result<Bytes>)
    ensures r == ListSerialize(reg, obj)
  {
    if !obj.List? {
      return Err(TypeError);
    }
    var items := obj.items;
    ListSerializeUnfold(reg, items);
    var count := IntToBytes(Int(|items|));
    if count.Err? {
      return Err(count.error);
    }
    ghost var all := ListSerialize(reg, obj);
    var acc := count.value;
    var i := 0;
    while i < |items|
      invariant 0 <= i <= |items|
      invariant all == Prefixed(acc, SerializeItems(reg, items[i..]))
    {
      var envelope := ApplySerializer(reg, items[i]);
      SerializeStep(reg, items, i);
      if envelope.Err? {
        return Err(envelope.error);
      }
      PrefixedAppend(acc, envelope.value, SerializeItems(reg, items[i + 1..]));
      acc := acc + envelope.value;
      i := i + 1;
    }
    PrefixedDone(reg, acc, items);
    return Ok(acc);
  }

  /** ListSerializeDeserialize.deserialize as the source writes it: the count, then the
      envelopes. */
  method DeserializeList(reg: Registry, b: Bytes) returns (r: Result<(Value, Bytes)>)
    ensures r == ListDeserialize(reg, b)
  {
    if |b| < 4 {
      return Err(TruncatedData);
    }
    var elements := DeserializeElements(reg, BytesToInt(b[..4]), b[4..]);
    ListDeserializeUnfold(reg, b);
    if elements.Err? {
      return Err(elements.error);
    }
    return Ok((List(elements.value.0), elements.value.1));
  }

  /** The List codec's element loop: one envelope consumed per iteration, the cursor moving
      past it. */
  method DeserializeElements(reg: Registry, n: nat, start: Bytes) returns (r: Result<(seq<Value>, Bytes)>)
    ensures r == DeserializeItems(reg, n, start)
  {
    ghost var all := Gathered([], DeserializeItems(reg, n, start));
    var acc: seq<Value> := [];
    var cursor := start;
    var left := n;
    while left > 0
      invariant all == Gathered(acc, DeserializeItems(reg, left, cursor))
    {
      var next := ApplyDeserializer(reg, cursor);
      if next.Err? {
        GatherFails(reg, acc, left, cursor);
        GatheredEmpty(DeserializeItems(reg, n, start));
        return Err(next.error);
      }
      ghost var acc0, cursor0, left0 := acc, cursor, left;
      acc := acc + [next.value.0];
      cursor := next.value.1;
      left := left - 1;
      GatherStep(reg, acc0, left0, cursor0, acc, left, cursor);
    }
    GatheredDone(reg, acc, cursor);
    GatheredEmpty(DeserializeItems(reg, n, start));
    return Ok((acc, cursor));
  }

  // ----- the factory object -----

  /** SerializableFactory: holds the registry that `register` updates and every lookup consults. */
  class SerializableFactory {
    var registry: Registry

    constructor ()
      ensures registry == DefaultRegistry()
    {
      registry := DefaultRegistry();
    }

    /** Registering a type name again replaces its codec; other names keep theirs. */
    method Register(name: AsciiString, codec: Codec)
      modifies this
      ensures registry == old(registry)[name := codec]
      ensures name in registry && registry[name] == codec
      ensures forall other | other in old(registry) && other != name :: other in registry && registry[other] == old(registry)[other]
    {
      registry := registry[name := codec];
    }

    method GetApplySerializer(obj: Value) returns (r: Result<Bytes>)
      ensures r == ApplySerializer(registry, obj)
      ensures r.Ok? ==> ApplyDeserializerObject(registry, r.value) == Ok(obj)
    {
      r := ApplySerializer(registry, obj);
      if r.Ok? {
        FactoryRoundTrip(registry, obj);
      }
    }

    method GetApplyDeserializer(b: Bytes) returns (r: Result<Value>)
      ensures r == ApplyDeserializerObject(registry, b)
    {
      var decoded := ApplyDeserializer(registry, b);
      if decoded.Err? {
        return Err(decoded.error);
      }
      return Ok(decoded.value.0);
    }
  }
}

