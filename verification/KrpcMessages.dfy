/** KRPC messages as bencoded dictionaries. */
module KrpcMessages {
  import opened Bencode
  import opened BencodeGrammar
  import opened BencodeParser
  import opened BencodeTheorems
  import opened GoDecoder

  datatype KrpcMessage =
    | Query(transactionId: Bytes, methodName: Bytes, arguments: map<Bytes, Value>)
    | Response(transactionId: Bytes, returnValues: map<Bytes, Value>)
    | Error(transactionId: Bytes, code: int, message: Bytes)

  const KEY_A: Bytes := ['a' as byte]
  const KEY_E: Bytes := ['e' as byte]
  const KEY_Q: Bytes := ['q' as byte]
  const KEY_R: Bytes := ['r' as byte]
  const KEY_T: Bytes := ['t' as byte]
  const KEY_Y: Bytes := ['y' as byte]

  const TYPE_QUERY: Bytes := KEY_Q
  const TYPE_REPLY: Bytes := KEY_R
  const TYPE_ERROR: Bytes := KEY_E

  /** The dictionary of a message. */
  function Fields(m: KrpcMessage): map<Bytes, Value> {
    match m
    case Query(t, name, arguments) =>
      map[KEY_T := Str(t), KEY_Y := Str(TYPE_QUERY), KEY_Q := Str(name), KEY_A := Dict(arguments)]
    case Response(t, returnValues) =>
      map[KEY_T := Str(t), KEY_Y := Str(TYPE_REPLY), KEY_R := Dict(returnValues)]
    case Error(t, code, message) =>
      map[KEY_T := Str(t), KEY_Y := Str(TYPE_ERROR), KEY_E := List([Int(code), Str(message)])]
  }

  method EncodeMessage(m: KrpcMessage) returns (r: Bytes)
    ensures r == Encoding(Dict(Fields(m)))
  {
    r := Encode(Dict(Fields(m)));
  }

  function StrAt(data: map<Bytes, Value>, k: Bytes): Decoded<Bytes> {
    if k in data && data[k].Str? then Success(data[k].bytes) else Failure
  }

  function DictAt(data: map<Bytes, Value>, k: Bytes): Decoded<map<Bytes, Value>> {
    if k in data && data[k].Dict? then Success(data[k].entries) else Failure
  }

  function DecodeKrpcMessage(data: map<Bytes, Value>): Decoded<KrpcMessage> {
    var t :- StrAt(data, KEY_T);
    var y :- StrAt(data, KEY_Y);
    if y == TYPE_QUERY then
      var q :- StrAt(data, KEY_Q);
      var a :- DictAt(data, KEY_A);
      Success(Query(t, q, a))
    else if y == TYPE_REPLY then
      var r :- DictAt(data, KEY_R);
      Success(Response(t, r))
    else if y == TYPE_ERROR then
      if KEY_E in data && data[KEY_E].List? && |data[KEY_E].items| == 2
         && data[KEY_E].items[0].Int? && data[KEY_E].items[1].Str?
      then Success(Error(t, data[KEY_E].items[0].i, data[KEY_E].items[1].bytes))
      else Failure
    else Failure
  }

  /** The dictionary holds all the fields of the message. */
  ghost predicate Carries(data: map<Bytes, Value>, m: KrpcMessage) {
    forall k :: k in Fields(m) ==> k in data && data[k] == Fields(m)[k]
  }

  /** A dictionary is decoded to a message exactly if it carries the fields of that message,
      whatever else it holds; so it carries at most one. */
  lemma DecodesWhatIsCarried(data: map<Bytes, Value>, m: KrpcMessage)
    ensures DecodeKrpcMessage(data) == Success(m) <==> Carries(data, m)
  {
    if DecodeKrpcMessage(data) == Success(m) {
      if m.Error? {
        assert data[KEY_E].items == [Int(m.code), Str(m.message)];
      }
      assert Carries(data, m);
    }
    if Carries(data, m) {
      assert KEY_T in Fields(m) && KEY_Y in Fields(m);
      match m
      case Query(_, _, _) => assert KEY_Q in Fields(m) && KEY_A in Fields(m);
      case Response(_, _) => assert KEY_R in Fields(m);
      case Error(_, _, _) => assert KEY_E in Fields(m);
    }
  }

  /** Decoding an input as a dictionary and that as a message. */
  method DecodeInput(input: Bytes) returns (r: Decoded<KrpcMessage>)
    ensures var p := ParseDict(Go, input, 0);
            if p.Failed? then r == Failure
            else exists data :: Accepts(Lax, p.value) && Denote(p.value) == Dict(data) && r == DecodeKrpcMessage(data)
  {
    hide ParseDict, DecodeKrpcMessage;
    var dict :- DecodeBencodeDict(input);
    r := DecodeKrpcMessage(dict.entries);
  }

  lemma CarriesItself(m: KrpcMessage)
    ensures Carries(Fields(m), m)
  {
  }

  /** The round trip of a message, with anything behind it in the packet: it comes back as it was if
      every integer in it is readable, which excludes -2^63, and is rejected otherwise. */
  lemma MessageRoundTrip(m: KrpcMessage, rest: Bytes)
    ensures var v := Dict(Fields(m));
            var p := ParseDict(Go, Encoding(v) + rest, 0);
            if Representable(Go, v)
            then && p.Parsed? && p.next == |Encoding(v)|
                 && Accepts(Lax, p.value) && Denote(p.value) == v && DecodeKrpcMessage(v.entries) == Success(m)
            else p.Failed?
  {
    hide ParseDict, ParseValue, Encoding, Denote, Representable, Accepts, Carries, DecodeKrpcMessage, Canon;
    var v := Dict(Fields(m));
    assert [] + Encoding(v) + rest == Encoding(v) + rest;
    DictStart(v, rest);
    if Representable(Go, v) {
      RoundTrip(Go, v, [], rest);
      CarriesItself(m);
      DecodesWhatIsCarried(Fields(m), m);
    } else {
      UnrepresentableFails(Go, v, [], rest);
    }
  }

  /** A dictionary's encoding is parsed as a value the way it is parsed as a dictionary. */
  lemma DictStart(v: Value, rest: Bytes)
    requires v.Dict?
    ensures ParseValue(Go, Encoding(v) + rest, 0) == ParseDict(Go, Encoding(v) + rest, 0)
  {
    EncodingOfCompound([], v.entries);
    hide ParseDict, Encoding;
    assert (Encoding(v) + rest)[0] == LOWER_D;
  }

  lemma RepresentableFields(fields: map<Bytes, Value>)
    requires forall k :: k in fields ==> |k| == 1
    ensures Representable(Go, Dict(fields)) <==> forall k :: k in fields ==> Representable(Go, fields[k])
  {
  }

  /** Which messages survive: the lengths must be representable, and no integer is -2^63. */
  lemma RepresentableMessage(m: KrpcMessage)
    ensures Representable(Go, Dict(Fields(m)))
       <==> |m.transactionId| <= I64_MAX
            && match m
               case Query(_, name, arguments) => |name| <= I64_MAX && Representable(Go, Dict(arguments))
               case Response(_, returnValues) => Representable(Go, Dict(returnValues))
               case Error(_, code, message) => -I64_MAX <= code <= I64_MAX && |message| <= I64_MAX
  {
    var fields := Fields(m);
    RepresentableFields(fields);
    assert KEY_T in fields && fields[KEY_T] == Str(m.transactionId);
    assert KEY_Y in fields && Representable(Go, fields[KEY_Y]);
    match m
    case Query(_, name, arguments) =>
      assert KEY_Q in fields && fields[KEY_Q] == Str(name);
      assert KEY_A in fields && fields[KEY_A] == Dict(arguments);
    case Response(_, returnValues) =>
      assert KEY_R in fields && fields[KEY_R] == Dict(returnValues);
    case Error(_, code, message) =>
      var pair := [Int(code), Str(message)];
      assert KEY_E in fields && fields[KEY_E] == List(pair);
      assert Representable(Go, List(pair)) <==> Representable(Go, pair[0]) && Representable(Go, pair[1]);
  }
}
