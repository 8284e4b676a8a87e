/** The Rust codec: a decoder that advances a cursor, proved against the parser of its dialect, and
    the encoder. */
module RustDecoder {
  import opened Bencode
  import opened BencodeGrammar
  import opened BencodeParser
  import opened BencodeTheorems

  datatype Result<+T> = Ok(value: T) | Err(error: DecoderError) {
    predicate IsFailure() {
      Err?
    }

    function PropagateFailure<U>(): Result<U>
      requires Err?
    {
      Err(error)
    }

    function Extract(): T
      requires Ok?
    {
      value
    }
  }

  class Cursor {
    const data: Bytes
    var position: nat

    // No Rust slice is longer than the largest signed 64-bit number.
    ghost predicate Valid()
      reads this
    {
      position <= |data| <= I64_MAX
    }

    constructor (data: Bytes)
      requires |data| <= I64_MAX
      ensures Valid() && this.data == data && position == 0
    {
      this.data := data;
      position := 0;
    }

    function Remaining(): nat
      requires Valid()
      reads this
    {
      |data| - position
    }

    function PeekByte(): Result<byte>
      requires Valid()
      reads this
    {
      if Remaining() == 0 then Err(EndOfStream) else Ok(data[position])
    }

    method Advance(count: nat)
      requires Valid()
      modifies this
      ensures Valid() && position == if count < old(Remaining()) then old(position) + count else |data|
    {
      var safeOffset := if count < Remaining() then count else Remaining();
      position := position + safeOffset;
    }

    method TakeByte() returns (result: Result<byte>)
      requires Valid()
      modifies this
      ensures Valid() && result == old(PeekByte())
      ensures position == if old(position) < |data| then old(position) + 1 else old(position)
    {
      result := PeekByte();
      Advance(1);
    }

    function GetSlice(): Bytes
      requires Valid()
      reads this
    {
      data[position..]
    }
  }

  /** A result is what a parse prescribes: the value of the tree and the position behind it, or the error. */
  ghost predicate Gives(r: Result<Value>, position: nat, p: Parse<Tree>) {
    match p
    case Parsed(t, next) => Accepts(Lax, t) && r == Ok(Denote(t)) && position == next
    case Failed(error) => r == Err(error)
  }

  predicate InI64(x: int) {
    I64_MIN <= x <= I64_MAX
  }

  function CheckedMul(x: int, y: int): Result<int> {
    if InI64(x * y) then Ok(x * y) else Err(OversizedInteger)
  }

  function CheckedAdd(x: int, y: int): Result<int> {
    if InI64(x + y) then Ok(x + y) else Err(OversizedInteger)
  }

  function CheckedSub(x: int, y: int): Result<int> {
    if InI64(x - y) then Ok(x - y) else Err(OversizedInteger)
  }

  /** The cast of a signed to an unsigned 64-bit number. */
  function AsUsize(x: int): nat
    requires InI64(x)
  {
    if x < 0 then x + 0x1_0000_0000_0000_0000 else x
  }

  // ------------------------------------------------------------------ reading digits

  lemma DigitsLast(data: Bytes, start: nat, pos: nat)
    requires start <= pos < |data| && AllDigits(data[start..pos]) && IsDigit(data[pos])
    ensures AllDigits(data[start..pos + 1])
    ensures DigitsValue(data[start..pos + 1]) == 10 * DigitsValue(data[start..pos]) + (data[pos] - 48) as int
  {
    assert data[start..pos + 1] == data[start..pos] + [data[pos]];
    assert data[start..pos + 1][..pos - start] == data[start..pos];
  }

  lemma {:induction false} DigitsGrow(data: Bytes, start: nat, pos: nat)
    requires start <= pos <= |data| && AllDigits(data[start..pos])
    ensures AllDigits(data[start..RunEnd(data, pos)])
    ensures DigitsValue(data[start..pos]) <= DigitsValue(data[start..RunEnd(data, pos)])
    decreases |data| - pos
  {
    if pos < |data| && IsDigit(data[pos]) {
      DigitsLast(data, start, pos);
      DigitsGrow(data, start, pos + 1);
    }
  }

  function Signed(isNegative: bool, magnitude: int): int {
    if isNegative then -magnitude else magnitude
  }

  /** The loop has read the digits from `start` to `pos` of a run, and `result` is their signed value. */
  ghost predicate ReadSoFar(data: Bytes, start: nat, pos: nat, isNegative: bool, result: int) {
    && start <= pos <= |data|
    && AllDigits(data[start..pos])
    && RunEnd(data, start) == RunEnd(data, pos)
    && result == Signed(isNegative, DigitsValue(data[start..pos]))
  }

  /** The signed value of the whole run. */
  ghost function RunValue(data: Bytes, start: nat, isNegative: bool): int
    requires start <= |data|
  {
    Signed(isNegative, DigitsValue(data[start..RunEnd(data, start)]))
  }

  /** One more digit; a step that leaves the range shows that the whole number does. */
  lemma ReadStep(data: Bytes, start: nat, pos: nat, isNegative: bool, result: int, digit: int)
    requires ReadSoFar(data, start, pos, isNegative, result)
    requires pos < |data| && IsDigit(data[pos]) && digit == (data[pos] - 48) as int
    ensures ReadSoFar(data, start, pos + 1, isNegative, result * 10 + Signed(isNegative, digit))
    ensures !InI64(result * 10) || !InI64(result * 10 + Signed(isNegative, digit)) ==> !InI64(RunValue(data, start, isNegative))
  {
    DigitsLast(data, start, pos);
    DigitsGrow(data, start, pos + 1);
    assert RunEnd(data, pos) == RunEnd(data, pos + 1);
  }

  lemma NothingRead(data: Bytes, start: nat, isNegative: bool)
    requires start <= |data|
    ensures ReadSoFar(data, start, start, isNegative, 0)
  {
  }

  lemma ReadAll(data: Bytes, start: nat, pos: nat, isNegative: bool, result: int)
    requires ReadSoFar(data, start, pos, isNegative, result)
    requires pos < |data| ==> !IsDigit(data[pos])
    ensures RunEnd(data, start) == pos && RunValue(data, start, isNegative) == result
  {
  }

  class Decoder {
    const cursor: Cursor

    ghost predicate Valid()
      reads cursor
    {
      cursor.Valid()
    }

    constructor (data: Bytes)
      requires |data| <= I64_MAX
      ensures Valid() && fresh(cursor) && cursor.data == data && cursor.position == 0
    {
      cursor := new Cursor(data);
    }

    /** The digit loop. No intermediate checked step fails for a number in range, and every number
        out of range is found out, however many digits follow. */
    method ReadDigits(isNegative: bool) returns (r: Result<int>)
      requires Valid()
      modifies cursor
      ensures Valid() && old(cursor.position) <= cursor.position
      ensures old(cursor.position) <= |cursor.data|
      ensures var value := RunValue(cursor.data, old(cursor.position), isNegative);
              if InI64(value) then r == Ok(value) && cursor.position == RunEnd(cursor.data, old(cursor.position))
              else r == Err(OversizedInteger)
    {
      hide ReadSoFar, RunValue, RunEnd;
      var result := 0;
      ghost var data, start := cursor.data, cursor.position;
      NothingRead(data, start, isNegative);
      while cursor.Remaining() > 0 && IsDigit(cursor.data[cursor.position])
        invariant Valid() && start <= cursor.position
        invariant ReadSoFar(data, start, cursor.position, isNegative, result)
        invariant InI64(result)
        decreases cursor.Remaining()
      {
        ReadStep(data, start, cursor.position, isNegative, result, (cursor.data[cursor.position] - 48) as int);
        // There is a byte, so taking it cannot fail.
        var byte := cursor.TakeByte();
        var currentDigit := (byte.value - 48) as int;
        result :- CheckedMul(result, 10);
        if isNegative {
          result :- CheckedSub(result, currentDigit);
        } else {
          result :- CheckedAdd(result, currentDigit);
        }
      }
      ReadAll(data, start, cursor.position, isNegative, result);
      return Ok(result);
    }

    method ParseSignedInt() returns (r: Result<int>)
      requires Valid()
      modifies cursor
      ensures Valid() && old(cursor.position) <= cursor.position && (r.Ok? ==> InI64(r.value))
      ensures var p := ParseNumber(Rust, cursor.data, old(cursor.position));
              if p.Parsed? then r == Ok(NumberValue(p.value)) && cursor.position == p.next else r == Err(p.error)
    {
      hide RunEnd, DigitsValue;
      var isNegative := false;
      var first :- cursor.PeekByte();
      if first == MINUS {
        cursor.Advance(1);
        isNegative := true;
      } else if first == PLUS {
        cursor.Advance(1);
      }

      var next :- cursor.PeekByte();
      if !IsDigit(next) {
        return Err(ExpectedInteger);
      }
      r := ReadDigits(isNegative);
    }

    method DecodeBytestring() returns (r: Result<Bytes>)
      requires Valid()
      modifies cursor
      ensures Valid() && old(cursor.position) <= cursor.position
      ensures var p := ParseText(Rust, cursor.data, old(cursor.position));
              if p.Parsed? then r == Ok(p.value.payload) && cursor.position == p.next else r == Err(p.error)
    {
      hide ParseNumber;
      var number :- ParseSignedInt();
      var stringSize := AsUsize(number);
      var colon :- cursor.TakeByte();
      if colon != COLON {
        return Err(ExpectedStringStart);
      }
      if cursor.Remaining() < stringSize {
        return Err(InvalidStringSize);
      }
      var bytes := cursor.GetSlice()[..stringSize];
      assert bytes == cursor.data[cursor.position..cursor.position + stringSize];
      cursor.Advance(stringSize);
      return Ok(bytes);
    }

    method DecodeInt() returns (r: Result<Value>)
      requires Valid()
      modifies cursor
      ensures Valid() && old(cursor.position) <= cursor.position
      ensures Gives(r, cursor.position, ParseInt(Rust, cursor.data, old(cursor.position)))
      ensures r.Ok? ==> r.value.Int? && IntegerAt(cursor.data, old(cursor.position), cursor.position, r.value.i)
    {
      ParsedInt(Rust, cursor.data, cursor.position);
      ParsedInteger(Rust, cursor.data, cursor.position);
      hide ParseNumber;
      var start :- cursor.TakeByte();
      if start != LOWER_I {
        return Err(ExpectedIntegerStart);
      }
      var integer :- ParseSignedInt();
      var end :- cursor.TakeByte();
      if end != LOWER_E {
        return Err(ExpectedIntegerEnd);
      }
      return Ok(Int(integer));
    }

    method DecodeValue() returns (r: Result<Value>)
      requires Valid()
      modifies cursor
      ensures Valid() && old(cursor.position) <= cursor.position
      ensures Gives(r, cursor.position, ParseValue(Rust, cursor.data, old(cursor.position)))
      decreases |cursor.data| - cursor.position, 1
    {
      hide ParseInt, ParseList, ParseDict, ParseText, Accepts, Denote, At, Show;
      ParsedValue(Rust, cursor.data, cursor.position);
      var next :- cursor.PeekByte();
      if next == LOWER_I {
        r := DecodeInt();
      } else if IsDigit(next) {
        ghost var text := ParseText(Rust, cursor.data, cursor.position);
        ParsedTextLax(Rust, cursor.data, cursor.position);
        var bytes :- DecodeBytestring();
        DenoteCompound(text.value, [], []);
        return Ok(Str(bytes));
      } else if next == LOWER_L {
        r := DecodeList();
      } else if next == LOWER_D {
        r := DecodeDict();
      } else {
        return Err(UnexpectedStartOfValue);
      }
    }

    method DecodeList() returns (r: Result<Value>)
      requires Valid()
      modifies cursor
      ensures Valid() && old(cursor.position) <= cursor.position
      ensures Gives(r, cursor.position, ParseList(Rust, cursor.data, old(cursor.position)))
      decreases |cursor.data| - cursor.position, 0
    {
      hide ParseValue, Denote, At, Show;
      ghost var data := cursor.data;
      var start :- cursor.TakeByte();
      if start != LOWER_L {
        return Err(ExpectedListStart);
      }
      var result: seq<Value> := [];
      ghost var whole, items := ParseItems(Rust, data, cursor.position), [];
      NothingDone(whole);
      while true
        invariant Valid() && old(cursor.position) < cursor.position
        invariant AcceptsItems(Lax, items) && result == DenoteItems(items)
        invariant whole == Continued(items, ParseItems(Rust, data, cursor.position))
        decreases |data| - cursor.position
      {
        var nextByte :- cursor.PeekByte();
        if nextByte == LOWER_E {
          NoItems(Rust, data, cursor.position);
          DenoteCompound(Text(Number(NoSign, []), []), items, []);
          var end := cursor.TakeByte();
          assert items + [] == items;
          return Ok(List(result));
        }
        ContinueItems(Rust, data, cursor.position, items);
        ghost var t := ParseValue(Rust, data, cursor.position);
        var value :- DecodeValue();
        DenoteItemsLast(items, t.value);
        result := result + [value];
        items := items + [t.value];
      }
    }

    method DecodeDict() returns (r: Result<Value>)
      requires Valid()
      modifies cursor
      ensures Valid() && old(cursor.position) <= cursor.position
      ensures Gives(r, cursor.position, ParseDict(Rust, cursor.data, old(cursor.position)))
      decreases |cursor.data| - cursor.position, 0
    {
      hide ParseText, ParseValue, Denote, At, Show, ShowText, AcceptsText;
      ghost var data := cursor.data;
      var start :- cursor.TakeByte();
      if start != LOWER_D {
        return Err(ExpectedDictStart);
      }
      var result: map<Bytes, Value> := map[];
      ghost var whole, entries := ParseEntries(Rust, data, cursor.position), [];
      NothingDone(whole);
      while true
        invariant Valid() && old(cursor.position) < cursor.position
        invariant AcceptsEntries(Lax, entries) && result == DenoteEntries(entries)
        invariant whole == Continued(entries, ParseEntries(Rust, data, cursor.position))
        decreases |data| - cursor.position
      {
        var nextByte :- cursor.PeekByte();
        if nextByte == LOWER_E {
          NoEntries(Rust, data, cursor.position);
          DenoteCompound(Text(Number(NoSign, []), []), [], entries);
          var end := cursor.TakeByte();
          assert entries + [] == entries;
          return Ok(Dict(result));
        }
        ContinueEntries(Rust, data, cursor.position, entries);
        ParsedTextLax(Rust, data, cursor.position);
        ghost var k := ParseText(Rust, data, cursor.position);
        var key :- DecodeBytestring();
        ghost var v := ParseValue(Rust, data, cursor.position);
        var value :- DecodeValue();
        DenoteEntriesLast(entries, Entry(k.value, v.value));
        result := result[key := value];
        entries := entries + [Entry(k.value, v.value)];
      }
    }
  }

  /** Decoding an input: it succeeds exactly if the input starts with a tree the dialect accepts, and
      then gives the value of that tree, whatever follows it. */
  method Decode(input: Bytes) returns (r: Result<Value>)
    requires |input| <= I64_MAX
    ensures forall t :: Accepts(Rust, t) && At(input, 0, Show(t)) ==> Accepts(Lax, t) && r == Ok(Denote(t))
    ensures r.Ok? ==> exists t :: Accepts(Rust, t) && At(input, 0, Show(t))
    ensures r.Err? ==> ParseValue(Rust, input, 0) == Failed(r.error)
  {
    ParsedValue(Rust, input, 0);
    forall t | Accepts(Rust, t) && At(input, 0, Show(t)) ensures Accepts(Lax, t) && ParseValue(Rust, input, 0) == Parsed(t, |Show(t)|) {
      ParseValueAt(Rust, t, input, 0);
      AcceptsLax(Rust, t);
    }
    hide ParseValue, Show, At, Accepts, Denote;
    var decoder := new Decoder(input);
    r := decoder.DecodeValue();
  }

  // ------------------------------------------------------------------ the encoder

  method Encode(v: Value) returns (r: Bytes)
    ensures r == Encoding(v)
    decreases v, 1
  {
    match v
    case Str(s) =>
      r := EncodeBytes(s);
    case Int(i) =>
      r := [LOWER_I];
      r := r + FormatInt(i);
      r := r + [LOWER_E];
    case List(items) =>
      r := EncodeList(items);
    case Dict(entries) =>
      r := EncodeDict(v);
  }

  method EncodeList(values: seq<Value>) returns (r: Bytes)
    ensures r == Encoding(List(values))
    decreases List(values), 0
  {
    hide CanonItems, ShowItems, Encoding;
    EmptyEncodings(List(values), []);
    r := [LOWER_L];
    for n := 0 to |values|
      invariant r == [LOWER_L] + ShowItems(CanonItems(values[..n]))
    {
      var v := Encode(values[n]);
      EncodedItem(values, n);
      r := r + v;
    }
    assert values[..|values|] == values;
    r := r + [LOWER_E];
    EncodingOfCompound(values, map[]);
  }

  method EncodeDict(v: Value) returns (r: Bytes)
    requires v.Dict?
    ensures r == Encoding(v)
    decreases v, 0
  {
    hide CanonEntries, ShowEntries, ShowText, Encoding, SortedKeys;
    r := [LOWER_D];
    var keys := SortedKeys(v.entries.Keys);
    EmptyEncodings(v, keys);
    for n := 0 to |keys|
      invariant forall k :: k in keys[..n] ==> k in v.entries
      invariant r == [LOWER_D] + ShowEntries(CanonEntries(v, keys[..n]))
    {
      EncodedEntry(v, keys, n);
      var key := EncodeBytes(keys[n]);
      var value := Encode(v.entries[keys[n]]);
      r := r + key;
      r := r + value;
    }
    assert keys[..|keys|] == keys;
    r := r + [LOWER_E];
    EncodingOfCompound([], v.entries);
  }

  method EncodeBytes(s: Bytes) returns (r: Bytes)
    ensures r == ShowText(CanonText(s))
  {
    r := FormatInt(|s|);
    r := r + [COLON];
    r := r + s;
  }
}
