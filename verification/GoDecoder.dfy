/** The Go codec: a scanner and the decoding functions that move it, proved against the parser of
    their dialect, and the encoder. */
module GoDecoder {
  import opened Bencode
  import opened BencodeGrammar
  import opened BencodeParser

  /** A value, or an error; the error texts are not modelled. */
  datatype Decoded<+T> = Success(value: T) | Failure {
    predicate IsFailure() {
      Failure?
    }

    function PropagateFailure<U>(): Decoded<U>
      requires Failure?
    {
      Failure
    }

    function Extract(): T
      requires Success?
    {
      value
    }
  }

  const DIGITS: Bytes := [48, 49, 50, 51, 52, 53, 54, 55, 56, 57]

  class Scanner {
    const input: Bytes
    var position: nat

    ghost predicate Valid()
      reads this
    {
      position <= |input|
    }

    constructor (input: Bytes)
      ensures Valid() && this.input == input && position == 0
    {
      this.input := input;
      position := 0;
    }

    method Next() returns (result: byte, eof: bool)
      requires Valid()
      modifies this
      ensures Valid() && (eof <==> old(position) == |input|)
      ensures !eof ==> result == input[old(position)] && position == old(position) + 1
      ensures eof ==> position == old(position)
    {
      if position >= |input| {
        return 0, true;
      }
      result := input[position];
      position := position + 1;
      eof := false;
    }

    function Peek(): Decoded<byte>
      requires Valid()
      reads this
    {
      if position >= |input| then Failure else Success(input[position])
    }

    method AcceptSingle(accepted: Bytes) returns (result: byte, found: bool)
      requires Valid()
      modifies this
      ensures Valid() && (found <==> old(position) < |input| && input[old(position)] in accepted)
      ensures found ==> result == input[old(position)] && position == old(position) + 1
      ensures !found ==> position == old(position)
    {
      var b := Peek();
      if b.Failure? || b.value !in accepted {
        return 0, false;
      }
      var _, _ := Next();
      return b.value, true;
    }

    method AcceptMultiple(accepted: Bytes) returns (result: Bytes)
      requires Valid()
      modifies this
      ensures Valid() && old(position) <= position && result == input[old(position)..position]
      ensures forall i :: old(position) <= i < position ==> input[i] in accepted
      ensures position < |input| ==> input[position] !in accepted
    {
      var length := 0;
      var _, found := AcceptSingle(accepted);
      while found
        invariant Valid() && position == old(position) + length + if found then 1 else 0
        invariant forall i :: old(position) <= i < position ==> input[i] in accepted
        invariant !found && position < |input| ==> input[position] !in accepted
        decreases |input| - position, found
      {
        length := length + 1;
        var _, again := AcceptSingle(accepted);
        found := again;
      }
      return input[position - length..position];
    }

    method AcceptRun(length: nat) returns (result: Decoded<Bytes>)
      requires Valid()
      modifies this
      ensures Valid() && (result.Success? <==> old(position) + length <= |input|)
      ensures result.Success? ==> position == old(position) + length && result.value == input[old(position)..position]
      ensures result.Failure? ==> position == old(position)
    {
      if position + length > |input| {
        return Failure;
      }
      result := Success(input[position..position + length]);
      position := position + length;
    }
  }

  /** A result is what a parse prescribes. */
  ghost predicate Gives(r: Decoded<Value>, position: nat, p: Parse<Tree>) {
    match p
    case Parsed(t, next) => Accepts(Lax, t) && r == Success(Denote(t)) && position == next
    case Failed(_) => r == Failure
  }

  /** The library conversion of digits to a signed 64-bit number. */
  function Atoi(chars: Bytes): Decoded<int>
    requires AllDigits(chars)
  {
    if DigitsValue(chars) <= I64_MAX then Success(DigitsValue(chars)) else Failure
  }

  lemma RunOfDigits(data: Bytes, pos: nat, end: nat)
    requires pos <= end <= |data| && forall i :: pos <= i < end ==> data[i] in DIGITS
    requires end < |data| ==> data[end] !in DIGITS
    ensures AllDigits(data[pos..end]) && RunEnd(data, pos) == end
  {
    assert forall b: byte :: b in DIGITS <==> IsDigit(b);
    RunEndUnique(data, pos, end);
  }

  method ParseInteger(scanner: Scanner) returns (r: Decoded<int>)
    requires scanner.Valid()
    modifies scanner
    ensures scanner.Valid() && old(scanner.position) <= scanner.position
    ensures var p := ParseNumber(Go, scanner.input, old(scanner.position));
            if p.Parsed? then r == Success(NumberValue(p.value)) && scanner.position == p.next else r == Failure
  {
    hide DigitsValue;
    var sign := 1;
    var c, found := scanner.AcceptSingle([MINUS, PLUS]);
    if found && c == MINUS {
      sign := -1;
    }
    ghost var start := scanner.position;
    var chars := scanner.AcceptMultiple(DIGITS);
    RunOfDigits(scanner.input, start, scanner.position);
    if |chars| == 0 {
      return Failure;
    }
    var res :- Atoi(chars);
    return Success(res * sign);
  }

  method DecodeInteger(scanner: Scanner) returns (r: Decoded<Value>)
    requires scanner.Valid()
    modifies scanner
    ensures scanner.Valid() && old(scanner.position) <= scanner.position
    ensures Gives(r, scanner.position, ParseInt(Go, scanner.input, old(scanner.position)))
    ensures r.Success? ==> r.value.Int? && IntegerAt(scanner.input, old(scanner.position), scanner.position, r.value.i)
  {
    ParsedInt(Go, scanner.input, scanner.position);
    ParsedInteger(Go, scanner.input, scanner.position);
    hide ParseNumber;
    var c, found := scanner.AcceptSingle([LOWER_I]);
    if !found {
      return Failure;
    }
    var result := ParseInteger(scanner);
    c, found := scanner.AcceptSingle([LOWER_E]);
    if !found {
      return Failure;
    }
    var i :- result;
    return Success(Int(i));
  }

  method DecodeString(scanner: Scanner) returns (r: Decoded<Bytes>)
    requires scanner.Valid()
    modifies scanner
    ensures scanner.Valid() && old(scanner.position) <= scanner.position
    ensures var p := ParseText(Go, scanner.input, old(scanner.position));
            if p.Parsed? then r == Success(p.value.payload) && scanner.position == p.next else r == Failure
  {
    hide ParseNumber;
    var length :- ParseInteger(scanner);
    if length < 0 {
      return Failure;
    }
    var c, found := scanner.AcceptSingle([COLON]);
    if !found {
      return Failure;
    }
    r := scanner.AcceptRun(length);
  }

  method DecodeList(scanner: Scanner) returns (r: Decoded<Value>)
    requires scanner.Valid()
    modifies scanner
    ensures scanner.Valid() && old(scanner.position) <= scanner.position
    ensures Gives(r, scanner.position, ParseList(Go, scanner.input, old(scanner.position)))
    decreases |scanner.input| - scanner.position, 0
  {
    hide ParseValue, Denote, At, Show;
    ghost var data := scanner.input;
    var c, found := scanner.AcceptSingle([LOWER_L]);
    if !found {
      return Failure;
    }
    var result: seq<Value> := [];
    ghost var whole, items := ParseItems(Go, data, scanner.position), [];
    NothingDone(whole);
    while true
      invariant scanner.Valid() && old(scanner.position) < scanner.position
      invariant AcceptsItems(Lax, items) && result == DenoteItems(items)
      invariant whole == Continued(items, ParseItems(Go, data, scanner.position))
      decreases |data| - scanner.position
    {
      ghost var pos := scanner.position;
      c, found := scanner.AcceptSingle([LOWER_E]);
      if found {
        NoItems(Go, data, pos);
        DenoteCompound(Text(Number(NoSign, []), []), items, []);
        assert items + [] == items;
        return Success(List(result));
      }
      if pos < |data| { ContinueItems(Go, data, pos, items); }
      ghost var t := ParseValue(Go, data, pos);
      var value :- DecodeScannerBencodeValue(scanner);
      DenoteItemsLast(items, t.value);
      result := result + [value];
      items := items + [t.value];
    }
  }

  method DecodeDict(scanner: Scanner) returns (r: Decoded<Value>)
    requires scanner.Valid()
    modifies scanner
    ensures scanner.Valid() && old(scanner.position) <= scanner.position
    ensures Gives(r, scanner.position, ParseDict(Go, scanner.input, old(scanner.position)))
    ensures r.Success? ==> r.value.Dict?
    decreases |scanner.input| - scanner.position, 0
  {
    hide ParseText, ParseValue, Denote, At, Show, ShowText, AcceptsText;
    ghost var data := scanner.input;
    var c, found := scanner.AcceptSingle([LOWER_D]);
    if !found {
      return Failure;
    }
    var result: map<Bytes, Value> := map[];
    ghost var whole, entries := ParseEntries(Go, data, scanner.position), [];
    NothingDone(whole);
    while true
      invariant scanner.Valid() && old(scanner.position) < scanner.position
      invariant AcceptsEntries(Lax, entries) && result == DenoteEntries(entries)
      invariant whole == Continued(entries, ParseEntries(Go, data, scanner.position))
      decreases |data| - scanner.position
    {
      ghost var pos := scanner.position;
      c, found := scanner.AcceptSingle([LOWER_E]);
      if found {
        NoEntries(Go, data, pos);
        DenoteCompound(Text(Number(NoSign, []), []), [], entries);
        assert entries + [] == entries;
        return Success(Dict(result));
      }
      if pos < |data| { ContinueEntries(Go, data, pos, entries); }
      ParsedTextLax(Go, data, pos);
      ghost var k := ParseText(Go, data, pos);
      var key :- DecodeString(scanner);
      ghost var v := ParseValue(Go, data, scanner.position);
      var value :- DecodeScannerBencodeValue(scanner);
      DenoteEntriesLast(entries, Entry(k.value, v.value));
      result := result[key := value];
      entries := entries + [Entry(k.value, v.value)];
    }
  }

  method DecodeScannerBencodeValue(scanner: Scanner) returns (r: Decoded<Value>)
    requires scanner.Valid()
    modifies scanner
    ensures scanner.Valid() && old(scanner.position) <= scanner.position
    ensures Gives(r, scanner.position, ParseValue(Go, scanner.input, old(scanner.position)))
    decreases |scanner.input| - scanner.position, 1
  {
    hide ParseInt, ParseList, ParseDict, ParseText, Accepts, Denote, At, Show;
    var c :- scanner.Peek();
    if c == LOWER_I {
      r := DecodeInteger(scanner);
    } else if c == LOWER_L {
      r := DecodeList(scanner);
    } else if c == LOWER_D {
      r := DecodeDict(scanner);
    } else {
      ghost var text := ParseText(Go, scanner.input, scanner.position);
      ParsedTextLax(Go, scanner.input, scanner.position);
      var s :- DecodeString(scanner);
      DenoteCompound(text.value, [], []);
      return Success(Str(s));
    }
  }

  method DecodeBencodeDict(input: Bytes) returns (r: Decoded<Value>)
    ensures exists position :: Gives(r, position, ParseDict(Go, input, 0))
    ensures r.Success? ==> r.value.Dict?
  {
    hide ParseDict;
    var scanner := new Scanner(input);
    r := DecodeDict(scanner);
  }

  method DecodeBencodeValue(input: Bytes) returns (r: Decoded<Value>)
    ensures exists position :: Gives(r, position, ParseValue(Go, input, 0))
  {
    hide ParseValue;
    var scanner := new Scanner(input);
    r := DecodeScannerBencodeValue(scanner);
  }

  // ------------------------------------------------------------------ the encoder

  /** The library sort of strings, as an insertion sort. */
  function SortStrings(keys: seq<Bytes>): (sorted: seq<Bytes>)
    ensures multiset(sorted) == multiset(keys)
  {
    if keys == [] then []
    else
      assert keys == keys[..|keys| - 1] + [keys[|keys| - 1]];
      Inserted(keys[|keys| - 1], SortStrings(keys[..|keys| - 1]))
  }

  function Inserted(k: Bytes, sorted: seq<Bytes>): (r: seq<Bytes>)
    ensures multiset(r) == multiset(sorted) + multiset{k}
  {
    if sorted == [] || AtMost(k, sorted[0]) then [k] + sorted
    else
      assert sorted == [sorted[0]] + sorted[1..];
      [sorted[0]] + Inserted(k, sorted[1..])
  }

  ghost predicate Ordered(s: seq<Bytes>) {
    forall i, j :: 0 <= i < j < |s| ==> AtMost(s[i], s[j])
  }

  lemma {:induction false} InsertedOrdered(k: Bytes, s: seq<Bytes>)
    requires Ordered(s)
    ensures Ordered(Inserted(k, s))
  {
    hide AtMost;
    if s != [] {
      AtMostTotal(k, s[0]);
      if AtMost(k, s[0]) {
        forall j | 0 <= j < |s| ensures AtMost(k, s[j]) {
          if j > 0 { AtMostTransitive(k, s[0], s[j]); }
        }
      } else {
        InsertedOrdered(k, s[1..]);
        var r := Inserted(k, s[1..]);
        forall j | 0 <= j < |r| ensures AtMost(s[0], r[j]) {
          assert r[j] in multiset(r);
          if r[j] != k {
            assert r[j] in multiset(s[1..]);
            var i :| 0 <= i < |s[1..]| && s[1..][i] == r[j];
            assert s[i + 1] == r[j];
          }
        }
      }
    }
  }

  lemma {:induction false} SortStringsOrdered(keys: seq<Bytes>)
    ensures Ordered(SortStrings(keys))
  {
    if keys != [] {
      SortStringsOrdered(keys[..|keys| - 1]);
      InsertedOrdered(keys[|keys| - 1], SortStrings(keys[..|keys| - 1]));
    }
  }

  lemma TwiceCounted(s: seq<Bytes>, i: nat, j: nat)
    requires i < j < |s| && s[i] == s[j]
    ensures multiset(s)[s[i]] >= 2
  {
    var front, back := s[..j], s[j..];
    assert s == front + back && front[i] in front && back[0] in back;
  }

  /** Sorting the distinct keys of a map, however they were collected, gives its sorted keys. */
  lemma SortedOnce(keys: seq<Bytes>, all: set<Bytes>)
    requires multiset(keys) == multiset(all)
    ensures SortStrings(keys) == SortedKeys(all)
  {
    hide AtMost, SortStrings, SortedKeys;
    var sorted := SortStrings(keys);
    SortStringsOrdered(keys);
    forall i, j | 0 <= i < j < |sorted| ensures sorted[i] != sorted[j] {
      if sorted[i] == sorted[j] { TwiceCounted(sorted, i, j); }
    }
    forall k ensures k in sorted <==> k in all {
      assert k in sorted <==> k in multiset(sorted);
    }
    AscendingIsSorted(sorted, all);
  }

  method EncodeString(s: Bytes) returns (r: Bytes)
    ensures r == ShowText(CanonText(s))
  {
    r := FormatInt(|s|) + [COLON] + s;
  }

  method Encode(v: Value) returns (r: Bytes)
    ensures r == Encoding(v)
    decreases v, 1
  {
    match v
    case Int(i) =>
      r := [LOWER_I] + FormatInt(i) + [LOWER_E];
    case Str(s) =>
      r := EncodeString(s);
    case List(items) =>
      r := EncodeList(items);
    case Dict(entries) =>
      r := EncodeDict(v);
  }

  method EncodeList(items: seq<Value>) returns (r: Bytes)
    ensures r == Encoding(List(items))
    decreases List(items), 0
  {
    hide CanonItems, ShowItems, Encoding;
    EmptyEncodings(List(items), []);
    r := [LOWER_L];
    for n := 0 to |items|
      invariant r == [LOWER_L] + ShowItems(CanonItems(items[..n]))
    {
      var item := Encode(items[n]);
      EncodedItem(items, n);
      r := r + item;
    }
    assert items[..|items|] == items;
    r := r + [LOWER_E];
    EncodingOfCompound(items, map[]);
  }

  /** The keys come out of the map in no particular order and are sorted. */
  method EncodeDict(v: Value) returns (r: Bytes)
    requires v.Dict?
    ensures r == Encoding(v)
    decreases v, 0
  {
    hide CanonEntries, ShowEntries, ShowText, Encoding, SortedKeys, SortStrings;
    r := [LOWER_D];
    var keys: seq<Bytes> := [];
    var remaining := v.entries.Keys;
    while remaining != {}
      invariant remaining <= v.entries.Keys
      invariant multiset(keys) + multiset(remaining) == multiset(v.entries.Keys)
    {
      var k :| k in remaining;
      keys := keys + [k];
      remaining := remaining - {k};
    }
    SortedOnce(keys, v.entries.Keys);
    keys := SortStrings(keys);
    EmptyEncodings(v, keys);
    for n := 0 to |keys|
      invariant forall k :: k in keys[..n] ==> k in v.entries
      invariant r == [LOWER_D] + ShowEntries(CanonEntries(v, keys[..n]))
    {
      EncodedEntry(v, keys, n);
      var key := EncodeString(keys[n]);
      var value := Encode(v.entries[keys[n]]);
      r := r + key;
      r := r + value;
    }
    assert keys[..|keys|] == keys;
    r := r + [LOWER_E];
    EncodingOfCompound([], v.entries);
  }
}
