/** Inputs and outputs byte for byte: the encodings and messages of the programs' own examples and of
    BEP 3 and BEP 5, what decoders make of unusual forms, and an input for every error. */
module BencodeExamples {
  import opened NodeIds
  import opened Bencode
  import opened BencodeGrammar
  import opened BencodeParser
  import opened BencodeTheorems
  import opened GoDecoder
  import opened KrpcMessages
  import Lookup

  /** The bytes of a string of characters below 256. */
  function Ascii(s: string): (b: Bytes)
    ensures |b| == |s|
  {
    seq(|s|, i requires 0 <= i < |s| => (s[i] as int % 256) as byte)
  }

  lemma AsciiConcat(s: string, t: string)
    ensures Ascii(s + t) == Ascii(s) + Ascii(t)
  {
  }

  // ------------------------------------------------------------------ numbers and strings

  lemma OneMoreDigit(n: nat, digit: nat)
    requires digit < 10
    ensures FormatInt(10 * n + digit) == (if n == 0 then [] else FormatInt(n)) + [(48 + digit) as byte]
  {
    assert (10 * n + digit) / 10 == n && (10 * n + digit) % 10 == digit;
    assert [] + [(48 + digit) as byte] == [(48 + digit) as byte];
  }

  lemma TextBytes(s: string, digits: string)
    requires FormatInt(|s|) == Ascii(digits)
    ensures ShowText(CanonText(Ascii(s))) == Ascii(digits + ":" + s)
    ensures Encoding(Str(Ascii(s))) == Ascii(digits + ":" + s)
  {
    AsciiConcat(digits + ":", s);
    AsciiConcat(digits, ":");
  }

  lemma IntBytes(i: int, digits: string)
    requires FormatInt(i) == Ascii(digits)
    ensures Encoding(Int(i)) == Ascii("i" + digits + "e")
  {
    AsciiConcat("i" + digits, "e");
    AsciiConcat("i", digits);
  }

  lemma Digits()
    ensures Ascii("1") == [] + [49] && Ascii("2") == [] + [50] && Ascii("3") == [] + [51] && Ascii("4") == [] + [52] && Ascii("8") == [] + [56]
    ensures Ascii("20") == [] + [50] + [48] && Ascii("123") == [] + [49] + [50] + [51] && Ascii("201") == [] + [50] + [48] + [49]
    ensures Ascii("-123") == [MINUS] + Ascii("123")
  {
  }

  lemma Negative(n: int)
    ensures n > 0 ==> FormatInt(-n) == [MINUS] + FormatInt(n)
  {
  }

  lemma Numbers()
    ensures FormatInt(1) == Ascii("1") && FormatInt(2) == Ascii("2") && FormatInt(3) == Ascii("3")
    ensures FormatInt(4) == Ascii("4") && FormatInt(8) == Ascii("8")
    ensures FormatInt(20) == Ascii("20") && FormatInt(123) == Ascii("123") && FormatInt(-123) == Ascii("-123")
    ensures FormatInt(201) == Ascii("201")
  {
    hide FormatInt, Ascii;
    Digits();
    OneMoreDigit(0, 1);
    OneMoreDigit(0, 2);
    OneMoreDigit(0, 3);
    OneMoreDigit(0, 4);
    OneMoreDigit(0, 8);
    OneMoreDigit(1, 2);
    OneMoreDigit(12, 3);
    OneMoreDigit(2, 0);
    OneMoreDigit(20, 1);
    Negative(123);
  }

  // ------------------------------------------------------------------ dictionaries

  /** The bytes of the entries of some keys, one after the other. */
  function EntryBytes(v: Value, ks: seq<Bytes>): Bytes
    requires v.Dict? && forall k :: k in ks ==> k in v.entries
  {
    if ks == [] then []
    else
      assert ks[0] in ks;
      ShowText(CanonText(ks[0])) + Encoding(v.entries[ks[0]]) + EntryBytes(v, ks[1..])
  }

  lemma {:induction false} EntryBytesLast(v: Value, ks: seq<Bytes>, k: Bytes)
    requires v.Dict? && k in v.entries && forall o :: o in ks ==> o in v.entries
    ensures forall o :: o in ks + [k] ==> o in v.entries
    ensures EntryBytes(v, ks + [k]) == EntryBytes(v, ks) + (ShowText(CanonText(k)) + Encoding(v.entries[k]))
  {
    hide Encoding, ShowText, CanonText;
    if ks == [] {
      assert [] + [k] == [k];
    } else {
      EntryBytesLast(v, ks[1..], k);
      assert (ks + [k])[1..] == ks[1..] + [k] && ks[0] in ks;
    }
  }

  lemma {:induction false} Entries(v: Value, ks: seq<Bytes>)
    requires v.Dict? && forall k :: k in ks ==> k in v.entries
    ensures ShowEntries(CanonEntries(v, ks)) == EntryBytes(v, ks)
    decreases |ks|
  {
    hide Encoding, ShowText, CanonText, ShowEntries, CanonEntries, EntryBytes;
    if ks == [] {
      EmptyEncodings(v, []);
      NoEntryBytes(v);
    } else {
      var less, k := ks[..|ks| - 1], ks[|ks| - 1];
      assert k in ks && ks == less + [k];
      Entries(v, less);
      EncodedEntry(v, ks, |ks| - 1);
      EntryBytesLast(v, less, k);
      assert ks[..|ks| - 1 + 1] == ks;
    }
  }

  lemma NoEntryBytes(v: Value)
    requires v.Dict?
    ensures EntryBytes(v, []) == [] == Ascii("")
  {
  }

  /** The first of the entries, and the bytes of the others. */
  lemma FirstEntry(v: Value, k: Bytes, rest: seq<Bytes>, key: string, value: string, others: string)
    requires v.Dict? && k in v.entries && forall o :: o in rest ==> o in v.entries
    requires ShowText(CanonText(k)) == Ascii(key) && Encoding(v.entries[k]) == Ascii(value)
    requires EntryBytes(v, rest) == Ascii(others)
    ensures forall o :: o in [k] + rest ==> o in v.entries
    ensures EntryBytes(v, [k] + rest) == Ascii(key + value + others)
  {
    hide Encoding, ShowText, CanonText;
    AsciiConcat(key + value, others);
    AsciiConcat(key, value);
    assert ([k] + rest)[1..] == rest;
  }

  lemma Delimiters()
    ensures Ascii("d") == [LOWER_D] && Ascii("l") == [LOWER_L] && Ascii("e") == [LOWER_E]
  {
  }

  lemma DictBytes(v: Value, ks: seq<Bytes>, text: string)
    requires v.Dict? && StrictlyAscending(ks) && forall k :: k in ks <==> k in v.entries
    requires EntryBytes(v, ks) == Ascii(text)
    ensures Encoding(v) == Ascii("d" + text + "e")
  {
    hide Encoding, ShowText, CanonText, ShowEntries, CanonEntries, SortedKeys, EntryBytes, StrictlyAscending, Ascii;
    Delimiters();
    AscendingIsSorted(ks, v.entries.Keys);
    EncodingOfCompound([], v.entries);
    Entries(v, ks);
    AsciiConcat("d" + text, "e");
    AsciiConcat("d", text);
  }

  lemma TwoItems(x: Value, y: Value, first: string, second: string)
    requires Encoding(x) == Ascii(first) && Encoding(y) == Ascii(second)
    ensures Encoding(List([x, y])) == Ascii("l" + first + second + "e")
  {
    hide Encoding, ShowItems, CanonItems, Ascii;
    Delimiters();
    EncodingOfCompound([x, y], map[]);
    EmptyEncodings(x, []);
    EncodedItem([x, y], 0);
    EncodedItem([x, y], 1);
    assert [x, y][..0] == [] && [x, y][..2] == [x, y];
    assert [] + Encoding(x) == Encoding(x);
    AsciiConcat("l" + first + second, "e");
    AsciiConcat("l" + first, second);
    AsciiConcat("l", first);
    Lookup.Associative([LOWER_L], Encoding(x), Encoding(y));
  }

  lemma BytewiseAscending(ks: seq<Bytes>)
    requires forall i, j :: 0 <= i < j < |ks| ==> ks[i] != [] && ks[j] != [] && ks[i][0] < ks[j][0]
    ensures StrictlyAscending(ks)
  {
  }

  lemma AAndB()
    ensures Ascii("a") != Ascii("b") && StrictlyAscending([Ascii("a"), Ascii("b")])
    ensures ShowText(CanonText(Ascii("a"))) == Ascii("1:a") && ShowText(CanonText(Ascii("b"))) == Ascii("1:b")
    ensures Encoding(Int(1)) == Ascii("i1e") && Encoding(Int(2)) == Ascii("i2e")
  {
    hide Encoding, ShowText, CanonText, FormatInt;
    assert Ascii("a")[0] < Ascii("b")[0];
    BytewiseAscending([Ascii("a"), Ascii("b")]);
    Numbers();
    TextBytes("a", "1");
    TextBytes("b", "1");
    IntBytes(1, "1");
    IntBytes(2, "2");
  }

  /** The dictionary with a = 1 and b = 2 is written by ascending keys. */
  lemma AscendingExample()
    ensures Encoding(Dict(map[Ascii("a") := Int(1), Ascii("b") := Int(2)])) == Ascii("d1:ai1e1:bi2ee")
  {
    hide Encoding, ShowText, CanonText, EntryBytes, StrictlyAscending, FormatInt, Ascii, AtMost;
    AAndB();
    var a, b := Ascii("a"), Ascii("b");
    TwoKeys(Dict(map[a := Int(1), b := Int(2)]), a, b, "1:a", "i1e", "1:b", "i2e");
    assert "d" + ("1:a" + "i1e" + ("1:b" + "i2e" + "")) + "e" == "d1:ai1e1:bi2ee";
  }

  lemma TwoKeys(v: Value, a: Bytes, b: Bytes, first: string, one: string, second: string, two: string)
    requires v.Dict? && v.entries.Keys == {a, b} && StrictlyAscending([a, b])
    requires ShowText(CanonText(a)) == Ascii(first) && Encoding(v.entries[a]) == Ascii(one)
    requires ShowText(CanonText(b)) == Ascii(second) && Encoding(v.entries[b]) == Ascii(two)
    ensures Encoding(v) == Ascii("d" + (first + one + (second + two + "")) + "e")
  {
    hide Encoding, ShowText, CanonText, EntryBytes, StrictlyAscending, Ascii, AtMost;
    NoEntryBytes(v);
    assert [b] + [] == [b] && [a] + [b] == [a, b];
    FirstEntry(v, b, [], second, two, "");
    FirstEntry(v, a, [b], first, one, second + two + "");
    DictBytes(v, [a, b], first + one + (second + two + ""));
  }

  lemma IntegerExample()
    ensures Encoding(Int(-123)) == Ascii("i-123e")
  {
    Numbers();
    IntBytes(-123, "-123");
    assert "i" + "-123" + "e" == "i-123e";
  }

  lemma ListExample()
    ensures Encoding(List([Int(4), Str(Ascii("qwe"))])) == Ascii("li4e3:qwee")
  {
    hide Encoding, ShowText, CanonText, FormatInt;
    Numbers();
    IntBytes(4, "4");
    TextBytes("qwe", "3");
    TwoItems(Int(4), Str(Ascii("qwe")), "i4e", "3:qwe");
    assert "l" + "i4e" + "3:qwe" + "e" == "li4e3:qwee";
  }

  // ------------------------------------------------------------------ messages

  lemma KeyLetters()
    ensures KEY_A == Ascii("a") && KEY_E == Ascii("e") && KEY_Q == Ascii("q")
    ensures KEY_R == Ascii("r") && KEY_T == Ascii("t") && KEY_Y == Ascii("y")
  {
    assert KEY_A == Ascii("a") && KEY_E == Ascii("e") && KEY_Q == Ascii("q");
    assert KEY_R == Ascii("r") && KEY_T == Ascii("t") && KEY_Y == Ascii("y");
  }

  lemma Keys()
    ensures ShowText(CanonText(KEY_A)) == Ascii("1:a") && ShowText(CanonText(KEY_E)) == Ascii("1:e")
    ensures ShowText(CanonText(KEY_Q)) == Ascii("1:q") && ShowText(CanonText(KEY_R)) == Ascii("1:r")
    ensures ShowText(CanonText(KEY_T)) == Ascii("1:t") && ShowText(CanonText(KEY_Y)) == Ascii("1:y")
    ensures Encoding(Str(KEY_E)) == Ascii("1:e") && Encoding(Str(KEY_Q)) == Ascii("1:q") && Encoding(Str(KEY_R)) == Ascii("1:r")
  {
    hide Encoding, ShowText, CanonText, FormatInt, Ascii;
    KeyLetters();
    Numbers();
    TextBytes("a", "1");
    TextBytes("e", "1");
    TextBytes("q", "1");
    TextBytes("r", "1");
    TextBytes("t", "1");
    TextBytes("y", "1");
    assert "1" + ":" + "a" == "1:a" && "1" + ":" + "e" == "1:e" && "1" + ":" + "q" == "1:q";
    assert "1" + ":" + "r" == "1:r" && "1" + ":" + "t" == "1:t" && "1" + ":" + "y" == "1:y";
  }

  /** The entries every message ends with. */
  lemma LastFields(v: Value, id: string, kind: Bytes, idText: string, kindText: string)
    requires v.Dict? && KEY_T in v.entries && KEY_Y in v.entries
    requires v.entries[KEY_T] == Str(Ascii(id)) && Encoding(Str(Ascii(id))) == Ascii(idText)
    requires v.entries[KEY_Y] == Str(kind) && Encoding(Str(kind)) == Ascii(kindText)
    ensures EntryBytes(v, [KEY_T, KEY_Y]) == Ascii("1:t" + idText + ("1:y" + kindText + ""))
  {
    hide Encoding, ShowText, CanonText, EntryBytes;
    Keys();
    NoEntryBytes(v);
    assert [KEY_Y] + [] == [KEY_Y] && [KEY_T] + [KEY_Y] == [KEY_T, KEY_Y];
    FirstEntry(v, KEY_Y, [], "1:y", kindText, "");
    FirstEntry(v, KEY_T, [KEY_Y], "1:t", idText, "1:y" + kindText + "");
  }

  lemma TransactionId()
    ensures Encoding(Str(Ascii("aa"))) == Ascii("2:aa")
  {
    Numbers();
    TextBytes("aa", "2");
  }

  function Ending(kind: string): string {
    "1:t" + "2:aa" + ("1:y" + kind + "")
  }

  lemma KeyOrder()
    ensures StrictlyAscending([KEY_A, KEY_Q, KEY_T, KEY_Y])
    ensures StrictlyAscending([KEY_R, KEY_T, KEY_Y]) && StrictlyAscending([KEY_E, KEY_T, KEY_Y])
  {
    BytewiseAscending([KEY_A, KEY_Q, KEY_T, KEY_Y]);
    BytewiseAscending([KEY_R, KEY_T, KEY_Y]);
    BytewiseAscending([KEY_E, KEY_T, KEY_Y]);
  }

  /** A message with transaction id aa and one field before the id and the type. */
  lemma ThreeFields(v: Value, k: Bytes, key: string, field: string, kind: Bytes, kindText: string)
    requires v.Dict? && v.entries.Keys == {k, KEY_T, KEY_Y} && StrictlyAscending([k, KEY_T, KEY_Y])
    requires ShowText(CanonText(k)) == Ascii(key) && Encoding(v.entries[k]) == Ascii(field)
    requires v.entries[KEY_T] == Str(Ascii("aa"))
    requires v.entries[KEY_Y] == Str(kind) && Encoding(Str(kind)) == Ascii(kindText)
    ensures Encoding(v) == Ascii("d" + (key + field + Ending(kindText)) + "e")
  {
    hide Encoding, ShowText, CanonText, EntryBytes, StrictlyAscending, Ascii;
    TransactionId();
    LastFields(v, "aa", kind, "2:aa", kindText);
    assert [k] + [KEY_T, KEY_Y] == [k, KEY_T, KEY_Y];
    FirstEntry(v, k, [KEY_T, KEY_Y], key, field, Ending(kindText));
    DictBytes(v, [k, KEY_T, KEY_Y], key + field + Ending(kindText));
  }

  /** The same with a query's name and arguments. */
  lemma FourFields(v: Value, name: Bytes, nameText: string, arguments: string)
    requires v.Dict? && v.entries.Keys == {KEY_A, KEY_Q, KEY_T, KEY_Y}
    requires Encoding(v.entries[KEY_A]) == Ascii(arguments)
    requires v.entries[KEY_Q] == Str(name) && Encoding(Str(name)) == Ascii(nameText)
    requires v.entries[KEY_T] == Str(Ascii("aa")) && v.entries[KEY_Y] == Str(KEY_Q)
    ensures Encoding(v) == Ascii("d" + ("1:a" + arguments + ("1:q" + nameText + Ending("1:q"))) + "e")
  {
    hide Encoding, ShowText, CanonText, EntryBytes, StrictlyAscending, Ascii;
    Keys();
    KeyOrder();
    TransactionId();
    LastFields(v, "aa", KEY_Q, "2:aa", "1:q");
    assert [KEY_Q] + [KEY_T, KEY_Y] == [KEY_Q, KEY_T, KEY_Y];
    FirstEntry(v, KEY_Q, [KEY_T, KEY_Y], "1:q", nameText, Ending("1:q"));
    assert [KEY_A] + [KEY_Q, KEY_T, KEY_Y] == [KEY_A, KEY_Q, KEY_T, KEY_Y];
    FirstEntry(v, KEY_A, [KEY_Q, KEY_T, KEY_Y], "1:a", arguments, "1:q" + nameText + Ending("1:q"));
    DictBytes(v, [KEY_A, KEY_Q, KEY_T, KEY_Y], "1:a" + arguments + ("1:q" + nameText + Ending("1:q")));
  }

  /** Something written before and behind a text. */
  lemma Around(before: string, front: string, id: string, back: string, after: string)
    ensures before + (front + id + back) == (before + front) + id + back
    ensures front + id + back + after == front + id + (back + after)
  {
  }

  lemma IdText(id: string)
    ensures "d" + ("2:id" + ("20:" + id) + "") + "e" == "d2:id20:" + id + "e"
  {
    Around("2:id", "20:", id, "", "");
    assert "2:id" + "20:" == "2:id20:" && "20:" + id + "" == "20:" + id;
    Around("d", "2:id20:", id, "", "e");
    assert "d" + "2:id20:" == "d2:id20:" && "" + "e" == "e";
  }

  /** The dictionary with the id of a node. */
  lemma IdDict(id: string)
    requires |id| == 20
    ensures Encoding(Dict(map[Ascii("id") := Str(Ascii(id))])) == Ascii("d2:id20:" + id + "e")
  {
    var k := Ascii("id");
    var v := Dict(map[k := Str(Ascii(id))]);
    hide Encoding, ShowText, CanonText, EntryBytes, FormatInt;
    Numbers();
    TextBytes("id", "2");
    TextBytes(id, "20");
    NoEntryBytes(v);
    assert "20" + ":" + id == "20:" + id;
    FirstEntry(v, k, [], "2:id", "20:" + id, "");
    assert [k] + [] == [k];
    DictBytes(v, [k], "2:id" + ("20:" + id) + "");
    IdText(id);
  }

  lemma PingText(id: string)
    ensures "d" + ("1:a" + ("d2:id20:" + id + "e") + ("1:q" + "4:ping" + Ending("1:q"))) + "e"
         == "d1:ad2:id20:" + id + "e1:q4:ping1:t2:aa1:y1:qe"
  {
    var rest := "1:q" + "4:ping" + Ending("1:q");
    assert rest == "1:q4:ping1:t2:aa1:y1:q";
    hide Ending;
    Around("1:a", "d2:id20:", id, "e", "");
    assert "1:a" + "d2:id20:" == "1:ad2:id20:";
    Around("d", "1:ad2:id20:", id, "e", rest);
    assert "e" + rest == "e1:q4:ping1:t2:aa1:y1:q";
    Around("d", "1:ad2:id20:", id, "e1:q4:ping1:t2:aa1:y1:q", "");
    assert "d" + "1:ad2:id20:" == "d1:ad2:id20:";
    Around("", "d1:ad2:id20:", id, "e1:q4:ping1:t2:aa1:y1:q", "e");
    assert "e1:q4:ping1:t2:aa1:y1:q" + "e" == "e1:q4:ping1:t2:aa1:y1:qe";
  }

  /** The ping query of BEP 5, from any node. */
  lemma PingExample(id: string)
    requires |id| == 20
    ensures var m := Query(Ascii("aa"), Ascii("ping"), map[Ascii("id") := Str(Ascii(id))]);
            Encoding(Dict(Fields(m))) == Ascii("d1:ad2:id20:" + id + "e1:q4:ping1:t2:aa1:y1:qe")
  {
    hide Encoding, Ascii, FormatInt, Ending;
    var arguments := map[Ascii("id") := Str(Ascii(id))];
    var v := Dict(Fields(Query(Ascii("aa"), Ascii("ping"), arguments)));
    Ping();
    IdDict(id);
    FourFields(v, Ascii("ping"), "4:ping", ("d2:id20:" + id + "e"));
    PingText(id);
  }

  lemma Ping()
    ensures Encoding(Str(Ascii("ping"))) == Ascii("4:ping")
  {
    hide Encoding, FormatInt;
    Numbers();
    TextBytes("ping", "4");
  }

  lemma ResponseText(id: string)
    ensures "d" + ("1:r" + ("d2:id20:" + id + "e") + Ending("1:r")) + "e" == "d1:rd2:id20:" + id + "e1:t2:aa1:y1:re"
  {
    var rest := Ending("1:r");
    assert rest == "1:t2:aa1:y1:r";
    hide Ending;
    Around("1:r", "d2:id20:", id, "e", "");
    assert "1:r" + "d2:id20:" == "1:rd2:id20:";
    Around("d", "1:rd2:id20:", id, "e", rest);
    assert "e" + rest == "e1:t2:aa1:y1:r";
    Around("d", "1:rd2:id20:", id, "e1:t2:aa1:y1:r", "");
    assert "d" + "1:rd2:id20:" == "d1:rd2:id20:";
    Around("", "d1:rd2:id20:", id, "e1:t2:aa1:y1:r", "e");
    assert "e1:t2:aa1:y1:r" + "e" == "e1:t2:aa1:y1:re";
  }

  /** The response to it, from any node. */
  lemma ResponseExample(id: string)
    requires |id| == 20
    ensures var m := Response(Ascii("aa"), map[Ascii("id") := Str(Ascii(id))]);
            Encoding(Dict(Fields(m))) == Ascii("d1:rd2:id20:" + id + "e1:t2:aa1:y1:re")
  {
    hide Encoding, Ascii, FormatInt, Ending, ShowText, CanonText, StrictlyAscending;
    var values := map[Ascii("id") := Str(Ascii(id))];
    var v := Dict(Fields(Response(Ascii("aa"), values)));
    Keys();
    KeyOrder();
    IdDict(id);
    ThreeFields(v, KEY_R, "1:r", ("d2:id20:" + id + "e"), KEY_R, "1:r");
    ResponseText(id);
  }

  lemma ErrorText()
    ensures "d" + ("1:e" + ("l" + "i201e" + "8:An Error" + "e") + Ending("1:e")) + "e" == "d1:eli201e8:An Errore1:t2:aa1:y1:ee"
  {
  }

  lemma ErrorField()
    ensures Encoding(List([Int(201), Str(Ascii("An Error"))])) == Ascii("l" + "i201e" + "8:An Error" + "e")
  {
    hide Encoding, FormatInt;
    Numbers();
    IntBytes(201, "201");
    TextBytes("An Error", "8");
    TwoItems(Int(201), Str(Ascii("An Error")), "i201e", "8:An Error");
  }

  /** An error message. */
  lemma ErrorMessageExample()
    ensures Encoding(Dict(Fields(Error(Ascii("aa"), 201, Ascii("An Error"))))) == Ascii("d1:eli201e8:An Errore1:t2:aa1:y1:ee")
  {
    hide Encoding, Ascii, FormatInt, Ending, ShowText, CanonText, StrictlyAscending;
    var v := Dict(Fields(Error(Ascii("aa"), 201, Ascii("An Error"))));
    Keys();
    KeyOrder();
    ErrorField();
    ThreeFields(v, KEY_E, "1:e", "l" + "i201e" + "8:An Error" + "e", KEY_E, "1:e");
    ErrorText();
  }

  // ------------------------------------------------------------------ unusual forms

  /** The whole input is read as a value. */
  ghost predicate ReadAs(d: Dialect, input: Bytes, v: Value) {
    exists t :: ParseValue(d, input, 0) == Parsed(t, |input|) && Accepts(Lax, t) && Denote(t) == v
  }

  lemma Reads(d: Dialect, t: Tree, input: Bytes)
    requires Accepts(d, t) && Show(t) == input
    ensures Accepts(Lax, t) && ReadAs(d, input, Denote(t))
  {
    hide Accepts, Show, Denote, ParseValue;
    AcceptsLax(d, t);
    assert input[0..0 + |input|] == input;
    ParseValueAt(d, t, input, 0);
  }

  lemma DigitValues()
    ensures DigitsValue([53]) == 5 == DigitsValue([48, 53]) && DigitsValue([48]) == 0
  {
    assert [53 as byte][..0] == [] && [48 as byte][..0] == [] && [48, 53][..1] == [48 as byte];
  }

  /** Both decoders take a plus sign, leading zeros and a negative zero. */
  lemma NumberForms(d: Dialect)
    ensures ReadAs(d, Ascii("i+5e"), Int(5)) && ReadAs(d, Ascii("i-5e"), Int(-5))
    ensures ReadAs(d, Ascii("i05e"), Int(5)) && ReadAs(d, Ascii("i-0e"), Int(0))
  {
    hide ReadAs, ParseValue, ParseNumber;
    DigitValues();
    Reads(d, TInt(Number(Plus, [53])), Ascii("i+5e"));
    Reads(d, TInt(Number(Minus, [53])), Ascii("i-5e"));
    Reads(d, TInt(Number(NoSign, [48, 53])), Ascii("i05e"));
    Reads(d, TInt(Number(Minus, [48])), Ascii("i-0e"));
  }

  // ------------------------------------------------------------------ errors and bounds

  lemma FiveAt(data: Bytes, pos: nat)
    requires pos < |data| && data[pos] == 53 && (pos + 1 < |data| ==> !IsDigit(data[pos + 1]))
    ensures ParseNumber(Rust, data, pos) == Parsed(Number(NoSign, [53]), pos + 1)
    ensures NumberValue(Number(NoSign, [53])) == 5
  {
    assert data[pos..pos + 1] == [53];
    RunEndUnique(data, pos, pos + 1);
    DigitValues();
  }

  /** An input for every error of the Rust decoder but the oversized integers. */
  lemma ErrorExamples()
    ensures ParseValue(Rust, Ascii(""), 0) == Failed(EndOfStream)
    ensures ParseValue(Rust, Ascii("x"), 0) == Failed(UnexpectedStartOfValue)
    ensures ParseInt(Rust, Ascii("5"), 0) == Failed(ExpectedIntegerStart)
    ensures ParseList(Rust, Ascii("5"), 0) == Failed(ExpectedListStart)
    ensures ParseDict(Rust, Ascii("5"), 0) == Failed(ExpectedDictStart)
  {
    hide ParseNumber, ParseText, ParseItems, ParseEntries;
  }

  lemma NoDigits()
    ensures ParseValue(Rust, Ascii("i-e"), 0) == Failed(ExpectedInteger)
  {
    hide RunEnd, ParseText, ParseItems, ParseEntries;
  }

  lemma ErrorsInNumbers()
    ensures ParseValue(Rust, Ascii("i-e"), 0) == Failed(ExpectedInteger)
    ensures ParseValue(Rust, Ascii("i5"), 0) == Failed(EndOfStream)
    ensures ParseValue(Rust, Ascii("i5x"), 0) == Failed(ExpectedIntegerEnd)
    ensures ParseValue(Rust, Ascii("5x"), 0) == Failed(ExpectedStringStart)
    ensures ParseValue(Rust, Ascii("5:x"), 0) == Failed(InvalidStringSize)
  {
    hide ParseNumber, NumberValue;
    NoDigits();
    FiveAt(Ascii("i5"), 1);
    FiveAt(Ascii("i5x"), 1);
    FiveAt(Ascii("5x"), 0);
    FiveAt(Ascii("5:x"), 0);
  }

  /** The bounds of integers are those of 64 bits. */
  lemma Bounds()
    ensures I64_MIN == -(Pow2(63) as int) && I64_MAX == Pow2(63) - 1
  {
    assert Pow2(4) == 16;
    Pow2Sum(4, 4);
    Pow2Sum(8, 8);
    Pow2Sum(16, 16);
    Pow2Sum(32, 32);
    assert Pow2(64) == 2 * Pow2(63);
  }
}
