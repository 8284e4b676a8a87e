/** What both decoders compute, as functions from an input and a position to a syntax tree and the
    position behind it; the errors are those of the Rust decoder. The parser accepts exactly the
    written forms of the trees its dialect accepts. */
module BencodeParser {
  import opened Bencode
  import opened BencodeGrammar

  datatype DecoderError =
    | EndOfStream | OversizedInteger | ExpectedInteger | ExpectedIntegerStart | ExpectedIntegerEnd
    | ExpectedStringStart | ExpectedListStart | ExpectedDictStart | InvalidStringSize | UnexpectedStartOfValue

  datatype Parse<+T> = Parsed(value: T, next: nat) | Failed(error: DecoderError)

  function SignOf(b: byte): Sign {
    if b == MINUS then Minus else if b == PLUS then Plus else NoSign
  }

  /** The end of the run of digits that starts at a position. */
  function RunEnd(data: Bytes, pos: nat): (end: nat)
    requires pos <= |data|
    ensures pos <= end <= |data|
    ensures AllDigits(data[pos..end])
    ensures end < |data| ==> !IsDigit(data[end])
    decreases |data| - pos
  {
    if pos < |data| && IsDigit(data[pos]) then RunEnd(data, pos + 1) else pos
  }

  function ParseNumber(d: Dialect, data: Bytes, pos: nat): (r: Parse<Number>)
    ensures r.Parsed? ==> pos < r.next <= |data| && AllDigits(r.value.digits)
  {
    if pos >= |data| then Failed(EndOfStream)
    else
      var sign := SignOf(data[pos]);
      var start := if sign == NoSign then pos else pos + 1;
      if start >= |data| then Failed(EndOfStream)
      else if !IsDigit(data[start]) then Failed(ExpectedInteger)
      else
        var n := Number(sign, data[start..RunEnd(data, start)]);
        if InRange(d, n) then Parsed(n, RunEnd(data, start)) else Failed(OversizedInteger)
  }

  function ParseText(d: Dialect, data: Bytes, pos: nat): (r: Parse<Text>)
    ensures r.Parsed? ==> pos < r.next <= |data|
  {
    var r := ParseNumber(d, data, pos);
    if r.Failed? then Failed(r.error)
    else if r.next >= |data| then Failed(EndOfStream)
    else if data[r.next] != COLON then Failed(ExpectedStringStart)
    else if !(0 <= NumberValue(r.value) <= |data| - (r.next + 1)) then Failed(InvalidStringSize)
    else
      var start := r.next + 1;
      var size := NumberValue(r.value);
      Parsed(Text(r.value, data[start..start + size]), start + size)
  }

  function ParseInt(d: Dialect, data: Bytes, pos: nat): (r: Parse<Tree>)
    ensures r.Parsed? ==> pos < r.next <= |data|
  {
    if pos >= |data| then Failed(EndOfStream)
    else if data[pos] != LOWER_I then Failed(ExpectedIntegerStart)
    else
      var r := ParseNumber(d, data, pos + 1);
      if r.Failed? then Failed(r.error)
      else if r.next >= |data| then Failed(EndOfStream)
      else if data[r.next] != LOWER_E then Failed(ExpectedIntegerEnd)
      else Parsed(TInt(r.value), r.next + 1)
  }

  function ParseValue(d: Dialect, data: Bytes, pos: nat): (r: Parse<Tree>)
    ensures r.Parsed? ==> pos < r.next <= |data|
    decreases |data| - pos, 1
  {
    if pos >= |data| then Failed(EndOfStream)
    else if data[pos] == LOWER_I then ParseInt(d, data, pos)
    else if data[pos] == LOWER_L then ParseList(d, data, pos)
    else if data[pos] == LOWER_D then ParseDict(d, data, pos)
    else if d == Rust && !IsDigit(data[pos]) then Failed(UnexpectedStartOfValue)
    else
      var r := ParseText(d, data, pos);
      if r.Failed? then Failed(r.error) else Parsed(TStr(r.value), r.next)
  }

  function ParseList(d: Dialect, data: Bytes, pos: nat): (r: Parse<Tree>)
    ensures r.Parsed? ==> pos < r.next <= |data|
    decreases |data| - pos, 0
  {
    if pos >= |data| then Failed(EndOfStream)
    else if data[pos] != LOWER_L then Failed(ExpectedListStart)
    else
      var r := ParseItems(d, data, pos + 1);
      if r.Failed? then Failed(r.error) else Parsed(TList(r.value), r.next)
  }

  function ParseDict(d: Dialect, data: Bytes, pos: nat): (r: Parse<Tree>)
    ensures r.Parsed? ==> pos < r.next <= |data|
    decreases |data| - pos, 0
  {
    if pos >= |data| then Failed(EndOfStream)
    else if data[pos] != LOWER_D then Failed(ExpectedDictStart)
    else
      var r := ParseEntries(d, data, pos + 1);
      if r.Failed? then Failed(r.error) else Parsed(TDict(r.value), r.next)
  }

  function ParseItems(d: Dialect, data: Bytes, pos: nat): (r: Parse<seq<Tree>>)
    ensures r.Parsed? ==> pos < r.next <= |data|
    decreases |data| - pos, 2
  {
    if pos >= |data| then Failed(EndOfStream)
    else if data[pos] == LOWER_E then Parsed([], pos + 1)
    else
      var v := ParseValue(d, data, pos);
      if v.Failed? then Failed(v.error)
      else
        var r := ParseItems(d, data, v.next);
        if r.Failed? then r else Parsed([v.value] + r.value, r.next)
  }

  function ParseEntries(d: Dialect, data: Bytes, pos: nat): (r: Parse<seq<Entry>>)
    ensures r.Parsed? ==> pos < r.next <= |data|
    decreases |data| - pos, 2
  {
    if pos >= |data| then Failed(EndOfStream)
    else if data[pos] == LOWER_E then Parsed([], pos + 1)
    else
      var k := ParseText(d, data, pos);
      if k.Failed? then Failed(k.error)
      else
        var v := ParseValue(d, data, k.next);
        if v.Failed? then Failed(v.error)
        else
          var r := ParseEntries(d, data, v.next);
          if r.Failed? then r else Parsed([Entry(k.value, v.value)] + r.value, r.next)
  }

  // ------------------------------------------------------------------ the parser finds what is written

  /** `s` is what the input holds at a position. */
  ghost predicate At(data: Bytes, pos: nat, s: Bytes) {
    pos + |s| <= |data| && data[pos..pos + |s|] == s
  }

  lemma AtParts(data: Bytes, pos: nat, a: Bytes, b: Bytes)
    ensures At(data, pos, a + b) <==> At(data, pos, a) && At(data, pos + |a|, b)
  {
    if At(data, pos, a + b) {
      assert data[pos..pos + |a|] == (a + b)[..|a|] == a;
      assert data[pos + |a|..pos + |a| + |b|] == (a + b)[|a|..] == b;
    }
  }

  lemma AtFirst(data: Bytes, pos: nat, s: Bytes)
    requires At(data, pos, s) && s != []
    ensures pos < |data| && data[pos] == s[0] && pos + |s| <= |data|
  {
    assert data[pos..pos + |s|][0] == data[pos];
  }

  lemma AtSlice(data: Bytes, pos: nat, end: nat)
    requires pos <= end <= |data|
    ensures At(data, pos, data[pos..end])
  {
  }

  lemma AtByte(data: Bytes, pos: nat, b: byte)
    ensures At(data, pos, [b]) <==> pos < |data| && data[pos] == b
  {
  }

  /** A run of digits ends where the digits end. */
  lemma {:induction false} RunEndUnique(data: Bytes, pos: nat, end: nat)
    requires pos <= end <= |data| && AllDigits(data[pos..end])
    requires end < |data| ==> !IsDigit(data[end])
    ensures RunEnd(data, pos) == end
    decreases end - pos
  {
    if pos < end {
      assert data[pos] == data[pos..end][0];
      assert data[pos + 1..end] == data[pos..end][1..];
      RunEndUnique(data, pos + 1, end);
    }
  }

  /** A written number is read up to where its digits end, which may be the end of the input. */
  lemma ParseNumberAt(d: Dialect, n: Number, data: Bytes, pos: nat)
    requires Written(n) && At(data, pos, ShowNumber(n))
    requires pos + |ShowNumber(n)| < |data| ==> !IsDigit(data[pos + |ShowNumber(n)|])
    ensures ParseNumber(d, data, pos)
         == if InRange(d, n) then Parsed(n, pos + |ShowNumber(n)|) else Failed(OversizedInteger)
  {
    hide InRange, RunEnd;
    var start, end := pos + |ShowSign(n.sign)|, pos + |ShowNumber(n)|;
    AtParts(data, pos, ShowSign(n.sign), n.digits);
    assert data[start..end] == n.digits;
    RunEndUnique(data, start, end);
    assert data[start] == n.digits[0];
    assert n.sign != NoSign ==> ShowSign(n.sign)[0] == data[pos];
  }

  /** A text is written as its length, a colon and its payload. */
  lemma TextParts(t: Text, data: Bytes, pos: nat)
    requires At(data, pos, ShowText(t))
    ensures var colon := pos + |ShowNumber(t.length)|;
            && At(data, pos, ShowNumber(t.length)) && colon < |data| && data[colon] == COLON
            && At(data, colon + 1, t.payload) && pos + |ShowText(t)| == colon + 1 + |t.payload|
  {
    hide ShowNumber, At;
    var number := ShowNumber(t.length);
    AtParts(data, pos, number + [COLON], t.payload);
    AtParts(data, pos, number, [COLON]);
    AtByte(data, pos + |number|, COLON);
  }

  lemma TextAfterNumber(d: Dialect, t: Text, data: Bytes, pos: nat, colon: nat)
    requires ParseNumber(d, data, pos) == Parsed(t.length, colon) && NumberValue(t.length) == |t.payload|
    requires colon < |data| && data[colon] == COLON && At(data, colon + 1, t.payload)
    ensures ParseText(d, data, pos) == Parsed(t, colon + 1 + |t.payload|)
  {
    hide ParseNumber, NumberValue;
  }

  lemma ParseTextAt(d: Dialect, t: Text, data: Bytes, pos: nat)
    requires AcceptsText(d, t) && At(data, pos, ShowText(t))
    ensures ParseText(d, data, pos) == Parsed(t, pos + |ShowText(t)|)
  {
    TextParts(t, data, pos);
    hide ShowNumber, ShowText, InRange, ParseNumber, ParseText, At;
    ParseNumberAt(d, t.length, data, pos);
    TextAfterNumber(d, t, data, pos, pos + |ShowNumber(t.length)|);
  }

  /** The first byte tells values, the end of a list and the end of a dictionary apart. */
  lemma FirstByte(d: Dialect, t: Tree)
    requires Accepts(d, t)
    ensures |Show(t)| > 0 && Show(t)[0] != LOWER_E
    ensures (Show(t)[0] == LOWER_I <==> t.TInt?) && (Show(t)[0] == LOWER_L <==> t.TList?) && (Show(t)[0] == LOWER_D <==> t.TDict?)
    ensures t.TStr? && t.text.length.sign == NoSign ==> IsDigit(Show(t)[0])
  {
    if t.TStr? {
      TextFirstByte(d, t.text);
    }
  }

  lemma TextFirstByte(d: Dialect, t: Text)
    requires AcceptsText(d, t)
    ensures |ShowText(t)| > 0
    ensures var b := ShowText(t)[0]; (IsDigit(b) && t.length.sign == NoSign) || (b == PLUS && t.length.sign == Plus) || (b == MINUS && t.length.sign == Minus)
  {
    assert IsDigit(t.length.digits[0]);
  }

  lemma TextNotEnd(d: Dialect, t: Text)
    requires AcceptsText(d, t)
    ensures ShowText(t) != [] && ShowText(t)[0] != LOWER_E
  {
    TextFirstByte(d, t);
  }

  /** The parser takes the branch of the tree that is written there. */
  lemma RightBranch(d: Dialect, t: Tree, data: Bytes, pos: nat)
    requires Accepts(d, t) && At(data, pos, Show(t))
    ensures ParseValue(d, data, pos)
         == match t
            case TInt(_) => ParseInt(d, data, pos)
            case TStr(_) => AsTree(ParseText(d, data, pos))
            case TList(_) => ParseList(d, data, pos)
            case TDict(_) => ParseDict(d, data, pos)
    ensures pos < |data| && (t.TList? ==> data[pos] == LOWER_L) && (t.TDict? ==> data[pos] == LOWER_D)
  {
    FirstByte(d, t);
    AtFirst(data, pos, Show(t));
    hide At, Show, ParseInt, ParseText, ParseList, ParseDict, AcceptsNumber, AcceptsItems, AcceptsEntries;
  }

  function AsTree(r: Parse<Text>): Parse<Tree> {
    if r.Failed? then Failed(r.error) else Parsed(TStr(r.value), r.next)
  }

  /** Whatever stands behind it, a written tree of the dialect is parsed, up to its end. */
  lemma {:induction false} ParseValueAt(d: Dialect, t: Tree, data: Bytes, pos: nat)
    requires Accepts(d, t) && At(data, pos, Show(t))
    ensures ParseValue(d, data, pos) == Parsed(t, pos + |Show(t)|)
    decreases t
  {
    RightBranch(d, t, data, pos);
    hide At, ParseValue, ParseText, ParseInt, ParseItems, ParseEntries, ShowItems, ShowEntries, ShowText, AcceptsText, AcceptsItems, AcceptsEntries, InRange;
    match t
    case TInt(n) =>
      ParseIntAt(d, n, data, pos);
    case TStr(text) =>
      ParseTextAt(d, text, data, pos);
    case TList(items) =>
      OpenBody(data, pos, LOWER_L, ShowItems(items));
      ParseItemsAt(d, items, data, pos + 1);
    case TDict(entries) =>
      OpenBody(data, pos, LOWER_D, ShowEntries(entries));
      ParseEntriesAt(d, entries, data, pos + 1);
  }

  lemma OpenBody(data: Bytes, pos: nat, start: byte, body: Bytes)
    requires At(data, pos, [start] + body + [LOWER_E])
    ensures At(data, pos + 1, body + [LOWER_E])
  {
    assert [start] + body + [LOWER_E] == [start] + (body + [LOWER_E]);
    AtParts(data, pos, [start], body + [LOWER_E]);
  }

  lemma ParseIntAt(d: Dialect, n: Number, data: Bytes, pos: nat)
    requires AcceptsNumber(d, n) && At(data, pos, [LOWER_I] + ShowNumber(n) + [LOWER_E])
    ensures ParseInt(d, data, pos) == Parsed(TInt(n), pos + |ShowNumber(n)| + 2)
  {
    AtParts(data, pos, [LOWER_I] + ShowNumber(n), [LOWER_E]);
    AtParts(data, pos, [LOWER_I], ShowNumber(n));
    AtByte(data, pos + 1 + |ShowNumber(n)|, LOWER_E);
    AtByte(data, pos, LOWER_I);
    hide ShowNumber, At, InRange, ParseNumber;
    ParseNumberAt(d, n, data, pos + 1);
  }

  /** A list's items are written one after the other. */
  lemma ItemsParts(data: Bytes, pos: nat, t: Tree, rest: seq<Tree>)
    ensures |ShowItems([t] + rest)| == |Show(t)| + |ShowItems(rest)|
    ensures At(data, pos, ShowItems([t] + rest) + [LOWER_E])
            <==> At(data, pos, Show(t)) && At(data, pos + |Show(t)|, ShowItems(rest) + [LOWER_E])
  {
    assert ([t] + rest)[1..] == rest;
    assert ShowItems([t] + rest) == Show(t) + ShowItems(rest);
    hide At, Show, ShowItems;
    assert Show(t) + ShowItems(rest) + [LOWER_E] == Show(t) + (ShowItems(rest) + [LOWER_E]);
    AtParts(data, pos, Show(t), ShowItems(rest) + [LOWER_E]);
  }

  lemma {:induction false} ParseItemsAt(d: Dialect, items: seq<Tree>, data: Bytes, pos: nat)
    requires AcceptsItems(d, items)
    requires At(data, pos, ShowItems(items) + [LOWER_E])
    ensures ParseItems(d, data, pos) == Parsed(items, pos + |ShowItems(items)| + 1)
    decreases items
  {
    if items == [] {
      AtByte(data, pos, LOWER_E);
      assert ShowItems(items) + [LOWER_E] == [LOWER_E];
    } else {
      hide At, ParseValue, ParseItems, Show, ShowItems, Accepts, AcceptsItems;
      var t, rest := items[0], items[1..];
      assert items == [t] + rest;
      AcceptsItemsCons(d, t, rest);
      ItemsParts(data, pos, t, rest);
      FirstByte(d, t);
      AtFirst(data, pos, Show(t));
      ParseValueAt(d, t, data, pos);
      var afterItem := pos + |Show(t)|;
      ParseItemsAt(d, rest, data, afterItem);
      ParseItemsStep(d, data, pos, t, afterItem, rest, afterItem + |ShowItems(rest)| + 1);
    }
  }

  lemma ParseItemsStep(d: Dialect, data: Bytes, pos: nat, t: Tree, afterItem: nat, rest: seq<Tree>, next: nat)
    requires pos < |data| && data[pos] != LOWER_E
    requires ParseValue(d, data, pos) == Parsed(t, afterItem)
    requires ParseItems(d, data, afterItem) == Parsed(rest, next)
    ensures ParseItems(d, data, pos) == Parsed([t] + rest, next)
  {
  }

  lemma ShowEntriesCons(e: Entry, rest: seq<Entry>)
    ensures ShowEntries([e] + rest) == ShowText(e.key) + Show(e.value) + ShowEntries(rest)
  {
    assert ([e] + rest)[1..] == rest;
  }

  /** A dictionary's entries are written one after the other. */
  lemma EntriesParts(data: Bytes, pos: nat, e: Entry, rest: seq<Entry>)
    ensures var key, value := ShowText(e.key), Show(e.value);
            && |ShowEntries([e] + rest)| == |key| + |value| + |ShowEntries(rest)|
            && (At(data, pos, ShowEntries([e] + rest) + [LOWER_E])
                <==> At(data, pos, key) && At(data, pos + |key|, value) && At(data, pos + |key| + |value|, ShowEntries(rest) + [LOWER_E]))
  {
    ShowEntriesCons(e, rest);
    hide At, ShowText, Show, ShowEntries;
    var key, value, others := ShowText(e.key), Show(e.value), ShowEntries(rest);
    ThreeParts(key, value, others, [LOWER_E]);
    AtParts(data, pos, key, value + (others + [LOWER_E]));
    AtParts(data, pos + |key|, value, others + [LOWER_E]);
  }

  lemma ThreeParts(a: Bytes, b: Bytes, c: Bytes, d: Bytes)
    ensures a + b + c + d == a + (b + (c + d))
  {
  }

  lemma {:induction false} ParseEntriesAt(d: Dialect, entries: seq<Entry>, data: Bytes, pos: nat)
    requires AcceptsEntries(d, entries)
    requires At(data, pos, ShowEntries(entries) + [LOWER_E])
    ensures ParseEntries(d, data, pos) == Parsed(entries, pos + |ShowEntries(entries)| + 1)
    decreases entries
  {
    if entries == [] {
      AtByte(data, pos, LOWER_E);
      assert ShowEntries(entries) + [LOWER_E] == [LOWER_E];
    } else {
      hide At, ParseValue, ParseText, ParseEntries, ShowText, ShowEntries, Show, AcceptsText, Accepts, AcceptsEntries;
      var e, rest := entries[0], entries[1..];
      assert entries == [e] + rest;
      AcceptsEntriesCons(d, e, rest);
      var afterKey, afterValue := ParseKeyAt(d, e, rest, data, pos);
      ParseEntryValueAt(d, e, data, afterKey);
      ParseEntriesAt(d, rest, data, afterValue);
      ParseEntriesStep(d, data, pos, e, afterKey, afterValue, rest, afterValue + |ShowEntries(rest)| + 1);
    }
  }

  lemma ParseKeyAt(d: Dialect, e: Entry, rest: seq<Entry>, data: Bytes, pos: nat) returns (afterKey: nat, afterValue: nat)
    requires AcceptsText(d, e.key) && At(data, pos, ShowEntries([e] + rest) + [LOWER_E])
    ensures pos < |data| && data[pos] != LOWER_E
    ensures ParseText(d, data, pos) == Parsed(e.key, afterKey)
    ensures At(data, afterKey, Show(e.value)) && afterValue == afterKey + |Show(e.value)|
    ensures At(data, afterValue, ShowEntries(rest) + [LOWER_E])
    ensures pos + |ShowEntries([e] + rest)| == afterValue + |ShowEntries(rest)|
  {
    hide At, ParseText, ShowText, ShowEntries, Show, AcceptsText, IsDigit;
    TextNotEnd(d, e.key);
    EntriesParts(data, pos, e, rest);
    AtFirst(data, pos, ShowText(e.key));
    ParseTextAt(d, e.key, data, pos);
    afterKey := pos + |ShowText(e.key)|;
    afterValue := afterKey + |Show(e.value)|;
  }

  lemma ParseEntriesStep(d: Dialect, data: Bytes, pos: nat, e: Entry, afterKey: nat, afterValue: nat, rest: seq<Entry>, next: nat)
    requires pos < |data| && data[pos] != LOWER_E
    requires ParseText(d, data, pos) == Parsed(e.key, afterKey)
    requires ParseValue(d, data, afterKey) == Parsed(e.value, afterValue)
    requires ParseEntries(d, data, afterValue) == Parsed(rest, next)
    ensures ParseEntries(d, data, pos) == Parsed([e] + rest, next)
  {
  }

  lemma {:induction false} ParseEntryValueAt(d: Dialect, e: Entry, data: Bytes, pos: nat)
    requires Accepts(d, e.value) && At(data, pos, Show(e.value))
    ensures ParseValue(d, data, pos) == Parsed(e.value, pos + |Show(e.value)|)
    decreases e
  {
    ParseValueAt(d, e.value, data, pos);
  }

  // ------------------------------------------------------------------ what the parser finds is written there

  lemma ParsedNumber(d: Dialect, data: Bytes, pos: nat)
    ensures var r := ParseNumber(d, data, pos);
            r.Parsed? ==> AcceptsNumber(d, r.value) && At(data, pos, ShowNumber(r.value)) && r.next == pos + |ShowNumber(r.value)|
  {
    var r := ParseNumber(d, data, pos);
    if r.Parsed? {
      AtByte(data, pos, data[pos]);
      AtParts(data, pos, ShowSign(r.value.sign), r.value.digits);
      assert r.value.digits[0] == data[r.next - |r.value.digits|];
    }
  }

  lemma ParsedText(d: Dialect, data: Bytes, pos: nat)
    ensures var r := ParseText(d, data, pos);
            r.Parsed? ==> AcceptsText(d, r.value) && At(data, pos, ShowText(r.value)) && r.next == pos + |ShowText(r.value)|
  {
    hide ParseNumber, ShowNumber, InRange, At;
    var r := ParseText(d, data, pos);
    ParsedNumber(d, data, pos);
    if r.Parsed? {
      var n := r.value.length;
      AtSlice(data, r.next - |r.value.payload|, r.next);
      AtByte(data, pos + |ShowNumber(n)|, COLON);
      AtParts(data, pos, ShowNumber(n), [COLON]);
      AtParts(data, pos, ShowNumber(n) + [COLON], r.value.payload);
    }
  }

  lemma ParsedInt(d: Dialect, data: Bytes, pos: nat)
    ensures var r := ParseInt(d, data, pos);
            r.Parsed? ==> Accepts(d, r.value) && At(data, pos, Show(r.value)) && r.next == pos + |Show(r.value)|
  {
    hide ParseNumber, ShowNumber, InRange, At;
    var r := ParseInt(d, data, pos);
    ParsedNumber(d, data, pos + 1);
    if r.Parsed? {
      var n := r.value.n;
      AtByte(data, pos, LOWER_I);
      AtByte(data, pos + 1 + |ShowNumber(n)|, LOWER_E);
      AtParts(data, pos, [LOWER_I], ShowNumber(n));
      AtParts(data, pos, [LOWER_I] + ShowNumber(n), [LOWER_E]);
    }
  }

  /** Whatever the parser returns is a tree of the dialect, and its written form is what was consumed. */
  lemma {:induction false} ParsedValue(d: Dialect, data: Bytes, pos: nat)
    ensures var r := ParseValue(d, data, pos);
            r.Parsed? ==> Accepts(d, r.value) && At(data, pos, Show(r.value)) && r.next == pos + |Show(r.value)|
    decreases |data| - pos, 1
  {
    hide At, ParseText, ParseInt, ParseItems, ParseEntries;
    if pos < |data| && data[pos] == LOWER_I {
      ParsedInt(d, data, pos);
    } else if pos < |data| && data[pos] == LOWER_L {
      var r := ParseItems(d, data, pos + 1);
      ParsedItems(d, data, pos + 1);
      if r.Parsed? { Enclosed(data, pos, LOWER_L, ShowItems(r.value)); }
    } else if pos < |data| && data[pos] == LOWER_D {
      var r := ParseEntries(d, data, pos + 1);
      ParsedEntries(d, data, pos + 1);
      if r.Parsed? { Enclosed(data, pos, LOWER_D, ShowEntries(r.value)); }
    } else if pos < |data| {
      ParsedStr(d, data, pos);
    }
  }

  lemma ParsedStr(d: Dialect, data: Bytes, pos: nat)
    requires pos < |data|
    ensures var r := ParseText(d, data, pos);
            r.Parsed? ==> At(data, pos, Show(TStr(r.value))) && r.next == pos + |Show(TStr(r.value))|
                          && (d != Rust || IsDigit(data[pos]) ==> Accepts(d, TStr(r.value)))
  {
    ParsedText(d, data, pos);
    var r := ParseText(d, data, pos);
    if r.Parsed? {
      AtFirst(data, pos, ShowText(r.value));
      TextFirstByte(d, r.value);
    }
  }

  lemma Enclosed(data: Bytes, pos: nat, start: byte, body: Bytes)
    requires pos < |data| && data[pos] == start && At(data, pos + 1, body + [LOWER_E])
    ensures At(data, pos, [start] + body + [LOWER_E])
  {
    AtByte(data, pos, start);
    AtParts(data, pos, [start], body + [LOWER_E]);
    assert [start] + (body + [LOWER_E]) == [start] + body + [LOWER_E];
  }

  lemma {:induction false} ParsedItems(d: Dialect, data: Bytes, pos: nat)
    ensures var r := ParseItems(d, data, pos);
            r.Parsed? ==> && AcceptsItems(d, r.value)
                          && At(data, pos, ShowItems(r.value) + [LOWER_E]) && r.next == pos + |ShowItems(r.value)| + 1
    decreases |data| - pos, 2
  {
    hide At, ParseValue, ParseItems, Accepts, AcceptsItems, Show, ShowItems;
    if pos >= |data| || data[pos] == LOWER_E {
      NoItems(d, data, pos);
    } else if ParseItems(d, data, pos).Parsed? {
      var t, next, rest := FirstOfItems(d, data, pos);
      ParsedValue(d, data, pos);
      ParsedItems(d, data, next);
      AcceptsItemsCons(d, t, rest);
      ItemsParts(data, pos, t, rest);
    }
  }

  lemma NoItems(d: Dialect, data: Bytes, pos: nat)
    requires pos >= |data| || data[pos] == LOWER_E
    ensures ParseItems(d, data, pos) == if pos >= |data| then Failed(EndOfStream) else Parsed([], pos + 1)
    ensures pos < |data| ==> At(data, pos, ShowItems([]) + [LOWER_E])
    ensures AcceptsItems(d, []) && ShowItems([]) == []
  {
    if pos < |data| { EmptyBody(data, pos); }
  }

  lemma EmptyBody(data: Bytes, pos: nat)
    requires pos < |data| && data[pos] == LOWER_E
    ensures At(data, pos, ShowItems([]) + [LOWER_E]) && At(data, pos, ShowEntries([]) + [LOWER_E])
  {
    assert ShowItems([]) + [LOWER_E] == ShowEntries([]) + [LOWER_E] == [LOWER_E];
  }

  lemma FirstOfItems(d: Dialect, data: Bytes, pos: nat) returns (t: Tree, next: nat, rest: seq<Tree>)
    requires pos < |data| && data[pos] != LOWER_E && ParseItems(d, data, pos).Parsed?
    ensures ParseValue(d, data, pos) == Parsed(t, next) && pos < next <= |data|
    ensures ParseItems(d, data, next) == Parsed(rest, ParseItems(d, data, pos).next)
    ensures ParseItems(d, data, pos).value == [t] + rest
  {
    var v := ParseValue(d, data, pos);
    t, next, rest := v.value, v.next, ParseItems(d, data, v.next).value;
  }

  lemma FirstOfEntries(d: Dialect, data: Bytes, pos: nat) returns (e: Entry, afterKey: nat, afterValue: nat, rest: seq<Entry>)
    requires pos < |data| && data[pos] != LOWER_E && ParseEntries(d, data, pos).Parsed?
    ensures ParseText(d, data, pos) == Parsed(e.key, afterKey) && pos < afterKey <= |data|
    ensures ParseValue(d, data, afterKey) == Parsed(e.value, afterValue) && afterKey < afterValue <= |data|
    ensures ParseEntries(d, data, afterValue) == Parsed(rest, ParseEntries(d, data, pos).next)
    ensures ParseEntries(d, data, pos).value == [e] + rest
  {
    var k := ParseText(d, data, pos);
    var v := ParseValue(d, data, k.next);
    e, afterKey, afterValue, rest := Entry(k.value, v.value), k.next, v.next, ParseEntries(d, data, v.next).value;
  }

  lemma ParsedCons(d: Dialect, data: Bytes, pos: nat, e: Entry, rest: seq<Entry>)
    requires AcceptsText(d, e.key) && Accepts(d, e.value)
    requires AcceptsEntries(d, rest)
    requires At(data, pos, ShowText(e.key)) && At(data, pos + |ShowText(e.key)|, Show(e.value))
    requires At(data, pos + |ShowText(e.key)| + |Show(e.value)|, ShowEntries(rest) + [LOWER_E])
    ensures var all := [e] + rest;
            && AcceptsEntries(d, all)
            && At(data, pos, ShowEntries(all) + [LOWER_E])
            && |ShowEntries(all)| == |ShowText(e.key)| + |Show(e.value)| + |ShowEntries(rest)|
  {
    hide At, Accepts, AcceptsText, AcceptsEntries, ShowText, Show, ShowEntries;
    AcceptsEntriesCons(d, e, rest);
    EntriesParts(data, pos, e, rest);
  }

  lemma {:induction false} ParsedEntries(d: Dialect, data: Bytes, pos: nat)
    ensures var r := ParseEntries(d, data, pos);
            r.Parsed? ==> && AcceptsEntries(d, r.value)
                          && At(data, pos, ShowEntries(r.value) + [LOWER_E]) && r.next == pos + |ShowEntries(r.value)| + 1
    decreases |data| - pos, 2
  {
    hide At, ParseText, ParseValue, ParseEntries, Accepts, AcceptsText, AcceptsEntries, ShowText, Show, ShowEntries;
    if pos >= |data| || data[pos] == LOWER_E {
      NoEntries(d, data, pos);
    } else if ParseEntries(d, data, pos).Parsed? {
      var e, afterKey, afterValue, rest := FirstOfEntries(d, data, pos);
      ParsedText(d, data, pos);
      ParsedValue(d, data, afterKey);
      ParsedEntries(d, data, afterValue);
      ParsedCons(d, data, pos, e, rest);
    }
  }

  lemma NoEntries(d: Dialect, data: Bytes, pos: nat)
    requires pos >= |data| || data[pos] == LOWER_E
    ensures ParseEntries(d, data, pos) == if pos >= |data| then Failed(EndOfStream) else Parsed([], pos + 1)
    ensures pos < |data| ==> At(data, pos, ShowEntries([]) + [LOWER_E])
    ensures AcceptsEntries(d, []) && ShowEntries([]) == []
  {
    if pos < |data| { EmptyBody(data, pos); }
  }

  // ------------------------------------------------------------------ integers

  /** The bytes from a position to the next: an `i`, perhaps a sign, a maximal run of digits, an `e`. The
      value is that of the digits, negated if and only if the sign is a minus sign. */
  ghost predicate IntegerAt(data: Bytes, pos: nat, next: nat, value: int) {
    && pos + 2 < next <= |data| && data[pos] == 'i' as byte && data[next - 1] == 'e' as byte
    && var start := if data[pos + 1] == '-' as byte || data[pos + 1] == '+' as byte then pos + 2 else pos + 1;
    && start < next - 1 && AllDigits(data[start..next - 1])
    && value == if data[pos + 1] == '-' as byte then -(DigitsValue(data[start..next - 1]) as int) else DigitsValue(data[start..next - 1])
  }

  lemma ParsedInteger(d: Dialect, data: Bytes, pos: nat)
    ensures var r := ParseInt(d, data, pos);
            r.Parsed? ==> r.value.TInt? && Accepts(Lax, r.value)
                          && Denote(r.value).Int? && IntegerAt(data, pos, r.next, Denote(r.value).i)
  {
    hide DigitsValue, RunEnd;
    ParsedInt(d, data, pos);
  }

  // ------------------------------------------------------------------ loops over items and entries

  /** What a whole parse gives, when `done` has been parsed and `rest` is the parse of the rest. */
  function Continued<T>(done: seq<T>, rest: Parse<seq<T>>): Parse<seq<T>> {
    if rest.Parsed? then Parsed(done + rest.value, rest.next) else rest
  }

  /** A parsed text is one of the grammar. */
  lemma ParsedTextLax(d: Dialect, data: Bytes, pos: nat)
    ensures ParseText(d, data, pos).Parsed? ==> AcceptsText(Lax, ParseText(d, data, pos).value)
  {
    ParsedText(d, data, pos);
  }

  lemma NothingDone<T>(rest: Parse<seq<T>>)
    ensures Continued([], rest) == rest
  {
    if rest.Parsed? { assert [] + rest.value == rest.value; }
  }

  lemma ContinueItems(d: Dialect, data: Bytes, pos: nat, done: seq<Tree>)
    requires pos < |data| && data[pos] != LOWER_E
    ensures var v := ParseValue(d, data, pos);
            Continued(done, ParseItems(d, data, pos))
              == if v.Failed? then Failed(v.error) else Continued(done + [v.value], ParseItems(d, data, v.next))
  {
    var v := ParseValue(d, data, pos);
    if v.Parsed? && ParseItems(d, data, v.next).Parsed? {
      assert done + ([v.value] + ParseItems(d, data, v.next).value) == done + [v.value] + ParseItems(d, data, v.next).value;
    }
  }

  lemma ContinueEntries(d: Dialect, data: Bytes, pos: nat, done: seq<Entry>)
    requires pos < |data| && data[pos] != LOWER_E
    ensures var k := ParseText(d, data, pos);
            Continued(done, ParseEntries(d, data, pos))
              == if k.Failed? then Failed(k.error)
                 else
                   var v := ParseValue(d, data, k.next);
                   if v.Failed? then Failed(v.error)
                   else Continued(done + [Entry(k.value, v.value)], ParseEntries(d, data, v.next))
  {
    var k := ParseText(d, data, pos);
    if k.Parsed? {
      var v := ParseValue(d, data, k.next);
      if v.Parsed? && ParseEntries(d, data, v.next).Parsed? {
        var e, rest := Entry(k.value, v.value), ParseEntries(d, data, v.next).value;
        assert done + ([e] + rest) == done + [e] + rest;
      }
    }
  }
}
