/** The concrete syntax of bencoding as trees: how a tree is written, what it denotes, which trees
    the Rust and the Go decoder accept, and which tree an encoder writes for a value. */
module BencodeGrammar {
  import opened Bencode

  datatype Sign = NoSign | Plus | Minus

  /** A sign and a run of digits, as they are written. */
  datatype Number = Number(sign: Sign, digits: Bytes)

  /** A byte string with its written length. */
  datatype Text = Text(length: Number, payload: Bytes)

  datatype Entry = Entry(key: Text, value: Tree)

  datatype Tree =
    | TInt(n: Number)
    | TStr(text: Text)
    | TList(items: seq<Tree>)
    | TDict(entries: seq<Entry>)

  // ------------------------------------------------------------------ how trees are written

  function ShowSign(s: Sign): Bytes {
    match s
    case NoSign => []
    case Plus => [PLUS]
    case Minus => [MINUS]
  }

  function ShowNumber(n: Number): Bytes {
    ShowSign(n.sign) + n.digits
  }

  function ShowText(t: Text): Bytes {
    ShowNumber(t.length) + [COLON] + t.payload
  }

  function Show(t: Tree): Bytes
    decreases t
  {
    match t
    case TInt(n) => [LOWER_I] + ShowNumber(n) + [LOWER_E]
    case TStr(text) => ShowText(text)
    case TList(items) => [LOWER_L] + ShowItems(items) + [LOWER_E]
    case TDict(entries) => [LOWER_D] + ShowEntries(entries) + [LOWER_E]
  }

  function ShowItems(items: seq<Tree>): Bytes
    decreases items
  {
    if items == [] then [] else Show(items[0]) + ShowItems(items[1..])
  }

  function ShowEntries(entries: seq<Entry>): Bytes
    decreases entries
  {
    if entries == [] then [] else ShowEntry(entries[0]) + ShowEntries(entries[1..])
  }

  function ShowEntry(e: Entry): Bytes
    decreases e
  {
    ShowText(e.key) + Show(e.value)
  }

  lemma {:induction false} ShowItemsLast(items: seq<Tree>, t: Tree)
    ensures ShowItems(items + [t]) == ShowItems(items) + Show(t)
  {
    if items == [] {
      assert [] + [t] == [t];
    } else {
      hide Show;
      var all, first, rest := items + [t], Show(items[0]), ShowItems(items[1..]);
      ShowItemsLast(items[1..], t);
      assert all[0] == items[0] && all[1..] == items[1..] + [t];
      assert first + (rest + Show(t)) == first + rest + Show(t);
    }
  }

  lemma {:induction false} ShowEntriesLast(es: seq<Entry>, e: Entry)
    ensures ShowEntries(es + [e]) == ShowEntries(es) + ShowEntry(e)
  {
    if es == [] {
      assert [] + [e] == [e];
    } else {
      hide ShowEntry;
      var all, first, rest := es + [e], ShowEntry(es[0]), ShowEntries(es[1..]);
      ShowEntriesLast(es[1..], e);
      assert all[0] == es[0] && all[1..] == es[1..] + [e];
      assert first + (rest + ShowEntry(e)) == first + rest + ShowEntry(e);
    }
  }

  // ------------------------------------------------------------------ what trees denote

  ghost predicate Written(n: Number) {
    n.digits != [] && AllDigits(n.digits)
  }

  function NumberValue(n: Number): int
    requires AllDigits(n.digits)
  {
    var magnitude: int := DigitsValue(n.digits);
    if n.sign == Minus then -magnitude else magnitude
  }

  /** The dialects: what the Rust decoder accepts, what the Go decoder accepts, and the grammar
      without bounds on numbers. */
  datatype Dialect = Rust | Go | Lax

  predicate InRange(d: Dialect, n: Number)
    requires AllDigits(n.digits)
  {
    match d
    case Rust => I64_MIN <= NumberValue(n) <= I64_MAX
    case Go => DigitsValue(n.digits) <= I64_MAX
    case Lax => true
  }

  ghost predicate AcceptsNumber(d: Dialect, n: Number) {
    Written(n) && InRange(d, n)
  }

  ghost predicate AcceptsText(d: Dialect, t: Text) {
    AcceptsNumber(d, t.length) && NumberValue(t.length) == |t.payload|
  }

  /** The Rust decoder takes a sign only in integers and in the lengths of dictionary keys. */
  ghost predicate Accepts(d: Dialect, t: Tree)
    decreases t
  {
    match t
    case TInt(n) => AcceptsNumber(d, n)
    case TStr(text) => AcceptsText(d, text) && (d == Rust ==> text.length.sign == NoSign)
    case TList(items) => AcceptsItems(d, items)
    case TDict(entries) => AcceptsEntries(d, entries)
  }

  ghost predicate AcceptsItems(d: Dialect, items: seq<Tree>)
    decreases items
  {
    forall i :: 0 <= i < |items| ==> Accepts(d, items[i])
  }

  ghost predicate AcceptsEntries(d: Dialect, entries: seq<Entry>)
    decreases entries
  {
    forall i :: 0 <= i < |entries| ==> AcceptsText(d, entries[i].key) && AcceptsValue(d, entries[i])
  }

  ghost predicate AcceptsValue(d: Dialect, e: Entry)
    decreases e
  {
    Accepts(d, e.value)
  }

  lemma AcceptsItemsCons(d: Dialect, t: Tree, rest: seq<Tree>)
    ensures AcceptsItems(d, [t] + rest) <==> Accepts(d, t) && AcceptsItems(d, rest)
  {
    hide Accepts;
    var all := [t] + rest;
    if AcceptsItems(d, all) {
      assert Accepts(d, all[0]);
      forall i | 0 <= i < |rest| ensures Accepts(d, rest[i]) { assert rest[i] == all[i + 1]; }
    }
  }

  lemma AcceptsEntriesCons(d: Dialect, e: Entry, rest: seq<Entry>)
    ensures AcceptsEntries(d, [e] + rest) <==> AcceptsText(d, e.key) && Accepts(d, e.value) && AcceptsEntries(d, rest)
  {
    assert AcceptsValue(d, e) == Accepts(d, e.value);
    hide Accepts, AcceptsText, AcceptsValue;
    var all := [e] + rest;
    if AcceptsEntries(d, all) {
      assert AcceptsText(d, all[0].key) && AcceptsValue(d, all[0]);
      forall i | 0 <= i < |rest| ensures AcceptsText(d, rest[i].key) && AcceptsValue(d, rest[i]) { assert rest[i] == all[i + 1]; }
    }
  }

  /** The value of a tree; of two entries with the same key the later one wins. */
  function Denote(t: Tree): Value
    requires Accepts(Lax, t)
    decreases t
  {
    match t
    case TInt(n) => Int(NumberValue(n))
    case TStr(text) => Str(text.payload)
    case TList(items) => List(DenoteItems(items))
    case TDict(entries) => Dict(DenoteEntries(entries))
  }

  /** Every written integer denotes the value of its digits, negated if and only if its sign is a minus sign. */
  lemma IntegerDenotes(n: Number)
    requires Written(n)
    ensures Accepts(Lax, TInt(n))
    ensures Denote(TInt(n)) == Int(if n.sign == Minus then -(DigitsValue(n.digits) as int) else DigitsValue(n.digits))
  {
  }

  function DenoteItems(items: seq<Tree>): (vs: seq<Value>)
    requires AcceptsItems(Lax, items)
    ensures |vs| == |items|
    decreases items
  {
    if items == [] then [] else DenoteItems(items[..|items| - 1]) + [Denote(items[|items| - 1])]
  }

  function DenoteEntries(entries: seq<Entry>): map<Bytes, Value>
    requires AcceptsEntries(Lax, entries)
    decreases entries
  {
    if entries == [] then map[]
    else
      var last := entries[|entries| - 1];
      DenoteEntries(entries[..|entries| - 1])[last.key.payload := DenoteValue(last)]
  }

  function DenoteValue(e: Entry): Value
    requires AcceptsValue(Lax, e)
    decreases e
  {
    Denote(e.value)
  }

  /** What the compound trees denote. */
  lemma DenoteCompound(text: Text, items: seq<Tree>, entries: seq<Entry>)
    ensures AcceptsText(Lax, text) ==> Accepts(Lax, TStr(text)) && Denote(TStr(text)) == Str(text.payload)
    ensures AcceptsItems(Lax, items) ==> Accepts(Lax, TList(items)) && Denote(TList(items)) == List(DenoteItems(items))
    ensures AcceptsEntries(Lax, entries) ==> Accepts(Lax, TDict(entries)) && Denote(TDict(entries)) == Dict(DenoteEntries(entries))
  {
  }

  /** One more item of a list, or entry of a dictionary, read by a decoder's loop. */
  lemma DenoteItemsLast(items: seq<Tree>, t: Tree)
    requires AcceptsItems(Lax, items) && Accepts(Lax, t)
    ensures AcceptsItems(Lax, items + [t])
    ensures DenoteItems(items + [t]) == DenoteItems(items) + [Denote(t)]
  {
    assert (items + [t])[..|items|] == items;
  }

  lemma DenoteEntriesLast(es: seq<Entry>, e: Entry)
    requires AcceptsEntries(Lax, es) && AcceptsText(Lax, e.key) && Accepts(Lax, e.value)
    ensures AcceptsEntries(Lax, es + [e])
    ensures DenoteEntries(es + [e]) == DenoteEntries(es)[e.key.payload := Denote(e.value)]
  {
    assert AcceptsValue(Lax, e);
    assert (es + [e])[..|es|] == es;
  }

  // ------------------------------------------------------------------ what encoders write

  function CanonNumber(i: int): (n: Number)
    ensures AllDigits(n.digits) && n.digits != [] && NumberValue(n) == i
  {
    Number(if i < 0 then Minus else NoSign, Decimal(if i < 0 then -i else i))
  }

  /** Numbers are written as both standard libraries write them: a minus sign if need be, and the shortest digits. */
  function FormatInt(i: int): Bytes {
    ShowNumber(CanonNumber(i))
  }

  function CanonText(s: Bytes): Text {
    Text(CanonNumber(|s|), s)
  }

  /** The tree of a value: shortest numbers, dictionary entries by ascending keys. */
  function Canon(v: Value): Tree
    decreases v, 1, 0
  {
    match v
    case Str(s) => TStr(CanonText(s))
    case Int(i) => TInt(CanonNumber(i))
    case List(items) => TList(CanonItems(items))
    case Dict(entries) => TDict(CanonEntries(v, SortedKeys(entries.Keys)))
  }

  function CanonItems(items: seq<Value>): (ts: seq<Tree>)
    ensures |ts| == |items|
    decreases items, 0, 0
  {
    if items == [] then [] else CanonItems(items[..|items| - 1]) + [Canon(items[|items| - 1])]
  }

  function CanonEntries(v: Value, ks: seq<Bytes>): (es: seq<Entry>)
    requires v.Dict? && forall k :: k in ks ==> k in v.entries
    ensures |es| == |ks|
    decreases v, 0, |ks|
  {
    if ks == [] then []
    else
      var k := ks[|ks| - 1];
      assert k in ks;
      CanonEntries(v, ks[..|ks| - 1]) + [Entry(CanonText(k), Canon(v.entries[k]))]
  }

  /** What the encoders of both programs write. */
  function Encoding(v: Value): Bytes {
    Show(Canon(v))
  }

  lemma CanonItemsLast(vs: seq<Value>, v: Value)
    ensures CanonItems(vs + [v]) == CanonItems(vs) + [Canon(v)]
  {
    assert (vs + [v])[..|vs|] == vs;
  }

  lemma CanonEntriesLast(v: Value, ks: seq<Bytes>, k: Bytes)
    requires v.Dict? && k in v.entries && forall o :: o in ks ==> o in v.entries
    ensures forall o :: o in ks + [k] ==> o in v.entries
    ensures CanonEntries(v, ks + [k]) == CanonEntries(v, ks) + [Entry(CanonText(k), Canon(v.entries[k]))]
  {
    assert (ks + [k])[..|ks|] == ks;
  }

  /** One more item of a list, or entry of a dictionary, written by an encoder's loop. */
  lemma EncodedItem(items: seq<Value>, n: nat)
    requires n < |items|
    ensures ShowItems(CanonItems(items[..n + 1])) == ShowItems(CanonItems(items[..n])) + Encoding(items[n])
  {
    assert items[..n + 1] == items[..n] + [items[n]];
    CanonItemsLast(items[..n], items[n]);
    hide CanonItems, ShowItems;
    ShowItemsLast(CanonItems(items[..n]), Canon(items[n]));
  }

  lemma EncodedEntry(v: Value, ks: seq<Bytes>, n: nat)
    requires v.Dict? && n < |ks| && forall k :: k in ks ==> k in v.entries
    ensures ks[n] in v.entries && (forall k :: k in ks[..n] || k in ks[..n + 1] ==> k in v.entries)
    ensures ShowEntries(CanonEntries(v, ks[..n + 1]))
         == ShowEntries(CanonEntries(v, ks[..n])) + (ShowText(CanonText(ks[n])) + Encoding(v.entries[ks[n]]))
  {
    assert ks[n] in ks;
    assert ks[..n + 1] == ks[..n] + [ks[n]];
    CanonEntriesLast(v, ks[..n], ks[n]);
    hide CanonEntries, ShowEntries;
    ShowEntriesLast(CanonEntries(v, ks[..n]), Entry(CanonText(ks[n]), Canon(v.entries[ks[n]])));
  }

  lemma EmptyEncodings(v: Value, ks: seq<Bytes>)
    ensures ShowItems(CanonItems([])) == []
    ensures v.Dict? ==> ks[..0] == [] && ShowEntries(CanonEntries(v, [])) == []
  {
  }

  lemma EncodingOfCompound(items: seq<Value>, entries: map<Bytes, Value>)
    ensures Encoding(List(items)) == [LOWER_L] + ShowItems(CanonItems(items)) + [LOWER_E]
    ensures Encoding(Dict(entries)) == [LOWER_D] + ShowEntries(CanonEntries(Dict(entries), SortedKeys(entries.Keys))) + [LOWER_E]
  {
  }
}
