/** Normalisation: encoding what a decoder read gives the one canonical way of writing it, never a longer one. */
module BencodeNormal {
  import opened Bencode
  import opened BencodeGrammar
  import opened BencodeParser
  import opened BencodeTheorems

  /** No plus sign, no negative zero, no leading zeros. */
  ghost predicate CanonicalNumber(n: Number)
    requires Written(n)
  {
    n.sign != Plus && (|n.digits| == 1 || n.digits[0] != ZERO) && (n.sign == Minus ==> DigitsValue(n.digits) != 0)
  }

  ghost predicate CanonicalText(t: Text) {
    Written(t.length) && CanonicalNumber(t.length)
  }

  function Keys(es: seq<Entry>): seq<Bytes> {
    seq(|es|, i requires 0 <= i < |es| => es[i].key.payload)
  }

  /** Every number is canonical and the keys of every dictionary are strictly ascending. */
  ghost predicate Canonical(t: Tree)
    decreases t
  {
    match t
    case TInt(n) => Written(n) && CanonicalNumber(n)
    case TStr(text) => CanonicalText(text)
    case TList(items) => forall i :: 0 <= i < |items| ==> Canonical(items[i])
    case TDict(entries) => StrictlyAscending(Keys(entries)) && CanonicalEntries(entries)
  }

  ghost predicate CanonicalEntries(es: seq<Entry>)
    decreases es
  {
    forall i :: 0 <= i < |es| ==> CanonicalText(es[i].key) && CanonicalValue(es[i])
  }

  ghost predicate CanonicalValue(e: Entry)
    decreases e
  {
    Canonical(e.value)
  }

  // ------------------------------------------------------------------ numbers and strings

  lemma NumberNormal(n: Number)
    requires Written(n)
    ensures |ShowNumber(CanonNumber(NumberValue(n)))| <= |ShowNumber(n)|
    ensures CanonicalNumber(n) <==> CanonNumber(NumberValue(n)) == n
  {
    DecimalIsShortest(n.digits);
  }

  lemma TextNormal(t: Text)
    requires AcceptsText(Lax, t)
    ensures |ShowText(CanonText(t.payload))| <= |ShowText(t)|
    ensures CanonicalText(t) <==> CanonText(t.payload) == t
  {
    NumberNormal(t.length);
  }

  lemma CanonTextCanonical(s: Bytes)
    ensures CanonicalText(CanonText(s))
  {
    CanonTextAccepted(Lax, s);
    TextNormal(CanonText(s));
  }

  // ------------------------------------------------------------------ encoders write canonical trees

  lemma {:induction false} CanonIsCanonical(v: Value)
    ensures Canonical(Canon(v))
    decreases v, 1
  {
    match v
    case Str(s) => CanonTextCanonical(s);
    case Int(i) => NumberNormal(CanonNumber(i));
    case List(items) =>
      forall i | 0 <= i < |items| ensures Canonical(CanonItems(items)[i]) {
        CanonItemsAt(items, i);
        CanonIsCanonical(items[i]);
      }
    case Dict(entries) => CanonDictCanonical(v);
  }

  lemma {:induction false} CanonDictCanonical(v: Value)
    requires v.Dict?
    ensures Canonical(Canon(v))
    decreases v, 0, 1
  {
    hide SortedKeys, CanonEntries, CanonicalText, CanonicalValue, StrictlyAscending;
    var ks := SortedKeys(v.entries.Keys);
    var es := CanonEntries(v, ks);
    SortedKeysAscend(v.entries.Keys);
    forall i | 0 <= i < |es| ensures Keys(es)[i] == ks[i] && CanonicalText(es[i].key) && CanonicalValue(es[i]) {
      CanonEntryCanonical(v, ks, i);
    }
    assert Keys(es) == ks;
  }

  lemma {:induction false} CanonEntryCanonical(v: Value, ks: seq<Bytes>, i: nat)
    requires v.Dict? && (forall k :: k in ks ==> k in v.entries) && i < |ks|
    ensures var e := CanonEntries(v, ks)[i]; e.key.payload == ks[i] && CanonicalText(e.key) && CanonicalValue(e)
    decreases v, 0, 0
  {
    CanonEntriesAt(v, ks, i);
    CanonTextCanonical(ks[i]);
    CanonIsCanonical(v.entries[ks[i]]);
  }

  // ------------------------------------------------------------------ canonical trees are what encoders write

  /** Without repeated keys, a dictionary maps each key to its own value. */
  lemma {:induction false} DenoteEntriesAt(es: seq<Entry>)
    requires AcceptsEntries(Lax, es) && StrictlyAscending(Keys(es))
    ensures forall k :: k in DenoteEntries(es) <==> k in Keys(es)
    ensures forall i :: 0 <= i < |es| ==> DenoteEntries(es)[Keys(es)[i]] == DenoteValue(es[i])
    decreases es
  {
    if es != [] {
      var less, last := es[..|es| - 1], es[|es| - 1];
      assert Keys(es) == Keys(less) + [last.key.payload];
      forall i, j | 0 <= i < j < |less| ensures AtMost(Keys(less)[i], Keys(less)[j]) && Keys(less)[i] != Keys(less)[j] {
        assert Keys(less)[i] == Keys(es)[i] && Keys(less)[j] == Keys(es)[j];
      }
      DenoteEntriesAt(less);
      forall i | 0 <= i < |es| ensures DenoteEntries(es)[Keys(es)[i]] == DenoteValue(es[i]) {
        if i < |less| { assert Keys(less)[i] == Keys(es)[i] != Keys(es)[|less|]; }
      }
    }
  }

  lemma {:induction false} CanonicalIsCanon(t: Tree)
    requires Accepts(Lax, t) && Canonical(t)
    ensures Canon(Denote(t)) == t
    decreases t
  {
    match t
    case TInt(n) => NumberNormal(n);
    case TStr(text) => TextNormal(text);
    case TList(items) =>
      var vs := DenoteItems(items);
      forall i | 0 <= i < |items| ensures CanonItems(vs)[i] == items[i] {
        DenoteItemsAt(items, i);
        CanonItemsAt(vs, i);
        CanonicalIsCanon(items[i]);
      }
      assert CanonItems(vs) == items;
    case TDict(entries) => CanonicalDictIsCanon(entries);
  }

  lemma {:induction false} CanonicalDictIsCanon(es: seq<Entry>)
    requires AcceptsEntries(Lax, es) && StrictlyAscending(Keys(es)) && CanonicalEntries(es)
    ensures Canon(Dict(DenoteEntries(es))) == TDict(es)
    decreases es
  {
    hide StrictlyAscending, SortedKeys, DenoteEntries, CanonEntries, CanonicalText, CanonicalValue, AcceptsText, AcceptsValue, DenoteValue;
    var v := Dict(DenoteEntries(es));
    DenoteEntriesAt(es);
    AscendingIsSorted(Keys(es), v.entries.Keys);
    forall i | 0 <= i < |es| ensures CanonEntries(v, Keys(es))[i] == es[i] {
      assert Keys(es)[i] == es[i].key.payload;
      CanonEntriesAt(v, Keys(es), i);
      TextNormal(es[i].key);
      CanonicalValueIsCanon(es[i]);
    }
    assert CanonEntries(v, Keys(es)) == es;
  }

  lemma {:induction false} CanonicalValueIsCanon(e: Entry)
    requires AcceptsValue(Lax, e) && CanonicalValue(e)
    ensures Canon(DenoteValue(e)) == e.value
    decreases e
  {
    CanonicalIsCanon(e.value);
  }

  // ------------------------------------------------------------------ encodings are never longer

  function EntryCost(k: Bytes, v: Value): nat {
    |ShowText(CanonText(k))| + |Encoding(v)|
  }

  ghost predicate Covers(m: map<Bytes, Value>, ks: seq<Bytes>) {
    forall i :: 0 <= i < |ks| ==> ks[i] in m
  }

  lemma CoversContents(m: map<Bytes, Value>, ks: seq<Bytes>)
    ensures Covers(m, ks) <==> forall k :: k in ks ==> k in m
  {
  }

  /** The length of the encoded entries of some keys of a map. */
  function Cost(m: map<Bytes, Value>, ks: seq<Bytes>): nat
    requires Covers(m, ks)
  {
    if ks == [] then 0 else Cost(m, ks[..|ks| - 1]) + EntryCost(ks[|ks| - 1], m[ks[|ks| - 1]])
  }

  lemma {:induction false} CostIsLength(v: Value, ks: seq<Bytes>)
    requires v.Dict? && (forall k :: k in ks ==> k in v.entries)
    ensures |ShowEntries(CanonEntries(v, ks))| == Cost(v.entries, ks)
  {
    if ks != [] {
      CostIsLength(v, ks[..|ks| - 1]);
      var k := ks[|ks| - 1];
      assert k in ks;
      ShowEntriesLast(CanonEntries(v, ks[..|ks| - 1]), Entry(CanonText(k), Canon(v.entries[k])));
    }
  }

  lemma {:induction false} CostConcat(m: map<Bytes, Value>, a: seq<Bytes>, b: seq<Bytes>)
    requires Covers(m, a) && Covers(m, b)
    ensures Covers(m, a + b) && Cost(m, a + b) == Cost(m, a) + Cost(m, b)
  {
    if b == [] {
      assert a + b == a;
    } else {
      CostConcat(m, a, b[..|b| - 1]);
      assert (a + b)[..|a + b| - 1] == a + b[..|b| - 1];
    }
  }

  lemma {:induction false} CostElsewhere(m: map<Bytes, Value>, k: Bytes, v: Value, ks: seq<Bytes>)
    requires Covers(m, ks) && k !in ks
    ensures Covers(m[k := v], ks) && Cost(m[k := v], ks) == Cost(m, ks)
  {
    if ks != [] { CostElsewhere(m, k, v, ks[..|ks| - 1]); }
  }

  lemma CostOfOne(m: map<Bytes, Value>, a: seq<Bytes>, k: Bytes, b: seq<Bytes>)
    requires Covers(m, a) && Covers(m, b) && k in m
    ensures Covers(m, a + b) && Covers(m, a + [k] + b)
    ensures Cost(m, a + [k] + b) == Cost(m, a + b) + EntryCost(k, m[k])
  {
    assert Cost(m, [k]) == EntryCost(k, m[k]);
    hide Cost, EntryCost;
    CostConcat(m, a + [k], b) by { CostConcat(m, a, [k]); }
    CostConcat(m, a, [k]);
    CostConcat(m, a, b);
  }

  lemma Removed(ks: seq<Bytes>, j: nat) returns (a: seq<Bytes>, b: seq<Bytes>)
    requires Distinct(ks) && j < |ks|
    ensures ks == a + [ks[j]] + b && Distinct(a + b) && ks[j] !in a + b
    ensures forall k :: k in a || k in b ==> k in ks
  {
    a, b := ks[..j], ks[j + 1..];
    forall i | 0 <= i < |a + b| ensures (a + b)[i] == ks[if i < j then i else i + 1] {}
  }

  /** Adding or overwriting an entry costs at most that entry. */
  lemma CostOfUpdate(m: map<Bytes, Value>, k: Bytes, v: Value, ks: seq<Bytes>) returns (others: seq<Bytes>)
    requires Covers(m[k := v], ks) && Distinct(ks)
    ensures Covers(m, others) && Distinct(others)
    ensures Cost(m[k := v], ks) <= Cost(m, others) + EntryCost(k, v)
  {
    hide Cost, EntryCost, Distinct;
    if k in ks {
      var j :| 0 <= j < |ks| && ks[j] == k;
      var a, b := Removed(ks, j);
      assert forall o :: o in a + b <==> o in a || o in b;
      others := a + b;
      CoversContents(m[k := v], ks);
      CoversContents(m[k := v], a);
      CoversContents(m[k := v], b);
      hide Covers;
      CostOfOne(m[k := v], a, k, b);
    } else {
      others := ks;
    }
    assert Covers(m, others);
    CostElsewhere(m, k, v, others);
  }

  ghost predicate Distinct(ks: seq<Bytes>) {
    forall i, j :: 0 <= i < j < |ks| ==> ks[i] != ks[j]
  }

  /** Encoding what a tree denotes never takes more bytes than the tree itself. */
  lemma {:induction false} NeverLonger(t: Tree)
    requires Accepts(Lax, t)
    ensures |Encoding(Denote(t))| <= |Show(t)|
    decreases t
  {
    match t
    case TInt(n) => NumberNormal(n);
    case TStr(text) => TextNormal(text);
    case TList(items) => ItemsNeverLonger(items);
    case TDict(entries) => DictNeverLonger(entries);
  }

  lemma {:induction false} DictNeverLonger(es: seq<Entry>)
    requires AcceptsEntries(Lax, es)
    ensures |Encoding(Dict(DenoteEntries(es)))| <= |Show(TDict(es))|
    decreases es, 1
  {
    hide SortedKeys, Distinct, Covers, Cost, DenoteEntries, AcceptsEntries, Encoding, ShowEntries;
    var m := DenoteEntries(es);
    EncodingOfDict(m);
    EntriesNeverLonger(es, SortedKeys(m.Keys));
  }

  lemma EncodingOfDict(m: map<Bytes, Value>)
    ensures Covers(m, SortedKeys(m.Keys)) && Distinct(SortedKeys(m.Keys))
    ensures |Encoding(Dict(m))| == Cost(m, SortedKeys(m.Keys)) + 2
  {
    hide AtMost, CanonEntries;
    var ks := SortedKeys(m.Keys);
    CoversContents(m, ks);
    SortedKeysAscend(m.Keys);
    CostIsLength(Dict(m), ks);
    hide Cost, SortedKeys, ShowEntries;
    assert Canon(Dict(m)) == TDict(CanonEntries(Dict(m), ks));
  }

  lemma {:induction false} ItemsNeverLonger(items: seq<Tree>)
    requires AcceptsItems(Lax, items)
    ensures |ShowItems(CanonItems(DenoteItems(items)))| <= |ShowItems(items)|
    decreases items
  {
    if items != [] {
      var less, last := items[..|items| - 1], items[|items| - 1];
      ItemsNeverLonger(less);
      NeverLonger(last);
      assert items == less + [last];
      ShowItemsLast(less, last);
      CanonItemsLast(DenoteItems(less), Denote(last));
      ShowItemsLast(CanonItems(DenoteItems(less)), Canon(Denote(last)));
    }
  }

  lemma {:induction false} EntriesNeverLonger(es: seq<Entry>, ks: seq<Bytes>)
    requires AcceptsEntries(Lax, es) && Covers(DenoteEntries(es), ks) && Distinct(ks)
    ensures Cost(DenoteEntries(es), ks) <= |ShowEntries(es)|
    decreases es, 0
  {
    if es == [] {
      assert DenoteEntries(es) == map[];
    } else {
      var less, last := es[..|es| - 1], es[|es| - 1];
      assert es == less + [last];
      var others := CostOfUpdate(DenoteEntries(less), last.key.payload, DenoteValue(last), ks);
      EntriesNeverLonger(less, others);
      EntryNeverLonger(last);
      ShowEntriesLast(less, last);
    }
  }

  lemma {:induction false} EntryNeverLonger(e: Entry)
    requires AcceptsText(Lax, e.key) && AcceptsValue(Lax, e)
    ensures EntryCost(e.key.payload, DenoteValue(e)) <= |ShowEntry(e)|
    decreases e
  {
    TextNormal(e.key);
    NeverLonger(e.value);
  }

  // ------------------------------------------------------------------ what is read can be written and read again

  lemma {:induction false} DenotesRepresentable(d: Dialect, t: Tree)
    requires Accepts(d, t) && Accepts(Lax, t)
    ensures Representable(d, Denote(t))
    decreases t
  {
    match t
    case TInt(n) =>
    case TStr(text) => TextRepresentable(d, text);
    case TList(items) =>
      forall i | 0 <= i < |items| ensures Representable(d, DenoteItems(items)[i]) {
        DenoteItemsAt(items, i);
        DenotesRepresentable(d, items[i]);
      }
    case TDict(entries) => EntriesRepresentable(d, entries);
  }

  lemma TextRepresentable(d: Dialect, t: Text)
    requires AcceptsText(d, t)
    ensures RepresentableKey(d, t.payload)
  {
  }

  lemma {:induction false} EntriesRepresentable(d: Dialect, es: seq<Entry>)
    requires AcceptsEntries(d, es) && AcceptsEntries(Lax, es)
    ensures forall k :: k in DenoteEntries(es) ==> RepresentableKey(d, k) && Representable(d, DenoteEntries(es)[k])
    decreases es
  {
    if es != [] {
      var less, last := es[..|es| - 1], es[|es| - 1];
      EntriesRepresentable(d, less);
      TextRepresentable(d, last.key);
      EntryRepresentable(d, last);
    }
  }

  lemma {:induction false} EntryRepresentable(d: Dialect, e: Entry)
    requires AcceptsValue(d, e) && AcceptsValue(Lax, e)
    ensures Representable(d, DenoteValue(e))
    decreases e
  {
    DenotesRepresentable(d, e.value);
  }

  // ------------------------------------------------------------------ normalisation

  /** Encoding the value of an accepted tree gives a form that is parsed to the same value, whatever
      follows it, is never longer, and is the written form itself exactly if that was canonical. */
  lemma Normalisation(d: Dialect, data: Bytes, pos: nat, rest: Bytes)
    requires ParseValue(d, data, pos).Parsed?
    ensures Accepts(Lax, ParseValue(d, data, pos).value)
    ensures var v := Denote(ParseValue(d, data, pos).value);
            var again := ParseValue(d, Encoding(v) + rest, 0);
            again.Parsed? && again.next == |Encoding(v)| && Accepts(Lax, again.value) && Denote(again.value) == v
    ensures var r := ParseValue(d, data, pos);
            && |Encoding(Denote(r.value))| <= r.next - pos
            && (Encoding(Denote(r.value)) == data[pos..r.next] <==> Canonical(r.value))
  {
    hide ParseValue, Accepts, Denote, Canonical, Representable, Show, Encoding;
    var t := ParseValue(d, data, pos).value;
    ParsedValue(d, data, pos);
    AcceptsLax(d, t);
    NeverLonger(t);
    DenotesRepresentable(d, t);
    EncodingOfCanonical(t);
    RoundTrip(d, Denote(t), [], rest);
    assert [] + Encoding(Denote(t)) + rest == Encoding(Denote(t)) + rest;
  }

  /** The encoder reproduces exactly the canonical trees. */
  lemma EncodingOfCanonical(t: Tree)
    requires Accepts(Lax, t)
    ensures Encoding(Denote(t)) == Show(t) <==> Canonical(t)
  {
    hide Accepts, Denote, Canonical, Show, Canon;
    var c := Canon(Denote(t));
    CanonIsTree(Denote(t));
    CanonIsCanonical(Denote(t));
    if Canonical(t) {
      CanonicalIsCanon(t);
    }
    if Show(c) == Show(t) {
      AtSlice(Show(t), 0, |Show(t)|);
      assert Show(t)[0..|Show(t)|] == Show(t);
      Unambiguous(Lax, c, Lax, t, Show(t), 0);
    }
  }
}
