/** What follows for both decoders and encoders: unambiguity, agreement, round trips, normalisation. */
module BencodeTheorems {
  import opened Bencode
  import opened BencodeGrammar
  import opened BencodeParser

  // ------------------------------------------------------------------ unambiguity

  lemma {:induction false} AcceptsLax(d: Dialect, t: Tree)
    requires Accepts(d, t)
    ensures Accepts(Lax, t)
    decreases t
  {
    match t
    case TInt(n) =>
    case TStr(text) =>
    case TList(items) => AcceptsItemsLax(d, items);
    case TDict(entries) => AcceptsEntriesLax(d, entries);
  }

  lemma {:induction false} AcceptsItemsLax(d: Dialect, items: seq<Tree>)
    requires AcceptsItems(d, items)
    ensures AcceptsItems(Lax, items)
    decreases items
  {
    forall i | 0 <= i < |items| ensures Accepts(Lax, items[i]) { AcceptsLax(d, items[i]); }
  }

  lemma {:induction false} AcceptsEntriesLax(d: Dialect, entries: seq<Entry>)
    requires AcceptsEntries(d, entries)
    ensures AcceptsEntries(Lax, entries)
    decreases entries
  {
    forall i | 0 <= i < |entries| ensures AcceptsText(Lax, entries[i].key) && AcceptsValue(Lax, entries[i]) {
      AcceptsValueLax(d, entries[i]);
    }
  }

  lemma {:induction false} AcceptsValueLax(d: Dialect, e: Entry)
    requires AcceptsValue(d, e)
    ensures AcceptsValue(Lax, e)
    decreases e
  {
    AcceptsLax(d, e.value);
  }

  /** A parser of any dialect returns a tree exactly if the tree is of the dialect and written there. */
  lemma ParsesExactly(d: Dialect, data: Bytes, pos: nat, t: Tree, next: nat)
    ensures ParseValue(d, data, pos) == Parsed(t, next)
            <==> Accepts(d, t) && At(data, pos, Show(t)) && next == pos + |Show(t)|
  {
    ParsedValue(d, data, pos);
    if Accepts(d, t) && At(data, pos, Show(t)) {
      ParseValueAt(d, t, data, pos);
    }
  }

  /** At one position at most one tree is written, whatever the dialects. */
  lemma Unambiguous(d: Dialect, t: Tree, d': Dialect, t': Tree, data: Bytes, pos: nat)
    requires Accepts(d, t) && At(data, pos, Show(t))
    requires Accepts(d', t') && At(data, pos, Show(t'))
    ensures t == t'
  {
    AcceptsLax(d, t);
    AcceptsLax(d', t');
    ParseValueAt(Lax, t, data, pos);
    ParseValueAt(Lax, t', data, pos);
  }

  // ------------------------------------------------------------------ the two decoders

  /** Some integer of the tree is -2^63. */
  predicate HasLeastInt(t: Tree)
    decreases t
  {
    match t
    case TInt(n) => AllDigits(n.digits) && NumberValue(n) == I64_MIN
    case TStr(_) => false
    case TList(items) => exists i :: 0 <= i < |items| && HasLeastInt(items[i])
    case TDict(entries) => exists i :: 0 <= i < |entries| && EntryHasLeastInt(entries[i])
  }

  predicate EntryHasLeastInt(e: Entry)
    decreases e
  {
    HasLeastInt(e.value)
  }

  /** Some string that is not a dictionary key is written with a sign before its length. */
  predicate HasSignedString(t: Tree)
    decreases t
  {
    match t
    case TInt(_) => false
    case TStr(text) => text.length.sign != NoSign
    case TList(items) => exists i :: 0 <= i < |items| && HasSignedString(items[i])
    case TDict(entries) => exists i :: 0 <= i < |entries| && EntryHasSignedString(entries[i])
  }

  predicate EntryHasSignedString(e: Entry)
    decreases e
  {
    HasSignedString(e.value)
  }

  lemma TextInBoth(t: Text)
    ensures AcceptsText(Rust, t) <==> AcceptsText(Go, t)
  {
  }

  lemma {:induction false} RustTreeInGo(t: Tree)
    requires Accepts(Rust, t)
    ensures Accepts(Go, t) <==> !HasLeastInt(t)
    decreases t
  {
    match t
    case TInt(n) =>
    case TStr(text) => TextInBoth(text);
    case TList(items) =>
      forall i | 0 <= i < |items| ensures Accepts(Go, items[i]) <==> !HasLeastInt(items[i]) { RustTreeInGo(items[i]); }
    case TDict(entries) =>
      forall i | 0 <= i < |entries|
        ensures AcceptsText(Go, entries[i].key) && (AcceptsValue(Go, entries[i]) <==> !EntryHasLeastInt(entries[i]))
      {
        TextInBoth(entries[i].key);
        RustEntryInGo(entries[i]);
      }
  }

  lemma {:induction false} RustEntryInGo(e: Entry)
    requires AcceptsValue(Rust, e)
    ensures AcceptsValue(Go, e) <==> !EntryHasLeastInt(e)
    decreases e
  {
    RustTreeInGo(e.value);
  }

  lemma {:induction false} GoTreeInRust(t: Tree)
    requires Accepts(Go, t)
    ensures Accepts(Rust, t) <==> !HasSignedString(t)
    decreases t
  {
    match t
    case TInt(n) =>
    case TStr(text) => TextInBoth(text);
    case TList(items) =>
      forall i | 0 <= i < |items| ensures Accepts(Rust, items[i]) <==> !HasSignedString(items[i]) { GoTreeInRust(items[i]); }
    case TDict(entries) =>
      forall i | 0 <= i < |entries|
        ensures AcceptsText(Rust, entries[i].key) && (AcceptsValue(Rust, entries[i]) <==> !EntryHasSignedString(entries[i]))
      {
        TextInBoth(entries[i].key);
        GoEntryInRust(entries[i]);
      }
  }

  lemma {:induction false} GoEntryInRust(e: Entry)
    requires AcceptsValue(Go, e)
    ensures AcceptsValue(Rust, e) <==> !EntryHasSignedString(e)
    decreases e
  {
    GoTreeInRust(e.value);
  }

  /** What the Rust decoder accepts, the Go decoder accepts with the same tree and position if no
      integer is -2^63, and rejects otherwise. */
  lemma RustThenGo(data: Bytes, pos: nat)
    requires ParseValue(Rust, data, pos).Parsed?
    ensures Accepts(Lax, ParseValue(Rust, data, pos).value)
    ensures if HasLeastInt(ParseValue(Rust, data, pos).value) then ParseValue(Go, data, pos).Failed?
            else ParseValue(Go, data, pos) == ParseValue(Rust, data, pos)
  {
    hide At, Accepts, ParseValue, Show;
    var t := ParseValue(Rust, data, pos).value;
    ParsedValue(Rust, data, pos);
    ParsedValue(Go, data, pos);
    AcceptsLax(Rust, t);
    RustTreeInGo(t);
    if HasLeastInt(t) {
      if ParseValue(Go, data, pos).Parsed? {
        Unambiguous(Rust, t, Go, ParseValue(Go, data, pos).value, data, pos);
      }
    } else {
      ParseValueAt(Go, t, data, pos);
    }
  }

  /** What the Go decoder accepts, the Rust decoder accepts with the same tree and position unless a
      string other than a key has a signed length. */
  lemma GoThenRust(data: Bytes, pos: nat)
    requires ParseValue(Go, data, pos).Parsed?
    ensures if HasSignedString(ParseValue(Go, data, pos).value) then ParseValue(Rust, data, pos).Failed?
            else ParseValue(Rust, data, pos) == ParseValue(Go, data, pos)
  {
    hide At, Accepts, ParseValue, Show;
    var t := ParseValue(Go, data, pos).value;
    ParsedValue(Rust, data, pos);
    ParsedValue(Go, data, pos);
    GoTreeInRust(t);
    if HasSignedString(t) {
      if ParseValue(Rust, data, pos).Parsed? {
        Unambiguous(Go, t, Rust, ParseValue(Rust, data, pos).value, data, pos);
      }
    } else {
      ParseValueAt(Rust, t, data, pos);
    }
  }

  // ------------------------------------------------------------------ what encoders write denotes the value

  /** The values whose numbers a dialect can read: byte string lengths up to 2^63 - 1 and integers of
      64 bits, for Go without -2^63. */
  ghost predicate Representable(d: Dialect, v: Value)
    decreases v
  {
    match v
    case Str(s) => d == Lax || |s| <= I64_MAX
    case Int(i) => d == Lax || (I64_MIN <= i <= I64_MAX && (d == Go ==> i != I64_MIN))
    case List(items) => forall i :: 0 <= i < |items| ==> Representable(d, items[i])
    case Dict(entries) => forall k :: k in entries ==> RepresentableKey(d, k) && Representable(d, entries[k])
  }

  ghost predicate RepresentableKey(d: Dialect, k: Bytes) {
    d == Lax || |k| <= I64_MAX
  }

  lemma CanonTextAccepted(d: Dialect, s: Bytes)
    ensures AcceptsText(d, CanonText(s)) <==> RepresentableKey(d, s)
    ensures CanonText(s).length.sign == NoSign
  {
  }

  lemma CanonPayload(s: Bytes)
    ensures CanonText(s).payload == s
  {
  }

  lemma CanonItemsAt(items: seq<Value>, i: nat)
    requires i < |items|
    ensures CanonItems(items)[i] == Canon(items[i])
    decreases items
  {
    if i < |items| - 1 { CanonItemsAt(items[..|items| - 1], i); }
  }

  lemma CanonEntriesAt(v: Value, ks: seq<Bytes>, i: nat)
    requires v.Dict? && (forall k :: k in ks ==> k in v.entries) && i < |ks|
    ensures ks[i] in v.entries && CanonEntries(v, ks)[i] == Entry(CanonText(ks[i]), Canon(v.entries[ks[i]]))
    decreases |ks|
  {
    if i < |ks| - 1 { CanonEntriesAt(v, ks[..|ks| - 1], i); }
  }

  /** A value's encoding is read by a dialect exactly if the value is representable in it. */
  lemma {:induction false} CanonAccepted(d: Dialect, v: Value)
    ensures Accepts(d, Canon(v)) <==> Representable(d, v)
    decreases v, 1
  {
    match v
    case Str(s) => CanonTextAccepted(d, s);
    case Int(i) =>
    case List(items) => CanonListAccepted(d, v);
    case Dict(entries) => CanonDictAccepted(d, v);
  }

  lemma {:induction false} CanonListAccepted(d: Dialect, v: Value)
    requires v.List?
    ensures Accepts(d, Canon(v)) <==> Representable(d, v)
    decreases v, 0
  {
    var ts := CanonItems(v.items);
    forall i | 0 <= i < |v.items| ensures Accepts(d, ts[i]) <==> Representable(d, v.items[i]) {
      CanonItemsAt(v.items, i);
      CanonAccepted(d, v.items[i]);
    }
  }

  lemma {:induction false} CanonDictAccepted(d: Dialect, v: Value)
    requires v.Dict?
    ensures Accepts(d, Canon(v)) <==> Representable(d, v)
    decreases v, 0, 1
  {
    hide AcceptsText, RepresentableKey, SortedKeys, CanonEntries, AcceptsValue;
    var ks := SortedKeys(v.entries.Keys);
    var es := CanonEntries(v, ks);
    forall i | 0 <= i < |ks|
      ensures ks[i] in v.entries
      ensures AcceptsText(d, es[i].key) && AcceptsValue(d, es[i]) <==> RepresentableKey(d, ks[i]) && Representable(d, v.entries[ks[i]])
    {
      CanonEntryAccepted(d, v, ks, i);
    }
    assert forall i :: 0 <= i < |es| ==> ks[i] in v.entries;
    forall k | k in v.entries ensures exists i :: 0 <= i < |ks| && ks[i] == k {
      assert k in ks;
    }
  }

  lemma {:induction false} CanonEntryAccepted(d: Dialect, v: Value, ks: seq<Bytes>, i: nat)
    requires v.Dict? && (forall k :: k in ks ==> k in v.entries) && i < |ks|
    ensures ks[i] in v.entries
    ensures var e := CanonEntries(v, ks)[i];
            AcceptsText(d, e.key) && AcceptsValue(d, e) <==> RepresentableKey(d, ks[i]) && Representable(d, v.entries[ks[i]])
    decreases v, 0, 0
  {
    CanonEntriesAt(v, ks, i);
    CanonTextAccepted(d, ks[i]);
    CanonAccepted(d, v.entries[ks[i]]);
  }

  lemma {:induction false} DenoteItemsAt(items: seq<Tree>, i: nat)
    requires AcceptsItems(Lax, items) && i < |items|
    ensures DenoteItems(items)[i] == Denote(items[i])
    decreases items
  {
    if i < |items| - 1 { DenoteItemsAt(items[..|items| - 1], i); }
  }

  lemma {:induction false} LaxRepresentable(v: Value)
    ensures Representable(Lax, v)
    decreases v
  {
    match v
    case Str(_) =>
    case Int(_) =>
    case List(items) =>
      forall i | 0 <= i < |items| ensures Representable(Lax, items[i]) { LaxRepresentable(items[i]); }
    case Dict(entries) =>
      forall k | k in entries ensures Representable(Lax, entries[k]) { LaxRepresentable(entries[k]); }
  }

  lemma CanonIsTree(v: Value)
    ensures Accepts(Lax, Canon(v))
  {
    LaxRepresentable(v);
    CanonAccepted(Lax, v);
  }

  /** The tree an encoder writes for a value denotes that value. */
  lemma {:induction false} DenoteCanon(v: Value)
    ensures Accepts(Lax, Canon(v)) && Denote(Canon(v)) == v
    decreases v, 1, 0
  {
    CanonIsTree(v);
    match v
    case Str(s) =>
    case Int(i) =>
    case List(items) => DenoteCanonList(v);
    case Dict(entries) =>
      var ks := SortedKeys(entries.Keys);
      DenoteCanonEntries(v, ks);
      assert (map k | k in ks :: entries[k]) == entries;
  }

  lemma {:induction false} DenoteCanonList(v: Value)
    requires v.List?
    ensures AcceptsItems(Lax, CanonItems(v.items)) && DenoteItems(CanonItems(v.items)) == v.items
    decreases v, 0, 0
  {
    CanonIsTree(v);
    var ts := CanonItems(v.items);
    forall i | 0 <= i < |v.items| ensures DenoteItems(ts)[i] == v.items[i] {
      CanonItemsAt(v.items, i);
      DenoteItemsAt(ts, i);
      DenoteCanon(v.items[i]);
    }
  }

  lemma DenoteNothing(v: Value)
    requires v.Dict?
    ensures CanonEntries(v, []) == [] && AcceptsEntries(Lax, []) && DenoteEntries([]) == map[]
  {
  }

  lemma {:induction false} DenoteCanonEntries(v: Value, ks: seq<Bytes>)
    requires v.Dict? && forall k :: k in ks ==> k in v.entries
    ensures AcceptsEntries(Lax, CanonEntries(v, ks))
    ensures DenoteEntries(CanonEntries(v, ks)) == map k | k in ks :: v.entries[k]
    decreases v, 0, |ks|
  {
    hide CanonEntries, DenoteEntries, AcceptsEntries;
    if ks == [] {
      DenoteNothing(v);
    } else {
      var less, k := ks[..|ks| - 1], ks[|ks| - 1];
      DenoteCanonEntries(v, less);
      assert k in ks && ks == less + [k];
      DenoteCanonLast(v, less, k);
    }
  }

  lemma {:induction false} DenoteCanonLast(v: Value, less: seq<Bytes>, k: Bytes)
    requires v.Dict? && k in v.entries && forall o :: o in less ==> o in v.entries
    requires AcceptsEntries(Lax, CanonEntries(v, less))
    requires DenoteEntries(CanonEntries(v, less)) == map o | o in less :: v.entries[o]
    ensures AcceptsEntries(Lax, CanonEntries(v, less + [k]))
    ensures DenoteEntries(CanonEntries(v, less + [k])) == map o | o in less + [k] :: v.entries[o]
    decreases v, 0, |less|
  {
    hide Canon, Denote, CanonText, CanonEntries, DenoteEntries, Accepts, AcceptsText, AcceptsEntries;
    DenoteCanon(v.entries[k]);
    CanonTextAccepted(Lax, k);
    CanonEntriesLast(v, less, k);
    CanonPayload(k);
    DenoteEntriesLast(CanonEntries(v, less), Entry(CanonText(k), Canon(v.entries[k])));
    assert forall o :: o in less + [k] <==> o in less || o == k;
  }

  // ------------------------------------------------------------------ round trips

  /** The round trip: whatever follows it, the encoding of a representable value is parsed to its end
      and denotes the value. */
  lemma RoundTrip(d: Dialect, v: Value, front: Bytes, rest: Bytes)
    requires Representable(d, v)
    ensures ParseValue(d, front + Encoding(v) + rest, |front|) == Parsed(Canon(v), |front| + |Encoding(v)|)
    ensures Accepts(Lax, Canon(v)) && Denote(Canon(v)) == v
  {
    CanonAccepted(d, v);
    DenoteCanon(v);
    var data := front + Encoding(v) + rest;
    assert data[|front|..|front| + |Encoding(v)|] == Encoding(v);
    ParseValueAt(d, Canon(v), data, |front|);
  }

  /** An encoding that is not representable is rejected. */
  lemma UnrepresentableFails(d: Dialect, v: Value, front: Bytes, rest: Bytes)
    requires !Representable(d, v)
    ensures ParseValue(d, front + Encoding(v) + rest, |front|).Failed?
  {
    hide At, ParseValue, Accepts, Show;
    var data := front + Encoding(v) + rest;
    assert data[|front|..|front| + |Encoding(v)|] == Encoding(v);
    AtSlice(data, |front|, |front| + |Encoding(v)|);
    ParsedValue(d, data, |front|);
    CanonAccepted(d, v);
    CanonIsTree(v);
    if ParseValue(d, data, |front|).Parsed? {
      Unambiguous(d, ParseValue(d, data, |front|).value, Lax, Canon(v), data, |front|);
    }
  }

  lemma ReadByRustAlone(v: Value)
    requires Representable(Rust, v) && !Representable(Go, v)
    ensures ParseValue(Rust, Encoding(v), 0).Parsed? && ParseValue(Go, Encoding(v), 0).Failed?
  {
    hide ParseValue, Encoding, Representable;
    assert [] + Encoding(v) + [] == Encoding(v);
    RoundTrip(Rust, v, [], []);
    UnrepresentableFails(Go, v, [], []);
  }

  /** The least 64-bit integer, as both encoders write it, is read by the Rust decoder alone. */
  lemma LeastIntExample()
    ensures ParseValue(Rust, Encoding(Int(I64_MIN)), 0).Parsed? && ParseValue(Go, Encoding(Int(I64_MIN)), 0).Failed?
  {
    hide ParseValue, Encoding;
    ReadByRustAlone(Int(I64_MIN));
  }

  /** A string of length 1 that is written with a plus sign is read by the Go decoder alone. */
  lemma SignedStringExample()
    ensures var input := [PLUS, '1' as byte, COLON, 'a' as byte];
            ParseValue(Go, input, 0).Parsed? && ParseValue(Rust, input, 0) == Failed(UnexpectedStartOfValue)
  {
    var text := Text(Number(Plus, ['1' as byte]), ['a' as byte]);
    var input := [PLUS, '1' as byte, COLON, 'a' as byte];
    assert DigitsValue([]) == 0 && ['1' as byte][..0] == [];
    assert ShowText(text) == input;
    assert input[0..0 + |input|] == input;
    ParseValueAt(Go, TStr(text), input, 0);
  }

  /** Encodings are injective and prefix-free: no two values have encodings one of which starts the other. */
  lemma EncodingPrefixFree(v: Value, rest: Bytes, v': Value, rest': Bytes)
    requires Encoding(v) + rest == Encoding(v') + rest'
    ensures v == v' && rest == rest'
  {
    hide Encoding, Denote, Canon, ParseValue;
    LaxRepresentable(v);
    LaxRepresentable(v');
    RoundTrip(Lax, v, [], rest);
    RoundTrip(Lax, v', [], rest');
    assert [] + Encoding(v) == Encoding(v) && [] + Encoding(v') == Encoding(v');
    assert rest == (Encoding(v) + rest)[|Encoding(v)|..];
    assert rest' == (Encoding(v') + rest')[|Encoding(v')|..];
  }
}
