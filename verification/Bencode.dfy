/** Bencoded values, decimal numbers and the byte order of dictionary keys. */
module Bencode {

  newtype byte = x: int | 0 <= x < 256

  type Bytes = seq<byte>

  datatype Value =
    | Str(bytes: Bytes)
    | Int(i: int)
    | List(items: seq<Value>)
    | Dict(entries: map<Bytes, Value>)

  const I64_MAX: int := 0x7FFF_FFFF_FFFF_FFFF
  const I64_MIN: int := -0x8000_0000_0000_0000

  const MINUS: byte := '-' as byte
  const PLUS: byte := '+' as byte
  const COLON: byte := ':' as byte
  const LOWER_D: byte := 'd' as byte
  const LOWER_E: byte := 'e' as byte
  const LOWER_I: byte := 'i' as byte
  const LOWER_L: byte := 'l' as byte
  const ZERO: byte := '0' as byte

  // ------------------------------------------------------------------ decimal digits

  predicate IsDigit(b: byte) {
    48 <= b <= 57
  }

  predicate AllDigits(s: Bytes) {
    forall i :: 0 <= i < |s| ==> IsDigit(s[i])
  }

  function DigitsValue(s: Bytes): nat
    requires AllDigits(s)
  {
    if s == [] then 0 else 10 * DigitsValue(s[..|s| - 1]) + (s[|s| - 1] - 48) as int
  }

  /** The shortest digits of a number. */
  function Decimal(n: nat): (s: Bytes)
    ensures |s| > 0 && AllDigits(s) && DigitsValue(s) == n
    ensures n > 0 ==> s[0] != ZERO
  {
    var last := (48 + n % 10) as byte;
    if n < 10 then [last] else Decimal(n / 10) + [last]
  }

  /** No digits with the same value are shorter, and none of the same length are different. */
  lemma {:induction false} DecimalIsShortest(s: Bytes)
    requires AllDigits(s) && |s| > 0
    ensures |Decimal(DigitsValue(s))| <= |s|
    ensures Decimal(DigitsValue(s)) == s <==> |s| == 1 || s[0] != ZERO
  {
    var n, init := DigitsValue(s), s[..|s| - 1];
    if |s| > 1 {
      DecimalIsShortest(init);
      assert n / 10 == DigitsValue(init) && n % 10 == (s[|s| - 1] - 48) as int;
      assert s == init + [s[|s| - 1]];
      if n < 10 {
        assert Decimal(0) == [ZERO];
      }
    }
  }

  // ------------------------------------------------------------------ key order

  /** Bytewise lexicographic order. */
  predicate AtMost(a: Bytes, b: Bytes) {
    a == [] || (b != [] && (a[0] < b[0] || (a[0] == b[0] && AtMost(a[1..], b[1..]))))
  }

  /** One string comes before another if it is a prefix of it, or has a smaller byte at the first
      position where they differ. */
  lemma {:induction false} AtMostIsBytewise(a: Bytes, b: Bytes)
    ensures AtMost(a, b)
       <==> a <= b || exists i :: 0 <= i < |a| && i < |b| && a[..i] == b[..i] && a[i] < b[i]
  {
    if a != [] && b != [] {
      if a[0] == b[0] {
        AtMostIsBytewise(a[1..], b[1..]);
        PrefixOfRest(a, b);
        SmallerInRest(a, b);
      } else if a[0] < b[0] {
        assert a[..0] == b[..0];
      } else {
        forall i | 0 < i < |a| && i < |b| ensures a[..i] != b[..i] {
          assert a[..i][0] != b[..i][0];
        }
      }
    }
  }

  lemma PrefixOfRest(a: Bytes, b: Bytes)
    requires a != [] && b != [] && a[0] == b[0]
    ensures a <= b <==> a[1..] <= b[1..]
  {
    assert a == [a[0]] + a[1..] && b == [b[0]] + b[1..];
    if a <= b {
      assert b[1..][..|a| - 1] == b[..|a|][1..];
    }
  }

  lemma SmallerInRest(a: Bytes, b: Bytes)
    requires a != [] && b != [] && a[0] == b[0]
    ensures (exists i :: 0 <= i < |a| && i < |b| && a[..i] == b[..i] && a[i] < b[i])
       <==> exists i :: 0 <= i < |a[1..]| && i < |b[1..]| && a[1..][..i] == b[1..][..i] && a[1..][i] < b[1..][i]
  {
    if i :| 0 <= i < |a| && i < |b| && a[..i] == b[..i] && a[i] < b[i] {
      assert a[1..][..i - 1] == a[..i][1..] == b[..i][1..] == b[1..][..i - 1];
    }
    if i :| 0 <= i < |a[1..]| && i < |b[1..]| && a[1..][..i] == b[1..][..i] && a[1..][i] < b[1..][i] {
      assert a[..i + 1] == [a[0]] + a[1..][..i] && b[..i + 1] == [b[0]] + b[1..][..i];
    }
  }

  lemma {:induction false} AtMostTotal(a: Bytes, b: Bytes)
    ensures AtMost(a, b) || AtMost(b, a)
    ensures AtMost(a, b) && AtMost(b, a) ==> a == b
    ensures AtMost(a, a)
  {
    if a != [] {
      AtMostTotal(a[1..], if b == [] then [] else b[1..]);
      assert a == [a[0]] + a[1..];
      if b != [] { assert b == [b[0]] + b[1..]; }
    }
  }

  lemma {:induction false} AtMostTransitive(a: Bytes, b: Bytes, c: Bytes)
    requires AtMost(a, b) && AtMost(b, c)
    ensures AtMost(a, c)
  {
    if a != [] && a[0] == b[0] && b[0] == c[0] {
      AtMostTransitive(a[1..], b[1..], c[1..]);
    }
  }

  predicate IsLeast(keys: set<Bytes>, k: Bytes) {
    k in keys && forall o :: o in keys ==> AtMost(k, o)
  }

  lemma {:induction false} LeastExists(keys: set<Bytes>)
    requires keys != {}
    ensures exists k :: IsLeast(keys, k)
  {
    var k :| k in keys;
    if keys == {k} {
      AtMostTotal(k, k);
      assert IsLeast(keys, k);
    } else {
      LeastExists(keys - {k});
      var l :| IsLeast(keys - {k}, l);
      AtMostTotal(k, l);
      AtMostTotal(k, k);
      if AtMost(l, k) {
        assert IsLeast(keys, l);
      } else {
        forall o | o in keys ensures AtMost(k, o) {
          if o != k { AtMostTransitive(k, l, o); }
        }
        assert IsLeast(keys, k);
      }
    }
  }

  lemma LeastUnique(keys: set<Bytes>, k: Bytes, l: Bytes)
    requires IsLeast(keys, k) && IsLeast(keys, l)
    ensures k == l
  {
    AtMostTotal(k, l);
  }

  ghost predicate StrictlyAscending(ks: seq<Bytes>) {
    forall i, j :: 0 <= i < j < |ks| ==> AtMost(ks[i], ks[j]) && ks[i] != ks[j]
  }

  /** The keys of a map in the order in which both encoders write them. */
  function SortedKeys(keys: set<Bytes>): (ks: seq<Bytes>)
    ensures forall k :: k in ks <==> k in keys
    ensures |ks| == |keys|
  {
    if keys == {} then []
    else
      LeastExists(keys);
      LeastIsUnique(keys);
      var k :| k in keys && IsLeast(keys, k);
      [k] + SortedKeys(keys - {k})
  }

  lemma LeastIsUnique(keys: set<Bytes>)
    ensures forall k, l :: IsLeast(keys, k) && IsLeast(keys, l) ==> k == l
  {
    forall k, l | IsLeast(keys, k) && IsLeast(keys, l) ensures k == l {
      LeastUnique(keys, k, l);
    }
  }

  lemma {:induction false} SortedKeysAscend(keys: set<Bytes>)
    ensures StrictlyAscending(SortedKeys(keys))
  {
    hide AtMost, IsLeast;
    if keys != {} {
      var k := SortedKeysStep(keys);
      SortedKeysAscend(keys - {k});
      LeastFirst(keys, k, SortedKeys(keys - {k}));
    }
  }

  lemma SortedKeysStep(keys: set<Bytes>) returns (k: Bytes)
    requires keys != {}
    ensures IsLeast(keys, k) && k in keys && SortedKeys(keys) == [k] + SortedKeys(keys - {k})
  {
    hide AtMost;
    k := SortedKeys(keys)[0];
  }

  lemma LeastFirst(keys: set<Bytes>, k: Bytes, ks: seq<Bytes>)
    requires IsLeast(keys, k) && StrictlyAscending(ks) && forall o :: o in ks <==> o in keys - {k}
    ensures StrictlyAscending([k] + ks)
  {
    hide AtMost;
    forall i | 0 <= i < |ks| ensures AtMost(k, ks[i]) && k != ks[i] {
      assert ks[i] in ks;
    }
  }

  /** A strictly ascending sequence is the sorted sequence of its own elements. */
  lemma {:induction false} AscendingIsSorted(ks: seq<Bytes>, keys: set<Bytes>)
    requires StrictlyAscending(ks)
    requires forall k :: k in ks <==> k in keys
    ensures ks == SortedKeys(keys)
  {
    hide AtMost, IsLeast, SortedKeys, StrictlyAscending;
    if ks == [] {
      assert keys == {};
      NothingSorted();
    } else {
      AscendingParts(ks, keys);
      var k := SortedKeysStep(keys);
      LeastUnique(keys, ks[0], k);
      AscendingIsSorted(ks[1..], keys - {k});
      assert ks == [k] + ks[1..];
    }
  }

  lemma NothingSorted()
    ensures SortedKeys({}) == []
  {
  }

  /** The first of a strictly ascending sequence is the least, and the rest holds the other keys. */
  lemma AscendingParts(ks: seq<Bytes>, keys: set<Bytes>)
    requires ks != [] && StrictlyAscending(ks)
    requires forall k :: k in ks <==> k in keys
    ensures IsLeast(keys, ks[0]) && keys != {}
    ensures StrictlyAscending(ks[1..]) && forall k :: k in ks[1..] <==> k in keys - {ks[0]}
  {
    hide AtMost;
    var k, rest := ks[0], ks[1..];
    assert k in ks;
    AtMostTotal(k, k);
    forall o | o in keys ensures AtMost(k, o) {
      var i :| 0 <= i < |ks| && ks[i] == o;
    }
    forall o ensures o in rest <==> o in keys && o != k {
      if o in rest {
        var i :| 0 <= i < |rest| && rest[i] == o;
        assert ks[i + 1] == o;
      }
      if o in keys && o != k {
        var i :| 0 <= i < |ks| && ks[i] == o;
        assert rest[i - 1] == o;
      }
    }
  }
}
