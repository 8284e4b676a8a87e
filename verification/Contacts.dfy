/** Contacts (a node id with an address) and the sequence vocabulary both routing tables use. */
module Contacts {
  import opened NodeIds

  datatype Address = Address(ip: nat, port: nat)

  datatype Contact = Contact(id: NodeId, address: Address)

  /** An id with a given first byte and zeros behind it. */
  function IdOf(first: bv8): NodeId {
    [first] + seq(19, _ => 0)
  }

  function ContactOf(first: bv8): Contact {
    Contact(IdOf(first), Address(0, 0))
  }

  lemma PrefixOfFirstBytes(x: bv8, y: bv8)
    ensures IdOf(x) == IdOf(y) <==> x == y
    ensures x != y ==> PrefixLength(IdOf(x), IdOf(y)) == LeadingZeros(x ^ y)
  {
    assert IdOf(x)[0] == x && IdOf(y)[0] == y;
    if x != y { BytesDecidePrefix(IdOf(x), IdOf(y), 0); }
  }

  function Ids(s: seq<Contact>): set<NodeId> {
    set c | c in s :: c.id
  }

  ghost predicate DistinctIds(s: seq<Contact>) {
    forall i, j :: 0 <= i < j < |s| ==> s[i].id != s[j].id
  }

  lemma IdsAppend(s: seq<Contact>, c: Contact)
    ensures Ids(s + [c]) == Ids(s) + {c.id}
  {
  }

  function Take<T>(s: seq<T>, n: nat): seq<T> {
    if |s| <= n then s else s[..n]
  }

  lemma TakeAppend<T>(s: seq<T>, c: T, n: nat)
    ensures Take(s + [c], n) == if |Take(s, n)| < n then Take(s, n) + [c] else Take(s, n)
  {
  }

  /** Appending as much of t as fits to the first n elements of s. */
  lemma TakeConcat<T>(s: seq<T>, t: seq<T>, n: nat)
    ensures |Take(s, n)| <= n
    ensures Take(s, n) + Take(t, n - |Take(s, n)|) == Take(s + t, n)
  {
  }

  /** An element that did not make it into the first n comes after every one that did. */
  lemma OmittedIsLater<T>(s: seq<T>, n: nat, c: T, d: T) returns (i: nat, j: nat)
    requires c in Take(s, n) && d in s && d !in Take(s, n)
    ensures i < j < |s| && s[i] == c && s[j] == d
  {
    var t := Take(s, n);
    assert t <= s;
    i :| 0 <= i < |t| && t[i] == c;
    j :| 0 <= j < |s| && s[j] == d;
    assert s == t + s[|t|..];
  }

  /** The contacts whose common prefix with `own` is in [lo, hi), in order. */
  function Between(own: NodeId, s: seq<Contact>, lo: nat, hi: nat): seq<Contact> {
    if s == [] then []
    else
      var rest := Between(own, s[..|s| - 1], lo, hi);
      var c := s[|s| - 1];
      if lo <= PrefixLength(own, c.id) < hi then rest + [c] else rest
  }

  lemma {:induction false} BetweenContents(own: NodeId, s: seq<Contact>, lo: nat, hi: nat)
    ensures forall c :: c in Between(own, s, lo, hi) <==> c in s && lo <= PrefixLength(own, c.id) < hi
    ensures |Between(own, s, lo, hi)| <= |s|
  {
    if s != [] {
      BetweenContents(own, s[..|s| - 1], lo, hi);
      assert forall c :: c in s <==> c in s[..|s| - 1] || c == s[|s| - 1];
    }
  }

  lemma {:induction false} BetweenDistinct(own: NodeId, s: seq<Contact>, lo: nat, hi: nat)
    requires DistinctIds(s)
    ensures DistinctIds(Between(own, s, lo, hi))
  {
    if s != [] {
      var t := s[..|s| - 1];
      BetweenDistinct(own, t, lo, hi);
      BetweenContents(own, t, lo, hi);
      forall c | c in Between(own, t, lo, hi) ensures c.id != s[|s| - 1].id {
        assert c in t;
      }
    }
  }

  lemma BetweenAppend(own: NodeId, s: seq<Contact>, c: Contact, lo: nat, hi: nat)
    ensures Between(own, s + [c], lo, hi)
         == Between(own, s, lo, hi) + if lo <= PrefixLength(own, c.id) < hi then [c] else []
  {
    assert (s + [c])[..|s|] == s;
  }

  lemma {:induction false} BetweenConcat(own: NodeId, s: seq<Contact>, t: seq<Contact>, lo: nat, hi: nat)
    ensures Between(own, s + t, lo, hi) == Between(own, s, lo, hi) + Between(own, t, lo, hi)
  {
    hide PrefixLength;
    if t == [] {
      assert s + t == s;
    } else {
      var less, c := t[..|t| - 1], t[|t| - 1];
      BetweenConcat(own, s, less, lo, hi);
      assert s + t == (s + less) + [c];
      BetweenAppend(own, s + less, c, lo, hi);
    }
  }

  lemma {:induction false} BetweenAll(own: NodeId, s: seq<Contact>, lo: nat, hi: nat)
    requires forall c :: c in s ==> lo <= PrefixLength(own, c.id) < hi
    ensures Between(own, s, lo, hi) == s
  {
    hide PrefixLength;
    if s != [] { BetweenAll(own, s[..|s| - 1], lo, hi); }
  }

  lemma {:induction false} BetweenNone(own: NodeId, s: seq<Contact>, lo: nat, hi: nat)
    requires forall c :: c in s ==> !(lo <= PrefixLength(own, c.id) < hi)
    ensures Between(own, s, lo, hi) == []
  {
    hide PrefixLength;
    if s != [] { BetweenNone(own, s[..|s| - 1], lo, hi); }
  }

  /** Selecting a sub-range of a selected range. */
  lemma {:induction false} BetweenNested(own: NodeId, s: seq<Contact>, lo: nat, hi: nat, lo': nat, hi': nat)
    requires lo <= lo' && hi' <= hi
    ensures Between(own, Between(own, s, lo, hi), lo', hi') == Between(own, s, lo', hi')
  {
    if s != [] {
      var t, c := s[..|s| - 1], s[|s| - 1];
      BetweenNested(own, t, lo, hi, lo', hi');
      BetweenAppend(own, Between(own, t, lo, hi), c, lo', hi');
    }
  }

  lemma {:induction false} DistinctCount(s: seq<Contact>)
    requires DistinctIds(s)
    ensures |Ids(s)| == |s|
  {
    if s == [] {
      assert Ids(s) == {};
    } else {
      var t, c := s[..|s| - 1], s[|s| - 1];
      DistinctCount(t);
      assert s == t + [c];
      assert Ids(s) == Ids(t) + {c.id};
      assert c.id !in Ids(t);
    }
  }

  /** The ids of the set whose common prefix with `own` is in [lo, hi). */
  function IdsBetween(own: NodeId, ids: set<NodeId>, lo: nat, hi: nat): set<NodeId> {
    set x | x in ids && lo <= PrefixLength(own, x) < hi
  }

  lemma {:induction false} BetweenIds(own: NodeId, s: seq<Contact>, lo: nat, hi: nat)
    ensures Ids(Between(own, s, lo, hi)) == IdsBetween(own, Ids(s), lo, hi)
  {
    if s != [] {
      var t, c := s[..|s| - 1], s[|s| - 1];
      BetweenIds(own, t, lo, hi);
      assert s == t + [c];
      IdsAppend(t, c);
      IdsAppend(Between(own, t, lo, hi), c);
    }
  }

  /** How many distinct contacts can share k bits with `own`. */
  lemma BetweenBound(own: NodeId, s: seq<Contact>, k: nat, hi: nat)
    requires DistinctIds(s) && k <= ID_BITS
    ensures |Between(own, s, k, hi)| <= Pow2(ID_BITS - k)
  {
    var b := Between(own, s, k, hi);
    BetweenContents(own, s, k, hi);
    BetweenDistinct(own, s, k, hi);
    DistinctCount(b);
    PrefixClassSize(own, Ids(b), k);
  }
}
