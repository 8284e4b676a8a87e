/** The fixed-capacity vector behind the Rust buckets: eight slots and a length. */
module FixedVecs {

  const CAPACITY: nat := 8

  /** Removing index i by moving the last element into its place. */
  function SwapRemoved<T>(s: seq<T>, i: nat): (r: seq<T>)
    requires i < |s|
    ensures |r| == |s| - 1
  {
    if i < |s| - 1 then s[..|s| - 1][i := s[|s| - 1]] else s[..|s| - 1]
  }

  lemma SwapRemovedContents<T>(s: seq<T>, i: nat)
    requires i < |s|
    ensures multiset(s) == multiset(SwapRemoved(s, i)) + multiset{s[i]}
  {
    var last := s[|s| - 1];
    assert s == s[..|s| - 1] + [last];
    if i < |s| - 1 {
      var init := s[..|s| - 1];
      assert init == init[..i] + [s[i]] + init[i + 1..];
      assert SwapRemoved(s, i) == init[..i] + [last] + init[i + 1..];
    }
  }

  /** What the slots hold after copying `other` over the first slots. */
  function Overwritten<T>(slots: seq<T>, other: seq<T>): seq<T>
    requires |other| <= |slots|
  {
    other + slots[|other|..]
  }

  /** Appending copies to slot 0 instead of the first free slot. It is a concatenation for all
      contents if and only if one of the two vectors is empty. */
  lemma AppendIsConcatenation(length: nat, count: nat)
    requires length + count <= CAPACITY
    ensures (forall slots: seq<int>, other: seq<int> | |slots| == CAPACITY && |other| == count ::
               Overwritten(slots, other)[..length + count] == slots[..length] + other)
            <==> length == 0 || count == 0
  {
    if length == 0 || count == 0 {
      forall slots: seq<int>, other: seq<int> | |slots| == CAPACITY && |other| == count
        ensures Overwritten(slots, other)[..length + count] == slots[..length] + other
      {
        assert slots == slots[..length] + slots[length..];
      }
    } else {
      var slots, other := seq(CAPACITY, _ => 0), seq(count, _ => 1);
      assert Overwritten(slots, other)[..length + count][0] == 1;
      assert (slots[..length] + other)[0] == 0;
    }
  }

  class FixedVec<T(0)> {
    const data: array<T>
    var length: nat

    ghost predicate Valid()
      reads this
    {
      data.Length == CAPACITY && length <= CAPACITY
    }

    ghost function Contents(): (s: seq<T>)
      requires Valid()
      reads this, data
      ensures |s| == length
    {
      data[..length]
    }

    constructor ()
      ensures Valid() && Contents() == [] && fresh(data)
    {
      data := new T[CAPACITY];
      length := 0;
    }

    function EmptySlots(): nat
      requires Valid()
      reads this
    {
      CAPACITY - length
    }

    predicate IsFull()
      reads this
    {
      length == CAPACITY
    }

    predicate IsNotFull()
      reads this
    {
      length < CAPACITY
    }

    method Push(item: T)
      requires Valid() && IsNotFull()
      modifies this, data
      ensures Valid() && Contents() == old(Contents()) + [item]
    {
      data[length] := item;
      length := length + 1;
    }

    /** Indexing. */
    function At(index: nat): T
      requires Valid() && index < length
      reads this, data
    {
      data[index]
    }

    /** Assignment through an index. */
    method Put(index: nat, item: T)
      requires Valid() && index < length
      modifies data
      ensures Valid() && Contents() == old(Contents())[index := item]
    {
      data[index] := item;
    }

    method SwapRemove(index: nat) returns (item: T)
      requires Valid() && index < length
      modifies this, data
      ensures Valid() && item == old(Contents())[index]
      ensures Contents() == SwapRemoved(old(Contents()), index)
    {
      var lastIndex := length - 1;
      length := length - 1;
      item := data[index];
      if index < lastIndex {
        data[index] := data[lastIndex];
      }
    }

    /** Copies to the first slots, whatever is there. */
    method Append(other: FixedVec<T>)
      requires Valid() && other.Valid() && other != this && other.data != data
      requires EmptySlots() >= other.length
      modifies this, data
      ensures Valid() && length == old(length) + other.length
      ensures data[..] == Overwritten(old(data[..]), old(other.Contents()))
      ensures old(length) == 0 || other.length == 0 ==> Contents() == old(Contents()) + old(other.Contents())
    {
      for i := 0 to other.length
        invariant Valid() && length == old(length)
        invariant other.Valid() && other.length == old(other.length) && other.data[..] == old(other.data[..])
        invariant forall j :: 0 <= j < i ==> data[j] == other.data[j]
        invariant forall j :: i <= j < CAPACITY ==> data[j] == old(data[j])
      {
        data[i] := other.data[i];
      }
      length := length + other.length;
    }

    method AppendVec(newItems: seq<T>)
      requires Valid() && EmptySlots() >= |newItems|
      modifies this, data
      ensures Valid() && Contents() == old(Contents()) + newItems
    {
      for i := 0 to |newItems|
        invariant Valid() && length == old(length)
        invariant data[..length] == old(data[..length])
        invariant data[length..length + i] == newItems[..i]
      {
        data[length + i] := newItems[i];
      }
      length := length + |newItems|;
    }
  }
}
