/** The insertion-sorted array of kernel/orderedArray.c, over any "less than"
    predicate. The heap keeps its index of holes in one of these. */
module OrderedArrays {

  type LessThan = (nat, nat) -> bool

  /** A strict weak order: the shape of comparison insertion sorting relies on. */
  ghost predicate StrictWeakOrder(lt: LessThan)
  {
    && (forall x, y :: lt(x, y) ==> !lt(y, x))
    && (forall x, y, z :: lt(x, z) ==> lt(x, y) || lt(y, z))
  }

  ghost predicate Sorted(s: seq<nat>, lt: LessThan)
  {
    forall i, j | 0 <= i < j < |s| :: !lt(s[j], s[i])
  }

  ghost predicate NoDuplicates(s: seq<nat>)
  {
    forall i, j | 0 <= i < j < |s| :: s[i] != s[j]
  }

  /** The first position at or after `from` whose element is not less than x. */
  function InsertPosition(s: seq<nat>, x: nat, lt: LessThan, from: nat): (p: nat)
    requires from <= |s|
    ensures from <= p <= |s|
    ensures p < |s| ==> !lt(s[p], x)
    ensures forall i | from <= i < p :: lt(s[i], x)
    decreases |s| - from
  {
    if from == |s| || !lt(s[from], x) then from else InsertPosition(s, x, lt, from + 1)
  }

  function Inserted(s: seq<nat>, x: nat, lt: LessThan): (r: seq<nat>)
    ensures |r| == |s| + 1
  {
    var p := InsertPosition(s, x, lt, 0);
    s[..p] + [x] + s[p..]
  }

  function Removed(s: seq<nat>, i: nat): (r: seq<nat>)
    requires i < |s|
    ensures |r| == |s| - 1
  {
    s[..i] + s[i + 1..]
  }

  /** Insertion keeps a sorted array sorted: the promise at the head of orderedArray.h. */
  lemma InsertKeepsSorted(s: seq<nat>, x: nat, lt: LessThan)
    requires StrictWeakOrder(lt) && Sorted(s, lt)
    ensures Sorted(Inserted(s, x, lt), lt)
  {
    var p := InsertPosition(s, x, lt, 0);
    var r := Inserted(s, x, lt);
    forall i, j | 0 <= i < j < |r| ensures !lt(r[j], r[i]) {
      if i == p {
        var y := s[j - 1];
        assert r[j] == y && !lt(s[p], x);
        if p < j - 1 { assert !lt(y, s[p]); }
      } else if j == p {
        assert lt(s[i], x);
      }
    }
  }

  lemma RemoveKeepsSorted(s: seq<nat>, i: nat, lt: LessThan)
    requires i < |s| && Sorted(s, lt)
    ensures Sorted(Removed(s, i), lt)
  {
  }

  /** Insertion adds exactly x: nothing already stored is lost or repeated. */
  lemma InsertMembers(s: seq<nat>, x: nat, lt: LessThan)
    ensures forall y :: y in Inserted(s, x, lt) <==> y in s || y == x
    ensures NoDuplicates(s) && x !in s ==> NoDuplicates(Inserted(s, x, lt))
  {
    var p := InsertPosition(s, x, lt, 0);
    var r := Inserted(s, x, lt);
    assert r[p] == x;
    forall k | 0 <= k < |s| ensures s[k] in r {
      assert r[if k < p then k else k + 1] == s[k];
    }
    forall k | 0 <= k < |r| ensures r[k] in s || r[k] == x {
      if k != p { assert r[k] == s[if k < p then k else k - 1]; }
    }
  }

  lemma RemoveMembers(s: seq<nat>, i: nat)
    requires i < |s| && NoDuplicates(s)
    ensures forall y :: y in Removed(s, i) <==> y in s && y != s[i]
    ensures NoDuplicates(Removed(s, i))
  {
    var r := Removed(s, i);
    forall y | y in s && y != s[i] ensures y in r {
      var k :| 0 <= k < |s| && s[k] == y;
      assert if k < i then r[k] == y else r[k - 1] == y;
    }
    forall y | y in r ensures y in s && y != s[i] {
      var k :| 0 <= k < |r| && r[k] == y;
      assert if k < i then s[k] == y else s[k + 1] == y;
    }
  }

  /** Taking out what was just put in gives back the old array. */
  lemma RemoveUndoesInsert(s: seq<nat>, x: nat, lt: LessThan)
    ensures Removed(Inserted(s, x, lt), InsertPosition(s, x, lt, 0)) == s
  {
  }

  /** Only the answers of the predicate on the elements involved matter. */
  lemma InsertAgrees(s: seq<nat>, x: nat, lt: LessThan, other: LessThan)
    requires forall y | y in s :: lt(y, x) == other(y, x)
    ensures Inserted(s, x, lt) == Inserted(s, x, other)
  {
    assert forall i | 0 <= i < |s| :: s[i] in s;
  }

  class OrderedArray {
    const data: array<nat>
    var size: nat

    ghost predicate Valid()
      reads this
    {
      size <= data.Length
    }

    ghost function Contents(): (s: seq<nat>)
      requires Valid()
      reads this, data
    {
      data[..size]
    }

    /** placeOrderedArray: an empty array over zeroed storage. */
    constructor (maxSize: nat)
      ensures Valid() && fresh(data)
      ensures data.Length == maxSize && Contents() == []
      ensures forall i | 0 <= i < maxSize :: data[i] == 0
    {
      data := new nat[maxSize](_ => 0);
      size := 0;
    }

    /** Puts item at p and moves everything from there up by one. */
    method ShiftIn(p: nat, item: nat)
      requires Valid() && p < size < data.Length
      modifies this, data
      ensures Valid() && size == old(size) + 1
      ensures Contents() == old(Contents())[..p] + [item] + old(Contents())[p..]
      ensures forall i | size <= i < data.Length :: data[i] == old(data[i])
    {
      ghost var s := Contents();
      var position, tmp := p, data[p];
      data[p] := item;
      while position < size
        invariant size == |s| < data.Length && p <= position <= size
        invariant position < size ==> tmp == s[position]
        invariant forall i | 0 <= i < p :: data[i] == s[i]
        invariant data[p] == item
        invariant forall i | p < i <= position :: data[i] == s[i - 1]
        invariant forall i | position < i < size :: data[i] == s[i]
        invariant forall i | size < i < data.Length :: data[i] == old(data[i])
      {
        position := position + 1;
        var tmp2 := data[position];
        data[position] := tmp;
        tmp := tmp2;
      }
      size := size + 1;
    }

    method Insert(item: nat, lessThan: LessThan)
      requires Valid() && size < data.Length
      modifies this, data
      ensures Valid() && size == old(size) + 1
      ensures Contents() == Inserted(old(Contents()), item, lessThan)
      ensures forall i | size <= i < data.Length :: data[i] == old(data[i])
    {
      var position := 0;
      while position < size && lessThan(data[position], item)
        invariant position <= size
        invariant InsertPosition(Contents(), item, lessThan, 0) == InsertPosition(Contents(), item, lessThan, position)
      {
        position := position + 1;
      }
      if position == size {
        data[size] := item;
        size := size + 1;
      } else {
        ShiftIn(position, item);
      }
    }

    method Lookup(i: nat) returns (item: nat)
      requires Valid() && i < size
      ensures item == Contents()[i]
    {
      item := data[i];
    }

    /** Shifts the tail down by one; the last step reads the slot just past the
        end, which is why the array must not be full. */
    method Remove(i: nat)
      requires Valid() && i < size < data.Length
      modifies this, data
      ensures Valid() && size == old(size) - 1
      ensures Contents() == Removed(old(Contents()), i)
      ensures forall k | old(size) <= k < data.Length :: data[k] == old(data[k])
    {
      ghost var s := Contents();
      var k := i;
      while k < size
        invariant size == |s| < data.Length && i <= k <= size
        invariant forall j | 0 <= j < i :: data[j] == s[j]
        invariant forall j | i <= j < k && j + 1 < size :: data[j] == s[j + 1]
        invariant forall j | k <= j < size :: data[j] == s[j]
        invariant forall j | size <= j < data.Length :: data[j] == old(data[j])
      {
        data[k] := data[k + 1];
        k := k + 1;
      }
      size := size - 1;
      assert Contents() == Removed(s, i);
    }

    /** The search loop of free: the index of an item known to be stored. */
    method Find(item: nat) returns (i: nat)
      requires Valid()
      ensures i <= size
      ensures i == size <==> item !in Contents()
      ensures i < size ==> Contents()[i] == item && forall k | 0 <= k < i :: Contents()[k] != item
    {
      i := 0;
      while i < size && data[i] != item
        invariant i <= size
        invariant forall k | 0 <= k < i :: data[k] != item
      {
        i := i + 1;
      }
    }
  }
}
