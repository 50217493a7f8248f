/** Properties that relate several list operations, stated as client code
    that uses only the operations' contracts. */
module ListProperties {
  import opened Results
  import opened PySeq
  import opened LinkedLists

  /** Appending values to a new list and materialising it gives the values
      back in order; no values give an empty list, which cannot be materialised. */
  method AppendThenToList<T(==)>(values: seq<T>) returns (r: Result<seq<T>>)
    ensures r == if values == [] then Err(EmptyList) else Ok(values)
  {
    var l := new LinkedList<T>();
    l.Append(values);
    assert l.contents == [] + values == values;
    r := l.ToList();
  }

  /** The length of a list is the number of values it materialises to, and
      zero exactly when it cannot be materialised. */
  method LengthAgreesWithToList<T(==)>(l: LinkedList<T>) returns (n: nat, r: Result<seq<T>>)
    requires l.Valid()
    ensures r.Ok? ==> n == |r.value|
    ensures r.Err? <==> n == 0
  {
    n := l.Length();
    r := l.ToList();
  }

  /** Appending no values changes neither the values nor the nodes. */
  method AppendNothing<T(==)>(l: LinkedList<T>)
    requires l.Valid()
    modifies l.Repr
    ensures l.Valid() && l.contents == old(l.contents) && l.nodes == old(l.nodes)
  {
    l.Append([]);
  }

  /** `l[::-1]` of a non-empty list is a new list holding the values in
      reverse order. */
  method ReversedCopy<T(==)>(l: LinkedList<T>) returns (r: Result<LinkedList<T>>)
    requires l.Valid()
    ensures l.contents == [] ==> r == Err(EmptyList)
    ensures l.contents != [] ==>
              r.Ok? && fresh(r.value) && r.value.Valid() &&
              |r.value.contents| == |l.contents| &&
              forall i :: 0 <= i < |l.contents| ==> r.value.contents[i] == l.contents[|l.contents| - 1 - i]
  {
    SliceReversed(l.contents);
    r := l.GetItem(SliceIndex(None, None, Some(-1)));
  }

  /** `l[:]` of a non-empty list is a new list equal in value to l. */
  method FullCopy<T(==)>(l: LinkedList<T>) returns (r: Result<LinkedList<T>>)
    requires l.Valid()
    ensures l.contents == [] ==> r == Err(EmptyList)
    ensures l.contents != [] ==> r.Ok? && fresh(r.value) && r.value.Valid() && r.value.contents == l.contents
  {
    SliceCopy(l.contents);
    r := l.GetItem(SliceIndex(None, None, None));
  }

  /** `l[i] = v` at a position inside the list is seen by a following `get(i)`,
      and every other position keeps its value. */
  method SetThenGet<T(==)>(l: LinkedList<T>, i: int, v: T, j: int) returns (stored: Outcome, got: Option<T>)
    requires l.Valid() && 0 <= i < |l.contents| && 0 <= j < |l.contents|
    modifies l.Repr
    ensures stored == Pass
    ensures got == if j == i then Some(v) else Some(old(l.contents[j]))
  {
    stored := l.SetItem(IntIndex(i), v);
    got := l.Get(j);
  }

  /** Removing a value and then materialising gives the old values with the
      first copy of that value deleted. */
  method RemoveThenToList<T(==)>(l: LinkedList<T>, v: T) returns (removed: Outcome, r: Result<seq<T>>)
    requires l.Valid() && v in l.contents
    modifies l.Repr
    ensures removed == Pass
    ensures var i := FirstIndex(old(l.contents), v);
            var rest := old(l.contents[..i] + l.contents[i + 1..]);
            r == if rest == [] then Err(EmptyList) else Ok(rest)
  {
    RemoveFirstSplits(l.contents, v);
    removed := l.Remove(v);
    r := l.ToList();
  }
}
