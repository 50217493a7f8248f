/** The singly-linked list: nodes that the list owns, chained from `head`,
    with indexing, slicing, item assignment and removal by value. */
module LinkedLists {
  import opened Results
  import opened PySeq

  /** One link of the chain: a payload and the next node, if any. */
  class Node<T> {
    var data: T
    var next: Node?<T>

    constructor (data: T)
      ensures this.data == data && next == null
    {
      this.data := data;
      next := null;
    }
  }

  /** The index argument of `l[index]` and `l[index] = value`: an integer,
      a slice with optional bounds and step, or a value of any other type. */
  datatype Index =
    | IntIndex(i: int)
    | SliceIndex(start: Option<int>, stop: Option<int>, step: Option<int>)
    | OtherIndex

  /** The elements of s are pairwise distinct. */
  ghost predicate NoRepeats<X>(s: seq<X>)
  {
    forall j, k :: 0 <= j < k < |s| ==> s[j] != s[k]
  }

  /** Node k of the chain ns holds cs[k] and links to node k + 1, or to null
      when it is the last one. */
  ghost predicate LinkedAt<T>(ns: seq<Node<T>>, cs: seq<T>, k: int)
    requires 0 <= k < |ns| && |cs| == |ns|
    reads ns[k]
  {
    ns[k].data == cs[k] && ns[k].next == if k + 1 < |ns| then ns[k + 1] else null
  }

  /** Deleting position i of a sequence shifts the later elements down by one. */
  lemma DeleteAt<X>(s: seq<X>, i: nat, r: seq<X>)
    requires i < |s| && r == s[..i] + s[i + 1..]
    ensures |r| == |s| - 1
    ensures forall j :: 0 <= j < |r| ==> r[j] == s[if j < i then j else j + 1]
  {
  }

  /** Deleting position i of a sequence without repetitions keeps the rest
      distinct and removes exactly s[i] from its set of elements. */
  lemma DeleteAtNoRepeats<X>(s: seq<X>, i: nat, r: seq<X>)
    requires i < |s| && r == s[..i] + s[i + 1..] && NoRepeats(s)
    ensures NoRepeats(r) && s[i] !in r
    ensures (set x | x in r) == (set x | x in s) - {s[i]}
  {
    DeleteAt(s, i, r);
    forall x ensures x in r <==> x in s && x != s[i] {
      if x in r {
        var j :| 0 <= j < |r| && r[j] == x;
        assert x == s[if j < i then j else j + 1];
      }
      if x in s && x != s[i] {
        var j :| 0 <= j < |s| && s[j] == x;
        assert x == r[if j < i then j else j - 1];
      }
    }
  }

  class LinkedList<T(==)> {
    var head: Node?<T>

    // the values in the list, front to back
    ghost var contents: seq<T>
    // the nodes of the chain, front to back
    ghost var nodes: seq<Node<T>>
    // this list and the nodes it owns
    ghost var Repr: set<object>

    /** The chain from head visits exactly `nodes`, each node once, ends in
        null, and spells out `contents`. */
    ghost predicate Valid()
      reads this, Repr
      ensures Valid() ==> this in Repr
    {
      this in Repr &&
      Repr == {this} + (set n: Node<T> | n in nodes) &&
      |nodes| == |contents| &&
      head == (if nodes == [] then null else nodes[0]) &&
      NoRepeats(nodes) &&
      (forall k :: 0 <= k < |nodes| ==> LinkedAt(nodes, contents, k))
    }

    /** An empty list: head is None. */
    constructor ()
      ensures Valid() && fresh(Repr)
      ensures contents == [] && nodes == []
    {
      head := null;
      contents, nodes, Repr := [], [], {this};
    }

    /** Appends each of `values` in turn, walking to the tail for each one. */
    method Append(values: seq<T>)
      requires Valid()
      modifies Repr
      ensures Valid() && fresh(Repr - old(Repr))
      ensures contents == old(contents) + values
      ensures |nodes| == |old(nodes)| + |values| && old(nodes) <= nodes
    {
      for j := 0 to |values|
        invariant Valid() && fresh(Repr - old(Repr))
        invariant contents == old(contents) + values[..j]
        invariant |nodes| == |old(nodes)| + j && old(nodes) <= nodes
      {
        var value := values[j];
        if head == null {
          assert nodes == [] && contents == [] && Repr == {this};
          head := new Node(value);
          contents, nodes, Repr := [value], [head], {this, head};
          assert LinkedAt(nodes, contents, 0);
        } else {
          var temp := head;
          ghost var k := 0;
          while temp.next != null
            invariant 0 <= k < |nodes| && temp == nodes[k]
            decreases |nodes| - k
          {
            assert LinkedAt(nodes, contents, k);
            temp := temp.next;
            k := k + 1;
          }
          assert LinkedAt(nodes, contents, k);
          AttachAfter(temp, value, k);
        }
        assert values[..j + 1] == values[..j] + [value];
      }
    }

    /** Links a new node holding value after the last node, tail. */
    method AttachAfter(tail: Node<T>, value: T, ghost k: nat)
      requires Valid() && k == |nodes| - 1 && tail == nodes[k]
      modifies this, tail
      ensures Valid() && fresh(Repr - old(Repr)) && Repr >= old(Repr)
      ensures contents == old(contents) + [value]
      ensures nodes == old(nodes) + [nodes[|nodes| - 1]]
    {
      ghost var ns0, cs0 := nodes, contents;
      var node := new Node(value);
      tail.next := node;
      contents, nodes, Repr := contents + [value], nodes + [node], Repr + {node};
      forall j | 0 <= j < |nodes| ensures LinkedAt(nodes, contents, j) {
        if j < k {
          assert ns0[j] != tail && old(LinkedAt(ns0, cs0, j));
        } else if j == k {
          assert old(LinkedAt(ns0, cs0, j));
        }
      }
      assert NoRepeats(nodes) by {
        forall a, b | 0 <= a < b < |nodes| ensures nodes[a] != nodes[b] {
          if b < k + 1 {
            assert nodes[a] == ns0[a] && nodes[b] == ns0[b];
          }
        }
      }
    }

    /** The emptiness check of display_elements; the printing is not modelled. */
    method DisplayElements() returns (r: Outcome)
      requires Valid()
      ensures r == if contents == [] then Fail(EmptyList) else Pass
    {
      if head == null {
        return Fail(EmptyList);
      }
      return Pass;
    }

    /** Deletes the first node whose data equals `value`, or reports NotFound
        and leaves the list as it was. */
    method Remove(value: T) returns (r: Outcome)
      requires Valid()
      modifies Repr
      ensures Valid() && Repr <= old(Repr)
      ensures r == if value in old(contents) then Pass else Fail(NotFound)
      ensures contents == RemoveFirst(old(contents), value)
      ensures value in old(contents) ==>
                var i := FirstIndex(old(contents), value);
                nodes == old(nodes[..i] + nodes[i + 1..])
      ensures value !in old(contents) ==> contents == old(contents) && nodes == old(nodes)
    {
      var temp := head;
      var previous: Node?<T> := null;
      ghost var i := 0;
      while temp != null
        invariant Valid() && unchanged(this) && unchanged(nodes)
        invariant 0 <= i <= |nodes|
        invariant temp == if i < |nodes| then nodes[i] else null
        invariant previous == if i == 0 then null else nodes[i - 1]
        invariant value !in contents[..i]
        decreases |nodes| - i
      {
        assert LinkedAt(nodes, contents, i);
        if temp.data == value {
          FirstIndexUnique(contents, value, i);
          RemoveFirstSplits(contents, value);
          if previous == null {
            UnlinkHead();
          } else {
            UnlinkAfter(previous, i);
          }
          return Pass;
        }
        assert contents[..i + 1] == contents[..i] + [contents[i]];
        previous := temp;
        temp := temp.next;
        i := i + 1;
      }
      assert contents[..i] == contents;
      RemoveFirstAbsent(contents, value);
      return Fail(NotFound);
    }

    /** Takes the head node out of the chain: head moves on to its successor. */
    method UnlinkHead()
      requires Valid() && nodes != []
      modifies this
      ensures Valid() && Repr == old(Repr) - {old(head)}
      ensures contents == old(contents[1..]) && nodes == old(nodes[1..])
    {
      ghost var ns0, cs0 := nodes, contents;
      var temp := head;
      DeleteAtNoRepeats(nodes, 0, nodes[1..]);
      assert LinkedAt(ns0, cs0, 0);
      head := temp.next;
      contents, nodes := contents[1..], nodes[1..];
      Repr := Repr - {temp};
      forall j | 0 <= j < |nodes| ensures LinkedAt(nodes, contents, j) {
        assert LinkedAt(ns0, cs0, j + 1);
      }
    }

    /** Takes node i > 0 out of the chain: the link of its predecessor,
        previous, skips it. */
    method UnlinkAfter(previous: Node<T>, ghost i: nat)
      requires Valid() && 0 < i < |nodes| && previous == nodes[i - 1]
      modifies previous
      modifies this
      ensures Valid() && Repr == old(Repr) - {old(nodes[i])}
      ensures contents == old(contents[..i] + contents[i + 1..])
      ensures nodes == old(nodes[..i] + nodes[i + 1..])
    {
      ghost var ns0, cs0 := nodes, contents;
      var temp := previous.next;
      assert LinkedAt(ns0, cs0, i - 1) && LinkedAt(ns0, cs0, i);
      ghost var ns, cs := nodes[..i] + nodes[i + 1..], contents[..i] + contents[i + 1..];
      DeleteAtNoRepeats(nodes, i, ns);
      DeleteAt(nodes, i, ns);
      DeleteAt(contents, i, cs);
      assert head == ns[0];
      previous.next := temp.next;
      contents, nodes := cs, ns;
      Repr := Repr - {temp};
      forall j | 0 <= j < |ns| ensures LinkedAt(ns, cs, j) {
        var j' := if j < i then j else j + 1;
        assert old(LinkedAt(ns0, cs0, j'));
        if j != i - 1 {
          assert ns0[j'] != previous;
          if j' + 1 < |ns0| {
            assert ns0[j' + 1] == (if j + 1 < |ns| then ns[j + 1] else null);
          }
        }
      }
    }

    /** The values of the list in order, or EmptyList when head is None. */
    method ToList() returns (r: Result<seq<T>>)
      requires Valid()
      ensures r == if contents == [] then Err(EmptyList) else Ok(contents)
    {
      if head == null {
        return Err(EmptyList);
      }
      var temp := head;
      var pylist := [];
      ghost var i := 0;
      while temp != null
        invariant 0 <= i <= |nodes|
        invariant temp == if i < |nodes| then nodes[i] else null
        invariant pylist == contents[..i]
        decreases |nodes| - i
      {
        assert LinkedAt(nodes, contents, i);
        assert contents[..i + 1] == contents[..i] + [temp.data];
        pylist := pylist + [temp.data];
        temp := temp.next;
        i := i + 1;
      }
      assert contents[..i] == contents;
      return Ok(pylist);
    }

    /** The value `index` steps from head; None when the walk runs off the
        chain. A negative index takes no step, so it reads the head. */
    method Get(index: int) returns (r: Option<T>)
      requires Valid()
      ensures 0 <= index < |contents| ==> r == Some(contents[index])
      ensures index < 0 && contents != [] ==> r == Some(contents[0])
      ensures index >= |contents| || contents == [] ==> r == None
    {
      var temp := head;
      var steps := 0;
      while steps < index
        invariant 0 <= steps <= |nodes|
        invariant steps <= if index < 0 then 0 else index
        invariant temp == if steps < |nodes| then nodes[steps] else null
        decreases index - steps
      {
        if temp == null {
          return None;
        }
        assert LinkedAt(nodes, contents, steps);
        temp := temp.next;
        steps := steps + 1;
      }
      if temp == null {
        return None;
      }
      assert LinkedAt(nodes, contents, steps);
      return Some(temp.data);
    }

    /** `l[index]`: a fresh list holding the selected element or slice of the
        materialised values. Materialising comes first, so an empty list
        reports EmptyList whatever the index. */
    method GetItem(index: Index) returns (r: Result<LinkedList<T>>)
      requires Valid()
      ensures r.Ok? ==> fresh(r.value) && fresh(r.value.Repr) && r.value.Valid()
      ensures contents == [] ==> r == Err(EmptyList)
      ensures contents != [] && index.IntIndex? ==>
                match Subscript(contents, index.i)
                case Ok(x) => r.Ok? && r.value.contents == [x]
                case Err(e) => r == Err(e)
      ensures contents != [] && index.SliceIndex? ==>
                match Slice(contents, index.start, index.stop, index.step)
                case Ok(xs) => r.Ok? && r.value.contents == xs
                case Err(e) => r == Err(e)
      ensures contents != [] && index.OtherIndex? ==> r == Err(InvalidIndexType)
    {
      var pylist := ToList();
      if pylist.Err? {
        return Err(pylist.error);
      }
      var returnList := new LinkedList<T>();
      match index {
        case IntIndex(i) =>
          var x := Subscript(pylist.value, i);
          if x.Err? {
            return Err(x.error);
          }
          returnList.Append([x.value]);
        case SliceIndex(start, stop, step) =>
          var xs := Slice(pylist.value, start, stop, step);
          if xs.Err? {
            return Err(xs.error);
          }
          returnList.Append(xs.value);
        case OtherIndex =>
          return Err(InvalidIndexType);
      }
      return Ok(returnList);
    }

    /** `l[index] = value`: overwrites the data of the node `index` steps from
        head, in place. A negative index takes no step and so overwrites the
        head; a walk that runs off the chain fails; a non-integer index is
        refused before anything changes. */
    method SetItem(index: Index, value: T) returns (r: Outcome)
      requires Valid()
      modifies Repr
      ensures Valid() && Repr == old(Repr) && nodes == old(nodes)
      ensures r.Pass? <==> index.IntIndex? && old(contents) != [] && index.i < |old(contents)|
      ensures !index.IntIndex? ==> r == Fail(InvalidIndexType)
      ensures index.IntIndex? && r.Fail? ==> r.error == NoneAccess
      ensures r.Pass? ==> contents == old(contents)[(if index.i < 0 then 0 else index.i) := value]
      ensures r.Fail? ==> contents == old(contents)
    {
      if !index.IntIndex? {
        return Fail(InvalidIndexType);
      }
      var temp := head;
      var steps := 0;
      while steps < index.i
        invariant 0 <= steps <= |nodes|
        invariant steps <= if index.i < 0 then 0 else index.i
        invariant temp == if steps < |nodes| then nodes[steps] else null
        decreases index.i - steps
      {
        if temp == null {
          return Fail(NoneAccess);
        }
        assert LinkedAt(nodes, contents, steps);
        temp := temp.next;
        steps := steps + 1;
      }
      if temp == null {
        return Fail(NoneAccess);
      }
      ghost var cs0 := contents;
      temp.data := value;
      contents := contents[steps := value];
      forall j | 0 <= j < |nodes| ensures LinkedAt(nodes, contents, j) {
        assert old(LinkedAt(nodes, cs0, j));
        if j != steps {
          assert nodes[j] != temp;
        }
      }
      return Pass;
    }

    /** The number of nodes in the chain. */
    method Length() returns (length: nat)
      requires Valid()
      ensures length == |contents|
    {
      var temp := head;
      length := 0;
      while temp != null
        invariant length <= |nodes|
        invariant temp == if length < |nodes| then nodes[length] else null
        decreases |nodes| - length
      {
        assert LinkedAt(nodes, contents, length);
        length := length + 1;
        temp := temp.next;
      }
    }
  }
}
