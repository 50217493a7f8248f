# Singly-linked list with indexing and slicing — a Dafny model

This project models `linked_list.py`, a singly-linked list whose `LinkedList`
object owns a chain of `Node` records starting at `head`. The list supports
`append` of any number of values (walking to the tail for each one), removal
of the first equal value, conversion to a Python list, a never-raising `get`,
subscription with an integer or a slice (which builds a fresh list),
item assignment in place, and `len`.

The model is imperative, like the source:

- `LinkedLists.Node` is a class with a mutable `data` payload and a `next`
  link, and `LinkedLists.LinkedList` is a class with a mutable `head`.
- Each list keeps three ghost fields: `contents` (the values front to back),
  `nodes` (the nodes front to back) and `Repr` (the list and the nodes it owns).
- `Valid()` says that the chain from `head` visits exactly `nodes`, each node
  once (so the chain is acyclic), ends in null, and spells out `contents`.
- Every method walks the chain with the same cursor loops as the source. Each
  one is proved against `contents`, and those that change the chain also say
  what becomes of `nodes`.
- Python exceptions become `Results.Error` values returned in a `Result` or
  `Outcome`.
- The index of `l[i]` is the datatype `LinkedLists.Index`: an integer, a slice
  with optional bounds and step, or anything else.
- The Python list semantics that the source relies on are modelled from
  CPython's behaviour in module `PySeq`: subscription with negative indices,
  and slicing with clamped bounds (`PySlice_AdjustIndices`). The elements of a
  slice come from a walk `start, start + step, …` that stops at the adjusted
  `stop`.
- Module `ListProperties` holds client methods that combine several
  operations and use only their contracts.

Where the code and its doc-comments disagree, the model follows the code:

- `get` with a negative index takes no step (`range(index)` is empty), so it
  returns the head's value rather than None.
- `__setitem__` with a negative index overwrites the head for the same reason.
- `__setitem__` past the end, or on an empty list, fails with an
  AttributeError on None, not the documented IndexError. In the model this is
  `NoneAccess`.
- `__getitem__` calls `to_pylist` first, so any subscription of an empty list
  fails with the "no values" ValueError (`EmptyList`). That comes before the
  IndexError and TypeError checks.

## Model

| member | source | states |
|---|---|---|
| `LinkedLists.Node.constructor` | linked_list.py:6-9 | a new node holds the given data and has no successor |
| `LinkedLists.LinkedList.constructor` | linked_list.py:54-55 | a new list is valid, has no head, no nodes, and empty contents |
| `LinkedLists.LinkedList.Append` | linked_list.py:57-79 | keeps the chain valid and acyclic; new contents are the old contents followed by all the values in order; every old node stays, in the same place; only fresh nodes are added; no values means no change |
| `LinkedLists.LinkedList.AttachAfter` | linked_list.py:73-79 | after the walk has reached the tail, a fresh node holding the value is linked after it; the old nodes are a prefix of the new chain |
| `LinkedLists.LinkedList.DisplayElements` | linked_list.py:89-90 | fails with EmptyList exactly when the list has no values |
| `LinkedLists.LinkedList.Remove` | linked_list.py:101-134 | if the value occurs, succeeds; the new contents are the old contents with only the first equal element deleted; the new nodes are the old nodes with only that element's node removed; otherwise fails with NotFound and changes neither contents nor nodes; no node is added |
| `LinkedLists.LinkedList.UnlinkHead` | linked_list.py:120-121 | when the match is the head, head moves to its successor: contents and nodes lose their first element and the node leaves Repr |
| `LinkedLists.LinkedList.UnlinkAfter` | linked_list.py:123-124 | when the match is node i > 0, the predecessor's link skips it: contents and nodes lose exactly position i and the node leaves Repr |
| `LinkedLists.LinkedList.ToList` | linked_list.py:136-158 | returns exactly the contents, in order, and changes nothing; fails with EmptyList (not an empty list) when there is no head |
| `LinkedLists.LinkedList.Get` | linked_list.py:160-180 | for 0 <= i < length returns the i-th value; a negative i on a non-empty list returns the first value; i >= length or an empty list gives None; never fails, never changes the list |
| `LinkedLists.LinkedList.GetItem` | linked_list.py:195-207 | an empty list fails with EmptyList whatever the index; otherwise an integer gives a fresh valid list holding only the Python-subscripted element, or fails with IndexOutOfRange; a slice gives a fresh valid list holding the Python slice of the contents, or fails with ZeroSliceStep; any other index fails with InvalidIndexType; the source list is not modified |
| `LinkedLists.LinkedList.SetItem` | linked_list.py:209-232 | succeeds exactly for an integer index below the length of a non-empty list; then sets the value at that index, or at position 0 for a negative index, and nothing else; the nodes and Repr are unchanged; a non-integer index fails with InvalidIndexType, and running off the chain fails with NoneAccess, both leaving contents unchanged |
| `LinkedLists.LinkedList.Length` | linked_list.py:234-247 | returns the number of values, 0 for an empty list, and changes nothing |
| `PySeq.Subscript` | linked_list.py:199 | Python list subscription: defined exactly for -n <= i < n; a non-negative index reads position i; a negative one reads position n + i; otherwise IndexOutOfRange |
| `PySeq.SubscriptWrapAgrees` | linked_list.py:199 | the negative index i - n selects the same element as the index i |
| `PySeq.ClampBound` | linked_list.py:202 | an explicit slice bound lands in [0, n] for a positive step and in [-1, n) for a negative step; an in-range bound is kept, and a negative one counts from the end |
| `PySeq.StartOf` | linked_list.py:202 | the adjusted start of a slice lies within the range that the walk may use for the step's direction |
| `PySeq.StopOf` | linked_list.py:202 | the adjusted stop of a slice lies within the range that the walk may use for the step's direction |
| `PySeq.Up` | linked_list.py:202 | a forward slice walk yields at most stop - cur elements, each taken from the sequence |
| `PySeq.Down` | linked_list.py:202 | a backward slice walk yields at most cur - stop elements, each taken from the sequence |
| `PySeq.Slice` | linked_list.py:202 | fails with ZeroSliceStep exactly when the step is 0; otherwise the result is no longer than the sequence and holds only its elements |
| `PySeq.UpByOne` | linked_list.py:202 | a unit-step walk reads the contiguous run between the bounds |
| `PySeq.DownByOne` | linked_list.py:202 | a walk back by one from position c reads positions c, c - 1, ..., 0 |
| `PySeq.UpElements` | linked_list.py:202 | a forward walk with step k reads position cur + j*k as its element j, each such position before stop, and stops at the first position at or past stop |
| `PySeq.DownElements` | linked_list.py:202 | a backward walk with step k < 0 reads position cur + j*k as its element j, each such position after stop, and stops at the first position at or before stop |
| `PySeq.SliceElements` | linked_list.py:202 | for any non-zero step k, element j of `s[start:stop:k]` is s at lo + j*k from the adjusted start lo, every such position lies strictly on the near side of the adjusted stop hi, the slice is empty when the bounds cross, and otherwise lo + n*k lies at or beyond hi for its length n |
| `PySeq.SliceUnitStep` | linked_list.py:202 | with step 1 or no step, the slice is the contiguous run between the adjusted bounds, or empty when they cross |
| `PySeq.SliceCopy` | linked_list.py:202 | `s[:]` equals s |
| `PySeq.SliceReversed` | linked_list.py:40 | `s[::-1]` has the length of s and holds s's elements in reverse order |
| `PySeq.RemoveFirst` | linked_list.py:117-127 | the reference definition of `remove`'s effect on the values: one element shorter when the value occurs and the same length otherwise, holding only elements of the input; `RemoveFirstSplits`, `RemoveFirstAbsent` and `RemoveFirstCounts` then pin it down exactly |
| `PySeq.FirstIndex` | linked_list.py:117-127 | for a value that occurs, its position is where the value sits and the value does not occur earlier, so this is the first match the scan stops at |
| `PySeq.FirstIndexUnique` | linked_list.py:117-127 | any position holding the value with no earlier occurrence is the first index |
| `PySeq.RemoveFirstSplits` | linked_list.py:117-127 | removing a present value deletes exactly the element at its first occurrence and keeps every other element in order |
| `PySeq.RemoveFirstAbsent` | linked_list.py:133-134 | removing an absent value leaves the sequence unchanged |
| `PySeq.RemoveFirstCounts` | linked_list.py:117-127 | removing a present value shortens the sequence by one and takes out exactly one copy of that value (multiset difference) |
| `ListProperties.AppendThenToList` | linked_list.py:57-79 | appending values to a new list and converting it back gives exactly those values; no values give EmptyList |
| `ListProperties.LengthAgreesWithToList` | linked_list.py:234-247 | `len` equals the length of `to_pylist`'s result, and is 0 exactly when `to_pylist` fails |
| `ListProperties.AppendNothing` | linked_list.py:69 | `append()` with no values leaves contents and nodes unchanged |
| `ListProperties.ReversedCopy` | linked_list.py:270 | `l[::-1]` on a non-empty list is a fresh list holding the values in reverse order |
| `ListProperties.FullCopy` | linked_list.py:201-202 | `l[:]` on a non-empty list is a fresh list equal in value to l |
| `ListProperties.SetThenGet` | linked_list.py:223-229 | after `l[i] = v` inside the list, `get(i)` gives v and `get(j)` for j != i gives the old value |
| `ListProperties.RemoveThenToList` | linked_list.py:113-127 | after removing a present value, `to_pylist` gives the old values without their first copy of it, or EmptyList if nothing is left |

## Left out

- The printing in `display_elements` (linked_list.py:94-99) is console output and is not modelled. Only its emptiness check is.
- The `__main__` demonstration script (linked_list.py:250-277) is driver code. The `for i in l1` iteration that it uses goes through Python's legacy `__getitem__` protocol, which is not modelled.
- Exception classes and messages are collapsed into the `Results.Error` variants. The AttributeError of `__setitem__` past the end is `NoneAccess`.
- Dynamic typing and `isinstance` dispatch are replaced by a generic payload type `T` with equality and by the `Index` datatype. So `bool` indices (a subclass of `int`) and slices whose bounds are not integers, which make Python raise a TypeError, are not modelled.
- Slice bounds, slice steps and integer indices are unbounded integers. CPython clamps slice bounds and the step to the machine word before adjusting them, which gives the same slice for any list that fits in memory. An integer subscript too large for a machine word raises IndexError in CPython, which is what `PySeq.Subscript` returns for any index outside the list. `range(index)` in `get` and `__setitem__` takes an integer of any size, as the unbounded loops of `Get` and `SetItem` do.
- `del temp` (linked_list.py:126) and garbage collection have no observable effect beyond the node leaving the chain and `Repr`.
- The doc-comment warning that storing None loses data (linked_list.py:51) is not imposed. The code tests whether nodes are present, never the data. `get`'s `Option` result keeps a stored value apart from the absence marker, which Python's bare `None` cannot do.
