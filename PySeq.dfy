/** The semantics of Python list operations that the linked list relies on:
    subscription with a possibly negative index, slicing with clamped
    bounds, and removal of the first equal element. */
module PySeq {
  import opened Results

  /** `s[i]` on a Python list: an index in [-|s|, |s|) counts from the end
      when negative; any other index raises IndexError. */
  function Subscript<T>(s: seq<T>, i: int): (r: Result<T>)
    ensures r.Ok? <==> -|s| <= i < |s|
    ensures r.Err? ==> r.error == IndexOutOfRange
    ensures r.Ok? && 0 <= i ==> r.value == s[i]
    ensures r.Ok? && i < 0 ==> r.value == s[|s| + i]
  {
    if 0 <= i < |s| then Ok(s[i])
    else if -|s| <= i < 0 then Ok(s[|s| + i])
    else Err(IndexOutOfRange)
  }

  /** A negative index and its non-negative counterpart name the same element. */
  lemma SubscriptWrapAgrees<T>(s: seq<T>, i: int)
    requires 0 <= i < |s|
    ensures Subscript(s, i - |s|) == Subscript(s, i)
  {
  }

  /** One explicit slice bound adjusted to a sequence of length n, as CPython
      does it: a negative bound counts from the end, and a bound that is still
      out of range is clamped to the first or last position the walk may use
      (which depends on the direction of the step). */
  function ClampBound(n: nat, bound: int, step: int): (r: int)
    requires step != 0
    ensures step > 0 ==> 0 <= r <= n
    ensures step < 0 ==> -1 <= r < n
    ensures bound < 0 && 0 <= bound + n ==> r == bound + n
    ensures 0 <= bound < n ==> r == bound
  {
    if bound < 0 then
      if bound + n < 0 then (if step < 0 then -1 else 0) else bound + n
    else if bound >= n then
      if step < 0 then n - 1 else n
    else bound
  }

  /** The first position of a slice walk: an omitted start is the front for a
      positive step and the back for a negative one. */
  function StartOf(n: nat, start: Option<int>, step: int): (r: int)
    requires step != 0
    ensures step > 0 ==> 0 <= r <= n
    ensures step < 0 ==> -1 <= r < n
  {
    match start
    case None => if step < 0 then n - 1 else 0
    case Some(b) => ClampBound(n, b, step)
  }

  /** The position where a slice walk stops (exclusive): an omitted stop is
      past the back for a positive step and before the front for a negative one. */
  function StopOf(n: nat, stop: Option<int>, step: int): (r: int)
    requires step != 0
    ensures step > 0 ==> 0 <= r <= n
    ensures step < 0 ==> -1 <= r < n
  {
    match stop
    case None => if step < 0 then -1 else n
    case Some(b) => ClampBound(n, b, step)
  }

  /** The elements at cur, cur + step, ... that lie before stop (positive step). */
  function Up<T>(s: seq<T>, cur: int, stop: int, step: int): (r: seq<T>)
    requires 0 <= cur && stop <= |s| && step > 0
    ensures |r| <= if cur < stop then stop - cur else 0
    ensures forall x :: x in r ==> x in s
    decreases stop - cur
  {
    if cur >= stop then [] else [s[cur]] + Up(s, cur + step, stop, step)
  }

  /** The elements at cur, cur + step, ... that lie after stop (negative step). */
  function Down<T>(s: seq<T>, cur: int, stop: int, step: int): (r: seq<T>)
    requires cur < |s| && -1 <= stop && step < 0
    ensures |r| <= if stop < cur then cur - stop else 0
    ensures forall x :: x in r ==> x in s
    decreases cur - stop
  {
    if cur <= stop then [] else [s[cur]] + Down(s, cur + step, stop, step)
  }

  /** `s[start:stop:step]` on a Python list: an omitted step is 1, a zero step
      raises ValueError, and out-of-range bounds clamp instead of raising. */
  function Slice<T>(s: seq<T>, start: Option<int>, stop: Option<int>, step: Option<int>): (r: Result<seq<T>>)
    ensures r.Err? <==> step == Some(0)
    ensures r.Err? ==> r.error == ZeroSliceStep
    ensures r.Ok? ==> |r.value| <= |s| && forall x :: x in r.value ==> x in s
  {
    var k := match step case None => 1 case Some(k) => k;
    if k == 0 then Err(ZeroSliceStep)
    else
      var lo, hi := StartOf(|s|, start, k), StopOf(|s|, stop, k);
      if k > 0 then Ok(Up(s, lo, hi, k)) else Ok(Down(s, lo, hi, k))
  }

  /** A unit-step walk from cur reads the contiguous run up to stop. */
  lemma {:induction false} UpByOne<T>(s: seq<T>, cur: nat, stop: nat)
    requires stop <= |s|
    ensures Up(s, cur, stop, 1) == if cur < stop then s[cur..stop] else []
    decreases stop - cur
  {
    if cur < stop {
      UpByOne(s, cur + 1, stop);
      assert s[cur..stop] == [s[cur]] + (if cur + 1 < stop then s[cur + 1..stop] else []);
    }
  }

  /** A walk backwards by one from cur reads s[cur], s[cur - 1], ..., s[0]. */
  lemma {:induction false} DownByOne<T>(s: seq<T>, cur: int)
    requires -1 <= cur < |s|
    ensures |Down(s, cur, -1, -1)| == cur + 1
    ensures forall i :: 0 <= i <= cur ==> Down(s, cur, -1, -1)[i] == s[cur - i]
    decreases cur + 1
  {
    if cur >= 0 {
      DownByOne(s, cur - 1);
      var rest := Down(s, cur - 1, -1, -1);
      assert Down(s, cur, -1, -1) == [s[cur]] + rest;
    }
  }

  /** Moving one more step along a walk adds one more step to its offset. */
  lemma MulSucc(j: int, step: int)
    ensures j * step + step == (j + 1) * step
  {
  }

  /** A forward walk reads s[cur], s[cur + step], ...: element j sits at
      cur + j * step, every position it reads lies before stop, and the next
      position after the last one read is at or past stop. */
  lemma {:induction false} UpElements<T>(s: seq<T>, cur: int, stop: int, step: int)
    requires 0 <= cur && stop <= |s| && step > 0
    ensures var r := Up(s, cur, stop, step);
            (cur < stop ==> stop <= cur + |r| * step) &&
            forall j :: 0 <= j < |r| ==> cur <= cur + j * step < stop && r[j] == s[cur + j * step]
    decreases stop - cur
  {
    if cur < stop {
      UpElements(s, cur + step, stop, step);
      var rest := Up(s, cur + step, stop, step);
      var r := [s[cur]] + rest;
      MulSucc(|rest|, step);
      forall j | 1 <= j < |r| ensures cur <= cur + j * step < stop && r[j] == s[cur + j * step] {
        MulSucc(j - 1, step);
        assert r[j] == rest[j - 1];
      }
    }
  }

  /** A backward walk (step < 0) reads s[cur], s[cur + step], ...: element j
      sits at cur + j * step, every position it reads lies after stop, and the
      next position after the last one read is at or before stop. */
  lemma {:induction false} DownElements<T>(s: seq<T>, cur: int, stop: int, step: int)
    requires cur < |s| && -1 <= stop && step < 0
    ensures var r := Down(s, cur, stop, step);
            (stop < cur ==> cur + |r| * step <= stop) &&
            forall j :: 0 <= j < |r| ==> stop < cur + j * step <= cur && r[j] == s[cur + j * step]
    decreases cur - stop
  {
    if stop < cur {
      DownElements(s, cur + step, stop, step);
      var rest := Down(s, cur + step, stop, step);
      var r := [s[cur]] + rest;
      MulSucc(|rest|, step);
      forall j | 1 <= j < |r| ensures stop < cur + j * step <= cur && r[j] == s[cur + j * step] {
        MulSucc(j - 1, step);
        assert r[j] == rest[j - 1];
      }
    }
  }

  /** A slice with any non-zero step k reads s[lo], s[lo + k], s[lo + 2k], ...
      from the adjusted start lo for as long as the position is before the
      adjusted stop hi (after it, for a negative step); so it is empty when the
      bounds cross, and otherwise its length n is the least with lo + n * k
      past hi. */
  lemma SliceElements<T>(s: seq<T>, start: Option<int>, stop: Option<int>, step: Option<int>)
    requires step != Some(0)
    ensures var k := if step.Some? then step.value else 1;
            var lo, hi := StartOf(|s|, start, k), StopOf(|s|, stop, k);
            var r := Slice(s, start, stop, step).value;
            (k > 0 ==> (lo < hi ==> hi <= lo + |r| * k) && (hi <= lo ==> r == []) &&
                       forall j :: 0 <= j < |r| ==> lo <= lo + j * k < hi && r[j] == s[lo + j * k]) &&
            (k < 0 ==> (hi < lo ==> lo + |r| * k <= hi) && (lo <= hi ==> r == []) &&
                       forall j :: 0 <= j < |r| ==> hi < lo + j * k <= lo && r[j] == s[lo + j * k])
  {
    var k := if step.Some? then step.value else 1;
    var lo, hi := StartOf(|s|, start, k), StopOf(|s|, stop, k);
    if k > 0 {
      UpElements(s, lo, hi, k);
    } else {
      DownElements(s, lo, hi, k);
    }
  }

  /** With step 1 (written or omitted) a slice is the contiguous run between
      the adjusted bounds, or empty when they cross. */
  lemma SliceUnitStep<T>(s: seq<T>, start: Option<int>, stop: Option<int>, step: Option<int>)
    requires step == None || step == Some(1)
    ensures var lo, hi := StartOf(|s|, start, 1), StopOf(|s|, stop, 1);
            Slice(s, start, stop, step) == Ok(if lo < hi then s[lo..hi] else [])
  {
    UpByOne(s, StartOf(|s|, start, 1), StopOf(|s|, stop, 1));
  }

  /** `s[:]` is an equal copy of s. */
  lemma SliceCopy<T>(s: seq<T>)
    ensures Slice(s, None, None, None) == Ok(s)
  {
    SliceUnitStep(s, None, None, None);
    assert s[0..|s|] == s;
  }

  /** `s[::-1]` is s reversed. */
  lemma SliceReversed<T>(s: seq<T>)
    ensures Slice(s, None, None, Some(-1)).Ok?
    ensures var r := Slice(s, None, None, Some(-1)).value;
            |r| == |s| && forall i :: 0 <= i < |s| ==> r[i] == s[|s| - 1 - i]
  {
    DownByOne(s, |s| - 1);
  }

  /** The position of the first element of s equal to v. */
  function FirstIndex<T(==)>(s: seq<T>, v: T): (i: nat)
    requires v in s
    ensures i < |s| && s[i] == v && v !in s[..i]
  {
    if s[0] == v then 0
    else
      var j := FirstIndex(s[1..], v);
      assert s[..j + 1] == [s[0]] + s[1..][..j];
      j + 1
  }

  /** s with its first element equal to v deleted (s itself when there is none). */
  function RemoveFirst<T(==)>(s: seq<T>, v: T): (r: seq<T>)
    ensures |r| == if v in s then |s| - 1 else |s|
    ensures forall x :: x in r ==> x in s
  {
    if s == [] then []
    else if s[0] == v then s[1..]
    else [s[0]] + RemoveFirst(s[1..], v)
  }

  /** Removing v deletes exactly the element at its first occurrence and keeps
      everything else in order. */
  lemma {:induction false} RemoveFirstSplits<T>(s: seq<T>, v: T)
    requires v in s
    ensures var i := FirstIndex(s, v); RemoveFirst(s, v) == s[..i] + s[i + 1..]
  {
    if s[0] != v {
      RemoveFirstSplits(s[1..], v);
      var j := FirstIndex(s[1..], v);
      assert s[..j + 1] == [s[0]] + s[1..][..j];
      assert s[j + 2..] == s[1..][j + 1..];
    }
  }

  /** Removing an absent value changes nothing. */
  lemma {:induction false} RemoveFirstAbsent<T>(s: seq<T>, v: T)
    requires v !in s
    ensures RemoveFirst(s, v) == s
  {
    if s != [] {
      RemoveFirstAbsent(s[1..], v);
    }
  }

  /** Removing a present value drops one element: one copy of v, and only it. */
  lemma {:induction false} RemoveFirstCounts<T>(s: seq<T>, v: T)
    requires v in s
    ensures |RemoveFirst(s, v)| == |s| - 1
    ensures multiset(RemoveFirst(s, v)) == multiset(s) - multiset{v}
  {
    if s[0] == v {
      assert s == [s[0]] + s[1..];
    } else {
      RemoveFirstCounts(s[1..], v);
      assert s == [s[0]] + s[1..];
    }
  }

  /** Whatever index finds v first is the index FirstIndex names. */
  lemma FirstIndexUnique<T>(s: seq<T>, v: T, i: nat)
    requires i < |s| && s[i] == v && v !in s[..i]
    ensures FirstIndex(s, v) == i
  {
  }
}
