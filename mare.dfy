/**
 * Package `mare`: tilde expansion and generic slice helpers. The helpers
 * are loops that append to, or write by index into, an output slice; each
 * is proved against a function that states what it computes.
 */
module Mare {
  import opened Wrappers
  import opened Strings

  const Tilde: char := '~'

  /**
   * `ExpandUser`: the first `~` in `path` becomes `home`, the value of
   * HOME in the environment (passed in here).
   */
  function ExpandUser(path: string, home: string): (r: string)
    ensures Tilde !in path ==> r == path
    ensures Tilde in path ==> exists i ::
              && 0 <= i < |path|
              && path[i] == Tilde
              && Tilde !in path[..i]
              && r == path[..i] + home + path[i + 1..]
  {
    ReplaceFirst(path, Tilde, home)
  }

  /** With home "/h", "~/a~" becomes "/h/a~": only the first `~` is replaced. */
  lemma ExpandUserExample()
    ensures ExpandUser("~/a~", "/h") == "/h/a~"
  {
  }

  // ---------------------------------------------------------------------
  // Filter
  // ---------------------------------------------------------------------

  /** The items satisfying `f`, in their order: the value that `Filter` builds. */
  function Filtered<T>(items: seq<T>, f: T -> bool): (r: seq<T>)
    ensures |r| <= |items|
    decreases |items|
  {
    if items == [] then []
    else
      var last := items[|items| - 1];
      Filtered(items[..|items| - 1], f) + (if f(last) then [last] else [])
  }

  /** `idx` lists, in increasing order, positions of `s` whose elements make up `r`. */
  ghost predicate SelectedBy<T>(r: seq<T>, s: seq<T>, idx: seq<nat>)
  {
    && |idx| == |r|
    && (forall k :: 0 <= k < |idx| ==> idx[k] < |s| && r[k] == s[idx[k]])
    && (forall k, l :: 0 <= k < l < |idx| ==> idx[k] < idx[l])
  }

  /**
   * The filtered sequence is the subsequence of `items` at exactly the
   * positions where `f` holds: order is kept, nothing else is kept and
   * nothing satisfying `f` is dropped.
   */
  lemma {:induction false} FilteredSelects<T>(items: seq<T>, f: T -> bool) returns (idx: seq<nat>)
    ensures SelectedBy(Filtered(items, f), items, idx)
    ensures forall i :: 0 <= i < |items| ==> (f(items[i]) <==> i in idx)
    decreases |items|
  {
    if items == [] {
      idx := [];
    } else {
      var n := |items| - 1;
      var init := items[..n];
      var prev := FilteredSelects(init, f);
      var r := Filtered(items, f);
      if f(items[n]) {
        idx := prev + [n];
        assert r == Filtered(init, f) + [items[n]];
      } else {
        idx := prev;
        assert r == Filtered(init, f);
      }
      forall i | 0 <= i < |items| ensures f(items[i]) <==> i in idx {
        if i < n {
          assert items[i] == init[i];
        } else {
          assert forall k :: 0 <= k < |prev| ==> prev[k] < n;
        }
      }
    }
  }

  /** Every kept item satisfies `f`, and every item satisfying `f` is kept. */
  lemma {:induction false} FilteredMembers<T>(items: seq<T>, f: T -> bool, x: T)
    ensures x in Filtered(items, f) <==> x in items && f(x)
    decreases |items|
  {
    if items != [] {
      var n := |items| - 1;
      FilteredMembers(items[..n], f, x);
      assert items == items[..n] + [items[n]];
    }
  }

  /**
   * `Filter`: walk the items and append the matching ones.
   */
  method Filter<T>(items: seq<T>, f: T -> bool) returns (matchingItems: seq<T>)
    ensures matchingItems == Filtered(items, f)
  {
    matchingItems := [];
    for i := 0 to |items|
      invariant matchingItems == Filtered(items[..i], f)
    {
      assert items[..i + 1][..i] == items[..i];
      if f(items[i]) {
        matchingItems := matchingItems + [items[i]];
      }
    }
    assert items[..|items|] == items;
  }

  // ---------------------------------------------------------------------
  // Map and MapToString
  // ---------------------------------------------------------------------

  /**
   * `Map`: a slice of the same length whose i-th item is `f` of the i-th
   * input, written by index into a preallocated buffer.
   */
  method Map<T(0)>(items: seq<T>, f: T -> T) returns (outputItems: seq<T>)
    ensures |outputItems| == |items|
    ensures forall i :: 0 <= i < |items| ==> outputItems[i] == f(items[i])
  {
    var buffer := new T[|items|];
    for index := 0 to |items|
      invariant forall j :: 0 <= j < index ==> buffer[j] == f(items[j])
    {
      buffer[index] := f(items[index]);
    }
    outputItems := buffer[..];
  }

  /** `MapToString`: the same as `Map`, for a function producing strings. */
  method MapToString<T>(items: seq<T>, f: T -> string) returns (outputItems: seq<string>)
    ensures |outputItems| == |items|
    ensures forall i :: 0 <= i < |items| ==> outputItems[i] == f(items[i])
  {
    var buffer := new string[|items|];
    for index := 0 to |items|
      invariant forall j :: 0 <= j < index ==> buffer[j] == f(items[j])
    {
      buffer[index] := f(items[index]);
    }
    outputItems := buffer[..];
  }

  // ---------------------------------------------------------------------
  // FlatMap
  // ---------------------------------------------------------------------

  /** The concatenation of the lists, first to last. */
  function Concat<T>(lists: seq<seq<T>>): seq<T>
  {
    if lists == [] then [] else lists[0] + Concat(lists[1..])
  }

  /** The sum of the lengths of the lists. */
  function TotalLength<T>(lists: seq<seq<T>>): nat
  {
    if lists == [] then 0 else |lists[0]| + TotalLength(lists[1..])
  }

  /** `f` applied to each item, in order. */
  function Apply<T>(items: seq<T>, f: T -> seq<T>): (lists: seq<seq<T>>)
    ensures |lists| == |items|
    ensures forall i :: 0 <= i < |items| ==> lists[i] == f(items[i])
  {
    seq(|items|, i requires 0 <= i < |items| => f(items[i]))
  }

  /** Concatenating one more list appends it at the end. */
  lemma {:induction false} ConcatSnoc<T>(lists: seq<seq<T>>, last: seq<T>)
    ensures Concat(lists + [last]) == Concat(lists) + last
    decreases |lists|
  {
    if lists == [] {
      assert [] + [last] == [last];
      assert [last][1..] == [];
    } else {
      assert (lists + [last])[1..] == lists[1..] + [last];
      ConcatSnoc(lists[1..], last);
    }
  }

  /** The concatenation is as long as all its lists together. */
  lemma {:induction false} ConcatLength<T>(lists: seq<seq<T>>)
    ensures |Concat(lists)| == TotalLength(lists)
    decreases |lists|
  {
    if lists != [] {
      ConcatLength(lists[1..]);
    }
  }

  /** An element is in the concatenation exactly when it is in one of the lists. */
  lemma {:induction false} ConcatMembers<T>(lists: seq<seq<T>>, x: T)
    ensures x in Concat(lists) <==> exists i :: 0 <= i < |lists| && x in lists[i]
    decreases |lists|
  {
    if lists != [] {
      ConcatMembers(lists[1..], x);
      if x !in lists[0] && exists i :: 0 <= i < |lists| && x in lists[i] {
        var i :| 0 <= i < |lists| && x in lists[i];
        assert x in lists[1..][i - 1];
      }
    }
  }

  /**
   * `FlatMap`: walk the items and append all of `f(item)` for each; the
   * result is `f(items[0]) + ... + f(items[n-1])`.
   */
  method FlatMap<T>(items: seq<T>, f: T -> seq<T>) returns (outputItems: seq<T>)
    ensures outputItems == Concat(Apply(items, f))
  {
    outputItems := [];
    for i := 0 to |items|
      invariant outputItems == Concat(Apply(items[..i], f))
    {
      var outputList := f(items[i]);
      assert Apply(items[..i + 1], f) == Apply(items[..i], f) + [outputList];
      ConcatSnoc(Apply(items[..i], f), outputList);
      outputItems := outputItems + outputList;
    }
    assert items[..|items|] == items;
  }

  // ---------------------------------------------------------------------
  // Contains
  // ---------------------------------------------------------------------

  /** `Contains`: whether some position of `arr` holds `item`; false when empty. */
  method Contains<T(==)>(arr: seq<T>, item: T) returns (found: bool)
    ensures found <==> exists i :: 0 <= i < |arr| && arr[i] == item
  {
    for i := 0 to |arr|
      invariant forall j :: 0 <= j < i ==> arr[j] != item
    {
      if arr[i] == item {
        return true;
      }
    }
    return false;
  }
}
