/** JavaScript's `Array.prototype.sort` with the numeric comparator `(a, b) => a - b`, on arrays
    that may hold `undefined`. `undefined` entries never reach the comparator: they are moved to
    the end, after the numbers in ascending order.

    The functions carry only their length facts; what they mean (sorted, a permutation, where
    the `undefined` entries go) is stated by the lemmas beside them. */
module Sorting {

  datatype Option<T> = None | Some(value: T)

  predicate Sorted(s: seq<int>)
  {
    forall i, j :: 0 <= i < j < |s| ==> s[i] <= s[j]
  }

  /** Inserts `x` before the first element of `s` that is not smaller. */
  function Insert(x: int, s: seq<int>): (r: seq<int>)
    ensures |r| == |s| + 1
  {
    if s == [] || x <= s[0] then [x] + s else [s[0]] + Insert(x, s[1..])
  }

  /** A number followed by an ascending sequence that starts no lower is ascending. */
  lemma SortedCons(a: int, s: seq<int>)
    requires Sorted(s) && (s != [] ==> a <= s[0])
    ensures Sorted([a] + s)
  {
    var r := [a] + s;
    forall i, j | 0 <= i < j < |r|
      ensures r[i] <= r[j]
    {
      if i == 0 {
        assert r[j] == s[j - 1] && s[0] <= s[j - 1];
      } else {
        assert r[i] == s[i - 1] && r[j] == s[j - 1];
      }
    }
  }

  /** Inserting into an ascending sequence keeps it ascending. */
  lemma {:induction false} InsertSorted(x: int, s: seq<int>)
    requires Sorted(s)
    ensures Sorted(Insert(x, s))
  {
    if s == [] || x <= s[0] {
      SortedCons(x, s);
    } else {
      var tail := s[1..];
      assert Sorted(tail);
      InsertSorted(x, tail);
      var rest := Insert(x, tail);
      assert rest[0] == x || rest[0] == s[1];
      SortedCons(s[0], rest);
    }
  }

  /** Inserting adds exactly `x`. */
  lemma {:induction false} InsertMultiset(x: int, s: seq<int>)
    ensures multiset(Insert(x, s)) == multiset(s) + multiset{x}
  {
    if s != [] && x > s[0] {
      assert s == [s[0]] + s[1..];
      InsertMultiset(x, s[1..]);
    }
  }

  /** The numbers of `s` in ascending order (insertion sort). */
  function Sort(s: seq<int>): (r: seq<int>)
    ensures |r| == |s|
  {
    if s == [] then [] else Insert(s[0], Sort(s[1..]))
  }

  /** `Sort` returns an ascending permutation of its input. */
  lemma {:induction false} SortSorted(s: seq<int>)
    ensures Sorted(Sort(s))
    ensures multiset(Sort(s)) == multiset(s)
  {
    if s != [] {
      assert s == [s[0]] + s[1..];
      SortSorted(s[1..]);
      InsertSorted(s[0], Sort(s[1..]));
      InsertMultiset(s[0], Sort(s[1..]));
    }
  }

  /** An element of a sorted copy is an element of the original. */
  lemma SortedElement(s: seq<int>, i: nat)
    requires i < |s|
    ensures Sort(s)[i] in s
  {
    SortSorted(s);
    var r := Sort(s);
    assert r[i] in multiset(r);
  }

  /** The numbers among `vals`, in their order. */
  function Defined(vals: seq<Option<int>>): (r: seq<int>)
    ensures |r| <= |vals|
  {
    if vals == [] then []
    else if vals[0].Some? then [vals[0].value] + Defined(vals[1..])
    else Defined(vals[1..])
  }

  /** The numbers kept by `Defined` are exactly the numbers of `vals`. */
  lemma {:induction false} DefinedMembers(vals: seq<Option<int>>, v: int)
    ensures v in Defined(vals) <==> Some(v) in vals
  {
    if vals != [] {
      assert vals == [vals[0]] + vals[1..];
      DefinedMembers(vals[1..], v);
    }
  }

  /** If every entry of `vals` from `lo` up to `hi` is a number, at least `hi - lo` numbers are
      kept. */
  lemma {:induction false} DefinedAtLeast(vals: seq<Option<int>>, lo: nat, hi: nat)
    requires lo <= hi <= |vals|
    requires forall j :: lo <= j < hi ==> vals[j].Some?
    ensures |Defined(vals)| >= hi - lo
  {
    if hi > 0 {
      if lo == 0 {
        DefinedAtLeast(vals[1..], 0, hi - 1);
      } else {
        DefinedAtLeast(vals[1..], lo - 1, hi - 1);
      }
    }
  }

  /** The number of `undefined` entries of `vals`. */
  function UndefinedCount(vals: seq<Option<int>>): (n: nat)
    ensures n + |Defined(vals)| == |vals|
  {
    if vals == [] then 0
    else (if vals[0].None? then 1 else 0) + UndefinedCount(vals[1..])
  }

  function Wrap(s: seq<int>): (r: seq<Option<int>>)
    ensures |r| == |s|
  {
    seq(|s|, i requires 0 <= i < |s| => Some(s[i]))
  }

  /** `vals.sort((a, b) => a - b)`: the numbers ascending, then every `undefined`. */
  function JsSort(vals: seq<Option<int>>): (r: seq<Option<int>>)
    ensures |r| == |vals|
  {
    Wrap(Sort(Defined(vals))) + seq(UndefinedCount(vals), _ => None)
  }

  /** The first `|Defined(vals)|` entries of the sorted array are the numbers in ascending order,
      the rest are `undefined`. */
  lemma JsSortShape(vals: seq<Option<int>>)
    ensures forall i :: 0 <= i < |Defined(vals)| ==> JsSort(vals)[i] == Some(Sort(Defined(vals))[i])
    ensures forall i :: |Defined(vals)| <= i < |vals| ==> JsSort(vals)[i] == None
    ensures Sorted(Sort(Defined(vals)))
  {
    SortSorted(Defined(vals));
  }
}
