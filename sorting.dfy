/** The comparator that loadRequests passes to `requests.sort`, and the
    stable sort that ECMAScript 2019 and later require of `Array.prototype.sort`
    (ECMA-262 2019, section 22.1.3.27), as insertion sort: a functional
    definition (StableSort) and the in-place algorithm on an array (SortInPlace). */
module Sorting {
  import opened RequestModel
  import opened Selection

  const NewestMode: string := "newest"
  const OldestMode: string := "oldest"
  const UrgencyMode: string := "urgency"

  /** The urgency order table { critical: 0, high: 1, medium: 2 }. */
  function Rank(u: Urgency): (n: nat)
    ensures n <= 2
    ensures (n == 0) <==> u == Critical
    ensures (n == 1) <==> u == High
  {
    match u
    case Critical => 0
    case High => 1
    case Medium => 2
  }

  /** The quantity each mode orders by; an unknown mode gives every record the same key. */
  function Key(mode: string, r: Request): int {
    if mode == NewestMode then -r.timestamp
    else if mode == OldestMode then r.timestamp
    else if mode == UrgencyMode then Rank(r.animal.urgency)
    else 0
  }

  /** The comparator: negative puts a first, positive puts b first. In every
      mode it is a difference of keys, so it is a consistent comparator. */
  function Compare(mode: string, a: Request, b: Request): (c: int)
    ensures c == Key(mode, a) - Key(mode, b)
  {
    if mode == NewestMode then b.timestamp - a.timestamp
    else if mode == OldestMode then a.timestamp - b.timestamp
    else if mode == UrgencyMode then Rank(a.animal.urgency) - Rank(b.animal.urgency)
    else 0
  }

  predicate SortedBy(mode: string, s: seq<Request>) {
    forall i, j :: 0 <= i < j < |s| ==> Compare(mode, s[i], s[j]) <= 0
  }

  function KeyIs(mode: string, k: int): Request -> bool {
    (r: Request) => Key(mode, r) == k
  }

  /** Insert x into s from the right, passing only records that compare
      strictly after it, so that x stays behind every record equal to it. */
  function Insert(mode: string, x: Request, s: seq<Request>): (r: seq<Request>)
    ensures |r| == |s| + 1
    decreases |s|
  {
    if s == [] then [x]
    else if Compare(mode, s[|s| - 1], x) <= 0 then s + [x]
    else Insert(mode, x, s[..|s| - 1]) + [s[|s| - 1]]
  }

  /** Insertion adds x and loses nothing. */
  lemma {:induction false} InsertPermutes(mode: string, x: Request, s: seq<Request>)
    ensures multiset(Insert(mode, x, s)) == multiset(s) + multiset{x}
    decreases |s|
  {
    if s != [] && Compare(mode, s[|s| - 1], x) > 0 {
      assert s == s[..|s| - 1] + [s[|s| - 1]];
      InsertPermutes(mode, x, s[..|s| - 1]);
    }
  }

  /** Sort by inserting each record, left to right, into the sorted prefix. */
  function StableSort(mode: string, s: seq<Request>): (r: seq<Request>)
    ensures |r| == |s|
  {
    if s == [] then [] else Insert(mode, s[|s| - 1], StableSort(mode, s[..|s| - 1]))
  }

  /** Sorting is a permutation. */
  lemma {:induction false} StableSortPermutes(mode: string, s: seq<Request>)
    ensures multiset(StableSort(mode, s)) == multiset(s)
  {
    if s != [] {
      assert s == s[..|s| - 1] + [s[|s| - 1]];
      StableSortPermutes(mode, s[..|s| - 1]);
      InsertPermutes(mode, s[|s| - 1], StableSort(mode, s[..|s| - 1]));
    }
  }

  lemma {:induction false} InsertSorted(mode: string, x: Request, s: seq<Request>)
    requires SortedBy(mode, s)
    ensures SortedBy(mode, Insert(mode, x, s))
    decreases |s|
  {
    if s != [] && Compare(mode, s[|s| - 1], x) > 0 {
      var last := s[|s| - 1];
      var init := s[..|s| - 1];
      InsertSorted(mode, x, init);
      var t := Insert(mode, x, init);
      InsertPermutes(mode, x, init);
      forall k | 0 <= k < |t| ensures Compare(mode, t[k], last) <= 0 {
        assert t[k] in multiset(t);
        if t[k] != x {
          assert t[k] in multiset(init);
          var m :| 0 <= m < |init| && init[m] == t[k];
          assert s[m] == t[k];
        }
      }
      assert Insert(mode, x, s) == t + [last];
    }
  }

  lemma {:induction false} StableSortSorted(mode: string, s: seq<Request>)
    ensures SortedBy(mode, StableSort(mode, s))
  {
    if s != [] {
      StableSortSorted(mode, s[..|s| - 1]);
      InsertSorted(mode, s[|s| - 1], StableSort(mode, s[..|s| - 1]));
    }
  }

  /** Records with the same key as x come before x after insertion, and in
      the order they had. */
  lemma {:induction false} InsertKeepsClasses(mode: string, x: Request, s: seq<Request>, k: int)
    ensures Select(Insert(mode, x, s), KeyIs(mode, k)) == Select(s, KeyIs(mode, k)) + Select([x], KeyIs(mode, k))
    decreases |s|
  {
    var p := KeyIs(mode, k);
    if s == [] {
      assert Select(s, p) == [];
    } else if Compare(mode, s[|s| - 1], x) <= 0 {
      SelectAppend(s, [x], p);
    } else {
      var last := s[|s| - 1];
      var init := s[..|s| - 1];
      var t := Insert(mode, x, init);
      assert s == init + [last];
      assert Insert(mode, x, s) == t + [last];
      InsertKeepsClasses(mode, x, init, k);
      SelectAppend(t, [last], p);
      SelectAppend(init, [last], p);
      SelectSingleton(x, p);
      SelectSingleton(last, p);
      var a, xs, ls := Select(init, p), Select([x], p), Select([last], p);
      assert Key(mode, x) < Key(mode, last);
      assert Select(s, p) == a + ls;
      assert Select(Insert(mode, x, s), p) == (a + xs) + ls;
      OneEmptyCommutes(a, xs, ls);
    }
  }

  lemma OneEmptyCommutes<T>(a: seq<T>, b: seq<T>, c: seq<T>)
    requires b == [] || c == []
    ensures (a + b) + c == (a + c) + b
  {
    if b == [] {
      assert a + b == a;
    } else {
      assert a + c == a;
    }
  }

  /** Stability: for every key, the records with that key keep their
      relative order. */
  lemma {:induction false} StableSortKeepsClasses(mode: string, s: seq<Request>, k: int)
    ensures Select(StableSort(mode, s), KeyIs(mode, k)) == Select(s, KeyIs(mode, k))
  {
    if s != [] {
      var init := s[..|s| - 1];
      assert s == init + [s[|s| - 1]];
      StableSortKeepsClasses(mode, init, k);
      InsertKeepsClasses(mode, s[|s| - 1], StableSort(mode, init), k);
      SelectAppend(init, [s[|s| - 1]], KeyIs(mode, k));
    }
  }

  /** A mode the comparator does not know returns 0 for every pair, which
      leaves the list as it was. */
  lemma {:induction false} UnknownModeKeepsOrder(mode: string, s: seq<Request>)
    requires mode !in {NewestMode, OldestMode, UrgencyMode}
    ensures StableSort(mode, s) == s
  {
    if s != [] {
      UnknownModeKeepsOrder(mode, s[..|s| - 1]);
      assert s[..|s| - 1] + [s[|s| - 1]] == s;
    }
  }

  /** Everything the dashboard relies on: a permutation, ordered as the mode
      says, and stable. */
  lemma StableSortCorrect(mode: string, s: seq<Request>)
    ensures multiset(StableSort(mode, s)) == multiset(s)
    ensures SortedBy(mode, StableSort(mode, s))
    ensures forall k :: Select(StableSort(mode, s), KeyIs(mode, k)) == Select(s, KeyIs(mode, k))
    ensures mode == NewestMode ==> forall i, j :: 0 <= i < j < |s| ==>
      StableSort(mode, s)[i].timestamp >= StableSort(mode, s)[j].timestamp
    ensures mode == OldestMode ==> forall i, j :: 0 <= i < j < |s| ==>
      StableSort(mode, s)[i].timestamp <= StableSort(mode, s)[j].timestamp
    ensures mode == UrgencyMode ==> forall i, j :: 0 <= i < j < |s| ==>
      Rank(StableSort(mode, s)[i].animal.urgency) <= Rank(StableSort(mode, s)[j].animal.urgency)
    ensures mode !in {NewestMode, OldestMode, UrgencyMode} ==> StableSort(mode, s) == s
  {
    StableSortPermutes(mode, s);
    StableSortSorted(mode, s);
    forall k ensures Select(StableSort(mode, s), KeyIs(mode, k)) == Select(s, KeyIs(mode, k)) {
      StableSortKeepsClasses(mode, s, k);
    }
    if mode !in {NewestMode, OldestMode, UrgencyMode} {
      UnknownModeKeepsOrder(mode, s);
    }
  }

  /** Urgencies [medium, critical, high, critical] sort to critical, critical,
      high, medium, the two critical records in their original order. */
  lemma UrgencySortExample(m: Request, c1: Request, h: Request, c2: Request)
    requires m.animal.urgency == Medium && h.animal.urgency == High
    requires c1.animal.urgency == Critical && c2.animal.urgency == Critical
    ensures StableSort(UrgencyMode, [m, c1, h, c2]) == [c1, c2, h, m]
  {
    var s := [m, c1, h, c2];
    assert s[..3] == [m, c1, h] && [m, c1, h][..2] == [m, c1] && [m, c1][..1] == [m] && [m][..0] == [];
    assert StableSort(UrgencyMode, [m]) == [m];
    assert Insert(UrgencyMode, c1, [m]) == Insert(UrgencyMode, c1, []) + [m];
    assert StableSort(UrgencyMode, [m, c1]) == [c1, m];
    assert Insert(UrgencyMode, h, [c1, m]) == [c1, h, m] by {
      assert [c1, m][..1] == [c1];
    }
    assert Insert(UrgencyMode, c2, [c1, h, m]) == [c1, c2, h, m] by {
      assert [c1, h, m][..2] == [c1, h] && [c1, h][..1] == [c1];
      assert Insert(UrgencyMode, c2, [c1]) == [c1, c2];
      assert Insert(UrgencyMode, c2, [c1, h]) == Insert(UrgencyMode, c2, [c1]) + [h];
      assert Insert(UrgencyMode, c2, [c1, h, m]) == Insert(UrgencyMode, c2, [c1, h]) + [m];
    }
  }

  /** Where Insert puts x: after the last record that does not compare
      after it, when every record from j on does. */
  lemma {:induction false} InsertPosition(mode: string, x: Request, s: seq<Request>, j: nat)
    requires j <= |s|
    requires j == 0 || Compare(mode, s[j - 1], x) <= 0
    requires forall k :: j <= k < |s| ==> Compare(mode, s[k], x) > 0
    ensures Insert(mode, x, s) == s[..j] + [x] + s[j..]
    decreases |s|
  {
    if j == |s| {
      assert s[..j] == s && s[j..] == [];
    } else {
      var init := s[..|s| - 1];
      InsertPosition(mode, x, init, j);
      assert init[..j] == s[..j];
      assert init[j..] + [s[|s| - 1]] == s[j..];
    }
  }

  /** The array after the insertion loop: the unshifted prefix, x, and the
      shifted records. */
  lemma Reassemble(b: seq<Request>, sorted: seq<Request>, x: Request, j: nat, i: nat)
    requires j <= i == |sorted| < |b|
    requires forall k :: 0 <= k < j ==> b[k] == sorted[k]
    requires b[j] == x
    requires forall k :: j < k <= i ==> b[k] == sorted[k - 1]
    ensures b[..i + 1] == sorted[..j] + [x] + sorted[j..i]
  {
    var expected := sorted[..j] + [x] + sorted[j..i];
    forall k | 0 <= k <= i ensures b[k] == expected[k] {
      if k > j {
        assert expected[k] == sorted[k - 1];
      }
    }
  }

  /** Insertion of a[i] into the sorted prefix a[..i], shifting the records
      that compare after it one place to the right. */
  method InsertAt(mode: string, a: array<Request>, i: nat)
    requires i < a.Length
    modifies a
    ensures a[..i + 1] == Insert(mode, old(a[i]), old(a[..i]))
    ensures forall k :: i < k < a.Length ==> a[k] == old(a[k])
  {
    var x := a[i];
    ghost var sorted := a[..i];
    var j := i;
    while j > 0 && Compare(mode, a[j - 1], x) > 0
      invariant 0 <= j <= i
      invariant forall k :: 0 <= k < j ==> a[k] == sorted[k]
      invariant forall k :: j < k <= i ==> a[k] == sorted[k - 1]
      invariant forall k :: i < k < a.Length ==> a[k] == old(a[k])
      invariant forall k :: j <= k < i ==> Compare(mode, sorted[k], x) > 0
    {
      a[j] := a[j - 1];
      j := j - 1;
    }
    a[j] := x;
    Reassemble(a[..], sorted, x, j, i);
    InsertPosition(mode, x, sorted, j);
  }

  /** `requests.sort(comparator)`: the array ends up as StableSort of what it held. */
  method SortInPlace(mode: string, a: array<Request>)
    modifies a
    ensures a[..] == StableSort(mode, old(a[..]))
  {
    ghost var original := a[..];
    var i := 0;
    while i < a.Length
      invariant 0 <= i <= a.Length
      invariant a[..i] == StableSort(mode, original[..i])
      invariant forall k :: i <= k < a.Length ==> a[k] == original[k]
    {
      InsertAt(mode, a, i);
      assert original[..i + 1][..i] == original[..i];
      i := i + 1;
    }
    assert a[..] == a[..a.Length];
    assert original[..a.Length] == original;
  }
}
