/** `Array.prototype.sort` with a comparator that orders elements by a text
    key: it returns -1 when the first key is the smaller string, 1 when it
    is the larger, and 0 for equal keys, with the outcomes swapped for a
    descending sort. The sort is stable (ECMA-262 requires it since
    ES2019), modelled as an insertion sort. */
module KeySort {
  import opened Text

  datatype Direction = Asc | Desc

  /** The comparator returns -1: a key `x` goes strictly before `y`. */
  predicate KeyBefore(x: string, y: string, dir: Direction) {
    if dir == Asc then Less(x, y) else Less(y, x)
  }

  predicate Before<T>(a: T, b: T, key: T -> string, dir: Direction) {
    KeyBefore(key(a), key(b), dir)
  }

  /** No element is followed by one the comparator puts strictly before it. */
  predicate Sorted<T>(s: seq<T>, key: T -> string, dir: Direction) {
    forall i, j :: 0 <= i < j < |s| ==> !Before(s[j], s[i], key, dir)
  }

  /** Places `x` before the first element that does not go strictly before
      it, so that `x` precedes the elements whose key equals its own. */
  function Insert<T>(x: T, s: seq<T>, key: T -> string, dir: Direction): (r: seq<T>)
    ensures |r| == |s| + 1
  {
    if s == [] then [x]
    else if !Before(s[0], x, key, dir) then [x] + s
    else [s[0]] + Insert(x, s[1..], key, dir)
  }

  function Sort<T>(s: seq<T>, key: T -> string, dir: Direction): (r: seq<T>)
    ensures |r| == |s|
  {
    if s == [] then []
    else Insert(s[0], Sort(s[1..], key, dir), key, dir)
  }

  // ---------------------------------------------------------------------
  // Permutation
  // ---------------------------------------------------------------------

  /** Inserting adds exactly one copy of `x`. */
  lemma {:induction false} InsertPermutes<T>(x: T, s: seq<T>, key: T -> string, dir: Direction)
    ensures multiset(Insert(x, s, key, dir)) == multiset(s) + multiset{x}
  {
    if s != [] && Before(s[0], x, key, dir) {
      InsertPermutes(x, s[1..], key, dir);
      assert s == [s[0]] + s[1..];
    }
  }

  /** Sorting is a permutation. */
  lemma {:induction false} SortPermutes<T>(s: seq<T>, key: T -> string, dir: Direction)
    ensures multiset(Sort(s, key, dir)) == multiset(s)
  {
    if s != [] {
      SortPermutes(s[1..], key, dir);
      InsertPermutes(s[0], Sort(s[1..], key, dir), key, dir);
      assert s == [s[0]] + s[1..];
    }
  }

  // ---------------------------------------------------------------------
  // The comparator is a strict weak order
  // ---------------------------------------------------------------------

  lemma KeyBeforeIrreflexive(x: string, dir: Direction)
    ensures !KeyBefore(x, x, dir)
  {
    LessIrreflexive(x);
  }

  lemma KeyBeforeAsymmetric(x: string, y: string, dir: Direction)
    requires KeyBefore(x, y, dir)
    ensures !KeyBefore(y, x, dir)
  {
    if dir == Asc { LessAsymmetric(x, y); } else { LessAsymmetric(y, x); }
  }

  /** Two keys are equal or one goes strictly before the other. */
  lemma KeyBeforeTotal(x: string, y: string, dir: Direction)
    ensures x == y || KeyBefore(x, y, dir) || KeyBefore(y, x, dir)
  {
    LessTotal(x, y);
  }

  /** "Not strictly after" is transitive. */
  lemma KeyNotBeforeTransitive(x: string, y: string, z: string, dir: Direction)
    requires !KeyBefore(y, x, dir) && !KeyBefore(z, y, dir)
    ensures !KeyBefore(z, x, dir)
  {
    KeyBeforeTotal(x, y, dir);
    KeyBeforeTotal(y, z, dir);
    if KeyBefore(z, x, dir) {
      if x == y {
        KeyBeforeAsymmetric(z, y, dir);
      } else if y == z {
        KeyBeforeAsymmetric(z, x, dir);
      } else {
        // x before y before z, and z before x: a cycle.
        if dir == Asc {
          LessTransitive(x, y, z);
          LessAsymmetric(x, z);
        } else {
          LessTransitive(z, y, x);
          LessAsymmetric(z, x);
        }
      }
    }
  }

  // ---------------------------------------------------------------------
  // Ordering
  // ---------------------------------------------------------------------

  /** The elements of an insertion are `x` and those it was inserted into. */
  lemma InsertMembers<T>(x: T, s: seq<T>, key: T -> string, dir: Direction)
    ensures forall e :: e in Insert(x, s, key, dir) <==> e == x || e in s
  {
    var r := Insert(x, s, key, dir);
    InsertPermutes(x, s, key, dir);
    forall e ensures e in r <==> e == x || e in s {
      assert e in r <==> e in multiset(r);
      assert e in s <==> e in multiset(s);
    }
  }

  /** Putting `x` in front of a sorted list whose head does not go strictly
      before it keeps the list sorted. */
  lemma PrependSorted<T>(x: T, s: seq<T>, key: T -> string, dir: Direction)
    requires Sorted(s, key, dir)
    requires s != [] ==> !Before(s[0], x, key, dir)
    ensures Sorted([x] + s, key, dir)
  {
    var r := [x] + s;
    forall i, j | 0 <= i < j < |r| ensures !Before(r[j], r[i], key, dir) {
      if i == 0 {
        assert r[j] == s[j - 1];
        if j > 1 {
          assert !Before(s[j - 1], s[0], key, dir);
          KeyNotBeforeTransitive(key(x), key(s[0]), key(s[j - 1]), dir);
        }
      } else {
        assert r[i] == s[i - 1] && r[j] == s[j - 1];
      }
    }
  }

  lemma SortedTail<T>(s: seq<T>, key: T -> string, dir: Direction)
    requires s != [] && Sorted(s, key, dir)
    ensures Sorted(s[1..], key, dir)
  {
    forall i, j | 0 <= i < j < |s[1..]| ensures !Before(s[1..][j], s[1..][i], key, dir) {
      assert s[1..][j] == s[j + 1] && s[1..][i] == s[i + 1];
    }
  }

  /** Inserting into a sorted list keeps it sorted. */
  lemma {:induction false} InsertSorted<T>(x: T, s: seq<T>, key: T -> string, dir: Direction)
    requires Sorted(s, key, dir)
    ensures Sorted(Insert(x, s, key, dir), key, dir)
  {
    if s == [] {
    } else if !Before(s[0], x, key, dir) {
      PrependSorted(x, s, key, dir);
    } else {
      var tail := Insert(x, s[1..], key, dir);
      SortedTail(s, key, dir);
      InsertSorted(x, s[1..], key, dir);
      InsertMembers(x, s[1..], key, dir);
      if tail != [] {
        var e := tail[0];
        assert e in tail;
        if e == x {
          KeyBeforeAsymmetric(key(s[0]), key(x), dir);
        } else {
          var m :| 0 <= m < |s[1..]| && s[1..][m] == e;
          assert s[m + 1] == e;
        }
      }
      assert Insert(x, s, key, dir) == [s[0]] + tail;
      PrependSorted(s[0], tail, key, dir);
    }
  }

  /** The sort orders its output. */
  lemma {:induction false} SortSorted<T>(s: seq<T>, key: T -> string, dir: Direction)
    ensures Sorted(Sort(s, key, dir), key, dir)
  {
    if s != [] {
      SortSorted(s[1..], key, dir);
      InsertSorted(s[0], Sort(s[1..], key, dir), key, dir);
    }
  }

  // ---------------------------------------------------------------------
  // Stability: elements with equal keys keep their relative order
  // ---------------------------------------------------------------------

  /** The elements of `s` whose key is `k`, in order. */
  function KeyRun<T>(s: seq<T>, key: T -> string, k: string): seq<T> {
    if s == [] then []
    else (if key(s[0]) == k then [s[0]] else []) + KeyRun(s[1..], key, k)
  }

  /** A run holds exactly the elements of the list that carry its key. */
  lemma {:induction false} KeyRunMember<T>(s: seq<T>, key: T -> string, k: string, a: T)
    ensures a in KeyRun(s, key, k) <==> a in s && key(a) == k
  {
    if s != [] {
      KeyRunMember(s[1..], key, k, a);
      assert s == [s[0]] + s[1..];
    }
  }

  /** One unfolding of `KeyRun` on a list built by prepending an element. */
  lemma KeyRunCons<T>(a: T, s: seq<T>, key: T -> string, k: string)
    ensures KeyRun([a] + s, key, k) == (if key(a) == k then [a] else []) + KeyRun(s, key, k)
  {
    var r := [a] + s;
    assert r[0] == a && r[1..] == s;
  }

  /** The inductive step of `KeyRunInsert`: `x` goes in behind a head
      element whose key differs from its own. */
  lemma KeyRunInsertBehind<T>(x: T, h: T, s: seq<T>, t: seq<T>, key: T -> string, k: string)
    requires key(h) != key(x)
    requires key(x) == k ==> KeyRun(t, key, k) == [x] + KeyRun(s, key, k)
    requires key(x) != k ==> KeyRun(t, key, k) == KeyRun(s, key, k)
    ensures key(x) == k ==> KeyRun([h] + t, key, k) == [x] + KeyRun([h] + s, key, k)
    ensures key(x) != k ==> KeyRun([h] + t, key, k) == KeyRun([h] + s, key, k)
  {
    KeyRunCons(h, t, key, k);
    KeyRunCons(h, s, key, k);
  }

  /** Inserting `x` adds it at the front of its own key's run and leaves
      every other run as it was. */
  lemma {:induction false} KeyRunInsert<T>(x: T, s: seq<T>, key: T -> string, dir: Direction, k: string)
    ensures key(x) == k ==> KeyRun(Insert(x, s, key, dir), key, k) == [x] + KeyRun(s, key, k)
    ensures key(x) != k ==> KeyRun(Insert(x, s, key, dir), key, k) == KeyRun(s, key, k)
  {
    var r := Insert(x, s, key, dir);
    if s == [] || !Before(s[0], x, key, dir) {
      assert r == [x] + s;
      KeyRunCons(x, s, key, k);
    } else {
      var t := Insert(x, s[1..], key, dir);
      assert r == [s[0]] + t;
      KeyBeforeIrreflexive(key(x), dir);
      KeyRunInsert(x, s[1..], key, dir, k);
      assert s == [s[0]] + s[1..];
      KeyRunInsertBehind(x, s[0], s[1..], t, key, k);
    }
  }

  /** For every key, the elements carrying it appear in the sorted output in
      the order they had in the input. */
  lemma {:induction false} SortStable<T>(s: seq<T>, key: T -> string, dir: Direction, k: string)
    ensures KeyRun(Sort(s, key, dir), key, k) == KeyRun(s, key, k)
  {
    if s != [] {
      SortStable(s[1..], key, dir, k);
      KeyRunInsert(s[0], Sort(s[1..], key, dir), key, dir, k);
      KeyRunCons(s[0], s[1..], key, k);
      assert s == [s[0]] + s[1..];
    }
  }

  lemma {:induction false} KeyRunAppend<T>(a: seq<T>, b: seq<T>, key: T -> string, k: string)
    ensures KeyRun(a + b, key, k) == KeyRun(a, key, k) + KeyRun(b, key, k)
  {
    if a == [] {
      assert a + b == b;
    } else {
      KeyRunAppend(a[1..], b, key, k);
      assert a + b == [a[0]] + (a[1..] + b);
      assert a == [a[0]] + a[1..];
      KeyRunCons(a[0], a[1..] + b, key, k);
      KeyRunCons(a[0], a[1..], key, k);
    }
  }

  // ---------------------------------------------------------------------
  // A sorted order is determined by its runs
  // ---------------------------------------------------------------------

  /** No element of a sorted list goes strictly before its head. */
  lemma SortedHeadFirst<T>(s: seq<T>, key: T -> string, dir: Direction, e: T)
    requires Sorted(s, key, dir) && e in s
    ensures !KeyBefore(key(e), key(s[0]), dir)
  {
    var j :| 0 <= j < |s| && s[j] == e;
    if j == 0 {
      KeyBeforeIrreflexive(key(e), dir);
    } else {
      assert !Before(s[j], s[0], key, dir);
    }
  }

  /** An element with key `k` in `a` is, through the shared run, also in
      `b`. */
  lemma SharedRun<T>(a: seq<T>, b: seq<T>, key: T -> string, k: string, e: T)
    requires KeyRun(a, key, k) == KeyRun(b, key, k)
    requires e in a && key(e) == k
    ensures e in b
  {
    KeyRunMember(a, key, k, e);
    KeyRunMember(b, key, k, e);
  }

  /** Two sorted lists with the same runs start with the same key. */
  lemma FirstKeysAgree<T>(a: seq<T>, b: seq<T>, key: T -> string, dir: Direction)
    requires a != [] && b != []
    requires Sorted(a, key, dir) && Sorted(b, key, dir)
    requires KeyRun(a, key, key(a[0])) == KeyRun(b, key, key(a[0]))
    requires KeyRun(a, key, key(b[0])) == KeyRun(b, key, key(b[0]))
    ensures key(a[0]) == key(b[0])
  {
    SharedRun(a, b, key, key(a[0]), a[0]);
    SortedHeadFirst(b, key, dir, a[0]);
    SharedRun(b, a, key, key(b[0]), b[0]);
    SortedHeadFirst(a, key, dir, b[0]);
    KeyBeforeTotal(key(a[0]), key(b[0]), dir);
  }

  /** Two sorted lists with the same runs have the same head. */
  lemma HeadsAgree<T>(a: seq<T>, b: seq<T>, key: T -> string, dir: Direction)
    requires a != [] && b != []
    requires Sorted(a, key, dir) && Sorted(b, key, dir)
    requires forall k :: KeyRun(a, key, k) == KeyRun(b, key, k)
    ensures a[0] == b[0]
  {
    var ka := key(a[0]);
    FirstKeysAgree(a, b, key, dir);
    assert KeyRun(a, key, ka) == [a[0]] + KeyRun(a[1..], key, ka);
    assert KeyRun(b, key, ka) == [b[0]] + KeyRun(b[1..], key, ka);
    assert KeyRun(a, key, ka)[0] == a[0];
  }

  /** Lists with the same head and the same run for `k` have the same run
      for `k` once the head is dropped. */
  lemma TailRunsAgree<T>(a: seq<T>, b: seq<T>, key: T -> string, k: string)
    requires a != [] && b != [] && a[0] == b[0]
    requires KeyRun(a, key, k) == KeyRun(b, key, k)
    ensures KeyRun(a[1..], key, k) == KeyRun(b[1..], key, k)
  {
    var head := if key(a[0]) == k then [a[0]] else [];
    var ra, rb := KeyRun(a[1..], key, k), KeyRun(b[1..], key, k);
    assert KeyRun(a, key, k) == head + ra;
    assert KeyRun(b, key, k) == head + rb;
    assert (head + ra)[|head|..] == ra;
    assert (head + rb)[|head|..] == rb;
  }

  /** Lists with the same runs are empty together. */
  lemma SameRunsBothEmpty<T>(a: seq<T>, b: seq<T>, key: T -> string)
    requires forall k :: KeyRun(a, key, k) == KeyRun(b, key, k)
    ensures a == [] <==> b == []
  {
    if a != [] {
      SharedRun(a, b, key, key(a[0]), a[0]);
    }
    if b != [] {
      SharedRun(b, a, key, key(b[0]), b[0]);
    }
  }

  /** Sorted lists with the same runs share their head, and their tails are
      again sorted with the same runs. */
  lemma SameRunsTails<T>(a: seq<T>, b: seq<T>, key: T -> string, dir: Direction)
    requires a != [] && b != []
    requires Sorted(a, key, dir) && Sorted(b, key, dir)
    requires forall k :: KeyRun(a, key, k) == KeyRun(b, key, k)
    ensures a[0] == b[0]
    ensures Sorted(a[1..], key, dir) && Sorted(b[1..], key, dir)
    ensures forall k :: KeyRun(a[1..], key, k) == KeyRun(b[1..], key, k)
  {
    HeadsAgree(a, b, key, dir);
    SortedTail(a, key, dir);
    SortedTail(b, key, dir);
    forall k ensures KeyRun(a[1..], key, k) == KeyRun(b[1..], key, k) {
      TailRunsAgree(a, b, key, k);
    }
  }

  /** Two sorted lists with the same runs are equal: the sorted order is
      the only one that keeps every run. */
  lemma {:induction false} SortedUnique<T>(a: seq<T>, b: seq<T>, key: T -> string, dir: Direction)
    requires Sorted(a, key, dir) && Sorted(b, key, dir)
    requires forall k :: KeyRun(a, key, k) == KeyRun(b, key, k)
    ensures a == b
    decreases |a|
  {
    SameRunsBothEmpty(a, b, key);
    if a != [] {
      SameRunsTails(a, b, key, dir);
      SortedUnique(a[1..], b[1..], key, dir);
      assert a == [a[0]] + a[1..] && b == [b[0]] + b[1..];
    }
  }

  /** The sort is the only stable ordering: any sorted list with the same
      runs as the input is the sort's output. */
  lemma SortCharacterised<T>(s: seq<T>, r: seq<T>, key: T -> string, dir: Direction)
    requires Sorted(r, key, dir)
    requires forall k :: KeyRun(r, key, k) == KeyRun(s, key, k)
    ensures r == Sort(s, key, dir)
  {
    SortSorted(s, key, dir);
    forall k ensures KeyRun(r, key, k) == KeyRun(Sort(s, key, dir), key, k) {
      SortStable(s, key, dir, k);
    }
    SortedUnique(r, Sort(s, key, dir), key, dir);
  }

  // ---------------------------------------------------------------------
  // Ascending and descending
  // ---------------------------------------------------------------------

  function Reverse<T>(s: seq<T>): (r: seq<T>)
    ensures |r| == |s|
    ensures forall i :: 0 <= i < |s| ==> r[i] == s[|s| - 1 - i]
  {
    if s == [] then [] else Reverse(s[1..]) + [s[0]]
  }

  predicate DistinctKeys<T>(s: seq<T>, key: T -> string) {
    forall i, j :: 0 <= i < j < |s| ==> key(s[i]) != key(s[j])
  }

  lemma {:induction false} KeyRunAbsent<T>(s: seq<T>, key: T -> string, k: string)
    requires forall a :: a in s ==> key(a) != k
    ensures KeyRun(s, key, k) == []
  {
    if s != [] {
      KeyRunAbsent(s[1..], key, k);
    }
  }

  /** Without repeated keys every run has at most one element. */
  lemma {:induction false} KeyRunShort<T>(s: seq<T>, key: T -> string, k: string)
    requires DistinctKeys(s, key)
    ensures |KeyRun(s, key, k)| <= 1
  {
    if s != [] {
      assert DistinctKeys(s[1..], key) by {
        forall i, j | 0 <= i < j < |s[1..]| ensures key(s[1..][i]) != key(s[1..][j]) {
          assert s[1..][i] == s[i + 1] && s[1..][j] == s[j + 1];
        }
      }
      KeyRunShort(s[1..], key, k);
      if key(s[0]) == k {
        forall a | a in s[1..] ensures key(a) != k {
          var j :| 0 <= j < |s[1..]| && s[1..][j] == a;
          assert s[j + 1] == a;
        }
        KeyRunAbsent(s[1..], key, k);
      }
    }
  }

  lemma {:induction false} KeyRunReverse<T>(s: seq<T>, key: T -> string, k: string)
    ensures KeyRun(Reverse(s), key, k) == Reverse(KeyRun(s, key, k))
  {
    if s != [] {
      KeyRunReverse(s[1..], key, k);
      KeyRunAppend(Reverse(s[1..]), [s[0]], key, k);
      var run := KeyRun(s[1..], key, k);
      if key(s[0]) == k {
        assert KeyRun(s, key, k) == [s[0]] + run;
        assert Reverse([s[0]] + run) == Reverse(run) + [s[0]] by {
          assert ([s[0]] + run)[1..] == run;
        }
      } else {
        assert KeyRun(s, key, k) == run;
        assert KeyRun([s[0]], key, k) == [];
      }
    }
  }

  /** Reversing a list sorted one way sorts it the other way. */
  lemma ReverseSorted<T>(s: seq<T>, key: T -> string)
    requires Sorted(s, key, Asc)
    ensures Sorted(Reverse(s), key, Desc)
  {
    var back := Reverse(s);
    forall i, j | 0 <= i < j < |back| ensures !Before(back[j], back[i], key, Desc) {
      assert back[j] == s[|s| - 1 - j] && back[i] == s[|s| - 1 - i];
    }
  }

  /** Without repeated keys, reversing the ascending sort keeps every run. */
  lemma ReversedRuns<T>(s: seq<T>, key: T -> string, k: string)
    requires DistinctKeys(s, key)
    ensures KeyRun(Reverse(Sort(s, key, Asc)), key, k) == KeyRun(s, key, k)
  {
    SortStable(s, key, Asc, k);
    KeyRunReverse(Sort(s, key, Asc), key, k);
    KeyRunShort(s, key, k);
    var run := KeyRun(s, key, k);
    if |run| == 1 {
      assert Reverse(run) == Reverse(run[1..]) + [run[0]];
    }
  }

  /** When no two elements share a key, sorting descending gives exactly the
      reverse of sorting ascending. */
  lemma DescendingReversesAscending<T>(s: seq<T>, key: T -> string)
    requires DistinctKeys(s, key)
    ensures Sort(s, key, Desc) == Reverse(Sort(s, key, Asc))
  {
    SortSorted(s, key, Asc);
    ReverseSorted(Sort(s, key, Asc), key);
    forall k ensures KeyRun(Reverse(Sort(s, key, Asc)), key, k) == KeyRun(s, key, k) {
      ReversedRuns(s, key, k);
    }
    SortCharacterised(s, Reverse(Sort(s, key, Asc)), key, Desc);
  }
}
