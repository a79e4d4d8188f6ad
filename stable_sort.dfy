/** The contract of `List.sort(comparator)`: a stable sort. It is specified
    here by insertion sort, which is stable by construction, and proved to be
    a permutation always, and sorted and stable whenever the comparator is a
    total preorder on the elements being sorted. */
module StableSort {

  /** Swapping the operands flips the comparator's sign. */
  ghost predicate Flips<T>(cmp: (T, T) -> int, a: T, b: T)
  {
    cmp(a, b) < 0 <==> cmp(b, a) > 0
  }

  /** "Not after" is transitive through `b`. */
  ghost predicate Chains<T>(cmp: (T, T) -> int, a: T, b: T, c: T)
  {
    cmp(a, b) <= 0 && cmp(b, c) <= 0 ==> cmp(a, c) <= 0
  }

  /** The comparator's laws on a set of elements, as `Comparator` demands
      of its implementations. */
  ghost predicate TotalPreorder<T(!new)>(cmp: (T, T) -> int, dom: set<T>)
  {
    && (forall a, b | a in dom && b in dom :: Flips(cmp, a, b))
    && (forall a, b, c | a in dom && b in dom && c in dom :: Chains(cmp, a, b, c))
  }

  lemma Flip<T(!new)>(cmp: (T, T) -> int, dom: set<T>, a: T, b: T)
    requires TotalPreorder(cmp, dom) && a in dom && b in dom
    ensures cmp(a, b) < 0 <==> cmp(b, a) > 0
  {
    assert Flips(cmp, a, b);
  }

  lemma Chain<T(!new)>(cmp: (T, T) -> int, dom: set<T>, a: T, b: T, c: T)
    requires TotalPreorder(cmp, dom) && a in dom && b in dom && c in dom
    requires cmp(a, b) <= 0 && cmp(b, c) <= 0
    ensures cmp(a, c) <= 0
  {
    assert Chains(cmp, a, b, c);
  }

  ghost predicate Sorted<T>(cmp: (T, T) -> int, s: seq<T>)
  {
    forall i, j :: 0 <= i < j < |s| ==> cmp(s[i], s[j]) <= 0
  }

  /** The elements of `s` that the comparator ranks equal to `y`, in order. */
  function Equivalents<T>(cmp: (T, T) -> int, s: seq<T>, y: T): seq<T>
  {
    if s == [] then []
    else (if cmp(s[0], y) == 0 then [s[0]] else []) + Equivalents(cmp, s[1..], y)
  }

  /** Inserts `x` after every element that is not greater than it. */
  function Insert<T>(cmp: (T, T) -> int, x: T, s: seq<T>): (r: seq<T>)
    ensures |r| == |s| + 1
  {
    if s == [] then [x]
    else if cmp(s[0], x) > 0 then [x] + s
    else [s[0]] + Insert(cmp, x, s[1..])
  }

  /** Insertion sort; every element goes after the earlier elements it
      ties with, so equal elements keep their relative order. */
  function Sort<T>(cmp: (T, T) -> int, s: seq<T>): (r: seq<T>)
    ensures |r| == |s|
  {
    if s == [] then []
    else Insert(cmp, s[|s| - 1], Sort(cmp, s[..|s| - 1]))
  }

  /** Inserting adds exactly `x`. */
  lemma {:induction false} InsertPermutes<T>(cmp: (T, T) -> int, x: T, s: seq<T>)
    ensures multiset(Insert(cmp, x, s)) == multiset(s) + multiset{x}
    ensures |Insert(cmp, x, s)| == |s| + 1
  {
    if s != [] && cmp(s[0], x) <= 0 {
      InsertPermutes(cmp, x, s[1..]);
      assert s == [s[0]] + s[1..];
    }
  }

  /** The sort is a permutation of its input. */
  lemma {:induction false} SortPermutes<T>(cmp: (T, T) -> int, s: seq<T>)
    ensures multiset(Sort(cmp, s)) == multiset(s)
    ensures |Sort(cmp, s)| == |s|
  {
    if s != [] {
      var p := s[..|s| - 1];
      SortPermutes(cmp, p);
      InsertPermutes(cmp, s[|s| - 1], Sort(cmp, p));
      assert s == p + [s[|s| - 1]];
    }
  }

  lemma {:induction false} EquivalentsAppend<T>(cmp: (T, T) -> int, s: seq<T>, t: seq<T>, y: T)
    ensures Equivalents(cmp, s + t, y) == Equivalents(cmp, s, y) + Equivalents(cmp, t, y)
  {
    if s == [] {
      assert s + t == t;
    } else {
      var h := if cmp(s[0], y) == 0 then [s[0]] else [];
      var st := s + t;
      assert st[0] == s[0] && st[1..] == s[1..] + t;
      assert Equivalents(cmp, st, y) == h + Equivalents(cmp, s[1..] + t, y);
      EquivalentsAppend(cmp, s[1..], t, y);
      assert Equivalents(cmp, s, y) == h + Equivalents(cmp, s[1..], y);
    }
  }

  /** In a sorted sequence whose first element is strictly after `x`, no
      element ties with `y` when `x` does. */
  lemma {:induction false} NoEquivalentsAfter<T(!new)>(cmp: (T, T) -> int, dom: set<T>, x: T, s: seq<T>, y: T)
    requires TotalPreorder(cmp, dom)
    requires x in dom && y in dom && (forall e :: e in s ==> e in dom)
    requires Sorted(cmp, s) && s != [] && cmp(s[0], x) > 0 && cmp(x, y) == 0
    ensures Equivalents(cmp, s, y) == []
  {
    if |s| > 1 {
      assert Sorted(cmp, s[1..]) && s[1] in s;
      if cmp(s[1], x) <= 0 {
        Chain(cmp, dom, s[0], s[1], x);
        assert false;
      }
      NoEquivalentsAfter(cmp, dom, x, s[1..], y);
    }
    if cmp(s[0], y) == 0 {
      Flip(cmp, dom, x, y);
      Chain(cmp, dom, s[0], y, x);
      assert false;
    }
  }

  /** Inserting before a sorted sequence whose head is after `x`. */
  lemma InsertFrontSorted<T(!new)>(cmp: (T, T) -> int, dom: set<T>, x: T, s: seq<T>)
    requires TotalPreorder(cmp, dom)
    requires x in dom && (forall e :: e in s ==> e in dom)
    requires Sorted(cmp, s) && s != [] && cmp(s[0], x) > 0
    ensures Sorted(cmp, [x] + s)
  {
    var r := [x] + s;
    Flip(cmp, dom, s[0], x);
    forall j | 1 <= j < |r| ensures cmp(x, r[j]) <= 0 {
      assert r[j] == s[j - 1] && s[j - 1] in s;
      if j > 1 {
        Chain(cmp, dom, x, s[0], s[j - 1]);
      }
    }
    forall i, j | 1 <= i < j < |r| ensures cmp(r[i], r[j]) <= 0 {
      assert r[i] == s[i - 1] && r[j] == s[j - 1];
    }
  }

  /** Keeping the head and inserting further on. */
  lemma InsertLaterSorted<T(!new)>(cmp: (T, T) -> int, x: T, h: T, rest: seq<T>, s: seq<T>)
    requires Sorted(cmp, [h] + s) && cmp(h, x) <= 0
    requires Sorted(cmp, rest) && multiset(rest) == multiset(s) + multiset{x}
    ensures Sorted(cmp, [h] + rest)
  {
    var r := [h] + rest;
    forall j | 1 <= j < |r| ensures cmp(h, r[j]) <= 0 {
      var e := r[j];
      assert e == rest[j - 1] && e in multiset(rest);
      if e != x {
        assert e in multiset(s);
        var k :| 0 <= k < |s| && s[k] == e;
        assert ([h] + s)[0] == h && ([h] + s)[k + 1] == e;
      }
    }
    forall i, j | 1 <= i < j < |r| ensures cmp(r[i], r[j]) <= 0 {
      assert r[i] == rest[i - 1] && r[j] == rest[j - 1];
    }
  }

  /** Inserting into a sorted sequence keeps it sorted. */
  lemma {:induction false} InsertSorted<T(!new)>(cmp: (T, T) -> int, dom: set<T>, x: T, s: seq<T>)
    requires TotalPreorder(cmp, dom)
    requires x in dom && (forall e :: e in s ==> e in dom)
    requires Sorted(cmp, s)
    ensures Sorted(cmp, Insert(cmp, x, s))
  {
    if s != [] {
      if cmp(s[0], x) > 0 {
        InsertFrontSorted(cmp, dom, x, s);
      } else {
        assert Sorted(cmp, s[1..]);
        InsertSorted(cmp, dom, x, s[1..]);
        InsertPermutes(cmp, x, s[1..]);
        assert [s[0]] + s[1..] == s;
        InsertLaterSorted(cmp, x, s[0], Insert(cmp, x, s[1..]), s[1..]);
      }
    }
  }

  lemma EquivalentsOne<T>(cmp: (T, T) -> int, x: T, y: T)
    ensures Equivalents(cmp, [x], y) == if cmp(x, y) == 0 then [x] else []
  {
    assert [x][1..] == [];
  }

  /** Inserting `x` appends it to the elements that tie with `y` when it
      ties with `y`, and leaves them alone otherwise. */
  lemma {:induction false} InsertStable<T(!new)>(cmp: (T, T) -> int, dom: set<T>, x: T, s: seq<T>, y: T)
    requires TotalPreorder(cmp, dom)
    requires x in dom && y in dom && (forall e :: e in s ==> e in dom)
    requires Sorted(cmp, s)
    ensures Equivalents(cmp, Insert(cmp, x, s), y) == Equivalents(cmp, s, y) + Equivalents(cmp, [x], y)
  {
    var ex := Equivalents(cmp, [x], y);
    EquivalentsOne(cmp, x, y);
    if s == [] {
      assert Insert(cmp, x, s) == [x];
    } else if cmp(s[0], x) > 0 {
      assert Insert(cmp, x, s) == [x] + s;
      EquivalentsAppend(cmp, [x], s, y);
      if cmp(x, y) == 0 {
        NoEquivalentsAfter(cmp, dom, x, s, y);
      }
    } else {
      var h, rest := s[0], s[1..];
      assert Insert(cmp, x, s) == [h] + Insert(cmp, x, rest);
      assert s == [h] + rest;
      assert Sorted(cmp, rest);
      InsertStable(cmp, dom, x, rest, y);
      ConsEquivalents(cmp, h, rest, Insert(cmp, x, rest), ex, y);
    }
  }

  /** The ties of a sequence with a head are the head's tie followed by
      the rest's. */
  lemma EquivalentsCons<T>(cmp: (T, T) -> int, h: T, t: seq<T>, y: T)
    ensures Equivalents(cmp, [h] + t, y) == (if cmp(h, y) == 0 then [h] else []) + Equivalents(cmp, t, y)
  {
    var s := [h] + t;
    assert s[0] == h && s[1..] == t;
  }

  lemma AppendAssociative<T>(a: seq<T>, b: seq<T>, c: seq<T>)
    ensures a + (b + c) == (a + b) + c
  {
  }

  /** Putting the same head in front of two sequences keeps their ties
      related as before. */
  lemma ConsEquivalents<T>(cmp: (T, T) -> int, h: T, rest: seq<T>, t: seq<T>, tail: seq<T>, y: T)
    requires Equivalents(cmp, t, y) == Equivalents(cmp, rest, y) + tail
    ensures Equivalents(cmp, [h] + t, y) == Equivalents(cmp, [h] + rest, y) + tail
  {
    EquivalentsCons(cmp, h, t, y);
    EquivalentsCons(cmp, h, rest, y);
    AppendAssociative(if cmp(h, y) == 0 then [h] else [], Equivalents(cmp, rest, y), tail);
  }

  lemma SortElements<T>(cmp: (T, T) -> int, dom: set<T>, s: seq<T>)
    requires forall e :: e in s ==> e in dom
    ensures forall e :: e in Sort(cmp, s) ==> e in dom
  {
    SortPermutes(cmp, s);
    forall e | e in Sort(cmp, s) ensures e in dom {
      assert e in multiset(Sort(cmp, s));
    }
  }

  /** The sort orders its input whenever the comparator is a total preorder
      on the input's elements. */
  lemma {:induction false} SortSorted<T(!new)>(cmp: (T, T) -> int, dom: set<T>, s: seq<T>)
    requires TotalPreorder(cmp, dom)
    requires forall e :: e in s ==> e in dom
    ensures Sorted(cmp, Sort(cmp, s))
  {
    if s != [] {
      var p := s[..|s| - 1];
      assert forall e :: e in p ==> e in s;
      SortSorted(cmp, dom, p);
      SortElements(cmp, dom, p);
      InsertSorted(cmp, dom, s[|s| - 1], Sort(cmp, p));
    }
  }

  /** The sort is stable: the elements that tie with any `y` come out in
      the order they went in. */
  lemma {:induction false} SortStable<T(!new)>(cmp: (T, T) -> int, dom: set<T>, s: seq<T>, y: T)
    requires TotalPreorder(cmp, dom)
    requires y in dom && forall e :: e in s ==> e in dom
    ensures Equivalents(cmp, Sort(cmp, s), y) == Equivalents(cmp, s, y)
  {
    if s != [] {
      var p, x := s[..|s| - 1], s[|s| - 1];
      assert forall e :: e in p ==> e in s;
      SortStable(cmp, dom, p, y);
      SortSorted(cmp, dom, p);
      SortElements(cmp, dom, p);
      InsertStable(cmp, dom, x, Sort(cmp, p), y);
      assert s == p + [x];
      EquivalentsAppend(cmp, p, [x], y);
    }
  }

  /** Two elements in order stay in order. */
  lemma SortTwo<T>(cmp: (T, T) -> int, r1: T, r2: T)
    requires cmp(r1, r2) <= 0
    ensures Sort(cmp, [r1, r2]) == [r1, r2]
  {
    assert [r1, r2][..1] == [r1] && [r1][..0] == [];
    assert Sort(cmp, [r1]) == [r1];
    assert Insert(cmp, r2, [r1]) == [r1] + Insert(cmp, r2, []);
  }

  /** Inserting into a single element. */
  lemma InsertOne<T>(cmp: (T, T) -> int, x: T, h: T)
    ensures Insert(cmp, x, [h]) == if cmp(h, x) > 0 then [x, h] else [h, x]
  {
    assert [h][1..] == [];
  }

  /** Inserting into two elements of which the first is not after `x`. */
  lemma InsertTwo<T>(cmp: (T, T) -> int, x: T, a: T, b: T)
    requires cmp(a, x) <= 0
    ensures Insert(cmp, x, [a, b]) == if cmp(b, x) > 0 then [a, x, b] else [a, b, x]
  {
    var tail := Insert(cmp, x, [b]);
    assert Insert(cmp, x, [a, b]) == [a] + tail by {
      var s := [a, b];
      assert s[0] == a && s[1..] == [b];
    }
    InsertOne(cmp, x, b);
    if cmp(b, x) > 0 {
      assert [a] + [x, b] == [a, x, b];
    } else {
      assert [a] + [b, x] == [a, b, x];
    }
  }

  /** The sort of three elements is the third inserted into the sort of
      the first two. */
  lemma SortThreeUnfold<T>(cmp: (T, T) -> int, r1: T, r2: T, r3: T)
    ensures Sort(cmp, [r1, r2, r3]) == Insert(cmp, r3, Sort(cmp, [r1, r2]))
  {
    var s := [r1, r2, r3];
    assert s[..|s| - 1] == [r1, r2] && s[|s| - 1] == r3;
  }

  /** Sorting three elements of which the first is not after the other
      two: it stays first, and the third passes the second exactly when
      the second is after it. */
  lemma SortThreeFirst<T>(cmp: (T, T) -> int, r1: T, r2: T, r3: T)
    requires cmp(r1, r2) <= 0 && cmp(r1, r3) <= 0
    ensures Sort(cmp, [r1, r2, r3]) == if cmp(r2, r3) > 0 then [r1, r3, r2] else [r1, r2, r3]
  {
    SortThreeUnfold(cmp, r1, r2, r3);
    SortTwo(cmp, r1, r2);
    InsertTwo(cmp, r3, r1, r2);
  }
}
