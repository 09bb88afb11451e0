/**
  The home feed's `listSort`: keep the NORMAL memos, sort them by display time
  (ascending or descending), then sort again by pinned, pinned first. Both
  sorts are JavaScript's stable `Array.prototype.sort`; each comparator is a
  difference of integer keys, so each sort is modelled as a stable sort by a key.
 */
module MemoOrdering {

  /** Visibility state of a memo. */
  datatype State = StateUnspecified | Normal | Archived

  /** The parts of a memo the ordering reads; `displayTime` in Unix seconds. */
  datatype Memo = Memo(name: string, state: State, pinned: bool, displayTime: int)

  // ---------------------------------------------------------------------------
  // Filtering

  /** `s.filter(p)`: the elements satisfying `p`, in order. */
  function Filter<T>(s: seq<T>, p: T -> bool): (r: seq<T>)
    ensures |r| <= |s|
    ensures forall k :: 0 <= k < |r| ==> p(r[k])
  {
    if s == [] then [] else (if p(s[0]) then [s[0]] else []) + Filter(s[1..], p)
  }

  /** Exactly the elements satisfying `p` are kept. */
  lemma {:induction false} FilterMembers<T>(s: seq<T>, p: T -> bool, x: T)
    ensures x in Filter(s, p) <==> x in s && p(x)
  {
    if s != [] {
      FilterMembers(s[1..], p, x);
      assert s == [s[0]] + s[1..];
    }
  }

  // ---------------------------------------------------------------------------
  // Stable sort by an integer key

  /** Non-decreasing keys. */
  predicate SortedBy<T>(s: seq<T>, key: T -> int)
  {
    forall i, j :: 0 <= i < j < |s| ==> key(s[i]) <= key(s[j])
  }

  /** Ordered by `primary`, and by `secondary` among elements with equal `primary`. */
  predicate LexSortedBy<T>(s: seq<T>, primary: T -> int, secondary: T -> int)
  {
    forall i, j :: 0 <= i < j < |s| ==>
      primary(s[i]) < primary(s[j]) || (primary(s[i]) == primary(s[j]) && secondary(s[i]) <= secondary(s[j]))
  }

  /** Insert `x` before the first element whose key is not below its own. */
  function Insert<T>(x: T, s: seq<T>, key: T -> int): (r: seq<T>)
    ensures multiset(r) == multiset(s) + multiset{x}
  {
    if s == [] || key(x) <= key(s[0]) then [x] + s
    else
      assert s == [s[0]] + s[1..];
      [s[0]] + Insert(x, s[1..], key)
  }

  /**
    Stable insertion sort: `s[0]` goes in front of every later element with
    the same key, so equal keys keep their input order.
   */
  function SortBy<T>(s: seq<T>, key: T -> int): (r: seq<T>)
    ensures multiset(r) == multiset(s)
  {
    if s == [] then []
    else
      assert s == [s[0]] + s[1..];
      Insert(s[0], SortBy(s[1..], key), key)
  }

  /** Inserting adds `x` and nothing else. */
  lemma InsertMembers<T>(x: T, s: seq<T>, key: T -> int, y: T)
    ensures y in Insert(x, s, key) <==> y == x || y in s
  {
    var r := Insert(x, s, key);
    assert y in r <==> y in multiset(r);
    assert y in s <==> y in multiset(s);
  }

  /** Every later element of a key-sorted sequence has a key at least its head's. */
  lemma SortedHead<T>(s: seq<T>, key: T -> int, y: T)
    requires SortedBy(s, key) && s != [] && y in s[1..]
    ensures key(s[0]) <= key(y)
  {
    var i :| 0 <= i < |s[1..]| && s[1..][i] == y;
    assert s[i + 1] == y;
  }

  /** A head whose key is at most every later key extends a key-sorted sequence. */
  lemma SortedCons<T>(h: T, t: seq<T>, key: T -> int)
    requires SortedBy(t, key)
    requires forall y :: y in t ==> key(h) <= key(y)
    ensures SortedBy([h] + t, key)
  {
    var r := [h] + t;
    forall i, j | 0 <= i < j < |r| ensures key(r[i]) <= key(r[j]) {
      assert r[j] == t[j - 1] && r[j] in t;
      if i > 0 {
        assert r[i] == t[i - 1];
      }
    }
  }

  lemma {:induction false} InsertSorted<T>(x: T, s: seq<T>, key: T -> int)
    requires SortedBy(s, key)
    ensures SortedBy(Insert(x, s, key), key)
  {
    if s == [] || key(x) <= key(s[0]) {
      forall y | y in s ensures key(x) <= key(y) {
        if y != s[0] {
          assert s == [s[0]] + s[1..];
          SortedHead(s, key, y);
        }
      }
      SortedCons(x, s, key);
    } else {
      var t := Insert(x, s[1..], key);
      InsertSorted(x, s[1..], key);
      forall y | y in t ensures key(s[0]) <= key(y) {
        InsertMembers(x, s[1..], key, y);
        if y != x {
          SortedHead(s, key, y);
        }
      }
      SortedCons(s[0], t, key);
    }
  }

  /** The result of a sort is ordered by the key. */
  lemma {:induction false} SortBySorted<T>(s: seq<T>, key: T -> int)
    ensures SortedBy(SortBy(s, key), key)
  {
    if s != [] {
      SortBySorted(s[1..], key);
      InsertSorted(s[0], SortBy(s[1..], key), key);
    }
  }

  /**
    Inserting `x` into a sequence leaves the elements of a class that all
    have key `k` in their order, with `x` in front of them when it belongs to it.
   */
  lemma {:induction false} InsertFilter<T>(x: T, s: seq<T>, key: T -> int, p: T -> bool, k: int)
    requires forall y :: p(y) ==> key(y) == k
    ensures Filter(Insert(x, s, key), p) == (if p(x) then [x] else []) + Filter(s, p)
  {
    if s == [] || key(x) <= key(s[0]) {
      FilterCons(x, s, p);
    } else {
      var t := Insert(x, s[1..], key);
      InsertFilter(x, s[1..], key, p, k);
      FilterCons(s[0], t, p);
      FilterHead(s, p);
      if p(x) {
        assert !p(s[0]);
      }
    }
  }

  /**
    Stability: for a class of elements that all share one key, sorting keeps
    the class's elements in their input order.
   */
  lemma {:induction false} SortByStable<T>(s: seq<T>, key: T -> int, p: T -> bool, k: int)
    requires forall y :: p(y) ==> key(y) == k
    ensures Filter(SortBy(s, key), p) == Filter(s, p)
  {
    if s != [] {
      SortByStable(s[1..], key, p, k);
      InsertFilter(s[0], SortBy(s[1..], key), key, p, k);
    }
  }

  /** Every later element of a lexicographically sorted sequence comes after its head in that order. */
  lemma LexSortedHead<T>(s: seq<T>, primary: T -> int, secondary: T -> int, y: T)
    requires LexSortedBy(s, primary, secondary) && s != [] && y in s[1..]
    ensures primary(s[0]) < primary(y) || (primary(s[0]) == primary(y) && secondary(s[0]) <= secondary(y))
  {
    var i :| 0 <= i < |s[1..]| && s[1..][i] == y;
    assert s[i + 1] == y;
  }

  /** A head that comes before every later element extends a lexicographically sorted sequence. */
  lemma LexSortedCons<T>(h: T, t: seq<T>, primary: T -> int, secondary: T -> int)
    requires LexSortedBy(t, primary, secondary)
    requires forall y :: y in t ==> primary(h) < primary(y) || (primary(h) == primary(y) && secondary(h) <= secondary(y))
    ensures LexSortedBy([h] + t, primary, secondary)
  {
    var r := [h] + t;
    forall i, j | 0 <= i < j < |r| ensures primary(r[i]) < primary(r[j]) || (primary(r[i]) == primary(r[j]) && secondary(r[i]) <= secondary(r[j])) {
      assert r[j] == t[j - 1] && r[j] in t;
      if i > 0 {
        assert r[i] == t[i - 1];
      }
    }
  }

  /** The tail of a lexicographically sorted sequence is lexicographically sorted. */
  lemma LexSortedTail<T>(s: seq<T>, primary: T -> int, secondary: T -> int)
    requires LexSortedBy(s, primary, secondary) && s != []
    ensures LexSortedBy(s[1..], primary, secondary)
  {
    var t := s[1..];
    forall i, j | 0 <= i < j < |t| ensures primary(t[i]) < primary(t[j]) || (primary(t[i]) == primary(t[j]) && secondary(t[i]) <= secondary(t[j])) {
      assert t[i] == s[i + 1] && t[j] == s[j + 1];
    }
  }

  lemma {:induction false} InsertLexSorted<T>(x: T, s: seq<T>, primary: T -> int, secondary: T -> int)
    requires LexSortedBy(s, primary, secondary)
    requires forall y :: y in s ==> secondary(x) <= secondary(y)
    ensures LexSortedBy(Insert(x, s, primary), primary, secondary)
  {
    if s == [] || primary(x) <= primary(s[0]) {
      forall y | y in s ensures primary(x) < primary(y) || (primary(x) == primary(y) && secondary(x) <= secondary(y)) {
        if y != s[0] {
          assert s == [s[0]] + s[1..];
          LexSortedHead(s, primary, secondary, y);
        }
      }
      LexSortedCons(x, s, primary, secondary);
    } else {
      var t := Insert(x, s[1..], primary);
      LexSortedTail(s, primary, secondary);
      forall y | y in s[1..] ensures secondary(x) <= secondary(y) {
        assert y in s;
      }
      InsertLexSorted(x, s[1..], primary, secondary);
      forall y | y in t ensures primary(s[0]) < primary(y) || (primary(s[0]) == primary(y) && secondary(s[0]) <= secondary(y)) {
        InsertMembers(x, s[1..], primary, y);
        if y != x {
          LexSortedHead(s, primary, secondary, y);
        }
      }
      LexSortedCons(s[0], t, primary, secondary);
    }
  }

  /**
    Sorting by `primary` a sequence already sorted by `secondary` orders it by `primary` first
    and `secondary` second: the second, stable sort keeps the first one's order
    among elements with equal `primary`.
   */
  lemma {:induction false} SortBySortedLex<T>(s: seq<T>, primary: T -> int, secondary: T -> int)
    requires SortedBy(s, secondary)
    ensures LexSortedBy(SortBy(s, primary), primary, secondary)
  {
    if s != [] {
      SortBySortedLex(s[1..], primary, secondary);
      var t := SortBy(s[1..], primary);
      forall y | y in t ensures secondary(s[0]) <= secondary(y) {
        assert y in multiset(s[1..]);
        var i :| 0 <= i < |s[1..]| && s[1..][i] == y;
        assert s[i + 1] == y;
      }
      InsertLexSorted(s[0], t, primary, secondary);
    }
  }

  /** The elements whose key pair is `(a, b)`. */
  function Class<T>(primary: T -> int, secondary: T -> int, a: int, b: int): T -> bool
  {
    (x: T) => primary(x) == a && secondary(x) == b
  }

  lemma FilterCons<T>(x: T, s: seq<T>, p: T -> bool)
    ensures Filter([x] + s, p) == (if p(x) then [x] else []) + Filter(s, p)
  {
    assert ([x] + s)[0] == x && ([x] + s)[1..] == s;
  }

  lemma FilterHead<T>(s: seq<T>, p: T -> bool)
    requires s != []
    ensures Filter(s, p) == (if p(s[0]) then [s[0]] else []) + Filter(s[1..], p)
  {
  }

  /** An element of a sequence lies in the filter by its own key pair. */
  lemma InOwnClass<T>(s: seq<T>, i: int, primary: T -> int, secondary: T -> int)
    requires 0 <= i < |s|
    ensures s[i] in Filter(s, Class(primary, secondary, primary(s[i]), secondary(s[i])))
  {
    FilterMembers(s, Class(primary, secondary, primary(s[i]), secondary(s[i])), s[i]);
  }

  /** Two lexicographically ordered sequences holding each other's first element start with the same key pair. */
  lemma LexSortedHeads<T>(r1: seq<T>, r2: seq<T>, primary: T -> int, secondary: T -> int)
    requires LexSortedBy(r1, primary, secondary) && LexSortedBy(r2, primary, secondary)
    requires r1 != [] && r2 != [] && r1[0] in r2 && r2[0] in r1
    ensures primary(r1[0]) == primary(r2[0]) && secondary(r1[0]) == secondary(r2[0])
  {
    var i :| 0 <= i < |r2| && r2[i] == r1[0];
    var j :| 0 <= j < |r1| && r1[j] == r2[0];
    assert i > 0 ==> primary(r2[0]) < primary(r1[0]) || (primary(r2[0]) == primary(r1[0]) && secondary(r2[0]) <= secondary(r1[0]));
    assert j > 0 ==> primary(r1[0]) < primary(r2[0]) || (primary(r1[0]) == primary(r2[0]) && secondary(r1[0]) <= secondary(r2[0]));
  }

  /** Two sequences hold the same elements of every key pair, in the same order. */
  ghost predicate SameClasses<T>(r1: seq<T>, r2: seq<T>, primary: T -> int, secondary: T -> int)
  {
    forall a, b :: Filter(r1, Class(primary, secondary, a, b)) == Filter(r2, Class(primary, secondary, a, b))
  }

  /** Two such sequences, one of them non-empty, start with the same element. */
  lemma SameClassesHeads<T>(r1: seq<T>, r2: seq<T>, primary: T -> int, secondary: T -> int)
    requires LexSortedBy(r1, primary, secondary) && LexSortedBy(r2, primary, secondary)
    requires r1 != [] && SameClasses(r1, r2, primary, secondary)
    ensures r2 != [] && r1[0] == r2[0]
  {
    var c := Class(primary, secondary, primary(r1[0]), secondary(r1[0]));
    assert Filter(r1, c) == Filter(r2, c);
    InOwnClass(r1, 0, primary, secondary);
    FilterMembers(r2, c, r1[0]);
    var d := Class(primary, secondary, primary(r2[0]), secondary(r2[0]));
    assert Filter(r1, d) == Filter(r2, d);
    InOwnClass(r2, 0, primary, secondary);
    FilterMembers(r1, d, r2[0]);
    LexSortedHeads(r1, r2, primary, secondary);
    FilterHead(r1, c);
    FilterHead(r2, c);
    assert c(r1[0]) && c(r2[0]);
    assert Filter(r1, c)[0] == r1[0] && Filter(r2, c)[0] == r2[0];
  }

  /** Two sequences with the same head that agree on a filter agree on it without their heads. */
  lemma FilterOfTails<T>(r1: seq<T>, r2: seq<T>, p: T -> bool)
    requires r1 != [] && r2 != [] && r1[0] == r2[0]
    requires Filter(r1, p) == Filter(r2, p)
    ensures Filter(r1[1..], p) == Filter(r2[1..], p)
  {
    var h := if p(r1[0]) then [r1[0]] else [];
    FilterHead(r1, p);
    FilterHead(r2, p);
    assert Filter(r1[1..], p) == Filter(r1, p)[|h|..];
    assert Filter(r2[1..], p) == Filter(r2, p)[|h|..];
  }

  /** Agreement on every key pair carries over from two sequences to their tails once their heads are equal. */
  lemma ClassesOfTails<T>(r1: seq<T>, r2: seq<T>, primary: T -> int, secondary: T -> int)
    requires r1 != [] && r2 != [] && r1[0] == r2[0]
    requires SameClasses(r1, r2, primary, secondary)
    ensures SameClasses(r1[1..], r2[1..], primary, secondary)
  {
    forall a, b ensures Filter(r1[1..], Class(primary, secondary, a, b)) == Filter(r2[1..], Class(primary, secondary, a, b)) {
      FilterOfTails(r1, r2, Class(primary, secondary, a, b));
    }
  }

  /**
    A sequence ordered by `primary` then `secondary` is determined by what it holds of
    each key pair, in order: two such sequences that agree on every key
    pair's elements are equal. So a stable sort by the key pair has exactly
    one possible result.
   */
  lemma {:induction false} LexSortedUnique<T>(r1: seq<T>, r2: seq<T>, primary: T -> int, secondary: T -> int)
    requires LexSortedBy(r1, primary, secondary) && LexSortedBy(r2, primary, secondary)
    requires SameClasses(r1, r2, primary, secondary)
    ensures r1 == r2
    decreases |r1|
  {
    if r1 != [] {
      SameClassesHeads(r1, r2, primary, secondary);
      ClassesOfTails(r1, r2, primary, secondary);
      LexSortedTail(r1, primary, secondary);
      LexSortedTail(r2, primary, secondary);
      LexSortedUnique(r1[1..], r2[1..], primary, secondary);
      assert r1 == [r1[0]] + r1[1..] && r2 == [r2[0]] + r2[1..];
    } else if r2 != [] {
      assert SameClasses(r2, r1, primary, secondary);
      SameClassesHeads(r2, r1, primary, secondary);
    }
  }

  // ---------------------------------------------------------------------------
  // The feed's ordering

  predicate IsNormal(m: Memo)
  {
    m.state == Normal
  }

  /**
    Sort key of the time comparator: `a.displayTime - b.displayTime` when
    ascending, `b.displayTime - a.displayTime` when descending.
   */
  function TimeKey(orderByTimeAsc: bool): Memo -> int
  {
    (m: Memo) => if orderByTimeAsc then m.displayTime else -m.displayTime
  }

  /** Sort key of the comparator `Number(b.pinned) - Number(a.pinned)`. */
  function PinnedKey(m: Memo): int
  {
    if m.pinned then 0 else 1
  }

  /** `listSort`. */
  function ListSort(memos: seq<Memo>, orderByTimeAsc: bool): seq<Memo>
  {
    SortBy(SortBy(Filter(memos, IsNormal), TimeKey(orderByTimeAsc)), PinnedKey)
  }

  /** The result holds exactly the NORMAL memos of the input, each as often as there. */
  lemma ListSortPermutation(memos: seq<Memo>, orderByTimeAsc: bool)
    ensures multiset(ListSort(memos, orderByTimeAsc)) == multiset(Filter(memos, IsNormal))
    ensures forall m :: m in ListSort(memos, orderByTimeAsc) <==> m in memos && m.state == Normal
  {
    var normal := Filter(memos, IsNormal);
    var r := ListSort(memos, orderByTimeAsc);
    assert multiset(r) == multiset(normal);
    forall m ensures m in r <==> m in memos && m.state == Normal {
      assert m in r <==> m in multiset(r);
      assert m in normal <==> m in multiset(normal);
      FilterMembers(memos, IsNormal, m);
    }
  }

  /** The order the two keys set, spelled out for memos. */
  lemma LexOrderOfMemos(r: seq<Memo>, orderByTimeAsc: bool)
    requires LexSortedBy(r, PinnedKey, TimeKey(orderByTimeAsc))
    ensures forall i, j :: 0 <= i < j < |r| ==>
        && (r[j].pinned ==> r[i].pinned)
        && (r[i].pinned == r[j].pinned ==>
              if orderByTimeAsc then r[i].displayTime <= r[j].displayTime
              else r[i].displayTime >= r[j].displayTime)
  {
    var time := TimeKey(orderByTimeAsc);
    forall i, j | 0 <= i < j < |r|
      ensures r[j].pinned ==> r[i].pinned
      ensures r[i].pinned == r[j].pinned ==>
              if orderByTimeAsc then r[i].displayTime <= r[j].displayTime
              else r[i].displayTime >= r[j].displayTime
    {
      assert PinnedKey(r[i]) < PinnedKey(r[j]) || (PinnedKey(r[i]) == PinnedKey(r[j]) && time(r[i]) <= time(r[j]));
    }
  }

  /**
    Pinned memos come before unpinned ones, and memos with the same pinned
    flag are ordered by display time, non-decreasing when ascending and
    non-increasing otherwise.
   */
  lemma ListSortOrder(memos: seq<Memo>, orderByTimeAsc: bool)
    ensures var r := ListSort(memos, orderByTimeAsc);
      forall i, j :: 0 <= i < j < |r| ==>
        && (r[j].pinned ==> r[i].pinned)
        && (r[i].pinned == r[j].pinned ==>
              if orderByTimeAsc then r[i].displayTime <= r[j].displayTime
              else r[i].displayTime >= r[j].displayTime)
  {
    var normal := Filter(memos, IsNormal);
    var byTime := SortBy(normal, TimeKey(orderByTimeAsc));
    SortBySorted(normal, TimeKey(orderByTimeAsc));
    SortBySortedLex(byTime, PinnedKey, TimeKey(orderByTimeAsc));
    LexOrderOfMemos(ListSort(memos, orderByTimeAsc), orderByTimeAsc);
  }

  /** The memos that tie on both sort keys. */
  function Tie(pinned: bool, displayTime: int): Memo -> bool
  {
    (m: Memo) => m.pinned == pinned && m.displayTime == displayTime
  }

  /**
    Ties keep their input order: the memos with one pinned flag and one
    display time appear in the result in the order they have among the
    NORMAL memos of the input.
   */
  lemma ListSortStable(memos: seq<Memo>, orderByTimeAsc: bool, pinned: bool, displayTime: int)
    ensures Filter(ListSort(memos, orderByTimeAsc), Tie(pinned, displayTime))
         == Filter(Filter(memos, IsNormal), Tie(pinned, displayTime))
  {
    var normal := Filter(memos, IsNormal);
    var byTime := SortBy(normal, TimeKey(orderByTimeAsc));
    SortByStable(byTime, PinnedKey, Tie(pinned, displayTime), if pinned then 0 else 1);
    SortByStable(normal, TimeKey(orderByTimeAsc), Tie(pinned, displayTime),
                 if orderByTimeAsc then displayTime else -displayTime);
  }

  lemma ExampleNormalMemos(a: Memo, b: Memo, c: Memo)
    requires a == Memo("a", Normal, false, 10)
    requires b == Memo("b", Normal, true, 5)
    requires c == Memo("c", Archived, false, 20)
    ensures Filter([a, b, c], IsNormal) == [a, b]
  {
      assert [a, b, c][1..] == [b, c] && [b, c][1..] == [c] && [c][1..] == [];
      assert Filter([c], IsNormal) == [];
      assert Filter([b, c], IsNormal) == [b];
  }
  lemma ExampleTimeSort(a: Memo, b: Memo)
    requires a == Memo("a", Normal, false, 10)
    requires b == Memo("b", Normal, true, 5)
    ensures SortBy([a, b], TimeKey(true)) == [b, a]
  {
      assert [a, b][1..] == [b] && [b][1..] == [];
      assert SortBy([b], TimeKey(true)) == [b];
      assert TimeKey(true)(a) == 10 && TimeKey(true)(b) == 5;
  }
  lemma ExamplePinnedSort(a: Memo, b: Memo)
    requires a == Memo("a", Normal, false, 10)
    requires b == Memo("b", Normal, true, 5)
    ensures SortBy([b, a], PinnedKey) == [b, a]
  {
      assert [b, a][1..] == [a] && [a][1..] == [];
      assert SortBy([a], PinnedKey) == [a];
  }

  /** The ordering example: an archived memo is dropped and the pinned memo leads despite its earlier time. */
  lemma ListSortExample(a: Memo, b: Memo, c: Memo)
    requires a == Memo("a", Normal, false, 10)
    requires b == Memo("b", Normal, true, 5)
    requires c == Memo("c", Archived, false, 20)
    ensures ListSort([a, b, c], true) == [b, a]
  {
    ExampleNormalMemos(a, b, c);
    ExampleTimeSort(a, b);
    ExamplePinnedSort(a, b);
  }

  /** Every class of memos sharing both keys keeps its input order. */
  lemma ListSortClasses(memos: seq<Memo>, orderByTimeAsc: bool)
    ensures SameClasses(ListSort(memos, orderByTimeAsc), Filter(memos, IsNormal), PinnedKey, TimeKey(orderByTimeAsc))
  {
    var time := TimeKey(orderByTimeAsc);
    var normal := Filter(memos, IsNormal);
    var byTime := SortBy(normal, time);
    forall a, b ensures Filter(ListSort(memos, orderByTimeAsc), Class(PinnedKey, time, a, b))
                     == Filter(normal, Class(PinnedKey, time, a, b)) {
      SortByStable(byTime, PinnedKey, Class(PinnedKey, time, a, b), a);
      SortByStable(normal, time, Class(PinnedKey, time, a, b), b);
    }
  }

  /**
    The two chained sorts amount to one stable sort keyed on pinned first and
    display time second: any sequence ordered that way that holds, for every
    pair of keys, the NORMAL input memos with those keys in their input order
    is the result of `listSort`.
   */
  lemma ListSortIsSingleStableSort(memos: seq<Memo>, orderByTimeAsc: bool, r: seq<Memo>)
    requires LexSortedBy(r, PinnedKey, TimeKey(orderByTimeAsc))
    requires SameClasses(r, Filter(memos, IsNormal), PinnedKey, TimeKey(orderByTimeAsc))
    ensures r == ListSort(memos, orderByTimeAsc)
  {
    var time := TimeKey(orderByTimeAsc);
    var normal := Filter(memos, IsNormal);
    var sorted := ListSort(memos, orderByTimeAsc);
    SortBySorted(normal, time);
    SortBySortedLex(SortBy(normal, time), PinnedKey, time);
    ListSortClasses(memos, orderByTimeAsc);
    forall a, b ensures Filter(r, Class(PinnedKey, time, a, b)) == Filter(sorted, Class(PinnedKey, time, a, b)) {
      assert Filter(r, Class(PinnedKey, time, a, b)) == Filter(normal, Class(PinnedKey, time, a, b));
      assert Filter(sorted, Class(PinnedKey, time, a, b)) == Filter(normal, Class(PinnedKey, time, a, b));
    }
    LexSortedUnique(r, sorted, PinnedKey, time);
  }
}
