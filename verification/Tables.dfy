/** Sorting, grouping and striding as the data-frame library does them. */
module Tables {
  import opened Basics

  // ------------------------------------------------------------------ one way to sort

  ghost predicate Ordered<T>(s: seq<T>, key: T -> real) {
    forall i, j :: 0 <= i < j < |s| ==> key(s[i]) <= key(s[j])
  }

  function Insert<T>(s: seq<T>, x: T, key: T -> real): (r: seq<T>)
    ensures |r| == |s| + 1
  {
    if s == [] || key(s[|s| - 1]) <= key(x) then s + [x]
    else Insert(s[..|s| - 1], x, key) + [s[|s| - 1]]
  }

  /** Insertion sort, which keeps equal entries in their order. */
  function SortBy<T>(s: seq<T>, key: T -> real): (r: seq<T>)
    ensures |r| == |s|
  {
    if s == [] then [] else Insert(SortBy(s[..|s| - 1], key), s[|s| - 1], key)
  }

  lemma {:induction false} InsertKeeps<T>(s: seq<T>, x: T, key: T -> real)
    ensures multiset(Insert(s, x, key)) == multiset(s) + multiset{x}
  {
    if s != [] && key(s[|s| - 1]) > key(x) {
      InsertKeeps(s[..|s| - 1], x, key);
      assert s == s[..|s| - 1] + [s[|s| - 1]];
    }
  }

  lemma {:induction false} InsertOrdered<T>(s: seq<T>, x: T, key: T -> real)
    requires Ordered(s, key)
    ensures Ordered(Insert(s, x, key), key)
  {
    if s != [] && key(s[|s| - 1]) > key(x) {
      var front, last := s[..|s| - 1], s[|s| - 1];
      InsertOrdered(front, x, key);
      InsertKeeps(front, x, key);
      var r := Insert(front, x, key);
      forall i | 0 <= i < |r|
        ensures key(r[i]) <= key(last)
      {
        assert r[i] in multiset(r);
        assert r[i] in front || r[i] == x;
      }
    }
  }

  lemma {:induction false} SortSorts<T>(s: seq<T>, key: T -> real)
    ensures Ordered(SortBy(s, key), key)
    ensures multiset(SortBy(s, key)) == multiset(s)
  {
    if s != [] {
      var front := s[..|s| - 1];
      SortSorts(front, key);
      InsertOrdered(SortBy(front, key), s[|s| - 1], key);
      InsertKeeps(SortBy(front, key), s[|s| - 1], key);
      assert s == front + [s[|s| - 1]];
    }
  }

  lemma SortMembers<T>(s: seq<T>, key: T -> real, x: T)
    ensures x in SortBy(s, key) <==> x in s
  {
    SortSorts(s, key);
    assert x in SortBy(s, key) <==> x in multiset(SortBy(s, key));
  }

  // ------------------------------------------------------------------ sorting a table by a column

  /** A sort of a column: the row numbers in the order it arranges them. Equal entries may come in any order. */
  type Sorter = seq<real> -> seq<int>

  /** 0, 1, ..., n - 1. */
  function Indices(n: nat): (r: seq<int>)
    ensures |r| == n
    ensures forall i :: 0 <= i < n ==> r[i] == i
  {
    seq(n, i requires 0 <= i < n => i)
  }

  ghost predicate Arranges(col: seq<real>, order: seq<int>) {
    && |order| == |col| && multiset(order) == multiset(Indices(|col|))
    && (forall i :: 0 <= i < |order| ==> 0 <= order[i] < |col|)
    && (forall i, j :: 0 <= i < j < |order| ==> col[order[i]] <= col[order[j]])
  }

  ghost predicate Sorts(sort: Sorter) {
    forall col :: Arranges(col, sort(col))
  }

  lemma SortsColumn(sort: Sorter, col: seq<real>)
    requires Sorts(sort)
    ensures Arranges(col, sort(col))
  {
  }

  /** The table `s` arranged by the column read through `key`. */
  function Arranged<T>(s: seq<T>, sort: Sorter, key: T -> real): (r: seq<T>)
    requires Sorts(sort)
    ensures |r| == |s|
  {
    SortsColumn(sort, Map(s, key));
    var order := sort(Map(s, key));
    seq(|s|, i requires 0 <= i < |s| => s[order[i]])
  }

  lemma WithoutOne<T>(s: seq<T>, i: nat)
    requires i < |s|
    ensures multiset(s) == multiset(Without(s, i)) + multiset{s[i]}
    ensures multiset(Without(s, i)) == multiset(s) - multiset{s[i]}
  {
    assert s == s[..i] + [s[i]] + s[i + 1..];
  }

  lemma MapWithout<T, U>(s: seq<T>, i: nat, f: T -> U)
    requires i < |s|
    ensures Map(Without(s, i), f) == Without(Map(s, f), i)
  {
  }

  lemma {:induction false} MapMultiset<T, U>(a: seq<T>, b: seq<T>, f: T -> U)
    requires multiset(a) == multiset(b)
    ensures multiset(Map(a, f)) == multiset(Map(b, f))
    decreases |a|
  {
    SameLength(a, b);
    if a != [] {
      var last := |a| - 1;
      assert a[last] in multiset(b);
      var i :| 0 <= i < |b| && b[i] == a[last];
      WithoutOne(a, last);
      WithoutOne(b, i);
      hide Without;
      WithoutShorter(a, last);
      MapMultiset(Without(a, last), Without(b, i), f);
      MapWithout(a, last, f);
      MapWithout(b, i, f);
      WithoutOne(Map(a, f), last);
      WithoutOne(Map(b, f), i);
    }
  }

  lemma WithoutShorter<T>(s: seq<T>, i: nat)
    requires i < |s|
    ensures |Without(s, i)| == |s| - 1
  {
  }

  function At<T>(s: seq<T>): int -> T
    requires s != []
  {
    i => if 0 <= i < |s| then s[i] else s[0]
  }

  /** Whatever the sort, arranging a table orders it and loses and invents no row. */
  lemma ArrangedSorts<T>(s: seq<T>, sort: Sorter, key: T -> real)
    requires Sorts(sort)
    ensures Ordered(Arranged(s, sort, key), key)
    ensures multiset(Arranged(s, sort, key)) == multiset(s)
  {
    var col := Map(s, key);
    SortsColumn(sort, col);
    hide Sorts;
    if s != [] {
      MapMultiset(sort(col), Indices(|s|), At(s));
      assert Map(sort(col), At(s)) == Arranged(s, sort, key);
      assert Map(Indices(|s|), At(s)) == s;
    }
  }

  lemma ArrangedMembers<T>(s: seq<T>, sort: Sorter, key: T -> real, x: T)
    requires Sorts(sort)
    ensures x in Arranged(s, sort, key) <==> x in s
  {
    hide Sorts;
    ArrangedSorts(s, sort, key);
    assert x in Arranged(s, sort, key) <==> x in multiset(Arranged(s, sort, key));
  }

  /** Arranging row numbers by a column and fetching the rows is arranging the rows. */
  lemma ArrangedMapped<T, U>(s: seq<T>, f: T -> U, sort: Sorter, key: U -> real, keyOf: T -> real)
    requires Sorts(sort) && forall i :: 0 <= i < |s| ==> key(f(s[i])) == keyOf(s[i])
    ensures Map(Arranged(s, sort, keyOf), f) == Arranged(Map(s, f), sort, key)
  {
    SortsColumn(sort, Map(s, keyOf));
    hide Sorts;
    assert Map(s, keyOf) == Map(Map(s, f), key);
  }

  /** Tables with the same column are arranged alike. */
  lemma SameColumnSameOrder<T>(s: seq<T>, sort: Sorter, key: T -> real, other: T -> real)
    requires Sorts(sort) && forall i :: 0 <= i < |s| ==> key(s[i]) == other(s[i])
    ensures Arranged(s, sort, key) == Arranged(s, sort, other)
  {
    hide Sorts;
    assert Map(s, key) == Map(s, other);
  }

  lemma SameLength<T>(a: seq<T>, b: seq<T>)
    requires multiset(a) == multiset(b)
    ensures |a| == |b|
  {
    assert |multiset(a)| == |a| && |multiset(b)| == |b|;
  }

  lemma FrontMultiset<T>(s: seq<T>)
    requires s != []
    ensures multiset(s[..|s| - 1]) == multiset(s) - multiset{s[|s| - 1]}
  {
    assert s == s[..|s| - 1] + [s[|s| - 1]];
  }

  ghost predicate Distinct<T(!new)>(s: seq<T>) {
    forall i, j :: 0 <= i < j < |s| ==> s[i] != s[j]
  }

  lemma {:induction false} DistinctMultiset<T(!new)>(s: seq<T>)
    ensures Distinct(s) <==> forall x :: multiset(s)[x] <= 1
  {
    if s != [] {
      var front, x := s[..|s| - 1], s[|s| - 1];
      DistinctMultiset(front);
      assert s == front + [x];
      assert multiset(s) == multiset(front) + multiset{x};
      assert x in front <==> multiset(front)[x] >= 1;
      if Distinct(s) {
        assert x !in front;
      }
      if forall y :: multiset(s)[y] <= 1 {
        assert multiset(s)[x] == multiset(front)[x] + 1;
        assert forall y :: multiset(front)[y] <= multiset(s)[y];
      }
    }
  }

  function Itself(x: real): real {
    x
  }

  lemma SameLast(a: seq<real>, b: seq<real>)
    requires Ordered(a, Itself) && Ordered(b, Itself) && multiset(a) == multiset(b) && a != [] && b != []
    ensures a[|a| - 1] == b[|b| - 1]
  {
    var x, y := a[|a| - 1], b[|b| - 1];
    assert x in multiset(b) && y in multiset(a);
    var i :| 0 <= i < |b| && b[i] == x;
    var j :| 0 <= j < |a| && a[j] == y;
    assert Itself(x) <= Itself(y) && Itself(y) <= Itself(x);
  }

  /** A column has one ordered arrangement. */
  lemma {:induction false} ColumnIsUnique(a: seq<real>, b: seq<real>)
    requires Ordered(a, Itself) && Ordered(b, Itself) && multiset(a) == multiset(b)
    ensures a == b
    decreases |a|
  {
    SameLength(a, b);
    if a != [] {
      SameLast(a, b);
      FrontMultiset(a);
      FrontMultiset(b);
      ColumnIsUnique(a[..|a| - 1], b[..|b| - 1]);
      assert a == a[..|a| - 1] + [a[|a| - 1]];
      assert b == b[..|b| - 1] + [b[|b| - 1]];
    }
  }

  /** Rows with equal keys look alike through `f`. */
  ghost predicate TiesAlike<T, U>(s: seq<T>, key: T -> real, f: T -> U) {
    forall i, j :: 0 <= i < j < |s| && key(s[i]) == key(s[j]) ==> f(s[i]) == f(s[j])
  }

  /** All ordered arrangements of a table look alike through `f` if its ties do. */
  lemma SortIsUnique<T, U>(a: seq<T>, b: seq<T>, key: T -> real, f: T -> U)
    requires Ordered(a, key) && Ordered(b, key) && multiset(a) == multiset(b) && TiesAlike(a, key, f)
    ensures Map(a, f) == Map(b, f)
  {
    SameLength(a, b);
    MapMultiset(a, b, key);
    ColumnIsUnique(Map(a, key), Map(b, key));
    forall i | 0 <= i < |a|
      ensures f(a[i]) == f(b[i])
    {
      assert b[i] in multiset(a);
      var j :| 0 <= j < |a| && a[j] == b[i];
      assert key(a[i]) == Map(a, key)[i] == Map(b, key)[i] == key(a[j]);
    }
  }

  // ------------------------------------------------------------------ two sorts that exist

  /** The sort that keeps equal entries in their order. */
  function StableSort(): Sorter {
    (col: seq<real>) => SortBy(Indices(|col|), (i: int) => if 0 <= i < |col| then col[i] else 0.0)
  }

  lemma StableSortSorts()
    ensures Sorts(StableSort())
  {
    forall col: seq<real>
      ensures Arranges(col, StableSort()(col))
    {
      var key := (i: int) => if 0 <= i < |col| then col[i] else 0.0;
      SortSorts(Indices(|col|), key);
      var order := SortBy(Indices(|col|), key);
      assert StableSort()(col) == order;
      forall i | 0 <= i < |order|
        ensures 0 <= order[i] < |col|
      {
        assert order[i] in multiset(Indices(|col|));
      }
      assert forall i, j :: 0 <= i < j < |order| ==> key(order[i]) <= key(order[j]);
    }
  }

  /** A sort that leaves the ordered column `col` in place except for swapping the equal entries i and j. */
  function SwappingSort(tied: seq<real>, i: nat, j: nat): Sorter
    requires i < j < |tied|
  {
    (col: seq<real>) => if col == tied then Indices(|tied|)[i := j][j := i] else StableSort()(col)
  }

  lemma SwappedArranges(tied: seq<real>, i: nat, j: nat)
    requires i < j < |tied| && tied[i] == tied[j] && Ordered(tied, Itself)
    ensures Arranges(tied, Indices(|tied|)[i := j][j := i])
  {
    var order := Indices(|tied|)[i := j][j := i];
    SwapMultiset(Indices(|tied|), i, j);
    assert forall k :: 0 <= k < |order| ==> 0 <= order[k] < |tied| && tied[order[k]] == tied[k];
    forall k, m | 0 <= k < m < |order|
      ensures tied[order[k]] <= tied[order[m]]
    {
      assert Itself(tied[k]) <= Itself(tied[m]);
    }
  }

  lemma SwappingSortSorts(tied: seq<real>, i: nat, j: nat)
    requires i < j < |tied| && tied[i] == tied[j] && Ordered(tied, Itself)
    ensures Sorts(SwappingSort(tied, i, j))
  {
    hide Arranges, Ordered, Indices;
    StableSortSorts();
    SwappedArranges(tied, i, j);
    forall col: seq<real>
      ensures Arranges(col, SwappingSort(tied, i, j)(col))
    {
      if col != tied {
        SortsColumn(StableSort(), col);
      }
    }
  }

  lemma SwappingSortSwaps(tied: seq<real>, i: nat, j: nat)
    requires i < j < |tied|
    ensures |SwappingSort(tied, i, j)(tied)| == |tied|
    ensures SwappingSort(tied, i, j)(tied)[i] == j && SwappingSort(tied, i, j)(tied)[j] == i
  {
    assert SwappingSort(tied, i, j)(tied) == Indices(|tied|)[i := j][j := i];
  }

  lemma SwapMultiset(s: seq<int>, i: nat, j: nat)
    requires i < j < |s|
    ensures multiset(s[i := s[j]][j := s[i]]) == multiset(s)
  {
  }

  /** A sort that leaves a table looking as it was shows that it was ordered. */
  lemma FixedIsOrdered<T, U>(s: seq<T>, sort: Sorter, key: T -> real, f: T -> U, keyOf: U -> real)
    requires Sorts(sort) && forall x :: x in s ==> keyOf(f(x)) == key(x)
    requires Map(Arranged(s, sort, key), f) == Map(s, f)
    ensures Ordered(s, key)
  {
    var arranged := Arranged(s, sort, key);
    ArrangedSorts(s, sort, key);
    hide Sorts;
    forall i | 0 <= i < |s|
      ensures key(s[i]) == key(arranged[i])
    {
      ArrangedMembers(s, sort, key, arranged[i]);
      assert keyOf(Map(s, f)[i]) == keyOf(Map(arranged, f)[i]);
    }
  }

  /** Two rows with equal keys that look different are swapped by some sort. */
  lemma SomeSortMoves<T, U>(s: seq<T>, key: T -> real, f: T -> U, i: nat, j: nat)
    requires Ordered(s, key) && i < j < |s| && key(s[i]) == key(s[j]) && f(s[i]) != f(s[j])
    ensures exists sort :: Sorts(sort) && Map(Arranged(s, sort, key), f) != Map(s, f)
  {
    hide Sorts;
    var col := Map(s, key);
    assert forall m, p :: 0 <= m < p < |col| ==> Itself(col[m]) <= Itself(col[p]);
    SwappingSortSorts(col, i, j);
    SwappingSortSwaps(col, i, j);
    var sort := SwappingSort(col, i, j);
    assert Map(Arranged(s, sort, key), f)[i] != Map(s, f)[i];
  }

  /** Every sort leaves a table looking as it is exactly when it is ordered and its ties look alike. */
  lemma EverySortFixesIff<T, U>(s: seq<T>, key: T -> real, f: T -> U, keyOf: U -> real)
    requires forall x :: x in s ==> keyOf(f(x)) == key(x)
    ensures (forall sort :: Sorts(sort) ==> Map(Arranged(s, sort, key), f) == Map(s, f))
            <==> Ordered(s, key) && TiesAlike(s, key, f)
  {
    hide Sorts, Ordered;
    if Ordered(s, key) && TiesAlike(s, key, f) {
      forall sort | Sorts(sort)
        ensures Map(Arranged(s, sort, key), f) == Map(s, f)
      {
        ArrangedSorts(s, sort, key);
        SortIsUnique(s, Arranged(s, sort, key), key, f);
      }
    }
    if forall sort :: Sorts(sort) ==> Map(Arranged(s, sort, key), f) == Map(s, f) {
      StableSortSorts();
      FixedIsOrdered(s, StableSort(), key, f, keyOf);
      if i, j :| 0 <= i < j < |s| && key(s[i]) == key(s[j]) && f(s[i]) != f(s[j]) {
        SomeSortMoves(s, key, f, i, j);
      }
    }
  }

  // ------------------------------------------------------------------ group keys

  predicate StringLess(a: string, b: string) {
    if b == "" then false
    else if a == "" then true
    else a[0] < b[0] || (a[0] == b[0] && StringLess(a[1..], b[1..]))
  }

  lemma {:induction false} StringLessTotal(a: string, b: string)
    ensures StringLess(a, b) || StringLess(b, a) || a == b
    ensures !(StringLess(a, b) && StringLess(b, a)) && !StringLess(a, a)
    decreases |a|
  {
    if a != "" && b != "" && a[0] == b[0] {
      StringLessTotal(a[1..], b[1..]);
      assert a == [a[0]] + a[1..] && b == [b[0]] + b[1..];
    }
    if a != "" {
      StringLessTotal(a[1..], a[1..]);
    }
  }

  lemma {:induction false} StringLessTransitive(a: string, b: string, c: string)
    requires StringLess(a, b) && StringLess(b, c)
    ensures StringLess(a, c)
  {
    if a != "" && a[0] == b[0] == c[0] {
      StringLessTransitive(a[1..], b[1..], c[1..]);
    }
  }

  /** At the first place where they differ, a ends or has the smaller character. */
  ghost predicate Precedes(a: string, b: string) {
    exists k: nat :: SplitAt(a, b, k)
  }

  ghost predicate SplitAt(a: string, b: string, k: nat) {
    k < |b| && k <= |a| && a[..k] == b[..k] && (k == |a| || a[k] < b[k])
  }

  lemma SplitLater(a: string, b: string, k: nat)
    requires SplitAt(a, b, k)
    ensures b != "" && (k == 0 || (a != "" && a[0] == b[0]))
  {
    if k > 0 {
      assert a[..k][0] == b[..k][0];
    }
  }

  lemma {:induction false} StringLessIff(a: string, b: string)
    ensures StringLess(a, b) <==> Precedes(a, b)
  {
    if a == "" || b == "" || a[0] != b[0] {
      if b != "" {
        assert a[..0] == b[..0];
        assert StringLess(a, b) ==> SplitAt(a, b, 0);
      }
      if k: nat :| SplitAt(a, b, k) {
        SplitLater(a, b, k);
      }
    } else {
      StringLessIff(a[1..], b[1..]);
      if k: nat :| SplitAt(a[1..], b[1..], k) {
        assert a[..k + 1] == [a[0]] + a[1..][..k] && b[..k + 1] == [b[0]] + b[1..][..k];
        assert SplitAt(a, b, k + 1);
      }
      if k: nat :| SplitAt(a, b, k) {
        if k > 0 {
          assert a[1..][..k - 1] == a[..k][1..] && b[1..][..k - 1] == b[..k][1..];
          assert SplitAt(a[1..], b[1..], k - 1);
        }
      }
    }
  }

  datatype Key = Key(linkId: string, channelId: string)

  predicate KeyLess(a: Key, b: Key) {
    StringLess(a.linkId, b.linkId) || (a.linkId == b.linkId && StringLess(a.channelId, b.channelId))
  }

  lemma KeyLessOrder(a: Key, b: Key)
    ensures KeyLess(a, b) || KeyLess(b, a) || a == b
    ensures !KeyLess(a, a)
  {
    StringLessTotal(a.linkId, b.linkId);
    StringLessTotal(a.channelId, b.channelId);
    StringLessTotal(a.linkId, a.linkId);
    StringLessTotal(a.channelId, a.channelId);
  }

  lemma KeyLessTransitive(a: Key, b: Key, c: Key)
    requires KeyLess(a, b) && KeyLess(b, c)
    ensures KeyLess(a, c)
  {
    if StringLess(a.linkId, b.linkId) && StringLess(b.linkId, c.linkId) {
      StringLessTransitive(a.linkId, b.linkId, c.linkId);
    } else if a.linkId == b.linkId == c.linkId {
      StringLessTransitive(a.channelId, b.channelId, c.channelId);
    }
  }

  ghost predicate KeysAscend(keys: seq<Key>) {
    forall i, j :: 0 <= i < j < |keys| ==> KeyLess(keys[i], keys[j])
  }

  function AddKey(keys: seq<Key>, k: Key): seq<Key> {
    if keys == [] then [k]
    else
      var last := keys[|keys| - 1];
      if last == k then keys
      else if KeyLess(last, k) then keys + [k]
      else AddKey(keys[..|keys| - 1], k) + [last]
  }

  lemma {:induction false} AddKeyMember(keys: seq<Key>, k: Key, x: Key)
    ensures x in AddKey(keys, k) <==> x in keys || x == k
  {
    if keys != [] {
      AddKeyMember(keys[..|keys| - 1], k, x);
      assert keys == keys[..|keys| - 1] + [keys[|keys| - 1]];
    }
  }

  lemma {:induction false} AddKeyAscends(keys: seq<Key>, k: Key)
    requires KeysAscend(keys)
    ensures KeysAscend(AddKey(keys, k))
  {
    if keys != [] {
      var front, last := keys[..|keys| - 1], keys[|keys| - 1];
      KeyLessOrder(last, k);
      if last != k && KeyLess(last, k) {
        forall i | 0 <= i < |front|
          ensures KeyLess(keys[i], k)
        {
          KeyLessTransitive(keys[i], last, k);
        }
      } else if last != k {
        AddKeyAscends(front, k);
        forall i | 0 <= i < |AddKey(front, k)|
          ensures KeyLess(AddKey(front, k)[i], last)
        {
          AddKeyMember(front, k, AddKey(front, k)[i]);
        }
      }
    }
  }

  /** The distinct keys of a table, in ascending order. */
  function GroupKeys(keys: seq<Key>): seq<Key> {
    if keys == [] then [] else AddKey(GroupKeys(keys[..|keys| - 1]), keys[|keys| - 1])
  }

  lemma {:induction false} GroupKeysSorted(keys: seq<Key>)
    ensures KeysAscend(GroupKeys(keys))
    ensures forall x :: x in GroupKeys(keys) <==> x in keys
  {
    if keys != [] {
      var front, last := keys[..|keys| - 1], keys[|keys| - 1];
      GroupKeysSorted(front);
      AddKeyAscends(GroupKeys(front), last);
      forall x
        ensures x in GroupKeys(keys) <==> x in keys
      {
        AddKeyMember(GroupKeys(front), last, x);
        assert keys == front + [last];
      }
    }
  }

  lemma LastIsNew(keys: seq<Key>)
    requires KeysAscend(keys) && keys != []
    ensures keys[|keys| - 1] !in keys[..|keys| - 1]
  {
    KeyLessOrder(keys[|keys| - 1], keys[|keys| - 1]);
  }

  // ------------------------------------------------------------------ strides

  /** How many elements a stride picks out of n: the quotient rounded up. */
  function StrideCount(n: nat, stride: nat): nat
    requires stride >= 1
  {
    (n + stride - 1) / stride
  }

  lemma StrideInside(n: nat, stride: nat, i: nat)
    requires stride >= 1
    ensures i < StrideCount(n, stride) <==> i * stride < n
  {
    var q := (n + stride - 1) / stride;
    assert q * stride <= n + stride - 1 < q * stride + stride;
    if i < q {
      ProductMonotone(i, q - 1, stride);
      assert (q - 1) * stride == q * stride - stride;
    } else {
      ProductMonotone(q, i, stride);
    }
  }

  lemma ProductMonotone(a: nat, b: nat, c: nat)
    requires a <= b
    ensures a * c <= b * c
  {
    assert b * c - a * c == (b - a) * c;
  }

  /** Elements 0, stride, 2 * stride, ... */
  function Every<T>(s: seq<T>, stride: nat): (r: seq<T>)
    requires stride >= 1
    ensures |r| == StrideCount(|s|, stride)
    ensures forall i :: 0 <= i < |r| ==> i * stride < |s| && r[i] == s[i * stride]
  {
    assert forall i: nat :: i < StrideCount(|s|, stride) ==> i * stride < |s| by {
      forall i: nat | i < StrideCount(|s|, stride)
        ensures i * stride < |s|
      {
        StrideInside(|s|, stride, i);
      }
    }
    seq(StrideCount(|s|, stride), i requires 0 <= i < StrideCount(|s|, stride) => s[i * stride])
  }

  lemma EveryMapped<T, U>(s: seq<T>, f: T -> U, stride: nat)
    requires stride >= 1
    ensures Every(Map(s, f), stride) == Map(Every(s, stride), f)
  {
  }
}
