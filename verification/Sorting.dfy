/** What `std::sort` leaves behind, and that under a strict total order nothing else
    could have been left behind. */
module Sorting {
  import opened Facts

  ghost predicate SortedBy<T(!new)>(less: (T, T) -> bool, s: seq<T>) {
    forall i, j | 0 <= i < j < |s| :: !less(s[j], s[i])
  }

  function Insert<T>(less: (T, T) -> bool, x: T, s: seq<T>): seq<T> {
    if |s| == 0 then [x]
    else if less(x, s[0]) then [x] + s
    else [s[0]] + Insert(less, x, s[1..])
  }

  function Sort<T>(less: (T, T) -> bool, s: seq<T>): seq<T> {
    if |s| == 0 then [] else Insert(less, s[0], Sort(less, s[1..]))
  }

  lemma {:induction false} InsertKeeps<T(!new)>(less: (T, T) -> bool, x: T, s: seq<T>)
    ensures multiset(Insert(less, x, s)) == multiset(s) + multiset{x}
    ensures |Insert(less, x, s)| == |s| + 1
  {
    if |s| > 0 && !less(x, s[0]) {
      InsertKeeps(less, x, s[1..]);
      assert s == [s[0]] + s[1..];
    }
  }

  /** The relation sorting needs: irreflexive, transitive, and so is being unordered. */
  ghost predicate StrictWeak<T(!new)>(less: (T, T) -> bool) {
    && (forall a :: !less(a, a))
    && (forall a, b, c :: less(a, b) && less(b, c) ==> less(a, c))
    && (forall a, b, c :: less(a, c) ==> less(a, b) || less(b, c))
  }

  lemma {:induction false} TotalIsWeak<T(!new)>(less: (T, T) -> bool)
    requires StrictTotal(less)
    ensures StrictWeak(less)
  {
    forall a, b, c | less(a, c) ensures less(a, b) || less(b, c) {
      assert a == b || less(a, b) || less(b, a);
      assert b == c || less(b, c) || less(c, b);
    }
  }

  lemma {:induction false} InsertSorts<T(!new)>(less: (T, T) -> bool, x: T, s: seq<T>)
    requires StrictWeak(less) && SortedBy(less, s)
    ensures SortedBy(less, Insert(less, x, s))
  {
    if |s| > 0 {
      if less(x, s[0]) {
        forall j | 0 <= j < |s| ensures !less(s[j], x) {
          assert j == 0 || !less(s[j], s[0]);
        }
      } else {
        InsertSorts(less, x, s[1..]);
        InsertKeeps(less, x, s[1..]);
        var r := Insert(less, x, s[1..]);
        forall j | 0 <= j < |r| ensures !less(r[j], s[0]) {
          assert r[j] in multiset(r);
          assert r[j] == x || r[j] in s[1..];
        }
      }
    }
  }

  lemma {:induction false} SortSorts<T(!new)>(less: (T, T) -> bool, s: seq<T>)
    requires StrictWeak(less)
    ensures SortedBy(less, Sort(less, s))
    ensures multiset(Sort(less, s)) == multiset(s)
    ensures |Sort(less, s)| == |s|
  {
    if |s| > 0 {
      SortSorts(less, s[1..]);
      InsertSorts(less, s[0], Sort(less, s[1..]));
      InsertKeeps(less, s[0], Sort(less, s[1..]));
      assert s == [s[0]] + s[1..];
    }
  }

  /** Any two sorted arrangements of the same elements are the same arrangement, so
      how the library sorts does not matter. */
  lemma {:induction false} SortedIsUnique<T(!new)>(less: (T, T) -> bool, a: seq<T>, b: seq<T>)
    requires StrictTotal(less) && SortedBy(less, a) && SortedBy(less, b) && multiset(a) == multiset(b)
    ensures a == b
  {
    assert |multiset(a)| == |a| && |multiset(b)| == |b|;
    if |a| > 0 {
      SameFirst(less, a, b);
      assert a == [a[0]] + a[1..] && b == [b[0]] + b[1..];
      SortedIsUnique(less, a[1..], b[1..]);
    }
  }

  lemma {:induction false} SameFirst<T(!new)>(less: (T, T) -> bool, a: seq<T>, b: seq<T>)
    requires StrictTotal(less) && SortedBy(less, a) && SortedBy(less, b) && multiset(a) == multiset(b)
    requires |a| > 0 && |b| > 0
    ensures a[0] == b[0] && multiset(a[1..]) == multiset(b[1..])
  {
    FirstIsLeast(less, a, b);
    hide StrictTotal, SortedBy;
    RestCounts(a);
    RestCounts(b);
  }

  lemma {:induction false} FirstIsLeast<T(!new)>(less: (T, T) -> bool, a: seq<T>, b: seq<T>)
    requires StrictTotal(less) && SortedBy(less, a) && SortedBy(less, b) && multiset(a) == multiset(b)
    requires |a| > 0 && |b| > 0
    ensures a[0] == b[0]
  {
    assert a[0] in multiset(b) && b[0] in multiset(a);
    var i :| 0 <= i < |b| && b[i] == a[0];
    var j :| 0 <= j < |a| && a[j] == b[0];
    assert (i == 0 || !less(b[i], b[0])) && (j == 0 || !less(a[j], a[0]));
  }

  lemma {:induction false} RestCounts<T>(a: seq<T>)
    requires |a| > 0
    ensures multiset(a[1..]) == multiset(a) - multiset{a[0]}
  {
    assert a == [a[0]] + a[1..];
  }

  lemma {:induction false} CountPositions<T>(s: seq<T>, x: T)
    ensures multiset(s)[x] >= 2 <==> exists i, j :: 0 <= i < j < |s| && s[i] == x && s[j] == x
    ensures multiset(s)[x] >= 1 <==> x in s
  {
    if |s| > 0 {
      CountPositions(s[1..], x);
      assert s == [s[0]] + s[1..];
      assert multiset(s)[x] == multiset(s[1..])[x] + (if s[0] == x then 1 else 0);
      if exists i, j :: 0 <= i < j < |s| && s[i] == x && s[j] == x {
        var i, j :| 0 <= i < j < |s| && s[i] == x && s[j] == x;
        assert s[1..][j - 1] == x;
        if i > 0 { assert s[1..][i - 1] == x; }
      }
      if exists i, j :: 0 <= i < j < |s[1..]| && s[1..][i] == x && s[1..][j] == x {
        var i, j :| 0 <= i < j < |s[1..]| && s[1..][i] == x && s[1..][j] == x;
        assert s[i + 1] == x && s[j + 1] == x;
      }
      if s[0] == x && x in s[1..] {
        var j :| 0 <= j < |s[1..]| && s[1..][j] == x;
        assert s[0] == x && s[j + 1] == x;
      }
    }
  }
}
