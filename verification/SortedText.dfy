/** Python's `sorted` and `list.sort` on strings, by code points: the result is
    ordered, stable, and for plain strings depends on the contents only. */
module SortedText {

  predicate LexLe(a: string, b: string) {
    a == "" || (b != "" && (a[0] < b[0] || (a[0] == b[0] && LexLe(a[1..], b[1..]))))
  }

  lemma {:induction false} LexTotal(a: string, b: string)
    ensures LexLe(a, b) || LexLe(b, a)
    ensures LexLe(a, b) && LexLe(b, a) ==> a == b
  {
    if a != "" && b != "" {
      LexTotal(a[1..], b[1..]);
      assert a == [a[0]] + a[1..] && b == [b[0]] + b[1..];
    }
  }

  lemma {:induction false} LexTransitive(a: string, b: string, c: string)
    requires LexLe(a, b) && LexLe(b, c)
    ensures LexLe(a, c)
  {
    if a != "" && a[0] == b[0] && b[0] == c[0] {
      LexTransitive(a[1..], b[1..], c[1..]);
    }
  }

  ghost predicate IsSorted(s: seq<string>) {
    forall i, j :: 0 <= i < j < |s| ==> LexLe(s[i], s[j])
  }

  /** Ordered by their keys. */
  ghost predicate InOrder<T(!new)>(s: seq<T>, key: T -> string) {
    forall i, j :: 0 <= i < j < |s| ==> LexLe(key(s[i]), key(s[j]))
  }

  /** In front of all elements with the same key. */
  function Insert<T>(x: T, s: seq<T>, key: T -> string): seq<T> {
    if s == [] || LexLe(key(x), key(s[0])) then [x] + s else [s[0]] + Insert(x, s[1..], key)
  }

  /** `s.sort(key=key)`. */
  function SortBy<T>(s: seq<T>, key: T -> string): seq<T> {
    if s == [] then [] else Insert(s[0], SortBy(s[1..], key), key)
  }

  /** `sorted(s)`. */
  function Sort(s: seq<string>): seq<string> {
    SortBy(s, (x: string) => x)
  }

  lemma {:induction false} InsertKeepsContents<T>(x: T, s: seq<T>, key: T -> string)
    ensures multiset(Insert(x, s, key)) == multiset(s) + multiset{x}
    ensures forall y :: y in Insert(x, s, key) <==> y == x || y in s
  {
    hide LexLe;
    if s != [] && !LexLe(key(x), key(s[0])) {
      InsertKeepsContents(x, s[1..], key);
      assert s == [s[0]] + s[1..];
    }
  }

  lemma {:induction false} InsertKeepsOrder<T(!new)>(x: T, s: seq<T>, key: T -> string)
    requires InOrder(s, key)
    ensures InOrder(Insert(x, s, key), key)
  {
    hide LexLe;
    if s == [] {
    } else if LexLe(key(x), key(s[0])) {
      forall j | 0 <= j < |s|
        ensures LexLe(key(x), key(s[j]))
      {
        if j > 0 { LexTransitive(key(x), key(s[0]), key(s[j])); }
      }
    } else {
      var rest := Insert(x, s[1..], key);
      InsertKeepsOrder(x, s[1..], key);
      InsertKeepsContents(x, s[1..], key);
      LexTotal(key(x), key(s[0]));
      forall y | y in rest
        ensures LexLe(key(s[0]), key(y))
      {
        if y != x {
          var i :| 0 <= i < |s[1..]| && s[1..][i] == y;
          assert s[i + 1] == y;
        }
      }
    }
  }

  /** The elements with a given key, in their order. */
  function Having<T>(s: seq<T>, key: T -> string, k: string): seq<T> {
    if s == [] then [] else (if key(s[0]) == k then [s[0]] else []) + Having(s[1..], key, k)
  }

  lemma {:induction false} InsertIsStable<T>(x: T, s: seq<T>, key: T -> string, k: string)
    ensures Having(Insert(x, s, key), key, k) == (if key(x) == k then [x] else []) + Having(s, key, k)
  {
    if s != [] && !LexLe(key(x), key(s[0])) {
      InsertIsStable(x, s[1..], key, k);
      LexTotal(key(x), key(s[0]));
      hide LexLe;
      assert Insert(x, s, key)[1..] == Insert(x, s[1..], key);
    } else {
      hide LexLe;
      assert Insert(x, s, key)[1..] == s;
    }
  }

  /** Sorting orders by the keys, keeps the contents, and keeps elements with the
      same key in their order. */
  lemma {:induction false} SortBySorts<T(!new)>(s: seq<T>, key: T -> string)
    ensures InOrder(SortBy(s, key), key) && multiset(SortBy(s, key)) == multiset(s)
    ensures forall x :: x in SortBy(s, key) <==> x in s
    ensures forall k :: Having(SortBy(s, key), key, k) == Having(s, key, k)
  {
    hide Insert, LexLe;
    if s != [] {
      var rest := SortBy(s[1..], key);
      SortBySorts(s[1..], key);
      InsertKeepsOrder(s[0], rest, key);
      InsertKeepsContents(s[0], rest, key);
      assert s == [s[0]] + s[1..];
      forall k
        ensures Having(SortBy(s, key), key, k) == Having(s, key, k)
      {
        InsertIsStable(s[0], rest, key, k);
      }
    }
  }

  lemma SortSorts(s: seq<string>)
    ensures IsSorted(Sort(s)) && multiset(Sort(s)) == multiset(s)
    ensures forall x :: x in Sort(s) <==> x in s
  {
    hide LexLe, SortBy, Having;
    SortBySorts(s, (x: string) => x);
  }

  lemma LeastIsFirst(s: seq<string>, x: string)
    requires IsSorted(s) && x in s
    ensures LexLe(s[0], x)
  {
    LexTotal(x, x);
  }

  lemma SameHead(a: seq<string>, b: seq<string>)
    requires IsSorted(a) && IsSorted(b) && a != [] && b != []
    requires b[0] in a && a[0] in b
    ensures a[0] == b[0]
  {
    hide LexLe;
    LeastIsFirst(a, b[0]);
    LeastIsFirst(b, a[0]);
    LexTotal(a[0], b[0]);
  }

  lemma Tail(s: seq<string>)
    requires IsSorted(s) && s != []
    ensures IsSorted(s[1..]) && multiset(s[1..]) == multiset(s) - multiset{s[0]} && s[0] in multiset(s)
  {
    hide LexLe;
    assert s == [s[0]] + s[1..];
  }

  /** Two sorted lists with the same contents are the same list. */
  lemma {:induction false} SortedIsUnique(a: seq<string>, b: seq<string>)
    requires IsSorted(a) && IsSorted(b) && multiset(a) == multiset(b)
    ensures a == b
    decreases |a|
  {
    hide LexLe, IsSorted;
    assert |multiset(a)| == |a| && |multiset(b)| == |b|;
    if a != [] {
      Tail(a);
      Tail(b);
      SameHead(a, b);
      SortedIsUnique(a[1..], b[1..]);
      assert a == [a[0]] + a[1..] && b == [b[0]] + b[1..];
    }
  }

  /** Sorting depends on the contents only. */
  lemma SortOfSame(a: seq<string>, b: seq<string>)
    requires multiset(a) == multiset(b)
    ensures Sort(a) == Sort(b)
  {
    SortSorts(a);
    SortSorts(b);
    SortedIsUnique(Sort(a), Sort(b));
  }
}
