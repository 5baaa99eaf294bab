/** Facts about the sort step of `handleDataSort`: `_.sortBy` is a stable ascending
    sort, `_.reverse` turns it into a descending order in which equal sort values keep
    the reverse of their input order, and sorting commutes with selecting a group. */
module GroupingSort {
  import opened Base
  import opened Grouping

  lemma {:induction false} WithValueAppend(a: seq<Entry>, b: seq<Entry>, v: int)
    ensures WithValue(a + b, v) == WithValue(a, v) + WithValue(b, v)
    decreases |a|
  {
    if a == [] {
      assert a + b == b;
    } else {
      var s0 := a[0];
      var head := if s0.sortValue == v then [s0] else [];
      assert (a + b)[0] == s0;
      assert (a + b)[1..] == a[1..] + b;
      assert WithValue(a + b, v) == head + WithValue(a[1..] + b, v);
      assert WithValue(a, v) == head + WithValue(a[1..], v);
      WithValueAppend(a[1..], b, v);
      assert head + (WithValue(a[1..], v) + WithValue(b, v)) == (head + WithValue(a[1..], v)) + WithValue(b, v);
    }
  }

  lemma {:induction false} WithKeyAppend(a: seq<Entry>, b: seq<Entry>, k: string)
    ensures WithKey(a + b, k) == WithKey(a, k) + WithKey(b, k)
    decreases |a|
  {
    if a == [] {
      assert a + b == b;
    } else {
      var s0 := a[0];
      var head := if KeyOf(s0) == k then [s0] else [];
      assert (a + b)[0] == s0;
      assert (a + b)[1..] == a[1..] + b;
      assert WithKey(a + b, k) == head + WithKey(a[1..] + b, k);
      assert WithKey(a, k) == head + WithKey(a[1..], k);
      WithKeyAppend(a[1..], b, k);
      assert head + (WithKey(a[1..], k) + WithKey(b, k)) == (head + WithKey(a[1..], k)) + WithKey(b, k);
    }
  }

  lemma {:induction false} WithValueMembers(s: seq<Entry>, v: int)
    ensures forall x :: x in WithValue(s, v) <==> x in s && x.sortValue == v
  {
    if s != [] {
      WithValueMembers(s[1..], v);
      assert s == [s[0]] + s[1..];
    }
  }

  lemma {:induction false} WithKeyMembers(s: seq<Entry>, k: string)
    ensures forall x :: x in WithKey(s, k) <==> x in s && KeyOf(x) == k
  {
    if s != [] {
      WithKeyMembers(s[1..], k);
      assert s == [s[0]] + s[1..];
    }
  }

  /** Selecting a sort value and selecting a group key commute. */
  lemma {:induction false} FiltersCommute(s: seq<Entry>, k: string, v: int)
    ensures WithValue(WithKey(s, k), v) == WithKey(WithValue(s, v), k)
  {
    if s != [] {
      FiltersCommute(s[1..], k, v);
      var head := if KeyOf(s[0]) == k then [s[0]] else [];
      WithValueAppend(head, WithKey(s[1..], k), v);
      var head' := if s[0].sortValue == v then [s[0]] else [];
      WithKeyAppend(head', WithValue(s[1..], v), k);
    }
  }

  lemma {:induction false} InsertByValuePermutes(x: Entry, t: seq<Entry>)
    ensures multiset(InsertByValue(x, t)) == multiset(t) + multiset{x}
  {
    if !(t == [] || x.sortValue <= t[0].sortValue) {
      InsertByValuePermutes(x, t[1..]);
      assert t == [t[0]] + t[1..];
    }
  }

  /** Insertion puts `x` ahead of every entry with its own sort value. */
  lemma {:induction false} InsertByValueStable(x: Entry, t: seq<Entry>, v: int)
    ensures WithValue(InsertByValue(x, t), v) == (if x.sortValue == v then [x] else []) + WithValue(t, v)
  {
    if !(t == [] || x.sortValue <= t[0].sortValue) {
      InsertByValueStable(x, t[1..], v);
      assert InsertByValue(x, t)[1..] == InsertByValue(x, t[1..]);
    }
  }

  /** An entry of the insertion other than `x` comes from `t`. */
  lemma InsertByValueMembers(x: Entry, t: seq<Entry>, y: Entry)
    requires y in InsertByValue(x, t) && y != x
    ensures y in t
  {
    InsertByValuePermutes(x, t);
    assert y in multiset(InsertByValue(x, t));
  }

  lemma {:induction false} InsertByValueSorts(x: Entry, t: seq<Entry>)
    requires Ascending(t)
    ensures Ascending(InsertByValue(x, t))
  {
    if !(t == [] || x.sortValue <= t[0].sortValue) {
      var rest := InsertByValue(x, t[1..]);
      InsertByValueSorts(x, t[1..]);
      forall j | 0 <= j < |rest| ensures t[0].sortValue <= rest[j].sortValue {
        if rest[j] != x {
          InsertByValueMembers(x, t[1..], rest[j]);
          var q :| 0 <= q < |t[1..]| && t[1..][q] == rest[j];
          assert t[q + 1] == rest[j];
        }
      }
    }
  }

  lemma {:induction false} SortByValuePermutes(s: seq<Entry>)
    ensures multiset(SortByValue(s)) == multiset(s)
  {
    if s != [] {
      SortByValuePermutes(s[1..]);
      InsertByValuePermutes(s[0], SortByValue(s[1..]));
      assert s == [s[0]] + s[1..];
    }
  }

  lemma {:induction false} SortByValueSorts(s: seq<Entry>)
    ensures Ascending(SortByValue(s))
  {
    if s != [] {
      SortByValueSorts(s[1..]);
      InsertByValueSorts(s[0], SortByValue(s[1..]));
    }
  }

  lemma {:induction false} SortByValueStable(s: seq<Entry>, v: int)
    ensures WithValue(SortByValue(s), v) == WithValue(s, v)
  {
    if s != [] {
      SortByValueStable(s[1..], v);
      InsertByValueStable(s[0], SortByValue(s[1..]), v);
    }
  }

  /** `_.sortBy` is a sorted permutation that keeps the input order among equal values. */
  lemma SortByValueFacts(s: seq<Entry>)
    ensures multiset(SortByValue(s)) == multiset(s)
    ensures Ascending(SortByValue(s))
    ensures forall v :: WithValue(SortByValue(s), v) == WithValue(s, v)
  {
    SortByValuePermutes(s);
    SortByValueSorts(s);
    forall v ensures WithValue(SortByValue(s), v) == WithValue(s, v) {
      SortByValueStable(s, v);
    }
  }

  lemma {:induction false} ReverseAppend<T>(a: seq<T>, b: seq<T>)
    ensures Reverse(a + b) == Reverse(b) + Reverse(a)
    decreases |b|
  {
    if b == [] {
      assert a + b == a;
    } else {
      assert (a + b)[..|a + b| - 1] == a + b[..|b| - 1];
      ReverseAppend(a, b[..|b| - 1]);
    }
  }

  lemma {:induction false} ReverseFacts<T>(s: seq<T>)
    ensures |Reverse(s)| == |s|
    ensures forall i :: 0 <= i < |s| ==> Reverse(s)[i] == s[|s| - 1 - i]
    ensures multiset(Reverse(s)) == multiset(s)
  {
    if s != [] {
      var init := s[..|s| - 1];
      ReverseFacts(init);
      assert s == init + [s[|s| - 1]];
    }
  }

  lemma {:induction false} WithValueReverse(s: seq<Entry>, v: int)
    ensures WithValue(Reverse(s), v) == Reverse(WithValue(s, v))
    decreases |s|
  {
    if s != [] {
      var init, last := s[..|s| - 1], s[|s| - 1];
      WithValueReverse(init, v);
      assert s == init + [last];
      WithValueAppend(init, [last], v);
      WithValueAppend([last], Reverse(init), v);
      ReverseAppend(WithValue(init, v), WithValue([last], v));
    }
  }

  lemma {:induction false} WithKeyReverse(s: seq<Entry>, k: string)
    ensures WithKey(Reverse(s), k) == Reverse(WithKey(s, k))
    decreases |s|
  {
    if s != [] {
      var init, last := s[..|s| - 1], s[|s| - 1];
      WithKeyReverse(init, k);
      assert s == init + [last];
      WithKeyAppend(init, [last], k);
      WithKeyAppend([last], Reverse(init), k);
      ReverseAppend(WithKey(init, k), WithKey([last], k));
    }
  }

  lemma AscendingWithKey(s: seq<Entry>, k: string)
    requires Ascending(s)
    ensures Ascending(WithKey(s, k))
  {
    if s != [] {
      AscendingWithKey(s[1..], k);
      WithKeyMembers(s[1..], k);
      var rest := WithKey(s[1..], k);
      forall j | 0 <= j < |rest| ensures s[0].sortValue <= rest[j].sortValue {
        assert rest[j] in s[1..];
      }
    }
  }

  lemma HeadHasItsValue(s: seq<Entry>)
    ensures s != [] ==> s[0] in WithValue(s, s[0].sortValue)
  {
  }

  lemma SameValuesBothEmpty(r1: seq<Entry>, r2: seq<Entry>)
    requires forall v :: WithValue(r1, v) == WithValue(r2, v)
    ensures r1 == [] <==> r2 == []
  {
    HeadHasItsValue(r1);
    HeadHasItsValue(r2);
    if r1 != [] {
      assert WithValue(r2, r1[0].sortValue) != [];
    }
    if r2 != [] {
      assert WithValue(r1, r2[0].sortValue) != [];
    }
  }

  lemma AscendingMinimum(r: seq<Entry>, x: Entry)
    requires Ascending(r) && x in r
    ensures r[0].sortValue <= x.sortValue
  {
    var q :| 0 <= q < |r| && r[q] == x;
  }

  lemma HeadOfWithValue(r: seq<Entry>)
    requires r != []
    ensures WithValue(r, r[0].sortValue) == [r[0]] + WithValue(r[1..], r[0].sortValue)
    ensures forall v :: v != r[0].sortValue ==> WithValue(r, v) == WithValue(r[1..], v)
  {
  }

  lemma SameValuesSameHead(r1: seq<Entry>, r2: seq<Entry>)
    requires Ascending(r1) && Ascending(r2) && r1 != [] && r2 != []
    requires forall v :: WithValue(r1, v) == WithValue(r2, v)
    ensures r1[0] == r2[0]
  {
    var m1, m2 := r1[0].sortValue, r2[0].sortValue;
    HeadHasItsValue(r1);
    WithValueMembers(r2, m1);
    AscendingMinimum(r2, r1[0]);
    HeadHasItsValue(r2);
    WithValueMembers(r1, m2);
    AscendingMinimum(r1, r2[0]);
    HeadOfWithValue(r1);
    HeadOfWithValue(r2);
    assert WithValue(r1, m1)[0] == r1[0];
  }

  lemma SameValuesSameTails(r1: seq<Entry>, r2: seq<Entry>)
    requires r1 != [] && r2 != [] && r1[0] == r2[0]
    requires forall v :: WithValue(r1, v) == WithValue(r2, v)
    ensures forall v :: WithValue(r1[1..], v) == WithValue(r2[1..], v)
  {
    HeadOfWithValue(r1);
    HeadOfWithValue(r2);
    var m := r1[0].sortValue;
    assert WithValue(r1[1..], m) == WithValue(r1, m)[1..];
    assert WithValue(r2[1..], m) == WithValue(r2, m)[1..];
  }

  /** An ascending sequence is determined by its entries of each sort value. */
  lemma {:induction false} AscendingUnique(r1: seq<Entry>, r2: seq<Entry>)
    requires Ascending(r1) && Ascending(r2)
    requires forall v :: WithValue(r1, v) == WithValue(r2, v)
    ensures r1 == r2
    decreases |r1|
  {
    SameValuesBothEmpty(r1, r2);
    if r1 != [] {
      SameValuesSameHead(r1, r2);
      SameValuesSameTails(r1, r2);
      AscendingUnique(r1[1..], r2[1..]);
      assert r1 == [r1[0]] + r1[1..] && r2 == [r2[0]] + r2[1..];
    }
  }

  /** A group of the sorted list is the sorted group: stable sorting commutes with `WithKey`. */
  lemma SortCommutesWithKey(s: seq<Entry>, k: string)
    ensures WithKey(SortDescending(s), k) == SortDescending(WithKey(s, k))
  {
    var sorted := SortByValue(s);
    SortByValueFacts(s);
    SortByValueFacts(WithKey(s, k));
    AscendingWithKey(sorted, k);
    forall v ensures WithValue(WithKey(sorted, k), v) == WithValue(SortByValue(WithKey(s, k)), v) {
      FiltersCommute(sorted, k, v);
      FiltersCommute(s, k, v);
    }
    AscendingUnique(WithKey(sorted, k), SortByValue(WithKey(s, k)));
    WithKeyReverse(sorted, k);
  }

  /** The sort step yields a permutation, non-increasing in sort value, in which entries
      with equal sort values appear in the reverse of their input order. */
  lemma SortDescendingFacts(s: seq<Entry>)
    ensures multiset(SortDescending(s)) == multiset(s)
    ensures |SortDescending(s)| == |s|
    ensures NonIncreasing(SortDescending(s))
    ensures forall v :: WithValue(SortDescending(s), v) == Reverse(WithValue(s, v))
  {
    SortByValueFacts(s);
    ReverseFacts(SortByValue(s));
    assert |multiset(SortByValue(s))| == |multiset(s)|;
    forall v ensures WithValue(SortDescending(s), v) == Reverse(WithValue(s, v)) {
      WithValueReverse(SortByValue(s), v);
    }
  }
}
