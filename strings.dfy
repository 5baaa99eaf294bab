/** JavaScript's default string order, as used by `Array.prototype.sort()` without a
    comparator, and that sort applied to a list of distinct group keys. */
module Strings {
  import opened Base

  /** `a < b` on JavaScript strings: the first differing character decides, and a
      proper prefix comes first. */
  predicate Below(a: string, b: string)
  {
    if a == [] then b != []
    else if b == [] then false
    else if a[0] != b[0] then a[0] < b[0]
    else Below(a[1..], b[1..])
  }

  predicate AtMost(a: string, b: string)
  {
    a == b || Below(a, b)
  }

  predicate KeysAscending(ks: seq<string>)
  {
    forall i, j :: 0 <= i < j < |ks| ==> AtMost(ks[i], ks[j])
  }

  predicate KeysStrictlyAscending(ks: seq<string>)
  {
    forall i, j :: 0 <= i < j < |ks| ==> Below(ks[i], ks[j])
  }

  lemma {:induction false} BelowIrreflexive(a: string)
    ensures !Below(a, a)
  {
    if a != [] {
      BelowIrreflexive(a[1..]);
    }
  }

  lemma {:induction false} BelowTotal(a: string, b: string)
    ensures a == b || Below(a, b) || Below(b, a)
  {
    if a != [] && b != [] && a[0] == b[0] {
      BelowTotal(a[1..], b[1..]);
      if a[1..] == b[1..] {
        assert a == [a[0]] + a[1..] && b == [b[0]] + b[1..];
      }
    }
  }

  lemma {:induction false} BelowTransitive(a: string, b: string, c: string)
    requires Below(a, b) && Below(b, c)
    ensures Below(a, c)
  {
    if a != [] && a[0] == b[0] && b[0] == c[0] {
      BelowTransitive(a[1..], b[1..], c[1..]);
    }
  }

  lemma AtMostTransitive(a: string, b: string, c: string)
    requires AtMost(a, b) && AtMost(b, c)
    ensures AtMost(a, c)
  {
    if a != b && b != c {
      BelowTransitive(a, b, c);
    }
  }

  /** Inserts `x` before the first key it does not exceed. */
  function InsertKey(x: string, t: seq<string>): seq<string>
  {
    if t == [] || AtMost(x, t[0]) then [x] + t else [t[0]] + InsertKey(x, t[1..])
  }

  /** `keys.sort()`: ascending in JavaScript's string order. */
  function SortKeys(ks: seq<string>): seq<string>
  {
    if ks == [] then [] else InsertKey(ks[0], SortKeys(ks[1..]))
  }

  lemma {:induction false} InsertKeyPermutes(x: string, t: seq<string>)
    ensures multiset(InsertKey(x, t)) == multiset(t) + multiset{x}
  {
    if !(t == [] || AtMost(x, t[0])) {
      InsertKeyPermutes(x, t[1..]);
      assert t == [t[0]] + t[1..];
    }
  }

  /** A key of `t` that is not `x` is still in place after the insertion. */
  lemma InsertKeyMembers(x: string, t: seq<string>, y: string)
    requires y in InsertKey(x, t) && y != x
    ensures y in t
  {
    InsertKeyPermutes(x, t);
    assert y in multiset(InsertKey(x, t));
  }

  lemma {:induction false} InsertKeySorts(x: string, t: seq<string>)
    requires KeysAscending(t)
    ensures KeysAscending(InsertKey(x, t))
  {
    if t == [] || AtMost(x, t[0]) {
      forall j | 1 <= j < |t| + 1
        ensures AtMost(x, ([x] + t)[j])
      {
        AtMostTransitive(x, t[0], t[j - 1]);
      }
    } else {
      var rest := InsertKey(x, t[1..]);
      InsertKeySorts(x, t[1..]);
      BelowTotal(x, t[0]);
      forall j | 0 <= j < |rest|
        ensures AtMost(t[0], rest[j])
      {
        if rest[j] != x {
          InsertKeyMembers(x, t[1..], rest[j]);
          var k :| 0 <= k < |t[1..]| && t[1..][k] == rest[j];
          assert t[k + 1] == rest[j];
        }
      }
    }
  }

  lemma {:induction false} InsertKeyDistinct(x: string, t: seq<string>)
    requires x !in t && Distinct(t)
    ensures Distinct(InsertKey(x, t))
  {
    if !(t == [] || AtMost(x, t[0])) {
      var rest := InsertKey(x, t[1..]);
      assert t == [t[0]] + t[1..];
      InsertKeyDistinct(x, t[1..]);
      if t[0] in rest {
        InsertKeyMembers(x, t[1..], t[0]);
        assert false;
      }
      forall i, j | 0 <= i < j < |[t[0]] + rest| ensures ([t[0]] + rest)[i] != ([t[0]] + rest)[j] {
        if i == 0 {
          assert ([t[0]] + rest)[j] == rest[j - 1];
        }
      }
    }
  }

  lemma {:induction false} SortKeysPermutes(ks: seq<string>)
    ensures multiset(SortKeys(ks)) == multiset(ks)
  {
    if ks != [] {
      SortKeysPermutes(ks[1..]);
      InsertKeyPermutes(ks[0], SortKeys(ks[1..]));
      assert ks == [ks[0]] + ks[1..];
    }
  }

  lemma {:induction false} SortKeysSorts(ks: seq<string>)
    ensures KeysAscending(SortKeys(ks))
  {
    if ks != [] {
      SortKeysSorts(ks[1..]);
      InsertKeySorts(ks[0], SortKeys(ks[1..]));
    }
  }

  lemma {:induction false} SortKeysDistinct(ks: seq<string>)
    requires Distinct(ks)
    ensures Distinct(SortKeys(ks))
  {
    if ks != [] {
      var tail := ks[1..];
      forall i, j | 0 <= i < j < |tail| ensures tail[i] != tail[j] {
        assert tail[i] == ks[i + 1] && tail[j] == ks[j + 1];
      }
      SortKeysDistinct(tail);
      SortKeysPermutes(tail);
      assert ks == [ks[0]] + tail;
      assert ks[0] !in multiset(SortKeys(tail));
      InsertKeyDistinct(ks[0], SortKeys(tail));
    }
  }

  /** `keys.sort()` keeps every key, orders them and keeps them duplicate-free. */
  lemma SortKeysFacts(ks: seq<string>)
    ensures multiset(SortKeys(ks)) == multiset(ks)
    ensures KeysAscending(SortKeys(ks))
    ensures Distinct(ks) ==> Distinct(SortKeys(ks))
  {
    SortKeysPermutes(ks);
    SortKeysSorts(ks);
    if Distinct(ks) {
      SortKeysDistinct(ks);
    }
  }

  /** Sorting distinct keys yields a strictly ascending list. */
  lemma SortDistinctKeys(ks: seq<string>)
    requires Distinct(ks)
    ensures KeysStrictlyAscending(SortKeys(ks))
    ensures multiset(SortKeys(ks)) == multiset(ks)
  {
    SortKeysFacts(ks);
    DistinctAscendingIsStrict(SortKeys(ks));
  }

  lemma DistinctAscendingIsStrict(ks: seq<string>)
    requires KeysAscending(ks)
    ensures Distinct(ks) ==> KeysStrictlyAscending(ks)
  {
  }
}
