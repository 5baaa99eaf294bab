/** Facts about `_.groupBy` and the two post-passes of `handleDataSort`: the date
    rename of one group key and the author rebuild of the groups in key order. */
module GroupingGroups {
  import opened Base
  import opened Strings
  import opened Grouping
  import opened GroupingSort

  lemma {:induction false} FlattenAppend(x: Groups, y: Groups)
    ensures Flatten(x + y) == Flatten(x) + Flatten(y)
  {
    if x == [] {
      assert x + y == y;
    } else {
      assert (x + y)[1..] == x[1..] + y;
      FlattenAppend(x[1..], y);
    }
  }

  lemma {:induction false} WithKeyOfLast(init: seq<Entry>, last: Entry, k: string)
    ensures WithKey(init + [last], k) == WithKey(init, k) + (if KeyOf(last) == k then [last] else [])
  {
    WithKeyAppend(init, [last], k);
    assert [last][1..] == [];
  }

  lemma {:induction false} WithKeyEmpty(s: seq<Entry>, k: string)
    requires forall q :: 0 <= q < |s| ==> KeyOf(s[q]) != k
    ensures WithKey(s, k) == []
  {
    if s != [] {
      WithKeyEmpty(s[1..], k);
    }
  }

  lemma {:induction false} WithKeyHead(s: seq<Entry>, k: string)
    ensures WithKey(s, k) != [] <==> FirstIndex(s, k) < |s|
    ensures WithKey(s, k) != [] ==> WithKey(s, k)[0] == s[FirstIndex(s, k)]
  {
    if s != [] && KeyOf(s[0]) != k {
      WithKeyHead(s[1..], k);
    }
  }

  lemma {:induction false} AddToGroupPermutes(g: Groups, k: string, e: Entry)
    ensures multiset(Flatten(AddToGroup(g, k, e))) == multiset(Flatten(g)) + multiset{e}
  {
    if g != [] && g[0].0 != k {
      AddToGroupPermutes(g[1..], k, e);
      assert AddToGroup(g, k, e)[1..] == AddToGroup(g[1..], k, e);
    } else if g != [] {
      assert AddToGroup(g, k, e)[1..] == g[1..];
    }
  }

  lemma {:induction false} AddToGroupExisting(g: Groups, k: string, e: Entry)
    requires KeysDistinct(g) && k in Keys(g)
    ensures |AddToGroup(g, k, e)| == |g|
    ensures forall i :: 0 <= i < |g| ==> AddToGroup(g, k, e)[i].0 == g[i].0
    ensures forall i :: 0 <= i < |g| ==> AddToGroup(g, k, e)[i].1 == g[i].1 + (if g[i].0 == k then [e] else [])
  {
    if g[0].0 != k {
      var i :| 0 <= i < |g| && Keys(g)[i] == k;
      assert Keys(g[1..])[i - 1] == k;
      AddToGroupExisting(g[1..], k, e);
    }
  }

  lemma {:induction false} AddToGroupNew(g: Groups, k: string, e: Entry)
    requires k !in Keys(g)
    ensures AddToGroup(g, k, e) == g + [(k, [e])]
  {
    if g != [] {
      assert g[0].0 == Keys(g)[0];
      assert forall i :: 0 <= i < |g[1..]| ==> Keys(g[1..])[i] == Keys(g)[i + 1];
      AddToGroupNew(g[1..], k, e);
      assert g == [g[0]] + g[1..];
    }
  }

  lemma KeysCons(g: Groups)
    requires g != []
    ensures Keys(g) == [g[0].0] + Keys(g[1..])
  {
  }

  /** `_.groupBy`'s step keeps the keys and adds a new key at the end. */
  lemma {:induction false} AddToGroupKeys(g: Groups, k: string, e: Entry)
    ensures Keys(AddToGroup(g, k, e)) == if k in Keys(g) then Keys(g) else Keys(g) + [k]
  {
    if g != [] {
      KeysCons(g);
      KeysCons(AddToGroup(g, k, e));
      if g[0].0 != k {
        AddToGroupKeys(g[1..], k, e);
        assert AddToGroup(g, k, e)[1..] == AddToGroup(g[1..], k, e);
      } else {
        assert AddToGroup(g, k, e)[1..] == g[1..];
      }
    }
  }

  lemma {:induction false} GroupByCovers(s: seq<Entry>)
    ensures forall q :: 0 <= q < |s| ==> KeyOf(s[q]) in Keys(GroupBy(s))
  {
    if s != [] {
      var init, last := s[..|s| - 1], s[|s| - 1];
      var g0, g := GroupBy(init), GroupBy(s);
      GroupByCovers(init);
      AddToGroupKeys(g0, KeyOf(last), last);
      assert forall x :: x in Keys(g0) ==> x in Keys(g);
      assert KeyOf(last) in Keys(g);
      forall q | 0 <= q < |s| ensures KeyOf(s[q]) in Keys(g) {
        if q < |init| {
          assert s[q] == init[q];
        }
      }
    }
  }

  lemma {:induction false} GroupByDistinct(s: seq<Entry>)
    ensures KeysDistinct(GroupBy(s))
  {
    if s != [] {
      var init, last := s[..|s| - 1], s[|s| - 1];
      var g0, k := GroupBy(init), KeyOf(last);
      GroupByDistinct(init);
      if k in Keys(g0) {
        AddToGroupExisting(g0, k, last);
      } else {
        AddToGroupNew(g0, k, last);
        KeyAbsent(g0, k);
      }
    }
  }

  lemma GroupByKeys(s: seq<Entry>)
    ensures KeysDistinct(GroupBy(s))
    ensures forall q :: 0 <= q < |s| ==> KeyOf(s[q]) in Keys(GroupBy(s))
  {
    GroupByDistinct(s);
    GroupByCovers(s);
  }

  lemma KeyAbsent(g: Groups, k: string)
    requires k !in Keys(g)
    ensures forall i :: 0 <= i < |g| ==> g[i].0 != k
  {
    forall i | 0 <= i < |g| ensures g[i].0 != k {
      assert Keys(g)[i] == g[i].0;
    }
  }

  lemma {:induction false} GroupByContents(s: seq<Entry>)
    ensures forall i :: 0 <= i < |GroupBy(s)| ==> GroupBy(s)[i].1 == WithKey(s, GroupBy(s)[i].0)
  {
    if s != [] {
      var init, last := s[..|s| - 1], s[|s| - 1];
      var g0, k := GroupBy(init), KeyOf(last);
      var g := GroupBy(s);
      GroupByContents(init);
      GroupByKeys(init);
      assert s == init + [last];
      if k in Keys(g0) {
        AddToGroupExisting(g0, k, last);
        forall i | 0 <= i < |g| ensures g[i].1 == WithKey(s, g[i].0) {
          WithKeyOfLast(init, last, g[i].0);
        }
      } else {
        AddToGroupNew(g0, k, last);
        KeyAbsent(g0, k);
        forall q | 0 <= q < |init| ensures KeyOf(init[q]) != k {
        }
        WithKeyEmpty(init, k);
        forall i | 0 <= i < |g| ensures g[i].1 == WithKey(s, g[i].0) {
          WithKeyOfLast(init, last, g[i].0);
        }
      }
    }
  }

  lemma {:induction false} GroupByNonEmpty(s: seq<Entry>)
    ensures forall i :: 0 <= i < |GroupBy(s)| ==> GroupBy(s)[i].1 != []
  {
    if s != [] {
      var init, last := s[..|s| - 1], s[|s| - 1];
      var g0, k := GroupBy(init), KeyOf(last);
      GroupByNonEmpty(init);
      GroupByKeys(init);
      if k in Keys(g0) {
        AddToGroupExisting(g0, k, last);
      } else {
        AddToGroupNew(g0, k, last);
      }
    }
  }

  /** `_.groupBy` yields distinct keys; each group holds exactly the entries filed
      under its key, in order, and is non-empty; every entry's key has a group. */
  lemma GroupByShape(s: seq<Entry>)
    ensures KeysDistinct(GroupBy(s))
    ensures forall i :: 0 <= i < |GroupBy(s)| ==> GroupBy(s)[i].1 == WithKey(s, GroupBy(s)[i].0)
    ensures forall i :: 0 <= i < |GroupBy(s)| ==> GroupBy(s)[i].1 != []
    ensures forall q :: 0 <= q < |s| ==> KeyOf(s[q]) in Keys(GroupBy(s))
  {
    GroupByKeys(s);
    GroupByContents(s);
    GroupByNonEmpty(s);
  }

  /** `_.groupBy` drops and duplicates nothing. */
  lemma {:induction false} GroupByPermutes(s: seq<Entry>)
    ensures multiset(Flatten(GroupBy(s))) == multiset(s)
  {
    if s != [] {
      var init, last := s[..|s| - 1], s[|s| - 1];
      GroupByPermutes(init);
      AddToGroupPermutes(GroupBy(init), KeyOf(last), last);
      assert s == init + [last];
    }
  }

  /** The first entry of each group is the first occurrence of its key. */
  lemma GroupHeads(s: seq<Entry>)
    ensures forall i :: 0 <= i < |GroupBy(s)| ==>
      && GroupBy(s)[i].1 != []
      && FirstIndex(s, GroupBy(s)[i].0) < |s|
      && GroupBy(s)[i].1[0] == s[FirstIndex(s, GroupBy(s)[i].0)]
  {
    GroupByShape(s);
    forall i | 0 <= i < |GroupBy(s)| ensures FirstIndex(s, GroupBy(s)[i].0) < |s| && GroupBy(s)[i].1[0] == s[FirstIndex(s, GroupBy(s)[i].0)] {
      WithKeyHead(s, GroupBy(s)[i].0);
    }
  }

  lemma FirstIndexOfPrefix(init: seq<Entry>, last: Entry, k: string)
    requires FirstIndex(init, k) < |init|
    ensures FirstIndex(init + [last], k) == FirstIndex(init, k)
  {
    var s := init + [last];
    assert forall q :: 0 <= q < |init| ==> s[q] == init[q];
  }

  /** Appending an entry leaves the first occurrence of every existing group key. */
  lemma FirstIndicesOfPrefix(init: seq<Entry>, last: Entry)
    ensures forall i :: 0 <= i < |GroupBy(init)| ==>
      FirstIndex(init + [last], GroupBy(init)[i].0) == FirstIndex(init, GroupBy(init)[i].0) < |init|
  {
    GroupHeads(init);
    forall i | 0 <= i < |GroupBy(init)|
      ensures FirstIndex(init + [last], GroupBy(init)[i].0) == FirstIndex(init, GroupBy(init)[i].0)
    {
      FirstIndexOfPrefix(init, last, GroupBy(init)[i].0);
    }
  }

  /** A key that only the appended entry has first occurs at the end. */
  lemma {:induction false} FirstIndexOfNewKey(init: seq<Entry>, last: Entry)
    requires forall q :: 0 <= q < |init| ==> KeyOf(init[q]) != KeyOf(last)
    ensures FirstIndex(init + [last], KeyOf(last)) == |init|
    decreases |init|
  {
    if init != [] {
      assert (init + [last])[0] == init[0];
      assert (init + [last])[1..] == init[1..] + [last];
      assert forall q :: 0 <= q < |init[1..]| ==> init[1..][q] == init[q + 1];
      FirstIndexOfNewKey(init[1..], last);
    }
  }

  /** Groups appear in the order in which their keys first occur. */
  lemma {:induction false} GroupByFirstOccurrence(s: seq<Entry>)
    ensures forall i, j :: 0 <= i < j < |GroupBy(s)| ==> FirstIndex(s, GroupBy(s)[i].0) < FirstIndex(s, GroupBy(s)[j].0)
  {
    if s != [] {
      var init, last := s[..|s| - 1], s[|s| - 1];
      var g0, k := GroupBy(init), KeyOf(last);
      GroupByFirstOccurrence(init);
      GroupByDistinct(init);
      assert s == init + [last];
      FirstIndicesOfPrefix(init, last);
      if k in Keys(g0) {
        AddToGroupExisting(g0, k, last);
      } else {
        AddToGroupNew(g0, k, last);
        GroupByCovers(init);
        FirstIndexOfNewKey(init, last);
      }
    }
  }

  lemma {:induction false} LookupDistinct(g: Groups, i: int)
    requires KeysDistinct(g) && 0 <= i < |g|
    ensures Lookup(g, g[i].0) == g[i].1
  {
    if i > 0 {
      LookupDistinct(g[1..], i - 1);
    }
  }

  lemma {:induction false} ReorderAt(g: Groups, ks: seq<string>)
    ensures |Reorder(g, ks)| == |ks|
    ensures forall i :: 0 <= i < |ks| ==> Reorder(g, ks)[i] == (ks[i], Lookup(g, ks[i]))
  {
    if ks != [] {
      ReorderAt(g, ks[..|ks| - 1]);
    }
  }

  lemma ReorderAppend(g: Groups, a: seq<string>, b: seq<string>)
    ensures Reorder(g, a + b) == Reorder(g, a) + Reorder(g, b)
  {
    ReorderAt(g, a + b);
    ReorderAt(g, a);
    ReorderAt(g, b);
  }

  /** Taking out the element at `i` takes one copy of it out of the multiset. */
  lemma RemoveAt(ks: seq<string>, i: int)
    requires 0 <= i < |ks|
    ensures ks == ks[..i] + [ks[i]] + ks[i + 1..]
    ensures multiset(ks[..i] + ks[i + 1..]) == multiset(ks) - multiset{ks[i]}
  {
    assert ks == ks[..i] + [ks[i]] + ks[i + 1..];
  }

  /** The entries of the groups rebuilt from the keys `ks`, as a multiset. */
  ghost function Items(g: Groups, ks: seq<string>): multiset<Entry>
  {
    multiset(Flatten(Reorder(g, ks)))
  }

  lemma ReorderCount(g: Groups, a: seq<string>, b: seq<string>)
    ensures Items(g, a + b) == Items(g, a) + Items(g, b)
  {
    ReorderAppend(g, a, b);
    FlattenAppend(Reorder(g, a), Reorder(g, b));
  }

  /** Putting one more key first at the end of one key list and inside the other keeps
      equal entry multisets equal. */
  lemma ItemsInsert(g: Groups, init: seq<string>, k: string, before: seq<string>, after: seq<string>)
    requires Items(g, init) == Items(g, before + after)
    ensures Items(g, init + [k]) == Items(g, before + [k] + after)
  {
    calc {
      Items(g, init + [k]);
      { ReorderCount(g, init, [k]); }
      Items(g, init) + Items(g, [k]);
      { ReorderCount(g, before, after); }
      Items(g, before) + Items(g, [k]) + Items(g, after);
      { ReorderCount(g, before, [k]); }
      Items(g, before + [k]) + Items(g, after);
      { ReorderCount(g, before + [k], after); }
      Items(g, before + [k] + after);
    }
  }

  /** Rebuilding the groups in any order of the same keys keeps the same entries. */
  lemma {:induction false} ReorderPermutes(g: Groups, ks1: seq<string>, ks2: seq<string>)
    requires multiset(ks1) == multiset(ks2)
    ensures Items(g, ks1) == Items(g, ks2)
    decreases |ks1|
  {
    if ks1 == [] {
      assert ks2 == [] by {
        assert |multiset(ks2)| == 0;
      }
    } else {
      var init, k := ks1[..|ks1| - 1], ks1[|ks1| - 1];
      assert ks1 == init + [k];
      assert k in multiset(ks2);
      var i :| 0 <= i < |ks2| && ks2[i] == k;
      var before, after := ks2[..i], ks2[i + 1..];
      RemoveAt(ks2, i);
      assert multiset(init) == multiset(before + after) by {
        assert multiset(init) == multiset(ks1) - multiset{k};
      }
      ReorderPermutes(g, init, before + after);
      ItemsInsert(g, init, k, before, after);
    }
  }

  lemma ReorderByOwnKeys(g: Groups)
    requires KeysDistinct(g)
    ensures Reorder(g, Keys(g)) == g
  {
    ReorderAt(g, Keys(g));
    forall i | 0 <= i < |g| ensures Reorder(g, Keys(g))[i] == g[i] {
      LookupDistinct(g, i);
    }
  }

  /** The author post-pass: keys strictly ascending, the same keys, each group
      unchanged, and the same entries overall. */
  lemma ReorderBySortedKeys(g: Groups)
    requires KeysDistinct(g)
    ensures var r := Reorder(g, SortKeys(Keys(g)));
      && KeysStrictlyAscending(Keys(r))
      && multiset(Keys(r)) == multiset(Keys(g))
      && (forall i :: 0 <= i < |r| ==> r[i].1 == Lookup(g, r[i].0))
      && multiset(Flatten(r)) == multiset(Flatten(g))
  {
    var ks := SortKeys(Keys(g));
    var r := Reorder(g, ks);
    assert Distinct(Keys(g));
    SortDistinctKeys(Keys(g));
    ReorderAt(g, ks);
    assert Keys(r) == ks;
    ReorderPermutes(g, ks, Keys(g));
    ReorderByOwnKeys(g);
  }

  /** The date post-pass changes only the first key equal to `from`, and no contents. */
  lemma {:induction false} RenameFirstKeyContents(g: Groups, from: string, to: string)
    ensures |RenameFirstKey(g, from, to)| == |g|
    ensures Flatten(RenameFirstKey(g, from, to)) == Flatten(g)
    ensures forall i :: 0 <= i < |g| ==> RenameFirstKey(g, from, to)[i].1 == g[i].1
  {
    if g != [] {
      RenameFirstKeyContents(g[1..], from, to);
    }
  }

  lemma KeysTail(g: Groups, i: int)
    requires 0 < i <= |g|
    ensures Keys(g)[..i] == [g[0].0] + Keys(g[1..])[..i - 1]
  {
  }

  lemma {:induction false} RenameFirstKeyKeys(g: Groups, from: string, to: string)
    ensures |RenameFirstKey(g, from, to)| == |g|
    ensures forall i :: 0 <= i < |g| ==>
      RenameFirstKey(g, from, to)[i].0 == (if g[i].0 == from && from !in Keys(g)[..i] then to else g[i].0)
  {
    RenameFirstKeyContents(g, from, to);
    if g != [] {
      var r := RenameFirstKey(g, from, to);
      RenameFirstKeyKeys(g[1..], from, to);
      forall i | 0 < i < |g|
        ensures r[i].0 == (if g[i].0 == from && from !in Keys(g)[..i] then to else g[i].0)
      {
        KeysTail(g, i);
        assert g[i] == g[1..][i - 1];
      }
    }
  }

  /** The date post-pass keeps the order and the contents of the groups and renames
      only the first group keyed `from`. */
  lemma RenameFirstKeyAt(g: Groups, from: string, to: string)
    ensures |RenameFirstKey(g, from, to)| == |g|
    ensures Flatten(RenameFirstKey(g, from, to)) == Flatten(g)
    ensures forall i :: 0 <= i < |g| ==> RenameFirstKey(g, from, to)[i].1 == g[i].1
    ensures forall i :: 0 <= i < |g| ==>
      RenameFirstKey(g, from, to)[i].0 == (if g[i].0 == from && from !in Keys(g)[..i] then to else g[i].0)
  {
    RenameFirstKeyContents(g, from, to);
    RenameFirstKeyKeys(g, from, to);
  }

  /** With distinct keys, after the rename no key `from` is left and `to` heads the group `from` had. */
  lemma RenameDistinct(g: Groups, from: string, to: string)
    requires KeysDistinct(g) && from != to
    ensures |RenameFirstKey(g, from, to)| == |g|
    ensures from !in Keys(RenameFirstKey(g, from, to))
    ensures forall i :: 0 <= i < |g| && g[i].0 == from ==> RenameFirstKey(g, from, to)[i].0 == to
    ensures forall i :: 0 <= i < |g| && g[i].0 != from ==> RenameFirstKey(g, from, to)[i].0 == g[i].0
    ensures to !in Keys(g) ==> KeysDistinct(RenameFirstKey(g, from, to))
  {
    var r := RenameFirstKey(g, from, to);
    RenameFirstKeyAt(g, from, to);
    forall i | 0 <= i < |g| && g[i].0 == from ensures from !in Keys(g)[..i] {
      forall j | 0 <= j < i ensures Keys(g)[..i][j] != from {
        assert Keys(g)[..i][j] == g[j].0;
      }
    }
    forall i | 0 <= i < |r| ensures Keys(r)[i] != from {
      assert Keys(r)[i] == r[i].0;
    }
    if to !in Keys(g) {
      forall i, j | 0 <= i < j < |r| ensures r[i].0 != r[j].0 {
        assert Keys(g)[i] == g[i].0 && Keys(g)[j] == g[j].0;
      }
    }
  }
}
