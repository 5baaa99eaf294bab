/** What `handleDataSort` promises about its result: the groups partition the input,
    each group is ordered newest first with ties in reverse input order, and the
    post-pass of each sort key shapes the group keys. */
module GroupingResult {
  import opened Base
  import opened Strings
  import opened Grouping
  import opened GroupingSort
  import opened GroupingGroups

  /** The image ids of a list of entries. */
  function IdsOf(s: seq<Entry>): seq<ImageId>
  {
    seq(|s|, i requires 0 <= i < |s| => s[i].id)
  }

  /** An id can be projected: under the default key its looked-up image is never
      dereferenced, otherwise its image (and, for authors, the image's owner) is in
      the store. */
  predicate Resolves(id: ImageId, c: Criterion, ctx: Context)
  {
    c == ById || (id in ctx.items && (c == ByAuthor ==> ctx.items[id].ownerUserId in ctx.users))
  }

  lemma {:induction false} FlattenMembers(g: Groups, x: Entry)
    ensures x in Flatten(g) <==> exists i :: 0 <= i < |g| && x in g[i].1
  {
    if g != [] {
      FlattenMembers(g[1..], x);
      if x in Flatten(g[1..]) {
        var i :| 0 <= i < |g[1..]| && x in g[1..][i].1;
        assert x in g[i + 1].1;
      }
      if exists i :: 0 <= i < |g| && x in g[i].1 {
        var i :| 0 <= i < |g| && x in g[i].1;
        if i > 0 {
          assert x in g[1..][i - 1].1;
        }
      }
    }
  }

  /** The groups straight out of `_.groupBy`, described by what they hold. */
  lemma GroupedFacts(es: seq<Entry>)
    ensures var g := GroupBy(SortDescending(es));
      && KeysDistinct(g)
      && multiset(Flatten(g)) == multiset(es)
      && (forall i :: 0 <= i < |g| ==> g[i].1 != [] && KeyOf(g[i].1[0]) == g[i].0)
      && (forall i :: 0 <= i < |g| ==> g[i].1 == SortDescending(WithKey(es, g[i].0)))
      && (forall i, x :: 0 <= i < |g| && x in g[i].1 ==> KeyOf(x) == g[i].0)
  {
    var sd := SortDescending(es);
    var g := GroupBy(sd);
    GroupByShape(sd);
    GroupByPermutes(sd);
    SortDescendingFacts(es);
    WithKeyMembers(sd, UndefinedKey);
    forall i | 0 <= i < |g| ensures g[i].1 == SortDescending(WithKey(es, g[i].0)) && KeyOf(g[i].1[0]) == g[i].0 {
      SortCommutesWithKey(es, g[i].0);
      WithKeyMembers(sd, g[i].0);
      assert g[i].1[0] in g[i].1;
    }
    forall i, x | 0 <= i < |g| && x in g[i].1 ensures KeyOf(x) == g[i].0 {
      WithKeyMembers(sd, g[i].0);
    }
  }

  /** The author post-pass keeps every group of `_.groupBy`, in key order. */
  lemma AuthorGroupsAreGrouped(es: seq<Entry>)
    ensures var g := GroupBy(SortDescending(es));
      var r := Arrange(es, ByAuthor);
      && KeysStrictlyAscending(Keys(r))
      && multiset(Flatten(r)) == multiset(Flatten(g))
      && (forall i :: 0 <= i < |r| ==> r[i] in g)
  {
    var g := GroupBy(SortDescending(es));
    var r := Arrange(es, ByAuthor);
    GroupedFacts(es);
    ReorderBySortedKeys(g);
    forall i | 0 <= i < |r| ensures r[i] in g {
      assert Keys(r)[i] in multiset(Keys(g));
      var j :| 0 <= j < |g| && Keys(g)[j] == r[i].0;
      LookupDistinct(g, j);
      assert r[i] == g[j];
    }
  }

  predicate NonEmptyGroups(r: Groups)
  {
    forall i :: 0 <= i < |r| ==> r[i].1 != []
  }

  /** Every entry of a group has the group value of the group's first entry. */
  predicate UniformGroups(r: Groups)
    requires NonEmptyGroups(r)
  {
    forall i, x :: 0 <= i < |r| && x in r[i].1 ==> KeyOf(x) == KeyOf(r[i].1[0])
  }

  /** No two groups hold entries of the same group value. */
  predicate SeparateGroups(r: Groups)
    requires NonEmptyGroups(r)
  {
    forall i, j :: 0 <= i < j < |r| ==> KeyOf(r[i].1[0]) != KeyOf(r[j].1[0])
  }

  /** Each group is the sort step applied to the input entries of its group value. */
  predicate SortedGroupsOf(r: Groups, es: seq<Entry>)
    requires NonEmptyGroups(r)
  {
    forall i :: 0 <= i < |r| ==> r[i].1 == SortDescending(WithKey(es, KeyOf(r[i].1[0])))
  }

  /** The groups partition the entries by group value. */
  predicate PartitionOf(r: Groups, es: seq<Entry>)
  {
    && multiset(Flatten(r)) == multiset(es)
    && NonEmptyGroups(r)
    && UniformGroups(r)
    && SeparateGroups(r)
    && SortedGroupsOf(r, es)
  }

  lemma GroupedPartition(es: seq<Entry>)
    ensures PartitionOf(GroupBy(SortDescending(es)), es)
  {
    GroupedFacts(es);
  }

  lemma DatePartition(es: seq<Entry>)
    ensures PartitionOf(Arrange(es, ByDate), es)
  {
    var g := GroupBy(SortDescending(es));
    GroupedPartition(es);
    RenameFirstKeyAt(g, FewSecondsAgo, Today);
  }

  /** Where `x` first occurs in `s`. */
  ghost function Position<T>(s: seq<T>, x: T): (p: nat)
    requires x in s
    ensures p < |s| && s[p] == x
  {
    if s[0] == x then 0 else 1 + Position(s[1..], x)
  }

  /** `at[i]` is the position in `g` of the group `r[i]`. */
  predicate ChosenFrom(r: Groups, g: Groups, at: seq<int>)
  {
    |at| == |r| && forall i :: 0 <= i < |r| ==> 0 <= at[i] < |g| && r[i] == g[at[i]]
  }

  lemma ChosenNonEmpty(r: Groups, g: Groups, at: seq<int>)
    requires NonEmptyGroups(g) && ChosenFrom(r, g, at)
    ensures NonEmptyGroups(r)
  {
    forall i | 0 <= i < |r| ensures r[i].1 != [] {
      assert r[i] == g[at[i]];
    }
  }

  lemma ChosenUniform(r: Groups, g: Groups, es: seq<Entry>, at: seq<int>)
    requires NonEmptyGroups(g) && UniformGroups(g) && SortedGroupsOf(g, es)
    requires NonEmptyGroups(r) && ChosenFrom(r, g, at)
    ensures UniformGroups(r) && SortedGroupsOf(r, es)
  {
    forall i | 0 <= i < |r|
      ensures r[i].1 == SortDescending(WithKey(es, KeyOf(r[i].1[0])))
      ensures forall x :: x in r[i].1 ==> KeyOf(x) == KeyOf(r[i].1[0])
    {
      assert r[i] == g[at[i]];
    }
  }

  lemma ChosenSeparate(r: Groups, g: Groups, at: seq<int>)
    requires NonEmptyGroups(g) && SeparateGroups(g)
    requires NonEmptyGroups(r) && ChosenFrom(r, g, at) && KeysDistinct(r)
    ensures SeparateGroups(r)
  {
    forall i, j | 0 <= i < j < |r| ensures KeyOf(r[i].1[0]) != KeyOf(r[j].1[0]) {
      assert r[i] == g[at[i]] && r[j] == g[at[j]];
      assert at[i] != at[j];
    }
  }

  /** Groups taken from a partition, with distinct keys and all entries, partition too. */
  lemma PartitionOfChosenGroups(r: Groups, g: Groups, es: seq<Entry>, at: seq<int>)
    requires PartitionOf(g, es) && ChosenFrom(r, g, at)
    requires KeysDistinct(r)
    requires multiset(Flatten(r)) == multiset(es)
    ensures PartitionOf(r, es)
  {
    ChosenNonEmpty(r, g, at);
    ChosenUniform(r, g, es, at);
    ChosenSeparate(r, g, at);
  }

  lemma AuthorPartition(es: seq<Entry>)
    ensures PartitionOf(Arrange(es, ByAuthor), es)
  {
    var g := GroupBy(SortDescending(es));
    var r := Arrange(es, ByAuthor);
    GroupedPartition(es);
    AuthorGroupsAreGrouped(es);
    forall i, j | 0 <= i < j < |r| ensures r[i].0 != r[j].0 {
      assert Keys(r)[i] == r[i].0 && Keys(r)[j] == r[j].0;
      BelowIrreflexive(r[i].0);
    }
    var at := seq(|r|, i requires 0 <= i < |r| => Position(g, r[i]));
    PartitionOfChosenGroups(r, g, es, at);
  }

  /** Every entry lies in exactly one group: the groups hold a permutation of the
      entries, none is empty, all entries of a group share its group value, no two
      groups share one, and each group is the sorted list of the input entries of its
      group value. */
  lemma ArrangePartition(es: seq<Entry>, c: Criterion)
    ensures PartitionOf(Arrange(es, c), es)
  {
    match c
    case ByDate => DatePartition(es);
    case ByAuthor => AuthorPartition(es);
    case ById => GroupedPartition(es);
  }

  /** Within each group sort values never increase, and entries with equal sort
      values appear in the reverse of their input order. */
  lemma ArrangeGroupOrder(es: seq<Entry>, c: Criterion)
    ensures forall i :: 0 <= i < |Arrange(es, c)| ==> NonIncreasing(Arrange(es, c)[i].1)
    ensures forall i, v :: 0 <= i < |Arrange(es, c)| && Arrange(es, c)[i].1 != [] ==>
      WithValue(Arrange(es, c)[i].1, v) == Reverse(WithValue(WithKey(es, KeyOf(Arrange(es, c)[i].1[0])), v))
  {
    var r := Arrange(es, c);
    ArrangePartition(es, c);
    forall i | 0 <= i < |r|
      ensures NonIncreasing(r[i].1)
      ensures forall v :: WithValue(r[i].1, v) == Reverse(WithValue(WithKey(es, KeyOf(r[i].1[0])), v))
    {
      SortDescendingFacts(WithKey(es, KeyOf(r[i].1[0])));
    }
  }

  /** The date post-pass renames only `'a few seconds ago'`, to `'today'`. */
  lemma DateKeys(es: seq<Entry>)
    ensures NonEmptyGroups(Arrange(es, ByDate))
    ensures FewSecondsAgo !in Keys(Arrange(es, ByDate))
    ensures forall i :: 0 <= i < |Arrange(es, ByDate)| ==>
      var grp := Arrange(es, ByDate)[i];
      grp.0 == KeyOf(grp.1[0]) || (KeyOf(grp.1[0]) == FewSecondsAgo && grp.0 == Today)
  {
    var g := GroupBy(SortDescending(es));
    GroupedFacts(es);
    RenameFirstKeyAt(g, FewSecondsAgo, Today);
    RenameDistinct(g, FewSecondsAgo, Today);
  }

  /** Date groups keep the order of first occurrence in the sorted list, so the group
      with the newest entry comes first. */
  lemma DateOrder(es: seq<Entry>)
    ensures NonEmptyGroups(Arrange(es, ByDate))
    ensures forall i, j :: 0 <= i < j < |Arrange(es, ByDate)| ==>
      FirstIndex(SortDescending(es), KeyOf(Arrange(es, ByDate)[i].1[0])) < FirstIndex(SortDescending(es), KeyOf(Arrange(es, ByDate)[j].1[0]))
    ensures forall i, j :: 0 <= i < j < |Arrange(es, ByDate)| ==>
      Arrange(es, ByDate)[i].1[0].sortValue >= Arrange(es, ByDate)[j].1[0].sortValue
  {
    var sd := SortDescending(es);
    var g := GroupBy(sd);
    RenameFirstKeyAt(g, FewSecondsAgo, Today);
    GroupByFirstOccurrence(sd);
    GroupHeads(sd);
    SortDescendingFacts(es);
  }

  /** Date group keys stay distinct when no day label reads `'today'`. */
  lemma DateKeysDistinct(es: seq<Entry>)
    requires forall x :: x in es ==> KeyOf(x) != Today
    ensures KeysDistinct(Arrange(es, ByDate))
  {
    var g := GroupBy(SortDescending(es));
    GroupedFacts(es);
    forall i | 0 <= i < |g| ensures Keys(g)[i] != Today {
      assert g[i].1[0] in multiset(Flatten(g)) by {
        FlattenMembers(g, g[i].1[0]);
      }
    }
    RenameDistinct(g, FewSecondsAgo, Today);
  }

  /** The author post-pass: group keys strictly ascend and every entry of a group has
      that group's key as its group value. */
  lemma ArrangeByAuthor(es: seq<Entry>)
    ensures KeysStrictlyAscending(Keys(Arrange(es, ByAuthor)))
    ensures forall i, x :: 0 <= i < |Arrange(es, ByAuthor)| && x in Arrange(es, ByAuthor)[i].1 ==>
      KeyOf(x) == Arrange(es, ByAuthor)[i].0
  {
    var g := GroupBy(SortDescending(es));
    var r := Arrange(es, ByAuthor);
    GroupedFacts(es);
    AuthorGroupsAreGrouped(es);
    forall i, x | 0 <= i < |r| && x in r[i].1 ensures KeyOf(x) == r[i].0 {
      var j := Position(g, r[i]);
    }
  }

  lemma {:induction false} GroupByOneKey(s: seq<Entry>, k: string)
    requires s != [] && forall x :: x in s ==> KeyOf(x) == k
    ensures GroupBy(s) == [(k, s)]
  {
    var init, last := s[..|s| - 1], s[|s| - 1];
    assert s == init + [last];
    if init != [] {
      GroupByOneKey(init, k);
    }
  }

  /** Without a date or author key every entry lacks a group value, so all fall in one
      group keyed `'undefined'`, in the order of the sort step. */
  lemma ArrangeById(es: seq<Entry>)
    requires forall x :: x in es ==> x.groupValue == None
    ensures Arrange(es, ById) == if es == [] then [] else [(UndefinedKey, SortDescending(es))]
  {
    if es != [] {
      SortDescendingFacts(es);
      forall x | x in SortDescending(es) ensures KeyOf(x) == UndefinedKey {
        assert x in multiset(es);
      }
      GroupByOneKey(SortDescending(es), UndefinedKey);
    }
  }

  lemma {:induction false} ProjectAllFacts(ids: seq<ImageId>, c: Criterion, ctx: Context)
    ensures ProjectAll(ids, c, ctx).Ok? <==> forall i :: 0 <= i < |ids| ==> Resolves(ids[i], c, ctx)
    ensures ProjectAll(ids, c, ctx).Ok? ==>
      && |ProjectAll(ids, c, ctx).value| == |ids|
      && forall i :: 0 <= i < |ids| ==> ProjectOne(ids[i], c, ctx) == Ok(ProjectAll(ids, c, ctx).value[i])
  {
    if ids != [] {
      var init := ids[..|ids| - 1];
      ProjectAllFacts(init, c, ctx);
      assert forall i :: 0 <= i < |init| ==> ids[i] == init[i];
    }
  }

  /** Projection sets each entry's id to the id it came from. */
  lemma ProjectedIds(ids: seq<ImageId>, c: Criterion, ctx: Context)
    requires ProjectAll(ids, c, ctx).Ok?
    ensures IdsOf(ProjectAll(ids, c, ctx).value) == ids
  {
    ProjectAllFacts(ids, c, ctx);
  }

  /** `handleDataSort` returns exactly when every id resolves (the default key never
      dereferences the looked-up image, so it never throws). */
  lemma DataSortSucceeds(ids: seq<ImageId>, c: Criterion, ctx: Context)
    ensures DataSort(ids, c, ctx).Ok? <==> forall i :: 0 <= i < |ids| ==> Resolves(ids[i], c, ctx)
  {
    ProjectAllFacts(ids, c, ctx);
  }

  /** The first id that does not resolve decides what is thrown. */
  lemma {:induction false} DataSortFirstError(ids: seq<ImageId>, c: Criterion, ctx: Context, i: int)
    requires 0 <= i < |ids| && !Resolves(ids[i], c, ctx)
    requires forall j :: 0 <= j < i ==> Resolves(ids[j], c, ctx)
    ensures DataSort(ids, c, ctx) ==
      Err(if ids[i] !in ctx.items then MissingImage(ids[i]) else MissingUser(ctx.items[ids[i]].ownerUserId))
  {
    var prefix := ids[..i];
    ProjectAllFacts(prefix, c, ctx);
    assert ids[..i + 1][..i] == prefix;
    ProjectAllKeepsError(ids, i + 1, c, ctx);
  }

  lemma IdsOfAppend(a: seq<Entry>, b: seq<Entry>)
    ensures IdsOf(a + b) == IdsOf(a) + IdsOf(b)
  {
  }

  lemma {:induction false} IdsOfPermutes(s1: seq<Entry>, s2: seq<Entry>)
    requires multiset(s1) == multiset(s2)
    ensures multiset(IdsOf(s1)) == multiset(IdsOf(s2))
    decreases |s1|
  {
    if s1 == [] {
      assert |multiset(s2)| == 0;
    } else {
      var x, tail := s1[0], s1[1..];
      assert s1 == [x] + tail;
      assert x in multiset(s2);
      var i := Position(s2, x);
      var a, b := s2[..i], s2[i + 1..];
      assert s2 == a + [x] + b;
      assert multiset(tail) == multiset(a + b) by {
        assert multiset(tail) == multiset(s1) - multiset{x};
        assert multiset(a + b) == multiset(s2) - multiset{x};
      }
      IdsOfPermutes(tail, a + b);
      IdsOfAppend([x], tail);
      IdsOfAppend(a + [x], b);
      IdsOfAppend(a, [x]);
      IdsOfAppend(a, b);
      assert IdsOf([x]) == [x.id];
    }
  }

  /** Nothing is dropped and nothing is de-duplicated: the ids in the groups are the
      input ids, each as often as in the input. */
  lemma DataSortPartition(ids: seq<ImageId>, c: Criterion, ctx: Context, g: Groups)
    requires DataSort(ids, c, ctx) == Ok(g)
    ensures multiset(IdsOf(Flatten(g))) == multiset(ids)
    ensures |Flatten(g)| == |ids|
    ensures forall i :: 0 <= i < |g| ==> g[i].1 != []
  {
    var es := ProjectAll(ids, c, ctx).value;
    ArrangePartition(es, c);
    ProjectedIds(ids, c, ctx);
    IdsOfPermutes(Flatten(g), es);
    assert |multiset(Flatten(g))| == |multiset(es)|;
  }

  /** An image created on the current day ends up in the group titled `'today'` and no
      group is titled `'a few seconds ago'`. */
  lemma DataSortJustNowIsToday(ids: seq<ImageId>, ctx: Context, g: Groups, q: int)
    requires DataSort(ids, ByDate, ctx) == Ok(g)
    requires ctx.dayLabel(0) == FewSecondsAgo
    requires 0 <= q < |ids| && ids[q] in ctx.items && DayOf(ctx.items[ids[q]].createdAt) == DayOf(ctx.now)
    ensures FewSecondsAgo !in Keys(g)
    ensures var e := Entry(ids[q], ctx.items[ids[q]].createdAt, Some(FewSecondsAgo));
      && (exists i :: 0 <= i < |g| && e in g[i].1)
      && (forall i :: 0 <= i < |g| && e in g[i].1 ==> g[i].0 == Today)
  {
    var es := ProjectAll(ids, ByDate, ctx).value;
    var e := Entry(ids[q], ctx.items[ids[q]].createdAt, Some(FewSecondsAgo));
    ProjectAllFacts(ids, ByDate, ctx);
    assert es[q] == e;
    ArrangePartition(es, ByDate);
    DateKeys(es);
    assert e in multiset(Flatten(g));
    FlattenMembers(g, e);
    forall i | 0 <= i < |g| && e in g[i].1 ensures g[i].0 == Today {
      assert Keys(g)[i] == g[i].0;
    }
  }

  /** An entry produced by the projection is the projection of its own id. */
  lemma EntryOfId(ids: seq<ImageId>, c: Criterion, ctx: Context, x: Entry)
    requires ProjectAll(ids, c, ctx).Ok? && x in ProjectAll(ids, c, ctx).value
    ensures ProjectOne(x.id, c, ctx) == Ok(x)
  {
    ProjectAllFacts(ids, c, ctx);
    var es := ProjectAll(ids, c, ctx).value;
    var a :| 0 <= a < |es| && es[a] == x;
    assert ProjectOne(ids[a], c, ctx) == Ok(x);
  }

  lemma SameValueSameGroup(r: Groups, i: int, j: int, x: Entry, y: Entry)
    requires NonEmptyGroups(r) && UniformGroups(r) && SeparateGroups(r)
    requires 0 <= i < |r| && 0 <= j < |r| && x in r[i].1 && y in r[j].1 && KeyOf(x) == KeyOf(y)
    ensures i == j
  {
  }

  /** An entry found in a date grouping carries the day label of its image. */
  lemma DateKeyOfMember(ids: seq<ImageId>, ctx: Context, g: Groups, i: int, x: Entry)
    requires DataSort(ids, ByDate, ctx) == Ok(g)
    requires 0 <= i < |g| && x in g[i].1
    ensures x.id in ctx.items
    ensures KeyOf(x) == ctx.dayLabel(DayOffset(ctx.items[x.id].createdAt, ctx.now))
  {
    var es := ProjectAll(ids, ByDate, ctx).value;
    assert g == Arrange(es, ByDate);
    ArrangePartition(es, ByDate);
    FlattenMembers(g, x);
    assert x in multiset(Flatten(g));
    assert x in es;
    EntryOfId(ids, ByDate, ctx, x);
  }

  lemma SameDayPair(ids: seq<ImageId>, ctx: Context, g: Groups, i: int, j: int, x: Entry, y: Entry)
    requires DataSort(ids, ByDate, ctx) == Ok(g)
    requires x.id in ctx.items && y.id in ctx.items
    requires DayOf(ctx.items[x.id].createdAt) == DayOf(ctx.items[y.id].createdAt)
    requires 0 <= i < |g| && 0 <= j < |g| && x in g[i].1 && y in g[j].1
    ensures i == j
  {
    DateKeyOfMember(ids, ctx, g, i, x);
    DateKeyOfMember(ids, ctx, g, j, y);
    var es := ProjectAll(ids, ByDate, ctx).value;
    ArrangePartition(es, ByDate);
    SameValueSameGroup(g, i, j, x, y);
  }

  /** Two images created on the same day land in the same group. */
  lemma DataSortSameDaySameGroup(ids: seq<ImageId>, ctx: Context, g: Groups, p: int, q: int)
    requires DataSort(ids, ByDate, ctx) == Ok(g)
    requires 0 <= p < |ids| && 0 <= q < |ids| && ids[p] in ctx.items && ids[q] in ctx.items
    requires DayOf(ctx.items[ids[p]].createdAt) == DayOf(ctx.items[ids[q]].createdAt)
    ensures forall i, j, x, y :: 0 <= i < |g| && 0 <= j < |g| && x in g[i].1 && y in g[j].1 && x.id == ids[p] && y.id == ids[q] ==> i == j
  {
    forall i, j, x, y | 0 <= i < |g| && 0 <= j < |g| && x in g[i].1 && y in g[j].1 && x.id == ids[p] && y.id == ids[q]
      ensures i == j
    {
      SameDayPair(ids, ctx, g, i, j, x, y);
    }
  }

  /** For any sort key other than `'date'` and `'author'` nothing can throw and all
      entries form one group keyed `'undefined'`, sorted by id, largest first. */
  lemma DataSortById(ids: seq<ImageId>, ctx: Context)
    ensures DataSort(ids, ById, ctx).Ok?
    ensures var g := DataSort(ids, ById, ctx).value;
      && (ids == [] ==> g == [])
      && (ids != [] ==> |g| == 1 && g[0].0 == UndefinedKey && multiset(IdsOf(g[0].1)) == multiset(ids))
      && forall i, a, b :: 0 <= i < |g| && 0 <= a < b < |g[i].1| ==> g[i].1[a].id >= g[i].1[b].id
  {
    ProjectAllFacts(ids, ById, ctx);
    var es := ProjectAll(ids, ById, ctx).value;
    forall x | x in es ensures x.groupValue == None && x.sortValue == x.id {
      var k :| 0 <= k < |es| && es[k] == x;
    }
    ArrangeById(es);
    if ids != [] {
      SortDescendingFacts(es);
      ProjectedIds(ids, ById, ctx);
      IdsOfPermutes(SortDescending(es), es);
      var sd := SortDescending(es);
      forall a | 0 <= a < |sd| ensures sd[a].sortValue == sd[a].id {
        assert sd[a] in multiset(es);
      }
    }
  }
}
