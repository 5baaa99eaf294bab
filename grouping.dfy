/** The grouping/sort engine of the images perspective (`handleDataSort`): each image id
    of a space is projected to a sort entry, the entries are stable-sorted ascending by
    sort value and reversed, partitioned by group value in order of first appearance,
    and then post-processed per sort key. */
module Grouping {
  import opened Base
  import opened Strings

  const SecondsPerDay: int := 86400
  /** The label moment gives to a zero day offset. */
  const FewSecondsAgo: string := "a few seconds ago"
  const Today: string := "today"
  /** `String(undefined)`: the group key of entries without a group value. */
  const UndefinedKey: string := "undefined"

  /** The switch on `sortBy`: `'date'`, `'author'`, or anything else. */
  datatype Criterion = ByDate | ByAuthor | ById

  /** A sort entry `{id, sortValue, groupValue}`; a missing group value is `undefined`. */
  datatype Entry = Entry(id: ImageId, sortValue: int, groupValue: Option<string>)

  /** The grouped result: group keys with their entries, in the object's key order. */
  type Groups = seq<(string, seq<Entry>)>

  /** Dereferencing a missing image or user throws a TypeError. */
  datatype SortError = MissingImage(image: ImageId) | MissingUser(user: UserId)

  /** The store dictionaries plus the two things moment reads from outside: the
      current time and the relative-day wording of a day offset (0 is today). */
  datatype Context = Context(items: map<ImageId, Image>, users: map<UserId, User>, now: int, dayLabel: int -> string)

  function CriterionOf(sortBy: Option<string>): Criterion
  {
    if sortBy == Some("date") then ByDate
    else if sortBy == Some("author") then ByAuthor
    else ById
  }

  /** The day a timestamp falls on (`startOf('day')`). */
  function DayOf(t: int): int
  {
    t / SecondsPerDay
  }

  function DayOffset(createdAt: int, now: int): int
  {
    DayOf(createdAt) - DayOf(now)
  }

  /** The key `_.groupBy` files an entry under. */
  function KeyOf(e: Entry): string
  {
    match e.groupValue
    case None => UndefinedKey
    case Some(name) => name
  }

  /** The projection of one image id under the criterion. */
  function ProjectOne(id: ImageId, c: Criterion, ctx: Context): Result<Entry, SortError>
  {
    match c
    case ById => Ok(Entry(id, id, None))
    case ByDate =>
      if id !in ctx.items then Err(MissingImage(id))
      else
        var image := ctx.items[id];
        Ok(Entry(id, image.createdAt, Some(ctx.dayLabel(DayOffset(image.createdAt, ctx.now)))))
    case ByAuthor =>
      if id !in ctx.items then Err(MissingImage(id))
      else
        var image := ctx.items[id];
        if image.ownerUserId !in ctx.users then Err(MissingUser(image.ownerUserId))
        else Ok(Entry(id, image.createdAt, Some(ctx.users[image.ownerUserId].fullName)))
  }

  /** The projection loop: entries in input order, or the first projection that throws. */
  function ProjectAll(ids: seq<ImageId>, c: Criterion, ctx: Context): Result<seq<Entry>, SortError>
  {
    if ids == [] then Ok([])
    else
      match ProjectAll(ids[..|ids| - 1], c, ctx)
      case Err(e) => Err(e)
      case Ok(entries) =>
        match ProjectOne(ids[|ids| - 1], c, ctx)
        case Err(e) => Err(e)
        case Ok(entry) => Ok(entries + [entry])
  }

  lemma {:induction false} ProjectAllKeepsError(ids: seq<ImageId>, n: nat, c: Criterion, ctx: Context)
    requires n <= |ids| && ProjectAll(ids[..n], c, ctx).Err?
    ensures ProjectAll(ids, c, ctx) == ProjectAll(ids[..n], c, ctx)
    decreases |ids| - n
  {
    if n == |ids| {
      assert ids[..n] == ids;
    } else {
      assert ids[..n + 1][..n] == ids[..n];
      ProjectAllKeepsError(ids, n + 1, c, ctx);
    }
  }

  /** Inserts `x` before the first entry whose sort value is not below its own. */
  function InsertByValue(x: Entry, t: seq<Entry>): seq<Entry>
  {
    if t == [] || x.sortValue <= t[0].sortValue then [x] + t
    else [t[0]] + InsertByValue(x, t[1..])
  }

  /** `_.sortBy(entries, ['sortValue'])`: stable, ascending. */
  function SortByValue(s: seq<Entry>): seq<Entry>
  {
    if s == [] then [] else InsertByValue(s[0], SortByValue(s[1..]))
  }

  /** `_.reverse`. */
  function Reverse<T>(s: seq<T>): seq<T>
  {
    if s == [] then [] else [s[|s| - 1]] + Reverse(s[..|s| - 1])
  }

  /** The sort step of `handleDataSort`: `_.sortBy` followed by `_.reverse`. */
  function SortDescending(s: seq<Entry>): seq<Entry>
  {
    Reverse(SortByValue(s))
  }

  predicate Ascending(s: seq<Entry>)
  {
    forall i, j :: 0 <= i < j < |s| ==> s[i].sortValue <= s[j].sortValue
  }

  predicate NonIncreasing(s: seq<Entry>)
  {
    forall i, j :: 0 <= i < j < |s| ==> s[i].sortValue >= s[j].sortValue
  }

  /** The entries with sort value `v`, in order. */
  function WithValue(s: seq<Entry>, v: int): seq<Entry>
  {
    if s == [] then [] else (if s[0].sortValue == v then [s[0]] else []) + WithValue(s[1..], v)
  }

  /** The entries filed under key `k`, in order. */
  function WithKey(s: seq<Entry>, k: string): seq<Entry>
  {
    if s == [] then [] else (if KeyOf(s[0]) == k then [s[0]] else []) + WithKey(s[1..], k)
  }

  /** The position of the first entry filed under `k`, or `|s|` when there is none. */
  function FirstIndex(s: seq<Entry>, k: string): (p: nat)
    ensures p <= |s|
    ensures forall q :: 0 <= q < p ==> KeyOf(s[q]) != k
    ensures p < |s| ==> KeyOf(s[p]) == k
  {
    if s == [] then 0
    else if KeyOf(s[0]) == k then 0
    else 1 + FirstIndex(s[1..], k)
  }

  function Keys(g: Groups): seq<string>
  {
    seq(|g|, i requires 0 <= i < |g| => g[i].0)
  }

  predicate KeysDistinct(g: Groups)
  {
    forall i, j :: 0 <= i < j < |g| ==> g[i].0 != g[j].0
  }

  /** `groups[k]`, with `[]` for a key that is absent. */
  function Lookup(g: Groups, k: string): seq<Entry>
  {
    if g == [] then [] else if g[0].0 == k then g[0].1 else Lookup(g[1..], k)
  }

  /** All entries of all groups, group after group. */
  function Flatten(g: Groups): seq<Entry>
  {
    if g == [] then [] else g[0].1 + Flatten(g[1..])
  }

  /** One step of `_.groupBy`: push onto the group of key `k`, or open it at the end. */
  function AddToGroup(g: Groups, k: string, e: Entry): Groups
  {
    if g == [] then [(k, [e])]
    else if g[0].0 == k then [(k, g[0].1 + [e])] + g[1..]
    else [g[0]] + AddToGroup(g[1..], k, e)
  }

  /** `_.groupBy(entries, 'groupValue')`, visiting entries left to right. */
  function GroupBy(s: seq<Entry>): Groups
  {
    if s == [] then []
    else AddToGroup(GroupBy(s[..|s| - 1]), KeyOf(s[|s| - 1]), s[|s| - 1])
  }

  /** The date post-pass: the first key equal to `from` becomes `to`; the first
      occurrence of the phrase in the JSON text is that key, ahead of its entries. */
  function RenameFirstKey(g: Groups, from: string, to: string): Groups
  {
    if g == [] then []
    else if g[0].0 == from then [(to, g[0].1)] + g[1..]
    else [g[0]] + RenameFirstKey(g[1..], from, to)
  }

  /** The author post-pass: a new object filled key by key in the order of `ks`. */
  function Reorder(g: Groups, ks: seq<string>): Groups
  {
    if ks == [] then []
    else Reorder(g, ks[..|ks| - 1]) + [(ks[|ks| - 1], Lookup(g, ks[|ks| - 1]))]
  }

  /** Everything `handleDataSort` does after the projection loop. */
  function Arrange(entries: seq<Entry>, c: Criterion): Groups
  {
    var grouped := GroupBy(SortDescending(entries));
    match c
    case ByDate => RenameFirstKey(grouped, FewSecondsAgo, Today)
    case ByAuthor => Reorder(grouped, SortKeys(Keys(grouped)))
    case ById => grouped
  }

  /** The value `handleDataSort` returns, or the error it throws. */
  function DataSort(ids: seq<ImageId>, c: Criterion, ctx: Context): Result<Groups, SortError>
  {
    match ProjectAll(ids, c, ctx)
    case Err(e) => Err(e)
    case Ok(entries) => Ok(Arrange(entries, c))
  }

  /** `_.get(imagesBySpaceId, [spaceId, 'images'])`, with `[]` for a missing space. */
  function ImageIdsOf(imagesBySpaceId: map<SpaceId, seq<ImageId>>, spaceId: SpaceId): seq<ImageId>
  {
    if spaceId in imagesBySpaceId then imagesBySpaceId[spaceId] else []
  }

  method HandleDataSort(spaceId: SpaceId, sortBy: Option<string>, imagesBySpaceId: map<SpaceId, seq<ImageId>>,
                        items: map<ImageId, Image>, users: map<UserId, User>, now: int, dayLabel: int -> string)
    returns (r: Result<Groups, SortError>)
    ensures r == DataSort(ImageIdsOf(imagesBySpaceId, spaceId), CriterionOf(sortBy), Context(items, users, now, dayLabel))
  {
    var ctx := Context(items, users, now, dayLabel);
    var criterion := CriterionOf(sortBy);
    var imageIds := ImageIdsOf(imagesBySpaceId, spaceId);
    var sortedData: seq<Entry> := [];
    var i := 0;
    while i < |imageIds|
      invariant 0 <= i <= |imageIds|
      invariant ProjectAll(imageIds[..i], criterion, ctx) == Ok(sortedData)
    {
      var entry := ProjectOne(imageIds[i], criterion, ctx);
      assert imageIds[..i + 1][..i] == imageIds[..i];
      if entry.Err? {
        ProjectAllKeepsError(imageIds, i + 1, criterion, ctx);
        return Err(entry.error);
      }
      sortedData := sortedData + [entry.value];
      i := i + 1;
    }
    assert imageIds[..i] == imageIds;
    var entries := sortedData;
    sortedData := SortByValue(sortedData);
    sortedData := Reverse(sortedData);
    var groups := GroupBy(sortedData);
    if criterion == ByDate {
      groups := RenameFirstKey(groups, FewSecondsAgo, Today);
    }
    if criterion == ByAuthor {
      var sortedGroupKeys := SortKeys(Keys(groups));
      var sortedGroupData: Groups := [];
      var j := 0;
      while j < |sortedGroupKeys|
        invariant 0 <= j <= |sortedGroupKeys|
        invariant sortedGroupData == Reorder(groups, sortedGroupKeys[..j])
      {
        var key := sortedGroupKeys[j];
        assert sortedGroupKeys[..j + 1][..j] == sortedGroupKeys[..j];
        sortedGroupData := sortedGroupData + [(key, Lookup(groups, key))];
        j := j + 1;
      }
      assert sortedGroupKeys[..j] == sortedGroupKeys;
      groups := sortedGroupData;
    }
    assert groups == Arrange(entries, criterion);
    r := Ok(groups);
  }
}
