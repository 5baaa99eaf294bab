/** The three decisions `ImagesPerspective` takes around the grouping: whether new
    props trigger a re-sort and with which key, whether a toolbar sort change is
    dispatched, and whether the component renders again. */
module SortDecisions {
  import opened Base
  import opened Grouping
  import opened GroupingResult

  /** The props the decisions read. `imagesBySpaceId` is `None` while the store has
      not loaded it; `query` is the parsed query string of the location. */
  datatype Props = Props(
    defaultSortBy: string,
    sortImagesBy: map<SpaceId, string>,
    imagesBySpaceId: Option<map<SpaceId, seq<ImageId>>>,
    query: map<string, string>)

  /** What `componentWillReceiveProps` does: nothing, or `handleDataSort` with the
      given sort key (`None` is JavaScript's `undefined`). */
  datatype Reaction = Keep | ResortWith(sortBy: Option<string>)

  /** The action `sortChange` dispatches. */
  datatype SortAction = UpdateImagesSortBy(spaceId: SpaceId, sortBy: string)

  /** Whether `sortImagesBy[spaceId]` is truthy: present and not the empty string. */
  predicate HasSort(sortImagesBy: map<SpaceId, string>, spaceId: SpaceId)
  {
    spaceId in sortImagesBy && sortImagesBy[spaceId] != ""
  }

  /** `sortImagesBy[spaceId] || defaultSortBy`. */
  function StoredSort(sortImagesBy: map<SpaceId, string>, spaceId: SpaceId, defaultSortBy: string): string
  {
    if HasSort(sortImagesBy, spaceId) then sortImagesBy[spaceId] else defaultSortBy
  }

  /** `imagesBySpaceId && imagesBySpaceId[spaceId]`: the space's image record exists. */
  predicate HasImages(imagesBySpaceId: Option<map<SpaceId, seq<ImageId>>>, spaceId: SpaceId)
  {
    imagesBySpaceId.Some? && spaceId in imagesBySpaceId.value
  }

  /** `query.sort`, `None` when the query has no `sort` parameter. */
  function QuerySort(query: map<string, string>): Option<string>
  {
    if "sort" in query then Some(query["sort"]) else None
  }

  /** `_.size(query) > 0 && newSort !== query.sort`, as the source writes it. */
  predicate QueryDiffersAsWritten(query: map<string, string>, newSort: string)
  {
    |query| > 0 && QuerySort(query) != Some(newSort)
  }

  /** The re-sort rule of `componentWillReceiveProps` as the source writes it. Both sort
      keys fall back to the current props' default; `imagesChanged` is the reference
      comparison of the two `imagesBySpaceId` objects, and the guard reads the current
      props' images. */
  function ResortAsWritten(current: Props, next: Props, spaceId: SpaceId, imagesChanged: bool): Reaction
  {
    var currentSort := StoredSort(current.sortImagesBy, spaceId, current.defaultSortBy);
    var newSort := StoredSort(next.sortImagesBy, spaceId, current.defaultSortBy);
    var sortChanged := currentSort != newSort;
    var firstSort := !HasSort(next.sortImagesBy, spaceId);
    var queryDiffers := QueryDiffersAsWritten(next.query, newSort);
    if (firstSort || sortChanged || imagesChanged || queryDiffers) && HasImages(current.imagesBySpaceId, spaceId) then
      ResortWith(if queryDiffers then QuerySort(next.query) else Some(newSort))
    else
      Keep
  }

  /** The query overrides the stored key only when it names a non-empty sort key that
      differs from it, as `componentWillMount` already checks. */
  predicate QueryOverrides(query: map<string, string>, newSort: string)
  {
    "sort" in query && query["sort"] != "" && query["sort"] != newSort
  }

  /** The re-sort rule with the query override of `QueryOverrides`. */
  function Resort(current: Props, next: Props, spaceId: SpaceId, imagesChanged: bool): Reaction
  {
    var currentSort := StoredSort(current.sortImagesBy, spaceId, current.defaultSortBy);
    var newSort := StoredSort(next.sortImagesBy, spaceId, current.defaultSortBy);
    var sortChanged := currentSort != newSort;
    var firstSort := !HasSort(next.sortImagesBy, spaceId);
    var queryOverrides := QueryOverrides(next.query, newSort);
    if (firstSort || sortChanged || imagesChanged || queryOverrides) && HasImages(current.imagesBySpaceId, spaceId) then
      ResortWith(Some(if queryOverrides then next.query["sort"] else newSort))
    else
      Keep
  }

  /** The re-sort rule as written re-sorts exactly when the current images are loaded
      and the sort is new, changed, the images changed, or a non-empty query's `sort`
      differs from the stored key; the query's `sort` is used in that last case and
      the stored key (with the default as fallback) otherwise. */
  lemma ResortAsWrittenCases(current: Props, next: Props, spaceId: SpaceId, imagesChanged: bool)
    ensures var r := ResortAsWritten(current, next, spaceId, imagesChanged);
      var newSort := StoredSort(next.sortImagesBy, spaceId, current.defaultSortBy);
      && (r.ResortWith? <==>
            HasImages(current.imagesBySpaceId, spaceId) &&
            (!HasSort(next.sortImagesBy, spaceId)
             || StoredSort(current.sortImagesBy, spaceId, current.defaultSortBy) != newSort
             || imagesChanged
             || (|next.query| > 0 && QuerySort(next.query) != Some(newSort))))
      && (r.ResortWith? && |next.query| > 0 && QuerySort(next.query) != Some(newSort) ==> r.sortBy == QuerySort(next.query))
      && (r.ResortWith? && !(|next.query| > 0 && QuerySort(next.query) != Some(newSort)) ==> r.sortBy == Some(newSort))
  {
  }

  /** Nothing happens while the current props have no images for the space. */
  lemma ResortNeedsImages(current: Props, next: Props, spaceId: SpaceId, imagesChanged: bool)
    requires !HasImages(current.imagesBySpaceId, spaceId)
    ensures ResortAsWritten(current, next, spaceId, imagesChanged) == Keep
    ensures Resort(current, next, spaceId, imagesChanged) == Keep
  {
  }

  /** Props that change nothing the grouping depends on do not re-sort: the stored key
      is set and unchanged, the images are the same object and the query is empty or
      agrees with the stored key. */
  lemma ResortSteady(current: Props, next: Props, spaceId: SpaceId)
    requires HasSort(next.sortImagesBy, spaceId)
    requires StoredSort(current.sortImagesBy, spaceId, current.defaultSortBy) == next.sortImagesBy[spaceId]
    requires |next.query| == 0 || QuerySort(next.query) == Some(next.sortImagesBy[spaceId])
    ensures ResortAsWritten(current, next, spaceId, false) == Keep
    ensures Resort(current, next, spaceId, false) == Keep
  {
  }

  /** A non-empty query without `sort` (a `page` parameter, say) makes the rule as
      written re-sort with `undefined`, which groups by id; the stored key is `'date'`. */
  lemma QueryWithoutSortAsWritten()
    ensures var current := Props("date", map[1 := "date"], Some(map[1 := []]), map[]);
      var next := Props("date", map[1 := "date"], Some(map[1 := []]), map["page" := "2"]);
      && ResortAsWritten(current, next, 1, false) == ResortWith(None)
      && CriterionOf(None) == ById
      && Resort(current, next, 1, false) == Keep
  {
    var next := Props("date", map[1 := "date"], Some(map[1 := []]), map["page" := "2"]);
    assert "sort" !in next.query;
  }

  /** The grouping that the rule as written then produces: one group keyed
      `'undefined'` holding every image, instead of the date groups the store names. */
  lemma QueryWithoutSortGroupsById(ids: seq<ImageId>, ctx: Context)
    requires ids != []
    ensures DataSort(ids, CriterionOf(None), ctx).Ok?
    ensures var g := DataSort(ids, CriterionOf(None), ctx).value;
      |g| == 1 && g[0].0 == UndefinedKey && multiset(IdsOf(g[0].1)) == multiset(ids)
  {
    DataSortById(ids, ctx);
  }

  /** The corrected rule always sorts with a defined, non-empty key when the stored or
      the default key is non-empty, and a query sort wins exactly when it overrides. */
  lemma ResortUsesDefinedKey(current: Props, next: Props, spaceId: SpaceId, imagesChanged: bool)
    requires current.defaultSortBy != ""
    ensures var r := Resort(current, next, spaceId, imagesChanged);
      var newSort := StoredSort(next.sortImagesBy, spaceId, current.defaultSortBy);
      && (r.ResortWith? ==> r.sortBy.Some? && r.sortBy.value != "")
      && (r.ResortWith? ==> (r.sortBy == Some(newSort) <==> !QueryOverrides(next.query, newSort)))
  {
  }

  /** Both rules agree whenever the query is empty or names a non-empty sort key. */
  lemma ResortAgrees(current: Props, next: Props, spaceId: SpaceId, imagesChanged: bool)
    requires |next.query| == 0 || (QuerySort(next.query).Some? && QuerySort(next.query).value != "")
    ensures Resort(current, next, spaceId, imagesChanged) == ResortAsWritten(current, next, spaceId, imagesChanged)
  {
  }

  /** `sortChange`: dispatch the new key only when it differs from the key in use. */
  function SortChange(props: Props, spaceId: SpaceId, newSort: string): (r: Option<SortAction>)
    ensures r.Some? <==> StoredSort(props.sortImagesBy, spaceId, props.defaultSortBy) != newSort
    ensures r.Some? ==> r.value == UpdateImagesSortBy(spaceId, newSort)
  {
    if StoredSort(props.sortImagesBy, spaceId, props.defaultSortBy) != newSort then
      Some(UpdateImagesSortBy(spaceId, newSort))
    else
      None
  }

  /** Once the store records the dispatched key, choosing it again dispatches nothing,
      unless the key is empty and so falls back to a non-empty default. */
  lemma SortChangeSettles(props: Props, spaceId: SpaceId, newSort: string)
    ensures var after := props.(sortImagesBy := props.sortImagesBy[spaceId := newSort]);
      SortChange(after, spaceId, newSort) == None <==> (newSort != "" || props.defaultSortBy == "")
  {
  }

  /** A dispatched sort change that the store records makes the next props re-sort
      when the images are loaded. The corrected rule uses the new key unless the
      query overrides it; the rule as written uses it when the query is empty or
      agrees, and otherwise takes the query's `sort`, `undefined` when it has none. */
  lemma SortChangeThenResort(current: Props, next: Props, spaceId: SpaceId, newSort: string, imagesChanged: bool)
    requires SortChange(current, spaceId, newSort).Some? && newSort != ""
    requires next.sortImagesBy == current.sortImagesBy[spaceId := newSort]
    requires HasImages(current.imagesBySpaceId, spaceId)
    ensures !QueryOverrides(next.query, newSort) ==>
      Resort(current, next, spaceId, imagesChanged) == ResortWith(Some(newSort))
    ensures QueryOverrides(next.query, newSort) ==>
      Resort(current, next, spaceId, imagesChanged) == ResortWith(Some(next.query["sort"]))
    ensures !QueryDiffersAsWritten(next.query, newSort) ==>
      ResortAsWritten(current, next, spaceId, imagesChanged) == ResortWith(Some(newSort))
    ensures QueryDiffersAsWritten(next.query, newSort) ==>
      ResortAsWritten(current, next, spaceId, imagesChanged) == ResortWith(QuerySort(next.query))
  {
  }

  /** The parts of the component that a render shows. */
  datatype View<T> = View(sortedImages: T, selectedImagesIds: seq<ImageId>, selectable: bool)

  /** `shouldComponentUpdate`: render again unless the sorted images, the selection and
      the selection mode are all equal. */
  function ShouldComponentUpdate<T(==)>(current: View<T>, next: View<T>): (r: bool)
    ensures r <==> current != next
    ensures !r ==> next.selectedImagesIds == current.selectedImagesIds && next.selectable == current.selectable
  {
    !(next.sortedImages == current.sortedImages
      && next.selectedImagesIds == current.selectedImagesIds
      && next.selectable == current.selectable)
  }
}
