# Image organizer of the gallery perspective, in Dafny

This project models the image organizer of the gallery's `ImagesPerspective` component
and the `Image` component that shows one thumbnail, and proves properties of the model.

- **Grouping and sort engine** (`handleDataSort`). Each image id of a space is projected
  to an entry `{id, sortValue, groupValue}` according to the sort key:
  - `'date'`: the creation time, with the relative-day label of the creation day;
  - `'author'`: the creation time, with the owner's full name;
  - any other key: the id itself, with no group value.

  The entries are sorted with lodash's stable ascending `_.sortBy`, reversed, and grouped
  with `_.groupBy`. For `'date'` the first group key `'a few seconds ago'` becomes
  `'today'`. For `'author'` the groups are rebuilt with their keys in ascending order.
  Under `'date'` and `'author'`, a missing image, or for `'author'` a missing owner,
  throws at the first such id. Any other key never throws.
- **Re-sort decisions**: when `componentWillReceiveProps` re-sorts and with which key,
  when `sortChange` dispatches a new sort key, and when `shouldComponentUpdate` renders.
- **Selection state**: `selectImages`, `unselectAllImages` and `selectImage` on the
  component's `selectable` flag and its list of selected ids.
- **Image thumbnail**: the fallback from the default thumb `'c'` to the original image,
  whether the link is marked selected, and the click forwarding.

Modules:

- `Base` (`base.dfy`) holds the records, `Option` and `Result`.
- `Strings` (`strings.dfy`) holds JavaScript's string order and `keys.sort()`.
- `Grouping` (`grouping.dfy`) holds the engine. The method `HandleDataSort` keeps the
  source's loops and reassignments. The function `DataSort` is its specification.
- `GroupingSort`, `GroupingGroups` and `GroupingResult` hold the lemmas about the sort
  step, about `_.groupBy` with the two post-passes, and about the whole result.
- `SortDecisions` (`sort_decisions.dfy`) holds the three decisions as functions.
- `Selection` (`selection.dfy`) holds the class `PerspectiveState`, with the toggle as the
  function `Toggle`.
- `ImageView` (`image_view.dfy`) holds the `Image` component.

Inputs from outside the code become parameters:

- the current time `now`, in seconds;
- moment's relative-day wording, `dayLabel`, a function of the signed day offset (0 is the
  current day);
- whether the new `imagesBySpaceId` is a different object from the current one, as the
  boolean `imagesChanged`.

A day is `t / 86400` of a timestamp in seconds, so days are UTC days. A `groupValue` that
is `undefined` is filed under the key `'undefined'`, as `_.groupBy` does.

The selection is an ordered list: a click appends a new id at the end, and the model
keeps that order.

## Model

| member | source | states |
|---|---|---|
| Grouping.DataSort | app2/ImagesPerspective.js:150-195 | The specification of `handleDataSort`: project every id, or fail at the first id that cannot be projected, then arrange the entries by the key. Its properties are the `GroupingResult` lemmas below. |
| Grouping.ImageIdsOf | app2/ImagesPerspective.js:151 | `_.get(imagesBySpaceId, [spaceId, 'images'])`, the empty list for a missing space. `Grouping.HandleDataSort` starts from it. |
| Grouping.CriterionOf | app2/ImagesPerspective.js:157 | The `switch (sortBy)`: `'date'`, `'author'`, or the default branch for any other key and for `undefined`. `Grouping.HandleDataSort` and `SortDecisions.QueryWithoutSortGroupsById` use it. |
| Grouping.DayOffset | app2/ImagesPerspective.js:160 | The difference between the creation day and the current day, both taken with `startOf('day')`, which the day label is read from. `GroupingResult.DataSortJustNowIsToday` and `GroupingResult.DataSortSameDaySameGroup` state what it decides. |
| Grouping.ProjectAll | app2/ImagesPerspective.js:154-172 | The `_.map` and `push` loop: entries in input order, or the error of the first id that throws. `GroupingResult.DataSortSucceeds` and `GroupingResult.DataSortFirstError` state when it fails. |
| Grouping.ProjectOne | app2/ImagesPerspective.js:155-171 | The projection of one id to `{id, sortValue, groupValue}` under each key, or the missing image or owner. `GroupingResult.DataSortSucceeds` and `GroupingResult.DataSortFirstError` state when it fails. |
| Grouping.Arrange | app2/ImagesPerspective.js:174-192 | Sort, reverse, group and then post-process by key. `GroupingResult.ArrangePartition` and `GroupingResult.ArrangeGroupOrder` state its properties. |
| Grouping.SortByValue | app2/ImagesPerspective.js:174 | lodash's stable ascending `_.sortBy` as insertion sort. `GroupingSort.SortByValueFacts` states its properties. |
| Grouping.Reverse | app2/ImagesPerspective.js:175 | `_.reverse`. `GroupingSort.SortDescendingFacts` states what sort then reverse gives. |
| Grouping.KeyOf | app2/ImagesPerspective.js:176 | The key `_.groupBy` files an entry under: its group value, or `'undefined'` when there is none. `GroupingGroups.GroupByShape` and `GroupingResult.ArrangeById` state the grouping by this key. |
| Grouping.GroupBy | app2/ImagesPerspective.js:176 | `_.groupBy` on the group value, as a fold over the list. `GroupingGroups.GroupByShape`, `GroupingGroups.GroupByPermutes` and `GroupingGroups.GroupByFirstOccurrence` state its properties. |
| Grouping.RenameFirstKey | app2/ImagesPerspective.js:178-182 | The date post-pass: rename the first group keyed `'a few seconds ago'` to `'today'`. `GroupingGroups.RenameFirstKeyAt` and `GroupingGroups.RenameDistinct` state its properties. |
| Grouping.Reorder | app2/ImagesPerspective.js:184-192 | The author post-pass: rebuild the groups over the sorted keys. `GroupingGroups.ReorderBySortedKeys` states its properties. |
| Grouping.HandleDataSort | app2/ImagesPerspective.js:150-195 | The loops and reassignments compute exactly `DataSort`: the grouping, or the error of the first id that cannot be projected. |
| GroupingResult.DataSortSucceeds | app2/ImagesPerspective.js:154-171 | The routine returns exactly when every id resolves: its image exists and, for `'author'`, so does its owner. Any other key never dereferences the looked-up image, so it never throws. |
| GroupingResult.DataSortFirstError | app2/ImagesPerspective.js:154-171 | When some id fails, the error names the first failing id's missing image, or that image's missing owner. |
| GroupingResult.DataSortPartition | app2/ImagesPerspective.js:151-176 | The groups hold every input id exactly as often as the input does. Their total size is the input length, and no group is empty. |
| GroupingResult.ArrangePartition | app2/ImagesPerspective.js:174-192 | For every sort key the groups are a permutation of the entries, split so that each entry is in exactly one group. A group's entries share a group value, and no two groups share one. |
| GroupingResult.ArrangeGroupOrder | app2/ImagesPerspective.js:174-176 | In every group, sort values never increase, and entries with equal sort values appear in the reverse of their input order. |
| GroupingSort.SortByValueFacts | app2/ImagesPerspective.js:174 | `_.sortBy` yields an ascending permutation that keeps the input order among equal sort values. |
| GroupingSort.SortDescendingFacts | app2/ImagesPerspective.js:174-175 | Sort then reverse yields a non-increasing permutation. Equal sort values appear in reverse input order. |
| GroupingSort.SortCommutesWithKey | app2/ImagesPerspective.js:174-176 | Taking one group of the sorted list equals sorting that group's entries alone. |
| GroupingGroups.GroupByShape | app2/ImagesPerspective.js:176 | `_.groupBy` gives distinct keys. Each group holds exactly the entries filed under its key, in order, and is non-empty. Every entry's key has a group. |
| GroupingGroups.GroupByPermutes | app2/ImagesPerspective.js:176 | `_.groupBy` drops and duplicates no entry. |
| GroupingGroups.GroupByFirstOccurrence | app2/ImagesPerspective.js:176 | Groups appear in the order in which their keys first occur in the sorted list. |
| GroupingResult.DateOrder | app2/ImagesPerspective.js:176-182 | Date groups keep the order of first occurrence, so the group with the newest entry comes first. |
| GroupingGroups.RenameFirstKeyAt | app2/ImagesPerspective.js:178-182 | The date post-pass keeps the number, order and contents of the groups. Only the first group keyed `'a few seconds ago'` is renamed, to `'today'`. |
| GroupingGroups.RenameDistinct | app2/ImagesPerspective.js:178-182 | With distinct keys, no `'a few seconds ago'` key is left after the rename. Every other key is unchanged, and the keys stay distinct when none was already `'today'`. |
| GroupingResult.DateKeys | app2/ImagesPerspective.js:178-182 | Every date group is keyed by its entries' label, except that `'a few seconds ago'` is keyed `'today'`. The entries keep their label. |
| GroupingResult.DateKeysDistinct | app2/ImagesPerspective.js:178-182 | Date group keys are distinct when no day label reads `'today'`. |
| GroupingResult.DataSortJustNowIsToday | app2/ImagesPerspective.js:158-182 | When offset 0 reads `'a few seconds ago'`, no group keeps that title. An image created on the current day is in a group, and every group holding it is titled `'today'`. |
| GroupingResult.DataSortSameDaySameGroup | app2/ImagesPerspective.js:158-176 | Two images created on the same day land in the same group under `'date'`. |
| GroupingResult.ArrangeByAuthor | app2/ImagesPerspective.js:184-192 | Author group keys strictly ascend in JavaScript string order. Every entry of a group has that group's key as its owner name. |
| GroupingResult.AuthorPartition | app2/ImagesPerspective.js:184-192 | The rebuilt author groups still partition the entries by owner name. Each group is the sorted list of its owner's entries. |
| GroupingGroups.ReorderBySortedKeys | app2/ImagesPerspective.js:184-192 | Rebuilding the object key by key over the sorted keys gives ascending keys and the same key multiset. Each key keeps its group, and no entry is lost. |
| Strings.Below | app2/ImagesPerspective.js:186 | JavaScript's default string order, which `keys.sort()` uses: the first differing character decides, and a proper prefix comes first. `Strings.BelowIrreflexive`, `Strings.BelowTotal` and `Strings.BelowTransitive` make it a strict total order. |
| Strings.SortKeys | app2/ImagesPerspective.js:186 | `keys.sort()` as insertion sort over that order. `Strings.SortKeysFacts` states its properties. |
| Strings.SortKeysFacts | app2/ImagesPerspective.js:186 | `keys.sort()` yields an ascending permutation of the keys and keeps distinct keys distinct. |
| Strings.SortDistinctKeys | app2/ImagesPerspective.js:186 | Sorting distinct keys gives a strictly ascending list of the same keys. |
| GroupingResult.ArrangeById | app2/ImagesPerspective.js:168-176 | Without a group value every entry falls in one group keyed `'undefined'`, in the order of the sort step. |
| GroupingResult.DataSortById | app2/ImagesPerspective.js:168-176 | Under any key other than `'date'` and `'author'` the routine never throws. A non-empty input gives one group `'undefined'` holding every id, ids descending. |
| SortDecisions.StoredSort | app2/ImagesPerspective.js:87-88 | The key in use, as at line 279 too: the stored key `sortImagesBy[space.id]`, or the default when that is missing or empty. `SortDecisions.SortChange` and `SortDecisions.ResortAsWrittenCases` state what follows from it. |
| SortDecisions.QueryDiffersAsWritten | app2/ImagesPerspective.js:93 | `_.size(query) > 0 && newSort !== query.sort` as written, true for a non-empty query without `sort`. `SortDecisions.ResortAsWrittenCases` and `SortDecisions.QueryWithoutSortAsWritten` state its effect. |
| SortDecisions.QueryOverrides | app2/ImagesPerspective.js:73 | The corrected query test: a non-empty `sort` that differs from the stored key, as `componentWillMount` tests. `SortDecisions.ResortAgrees` states where it agrees with the test as written. |
| SortDecisions.ResortAsWritten | app2/ImagesPerspective.js:87-98 | The re-sort rule of `componentWillReceiveProps` as written, including the query test at lines 93-95. `SortDecisions.ResortAsWrittenCases` states it in full. |
| SortDecisions.Resort | app2/ImagesPerspective.js:87-98 | The corrected re-sort rule: the query overrides only with a non-empty `sort` that differs, as line 73 tests. `SortDecisions.ResortUsesDefinedKey` and `SortDecisions.ResortAgrees` state its properties. |
| SortDecisions.ResortAsWrittenCases | app2/ImagesPerspective.js:87-98 | The rule re-sorts exactly when the current images are loaded and one of these holds: the sort is new, the sort changed, the images changed, or a non-empty query's `sort` differs. The query's `sort` is used in the last case, and the stored key otherwise. |
| SortDecisions.ResortNeedsImages | app2/ImagesPerspective.js:93 | Without the current images for the space nothing is re-sorted. |
| SortDecisions.ResortSteady | app2/ImagesPerspective.js:87-96 | Props that keep the stored key, the images object and an agreeing or empty query do not re-sort. |
| SortDecisions.QueryWithoutSortAsWritten | app2/ImagesPerspective.js:93-96 | With the stored key `'date'` and the query `{page: '2'}`, the rule as written re-sorts with `undefined`, and the corrected rule does nothing. |
| SortDecisions.QueryWithoutSortGroupsById | app2/ImagesPerspective.js:93-97 | Sorting with `undefined` groups every image under `'undefined'`. |
| SortDecisions.ResortUsesDefinedKey | app2/ImagesPerspective.js:93-97 | With a non-empty default, the corrected rule always sorts with a defined, non-empty key. The query's key wins exactly when it overrides. |
| SortDecisions.ResortAgrees | app2/ImagesPerspective.js:93-96 | The corrected rule and the rule as written agree whenever the query is empty or names a non-empty sort key. |
| SortDecisions.SortChange | app2/ImagesPerspective.js:277-283 | A sort change is dispatched exactly when the new key differs from the key in use: the stored key, or the default when that is missing or empty. It names the space and the new key. |
| SortDecisions.SortChangeSettles | app2/ImagesPerspective.js:277-283 | Once the store records the key, choosing it again dispatches nothing. The exception is an empty key with a non-empty default. |
| SortDecisions.SortChangeThenResort | app2/ImagesPerspective.js:277-283 | A dispatched change that the store records makes the next props re-sort when the images are loaded. Under the corrected rule `Resort` the new key is used unless the query overrides it, and then the query's key. Under the rule as written, `ResortAsWritten`, the new key is used when the query is empty or its `sort` agrees; otherwise the query's `sort` is used, which is `undefined` for a query without one. |
| SortDecisions.ShouldComponentUpdate | app2/ImagesPerspective.js:102-104 | The component renders again exactly when the sorted images, the selection or the selection mode differ. |
| Selection.Toggle | app2/ImagesPerspective.js:303-309 | One click on a copy of the selection: push an absent id, splice out a present one. The `Selection.Toggle…` lemmas below state its properties. |
| Selection.IndexOf | app2/ImagesPerspective.js:307 | `_.indexOf` of a present id is its first position. |
| Selection.ToggleAbsent | app2/ImagesPerspective.js:304-305 | A click appends an absent id at the end. |
| Selection.TogglePresent | app2/ImagesPerspective.js:306-309 | A click on a present id removes exactly one occurrence and keeps the order of the rest. |
| Selection.ToggleMembership | app2/ImagesPerspective.js:300-312 | On a duplicate-free list a click flips the membership of the clicked id only, and always changes the list. |
| Selection.ToggleKeepsDistinct | app2/ImagesPerspective.js:300-312 | Clicks keep the selection duplicate-free. |
| Selection.ToggleTwiceAbsent | app2/ImagesPerspective.js:300-312 | Clicking an absent id twice restores the selection exactly. |
| Selection.ToggleTwicePresent | app2/ImagesPerspective.js:300-312 | Clicking a selected id twice moves it to the end. |
| Selection.PerspectiveState.constructor | app2/ImagesPerspective.js:59-68 | The component starts outside selection mode with nothing selected. |
| Selection.PerspectiveState.SelectImages | app2/ImagesPerspective.js:285-289 | Selection mode is on afterwards and the selection is unchanged, so a second call changes nothing. |
| Selection.PerspectiveState.UnselectAllImages | app2/ImagesPerspective.js:291-298 | Selection mode is off and the selection empty afterwards. Outside selection mode nothing changes. |
| Selection.PerspectiveState.SelectImage | app2/ImagesPerspective.js:300-312 | In selection mode the click's default is prevented and the clicked id is toggled. Otherwise nothing changes. The invariant "distinct, and empty outside selection mode" is kept. |
| ImageView.ThumbProp | app2/Image/Image.js:39-42 | A missing `thumb` prop is `'c'`. |
| ImageView.SelectedProp | app2/Image/Image.js:39-42 | A missing `selectedImagesIds` prop is `[]`. |
| ImageView.EffectiveThumb | app2/Image/Image.js:15-17 | The thumb shown is the requested one or the original `''`. It differs exactly when `'c'` is asked for and the image has no `'l'` rendition. |
| ImageView.Render | app2/Image/Image.js:25-28 | The rendered link: its target, its `selected` class and the image key and thumb for the URL. `ImageView.RenderFacts` states its properties. |
| ImageView.RenderFacts | app2/Image/Image.js:25-28 | The link points at the image and names its key. It is selected exactly when the id is selected. `'c'` (or no thumb) shows `'c'` or the original, and any other thumb is kept. |
| ImageView.RenderDefaults | app2/Image/Image.js:39-42 | With defaults, the link is never selected. It shows `'c'` when the image has an `'l'` rendition and the original otherwise. |
| ImageView.ListThumbPassesThrough | app2/Image/Image.js:15-17 | The thumb `'b'` is shown whatever renditions exist. |
| ImageView.OnClick | app2/Image/Image.js:19-23 | A click forwards the image's id exactly when a handler is given. |
| ImageView.ClickFlipsSelected | app2/Image/Image.js:19-26 | A forwarded click that toggles the selection flips the link's selected mark. |

## Left out

- The upload pipeline `filesDropped` (`app2/ImagesPerspective.js:221-275`) is not modelled. It is promise-based code around foreign upload services, and it has no failure handling.
- moment's date arithmetic and wording are not modelled. Days are UTC days of integer seconds. The current time and the relative-day label are parameters.
- `JSON.stringify` / `replace` / `JSON.parse` is modelled as renaming the first group key `'a few seconds ago'`. This assumes that no other label or owner name contains that phrase. It also ignores JSON escaping. It assumes too that no day label reads `'today'`: moment never produces it, and with such a label `JSON.parse` would merge the two `'today'` groups, keeping the later group's entries, where the model keeps both.
- JavaScript objects list integer-like keys first, in numeric order. The model keeps the first-occurrence order of `_.groupBy` and the `keys.sort()` order for all keys.
- Strings compare by Dafny character instead of by UTF-16 code unit. The two orders differ only for characters outside the Basic Multilingual Plane.
- Ids are integers. `created_at` is an integer number of seconds. A missing `thumbsnails` list is the empty list.
- A missing image or owner stands for the `TypeError` the code would throw. The model returns it as an error value.
- The props `items` and `users` are optional (lines 39 and 41), but the model assumes both are objects. Line 155 throws under every key when `items` is undefined, and line 165 throws under `'author'` when `users` is undefined.
- A user's `fullName` is always a string. A user without `full_name` gives the group value `undefined` at line 165, and the code files that image under `'undefined'`.
- `_.isEqual` in `shouldComponentUpdate` is modelled as value equality.
- Whether `imagesBySpaceId` changed is a reference comparison, so it is a boolean input.
- `setState` is modelled as an immediate update. React batches and merges it asynchronously.
- Redux plumbing is not modelled: `connect`, `dispatch`, the action creators, the reducer that records the sort key, and `loadImages` (lines 84-86). `SortDecisions.SortChangeThenResort` assumes that the store records the dispatched key.
- The drag-hover setters, the `upload` ref hack, `componentWillMount` (lines 70-76), `render`, `imageGroupsRender`, `Images.js`, `ImageHelper.postImageUrl`, `routes.path` and `classNames` are not modelled. They are UI code or foreign calls.
- The click event is modelled only by whether its default is prevented.

## Findings

| source | as written | input that shows it | evidently intended | confidence | as-written member | corrected member |
|---|---|---|---|---|---|---|
| app2/ImagesPerspective.js:93-96 | `_.size(query) > 0 && newSort !== query.sort` also holds for a non-empty query without `sort`. `newSort` then becomes `undefined`, and the images are regrouped by id under one `'undefined'` heading. | Stored key `'date'` and images loaded for space 1, with the query `{page: '2'}`. | The query overrides the stored key only when it names a non-empty `sort` that differs, as `componentWillMount` checks on line 73. | medium, not executed | SortDecisions.QueryWithoutSortAsWritten | SortDecisions.ResortUsesDefinedKey |
