/** The selection mode of `ImagesPerspective`: a flag that turns selecting on, and the
    ids of the selected images in the order they were clicked. */
module Selection {
  import opened Base

  /** `_.indexOf(ids, id)` for an id that is present: its first position. */
  function IndexOf(ids: seq<ImageId>, id: ImageId): (i: nat)
    requires id in ids
    ensures i < |ids| && ids[i] == id && id !in ids[..i]
  {
    if ids[0] == id then 0 else 1 + IndexOf(ids[1..], id)
  }

  /** One click on an image in selection mode: push an absent id, splice out the first
      occurrence of a present one. */
  function Toggle(ids: seq<ImageId>, id: ImageId): seq<ImageId>
  {
    if id !in ids then ids + [id]
    else ids[..IndexOf(ids, id)] + ids[IndexOf(ids, id) + 1..]
  }

  /** On a duplicate-free list a click flips the membership of the clicked id and of
      no other id, and never leaves the list as it was. */
  lemma {:induction false} ToggleMembership(ids: seq<ImageId>, id: ImageId)
    requires Distinct(ids)
    ensures forall x :: x in Toggle(ids, id) <==> (if x == id then id !in ids else x in ids)
    ensures Toggle(ids, id) != ids
  {
    if id in ids {
      var i := IndexOf(ids, id);
      var r := Toggle(ids, id);
      assert ids == ids[..i] + [id] + ids[i + 1..];
      forall x ensures x in r <==> (if x == id then false else x in ids) {
        if x == id {
          assert forall k :: i < k < |ids| ==> ids[k] != ids[i];
        }
      }
      assert |r| == |ids| - 1;
    } else {
      assert |Toggle(ids, id)| == |ids| + 1;
    }
  }

  /** A click appends an absent id at the end. */
  lemma ToggleAbsent(ids: seq<ImageId>, id: ImageId)
    requires id !in ids
    ensures Toggle(ids, id) == ids + [id]
    ensures |Toggle(ids, id)| == |ids| + 1
  {
  }

  /** A click on a present id removes exactly one occurrence and keeps the order of
      the others. */
  lemma TogglePresent(ids: seq<ImageId>, id: ImageId)
    requires id in ids
    ensures multiset(Toggle(ids, id)) == multiset(ids) - multiset{id}
    ensures exists i :: 0 <= i < |ids| && ids[i] == id && Toggle(ids, id) == ids[..i] + ids[i + 1..]
  {
    var i := IndexOf(ids, id);
    assert ids == ids[..i] + [id] + ids[i + 1..];
  }

  /** Clicks keep the list duplicate-free. */
  lemma ToggleKeepsDistinct(ids: seq<ImageId>, id: ImageId)
    requires Distinct(ids)
    ensures Distinct(Toggle(ids, id))
  {
    var r := Toggle(ids, id);
    if id in ids {
      var i := IndexOf(ids, id);
      forall a, b | 0 <= a < b < |r| ensures r[a] != r[b] {
        var a' := if a < i then a else a + 1;
        var b' := if b < i then b else b + 1;
        assert r[a] == ids[a'] && r[b] == ids[b'];
      }
    } else {
      forall a, b | 0 <= a < b < |r| ensures r[a] != r[b] {
        if b == |ids| {
          assert r[a] == ids[a];
        }
      }
    }
  }

  /** Clicking an absent id twice restores the list exactly. */
  lemma ToggleTwiceAbsent(ids: seq<ImageId>, id: ImageId)
    requires id !in ids
    ensures Toggle(Toggle(ids, id), id) == ids
  {
    var once := ids + [id];
    assert once[|ids|] == id;
    assert forall k :: 0 <= k < |ids| ==> once[k] == ids[k] && once[k] != id;
    assert IndexOf(once, id) == |ids|;
    assert once[..|ids|] == ids;
  }

  /** Clicking a present id twice moves it to the end of a duplicate-free list. */
  lemma ToggleTwicePresent(ids: seq<ImageId>, id: ImageId)
    requires Distinct(ids) && id in ids
    ensures Toggle(Toggle(ids, id), id) == Toggle(ids, id) + [id]
  {
    ToggleMembership(ids, id);
  }

  /** The selection state of the component. */
  class PerspectiveState {
    var selectable: bool
    var selectedImagesIds: seq<ImageId>

    /** The selection never holds an id twice and is empty outside selection mode. */
    ghost predicate Valid()
      reads this
    {
      Distinct(selectedImagesIds) && (!selectable ==> selectedImagesIds == [])
    }

    /** The initial state of the constructor: not selectable, nothing selected. */
    constructor ()
      ensures Valid()
      ensures !selectable && selectedImagesIds == []
    {
      selectable := false;
      selectedImagesIds := [];
    }

    /** `selectImages`: turn selection mode on, keeping the selection. */
    method SelectImages()
      requires Valid()
      modifies this
      ensures Valid()
      ensures selectable
      ensures selectedImagesIds == old(selectedImagesIds)
    {
      if !selectable {
        selectable := true;
      }
    }

    /** `unselectAllImages`: in selection mode, leave it and clear the selection;
        otherwise nothing changes. */
    method UnselectAllImages()
      requires Valid()
      modifies this
      ensures Valid()
      ensures !selectable && selectedImagesIds == []
      ensures !old(selectable) ==> selectedImagesIds == old(selectedImagesIds)
    {
      if selectable {
        selectable := false;
        selectedImagesIds := [];
      }
    }

    /** `selectImage`: in selection mode, prevent the link's navigation and toggle the
        clicked id on a copy of the selection; otherwise do nothing. The result says
        whether the event's default was prevented. */
    method SelectImage(imageId: ImageId) returns (defaultPrevented: bool)
      requires Valid()
      modifies this
      ensures Valid()
      ensures defaultPrevented == old(selectable)
      ensures selectable == old(selectable)
      ensures selectedImagesIds == if old(selectable) then Toggle(old(selectedImagesIds), imageId) else old(selectedImagesIds)
    {
      defaultPrevented := false;
      if selectable {
        defaultPrevented := true;
        var ids := selectedImagesIds;
        if imageId !in ids {
          ids := ids + [imageId];
        } else {
          var index := IndexOf(ids, imageId);
          ids := ids[..index] + ids[index + 1..];
        }
        ToggleKeepsDistinct(selectedImagesIds, imageId);
        selectedImagesIds := ids;
      }
    }
  }
}
