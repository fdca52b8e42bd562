/** The page state of the image feature: the store and the selected element,
    with the handlers that update them in place. */
module Images {
  import opened Wrappers
  import opened Json
  import opened Strings
  import opened Storage
  import opened Keys
  import opened Positions

  /** How a handler ends: normally, or with an exception it does not catch
      (which also ends every caller up to the event loop). */
  datatype Outcome = Completed | TypeError | SyntaxError

  /** An `<img>` element made by `createImageElement`. Reference identity is
      the `===` of the source; styling and listeners are not modelled. */
  class ImageElement {
    const domId: string

    constructor (imgId: string)
      ensures domId == ElementId(imgId)
    {
      domId := ElementId(imgId);
    }
  }

  class Canvas {
    /** `localStorage`. */
    var store: seq<Entry>
    /** The global `selectedImage`; null when nothing is selected. */
    var selected: ImageElement?

    ghost predicate Valid()
      reads this
    {
      UniqueKeys(store)
    }

    constructor (stored: seq<Entry>)
      requires UniqueKeys(stored)
      ensures Valid() && store == stored && selected == null
    {
      store := stored;
      selected := null;
    }

    /** `saveImagePosition`: an invalid position is refused and nothing is
        written; a valid one is written, as JSON, under the image's position
        key and under no other key. */
    method SaveImagePosition(imgId: string, position: JsValue)
      requires Valid()
      modifies this`store
      ensures Valid()
      ensures !IsValidPosition(position) ==> store == old(store)
      ensures IsValidPosition(position)
          ==> (store == SetItem(old(store), PositionKey(imgId), Stringify(position))
               && GetItem(store, PositionKey(imgId)) == Some(Stringify(position)))
      ensures forall k :: k != PositionKey(imgId) ==> GetItem(store, k) == GetItem(old(store), k)
    {
      if !IsValidPosition(position) {
        return;
      }
      var positionKey := PositionKey(imgId);
      store := SetItem(store, positionKey, Stringify(position));
    }

    /** `selectImage`: clicking the selected element deselects it, clicking
        any other element selects that one alone. */
    method SelectImage(img: ImageElement)
      modifies this`selected
      ensures selected == if old(selected) == img then null else img
    {
      if selected == img {
        selected := null;
      } else {
        selected := img;
      }
    }

    /** `unselectImage` on a mousedown at `target`: a press anywhere but on
        the selected element clears the selection. An `<img>` has no
        descendants, so `selectedImage.contains(target)` is identity. */
    method UnselectImage(target: object)
      modifies this`selected
      ensures selected == if old(selected) != null && target != old(selected) then null else old(selected)
    {
      if selected != null && target != selected {
        selected := null;
      }
    }

    /** A click on an image: the document's mousedown listener runs
        `unselectImage`, then the element's click listener runs `selectImage`.
        The pair still toggles. */
    method ClickImage(img: ImageElement)
      modifies this`selected
      ensures selected == if old(selected) == img then null else img
    {
      UnselectImage(img);
      SelectImage(img);
    }

    /** `handleKeyDown`: Backspace with a selection removes the image and
        position records of the id after the last '-' of the element id, and
        clears the selection; any other key, or no selection, changes nothing. */
    method HandleKeyDown(key: string)
      requires Valid()
      modifies this
      ensures Valid()
      ensures key == "Backspace" && old(selected) != null
          ==> store == DeleteImage(old(store), IdOfElement(old(selected).domId)) && selected == null
      ensures !(key == "Backspace" && old(selected) != null)
          ==> store == old(store) && selected == old(selected)
    {
      if key == "Backspace" && selected != null {
        var imgId := IdOfElement(selected.domId);
        store := RemoveItem(store, ImageKey(imgId));
        store := RemoveItem(store, PositionKey(imgId));
        selected := null;
      }
    }

    /** `checkLocalStorageIntegrity`, as written: the loop bound is the length
        before any removal, so after a removal the next entry slides into the
        removed slot and is never looked at, and `key(i)` later runs past the
        end, where `null.startsWith` throws.
        What it guarantees: it removes exactly `PassRemovals` of the store,
        so only corrupt position entries go and the rest keep their order and
        values; it completes exactly when it removed nothing or only the last
        entry, and then no corrupt entry is left; it removes something
        whenever something is corrupt. */
    method CheckLocalStorageIntegrity() returns (outcome: Outcome, ghost removed: set<string>)
      requires Valid()
      modifies this`store
      ensures Valid()
      ensures removed <= CorruptPositionKeys(old(store))
      ensures store == Without(old(store), removed)
      ensures removed == {} <==> CorruptPositionKeys(old(store)) == {}
      ensures outcome != SyntaxError
      ensures outcome == Completed <==> CompletesAfterRemoving(old(store), removed)
      ensures outcome == Completed ==> CorruptPositionKeys(store) == {}
      ensures removed == PassRemovals(old(store), 0)
    {
      ghost var o := store;
      ghost var v: nat := 0;  // the index in `o` of the entry now at index i
      removed := {};
      outcome := Completed;
      var storageLength := |store|;
      var i := 0;
      PassStart(o);
      while i < storageLength
        invariant storageLength == |o|
        invariant PassInvariant(o, store, removed, v, i)
        invariant outcome == Completed
        invariant removed + PassRemovals(o, v) == PassRemovals(o, 0)
      {
        var thrown;
        thrown, v, removed := IntegrityStep(o, i, v, removed);
        if thrown {
          assert PassRemovals(o, v) == {};
          outcome := TypeError;
          return;
        }
        i := i + 1;
      }
      assert && UniqueKeys(store) && removed <= CorruptPositionKeys(o)
             && store == Without(o, removed)
             && (removed == {} <==> CorruptPositionKeys(o) == {})
             && CompletesAfterRemoving(o, removed)
             && CorruptPositionKeys(store) == {}
             && PassRemovals(o, v) == {} by {
        PassCompletes(o, store, removed, v, i);
      }
    }

    /** One iteration of the integrity pass's loop, at index `i`: it throws
        when `key(i)` is null, and otherwise removes the entry at `i` exactly
        when it is a corrupt position record. In terms of the original store
        `o`, that entry is `o[v]`; a removal moves the pass two entries on
        in `o`, because the next entry slides into index `i` and the loop
        moves on to `i + 1`. */
    method IntegrityStep(ghost o: seq<Entry>, i: nat, ghost v: nat, ghost removed: set<string>)
        returns (thrown: bool, ghost v': nat, ghost removed': set<string>)
      requires PassInvariant(o, store, removed, v, i) && i < |o|
      modifies this`store
      ensures thrown ==>
                && store == old(store) && removed' == removed
                && UniqueKeys(store) && removed <= CorruptPositionKeys(o)
                && store == Without(o, removed)
                && removed != {} && CorruptPositionKeys(o) != {}
                && !CompletesAfterRemoving(o, removed)
      ensures thrown ==> v' == v == |o|
      ensures !thrown ==> v < |o| && i < |old(store)| && old(store)[i] == o[v]
      ensures !thrown && CorruptPosition(o[v]) ==>
                store == RemoveItem(old(store), o[v].key) && removed' == removed + {o[v].key} && v' == NextV(o, v)
      ensures !thrown && !CorruptPosition(o[v]) ==> store == old(store) && removed' == removed && v' == v + 1
      ensures !thrown ==> PassInvariant(o, store, removed', v', i + 1)
      ensures !thrown ==> removed' + PassRemovals(o, v') == removed + PassRemovals(o, v)
    {
      var s := store;  // the store as this iteration finds it
      assert v <= |o| && (i < |s| <==> v < |o|) && (v < |o| ==> s[i] == o[v]) by {
        PassInBounds(o, s, removed, v, i);
      }
      var corrupt;
      thrown, corrupt := ExamineEntry(s, i);
      if thrown {
        assert && UniqueKeys(s) && removed <= CorruptPositionKeys(o) && s == Without(o, removed)
               && removed != {} && CorruptPositionKeys(o) != {} && !CompletesAfterRemoving(o, removed) by {
          PassThrows(o, s, removed, v, i);
        }
        return true, v, removed;
      }
      if corrupt {
        PassRemove(o, s, removed, v, i);
        PassRemovalsStep(o, v, removed, NextV(o, v), removed + {o[v].key});
        store := RemoveItem(s, s[i].key);
        return false, NextV(o, v), removed + {o[v].key};
      }
      PassKeep(o, s, removed, v, i);
      PassRemovalsStep(o, v, removed, v + 1, removed);
      return false, v + 1, removed;
    }

    /** The integrity pass as evidently intended: every entry is examined
        once, because the index only advances past an entry that stays and
        the bound is the current length. It removes exactly the corrupt
        position entries and never throws. */
    method CheckLocalStorageIntegrityCorrected() returns (ghost removed: set<string>)
      requires Valid()
      modifies this`store
      ensures Valid()
      ensures removed == CorruptPositionKeys(old(store))
      ensures store == Without(old(store), removed)
      ensures CorruptPositionKeys(store) == {}
    {
      ghost var o := store;
      ghost var v: nat := 0;  // the index in `o` of the entry now at index i
      removed := {};
      var i: nat := 0;
      assert FixedPassInvariant(o, store, removed, v, i) by {
        assert o[..0] == [] && o[0..] == o;
      }
      while i < |store|
        invariant FixedPassInvariant(o, store, removed, v, i)
        decreases |o| - v
      {
        i, removed := CorrectedStep(o, i, v, removed);
        v := v + 1;
      }
      assert removed == CorruptPositionKeys(o) && store == Without(o, removed)
             && CorruptPositionKeys(store) == {} by {
        FixedDone(o, store, removed, v, i);
      }
    }

    /** One iteration of the corrected pass at index `i`, where the entry is
        `o[v]`: a corrupt position record is removed and the index stays, so
        the entry that slides into index `i` is examined next; any other
        entry stays and the index moves on. */
    method CorrectedStep(ghost o: seq<Entry>, i: nat, ghost v: nat, ghost removed: set<string>)
        returns (i': nat, ghost removed': set<string>)
      requires FixedPassInvariant(o, store, removed, v, i) && i < |store|
      modifies this`store
      ensures v < |o| && old(store)[i] == o[v]
      ensures CorruptPosition(o[v]) ==>
                store == RemoveItem(old(store), o[v].key) && removed' == removed + {o[v].key} && i' == i
      ensures !CorruptPosition(o[v]) ==> store == old(store) && removed' == removed && i' == i + 1
      ensures FixedPassInvariant(o, store, removed', v + 1, i')
    {
      var s := store;  // the store as this iteration finds it
      assert v < |o| && s[i] == o[v] by {
        FixedInBounds(o, s, removed, v, i);
      }
      var _, corrupt := ExamineEntry(s, i);
      if corrupt {
        assert FixedPassInvariant(o, RemoveItem(s, o[v].key), removed + {o[v].key}, v + 1, i) by {
          FixedRemove(o, s, removed, v, i);
        }
        store := RemoveItem(s, s[i].key);
        return i, removed + {o[v].key};
      }
      assert FixedPassInvariant(o, s, removed, v + 1, i + 1) by {
        FixedKeep(o, s, removed, v, i);
      }
      return i + 1, removed;
    }

    /** `loadImagesFromStorage`: runs the integrity pass, then gives every
        image entry, in store order, its id (the key without its prefix), its
        parsed payload and its position. An exception from the pass stops the
        load before any image; an image payload that does not parse stops it
        at that image. */
    method LoadImagesFromStorage() returns (outcome: Outcome, rendered: seq<Rendered>, ghost removed: set<string>)
      requires Valid()
      modifies this`store
      ensures Valid()
      ensures removed <= CorruptPositionKeys(old(store))
      ensures store == Without(old(store), removed)
      ensures removed == {} <==> CorruptPositionKeys(old(store)) == {}
      ensures removed == PassRemovals(old(store), 0)
      ensures outcome == TypeError <==> !CompletesAfterRemoving(old(store), removed)
      ensures outcome == TypeError ==> rendered == []
      ensures outcome != TypeError ==>
                && CorruptPositionKeys(store) == {}
                && |rendered| <= |ImageEntries(store)|
                && RendersImages(store, ImageEntries(store)[..|rendered|], rendered)
                && (outcome == SyntaxError <==> |rendered| < |ImageEntries(store)|)
                && (outcome == SyntaxError ==> Parse(ImageEntries(store)[|rendered|].value).None?)
    {
      rendered := [];
      outcome, removed := CheckLocalStorageIntegrity();
      if outcome == TypeError {
        return;
      }
      outcome, rendered := RenderStoredImages();
    }

    /** `loadImagesFromStorage` with the corrected integrity pass: the pass
        cannot throw, so every load gets to the images, with no corrupt
        position entry left. */
    method LoadImagesFromStorageCorrected() returns (outcome: Outcome, rendered: seq<Rendered>, ghost removed: set<string>)
      requires Valid()
      modifies this`store
      ensures Valid()
      ensures removed == CorruptPositionKeys(old(store))
      ensures store == Without(old(store), removed)
      ensures outcome != TypeError
      ensures CorruptPositionKeys(store) == {}
      ensures |rendered| <= |ImageEntries(store)|
      ensures RendersImages(store, ImageEntries(store)[..|rendered|], rendered)
      ensures outcome == SyntaxError <==> |rendered| < |ImageEntries(store)|
      ensures outcome == SyntaxError ==> Parse(ImageEntries(store)[|rendered|].value).None?
    {
      removed := CheckLocalStorageIntegrityCorrected();
      outcome, rendered := RenderStoredImages();
    }

    /** The loop of `loadImagesFromStorage` after the integrity pass: every
        image entry, in store order, becomes its id (the key without its
        prefix), its parsed payload and its position; a payload that does
        not parse throws and ends the load at that image. */
    method RenderStoredImages() returns (outcome: Outcome, rendered: seq<Rendered>)
      requires Valid()
      ensures outcome == Completed || outcome == SyntaxError
      ensures |rendered| <= |ImageEntries(store)|
      ensures RendersImages(store, ImageEntries(store)[..|rendered|], rendered)
      ensures outcome == SyntaxError <==> |rendered| < |ImageEntries(store)|
      ensures outcome == SyntaxError ==> Parse(ImageEntries(store)[|rendered|].value).None?
    {
      var s := store;  // nothing changes the store while the loop runs
      outcome := Completed;
      rendered := [];
      var storageLength := |s|;
      var i := 0;
      while i < storageLength
        invariant 0 <= i <= storageLength == |s|
        invariant RendersImages(s, ImageEntries(s[..i]), rendered)
      {
        var key := s[i].key;
        if StartsWith(key, StoreImage) {
          assert GetItem(s, key) == Some(s[i].value) by {
            GetItemAt(s, i);
          }
          var imgData := Parse(GetItem(s, key).value);
          if imgData.None? {
            // `JSON.parse` of the image payload throws
            outcome := SyntaxError;
            ImageEntriesAt(s, i);
            return;
          }
          var imgId := ImageId(key);
          var imgPosition := PositionFor(s, imgId);
          assert RendersImages(s, ImageEntries(s[..i + 1]), rendered + [Rendered(imgId, imgData.value, imgPosition)]) by {
            ImageEntriesSnoc(s, i);
            RendersSnoc(s, ImageEntries(s[..i]), rendered, s[i]);
          }
          rendered := rendered + [Rendered(imgId, imgData.value, imgPosition)];
        } else {
          assert ImageEntries(s[..i + 1]) == ImageEntries(s[..i]) by {
            ImageEntriesSnoc(s, i);
          }
        }
        i := i + 1;
      }
      assert s[..i] == s;
      assert ImageEntries(s)[..|rendered|] == ImageEntries(s);
    }
  }

  /** `rendered` is what the load creates for `images`, in order: each
      payload parses and each image gets its id and stored position. */
  ghost predicate RendersImages(s: seq<Entry>, images: seq<Entry>, rendered: seq<Rendered>) {
    && |rendered| == |images|
    && forall j :: 0 <= j < |images| ==>
         Parse(images[j].value).Some? && rendered[j] == Render(s, images[j])
  }

  lemma RendersSnoc(s: seq<Entry>, images: seq<Entry>, rendered: seq<Rendered>, e: Entry)
    requires RendersImages(s, images, rendered) && Parse(e.value).Some?
    ensures RendersImages(s, images + [e], rendered + [Render(s, e)])
  {
    var images', rendered' := images + [e], rendered + [Render(s, e)];
    forall j | 0 <= j < |images'|
      ensures Parse(images'[j].value).Some? && rendered'[j] == Render(s, images'[j])
    {
      if j < |images| {
        assert images'[j] == images[j] && rendered'[j] == rendered[j];
      }
    }
  }

  /** When the integrity pass ends normally: it removed nothing, or only
      the store's last entry. */
  predicate CompletesAfterRemoving(o: seq<Entry>, removed: set<string>) {
    removed == {} || (|o| > 0 && removed == {o[|o| - 1].key})
  }

  /** The test one iteration of the integrity pass makes at index `i`:
      `key(i).startsWith` throws when `key(i)` is null; otherwise an entry
      whose key has the position prefix and whose value does not parse, or
      parses to an invalid position, is to be removed. */
  method ExamineEntry(s: seq<Entry>, i: nat) returns (thrown: bool, corrupt: bool)
    requires UniqueKeys(s)
    ensures thrown <==> |s| <= i
    ensures !thrown ==> (corrupt <==> CorruptPosition(s[i]))
  {
    var key := Key(s, i);
    if key.None? {
      // `key.startsWith` on null
      return true, false;
    }
    var k := key.value;
    if StartsWith(k, StorePosition) {
      GetItemAt(s, i);
      var rawPosition := GetItem(s, k).value;
      var position := Parse(rawPosition);
      if position.None? || !IsValidPosition(position.value) {
        return false, true;
      }
    }
    return false, false;
  }

  /** The keys the integrity pass as written removes from the original store
      `o`, looking from index `v` on: a corrupt entry is removed, and the
      entry after it, which slides into the freed slot, is passed over. */
  function PassRemovals(o: seq<Entry>, v: nat): set<string>
    decreases |o| - v
  {
    if v >= |o| then {}
    else if CorruptPosition(o[v]) then {o[v].key} + PassRemovals(o, v + 2)
    else PassRemovals(o, v + 1)
  }

  /** One iteration of the pass keeps what is still to be removed, together
      with what has been, equal to `PassRemovals`. */
  lemma PassRemovalsStep(o: seq<Entry>, v: nat, removed: set<string>, v': nat, removed': set<string>)
    requires v < |o|
    requires CorruptPosition(o[v]) ==> removed' == removed + {o[v].key} && v' == NextV(o, v)
    requires !CorruptPosition(o[v]) ==> removed' == removed && v' == v + 1
    ensures removed' + PassRemovals(o, v') == removed + PassRemovals(o, v)
  {
  }

  /** Two corrupt entries in a row: the pass as written removes the first
      and never looks at the second. */
  lemma {:induction false} SecondOfAdjacentKept(o: seq<Entry>, v: nat)
    requires UniqueKeys(o) && v + 1 < |o|
    requires CorruptPosition(o[v]) && CorruptPosition(o[v + 1])
    requires forall j :: 0 <= j < v ==> !CorruptPosition(o[j])
    ensures o[v].key in PassRemovals(o, 0)
    ensures o[v + 1].key !in PassRemovals(o, 0)
  {
    PassRemovalsFrom(o, 0, v);
    NotRemovedBehind(o, v + 2, v + 1);
  }

  /** With no corrupt entry in `o[w..v]`, the pass removes from `w` on what
      it removes from `v` on. */
  lemma {:induction false} PassRemovalsFrom(o: seq<Entry>, w: nat, v: nat)
    requires w <= v <= |o|
    requires forall j :: w <= j < v ==> !CorruptPosition(o[j])
    ensures PassRemovals(o, w) == PassRemovals(o, v)
    decreases v - w
  {
    if w < v {
      PassRemovalsFrom(o, w + 1, v);
    }
  }

  /** Looking from `w` on, the pass never removes the key of an entry
      before `w`. */
  lemma {:induction false} NotRemovedBehind(o: seq<Entry>, w: nat, j: nat)
    requires UniqueKeys(o) && j < w && j < |o|
    ensures o[j].key !in PassRemovals(o, w)
    decreases |o| - w
  {
    if w < |o| {
      assert o[w].key != o[j].key;
      NotRemovedBehind(o, w + 1, j);
      NotRemovedBehind(o, w + 2, j);
    }
  }

  /** The state of the integrity pass over the original store `o` before
      iteration `i`: `s` is the current store, `removed` the keys removed so
      far, and the entry now at index `i` is `o[v]` (`v == |o|` once the
      current store holds nothing unvisited). */
  ghost predicate PassInvariant(o: seq<Entry>, s: seq<Entry>, removed: set<string>, v: nat, i: nat) {
    PassShape(o, s, removed, v, i) && PassHistory(o, s, removed, v, i)
  }

  /** How the current store is made from the original one. */
  ghost predicate PassShape(o: seq<Entry>, s: seq<Entry>, removed: set<string>, v: nat, i: nat) {
    && i <= v <= |o|
    && UniqueKeys(o) && UniqueKeys(s)
    && removed <= CorruptPositionKeys(o)
    && removed <= KeySet(o[..v])
    && s == Without(o[..v], removed) + o[v..]
    && (v < |o| ==> |Without(o[..v], removed)| == i)
    && (v == |o| ==> i - 1 <= |Without(o, removed)| <= i)
  }

  /** What the pass has looked at. While `i == v` no entry has been skipped,
      so every entry before `i` was examined and every removal was of the
      last entry; once `i < v` some removal was not of the last entry. */
  ghost predicate PassHistory(o: seq<Entry>, s: seq<Entry>, removed: set<string>, v: nat, i: nat)
    requires i <= v <= |o|
  {
    && (i == v ==> removed == {} || (|o| > 0 && removed == {o[|o| - 1].key} && v == |o|))
    && (i < v ==> removed - {o[|o| - 1].key} != {})
    && (removed == {} ==> forall j :: 0 <= j < v ==> !CorruptPosition(o[j]))
    && (i == v ==> forall j :: 0 <= j < i && j < |s| ==> !CorruptPosition(s[j]))
  }

  lemma PassStart(o: seq<Entry>)
    requires UniqueKeys(o)
    ensures PassInvariant(o, o, {}, 0, 0)
  {
    assert o[..0] == [];
    assert o[0..] == o;
  }

  /** `key(i)` is null exactly when the pass has no unvisited entry left;
      otherwise it names `o[v]`. */
  lemma PassInBounds(o: seq<Entry>, s: seq<Entry>, removed: set<string>, v: nat, i: nat)
    requires PassInvariant(o, s, removed, v, i) && i < |o|
    ensures v <= |o|
    ensures i < |s| <==> v < |o|
    ensures v < |o| ==> s[i] == o[v]
  {
    if v == |o| {
      assert o[..v] == o;
    }
  }

  lemma KeepStep(o: seq<Entry>, removed: set<string>, v: nat)
    requires UniqueKeys(o) && v < |o|
    requires removed <= KeySet(o[..v])
    ensures o[v].key !in removed
    ensures Without(o[..v + 1], removed) == Without(o[..v], removed) + [o[v]]
    ensures removed <= KeySet(o[..v + 1])
    ensures o[v..] == [o[v]] + o[v + 1..]
  {
    KeyNotBefore(o, v);
    KeySetSnoc(o, v);
    WithoutSnoc(o, removed, v);
  }

  lemma DropStep(o: seq<Entry>, removed: set<string>, v: nat)
    requires UniqueKeys(o) && v < |o|
    requires removed <= KeySet(o[..v])
    ensures Without(o[..v + 1], removed + {o[v].key}) == Without(o[..v], removed)
    ensures removed + {o[v].key} <= KeySet(o[..v + 1])
  {
    KeyNotBefore(o, v);
    KeySetSnoc(o, v);
    WithoutSnoc(o, removed + {o[v].key}, v);
    WithoutAbsentKey(o[..v], removed, o[v].key);
  }

  /** `removeItem` of the entry at index `i` of the current store. */
  lemma RemoveAt(w: seq<Entry>, rest: seq<Entry>)
    requires UniqueKeys(w + rest) && |rest| > 0
    ensures RemoveItem(w + rest, rest[0].key) == w + rest[1..]
  {
    var s := w + rest;
    assert s[|w|] == rest[0];
    RemoveItemAt(s, |w|);
    assert s[..|w|] == w && s[|w| + 1..] == rest[1..];
  }

  /** An iteration that finds `o[v]` sound (or not a position entry) and moves on. */
  lemma PassKeep(o: seq<Entry>, s: seq<Entry>, removed: set<string>, v: nat, i: nat)
    requires PassInvariant(o, s, removed, v, i) && v < |o|
    requires !CorruptPosition(o[v])
    ensures PassInvariant(o, s, removed, v + 1, i + 1)
  {
    PassKeepShape(o, s, removed, v, i);
    PassKeepHistory(o, s, removed, v, i);
  }

  lemma PassKeepShape(o: seq<Entry>, s: seq<Entry>, removed: set<string>, v: nat, i: nat)
    requires PassShape(o, s, removed, v, i) && v < |o|
    ensures PassShape(o, s, removed, v + 1, i + 1)
    ensures s[i] == o[v]
  {
    KeepStep(o, removed, v);
    if v + 1 == |o| {
      assert o[..v + 1] == o;
    }
  }

  lemma PassKeepHistory(o: seq<Entry>, s: seq<Entry>, removed: set<string>, v: nat, i: nat)
    requires PassShape(o, s, removed, v, i) && PassHistory(o, s, removed, v, i) && v < |o|
    requires !CorruptPosition(o[v])
    ensures PassHistory(o, s, removed, v + 1, i + 1)
  {
    PassKeepShape(o, s, removed, v, i);
  }

  /** An iteration that removes the corrupt entry `o[v]`: the entry after it
      takes its index and is skipped. */
  lemma PassRemove(o: seq<Entry>, s: seq<Entry>, removed: set<string>, v: nat, i: nat)
    requires PassInvariant(o, s, removed, v, i) && v < |o|
    requires CorruptPosition(o[v])
    ensures PassInvariant(o, RemoveItem(s, o[v].key), removed + {o[v].key}, NextV(o, v), i + 1)
  {
    var w := Without(o[..v], removed);
    assert RemoveItem(s, o[v].key) == w + o[v + 1..] && UniqueKeys(w + o[v + 1..]) by {
      RemoveAt(w, o[v..]);
      assert o[v..][1..] == o[v + 1..];
    }
    PassRemoveShape(o, removed, v, i);
    PassRemoveHistory(o, s, removed, v, i);
  }

  /** Where the pass stands in the original store after removing `o[v]`:
      two entries on, the removed one and the skipped one. */
  function NextV(o: seq<Entry>, v: nat): nat {
    if v + 2 <= |o| then v + 2 else |o|
  }

  lemma PassRemoveShape(o: seq<Entry>, removed: set<string>, v: nat, i: nat)
    requires v < |o| && PassShape(o, Without(o[..v], removed) + o[v..], removed, v, i)
    requires CorruptPosition(o[v])
    requires UniqueKeys(Without(o[..v], removed) + o[v + 1..])
    ensures PassShape(o, Without(o[..v], removed) + o[v + 1..], removed + {o[v].key}, NextV(o, v), i + 1)
  {
    var k := o[v].key;
    assert removed + {k} <= CorruptPositionKeys(o) by {
      assert o[v] in o;
    }
    assert Without(o[..v + 1], removed + {k}) == Without(o[..v], removed)
           && removed + {k} <= KeySet(o[..v + 1]) by {
      DropStep(o, removed, v);
    }
    if v + 2 <= |o| {
      RemoveShapeSkip(o, removed, v);
    } else {
      assert o[..v + 1] == o;
    }
  }

  /** After removing `o[v]`, the entry `o[v + 1]` is skipped: the covered
      prefix grows by two while the kept part grows by one. */
  lemma RemoveShapeSkip(o: seq<Entry>, removed: set<string>, v: nat)
    requires UniqueKeys(o) && v + 2 <= |o|
    requires removed + {o[v].key} <= KeySet(o[..v + 1])
    requires Without(o[..v + 1], removed + {o[v].key}) == Without(o[..v], removed)
    ensures Without(o[..v + 2], removed + {o[v].key}) == Without(o[..v], removed) + [o[v + 1]]
    ensures removed + {o[v].key} <= KeySet(o[..v + 2])
    ensures Without(o[..v], removed) + o[v + 1..] == Without(o[..v + 2], removed + {o[v].key}) + o[v + 2..]
    ensures v + 2 == |o| ==> o[..v + 2] == o
  {
    KeepStep(o, removed + {o[v].key}, v + 1);
  }

  lemma PassRemoveHistory(o: seq<Entry>, s: seq<Entry>, removed: set<string>, v: nat, i: nat)
    requires PassShape(o, s, removed, v, i) && PassHistory(o, s, removed, v, i) && v < |o|
    requires CorruptPosition(o[v])
    ensures PassHistory(o, Without(o[..v], removed) + o[v + 1..], removed + {o[v].key}, NextV(o, v), i + 1)
  {
    var k := o[v].key;
    var s' := Without(o[..v], removed) + o[v + 1..];
    if v + 2 <= |o| {
      assert k != o[|o| - 1].key;
      assert k in removed + {k} - {o[|o| - 1].key};
    } else if i == v {
      forall j | 0 <= j < i + 1 && j < |s'| ensures !CorruptPosition(s'[j]) {
        assert s'[j] == s[j];
      }
    } else {
      assert removed - {o[|o| - 1].key} <= removed + {k} - {o[|o| - 1].key};
    }
  }

  /** The loop ran to its bound: the pass completes. */
  lemma PassCompletes(o: seq<Entry>, s: seq<Entry>, removed: set<string>, v: nat, i: nat)
    requires PassInvariant(o, s, removed, v, i) && i == |o|
    ensures v == |o|
    ensures s == Without(o, removed)
    ensures removed == {} <==> CorruptPositionKeys(o) == {}
    ensures CompletesAfterRemoving(o, removed)
    ensures CorruptPositionKeys(s) == {}
  {
    assert o[..|o|] == o;
    if removed == {} {
      assert forall e :: e in o ==> !CorruptPosition(e);
    }
    forall e | e in s ensures !CorruptPosition(e) {
      var j :| 0 <= j < |s| && s[j] == e;
    }
    WithoutMembers(o, removed);
  }

  /** `key(i)` was null before the loop bound: the pass throws. */
  lemma PassThrows(o: seq<Entry>, s: seq<Entry>, removed: set<string>, v: nat, i: nat)
    requires PassInvariant(o, s, removed, v, i) && i < |o| && |s| <= i
    ensures s == Without(o, removed)
    ensures removed != {} && CorruptPositionKeys(o) != {}
    ensures !CompletesAfterRemoving(o, removed)
  {
    PassInBounds(o, s, removed, v, i);
    assert o[..|o|] == o;
  }

  /** The state of the corrected pass: the first `v` entries of `o` have
      been examined, the corrupt ones among them removed, and the index `i`
      stands on `o[v]`. */
  ghost predicate FixedPassInvariant(o: seq<Entry>, s: seq<Entry>, removed: set<string>, v: nat, i: nat) {
    && v <= |o|
    && UniqueKeys(o) && UniqueKeys(s)
    && removed == CorruptPositionKeys(o[..v])
    && s == Without(o[..v], removed) + o[v..]
    && |Without(o[..v], removed)| == i
  }

  lemma FixedInBounds(o: seq<Entry>, s: seq<Entry>, removed: set<string>, v: nat, i: nat)
    requires FixedPassInvariant(o, s, removed, v, i) && i < |s|
    ensures v < |o| && s[i] == o[v]
  {
  }

  lemma FixedKeep(o: seq<Entry>, s: seq<Entry>, removed: set<string>, v: nat, i: nat)
    requires FixedPassInvariant(o, s, removed, v, i) && v < |o|
    requires !CorruptPosition(o[v])
    ensures FixedPassInvariant(o, s, removed, v + 1, i + 1)
  {
    CorruptPositionKeysSnoc(o, v);
    KeepStep(o, removed, v);
  }

  lemma FixedRemove(o: seq<Entry>, s: seq<Entry>, removed: set<string>, v: nat, i: nat)
    requires FixedPassInvariant(o, s, removed, v, i) && v < |o|
    requires CorruptPosition(o[v])
    ensures FixedPassInvariant(o, RemoveItem(s, o[v].key), removed + {o[v].key}, v + 1, i)
  {
    var k := o[v].key;
    var w := Without(o[..v], removed);
    assert removed + {k} == CorruptPositionKeys(o[..v + 1]) by {
      CorruptPositionKeysSnoc(o, v);
    }
    assert Without(o[..v + 1], removed + {k}) == w by {
      CorruptPositionKeysSnoc(o, v);
      DropStep(o, removed, v);
    }
    assert RemoveItem(s, k) == w + o[v + 1..] by {
      RemoveAt(w, o[v..]);
      assert o[v..][1..] == o[v + 1..];
    }
  }

  lemma FixedDone(o: seq<Entry>, s: seq<Entry>, removed: set<string>, v: nat, i: nat)
    requires FixedPassInvariant(o, s, removed, v, i) && i == |s|
    ensures removed == CorruptPositionKeys(o)
    ensures s == Without(o, removed)
    ensures CorruptPositionKeys(s) == {}
  {
    assert o[..v] == o;
    WithoutMembers(o, removed);
    forall e | e in s ensures !CorruptPosition(e) {
      assert e in o;
    }
  }
}

