/** Stores on which the integrity pass as written skips an entry and
    throws: a corrupt position record listed before its image, loaded twice,
    and a store in the order the page writes it, with one position record
    corrupted from outside the page, so that it is followed by another
    image. */
module Scenarios {
  import opened Json
  import opened Storage
  import opened Keys
  import opened Positions
  import opened Images

  const Id: string := "abc123"
  const Payload: JsValue := Str("data:image/png;base64,AAAA")
  const Other: string := "def456"
  const OtherPayload: JsValue := Str("data:image/png;base64,BBBB")
  /** The record `{"left":null,"top":0}`: JSON, but not a valid position. */
  const NullLeft: JsValue := Object(Null, Number(Finite(0.0)))
  const Placed: JsValue := Object(Number(Finite(10.0)), Number(Finite(20.0)))

  /** The position record comes first and does not parse; the image follows. */
  function CorruptFirst(): (s: seq<Entry>)
    ensures UniqueKeys(s)
    ensures CorruptPositionKeys(s) == {PositionKey(Id)}
  {
    var s := [Entry(PositionKey(Id), Malformed("not json")), Entry(ImageKey(Id), JsonText(Payload))];
    PrefixesDisjoint(ImageKey(Id));
    ImageKeysNeverCorrupt(s, ImageKey(Id));
    assert s[0] in s;
    s
  }

  /** The store once the corrupt position record is gone. */
  lemma ImageOnly()
    ensures Without(CorruptFirst(), {PositionKey(Id)}) == [Entry(ImageKey(Id), JsonText(Payload))]
  {
    var s := CorruptFirst();
    PrefixesDisjoint(ImageKey(Id));
    assert s[..1][..0] == [];
  }

  /** What loading `[Entry(ImageKey(Id), ...)]` renders: the image at the origin. */
  lemma RenderImageOnly()
    ensures ImageEntries([Entry(ImageKey(Id), JsonText(Payload))]) == [Entry(ImageKey(Id), JsonText(Payload))]
    ensures Render([Entry(ImageKey(Id), JsonText(Payload))], Entry(ImageKey(Id), JsonText(Payload)))
         == Rendered(Id, Payload, Origin)
  {
    var s := [Entry(ImageKey(Id), JsonText(Payload))];
    ImageIdOfImageKey(Id);
    PrefixesDisjoint(PositionKey(Id));
    assert PositionKey(Id) !in KeySet(s);
  }

  /** As written, the first load removes the corrupt record, skips the
      image that slid into its slot, reads `key(1)` past the end and throws:
      nothing is rendered. The second load finds the store clean and renders
      the image at the origin. */
  method CorruptPositionAsWritten() returns (first: Outcome, firstRendered: seq<Rendered>,
                                              second: Outcome, secondRendered: seq<Rendered>)
    ensures first == TypeError && firstRendered == []
    ensures second == Completed && secondRendered == [Rendered(Id, Payload, Origin)]
  {
    var canvas := new Canvas(CorruptFirst());
    ghost var removed;
    var image := Entry(ImageKey(Id), JsonText(Payload));
    first, firstRendered, removed := canvas.LoadImagesFromStorage();
    assert removed == {PositionKey(Id)};
    assert first == TypeError by {
      PrefixesDisjoint(ImageKey(Id));
      assert CorruptFirst()[1].key == ImageKey(Id);
    }
    assert canvas.store == [image] by {
      ImageOnly();
    }
    second, secondRendered, removed := canvas.LoadImagesFromStorage();
    assert canvas.store == [image] && removed == {} by {
      assert CorruptPositionKeys([image]) == {} by {
        ImageKeysNeverCorrupt([image], ImageKey(Id));
      }
    }
    assert ImageEntries(canvas.store) == [image] && secondRendered[0] == Rendered(Id, Payload, Origin)
           && |secondRendered| == 1 by {
      RenderImageOnly();
    }
    assert secondRendered == [Rendered(Id, Payload, Origin)];
  }

  /** With the corrected pass, the first load already renders the image at
      the origin. */
  method CorruptPositionCorrected() returns (first: Outcome, firstRendered: seq<Rendered>)
    ensures first == Completed && firstRendered == [Rendered(Id, Payload, Origin)]
  {
    var canvas := new Canvas(CorruptFirst());
    ghost var removed;
    first, firstRendered, removed := canvas.LoadImagesFromStorageCorrected();
    var image := Entry(ImageKey(Id), JsonText(Payload));
    assert canvas.store == [image] by {
      ImageOnly();
    }
    assert ImageEntries(canvas.store) == [image] && firstRendered[0] == Rendered(Id, Payload, Origin)
           && |firstRendered| == 1 by {
      RenderImageOnly();
    }
    assert firstRendered == [Rendered(Id, Payload, Origin)];
  }

  /** The order the page writes keys in: image `Id` is pasted (its payload
      key, then its position key), then image `Other`. `Id`'s position
      record has since been overwritten from outside the page with
      `{"left":null,"top":0}`; `setItem` keeps its place. */
  function PageOrderCorrupted(): (s: seq<Entry>)
    ensures UniqueKeys(s)
  {
    var s := [Entry(ImageKey(Id), JsonText(Payload)), Entry(PositionKey(Id), JsonText(NullLeft)),
              Entry(ImageKey(Other), JsonText(OtherPayload)), Entry(PositionKey(Other), Stringify(Placed))];
    assert ImageKey(Id)[14] != ImageKey(Other)[14];
    assert PositionKey(Id)[19] != PositionKey(Other)[19];
    PrefixesDisjoint(ImageKey(Id));
    PrefixesDisjoint(ImageKey(Other));
    s
  }

  /** The pass as written removes `Id`'s record, passes over the image
      `Other` that slides into its slot, and keeps `Other`'s sound record;
      the one removal is not of the last entry, so the pass throws. */
  lemma PageOrderCorruptedRemovals()
    ensures PassRemovals(PageOrderCorrupted(), 0) == {PositionKey(Id)}
    ensures !CompletesAfterRemoving(PageOrderCorrupted(), {PositionKey(Id)})
  {
    var s := PageOrderCorrupted();
    assert !CorruptPosition(s[0]) by {
      PrefixesDisjoint(ImageKey(Id));
    }
    assert CorruptPosition(s[1]);
    assert !CorruptPosition(s[3]) by {
      SaveThenLoad([], Other, Placed);
    }
    assert PassRemovals(s, 3) == {};
    assert PassRemovals(s, 0) == PassRemovals(s, 1) == {PositionKey(Id)};
    assert s[3].key != PositionKey(Id) by {
      assert PositionKey(Id)[19] != PositionKey(Other)[19];
    }
  }

  /** Loading that store throws before any image is rendered. */
  method CorruptBeforeAnotherImage() returns (outcome: Outcome, rendered: seq<Rendered>)
    ensures outcome == TypeError && rendered == []
  {
    var canvas := new Canvas(PageOrderCorrupted());
    ghost var removed;
    outcome, rendered, removed := canvas.LoadImagesFromStorage();
    assert outcome == TypeError by {
      PageOrderCorruptedRemovals();
    }
  }
}
