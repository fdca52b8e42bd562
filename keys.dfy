/** The storage keys and element ids the feature derives from an image id:
    `STORE_IMAGE + id`, `STORE_POSITION + id`, `pasted-image-<id>`, and the
    inverse derivations `key.replace(STORE_IMAGE, "")` and
    `element.id.split("-").pop()`. */
module Keys {
  import opened Strings

  const StoreImage: string := "rhein-img-key-"
  const StorePosition: string := "rhein-img-position-"
  const ElementPrefix: string := "pasted-image-"

  /** The key of an image's data-URL payload. */
  function ImageKey(id: string): (k: string)
    ensures StartsWith(k, StoreImage) && k[|StoreImage|..] == id
  {
    StoreImage + id
  }

  /** The key of an image's position record. */
  function PositionKey(id: string): (k: string)
    ensures StartsWith(k, StorePosition) && k[|StorePosition|..] == id
  {
    StorePosition + id
  }

  /** No key is both an image key and a position key: the prefixes part at
      index 10 ('k' against 'p'). */
  lemma PrefixesDisjoint(k: string)
    ensures !(StartsWith(k, StoreImage) && StartsWith(k, StorePosition))
  {
    if StartsWith(k, StoreImage) {
      assert k[..|StoreImage|][10] == 'k';
    }
    if StartsWith(k, StorePosition) {
      assert k[..|StorePosition|][10] == 'p';
    }
  }

  /** The id of an image key: `key.replace(STORE_IMAGE, "")`. */
  function ImageId(key: string): (id: string)
    ensures StartsWith(key, StoreImage) ==> ImageKey(id) == key
  {
    ReplaceFirst(key, StoreImage, "")
  }

  /** Stripping the prefix recovers the id an image key was built from. */
  lemma ImageIdOfImageKey(id: string)
    ensures ImageId(ImageKey(id)) == id
  {
    assert ImageKey(id)[|StoreImage|..] == id;
  }

  /** The DOM id given to an image element: `pasted-image-${img_id}`. */
  function ElementId(id: string): (domId: string)
    ensures StartsWith(domId, ElementPrefix) && domId[|ElementPrefix|..] == id
  {
    ElementPrefix + id
  }

  /** The image id recovered from an element id: `id.split("-").pop()`. */
  function IdOfElement(domId: string): (id: string)
    ensures '-' !in id
    ensures '-' !in domId ==> id == domId
  {
    LastSegment(domId, '-')
  }

  /** For an id without '-' (every id the paste handler generates is base 36),
      the element id gives the image id back. */
  lemma IdOfElementId(id: string)
    requires '-' !in id
    ensures IdOfElement(ElementId(id)) == id
  {
    assert ElementId(id) == "pasted-image" + ['-'] + id;
    LastSegmentAfter("pasted-image", id, '-');
  }

  /** An id that itself contains '-' is not recovered: only the text after
      its last '-' is. */
  lemma HyphenatedIdTruncated(p: string, t: string)
    requires '-' !in t
    ensures IdOfElement(ElementId(p + "-" + t)) == t
  {
    assert ElementId(p + "-" + t) == ElementPrefix + p + ['-'] + t;
    LastSegmentAfter(ElementPrefix + p, t, '-');
  }
}
