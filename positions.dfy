/** Position records: the validator, what the integrity pass counts as
    corrupt, and the pure rules by which a load places each stored image
    and a delete removes an image's records. */
module Positions {
  import opened Wrappers
  import opened Json
  import opened Strings
  import opened Storage
  import opened Keys

  /** `isValidPosition(position)`: truthy, with numeric `left` and `top`,
      neither of them NaN. The infinities pass. */
  function IsValidPosition(p: JsValue): (valid: bool)
    ensures valid <==> p.Object? && p.left.Number? && p.top.Number?
                       && p.left.n != NaN && p.top.n != NaN
  {
    Truthy(p) && LeftOf(p).Number? && TopOf(p).Number?
    && LeftOf(p).n != NaN && TopOf(p).n != NaN
  }

  /** `{ left: 0, top: 0 }`, where an image without a usable position goes. */
  const Origin: JsValue := Object(Number(Finite(0.0)), Number(Finite(0.0)))

  /** A position entry the integrity pass deletes: its key has the position
      prefix and its text does not parse, or parses to an invalid position. */
  predicate CorruptPosition(e: Entry) {
    StartsWith(e.key, StorePosition)
    && (Parse(e.value).None? || !IsValidPosition(Parse(e.value).value))
  }

  /** In terms of the stored text: a position record is corrupt exactly
      when its text is malformed or holds something that is not a valid
      position; an image entry never is. */
  lemma CorruptPositionText(e: Entry)
    ensures CorruptPosition(e)
        <==> StartsWith(e.key, StorePosition) && (e.value.Malformed? || !IsValidPosition(e.value.value))
    ensures StartsWith(e.key, StoreImage) ==> !CorruptPosition(e)
  {
    PrefixesDisjoint(e.key);
  }

  function CorruptPositionKeys(s: seq<Entry>): (ks: set<string>)
    ensures forall k :: k in ks ==> StartsWith(k, StorePosition)
  {
    set e | e in s && CorruptPosition(e) :: e.key
  }

  /** The corrupt keys of a prefix grow by at most the next entry's key. */
  lemma CorruptPositionKeysSnoc(s: seq<Entry>, v: nat)
    requires v < |s|
    ensures CorruptPositionKeys(s[..v + 1])
         == CorruptPositionKeys(s[..v]) + (if CorruptPosition(s[v]) then {s[v].key} else {})
    ensures CorruptPositionKeys(s[..v]) <= KeySet(s[..v])
  {
    assert s[..v + 1] == s[..v] + [s[v]];
    assert forall e :: e in s[..v + 1] <==> e in s[..v] || e == s[v];
  }

  /** No image key, and no key without the position prefix, is ever corrupt. */
  lemma ImageKeysNeverCorrupt(s: seq<Entry>, k: string)
    requires StartsWith(k, StoreImage) || !StartsWith(k, StorePosition)
    ensures k !in CorruptPositionKeys(s)
  {
    PrefixesDisjoint(k);
  }

  /** The position `loadImagesFromStorage` gives image `id`: the stored record
      when it exists, parses and validates, and the origin otherwise. */
  function PositionFor(s: seq<Entry>, id: string): (p: JsValue)
    ensures IsValidPosition(p)
    ensures p == Origin
         || (GetItem(s, PositionKey(id)).Some? && Parse(GetItem(s, PositionKey(id)).value) == Some(p))
  {
    var raw := GetItem(s, PositionKey(id));
    var parsed := if raw.None? then None else Parse(raw.value);
    if parsed.None? || parsed.value == Null || !IsValidPosition(parsed.value) then Origin
    else parsed.value
  }

  /** A record that is there, parses and validates is used as it is; in every
      other case the image goes to the origin. */
  lemma PositionForStored(s: seq<Entry>, id: string)
    ensures GetItem(s, PositionKey(id)).Some?
            && Parse(GetItem(s, PositionKey(id)).value).Some?
            && IsValidPosition(Parse(GetItem(s, PositionKey(id)).value).value)
        ==> PositionFor(s, id) == Parse(GetItem(s, PositionKey(id)).value).value
    ensures GetItem(s, PositionKey(id)).None? ==> PositionFor(s, id) == Origin
    ensures GetItem(s, PositionKey(id)).Some? && CorruptPosition(Entry(PositionKey(id), GetItem(s, PositionKey(id)).value))
        ==> PositionFor(s, id) == Origin
  {
  }

  /** The position saved for an image is the one loaded for it, when both
      coordinates are finite. */
  lemma SaveThenLoad(s: seq<Entry>, id: string, p: JsValue)
    requires UniqueKeys(s)
    requires IsValidPosition(p) && p.left.n.Finite? && p.top.n.Finite?
    ensures PositionFor(SetItem(s, PositionKey(id), Stringify(p)), id) == p
    ensures !CorruptPosition(Entry(PositionKey(id), Stringify(p)))
  {
    ParseStringify(p);
  }

  /** The validator lets an infinite coordinate through, but JSON writes it as
      null: the saved record is corrupt. A pass that examines it deletes it,
      and a load that renders the image places it at the origin. */
  lemma SaveInfinityThenLoad(s: seq<Entry>, id: string, p: JsValue)
    requires UniqueKeys(s)
    requires IsValidPosition(p) && !(p.left.n.Finite? && p.top.n.Finite?)
    ensures PositionFor(SetItem(s, PositionKey(id), Stringify(p)), id) == Origin
    ensures CorruptPosition(Entry(PositionKey(id), Stringify(p)))
  {
    var stored := Normalized(p);
    assert Stringify(p) == JsonText(stored);
    assert stored == Object(Normalized(p.left), Normalized(p.top));
    assert stored.left == Null || stored.top == Null;
  }

  /** The entries with the image prefix, in store order. */
  function ImageEntries(s: seq<Entry>): (images: seq<Entry>)
    ensures |images| <= |s|
  {
    if s == [] then []
    else
      var last := s[|s| - 1];
      ImageEntries(s[..|s| - 1]) + (if StartsWith(last.key, StoreImage) then [last] else [])
  }

  /** Exactly the image entries of the store are kept. */
  lemma {:induction false} ImageEntriesMembers(s: seq<Entry>)
    ensures forall e :: e in ImageEntries(s) <==> e in s && StartsWith(e.key, StoreImage)
  {
    if s != [] {
      var last := s[|s| - 1];
      ImageEntriesMembers(s[..|s| - 1]);
      assert s == s[..|s| - 1] + [last];
    }
  }

  lemma ImageEntriesSnoc(s: seq<Entry>, i: nat)
    requires i < |s|
    ensures ImageEntries(s[..i + 1])
         == ImageEntries(s[..i]) + (if StartsWith(s[i].key, StoreImage) then [s[i]] else [])
  {
    assert s[..i + 1][..i] == s[..i];
  }

  /** The images of a prefix of the store come first among the store's images. */
  lemma {:induction false} ImageEntriesPrefix(s: seq<Entry>, i: nat)
    requires i <= |s|
    ensures ImageEntries(s[..i]) <= ImageEntries(s)
    decreases |s| - i
  {
    if i < |s| {
      ImageEntriesPrefix(s, i + 1);
      ImageEntriesSnoc(s, i);
    } else {
      assert s[..i] == s;
    }
  }

  /** An image entry at index `i` is the image entry that follows those of
      `s[..i]`. */
  lemma ImageEntriesAt(s: seq<Entry>, i: nat)
    requires i < |s| && StartsWith(s[i].key, StoreImage)
    ensures |ImageEntries(s[..i])| < |ImageEntries(s)|
    ensures ImageEntries(s)[..|ImageEntries(s[..i])|] == ImageEntries(s[..i])
    ensures ImageEntries(s)[|ImageEntries(s[..i])|] == s[i]
  {
    ImageEntriesSnoc(s, i);
    ImageEntriesPrefix(s, i + 1);
  }

  /** What `createImageElement` is called with for one stored image. */
  datatype Rendered = Rendered(imgId: string, src: JsValue, position: JsValue)

  /** The image an image entry becomes: the id is the key without its
      prefix, the source is the parsed payload. */
  function Render(s: seq<Entry>, e: Entry): (r: Rendered)
    requires Parse(e.value).Some?
    ensures StartsWith(e.key, StoreImage) ==> ImageKey(r.imgId) == e.key
    ensures IsValidPosition(r.position)
  {
    var id := ImageId(e.key);
    Rendered(id, Parse(e.value).value, PositionFor(s, id))
  }

  /** What a Backspace on the selected element does to the store: the image
      record and the position record of `id` go, nothing else changes. */
  function DeleteImage(s: seq<Entry>, id: string): (r: seq<Entry>)
    requires UniqueKeys(s)
    ensures UniqueKeys(r)
    ensures GetItem(r, ImageKey(id)) == None && GetItem(r, PositionKey(id)) == None
    ensures forall k :: k != ImageKey(id) && k != PositionKey(id) ==> GetItem(r, k) == GetItem(s, k)
  {
    RemoveItem(RemoveItem(s, ImageKey(id)), PositionKey(id))
  }
}
