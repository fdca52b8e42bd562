# Pasted images on a page: the storage and selection core

The page lets a user paste images, drag them around and delete them with
Backspace. Every image is stored in `localStorage` under two keys: its
data-URL payload under `rhein-img-key-<id>` and its position, as JSON
`{left, top}`, under `rhein-img-position-<id>`. On load an integrity pass
removes position records that do not parse or do not validate. Then every
image entry is rendered, either at its stored position or at the origin.
One element at a time can be selected. Pointer tracking goes through a
leading-edge throttle.

This project models that core in Dafny:

- `wrappers.dfy` holds `Option`.
- `json.dfy` abstracts JavaScript values and the JSON text in storage.
  - `JSON.stringify` writes NaN and the infinities as `null`.
  - `JSON.parse` of malformed text is `None`, which stands for its SyntaxError.
- `strings.dfy` models `startsWith`, `indexOf`, `replace` with a string pattern, and `split` followed by `pop`.
- `storage.dfy` models `localStorage` as an ordered sequence of entries with unique keys.
  - `key(i)` is index-based, so the order matters.
  - `setItem` replaces in place or appends.
  - `removeItem` shifts the later entries down one index.
- `keys.dfy` builds the keys and element ids and recovers ids from them.
- `positions.dfy` holds the position validator, what counts as a corrupt record, and the position a load gives an image.
- `canvas.dfy` holds the page state: a `Canvas` class with the store and the selected element, and one method per handler.
  - The integrity pass is modelled as written, with its fixed loop bound.
- `throttle.dfy` models `throttle` as a class holding `inThrottle`. The expiry of the timer is an explicit event.
- `scenarios.dfy` loads two stores on which the pass as written throws: a corrupt position record before its image (loaded with the pass as written and with the corrected pass), and a store in the order the page writes it, whose first position record was corrupted from outside the page, so that another image follows it.

What the code does in four cases that are easy to misread:

- **Infinite coordinates.** `isValidPosition` accepts the infinities (images.js:39-40). `JSON.stringify` writes them as `null`, so the saved record is corrupt. A pass that examines it deletes it, and a load that renders the image places it at the origin (`Positions.SaveInfinityThenLoad`).
- **Errors.** The integrity pass can throw a TypeError, and that stops the whole load (see Findings).
- **Corrupt position before its image.** For the two-entry store of `Scenarios.CorruptFirst`, the first load throws. The image appears, at the origin, only on the second load (`Scenarios.CorruptPositionAsWritten`).
- **Selection border.** The selection has no visible border: the code only ever clears it.

## Model

| member | source | states |
|---|---|---|
| Keys.ImageKey | images.js:5 | the image key is `rhein-img-key-` followed by the id |
| Keys.PositionKey | images.js:50 | the position key is `rhein-img-position-` followed by the id |
| Keys.PrefixesDisjoint | images.js:5-6 | no key carries both prefixes, so image and position entries never mix |
| Keys.ImageId | images.js:206 | the id of a key that starts with the image prefix rebuilds that key |
| Keys.ImageIdOfImageKey | images.js:206 | stripping the image prefix gives back the id the key was built from |
| Keys.ElementId | images.js:99 | the element id is `pasted-image-` followed by the image id |
| Keys.IdOfElement | images.js:165 | the recovered id contains no '-', and an element id without '-' is its own last segment |
| Keys.IdOfElementId | images.js:165 | for an id without '-', the last '-' segment of `pasted-image-<id>` is the id |
| Keys.HyphenatedIdTruncated | images.js:99 | for every id `p-t` whose tail t has no '-', only t is recovered from its element id |
| Strings.IndexOfFrom | images.js:206 | the first occurrence of the pattern at or after the start index, or none |
| Strings.ReplaceFirst | images.js:206 | replacing a leading pattern leaves the replacement followed by the rest |
| Strings.Split | images.js:165 | the parts contain no separator and join back to the input; there is one part iff the separator is absent |
| Strings.LastSegment | images.js:165 | `pop()` after `split` gives a text without the separator, and the whole string when it has no separator |
| Strings.LastSegmentAfter | images.js:165 | `pop()` after `split` gives the text after the last separator |
| Json.Stringify | images.js:51 | only undefined stringifies to non-JSON text; every number in stored JSON is finite |
| Json.ParseStringify | images.js:51 | a defined value with finite numbers reads back unchanged |
| Storage.Key | images.js:177 | `key(i)` is null exactly when i is past the end of the store |
| Storage.IndexOfKey | images.js:179 | the index of the entry under a key, present exactly when the key is stored |
| Storage.GetItem | images.js:179 | `getItem` is null exactly for a missing key, and otherwise the stored entry's value |
| Storage.SetItem | images.js:51 | `setItem` makes the key read back the new value and changes no other key |
| Storage.RemoveItem | images.js:166-167 | `removeItem` makes the key read back null and changes no other key |
| Storage.RemoveItemAt | images.js:187 | removing the key of the entry at index i closes the gap at i, so later entries shift down |
| Storage.WithoutMembers | images.js:174-195 | a store with some keys taken out keeps exactly the entries whose key was not taken |
| Storage.WithoutGetItem | images.js:174-195 | after keys are taken out, every other key reads back as before and the taken keys read null |
| Positions.IsValidPosition | images.js:34-42 | valid iff an object whose `left` and `top` are numbers and neither is NaN; the infinities pass |
| Positions.CorruptPositionText | images.js:178-191 | a record is corrupt iff its key has the position prefix and its text is malformed or holds an invalid position; an image entry never is |
| Positions.CorruptPositionKeys | images.js:178-192 | every corrupt key has the position prefix |
| Positions.ImageKeysNeverCorrupt | images.js:178 | an image key, or a key without the position prefix, is never corrupt |
| Positions.PositionFor | images.js:207-222 | the position given to an image is valid, and is the origin or the stored record's parsed value |
| Positions.PositionForStored | images.js:209-222 | the stored position when the record exists, parses and validates; the origin when it is missing or corrupt |
| Positions.SaveThenLoad | images.js:45-52 | a saved valid position with finite coordinates is the one the next load uses, and is not corrupt |
| Positions.SaveInfinityThenLoad | images.js:34-42 | a valid position with an infinite coordinate is saved as a corrupt record and loads as the origin |
| Positions.ImageEntries | images.js:201-204 | the image entries, in store order, are never more than the store holds |
| Positions.ImageEntriesMembers | images.js:201-204 | the entries a load renders are exactly the stored entries with the image prefix |
| Positions.ImageEntriesAt | images.js:201-205 | an image entry at index i comes right after the image entries before i |
| Positions.Render | images.js:206-224 | a rendered image carries the id its key was built from and a valid position |
| Positions.DeleteImage | images.js:166-167 | a delete removes the image and position keys of the id and leaves every other key unchanged |
| Images.Canvas.constructor | images.js:3 | a page starts with the given store and nothing selected |
| Images.ImageElement.constructor | images.js:88-99 | a new element's DOM id is `pasted-image-` followed by the image id |
| Images.Canvas.SaveImagePosition | images.js:45-52 | an invalid position leaves the store as it was; a valid one writes its JSON under the position key and changes no other key |
| Images.Canvas.SelectImage | images.js:144-155 | selecting the selected image deselects it; selecting any other selects it alone |
| Images.Canvas.UnselectImage | images.js:157-162 | a press outside the selected image clears the selection; a press on it keeps it |
| Images.Canvas.ClickImage | images.js:102 | a click (mousedown, then click) still toggles the selection |
| Images.Canvas.HandleKeyDown | images.js:163-171 | Backspace with a selection deletes that id's two keys and clears the selection; otherwise nothing changes |
| Images.Canvas.CheckLocalStorageIntegrity | images.js:174-195 | the pass removes exactly `PassRemovals` of the store: each corrupt position entry, except one right after a removed entry; the rest keep their order; it throws iff it removed something other than the last entry alone; it removes something iff something is corrupt; if it completes, no corrupt entry is left |
| Images.Canvas.IntegrityStep | images.js:176-193 | one iteration throws iff `key(i)` is null; otherwise the entry at i is the original entry `o[v]`, it is removed iff it is corrupt, the pass then stands two original entries on after a removal and one after a keep, and the pass state is kept |
| Images.ExamineEntry | images.js:177-182 | the test of one iteration throws iff i is past the end of the store, and otherwise finds the entry at i to be removed iff it is corrupt |
| Images.PassRemovalsStep | images.js:176-193 | each iteration keeps the removed keys plus those still to be removed equal to `PassRemovals` |
| Images.SecondOfAdjacentKept | images.js:182-191 | of two corrupt entries in a row with nothing corrupt before them, the first is removed and the second is never examined |
| Images.PassKeep | images.js:178-182 | a sound entry is kept and the index moves to the next entry |
| Images.PassRemove | images.js:182-191 | removing a corrupt entry moves the next entry into its slot, and that entry is skipped |
| Images.PassThrows | images.js:177-178 | when `key(i)` is null before the bound, something was removed and the pass cannot complete |
| Images.PassCompletes | images.js:176-194 | a pass that reaches its bound removed nothing or only the last entry, and leaves no corrupt entry |
| Images.Canvas.LoadImagesFromStorage | images.js:197-228 | the pass removes exactly `PassRemovals` of the store, so the corrupt records it skipped survive into the next load even when it throws; after the pass, images are rendered in store order with their ids and positions; a throwing pass renders nothing; an unparsable payload stops the load at that image |
| Images.Canvas.RenderStoredImages | images.js:200-227 | the rendered list is the rendering of the image entries in store order, cut at the first payload that does not parse |
| Images.RendersSnoc | images.js:224 | rendering one more parsable image entry appends its rendering |
| Images.Canvas.CheckLocalStorageIntegrityCorrected | images.js:174-195 | the corrected pass removes exactly the corrupt position entries, keeps the order of the rest and never throws |
| Images.Canvas.CorrectedStep | images.js:176-193 | one iteration of the corrected pass removes the entry at i iff it is corrupt and then keeps the index; otherwise it moves the index on |
| Images.Canvas.LoadImagesFromStorageCorrected | images.js:197-228 | with the corrected pass, a load always reaches the images and no corrupt entry is left |
| Throttling.Replay | images.js:16-25 | the calls the gate has passed on are never more than the events so far |
| Throttling.Step | images.js:18-24 | the calls passed on only grow, by one exactly when a call finds the gate open; a call leaves the gate closed and the timer opens it |
| Throttling.Throttle.constructor | images.js:17 | a new gate is open and has passed nothing on |
| Throttling.Throttle.Call | images.js:18-24 | a call is passed on exactly when the gate is open, and the gate is closed afterwards |
| Throttling.Throttle.TimerFires | images.js:22 | the timer opens the gate and passes nothing on |
| Throttling.ForwardedCount | images.js:16-25 | the calls passed on number the timer firings, plus one while the gate is closed |
| Throttling.ForwardedAreCalls | images.js:20 | only calls that were made are passed on |
| Throttling.CallWhileClosed | images.js:19 | a call while the gate is closed is dropped, not queued |
| Throttling.CallAfterTimer | images.js:22 | the first call after the timer fires is passed on |
| Throttling.Burst | images.js:18-24 | of a burst of calls with no timer firing, only the first is passed on, and only if the gate was open |
| Scenarios.CorruptPositionAsWritten | images.js:174-228 | with the corrupt position record first, the first load throws and renders nothing; the second renders the image at the origin |
| Scenarios.CorruptPositionCorrected | images.js:174-228 | with the corrected pass, the first load already renders the image at the origin |
| Scenarios.PageOrderCorruptedRemovals | images.js:174-195 | on the store with keys in the page's order (image A, A's position, image B, B's position) and A's record corrupted from outside to `{"left":null,"top":0}`, the pass removes A's record only and cannot complete |
| Scenarios.CorruptBeforeAnotherImage | images.js:174-228 | loading that store throws before any image is rendered |

## Left out

- Clipboard and FileReader handling (`handleImagePaste`). It is asynchronous browser I/O.
- `generateRandomId` depends on `Math.random`. Ids are parameters; `Keys.IdOfElementId` assumes what it produces, an id without '-'.
- DOM construction and styling are left out: `createImageElement`, `appendChild`, `remove`, and the border resets in `selectImage` and `unselectImage`. An element is an object with a constant id, and `===` is reference identity. `contains` on an `<img>` is identity, since it has no children.
- Dragging (`startDragging`, `drag`, `stopDragging`) is left out. It is floating-point browser geometry, and its only store effect is a call to `saveImagePosition`, which is modelled.
- `mouseMonitor` and the `load` event wiring are left out, and so is `console` logging.
- Real JSON text is abstracted. A stored string is either the JSON of a value or malformed, and an object is abstracted to its `left` and `top` properties. `Json.Parse` is this abstraction itself (None for a SyntaxError, the held value otherwise), so no property is stated about it beyond `Json.ParseStringify`; `Strings.StartsWith` is likewise the definition of `startsWith`.
- Time is abstracted: the `limit` milliseconds of `throttle` become an explicit timer event. `Throttling.Throttle.TimerFires` requires the gate to be closed, because the only timer is the one set when a call went through.
- `Storage.SetItem` always succeeds. The browser's `setItem` can throw `QuotaExceededError` when the write does not fit, and any `localStorage` access can throw `SecurityError` when storage is blocked. The source catches neither, and `Images.Canvas.SaveImagePosition`'s contract covers only a write that fits.
- Browsers leave the enumeration order of `localStorage` unspecified. The model fixes one order: a new key goes last, and a removal shifts the later entries down.

## Findings

| source | as written | input that shows it | evidently intended | confidence | as-written member | corrected member |
|---|---|---|---|---|---|---|
| images.js:175-191 | The loop runs to the length taken before any removal, and `i` advances past a removed entry. The entry that slides into the removed slot is never examined. `key(i)` later returns null, and `key.startsWith` throws a TypeError, which stops `loadImagesFromStorage` before any image is rendered. | Four entries in the order the page writes them: image A's payload and position, then image B's payload and position, with A's record corrupted outside the page to `{"left":null,"top":0}`. The pass removes A's record at index 1, passes over B's payload, and `key(3)` is null. A two-entry store with a malformed position record before its image throws the same way | Every entry is examined once, every corrupt position record is removed, and the load goes on to render every image, one whose record was corrupt at the origin | not executed | Scenarios.CorruptBeforeAnotherImage | Images.Canvas.CheckLocalStorageIntegrityCorrected |
