/** The browser's `localStorage` as an ordered sequence of (key, value)
    entries, so that `key(i)` enumeration by index is part of the model.
    Keys are unique in a store; `setItem` on a new key appends it (browsers
    do not fix the enumeration order; appending is this model's choice). */
module Storage {
  import opened Wrappers
  import opened Json

  datatype Entry = Entry(key: string, value: Text)

  /** No key appears twice: the shape of every browser store. */
  predicate UniqueKeys(s: seq<Entry>) {
    forall i, j :: 0 <= i < j < |s| ==> s[i].key != s[j].key
  }

  function KeySet(s: seq<Entry>): set<string> {
    set e | e in s :: e.key
  }

  /** `localStorage.key(i)`: None (null) once `i` runs past the end of the store. */
  function Key(s: seq<Entry>, i: nat): (r: Option<string>)
    ensures r.None? <==> |s| <= i
  {
    if i < |s| then Some(s[i].key) else None
  }

  /** The index of the first entry under `k`. */
  function IndexOfKey(s: seq<Entry>, k: string): (r: Option<nat>)
    ensures r.None? <==> k !in KeySet(s)
    ensures r.Some? ==> r.value < |s| && s[r.value].key == k
    ensures r.Some? ==> forall j :: 0 <= j < r.value ==> s[j].key != k
  {
    if s == [] then None
    else if s[0].key == k then
      assert s[0] in s;
      Some(0)
    else
      var rest := IndexOfKey(s[1..], k);
      assert KeySet(s) == {s[0].key} + KeySet(s[1..]) by {
        assert forall e :: e in s <==> e == s[0] || e in s[1..];
      }
      if rest.None? then None else Some(rest.value + 1)
  }

  /** In a store, the entry under `k` sits at index `i` exactly when `s[i]` carries `k`. */
  lemma IndexOfKeyAt(s: seq<Entry>, i: nat)
    requires UniqueKeys(s) && i < |s|
    ensures IndexOfKey(s, s[i].key) == Some(i)
  {
    assert s[i] in s;
  }

  /** `localStorage.getItem(k)`: None (null) for a missing key. */
  function GetItem(s: seq<Entry>, k: string): (r: Option<Text>)
    ensures r.None? <==> k !in KeySet(s)
    ensures r.Some? ==> Entry(k, r.value) in s
  {
    match IndexOfKey(s, k)
    case None => None
    case Some(i) => Some(s[i].value)
  }

  /** In a store, the value found under an entry's key is that entry's value. */
  lemma GetItemAt(s: seq<Entry>, i: nat)
    requires UniqueKeys(s) && i < |s|
    ensures GetItem(s, s[i].key) == Some(s[i].value)
  {
    IndexOfKeyAt(s, i);
  }

  /** Two stores whose entries have the same keys at the same indices find
      every key at the same index. */
  lemma SameKeysSameIndex(s: seq<Entry>, t: seq<Entry>, k: string)
    requires |s| == |t| && forall i :: 0 <= i < |s| ==> s[i].key == t[i].key
    ensures IndexOfKey(s, k) == IndexOfKey(t, k)
  {
  }

  /** `localStorage.setItem(k, v)`: an existing key keeps its place and gets the
      new value, a new key goes last, and no other key changes. */
  function SetItem(s: seq<Entry>, k: string, v: Text): (r: seq<Entry>)
    requires UniqueKeys(s)
    ensures UniqueKeys(r)
    ensures GetItem(r, k) == Some(v)
    ensures forall k' :: k' != k ==> GetItem(r, k') == GetItem(s, k')
    ensures k !in KeySet(s) ==> r == s + [Entry(k, v)]
    ensures k in KeySet(s) ==> |r| == |s|
  {
    match IndexOfKey(s, k)
    case Some(i) =>
      var r := s[i := Entry(k, v)];
      assert UniqueKeys(r);
      IndexOfKeyAt(r, i);
      forall k' | k' != k ensures GetItem(r, k') == GetItem(s, k') {
        SameKeysSameIndex(r, s, k');
        var m := IndexOfKey(s, k');
        if m.Some? { assert m.value != i; }
      }
      r
    case None =>
      var r := s + [Entry(k, v)];
      assert UniqueKeys(r) by {
        forall j | 0 <= j < |s| ensures s[j].key != k {
          assert s[j] in s;
        }
      }
      IndexOfKeyAt(r, |s|);
      forall k' | k' != k ensures GetItem(r, k') == GetItem(s, k') {
        var m := IndexOfKey(s, k');
        if m.Some? {
          IndexOfKeyAt(s, m.value);
          IndexOfKeyAt(r, m.value);
        }
      }
      r
  }

  /** `localStorage.removeItem(k)`: the entry under `k` goes, the entries after
      it move down one index, and no other key changes. */
  function RemoveItem(s: seq<Entry>, k: string): (r: seq<Entry>)
    requires UniqueKeys(s)
    ensures UniqueKeys(r)
    ensures GetItem(r, k) == None
    ensures forall k' :: k' != k ==> GetItem(r, k') == GetItem(s, k')
    ensures k !in KeySet(s) ==> r == s
  {
    match IndexOfKey(s, k)
    case None => s
    case Some(i) =>
      var r := s[..i] + s[i + 1..];
      assert forall j :: 0 <= j < |r| ==> r[j] == s[if j < i then j else j + 1];
      assert UniqueKeys(r) by {
        forall a, b | 0 <= a < b < |r| ensures r[a].key != r[b].key {
          var a', b' := if a < i then a else a + 1, if b < i then b else b + 1;
          assert r[a] == s[a'] && r[b] == s[b'];
        }
      }
      forall k' | k' != k ensures GetItem(r, k') == GetItem(s, k') {
        var m := IndexOfKey(s, k');
        if m.Some? {
          var j := if m.value < i then m.value else m.value - 1;
          assert m.value != i;
          assert r[j] == s[m.value];
          IndexOfKeyAt(s, m.value);
          IndexOfKeyAt(r, j);
        }
      }
      r
  }

  /** Removing the key of the entry at index `i` closes the gap at `i`. */
  lemma RemoveItemAt(s: seq<Entry>, i: nat)
    requires UniqueKeys(s) && i < |s|
    ensures RemoveItem(s, s[i].key) == s[..i] + s[i + 1..]
  {
    IndexOfKeyAt(s, i);
  }

  /** The store with every entry whose key is in `ks` taken out, order kept. */
  function Without(s: seq<Entry>, ks: set<string>): (r: seq<Entry>)
    ensures |r| <= |s|
  {
    if s == [] then []
    else
      var last := s[|s| - 1];
      Without(s[..|s| - 1], ks) + (if last.key in ks then [] else [last])
  }

  /** The entries kept are exactly those whose key is not taken out. */
  lemma {:induction false} WithoutMembers(s: seq<Entry>, ks: set<string>)
    ensures forall e :: e in Without(s, ks) <==> e in s && e.key !in ks
    decreases |s|
  {
    if s != [] {
      var last := s[|s| - 1];
      WithoutMembers(s[..|s| - 1], ks);
      assert s == s[..|s| - 1] + [last];
    }
  }

  /** Extending the covered prefix by one entry. */
  lemma WithoutSnoc(s: seq<Entry>, ks: set<string>, v: nat)
    requires v < |s|
    ensures Without(s[..v + 1], ks)
         == Without(s[..v], ks) + (if s[v].key in ks then [] else [s[v]])
  {
    assert s[..v + 1][..v] == s[..v];
  }

  /** Naming a key the entries do not carry removes nothing more. */
  lemma {:induction false} WithoutAbsentKey(s: seq<Entry>, ks: set<string>, k: string)
    requires k !in KeySet(s)
    ensures Without(s, ks + {k}) == Without(s, ks)
    decreases |s|
  {
    if s != [] {
      var init := s[..|s| - 1];
      assert s[|s| - 1] in s;
      assert KeySet(init) <= KeySet(s) by {
        forall x | x in KeySet(init) ensures x in KeySet(s) {
          var e :| e in init && e.key == x;
          assert e in s;
        }
      }
      WithoutAbsentKey(init, ks, k);
    }
  }

  /** The kept entries keep their relative order, so a store stays a store. */
  lemma {:induction false} WithoutUnique(s: seq<Entry>, ks: set<string>)
    requires UniqueKeys(s)
    ensures UniqueKeys(Without(s, ks))
    decreases |s|
  {
    if s != [] {
      var init := s[..|s| - 1];
      var last := s[|s| - 1];
      WithoutUnique(init, ks);
      WithoutMembers(init, ks);
      var w := Without(init, ks);
      if last.key !in ks {
        forall i | 0 <= i < |w| ensures w[i].key != last.key {
          assert w[i] in init;
          var m :| 0 <= m < |init| && init[m] == w[i];
        }
      }
    }
  }

  /** A store with some keys taken out answers for the remaining keys exactly
      as before, and has none of the taken-out keys. */
  lemma WithoutGetItem(s: seq<Entry>, ks: set<string>, k: string)
    requires UniqueKeys(s)
    ensures UniqueKeys(Without(s, ks))
    ensures GetItem(Without(s, ks), k) == if k in ks then None else GetItem(s, k)
  {
    WithoutUnique(s, ks);
    WithoutMembers(s, ks);
    var r := Without(s, ks);
    var g := GetItem(r, k);
    if g.Some? {
      assert Entry(k, g.value) in r;
      assert Entry(k, g.value) in s;
      if k !in ks {
        var j :| 0 <= j < |s| && s[j] == Entry(k, g.value);
        GetItemAt(s, j);
      }
    }
  }

  /** The keys of a prefix grow by one entry's key at a time. */
  lemma KeySetSnoc(s: seq<Entry>, v: nat)
    requires v < |s|
    ensures KeySet(s[..v + 1]) == KeySet(s[..v]) + {s[v].key}
  {
    assert s[..v + 1] == s[..v] + [s[v]];
    assert forall e :: e in s[..v + 1] <==> e in s[..v] || e == s[v];
  }

  /** In a store, an entry's key is not among the keys before it. */
  lemma KeyNotBefore(s: seq<Entry>, v: nat)
    requires UniqueKeys(s) && v < |s|
    ensures s[v].key !in KeySet(s[..v])
  {
    forall e | e in s[..v] ensures e.key != s[v].key {
      var j :| 0 <= j < v && s[..v][j] == e;
      assert s[j] == e;
    }
  }
}
