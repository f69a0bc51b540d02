/**
 * The page map: a JavaScript `Map` from a source path to the page created for it.
 * A `Map` iterates in insertion order, and setting a key that is already present replaces
 * its value where it stands, so the map is modelled as a sequence of (key, value) pairs.
 */
module PageMaps {
  import opened Wrappers

  /** What is recorded for a created page (`PageMapping`). */
  datatype PageMapping = PageMapping(outlinePath: string, notionId: string, title: string, url: string)

  type Entries = seq<(string, PageMapping)>

  predicate UniqueKeys(m: Entries)
  {
    forall i, j :: 0 <= i < j < |m| ==> m[i].0 != m[j].0
  }

  function Keys(m: Entries): set<string>
  {
    set i | 0 <= i < |m| :: m[i].0
  }

  /** `m.get(k)`. */
  function Get(m: Entries, k: string): (r: Option<PageMapping>)
    ensures r.Some? <==> k in Keys(m)
    ensures r.Some? ==> exists i :: 0 <= i < |m| && m[i] == (k, r.value)
    decreases |m|
  {
    if m == [] then None
    else if m[0].0 == k then Some(m[0].1)
    else
      var r := Get(m[1..], k);
      assert Keys(m) == {m[0].0} + Keys(m[1..]);
      if r.Some? then
        var i :| 0 <= i < |m[1..]| && m[1..][i] == (k, r.value);
        assert m[i + 1] == (k, r.value);
        r
      else r
  }

  /** `m.set(k, v)`: an existing key keeps its position; a new key goes last. */
  function Put(m: Entries, k: string, v: PageMapping): (r: Entries)
    requires UniqueKeys(m)
    ensures k in Keys(m) ==> |r| == |m|
    ensures k !in Keys(m) ==> |r| == |m| + 1 && r[|m|] == (k, v)
    ensures forall i :: 0 <= i < |m| ==> r[i].0 == m[i].0
    ensures forall i :: 0 <= i < |m| && m[i].0 != k ==> r[i] == m[i]
    ensures forall i :: 0 <= i < |m| && m[i].0 == k ==> r[i].1 == v
    decreases |m|
  {
    if m == [] then [(k, v)]
    else if m[0].0 == k then [(k, v)] + m[1..]
    else
      assert Keys(m) == {m[0].0} + Keys(m[1..]);
      [m[0]] + Put(m[1..], k, v)
  }

  lemma PutKeys(m: Entries, k: string, v: PageMapping)
    requires UniqueKeys(m)
    ensures Keys(Put(m, k, v)) == Keys(m) + {k}
  {
    var r := Put(m, k, v);
    if k in Keys(m) {
      var i :| 0 <= i < |m| && m[i].0 == k;
      assert r[i].0 == k;
    } else {
      assert r[|m|].0 == k;
    }
  }

  lemma PutUnique(m: Entries, k: string, v: PageMapping)
    requires UniqueKeys(m)
    ensures UniqueKeys(Put(m, k, v))
  {
  }

  /** After `set`, `get` of that key gives the new value and every other key is unaffected. */
  lemma {:induction false} PutGet(m: Entries, k: string, v: PageMapping, k': string)
    requires UniqueKeys(m)
    ensures Get(Put(m, k, v), k') == if k' == k then Some(v) else Get(m, k')
    decreases |m|
  {
    if m != [] && m[0].0 != k {
      PutGet(m[1..], k, v, k');
      assert Put(m, k, v)[1..] == Put(m[1..], k, v);
    } else if m != [] {
      assert Put(m, k, v)[1..] == m[1..];
    }
  }

  /** The map as the walk shares it: one object that every step updates in place. */
  class PageMap {
    var entries: Entries

    ghost predicate Valid()
      reads this
    {
      UniqueKeys(entries)
    }

    constructor ()
      ensures Valid() && entries == []
    {
      entries := [];
    }

    /** `pageMap.get(k)`. */
    function Lookup(k: string): (r: Option<PageMapping>)
      reads this
      ensures r == Get(entries, k)
    {
      Get(entries, k)
    }

    /** `pageMap.set(k, v)`. */
    method Set(k: string, v: PageMapping)
      requires Valid()
      modifies this
      ensures Valid()
      ensures entries == Put(old(entries), k, v)
    {
      PutUnique(entries, k, v);
      entries := Put(entries, k, v);
    }
  }
}
