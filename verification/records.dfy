/** The optional value the editor writes as `null` or leaves `undefined`. */
module Wrappers {

  datatype Option<+T> = None | Some(value: T)
}

/**
 * The flat records a host application hands to the tree editor, and the
 * two ways the editor looks a record up by id: `find`/`findIndex` (the
 * first match) and a `Map` filled in list order (the last match).
 */
module Records {
  import opened Wrappers

  /** The open set of further fields a record may carry, by name. The editor
      never looks inside them; they only have to survive unchanged. */
  type Fields = map<string, string>

  /** One host record `{id, parent_id, label?, ...}`; `caption` is its `label`
      (a keyword here) and `parentId == None`
      stands for `parent_id: null`. */
  datatype Record = Record(id: string, parentId: Option<string>, caption: Option<string>, extra: Fields)

  /** JavaScript truthiness of a nullable string: `null`, `undefined` and
      the empty string are all falsy. */
  predicate Truthy(s: Option<string>)
  {
    s.Some? && s.value != ""
  }

  /** The ids occurring in `items`. */
  function Ids(items: seq<Record>): set<string>
  {
    set i | 0 <= i < |items| :: items[i].id
  }

  /** No two records share an id. */
  predicate Unique(items: seq<Record>)
  {
    forall i, j | 0 <= i < j < |items| :: items[i].id != items[j].id
  }

  /** `items.findIndex(item => item.id === id)`: the first position holding
      `id`, or -1 when there is none. */
  function FirstIndex(items: seq<Record>, id: string): (k: int)
    ensures -1 <= k < |items|
    ensures k == -1 <==> id !in Ids(items)
    ensures 0 <= k ==> items[k].id == id && forall j | 0 <= j < k :: items[j].id != id
  {
    if items == [] then -1
    else if items[0].id == id then 0
    else
      var k := FirstIndex(items[1..], id);
      assert forall j | 1 <= j < |items| :: items[j] == items[1..][j - 1];
      if k < 0 then -1 else k + 1
  }

  /** `items.find(i => i.id === id)`: the first record carrying `id`. */
  function Find(items: seq<Record>, id: string): (r: Option<Record>)
    ensures r.None? <==> id !in Ids(items)
    ensures r.Some? ==> r.value.id == id
    ensures r.Some? ==> exists k | 0 <= k < |items| :: items[k] == r.value && forall j | 0 <= j < k :: items[j].id != id
  {
    var k := FirstIndex(items, id);
    if k < 0 then None else Some(items[k])
  }

  /** Whether no record after position `i` reuses its id. */
  predicate IsLastWithId(items: seq<Record>, i: int)
    requires 0 <= i < |items|
  {
    forall j | i < j < |items| :: items[j].id != items[i].id
  }

  /** The last position holding `id`, or -1 when there is none. */
  function LastIndex(items: seq<Record>, id: string): (k: int)
    ensures -1 <= k < |items|
    ensures k == -1 <==> id !in Ids(items)
    ensures 0 <= k ==> items[k].id == id && IsLastWithId(items, k)
  {
    if items == [] then -1
    else
      var n := |items| - 1;
      IdsOfSnoc(items);
      if items[n].id == id then n
      else
        var k := LastIndex(items[..n], id);
        assert 0 <= k ==> items[..n][k] == items[k];
        k
  }

  /** The `Map` the editor fills with `items.forEach(it => m.set(it.id, ...))`:
      every id is a key, and a later record overwrites an earlier one. */
  function ById(items: seq<Record>): (m: map<string, Record>)
    ensures m.Keys == Ids(items)
    ensures forall k | k in m :: m[k].id == k && m[k] in items
  {
    map k | k in Ids(items) :: items[LastIndex(items, k)]
  }

  /** A later record overwrites an earlier one: the map holds, for each id,
      the last record carrying it. */
  lemma ByIdLast(items: seq<Record>, i: int)
    requires 0 <= i < |items|
    requires IsLastWithId(items, i)
    ensures ById(items)[items[i].id] == items[i]
  {
    assert items[i].id in Ids(items);
    var k := LastIndex(items, items[i].id);
    assert k == i;
  }

  lemma IdsOfSnoc(items: seq<Record>)
    requires items != []
    ensures Ids(items) == Ids(items[..|items| - 1]) + {items[|items| - 1].id}
  {
    var n := |items| - 1;
    forall x | x in Ids(items)
      ensures x in Ids(items[..n]) + {items[n].id}
    {
      var i :| 0 <= i < |items| && items[i].id == x;
      if i < n {
        assert items[..n][i] == items[i];
      }
    }
    forall x | x in Ids(items[..n])
      ensures x in Ids(items)
    {
      var i :| 0 <= i < n && items[..n][i].id == x;
      assert items[i] == items[..n][i];
    }
  }

  /** With unique ids, the first match and the last match are the same record. */
  lemma UniqueLookups(items: seq<Record>, i: int)
    requires Unique(items)
    requires 0 <= i < |items|
    ensures ById(items)[items[i].id] == items[i]
    ensures Find(items, items[i].id) == Some(items[i])
    ensures FirstIndex(items, items[i].id) == i
  {
    assert IsLastWithId(items, i);
    ByIdLast(items, i);
    var k := FirstIndex(items, items[i].id);
    assert items[i].id in Ids(items);
  }

  /** There are never more distinct ids than records. */
  lemma {:induction false} IdsBound(items: seq<Record>)
    ensures |Ids(items)| <= |items|
  {
    if items != [] {
      var n := |items| - 1;
      IdsOfSnoc(items);
      IdsBound(items[..n]);
    }
  }

  /** With unique ids, every record occurs exactly once. */
  lemma {:induction false} UniqueOnce(items: seq<Record>, r: Record)
    requires Unique(items)
    requires r in items
    ensures multiset(items)[r] == 1
  {
    if items[0] == r {
      assert r !in items[1..];
    } else {
      UniqueOnce(items[1..], r);
    }
    assert items == [items[0]] + items[1..];
  }
}
