/**
 * The DynamoDB table the controllers share, reduced to what they use of it:
 * `get_item` by primary key, `put_item` that replaces the item with the same
 * key, and a `query` on one partition key with `begins_with` on the sort key.
 * Items are kept in primary-key order (code-point order on `pk`, then on
 * `sk`), the order in which a query returns them.
 */
module Store {
  import opened Common
  import opened Text
  import opened Records

  // ---------------------------------------------------------------------------
  // Key order
  // ---------------------------------------------------------------------------

  predicate KeyLess(a: ItemKey, b: ItemKey) {
    Less(a.pk, b.pk) || (a.pk == b.pk && Less(a.sk, b.sk))
  }

  lemma KeyLessIrreflexive(a: ItemKey)
    ensures !KeyLess(a, a)
  {
    LessIrreflexive(a.pk);
    LessIrreflexive(a.sk);
  }

  lemma KeyLessTransitive(a: ItemKey, b: ItemKey, c: ItemKey)
    requires KeyLess(a, b) && KeyLess(b, c)
    ensures KeyLess(a, c)
  {
    if Less(a.pk, b.pk) && Less(b.pk, c.pk) {
      LessTransitive(a.pk, b.pk, c.pk);
    } else if a.pk == b.pk && b.pk == c.pk {
      LessTransitive(a.sk, b.sk, c.sk);
    }
  }

  lemma KeyLessTotal(a: ItemKey, b: ItemKey)
    ensures a == b || KeyLess(a, b) || KeyLess(b, a)
  {
    LessTotal(a.pk, b.pk);
    LessTotal(a.sk, b.sk);
  }

  /** Strictly ascending keys: in particular no two items share a key. */
  predicate Sorted(es: seq<Item>) {
    forall i, j :: 0 <= i < j < |es| ==> KeyLess(es[i].Key(), es[j].Key())
  }

  // ---------------------------------------------------------------------------
  // get_item, put_item, query
  // ---------------------------------------------------------------------------

  /** `get_item(Key=k)`: the item with key `k`, or None when the response has no `Item`. */
  function Find(es: seq<Item>, k: ItemKey): (r: Option<Item>)
    ensures r.Some? ==> r.value in es && r.value.Key() == k
    ensures r.None? <==> forall i :: 0 <= i < |es| ==> es[i].Key() != k
  {
    if es == [] then None
    else if es[0].Key() == k then Some(es[0])
    else Find(es[1..], k)
  }

  /** `put_item(Item=item)`: replaces the item with the same key, or adds it in key order. */
  function Upsert(es: seq<Item>, item: Item): (r: seq<Item>)
    ensures item in r
    ensures forall x :: x in r ==> x == item || x in es
  {
    if es == [] then [item]
    else if es[0].Key() == item.Key() then [item] + es[1..]
    else if KeyLess(item.Key(), es[0].Key()) then [item] + es
    else [es[0]] + Upsert(es[1..], item)
  }

  /** `query` with `pk = :pk and begins_with(sk, :sk)`: the matching items, in key order. */
  function Matching(es: seq<Item>, pk: string, prefix: string): (r: seq<Item>)
    ensures forall x :: x in r <==> x in es && x.Key().pk == pk && prefix <= x.Key().sk
  {
    if es == [] then []
    else if es[0].Key().pk == pk && prefix <= es[0].Key().sk then [es[0]] + Matching(es[1..], pk, prefix)
    else Matching(es[1..], pk, prefix)
  }

  /** A write keeps the table in key order. */
  lemma {:induction false} UpsertSorted(es: seq<Item>, item: Item)
    requires Sorted(es)
    ensures Sorted(Upsert(es, item))
  {
    if es != [] {
      var k := item.Key();
      if es[0].Key() == k {
      } else if KeyLess(k, es[0].Key()) {
        var r := Upsert(es, item);
        assert r == [item] + es;
        forall j | 0 < j < |r|
          ensures KeyLess(r[0].Key(), r[j].Key())
        {
          assert r[j] == es[j - 1];
          if j > 1 {
            KeyLessTransitive(k, es[0].Key(), es[j - 1].Key());
          }
        }
      } else {
        KeyLessTotal(k, es[0].Key());
        var rest := Upsert(es[1..], item);
        UpsertSorted(es[1..], item);
        forall x | x in rest
          ensures KeyLess(es[0].Key(), x.Key())
        {
        }
        assert Upsert(es, item) == [es[0]] + rest;
      }
    }
  }

  /** Reading after a write: the written item under its own key, every other key as before. */
  lemma {:induction false} FindUpsert(es: seq<Item>, item: Item, k: ItemKey)
    ensures Find(Upsert(es, item), k) == if k == item.Key() then Some(item) else Find(es, k)
  {
    if es != [] && es[0].Key() != item.Key() && !KeyLess(item.Key(), es[0].Key()) {
      FindUpsert(es[1..], item, k);
      assert Upsert(es, item)[1..] == Upsert(es[1..], item);
    }
  }

  /** The query returns its items in key order, that is by ascending sort key. */
  lemma {:induction false} MatchingSorted(es: seq<Item>, pk: string, prefix: string)
    requires Sorted(es)
    ensures Sorted(Matching(es, pk, prefix))
  {
    if es != [] {
      MatchingSorted(es[1..], pk, prefix);
      var rest := Matching(es[1..], pk, prefix);
      forall x | x in rest
        ensures KeyLess(es[0].Key(), x.Key())
      {
      }
    }
  }

  /**
   * When the only item in the partition whose sort key starts with `prefix` is
   * the one whose sort key is `prefix` itself, the query returns that item alone.
   */
  lemma {:induction false} MatchingSingle(es: seq<Item>, pk: string, prefix: string, m: Item)
    requires Sorted(es) && Find(es, ItemKey(pk, prefix)) == Some(m)
    requires forall x :: x in es && x.Key().pk == pk && prefix <= x.Key().sk ==> x.Key().sk == prefix
    ensures Matching(es, pk, prefix) == [m]
  {
    var k := ItemKey(pk, prefix);
    if es[0].Key() == k {
      var rest := Matching(es[1..], pk, prefix);
      if rest != [] {
        assert rest[0] in es[1..];
        KeyLessIrreflexive(k);
        assert false;
      }
    } else {
      MatchingSingle(es[1..], pk, prefix, m);
    }
  }

  // ---------------------------------------------------------------------------
  // The table
  // ---------------------------------------------------------------------------

  /** What a controller operation replies, and the item it writes back, if any. */
  datatype Outcome<T> = Outcome(reply: Result<T, Error>, write: Option<Item>)

  /** The table after an operation's write. */
  function Commit(es: seq<Item>, write: Option<Item>): seq<Item> {
    match write
    case None => es
    case Some(item) => Upsert(es, item)
  }

  /** Committing a write leaves every key other than the written one as it was. */
  lemma CommitOthers(es: seq<Item>, write: Option<Item>, k: ItemKey)
    requires write.Some? ==> write.value.Key() != k
    ensures Find(Commit(es, write), k) == Find(es, k)
  {
    if write.Some? {
      FindUpsert(es, write.value, k);
    }
  }

  class Table {
    var entries: seq<Item>

    ghost predicate Valid()
      reads this
    {
      Sorted(entries)
    }

    constructor()
      ensures entries == [] && Valid()
    {
      entries := [];
    }

    function GetItem(k: ItemKey): Option<Item>
      reads this
    {
      Find(entries, k)
    }

    function Query(pk: string, prefix: string): seq<Item>
      reads this
    {
      Matching(entries, pk, prefix)
    }

    method PutItem(item: Item)
      requires Valid()
      modifies this
      ensures Valid()
      ensures entries == Upsert(old(entries), item)
    {
      UpsertSorted(entries, item);
      entries := Upsert(entries, item);
    }
  }
}
