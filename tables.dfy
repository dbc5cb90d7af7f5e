/** The collections of the document store. A table maps ids to records; a
    sequence of its ids gives the store's natural order, the order in which
    `find()` and `findOne()` meet the records (insertion order). */
module Tables {
  import opened Wrappers

  /** A document id. The handlers compare a stored id with a request field
      through its string form (`_id.toString() !== id`), so ids are strings. */
  type Id = string

  predicate Distinct<T(==)>(s: seq<T>) {
    forall i, j | 0 <= i < j < |s| :: s[i] != s[j]
  }

  /** `order` lists every key of `m` exactly once. */
  ghost predicate Indexes<R>(order: seq<Id>, m: map<Id, R>) {
    && Distinct(order)
    && (forall i | 0 <= i < |order| :: order[i] in m)
    && (forall k | k in m :: k in order)
  }

  /** The position in natural order of the first record that satisfies `p`:
      the document a MongoDB `findOne(filter)` returns. */
  function FindFirst<R>(m: map<Id, R>, order: seq<Id>, p: R -> bool): (r: Option<nat>)
    requires forall i | 0 <= i < |order| :: order[i] in m
    ensures r.Some? ==> r.value < |order| && p(m[order[r.value]])
    ensures r.Some? ==> forall j | 0 <= j < r.value :: !p(m[order[j]])
    ensures r.None? ==> forall i | 0 <= i < |order| :: !p(m[order[i]])
  {
    if |order| == 0 then None
    else if p(m[order[0]]) then Some(0)
    else
      match FindFirst(m, order[1..], p)
      case None => None
      case Some(i) => Some(i + 1)
  }

  /** When `order` indexes the whole table, finding nothing means that no
      record of the table satisfies `p`. */
  lemma NothingFound<R>(m: map<Id, R>, order: seq<Id>, p: R -> bool)
    requires Indexes(order, m)
    requires FindFirst(m, order, p).None?
    ensures forall k | k in m :: !p(m[k])
  {
    forall k | k in m
      ensures !p(m[k])
    {
      var i :| 0 <= i < |order| && order[i] == k;
    }
  }

  /** The position of `k` in `order`. */
  function IndexOf(order: seq<Id>, k: Id): (p: nat)
    requires k in order
    ensures p < |order| && order[p] == k
    ensures forall j | 0 <= j < p :: order[j] != k
  {
    if order[0] == k then 0 else 1 + IndexOf(order[1..], k)
  }

  /** `order` with the entry `k` taken out and the other entries kept in
      their order: the natural order after `deleteOne`. */
  function Without(order: seq<Id>, k: Id): (r: seq<Id>)
    requires k in order
    ensures |r| == |order| - 1
    ensures forall i | 0 <= i < |r| ::
      r[i] == order[if i < IndexOf(order, k) then i else i + 1]
  {
    var p := IndexOf(order, k);
    order[..p] + order[p + 1..]
  }

  /** An index is empty exactly when its table is. */
  lemma IndexesEmpty<R>(order: seq<Id>, m: map<Id, R>)
    requires Indexes(order, m)
    ensures order == [] <==> m == map[]
  {
    if order != [] {
      assert order[0] in m;
    }
    if m != map[] {
      var k :| k in m;
      assert k in order;
    }
  }

  /** Appending a fresh key keeps the index exact. */
  lemma {:induction false} AppendIndexes<R>(order: seq<Id>, m: map<Id, R>, k: Id, v: R)
    requires Indexes(order, m)
    requires k !in m
    ensures Indexes(order + [k], m[k := v])
  {
    var o := order + [k];
    forall i, j | 0 <= i < j < |o|
      ensures o[i] != o[j]
    {
      if j == |order| {
        assert o[i] == order[i] && order[i] in m;
      } else {
        assert o[i] == order[i] && o[j] == order[j];
      }
    }
    forall x | x in m[k := v]
      ensures x in o
    {
      if x != k {
        var i :| 0 <= i < |order| && order[i] == x;
        assert o[i] == x;
      } else {
        assert o[|order|] == x;
      }
    }
  }

  /** Taking a key out of both the table and its order keeps the index exact. */
  lemma {:induction false} WithoutIndexes<R>(order: seq<Id>, m: map<Id, R>, k: Id)
    requires Indexes(order, m)
    requires k in m
    ensures Indexes(Without(order, k), m - {k})
  {
    var r := Without(order, k);
    var p := IndexOf(order, k);
    forall i, j | 0 <= i < j < |r|
      ensures r[i] != r[j]
    {
      var i' := if i < p then i else i + 1;
      var j' := if j < p then j else j + 1;
      assert r[i] == order[i'] && r[j] == order[j'] && i' < j';
    }
    forall i | 0 <= i < |r|
      ensures r[i] in m - {k}
    {
      var i' := if i < p then i else i + 1;
      assert r[i] == order[i'] && i' != p;
    }
    forall x | x in m - {k}
      ensures x in r
    {
      var q :| 0 <= q < |order| && order[q] == x;
      assert q != p;
      if q < p {
        assert r[q] == x;
      } else {
        assert r[q - 1] == x;
      }
    }
  }
}
