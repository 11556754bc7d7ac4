/** The order collection as the storage service sees it: an ordered sequence of
    job orders, searched and edited by `id` alone. */
module Orders {
  import opened Wrappers

  /** Every field of a job order other than its id. The record type is defined
      outside the storage service, which passes these fields through without
      looking at them; a string map stands in for them here. */
  datatype Payload = Payload(fields: map<string, string>)

  datatype JobOrder = JobOrder(id: string, payload: Payload)

  /** Some element of `orders` carries `id`. */
  ghost predicate HasId(orders: seq<JobOrder>, id: string)
  {
    exists j :: 0 <= j < |orders| && orders[j].id == id
  }

  /** `i` is the smallest index of an element carrying `id`. */
  ghost predicate IsFirstMatch(orders: seq<JobOrder>, id: string, i: int)
  {
    && 0 <= i < |orders|
    && orders[i].id == id
    && forall j :: 0 <= j < i ==> orders[j].id != id
  }

  /** The sequence of ids, in collection order. */
  function Ids(orders: seq<JobOrder>): (r: seq<string>)
    ensures |r| == |orders|
    ensures forall i :: 0 <= i < |orders| ==> r[i] == orders[i].id
  {
    seq(|orders|, i requires 0 <= i < |orders| => orders[i].id)
  }

  /** `findIndex(o => o.id === id)`: the first index carrying `id`, with
      `None` standing for the `-1` the scan returns when nothing matches. */
  function FirstIndex(orders: seq<JobOrder>, id: string): (r: Option<nat>)
    ensures r.None? <==> !HasId(orders, id)
    ensures r.Some? ==> IsFirstMatch(orders, id, r.value)
    decreases |orders|
  {
    if |orders| == 0 then None
    else if orders[0].id == id then Some(0)
    else
      match FirstIndex(orders[1..], id)
      case None =>
        assert forall j :: 1 <= j < |orders| ==> orders[j] == orders[1..][j - 1];
        None
      case Some(k) =>
        assert forall j :: 1 <= j < k + 1 ==> orders[j] == orders[1..][j - 1];
        Some(k + 1)
  }

  /** `find(o => o.id === id)`: the first element carrying `id`. */
  function Find(orders: seq<JobOrder>, id: string): (r: Option<JobOrder>)
    ensures r.None? <==> !HasId(orders, id)
    ensures r.Some? ==> r.value.id == id && r.value in orders
    decreases |orders|
  {
    if |orders| == 0 then None
    else if orders[0].id == id then Some(orders[0])
    else
      var r := Find(orders[1..], id);
      assert forall j :: 1 <= j < |orders| ==> orders[j] == orders[1..][j - 1];
      r
  }

  /** `push(order)`: the collection with `o` added at the end. */
  function Append(orders: seq<JobOrder>, o: JobOrder): (r: seq<JobOrder>)
    ensures |r| == |orders| + 1
    ensures r[|orders|] == o
    ensures r[..|orders|] == orders
  {
    orders + [o]
  }

  /** `orders[findIndex(...)] = u` when the scan finds a match; the collection
      itself when it does not. */
  function ReplaceFirst(orders: seq<JobOrder>, u: JobOrder): (r: seq<JobOrder>)
    ensures |r| == |orders|
    ensures !HasId(orders, u.id) ==> r == orders
    ensures forall i :: IsFirstMatch(orders, u.id, i) ==>
              r[i] == u && forall j :: 0 <= j < |orders| && j != i ==> r[j] == orders[j]
  {
    match FirstIndex(orders, u.id)
    case None => orders
    case Some(i) =>
      assert forall k :: IsFirstMatch(orders, u.id, k) ==> k == i;
      orders[i := u]
  }

  /** `find` returns exactly the element at the index `findIndex` reports. */
  lemma {:induction false} FindIsElementAtFirstIndex(orders: seq<JobOrder>, id: string)
    ensures Find(orders, id) == (match FirstIndex(orders, id)
                                 case None => None
                                 case Some(i) => Some(orders[i]))
    decreases |orders|
  {
    if |orders| > 0 && orders[0].id != id {
      FindIsElementAtFirstIndex(orders[1..], id);
    }
  }

  /** The element `find` returns is the one at the smallest matching index,
      so later elements with a duplicate id are never returned. */
  lemma FindReturnsFirstMatch(orders: seq<JobOrder>, id: string, i: int)
    requires IsFirstMatch(orders, id, i)
    ensures Find(orders, id) == Some(orders[i])
  {
    FindIsElementAtFirstIndex(orders, id);
    FirstMatchUnique(orders, id, i, FirstIndex(orders, id).value);
  }

  /** At most one index is the first match. */
  lemma FirstMatchUnique(orders: seq<JobOrder>, id: string, i: int, k: int)
    requires IsFirstMatch(orders, id, i) && IsFirstMatch(orders, id, k)
    ensures i == k
  {
  }

  /** After an append, a lookup sees the old collection first: an id already
      present keeps its old answer (a duplicate `o` is shadowed), and only an
      id new to the collection can find `o`. */
  lemma {:induction false} FindAfterAppend(orders: seq<JobOrder>, o: JobOrder, id: string)
    ensures Find(Append(orders, o), id) ==
              if HasId(orders, id) then Find(orders, id)
              else if o.id == id then Some(o)
              else None
    decreases |orders|
  {
    if |orders| > 0 && orders[0].id != id {
      assert Append(orders, o)[1..] == Append(orders[1..], o);
      FindAfterAppend(orders[1..], o, id);
      assert HasId(orders, id) <==> HasId(orders[1..], id) by {
        assert forall j :: 1 <= j < |orders| ==> orders[j] == orders[1..][j - 1];
      }
    }
  }

  /** Replacing never changes which id sits at which position, so it keeps
      the matched element at the same index. */
  lemma ReplaceFirstKeepsIds(orders: seq<JobOrder>, u: JobOrder)
    ensures Ids(ReplaceFirst(orders, u)) == Ids(orders)
  {
    var r := ReplaceFirst(orders, u);
    if HasId(orders, u.id) {
      var i := FirstIndex(orders, u.id).value;
      assert IsFirstMatch(orders, u.id, i);
      assert forall j :: 0 <= j < |orders| ==> r[j].id == orders[j].id;
    }
  }

  /** After replacing, looking up the replaced id yields the new order. */
  lemma FindAfterReplace(orders: seq<JobOrder>, u: JobOrder)
    requires HasId(orders, u.id)
    ensures Find(ReplaceFirst(orders, u), u.id) == Some(u)
  {
    var i := FirstIndex(orders, u.id).value;
    var r := ReplaceFirst(orders, u);
    assert IsFirstMatch(orders, u.id, i);
    assert IsFirstMatch(r, u.id, i);
    FindReturnsFirstMatch(r, u.id, i);
  }

  /** Replacing leaves every lookup of another id unchanged. */
  lemma FindOtherAfterReplace(orders: seq<JobOrder>, u: JobOrder, id: string)
    requires id != u.id
    ensures Find(ReplaceFirst(orders, u), id) == Find(orders, id)
  {
    var r := ReplaceFirst(orders, u);
    if HasId(orders, u.id) {
      var i := FirstIndex(orders, u.id).value;
      assert IsFirstMatch(orders, u.id, i);
      assert forall j :: 0 <= j < |orders| && r[j].id == id ==> r[j] == orders[j];
      assert forall j :: 0 <= j < |orders| && orders[j].id == id ==> r[j] == orders[j];
      if HasId(orders, id) {
        var k := FirstIndex(orders, id).value;
        assert IsFirstMatch(orders, id, k);
        assert IsFirstMatch(r, id, k);
        FindReturnsFirstMatch(orders, id, k);
        FindReturnsFirstMatch(r, id, k);
      } else {
        assert !HasId(r, id);
      }
    }
  }

  /** Replacing twice with the same order is the same as replacing once. */
  lemma ReplaceFirstIdempotent(orders: seq<JobOrder>, u: JobOrder)
    ensures ReplaceFirst(ReplaceFirst(orders, u), u) == ReplaceFirst(orders, u)
  {
    var r := ReplaceFirst(orders, u);
    if HasId(orders, u.id) {
      var i := FirstIndex(orders, u.id).value;
      assert IsFirstMatch(orders, u.id, i);
      assert IsFirstMatch(r, u.id, i);
      assert r[i := u] == r;
    }
  }
}
