/** The storage service: list, look up, create and update job orders. Reads
    go to whichever backend the mode selects; the local backend keeps the whole
    collection as one serialized array under a fixed key, and its writes are
    modelled as the new value of that key. */
module StorageService {
  import opened Wrappers
  import opened Orders
  import opened Backend

  /** The key the local backend stores the collection under. */
  const LocalStorageKey: string := "halagel_orders"

  /** A parsed JSON document, as far as the service looks at it: either an
      array whose elements are job orders with string ids, or some other
      value (`null`, an object, a number, ...). */
  datatype Json = JArray(items: seq<JobOrder>) | JNonArray

  /** What the local key holds. `Absent` covers both a missing key and the
      empty string, since both are falsy and skip parsing; `Malformed` is
      text on which parsing throws. */
  datatype StoredValue = Absent | Stored(json: Json) | Malformed

  /** Outcome of the remote read: the request or the body parse failed, or a
      JSON body arrived. */
  datatype RemoteReply = ReadFailed | Body(json: Json)

  /** The `Array.isArray` guard of the remote read: an array is returned as
      is, anything else becomes the empty collection. */
  function ArrayOrEmpty(j: Json): (r: seq<JobOrder>)
    ensures j.JArray? ==> r == j.items
    ensures j.JNonArray? ==> r == []
  {
    match j
    case JArray(items) => items
    case JNonArray => []
  }

  /** The local read as written: a missing value and a parse failure both give
      `[]`, but whatever the text parses to is returned without a shape check. */
  function LoadLocalAsWritten(v: StoredValue): (r: Json)
    ensures v.Absent? || v.Malformed? ==> r == JArray([])
    ensures v.Stored? ==> r == v.json
    ensures r.JNonArray? <==> v == Stored(JNonArray)
  {
    match v
    case Absent => JArray([])
    case Stored(j) => j
    case Malformed => JArray([])
  }

  /** The local read with the shape check the remote read applies: the result
      is always a collection, and corrupt data of any kind reads as empty. */
  function LoadLocal(v: StoredValue): (r: seq<JobOrder>)
    ensures v.Absent? || v.Malformed? ==> r == []
    ensures v == Stored(JNonArray) ==> r == []
    ensures LoadLocalAsWritten(v).JArray? ==> r == LoadLocalAsWritten(v).items
  {
    match v
    case Absent => []
    case Stored(j) => ArrayOrEmpty(j)
    case Malformed => []
  }

  /** The remote read: a failed request or unparsable body, and a body that is
      not an array, all give `[]`; an array body is returned unchanged. */
  function LoadRemote(reply: RemoteReply): (r: seq<JobOrder>)
    ensures reply.ReadFailed? ==> r == []
    ensures reply.Body? ==> r == ArrayOrEmpty(reply.json)
  {
    match reply
    case ReadFailed => []
    case Body(j) => ArrayOrEmpty(j)
  }

  /** Serializing the collection and writing it under `LocalStorageKey`. */
  function Save(orders: seq<JobOrder>): (v: StoredValue)
    ensures v.Stored? && v.json.JArray?
    ensures LoadLocal(v) == orders
  {
    Stored(JArray(orders))
  }

  /** `getAllOrders`: the whole collection from the backend `mode` selects.
      Never fails: every error path yields the empty collection. */
  function GetAllOrders(mode: Mode, stored: StoredValue, reply: RemoteReply): (r: seq<JobOrder>)
    ensures mode.Local? && (stored.Absent? || stored.Malformed?) ==> r == []
    ensures mode.Local? && stored.Stored? && stored.json.JArray? ==> r == stored.json.items
    ensures mode.Remote? && reply.ReadFailed? ==> r == []
    ensures mode.Remote? && reply.Body? && reply.json.JArray? ==> r == reply.json.items
    ensures mode.Local? && stored == Stored(JNonArray) ==> r == []
    ensures mode.Remote? && reply == Body(JNonArray) ==> r == []
  {
    match mode
    case Local => LoadLocal(stored)
    case Remote(_) => LoadRemote(reply)
  }

  /** `getOrderById`: the element at the smallest index whose id equals `id`
      in the collection `getAllOrders` reads, or `None` exactly when no
      element carries it. */
  function GetOrderById(mode: Mode, stored: StoredValue, reply: RemoteReply, id: string): (r: Option<JobOrder>)
    ensures r.None? <==> !HasId(GetAllOrders(mode, stored, reply), id)
    ensures forall i :: IsFirstMatch(GetAllOrders(mode, stored, reply), id, i) ==>
              r == Some(GetAllOrders(mode, stored, reply)[i])
  {
    var orders := GetAllOrders(mode, stored, reply);
    var r := Find(orders, id);
    assert forall i :: IsFirstMatch(orders, id, i) ==> r == Some(orders[i]) by {
      forall i | IsFirstMatch(orders, id, i)
        ensures r == Some(orders[i])
      {
        FindReturnsFirstMatch(orders, id, i);
      }
    }
    r
  }

  /** `createOrder` on the local backend: read the collection, push `o`, and
      write the result back. No uniqueness check is made. Under the corrected
      read the key always ends up holding a well-formed array, even if it held
      corrupt data before; as written, a stored non-array makes `push` throw
      and the key keeps its old value. */
  function CreateOrder(stored: StoredValue, o: JobOrder): (v: StoredValue)
    ensures v.Stored? && v.json.JArray?
    ensures |v.json.items| == |LoadLocal(stored)| + 1
    ensures v.json.items[|LoadLocal(stored)|] == o
    ensures forall i :: 0 <= i < |LoadLocal(stored)| ==> v.json.items[i] == LoadLocal(stored)[i]
  {
    Save(Append(LoadLocal(stored), o))
  }

  /** `updateOrder` on the local backend: when some element carries `u.id`,
      the first such element is replaced by `u` in place and the collection is
      written back; otherwise nothing is written and the key keeps exactly the
      value it had. */
  function UpdateOrder(stored: StoredValue, u: JobOrder): (v: StoredValue)
    ensures !HasId(LoadLocal(stored), u.id) ==> v == stored
    ensures forall i :: IsFirstMatch(LoadLocal(stored), u.id, i) ==>
              && v.Stored? && v.json.JArray?
              && |v.json.items| == |LoadLocal(stored)|
              && v.json.items[i] == u
              && forall j :: 0 <= j < |LoadLocal(stored)| && j != i ==> v.json.items[j] == LoadLocal(stored)[j]
  {
    var orders := LoadLocal(stored);
    if FirstIndex(orders, u.id).None? then stored else Save(ReplaceFirst(orders, u))
  }

  /** Reading back a saved collection gives exactly that collection, in order. */
  lemma LoadAfterSave(orders: seq<JobOrder>, reply: RemoteReply)
    ensures GetAllOrders(Local, Save(orders), reply) == orders
  {
  }

  /** In local mode the remote reply is never consulted, and in remote mode
      the stored value is never consulted. */
  lemma ModeSelectsOneBackend(stored: StoredValue, stored': StoredValue, reply: RemoteReply, reply': RemoteReply, endpoint: string)
    ensures GetAllOrders(Local, stored, reply) == GetAllOrders(Local, stored, reply')
    ensures GetAllOrders(Remote(endpoint), stored, reply) == GetAllOrders(Remote(endpoint), stored', reply)
  {
  }

  /** With the corrected local read, both backends decode a document the same
      way: the same JSON value gives the same collection from either one. */
  lemma BackendsAgreeOnDocument(j: Json, reply: RemoteReply, endpoint: string)
    ensures GetAllOrders(Local, Stored(j), reply) == GetAllOrders(Remote(endpoint), Absent, Body(j))
  {
  }

  /** The local read as written breaks that agreement: stored text such as
      `null` parses to a value that is not an array, and that value is handed
      to callers, whose `find` or `push` on it then throws; the remote read
      turns the same document into `[]`. */
  lemma LocalNonArrayEscapesAsWritten()
    ensures LoadLocalAsWritten(Stored(JNonArray)) == JNonArray
    ensures LoadRemote(Body(JNonArray)) == []
    ensures LoadLocal(Stored(JNonArray)) == []
  {
  }

  /** After a create, the collection read back is the old one with `o` at the
      end. Under the corrected read this holds whatever the key held before;
      as written, a stored non-array makes the create throw. */
  lemma GetAllAfterCreate(stored: StoredValue, o: JobOrder, reply: RemoteReply)
    ensures GetAllOrders(Local, CreateOrder(stored, o), reply) == GetAllOrders(Local, stored, reply) + [o]
  {
  }

  /** Lookups after a create: an id already present keeps its old answer, so
      a created order with a duplicate id is shadowed by the earlier one; a
      new id finds the created order. */
  lemma GetByIdAfterCreate(stored: StoredValue, o: JobOrder, reply: RemoteReply, id: string)
    ensures GetOrderById(Local, CreateOrder(stored, o), reply, id) ==
              if HasId(LoadLocal(stored), id) then GetOrderById(Local, stored, reply, id)
              else if o.id == id then Some(o)
              else None
  {
    FindAfterAppend(LoadLocal(stored), o, id);
  }

  /** After an update whose id is present, looking that id up yields the
      updated order, because it stays at the first matching index. */
  lemma GetByIdAfterUpdate(stored: StoredValue, u: JobOrder, reply: RemoteReply)
    requires HasId(LoadLocal(stored), u.id)
    ensures GetOrderById(Local, UpdateOrder(stored, u), reply, u.id) == Some(u)
  {
    FindAfterReplace(LoadLocal(stored), u);
  }

  /** An update leaves the lookup of every other id as it was. */
  lemma GetOtherByIdAfterUpdate(stored: StoredValue, u: JobOrder, reply: RemoteReply, id: string)
    requires id != u.id
    ensures GetOrderById(Local, UpdateOrder(stored, u), reply, id) == GetOrderById(Local, stored, reply, id)
  {
    FindOtherAfterReplace(LoadLocal(stored), u, id);
  }

  /** An update never changes which id sits at which position. */
  lemma UpdateKeepsIds(stored: StoredValue, u: JobOrder, reply: RemoteReply)
    ensures Ids(GetAllOrders(Local, UpdateOrder(stored, u), reply)) == Ids(GetAllOrders(Local, stored, reply))
  {
    ReplaceFirstKeepsIds(LoadLocal(stored), u);
  }

  /** Repeating an update changes nothing more. */
  lemma UpdateIdempotent(stored: StoredValue, u: JobOrder)
    ensures UpdateOrder(UpdateOrder(stored, u), u) == UpdateOrder(stored, u)
  {
    ReplaceFirstIdempotent(LoadLocal(stored), u);
  }

  /** A walk through the service on an empty store: create `a`, create `b`,
      update `a` with a note; `b` is still found, and an unknown id is not. */
  lemma CreateUpdateLookupScenario(reply: RemoteReply)
    ensures
      var a := JobOrder("a", Payload(map[]));
      var b := JobOrder("b", Payload(map[]));
      var a' := JobOrder("a", Payload(map["note" := "x"]));
      var s1 := CreateOrder(Save([]), a);
      var s2 := CreateOrder(s1, b);
      var s3 := UpdateOrder(s2, a');
      && GetAllOrders(Local, s1, reply) == [a]
      && GetAllOrders(Local, s2, reply) == [a, b]
      && GetAllOrders(Local, s3, reply) == [a', b]
      && GetOrderById(Local, s3, reply, "b") == Some(b)
      && GetOrderById(Local, s3, reply, "z") == None
  {
    var a := JobOrder("a", Payload(map[]));
    var b := JobOrder("b", Payload(map[]));
    var a' := JobOrder("a", Payload(map["note" := "x"]));
    assert IsFirstMatch([a, b], "a", 0);
    assert IsFirstMatch([a', b], "b", 1);
    assert !HasId([a', b], "z");
  }
}
