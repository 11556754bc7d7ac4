# Job-order storage service, modelled in Dafny

The job-order tracking app keeps its orders through one small service,
`StorageService` in `services/storageService.ts`. The service lists all orders,
looks one up by `id`, appends a new order, and replaces an existing order by
`id`. It uses one of two backends:

- the browser's local key-value store, where the whole collection is one
  serialized JSON array under the key `halagel_orders`;
- a remote spreadsheet web app, reached over HTTP.

The service picks the backend by checking whether its configured URL still
contains the placeholder text `PASTE_YOUR`.

This model treats the local backend as a pure state machine over what is
stored under that key. The collection is a `seq<JobOrder>`. The other fields
of a `JobOrder` are defined outside the service and never inspected, so a
stand-in `Payload` holds them.

- `wrappers.dfy` (`Wrappers`): the `Option` type. `None` stands for the
  `undefined` that `find` returns and the `-1` that `findIndex` returns.
- `orders.dfy` (`Orders`): the `JobOrder` record. It also defines the
  sequence operations the service uses: `findIndex`, `find`, `push`, and
  replacing the first match in place. `HasId` and `IsFirstMatch` are
  reference predicates, and those operations are proved against them.
- `backend.dfy` (`Backend`): backend selection. The substring test is an
  explicit `Includes` function, and its result is a `Mode` value
  (`Local | Remote(endpoint)`).
- `storage_service.dfy` (`StorageService`): the four operations and the
  lemmas that relate them.
  - Reads take the mode, the stored value and the remote reply as
    parameters, so they need no I/O.
  - `createOrder` and `updateOrder` on the local backend map the old stored
    value to the new one.

How the I/O is abstracted:

- `localStorage.getItem` followed by `JSON.parse` becomes a `StoredValue`:
  - `Absent` when the key is missing or holds the empty string. Both are
    falsy, so no parsing happens.
  - `Stored(json)` when the text parses.
  - `Malformed` when parsing throws.
- A parsed document is either `JArray(items)` or `JNonArray`. The elements
  of an array are taken to be job orders, each with a string `id`. The
  source reads only `o.id` of each element (services/storageService.ts:45
  and :89). Other kinds of element are not modelled (see Left out).
- The remote read `fetch(...?action=get)` followed by `response.json()`
  becomes a `RemoteReply`: `ReadFailed` or `Body(json)`.
- `localStorage.setItem(key, JSON.stringify(orders))` becomes
  `Save(orders)`, which is `Stored(JArray(orders))`. This assumes that
  stringify followed by parse returns the same array of plain-data records.

## Model

| member | source | states |
|---|---|---|
| Backend.Includes | services/storageService.ts:16 | `includes` is true exactly when the pattern occurs at some index of the text. This is checked against an independent occurrence predicate, and the empty pattern occurs everywhere. |
| Backend.SelectBackend | services/storageService.ts:16 | The local backend is selected exactly when `PASTE_YOUR` occurs somewhere in the URL. Otherwise the remote backend is selected at that URL. |
| Backend.ShippedUrlSelectsLocal | services/storageService.ts:4-7 | With the URL constant as shipped, every operation takes the local-storage branch. |
| Backend.PlaceholderAnywhereSelectsLocal | services/storageService.ts:16 | Any URL that still holds the placeholder, wherever it sits, selects the local backend. |
| Orders.FirstIndex | services/storageService.ts:89-90 | The scan finds no index exactly when no element carries the id. An index it finds is the smallest one whose element carries the id. |
| Orders.Find | services/storageService.ts:45 | `find` is empty exactly when no element carries the id. An element it returns carries that id and is in the collection. |
| Orders.FindIsElementAtFirstIndex | services/storageService.ts:45 | `find` returns exactly the element at the index `findIndex` reports. So the lookup and the update agree on which duplicate they mean. |
| Orders.FindReturnsFirstMatch | services/storageService.ts:45 | When ids are duplicated, the lookup returns the element at the smallest matching index. Later duplicates are never returned. |
| Orders.Append | services/storageService.ts:55 | `push` grows the collection by exactly one and puts the new order last. Every earlier element stays unchanged. |
| Orders.ReplaceFirst | services/storageService.ts:89-91 | Length is kept. When nothing matches, the collection is unchanged. Otherwise the first match holds the new order and every other index is unchanged, including later duplicates. |
| Orders.FindAfterAppend | services/storageService.ts:54-55 | After an append, an id already present keeps its old lookup answer, so an appended duplicate is shadowed. Only an id new to the collection finds the appended order. |
| Orders.FindAfterReplace | services/storageService.ts:89-91 | After replacing a present id, looking it up yields the new order. |
| Orders.FindOtherAfterReplace | services/storageService.ts:89-91 | Replacing leaves the lookup of every other id unchanged. |
| Orders.ReplaceFirstKeepsIds | services/storageService.ts:89-91 | Replacing never changes which id sits at which position. |
| Orders.ReplaceFirstIdempotent | services/storageService.ts:89-92 | Replacing twice with the same order gives the same collection as replacing once. |
| StorageService.ArrayOrEmpty | services/storageService.ts:31-33 | The array-shape check keeps an array body as it is and turns any other body into the empty collection. |
| StorageService.LoadLocalAsWritten | services/storageService.ts:18-24 | The local read as written: a missing value and a parse failure give an empty array, and whatever the stored text parses to is returned unchanged. So it yields a non-array exactly when the stored text parses to one. |
| StorageService.LoadLocal | services/storageService.ts:18-24 | The corrected local read: a missing or unparsable value gives `[]`, and so does a stored non-array. Wherever the read as written yields an array, this read yields the same array. |
| StorageService.LoadRemote | services/storageService.ts:27-37 | A failed request or body parse gives `[]`. An array body is returned unchanged, and any other body gives `[]`. |
| StorageService.GetAllOrders | services/storageService.ts:14-38 | `getAllOrders` is total. In local mode, an absent or malformed value gives `[]`, a stored array is returned as is, and a stored non-array gives `[]` under the corrected read (as written it is returned as is; see Findings). In remote mode, a failure or non-array body gives `[]` and an array body is returned as is. |
| StorageService.GetOrderById | services/storageService.ts:43-46 | The result is empty exactly when no element of the collection read carries the id. Otherwise it is the element at the smallest matching index. |
| StorageService.CreateOrder | services/storageService.ts:53-56 | Under the corrected read, after `createOrder` the key holds a well-formed array. It is one longer than the collection read, holds the new order last, and every earlier element is unchanged. Duplicate ids are not rejected. |
| StorageService.UpdateOrder | services/storageService.ts:87-93 | With no match, nothing is written and the stored value stays exactly as it was, even when it is corrupt. With a match at first index `i`, the length is kept, `i` holds the update, and every other index is unchanged. |
| StorageService.Save | services/storageService.ts:56 | Writing a collection, as `createOrder` does here and `updateOrder` does at line 92, stores a well-formed array that reads back as exactly that collection. |
| StorageService.LoadAfterSave | services/storageService.ts:19-20 | Reading back a saved collection gives exactly that collection, in order. |
| StorageService.ModeSelectsOneBackend | services/storageService.ts:16-37 | Local mode never consults the remote reply. Remote mode never consults the stored value. |
| StorageService.BackendsAgreeOnDocument | services/storageService.ts:20-33 | With the corrected local read, the same JSON document gives the same collection from either backend. |
| StorageService.LocalNonArrayEscapesAsWritten | services/storageService.ts:20 | Counterexample: the local read as written hands back a stored non-array document. The remote read, and the corrected local read, turn that document into `[]`. |
| StorageService.GetAllAfterCreate | services/storageService.ts:53-56 | After `createOrder`, the collection read back is the previous one with the new order appended. Under the corrected read this holds whatever the key held before; as written, a stored non-array makes `createOrder` throw. |
| StorageService.GetByIdAfterCreate | services/storageService.ts:53-56 | After `createOrder`, an id already present keeps its old lookup answer and a new id finds the created order. |
| StorageService.GetByIdAfterUpdate | services/storageService.ts:88-92 | After a matching update, looking up the updated id yields the updated order. |
| StorageService.GetOtherByIdAfterUpdate | services/storageService.ts:88-92 | An update leaves the lookup of every other id unchanged. |
| StorageService.UpdateKeepsIds | services/storageService.ts:88-92 | An update never changes which id sits at which position in the collection read back. |
| StorageService.UpdateIdempotent | services/storageService.ts:88-93 | Repeating an update leaves the stored value as the first update left it. |
| StorageService.CreateUpdateLookupScenario | services/storageService.ts:43-93 | The walk-through starts from an empty store: create `a`, create `b`, update `a`. After it, `b` is found and an unknown id is not. |

## Left out

- Remote writes are not modelled. The POST requests of `createOrder` and
  `updateOrder` (services/storageService.ts:62-79 and :98-113) are network
  I/O with an opaque `no-cors` response. They never touch the local key.
  So remote mode has only a read model, and create and update are modelled
  for the local backend only.
- Real JSON serialization, real parsing, and the `localStorage` API are
  abstracted. `StoredValue`, `RemoteReply` and `Save` stand for them.
- The artificial 500 ms delay (`setTimeout`) and all `console` logging are
  left out. They have no effect on the stored data.
- `generateId` (services/storageService.ts:117-119) is left out. It is
  floating-point `Math.random` rendered in base 36 and sliced, so it is
  nondeterministic and promises nothing.
- `async` scheduling is left out, and so are races between concurrent
  read-modify-write calls. The model is sequential.
- The `JobOrder` fields other than `id` are defined outside this service.
  `Payload` is a stand-in for them.
- The elements of a parsed array are taken to be objects with a string
  `id`. The model can represent no other kind of element, so two source
  behaviours are not covered:
  - A `null` element, as in a stored `[null]`, makes `find` and `findIndex`
    throw at `o.id` (services/storageService.ts:45 and :89).
  - An element that is not an object with a string `id` (`{}`, `5`, `"s"`,
    `{"id": 7}`) never matches the strict comparison. `push`, the indexed
    write and `JSON.stringify` carry it through unchanged.
- As written, an operation on a stored non-array value (text such as `null`
  or `{}`) throws a TypeError (`find`, `push` or `findIndex` on a
  non-array). The model uses the corrected local read instead (see
  Findings). The lines below give the as-written outcome per member.
- StorageService.GetAllOrders: as written, a stored non-array is returned
  to the caller as is, rather than the `[]` the model gives.
- StorageService.GetOrderById: as written, a stored non-array makes `find`
  (services/storageService.ts:45) throw, rather than the `None` the model
  gives.
- StorageService.CreateOrder: as written, a stored non-array makes `push`
  (services/storageService.ts:55) throw before `setItem` runs, so the key
  keeps its non-array value. The model writes an array holding just the new
  order.
- StorageService.GetAllAfterCreate: as written, the create throws on a
  stored non-array and nothing is appended, so this property holds only
  under the corrected read.
- StorageService.UpdateOrder: as written, a stored non-array makes
  `findIndex` (services/storageService.ts:89) throw. The model treats that
  case as no match and returns the stored value unchanged.

## Findings

| source | as written | input that shows it | evidently intended | confidence | as-written member | corrected member |
|---|---|---|---|---|---|---|
| services/storageService.ts:20 | The local read returns whatever the stored text parses to, with no array check. So `getAllOrders` can return a non-array despite its declared array type, and `getOrderById`, `createOrder` and `updateOrder` then throw on it. | The stored text `null` or `{}` under `halagel_orders`, followed by any of `getAllOrders` (non-array returned), `getOrderById` (`find` throws at :45), `createOrder` (`push` throws at :55) or `updateOrder` (`findIndex` throws at :89) | The same shape check as the remote read (services/storageService.ts:31): a non-array document reads as the empty collection | medium; not executed | StorageService.LoadLocalAsWritten (exhibited by StorageService.LocalNonArrayEscapesAsWritten) | StorageService.LoadLocal (proved by StorageService.BackendsAgreeOnDocument) |
