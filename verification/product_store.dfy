/** The in-memory product store of the mock API server and its `/api/products`
    route handlers, each written as a pure transition from the store and the
    request to the new store and the response. */
module ProductStore {
  import opened Wrappers
  import Strings
  import Sequences

  /** Milliseconds since the epoch, as the handlers' clock reads return them. */
  type Timestamp = nat

  /** A JavaScript number. `Number(x)` is not evaluated: the model records the
      text it was applied to (`None` for `undefined`). */
  datatype Num = Literal(value: int) | NumberOf(input: Option<string>)

  /** A stored product record. `name` and `description` are copied from the
      request body unchecked, so they may be missing. */
  datatype Product = Product(
    id: string,
    name: Option<string>,
    description: Option<string>,
    price: Num,
    oldPrice: Option<Num>,
    isNew: bool,
    tags: seq<string>,
    imagePath: Option<string>,
    createdAt: Timestamp,
    updatedAt: Option<Timestamp>)

  /** The `products` array, in insertion order. */
  type Store = seq<Product>

  /** The store the server starts with: one sample product with id "1". */
  function InitialStore(startedAt: Timestamp): Store {
    [Product("1", Some("Sample Product"), Some("This is a sample product"), Literal(999),
             Some(Literal(1299)), true, ["sample", "test"], Some("uploads/sample.jpg"),
             startedAt, Some(startedAt))]
  }

  ghost predicate UniqueIds(store: Store) {
    forall i, j :: 0 <= i < j < |store| ==> store[i].id != store[j].id
  }

  // ---------------------------------------------------------------------------
  // Lookup

  predicate IsHexDigit(c: char) {
    '0' <= c <= '9' || 'a' <= c <= 'f' || 'A' <= c <= 'F'
  }

  /** `/^[0-9a-fA-F]{24}$/.test(id)`: the id has the shape of a MongoDB ObjectId. */
  predicate LooksLikeObjectId(id: string) {
    |id| == 24 && forall i :: 0 <= i < |id| ==> IsHexDigit(id[i])
  }

  ghost predicate HasId(store: Store, key: string) {
    exists j :: 0 <= j < |store| && store[j].id == key
  }

  ghost predicate IsFirstWithId(store: Store, key: string, i: int) {
    && 0 <= i < |store|
    && store[i].id == key
    && forall j :: 0 <= j < i ==> store[j].id != key
  }

  /** The key the two-phase lookup matches on, stated independently of the
      code: the id itself when some record has it; otherwise, for an
      ObjectId-shaped id, its last character when some record has that. */
  ghost function ResolvedKey(store: Store, id: string): Option<string> {
    if HasId(store, id) then Some(id)
    else if LooksLikeObjectId(id) && HasId(store, id[|id| - 1..]) then Some(id[|id| - 1..])
    else None
  }

  lemma FirstWithIdUnique(store: Store, key: string, i: int, j: int)
    requires IsFirstWithId(store, key, i) && IsFirstWithId(store, key, j)
    ensures i == j
  {
  }

  /** `products.findIndex(p => p._id === key)`. */
  function FindIndex(store: Store, key: string): (r: int)
    ensures r == -1 <==> !HasId(store, key)
    ensures r != -1 ==> IsFirstWithId(store, key, r)
  {
    if |store| == 0 then -1
    else if store[0].id == key then 0
    else
      var r := FindIndex(store[1..], key);
      assert HasId(store, key) ==> HasId(store[1..], key) by {
        if HasId(store, key) {
          var j :| 0 <= j < |store| && store[j].id == key;
          assert store[1..][j - 1].id == key;
        }
      }
      if r == -1 then -1 else r + 1
  }

  /** `products.find(p => p._id === key)`. */
  function Find(store: Store, key: string): (r: Option<Product>)
    ensures r.None? <==> !HasId(store, key)
    ensures r.Some? ==> exists i :: IsFirstWithId(store, key, i) && r.value == store[i]
  {
    if |store| == 0 then None
    else if store[0].id == key then
      assert IsFirstWithId(store, key, 0);
      Some(store[0])
    else
      var r := Find(store[1..], key);
      FindShift(store, key, r);
      r
  }

  lemma FindShift(store: Store, key: string, r: Option<Product>)
    requires |store| > 0 && store[0].id != key
    requires r.None? <==> !HasId(store[1..], key)
    requires r.Some? ==> exists i :: IsFirstWithId(store[1..], key, i) && r.value == store[1..][i]
    ensures r.None? <==> !HasId(store, key)
    ensures r.Some? ==> exists i :: IsFirstWithId(store, key, i) && r.value == store[i]
  {
    if HasId(store, key) {
      var j :| 0 <= j < |store| && store[j].id == key;
      assert store[1..][j - 1].id == key;
    }
    if r.Some? {
      var i :| IsFirstWithId(store[1..], key, i) && r.value == store[1..][i];
      assert IsFirstWithId(store, key, i + 1);
    }
  }

  /** `findProductById`: exact match first; failing that, an ObjectId-shaped
      id is retried on its last character alone. */
  function FindProductById(store: Store, id: string): (r: Option<Product>)
    ensures r.None? <==> ResolvedKey(store, id).None?
    ensures r.Some? ==> exists i :: IsFirstWithId(store, ResolvedKey(store, id).value, i) && r.value == store[i]
  {
    var exact := Find(store, id);
    if exact.None? && LooksLikeObjectId(id) then Find(store, id[|id| - 1..]) else exact
  }

  /** `findProductIndexById`: the same two phases, yielding a position or -1. */
  function FindProductIndexById(store: Store, id: string): (r: int)
    ensures r == -1 <==> ResolvedKey(store, id).None?
    ensures r != -1 ==> IsFirstWithId(store, ResolvedKey(store, id).value, r)
  {
    var exact := FindIndex(store, id);
    if exact == -1 && LooksLikeObjectId(id) then FindIndex(store, id[|id| - 1..]) else exact
  }

  /** The index lookup and the record lookup agree on every store and id. */
  lemma IndexLookupAgrees(store: Store, id: string)
    ensures FindProductIndexById(store, id) == -1 <==> FindProductById(store, id).None?
    ensures FindProductIndexById(store, id) != -1 ==>
      FindProductById(store, id) == Some(store[FindProductIndexById(store, id)])
  {
    var k := FindProductIndexById(store, id);
    var r := FindProductById(store, id);
    if k != -1 {
      var i :| IsFirstWithId(store, ResolvedKey(store, id).value, i) && r.value == store[i];
      FirstWithIdUnique(store, ResolvedKey(store, id).value, i, k);
    }
  }

  /** An id some record carries resolves to the first such record, whatever
      its shape: the fallback is never consulted. */
  lemma ExactMatchWins(store: Store, id: string, i: int)
    requires IsFirstWithId(store, id, i)
    ensures FindProductById(store, id) == Some(store[i])
    ensures FindProductIndexById(store, id) == i
  {
    IndexLookupAgrees(store, id);
    FirstWithIdUnique(store, id, i, FindProductIndexById(store, id));
  }

  /** The deliberate collision: an ObjectId-shaped id no record carries
      resolves to the first record whose id is its last character. */
  lemma FallbackMatch(store: Store, id: string, i: int)
    requires !HasId(store, id) && LooksLikeObjectId(id)
    requires IsFirstWithId(store, id[23..], i)
    ensures FindProductById(store, id) == Some(store[i])
    ensures FindProductIndexById(store, id) == i
  {
    IndexLookupAgrees(store, id);
    FirstWithIdUnique(store, id[23..], i, FindProductIndexById(store, id));
  }

  /** Lookup depends on the ids alone: stores with the same ids position by
      position resolve every id to the same position. */
  lemma LookupDependsOnIdsOnly(s1: Store, s2: Store, id: string)
    requires |s1| == |s2|
    requires forall j :: 0 <= j < |s1| ==> s1[j].id == s2[j].id
    ensures FindProductIndexById(s1, id) == FindProductIndexById(s2, id)
  {
    assert forall key :: HasId(s1, key) <==> HasId(s2, key) by {
      forall key ensures HasId(s1, key) <==> HasId(s2, key) {
        if HasId(s1, key) {
          var j :| 0 <= j < |s1| && s1[j].id == key;
          assert s2[j].id == key;
        }
        if HasId(s2, key) {
          var j :| 0 <= j < |s2| && s2[j].id == key;
          assert s1[j].id == key;
        }
      }
    }
    var k1 := FindProductIndexById(s1, id);
    var k2 := FindProductIndexById(s2, id);
    if k1 != -1 {
      assert IsFirstWithId(s2, ResolvedKey(s1, id).value, k1);
      FirstWithIdUnique(s2, ResolvedKey(s1, id).value, k1, k2);
    }
  }

  // ---------------------------------------------------------------------------
  // Requests and responses

  /** The `tags` field of a request body: missing or falsy, a string, an array
      (a repeated multipart field or a JSON array), or some other truthy value
      a JSON body can carry (a number, an object). */
  datatype TagsField = NoTags | TagText(text: string) | TagArray(items: seq<string>) | TagOther

  /** The fields the create and update handlers read from `req.body`. */
  datatype ProductFields = ProductFields(
    name: Option<string>,
    description: Option<string>,
    price: Option<string>,
    oldPrice: Option<string>,
    isNew: Option<string>,
    tags: TagsField)

  datatype Reply =
    | Record(product: Product)                // the record itself, unwrapped
    | Envelope(data: Product)                 // { success: true, data }
    | Notice(success: bool, message: string)  // { success, message }
    | ServerError                             // Express's default handler after an uncaught throw

  datatype Response = Response(status: nat, reply: Reply)

  const NotFound := Response(404, Notice(false, "Product not found"))

  /** The message of the `TypeError` thrown when `tags.split` is applied to a
      value that is not a string. */
  const SplitTypeError := "tags.split is not a function"

  /** JavaScript truthiness of an optional string field. */
  predicate Truthy(v: Option<string>) {
    v.Some? && v.value != ""
  }

  /** `tags.split(',').map(tag => tag.trim())`: one trimmed piece per
      comma-separated field, empty pieces kept. */
  function SplitTags(text: string): (r: seq<string>)
    ensures |r| == multiset(text)[','] + 1
    ensures forall k :: 0 <= k < |r| ==> Strings.IsTrimmed(r[k]) && ',' !in r[k]
  {
    Strings.SplitTrim(text, ',')
  }

  /** The stored tags are the comma-separated fields of the text, each
      trimmed, in order, with empty ones kept. */
  lemma SplitTagsFields(fields: seq<string>)
    requires |fields| >= 1
    requires forall k :: 0 <= k < |fields| ==> ',' !in fields[k]
    ensures SplitTags(Strings.Join(fields, ",")) == Strings.TrimAll(fields)
  {
    assert [','] == ",";
    Strings.SplitTrimFields(fields, ',');
  }

  /** Tags joined with "," or ", " split back to themselves, provided each is
      already trimmed and comma-free. */
  lemma SplitTagsRoundTrip(tags: seq<string>, pad: string)
    requires |tags| >= 1
    requires forall k :: 0 <= k < |tags| ==> Strings.IsTrimmed(tags[k]) && ',' !in tags[k]
    requires pad == "" || pad == " "
    ensures SplitTags(Strings.Join(tags, "," + pad)) == tags
  {
    Strings.SplitTrimRoundTrip(tags, ',', pad);
  }

  /** Tags as the create handler stores them. */
  function CreateTags(tags: TagsField): (r: Result<seq<string>>)
    ensures r.Err? <==> tags.TagArray? || tags.TagOther?
    ensures r.Err? ==> r.message == SplitTypeError
    ensures r.Ok? && tags.TagText? && tags.text != "" ==> r.value == SplitTags(tags.text)
    ensures r.Ok? && (tags.NoTags? || tags == TagText("")) ==> r.value == []
  {
    match tags
    case NoTags => Ok([])
    case TagText(text) => if text == "" then Ok([]) else Ok(SplitTags(text))
    case _ => Err(SplitTypeError)
  }

  /** Tags as the update handler stores them: an array is kept as it is. */
  function UpdateTags(tags: TagsField): (r: Result<seq<string>>)
    ensures r.Err? <==> tags.TagOther?
    ensures r.Err? ==> r.message == SplitTypeError
    ensures tags.TagArray? ==> r == Ok(tags.items)
    ensures tags.TagText? && tags.text != "" ==> r == Ok(SplitTags(tags.text))
    ensures tags.NoTags? || tags == TagText("") ==> r == Ok([])
  {
    match tags
    case NoTags => Ok([])
    case TagText(text) => if text == "" then Ok([]) else Ok(SplitTags(text))
    case TagArray(items) => Ok(items)
    case TagOther => Err(SplitTypeError)
  }

  /** `oldPrice ? Number(oldPrice) : null`. */
  function OldPriceOf(v: Option<string>): Option<Num> {
    if Truthy(v) then Some(NumberOf(v)) else None
  }

  // ---------------------------------------------------------------------------
  // Route handlers

  /** GET /api/products/:id */
  function Get(store: Store, id: string): (r: Response)
    ensures ResolvedKey(store, id).None? ==> r == NotFound
    ensures ResolvedKey(store, id).Some? ==>
      forall i :: IsFirstWithId(store, ResolvedKey(store, id).value, i) ==> r == Response(200, Envelope(store[i]))
  {
    match FindProductById(store, id)
    case None => NotFound
    case Some(p) =>
      assert forall i :: IsFirstWithId(store, ResolvedKey(store, id).value, i) ==> p == store[i] by {
        forall i | IsFirstWithId(store, ResolvedKey(store, id).value, i) ensures p == store[i] {
          var i' :| IsFirstWithId(store, ResolvedKey(store, id).value, i') && p == store[i'];
          FirstWithIdUnique(store, ResolvedKey(store, id).value, i, i');
        }
      }
      Response(200, Envelope(p))
  }

  /** POST /api/products: the id is the decimal text of the clock reading
      `clock`; `upload` is the stored file name when an image was sent. */
  function Create(store: Store, body: ProductFields, upload: Option<string>, clock: nat, now: Timestamp): (out: (Store, Response))
    ensures CreateTags(body.tags).Err? ==> out == (store, Response(500, ServerError))
    ensures CreateTags(body.tags).Ok? ==>
      && |out.0| == |store| + 1
      && out.0[..|store|] == store
      && out.1 == Response(201, Record(out.0[|store|]))
    ensures CreateTags(body.tags).Ok? ==>
      var p := out.0[|store|];
      && p.id == Strings.NatToDecimal(clock)
      && p.name == body.name
      && p.description == body.description
      && p.price == NumberOf(body.price)
      && (p.oldPrice.Some? <==> Truthy(body.oldPrice))
      && (p.oldPrice.Some? ==> p.oldPrice.value == NumberOf(body.oldPrice))
      && (p.isNew <==> body.isNew == Some("true"))
      && p.tags == CreateTags(body.tags).value
      && (upload.Some? ==> p.imagePath == Some("uploads/" + upload.value))
      && (upload.None? ==> p.imagePath.None?)
      && p.createdAt == now
      && p.updatedAt.None?
  {
    match CreateTags(body.tags)
    case Err(_) => (store, Response(500, ServerError))
    case Ok(tags) =>
      var p := Product(
        Strings.NatToDecimal(clock), body.name, body.description, NumberOf(body.price),
        OldPriceOf(body.oldPrice), body.isNew == Some("true"), tags,
        if upload.Some? then Some("uploads/" + upload.value) else None,
        now, None);
      (store + [p], Response(201, Record(p)))
  }

  /** PUT /api/products/:id: every body field overwrites the record, present or
      not; the id and creation time are kept, and so is the image unless a new
      one was uploaded. */
  function Update(store: Store, id: string, body: ProductFields, upload: Option<string>, now: Timestamp): (out: (Store, Response))
    ensures ResolvedKey(store, id).None? ==> out == (store, NotFound)
    ensures ResolvedKey(store, id).Some? && UpdateTags(body.tags).Err? ==>
      out == (store, Response(400, Notice(false, SplitTypeError)))
    ensures ResolvedKey(store, id).Some? && UpdateTags(body.tags).Ok? ==>
      var k := FindProductIndexById(store, id);
      && 0 <= k < |store| == |out.0|
      && (forall j :: 0 <= j < |store| && j != k ==> out.0[j] == store[j])
      && out.1 == Response(200, Envelope(out.0[k]))
    ensures ResolvedKey(store, id).Some? && UpdateTags(body.tags).Ok? ==>
      var k := FindProductIndexById(store, id);
      var prior, p := store[k], out.0[k];
      && p.id == prior.id
      && p.createdAt == prior.createdAt
      && p.name == body.name
      && p.description == body.description
      && p.price == NumberOf(body.price)
      && (p.oldPrice.Some? <==> Truthy(body.oldPrice))
      && (p.oldPrice.Some? ==> p.oldPrice.value == NumberOf(body.oldPrice))
      && (p.isNew <==> body.isNew == Some("true"))
      && p.tags == UpdateTags(body.tags).value
      && (upload.Some? ==> p.imagePath == Some("uploads/" + Strings.ReplaceAll(upload.value, '\\', '/')))
      && (upload.None? ==> p.imagePath == prior.imagePath)
      && p.updatedAt == Some(now)
  {
    var k := FindProductIndexById(store, id);
    if k == -1 then (store, NotFound)
    else
      match UpdateTags(body.tags)
      case Err(message) => (store, Response(400, Notice(false, message)))
      case Ok(tags) =>
        var prior := store[k];
        var p := prior.(
          name := body.name,
          description := body.description,
          price := NumberOf(body.price),
          oldPrice := OldPriceOf(body.oldPrice),
          isNew := body.isNew == Some("true"),
          tags := tags,
          imagePath := if upload.Some? then Some("uploads/" + Strings.ReplaceAll(upload.value, '\\', '/')) else prior.imagePath,
          updatedAt := Some(now));
        (store[k := p], Response(200, Envelope(p)))
  }

  /** DELETE /api/products/:id: the resolved record is spliced out; its image
      file is left in place. */
  function Delete(store: Store, id: string): (out: (Store, Response))
    ensures ResolvedKey(store, id).None? ==> out == (store, NotFound)
    ensures ResolvedKey(store, id).Some? ==>
      var k := FindProductIndexById(store, id);
      && 0 <= k < |store|
      && out.0 == store[..k] + store[k + 1..]
      && out.1 == Response(200, Notice(true, "Product deleted"))
  {
    var k := FindProductIndexById(store, id);
    if k == -1 then (store, NotFound)
    else
      Sequences.RemoveAtInRange(store, k);
      (Sequences.RemoveAt(store, k), Response(200, Notice(true, "Product deleted")))
  }

  // ---------------------------------------------------------------------------
  // Properties across operations

  /** Deleting a resolved record removes exactly that record from the store's
      multiset of records. */
  lemma DeleteRemovesOne(store: Store, id: string)
    requires ResolvedKey(store, id).Some?
    ensures |Delete(store, id).0| == |store| - 1
    ensures multiset(Delete(store, id).0) + multiset{store[FindProductIndexById(store, id)]} == multiset(store)
  {
    var k := FindProductIndexById(store, id);
    Sequences.RemoveAtMultiset(store, k);
  }

  lemma InitialStoreUnique(startedAt: Timestamp)
    ensures UniqueIds(InitialStore(startedAt))
  {
  }

  /** A create keeps ids unique when the clock-derived id is fresh. */
  lemma CreatePreservesUniqueIds(store: Store, body: ProductFields, upload: Option<string>, clock: nat, now: Timestamp)
    requires UniqueIds(store)
    requires !HasId(store, Strings.NatToDecimal(clock))
    ensures UniqueIds(Create(store, body, upload, clock, now).0)
  {
    var s' := Create(store, body, upload, clock, now).0;
    if CreateTags(body.tags).Ok? {
      forall i, j | 0 <= i < j < |s'| ensures s'[i].id != s'[j].id {
        if j == |store| {
          assert s'[i] == store[i];
        } else {
          assert s'[i] == store[i] && s'[j] == store[j];
        }
      }
    }
  }

  lemma UpdatePreservesUniqueIds(store: Store, id: string, body: ProductFields, upload: Option<string>, now: Timestamp)
    requires UniqueIds(store)
    ensures UniqueIds(Update(store, id, body, upload, now).0)
  {
    var s' := Update(store, id, body, upload, now).0;
    assert forall j :: 0 <= j < |s'| ==> s'[j].id == store[j].id;
  }

  lemma DeletePreservesUniqueIds(store: Store, id: string)
    requires UniqueIds(store)
    ensures UniqueIds(Delete(store, id).0)
  {
    var s' := Delete(store, id).0;
    if ResolvedKey(store, id).Some? {
      var k := FindProductIndexById(store, id);
      forall i, j | 0 <= i < j < |s'| ensures s'[i].id != s'[j].id {
        var i0 := if i < k then i else i + 1;
        var j0 := if j < k then j else j + 1;
        assert s'[i] == store[i0] && s'[j] == store[j0];
      }
    }
  }

  /** A freshly created record can be read back by its id. */
  lemma CreateThenGet(store: Store, body: ProductFields, upload: Option<string>, clock: nat, now: Timestamp)
    requires !HasId(store, Strings.NatToDecimal(clock))
    requires CreateTags(body.tags).Ok?
    ensures
      var (s', created) := Create(store, body, upload, clock, now);
      Get(s', Strings.NatToDecimal(clock)) == Response(200, Envelope(created.reply.product))
  {
    var id := Strings.NatToDecimal(clock);
    var s' := Create(store, body, upload, clock, now).0;
    assert forall j :: 0 <= j < |store| ==> s'[j] == store[j];
    assert IsFirstWithId(s', id, |store|);
  }

  /** After an update, reading the same id returns the updated record. */
  lemma UpdateThenGet(store: Store, id: string, body: ProductFields, upload: Option<string>, now: Timestamp)
    requires ResolvedKey(store, id).Some? && UpdateTags(body.tags).Ok?
    ensures
      var (s', updated) := Update(store, id, body, upload, now);
      Get(s', id) == updated
  {
    var s' := Update(store, id, body, upload, now).0;
    var k := FindProductIndexById(store, id);
    LookupDependsOnIdsOnly(store, s', id);
    IndexLookupAgrees(s', id);
  }

  /** With unique ids, the key a delete resolved is gone afterwards. Reading
      the same id again finds nothing when the delete went through the
      ObjectId fallback, and also after an exact match unless the fallback
      now lands on another record. */
  lemma DeleteThenGet(store: Store, id: string)
    requires UniqueIds(store) && ResolvedKey(store, id).Some?
    ensures !HasId(Delete(store, id).0, ResolvedKey(store, id).value)
    ensures !HasId(store, id) ==> Get(Delete(store, id).0, id) == NotFound
    ensures !(LooksLikeObjectId(id) && HasId(Delete(store, id).0, id[|id| - 1..])) ==>
      Get(Delete(store, id).0, id) == NotFound
  {
    var s' := Delete(store, id).0;
    var key := ResolvedKey(store, id).value;
    var k := FindProductIndexById(store, id);
    forall j | 0 <= j < |s'| ensures s'[j].id != key && (!HasId(store, id) ==> s'[j].id != id) {
      var j0 := if j < k then j else j + 1;
      assert s'[j] == store[j0];
      assert store[j0].id != store[k].id;
    }
  }

  /** Two creates at different clock readings store two different ids, so
      ids stay unique across both as long as neither reading's id was
      already taken. */
  lemma TwoCreatesPreserveUniqueIds(store: Store, b1: ProductFields, b2: ProductFields, u1: Option<string>, u2: Option<string>,
                                    c1: nat, c2: nat, n1: Timestamp, n2: Timestamp)
    requires UniqueIds(store) && c1 != c2
    requires !HasId(store, Strings.NatToDecimal(c1)) && !HasId(store, Strings.NatToDecimal(c2))
    ensures UniqueIds(Create(Create(store, b1, u1, c1, n1).0, b2, u2, c2, n2).0)
  {
    var s1 := Create(store, b1, u1, c1, n1).0;
    CreatePreservesUniqueIds(store, b1, u1, c1, n1);
    Strings.DecimalInjective(c1, c2);
    forall j | 0 <= j < |s1| ensures s1[j].id != Strings.NatToDecimal(c2) {
      if j < |store| {
        assert s1[j] == store[j];
      }
    }
    CreatePreservesUniqueIds(s1, b2, u2, c2, n2);
  }

  /** The end-to-end flow: create a widget, read it back, delete it, and
      find it gone, leaving the store as it was. */
  lemma WidgetScenario(store: Store, clock: nat, now: Timestamp)
    requires !HasId(store, Strings.NatToDecimal(clock))
    requires !LooksLikeObjectId(Strings.NatToDecimal(clock))
    ensures
      var id := Strings.NatToDecimal(clock);
      var body := ProductFields(Some("Widget"), Some("A widget"), Some("100"), None, None, NoTags);
      var (s1, created) := Create(store, body, None, clock, now);
      var (s2, deleted) := Delete(s1, id);
      && created.status == 201
      && created.reply.product.id == id
      && created.reply.product.price == NumberOf(Some("100"))
      && created.reply.product.tags == []
      && !created.reply.product.isNew
      && Get(s1, id) == Response(200, Envelope(created.reply.product))
      && deleted == Response(200, Notice(true, "Product deleted"))
      && Get(s2, id) == NotFound
      && s2 == store
  {
    var id := Strings.NatToDecimal(clock);
    var body := ProductFields(Some("Widget"), Some("A widget"), Some("100"), None, None, NoTags);
    var s1 := Create(store, body, None, clock, now).0;
    CreateThenGet(store, body, None, clock, now);
    assert forall j :: 0 <= j < |store| ==> s1[j] == store[j];
    assert IsFirstWithId(s1, id, |store|);
    ExactMatchWins(s1, id, |store|);
    assert s1[..|store|] == store;
  }

  /** The sample product answers every ObjectId-shaped id ending in '1'. */
  lemma SampleCollision(startedAt: Timestamp)
    ensures FindProductById(InitialStore(startedAt), "507f1f77bcf86cd799439011") == Some(InitialStore(startedAt)[0])
  {
    var store := InitialStore(startedAt);
    var id := "507f1f77bcf86cd799439011";
    assert id[23..] == "1";
    assert !HasId(store, id);
    FallbackMatch(store, id, 0);
  }
}
