/** `QdrantHandler`: a thin wrapper round the vector-store client. Each
    operation is modelled as the client request it produces (or the error
    it raises first); what the server does with the request is outside the
    model, except for search, whose server is an opaque function. */
module QdrantHandler {
  import opened Results
  import opened TextUtil
  import opened QdrantFilter

  datatype Distance = Cosine | Euclid | Dot | Manhattan

  const DefaultVectorSize: int := 1024
  const DefaultDistance: Distance := Cosine

  /** The handler's configuration and whether `start` has created a client. */
  datatype Handler = Handler(vectorSize: int, distance: Distance, started: bool)

  datatype QdrantError =
    | NotInitialized
    | InvalidFilter(cause: FilterError)
    | UnknownAction(action: string)

  /** The handler as the constructor leaves it: no client yet. */
  function NewHandler(vectorSize: int, distance: Distance): (h: Handler)
    ensures !h.started
    ensures h.vectorSize == vectorSize && h.distance == distance
  {
    Handler(vectorSize, distance, false)
  }

  function Start(h: Handler): (h': Handler)
    ensures h'.started
    ensures h'.vectorSize == h.vectorSize && h'.distance == h.distance
  {
    h.(started := true)
  }

  /** The `Distance` member names, as used for the name lookup `Distance[...]`. */
  function DistanceName(d: Distance): string {
    match d
    case Cosine => "COSINE"
    case Euclid => "EUCLID"
    case Dot => "DOT"
    case Manhattan => "MANHATTAN"
  }

  /** `Distance[name]`: an exact member name, anything else is a KeyError (`None`). */
  function DistanceNamed(name: string): (r: Option<Distance>)
    ensures r.Some? ==> DistanceName(r.value) == name
  {
    if name == "COSINE" then Some(Cosine)
    else if name == "EUCLID" then Some(Euclid)
    else if name == "DOT" then Some(Dot)
    else if name == "MANHATTAN" then Some(Manhattan)
    else None
  }

  /** The lookup accepts every member name and nothing else. */
  lemma DistanceNameRoundTrip(d: Distance, name: string)
    ensures DistanceNamed(DistanceName(d)) == Some(d)
    ensures DistanceNamed(name).None? <==> forall e: Distance :: DistanceName(e) != name
  {
    forall e: Distance ensures DistanceNamed(DistanceName(e)) == Some(e) { }
  }

  /** The lookup is case sensitive: the enum's value spelling is refused. */
  lemma DistanceLookupIsCaseSensitive()
    ensures DistanceNamed("Cosine").None?
    ensures DistanceNamed("cosine").None?
  {
  }

  datatype VectorParams = VectorParams(size: int, distance: Distance)

  /** `vector_size or self.vector_size`: `None` and `0` are falsy and fall
      back to the default; a distance is an enum value and falls back only
      when absent. */
  function EffectiveParams(h: Handler, size: Option<int>, distance: Option<Distance>): (p: VectorParams)
    ensures p.size == h.vectorSize <==> size.None? || size.value == 0 || size.value == h.vectorSize
    ensures size.Some? && size.value != 0 ==> p.size == size.value
    ensures distance.None? ==> p.distance == h.distance
    ensures distance.Some? ==> p.distance == distance.value
  {
    VectorParams(
      if size.None? || size.value == 0 then h.vectorSize else size.value,
      if distance.None? then h.distance else distance.value)
  }

  /** `create_collection` against the server's current list of collection
      names: the creation request, or `None` when the name is taken. */
  function CreateCollection(h: Handler, existing: seq<string>, name: string,
                            size: Option<int>, distance: Option<Distance>): (r: Result<Option<VectorParams>, QdrantError>)
    ensures !h.started ==> r == Failure(NotInitialized)
    ensures h.started ==> r.Success?
    ensures h.started ==> (r.value.Some? <==> name !in existing)
    ensures r.Success? && r.value.Some? ==> r.value.value == EffectiveParams(h, size, distance)
  {
    if !h.started then Failure(NotInitialized)
    else if name in existing then Success(None)
    else Success(Some(EffectiveParams(h, size, distance)))
  }

  /** What the server lists after serving a `create_collection` result:
      the new name is listed once the request has been sent. */
  function Served(existing: seq<string>, name: string, created: Option<VectorParams>): seq<string> {
    if created.Some? then existing + [name] else existing
  }

  /** Creating twice is creating once: the second call asks for nothing
      and leaves the listing as the first call left it. */
  lemma CreateCollectionIdempotent(h: Handler, existing: seq<string>, name: string,
                                   size: Option<int>, distance: Option<Distance>)
    requires h.started
    ensures var first := CreateCollection(h, existing, name, size, distance).value;
            var after := Served(existing, name, first);
            name in after &&
            CreateCollection(h, after, name, size, distance) == Success(None) &&
            Served(after, name, None) == after
  {
    var first := CreateCollection(h, existing, name, size, distance).value;
    if first.Some? {
      assert (existing + [name])[|existing|] == name;
    }
  }

  /** A JSON object payload. */
  type Payload = map<string, Value>

  /** The one `models.Batch` an `add` upserts. */
  datatype Batch = Batch(collection: string, ids: seq<string>, vectors: seq<seq<real>>, payloads: seq<Payload>)

  /** `[str(i) for i in range(n)]`. */
  function DefaultIds(n: nat): (ids: seq<string>)
    ensures |ids| == n
    ensures forall i :: 0 <= i < n ==> ids[i] == NatToString(i)
    ensures forall i :: 0 <= i < n ==> AllDigits(ids[i]) && ParseDigits(ids[i]) == i
  {
    var ids := seq(n, i requires 0 <= i < n => NatToString(i));
    assert forall i :: 0 <= i < n ==> ParseDigits(ids[i]) == i by {
      forall i | 0 <= i < n ensures ParseDigits(ids[i]) == i {
        ParseNatToString(i);
      }
    }
    ids
  }

  /** The default ids are pairwise distinct. */
  lemma DefaultIdsDistinct(n: nat)
    ensures forall i, j :: 0 <= i < j < n ==> DefaultIds(n)[i] != DefaultIds(n)[j]
  {
  }

  /** `add`: the given ids, or the positions of the vectors as strings;
      vectors and payloads are forwarded untouched in one batch. */
  function Add(h: Handler, collection: string, vectors: seq<seq<real>>, payloads: seq<Payload>,
               ids: Option<seq<string>>): (r: Result<Batch, QdrantError>)
    ensures r.Failure? <==> !h.started
    ensures r.Failure? ==> r.error == NotInitialized
    ensures r.Success? ==> r.value.collection == collection
    ensures r.Success? ==> r.value.vectors == vectors && r.value.payloads == payloads
    ensures r.Success? && ids.Some? ==> r.value.ids == ids.value
    ensures r.Success? && ids.None? ==>
      |r.value.ids| == |vectors| &&
      forall i :: 0 <= i < |vectors| ==> r.value.ids[i] == NatToString(i)
  {
    if !h.started then Failure(NotInitialized)
    else Success(Batch(collection, if ids.Some? then ids.value else DefaultIds(|vectors|), vectors, payloads))
  }

  /** The search request the handler sends to the client. */
  datatype SearchRequest = SearchRequest(
    collection: string,
    query: seq<real>,
    limit: int,
    scoreThreshold: Option<real>,
    filter: Option<Filter>)

  /** A scored point as the server returns it. */
  datatype ScoredPoint = ScoredPoint(id: Value, score: real, payload: Payload, version: int)

  /** One entry of `search`'s result: the `{id, score, payload}` dictionary. */
  datatype Hit = Hit(id: Value, score: real, payload: Payload)

  /** The request `search` builds: the threshold is forwarded only when
      given, and a filter only when one of the two filter inputs is. */
  function SearchRequestFor(h: Handler, collection: string, query: seq<real>, limit: int,
                            threshold: Option<real>,
                            payloadFilter: Option<seq<(string, Value)>>,
                            conditions: Option<seq<RawCondition>>,
                            filterType: string): (r: Result<SearchRequest, QdrantError>)
    ensures !h.started ==> r == Failure(NotInitialized)
    ensures h.started ==> (r.Success? <==> BuildFilter(payloadFilter, conditions, filterType).Success?)
    ensures h.started && r.Failure? ==> r.error == InvalidFilter(BuildFilter(payloadFilter, conditions, filterType).error)
    ensures r.Success? ==>
      r.value.collection == collection && r.value.query == query && r.value.limit == limit &&
      r.value.scoreThreshold == threshold
    ensures r.Success? ==> (r.value.filter.Some? <==> payloadFilter.Some? || conditions.Some?)
    ensures r.Success? ==> r.value.filter == BuildFilter(payloadFilter, conditions, filterType).value
  {
    if !h.started then Failure(NotInitialized)
    else
      match BuildFilter(payloadFilter, conditions, filterType)
      case Failure(e) => Failure(InvalidFilter(e))
      case Success(f) => Success(SearchRequest(collection, query, limit, threshold, f))
  }

  /** The result mapping: one hit per scored point, in the server's order. */
  function HitsOf(points: seq<ScoredPoint>): (r: seq<Hit>)
    ensures |r| == |points|
    ensures forall i :: 0 <= i < |points| ==>
      r[i].id == points[i].id && r[i].score == points[i].score && r[i].payload == points[i].payload
  {
    seq(|points|, i requires 0 <= i < |points| => Hit(points[i].id, points[i].score, points[i].payload))
  }

  /** The mapping commutes with concatenation, so order is kept. */
  lemma HitsOfAppend(a: seq<ScoredPoint>, b: seq<ScoredPoint>)
    ensures HitsOf(a + b) == HitsOf(a) + HitsOf(b)
  {
  }

  /** `search`, with the server's ranking, limit and threshold left to
      the opaque `server`. */
  function Search(h: Handler, collection: string, query: seq<real>, limit: int,
                  threshold: Option<real>,
                  payloadFilter: Option<seq<(string, Value)>>,
                  conditions: Option<seq<RawCondition>>,
                  filterType: string,
                  server: SearchRequest -> seq<ScoredPoint>): (r: Result<seq<Hit>, QdrantError>)
    ensures r.Failure? <==>
      SearchRequestFor(h, collection, query, limit, threshold, payloadFilter, conditions, filterType).Failure?
    ensures r.Success? ==>
      var request := SearchRequestFor(h, collection, query, limit, threshold, payloadFilter, conditions, filterType).value;
      r.value == HitsOf(server(request))
  {
    var request :- SearchRequestFor(h, collection, query, limit, threshold, payloadFilter, conditions, filterType);
    Success(HitsOf(server(request)))
  }

  /** Without a client, search fails the same way whatever the server would answer. */
  lemma SearchGuardMakesNoCall(h: Handler, collection: string, query: seq<real>, limit: int,
                               threshold: Option<real>,
                               payloadFilter: Option<seq<(string, Value)>>,
                               conditions: Option<seq<RawCondition>>,
                               filterType: string,
                               server1: SearchRequest -> seq<ScoredPoint>,
                               server2: SearchRequest -> seq<ScoredPoint>)
    requires !h.started
    ensures Search(h, collection, query, limit, threshold, payloadFilter, conditions, filterType, server1)
         == Search(h, collection, query, limit, threshold, payloadFilter, conditions, filterType, server2)
         == Failure(NotInitialized)
  {
  }

  /** An invalid filter type is ignored when there is nothing to filter on. */
  lemma UnknownFilterTypeIgnoredWithoutFilter(h: Handler, collection: string, query: seq<real>,
                                              limit: int, threshold: Option<real>)
    requires h.started
    ensures SearchRequestFor(h, collection, query, limit, threshold, None, None, "nonsense")
         == Success(SearchRequest(collection, query, limit, threshold, None))
  {
  }

  /** The collection requests `manage` can issue. */
  datatype ManageRequest =
    | DeleteCollection(collection: string)
    | UpdateCollection(collection: string, options: Payload)
    | GetCollection(collection: string)

  function ActionName(m: ManageRequest): string {
    match m
    case DeleteCollection(_) => "delete"
    case UpdateCollection(_, _) => "update"
    case GetCollection(_) => "get_info"
  }

  /** `manage`: the guard first, then the three known actions. */
  function Manage(h: Handler, action: string, collection: string, options: Payload): (r: Result<ManageRequest, QdrantError>)
    ensures !h.started ==> r == Failure(NotInitialized)
    ensures h.started ==> (r.Success? <==> action in ["delete", "update", "get_info"])
    ensures h.started && r.Failure? ==> r.error == UnknownAction(action)
    ensures r.Success? ==> ActionName(r.value) == action && r.value.collection == collection
    ensures r.Success? && r.value.UpdateCollection? ==> r.value.options == options
  {
    if !h.started then Failure(NotInitialized)
    else if action == "delete" then Success(DeleteCollection(collection))
    else if action == "update" then Success(UpdateCollection(collection, options))
    else if action == "get_info" then Success(GetCollection(collection))
    else Failure(UnknownAction(action))
  }

  /** Every request `manage` issues is reached again from its action name. */
  lemma ManageRoundTrip(h: Handler, m: ManageRequest)
    requires h.started
    ensures Manage(h, ActionName(m), m.collection, if m.UpdateCollection? then m.options else map[]) == Success(m)
  {
  }

  /** `list_collections`: the server's collection names, in its order. */
  function ListCollections(h: Handler, server: seq<string>): (r: Result<seq<string>, QdrantError>)
    ensures r.Failure? <==> !h.started
    ensures r.Failure? ==> r.error == NotInitialized
    ensures r.Success? ==> r.value == server
  {
    if !h.started then Failure(NotInitialized) else Success(server)
  }

  /** `create_collection` consults the same listing `list_collections`
      returns: it asks for a creation exactly when the name is not listed,
      and once served, the name is listed. */
  lemma CreateFollowsListing(h: Handler, server: seq<string>, name: string,
                             size: Option<int>, distance: Option<Distance>)
    requires h.started
    ensures var listed := ListCollections(h, server);
      && listed.Success?
      && (CreateCollection(h, listed.value, name, size, distance).value.Some? <==> name !in listed.value)
      && name in Served(listed.value, name, CreateCollection(h, listed.value, name, size, distance).value)
  {
    var listed := ListCollections(h, server).value;
    if name !in listed {
      assert (listed + [name])[|listed|] == name;
    }
  }
}
