/** The HTTP layer: each endpoint starts the shared vector-store handler
    if needed, calls the embedding client and the handler, and turns any
    failure into an HTTP 500 carrying the cause. Endpoints take the
    handler and return the response together with the handler as it is
    afterwards. Fresh point ids come from the `freshId` argument. */
module FlareApi {
  import opened Results
  import opened QdrantFilter
  import opened QdrantHandler
  import opened BgeEmbedding

  datatype ApiError =
    | Storage(storageCause: QdrantError)
    | Embedding(embedCause: EmbedError)
    | UnknownDistance(name: string)     // `Distance[name]` raises KeyError

  datatype Response<T> = Ok(body: T) | Http500(cause: ApiError)

  /** The handler as the module creates it: default configuration, no client. */
  const InitialHandler: Handler := NewHandler(DefaultVectorSize, DefaultDistance)

  /** `ensure_handler_initialized`: start the client only when there is none. */
  function EnsureHandlerInitialized(h: Handler): (h': Handler)
    ensures h'.started
    ensures h'.vectorSize == h.vectorSize && h'.distance == h.distance
    ensures h.started ==> h' == h
  {
    if !h.started then Start(h) else h
  }

  lemma EnsureHandlerInitializedIdempotent(h: Handler)
    ensures EnsureHandlerInitialized(EnsureHandlerInitialized(h)) == EnsureHandlerInitialized(h)
  {
  }

  /** The body of `/collection/create`. */
  datatype CollectionConfig = CollectionConfig(name: string, vectorSize: int, distance: string)

  const DefaultCollectionConfig: CollectionConfig := CollectionConfig("default_collection", 1024, "COSINE")

  /** `/collection/create`: the distance must be an exact member name; the
      response carries the creation request, `None` when the name was
      already taken (the endpoint reports success either way). */
  function CreateCollectionEndpoint(h: Handler, config: CollectionConfig, existing: seq<string>): (out: (Response<Option<VectorParams>>, Handler))
    ensures out.1 == EnsureHandlerInitialized(h)
    ensures out.0.Http500? <==> DistanceNamed(config.distance).None?
    ensures out.0.Http500? ==> out.0.cause == UnknownDistance(config.distance)
    ensures out.0.Ok? ==> (out.0.body.Some? <==> config.name !in existing)
    ensures out.0.Ok? && out.0.body.Some? ==>
      DistanceName(out.0.body.value.distance) == config.distance &&
      out.0.body.value.size == (if config.vectorSize == 0 then h.vectorSize else config.vectorSize)
  {
    var h' := EnsureHandlerInitialized(h);
    match DistanceNamed(config.distance)
    case None => (Http500(UnknownDistance(config.distance)), h')
    case Some(d) =>
      var created := CreateCollection(h', existing, config.name, Some(config.vectorSize), Some(d));
      (Ok(created.value), h')
  }

  /** The body of `/add`. */
  datatype VectorRequest = VectorRequest(collection: string, chunk: string, payloads: seq<Payload>)

  /** Each payload copied with "text" set to the chunk. */
  function MergePayloads(payloads: seq<Payload>, chunk: string): (r: seq<Payload>)
    ensures |r| == |payloads|
    ensures forall i :: 0 <= i < |r| ==> "text" in r[i] && r[i]["text"] == Str(chunk)
    ensures forall i :: 0 <= i < |r| ==> r[i].Keys == payloads[i].Keys + {"text"}
    ensures forall i, k :: 0 <= i < |r| && k in payloads[i] && k != "text" ==> r[i][k] == payloads[i][k]
  {
    seq(|payloads|, i requires 0 <= i < |payloads| => payloads[i]["text" := Str(chunk)])
  }

  /** Merging is per payload, so it commutes with concatenation. */
  lemma MergePayloadsAppend(a: seq<Payload>, b: seq<Payload>, chunk: string)
    ensures MergePayloads(a + b, chunk) == MergePayloads(a, chunk) + MergePayloads(b, chunk)
  {
  }

  /** Merging twice with the same chunk changes nothing more. */
  lemma MergePayloadsIdempotent(payloads: seq<Payload>, chunk: string)
    ensures MergePayloads(MergePayloads(payloads, chunk), chunk) == MergePayloads(payloads, chunk)
  {
    var once := MergePayloads(payloads, chunk);
    var twice := MergePayloads(once, chunk);
    forall i | 0 <= i < |once| ensures twice[i] == once[i] {
      assert twice[i].Keys == once[i].Keys;
    }
  }

  /** What `/add` reports: the point id, and the batch it upserted. */
  datatype Added = Added(id: string, batch: Batch)

  /** `/add`: one embedding of the chunk, one fresh id, all payloads. */
  function AddEndpoint(h: Handler, request: VectorRequest, service: string -> ServiceReply, freshId: string): (out: (Response<Added>, Handler))
    ensures out.1 == EnsureHandlerInitialized(h)
    ensures out.0.Http500? <==> GetEmbedding(request.chunk, service).Failure?
    ensures out.0.Http500? ==> out.0.cause == Embedding(GetEmbedding(request.chunk, service).error)
    ensures out.0.Ok? ==>
      var batch := out.0.body.batch;
      && out.0.body.id == freshId
      && batch.collection == request.collection
      && batch.ids == [freshId]
      && batch.vectors == [GetEmbedding(request.chunk, service).value]
      && batch.payloads == MergePayloads(request.payloads, request.chunk)
  {
    var h' := EnsureHandlerInitialized(h);
    match GetEmbedding(request.chunk, service)
    case Failure(e) => (Http500(Embedding(e)), h')
    case Success(vector) =>
      var batch := Add(h', request.collection, [vector], MergePayloads(request.payloads, request.chunk), Some([freshId]));
      (Ok(Added(freshId, batch.value)), h')
  }

  /** One id and one vector are sent whatever the number of payloads, so
      the batch is unbalanced unless exactly one payload is given. */
  lemma AddBatchBalancedOnlyForOnePayload(h: Handler, request: VectorRequest, service: string -> ServiceReply, freshId: string)
    requires AddEndpoint(h, request, service, freshId).0.Ok?
    ensures var batch := AddEndpoint(h, request, service, freshId).0.body.batch;
      |batch.ids| == |batch.vectors| == 1 &&
      (|batch.payloads| == |batch.ids| <==> |request.payloads| == 1)
  {
  }

  /** The body of `/search`. */
  datatype SearchBody = SearchBody(
    collection: string,
    query: string,
    limit: int,
    scoreThreshold: Option<real>,
    payloadFilter: Option<seq<(string, Value)>>,
    filterConditions: Option<seq<RawCondition>>,
    filterType: string)

  const DefaultLimit: int := 10
  const DefaultFilterType: string := "must"

  /** `/search`: the query is embedded, then searched with the caller's filters. */
  function SearchEndpoint(h: Handler, request: SearchBody, service: string -> ServiceReply,
                          server: SearchRequest -> seq<ScoredPoint>): (out: (Response<seq<Hit>>, Handler))
    ensures out.1 == EnsureHandlerInitialized(h)
    ensures GetEmbedding(request.query, service).Failure? ==>
      out.0 == Http500(Embedding(GetEmbedding(request.query, service).error))
    ensures GetEmbedding(request.query, service).Success? ==>
      (out.0.Http500? <==>
        BuildFilter(request.payloadFilter, request.filterConditions, request.filterType).Failure?)
    ensures out.0.Http500? ==> out.0.cause != Storage(NotInitialized)
    ensures GetEmbedding(request.query, service).Success? && out.0.Http500? ==>
      out.0.cause == Storage(InvalidFilter(
        BuildFilter(request.payloadFilter, request.filterConditions, request.filterType).error))
    ensures out.0.Ok? ==> out.0.body == Search(out.1, request.collection, GetEmbedding(request.query, service).value,
      request.limit, request.scoreThreshold, request.payloadFilter, request.filterConditions, request.filterType, server).value
  {
    var h' := EnsureHandlerInitialized(h);
    match GetEmbedding(request.query, service)
    case Failure(e) => (Http500(Embedding(e)), h')
    case Success(vector) =>
      match Search(h', request.collection, vector, request.limit, request.scoreThreshold,
                   request.payloadFilter, request.filterConditions, request.filterType, server)
      case Failure(e) => (Http500(Storage(e)), h')
      case Success(hits) => (Ok(hits), h')
  }

  /** `DELETE /collection/{name}`: never fails before reaching the client. */
  function DeleteCollectionEndpoint(h: Handler, name: string): (out: (Response<ManageRequest>, Handler))
    ensures out.1 == EnsureHandlerInitialized(h)
    ensures out.0 == Ok(DeleteCollection(name))
  {
    var h' := EnsureHandlerInitialized(h);
    match Manage(h', "delete", name, map[])
    case Failure(e) => (Http500(Storage(e)), h')
    case Success(request) => (Ok(request), h')
  }

  /** `GET /collection/{name}/info`. */
  function CollectionInfoEndpoint(h: Handler, name: string): (out: (Response<ManageRequest>, Handler))
    ensures out.1 == EnsureHandlerInitialized(h)
    ensures out.0 == Ok(GetCollection(name))
  {
    var h' := EnsureHandlerInitialized(h);
    match Manage(h', "get_info", name, map[])
    case Failure(e) => (Http500(Storage(e)), h')
    case Success(request) => (Ok(request), h')
  }

  /** `GET /collections`. */
  function ListCollectionsEndpoint(h: Handler, server: seq<string>): (out: (Response<seq<string>>, Handler))
    ensures out.1 == EnsureHandlerInitialized(h)
    ensures out.0 == Ok(server)
  {
    var h' := EnsureHandlerInitialized(h);
    match ListCollections(h', server)
    case Failure(e) => (Http500(Storage(e)), h')
    case Success(names) => (Ok(names), h')
  }

  /** The first request of any kind starts the handler, and later requests
      find it started. */
  lemma FirstRequestStartsHandler(config: CollectionConfig, existing: seq<string>, name: string)
    ensures !InitialHandler.started
    ensures CreateCollectionEndpoint(InitialHandler, config, existing).1.started
    ensures var h := CreateCollectionEndpoint(InitialHandler, config, existing).1;
      DeleteCollectionEndpoint(h, name).1 == h
  {
  }
}
