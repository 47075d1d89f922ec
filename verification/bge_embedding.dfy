/** `BGEEmbedding`: the client of the embedding service. The HTTP call is
    the opaque `service`, the Euclidean norm the opaque `norm`; vectors
    are sequences of reals. */
module BgeEmbedding {
  import opened Results
  import opened TextUtil

  type Vector = seq<real>
  type Matrix = seq<seq<real>>

  /** What the service call yields: an HTTP error, or the decoded JSON
      body with its "embeddings" entry (`None` when the key is missing). */
  datatype ServiceReply = HttpFailure(message: string) | Reply(embeddings: Option<Matrix>)

  datatype EmbedError =
    | EmptyText
    | ServiceFailed(message: string)
    | MissingEmbeddings
    | RaggedEmbeddings          // `np.array` refuses rows of different lengths
    | EmptyEmbedding
    | EmptyTextList
    | ShapeMismatch             // `np.dot` of vectors of different lengths

  /** Every row has the same length. */
  predicate Rectangular(m: Matrix) {
    forall i, j :: 0 <= i < |m| && 0 <= j < |m| ==> |m[i]| == |m[j]|
  }

  /** `ndarray.flatten()`: the rows one after another. */
  function Flatten(m: Matrix): (r: Vector)
    ensures |m| == 0 ==> r == []
    decreases |m|
  {
    if |m| == 0 then [] else m[0] + Flatten(m[1..])
  }

  /** Every row of `m` has length `w`. */
  predicate HasWidth(m: Matrix, w: nat) {
    forall i :: 0 <= i < |m| ==> |m[i]| == w
  }

  /** Entry `(i, j)` of a matrix of width `w` sits at `i * w + j` of `v`. */
  predicate RowMajor(v: Vector, m: Matrix, w: nat) {
    |v| == |m| * w &&
    forall i, j :: 0 <= i < |m| && 0 <= j < |m[i]| ==> j < w && i * w + j < |v| && v[i * w + j] == m[i][j]
  }

  lemma {:induction false} FlattenLength(m: Matrix, w: nat)
    requires HasWidth(m, w)
    ensures |Flatten(m)| == |m| * w
    decreases |m|
  {
    if |m| > 0 {
      FlattenLength(m[1..], w);
      assert |Flatten(m)| == w + (|m| - 1) * w;
    }
  }

  lemma {:induction false} FlattenEntry(m: Matrix, w: nat, i: nat, j: nat)
    requires HasWidth(m, w)
    requires i < |m| && j < w
    ensures i * w + j < |Flatten(m)| && Flatten(m)[i * w + j] == m[i][j]
    decreases i
  {
    FlattenLength(m, w);
    FlattenLength(m[1..], w);
    assert Flatten(m) == m[0] + Flatten(m[1..]);
    if i > 0 {
      FlattenEntry(m[1..], w, i - 1, j);
      assert i * w + j == w + ((i - 1) * w + j);
    }
  }

  /** Flattening is row-major. */
  lemma FlattenRowMajor(m: Matrix, w: nat)
    requires HasWidth(m, w)
    ensures RowMajor(Flatten(m), m, w)
  {
    FlattenLength(m, w);
    forall i, j | 0 <= i < |m| && 0 <= j < |m[i]| ensures j < w && i * w + j < |Flatten(m)| && Flatten(m)[i * w + j] == m[i][j] {
      FlattenEntry(m, w, i, j);
    }
  }

  /** `get_embedding`: blank text is refused before the service is called;
      the reply must carry a rectangular, non-empty "embeddings" matrix,
      which is returned flattened. Only the number of rows is checked, so
      a single empty row passes. */
  function GetEmbedding(text: string, service: string -> ServiceReply): (r: Result<Vector, EmbedError>)
    ensures AllSpace(text) ==> r == Failure(EmptyText)
    ensures !AllSpace(text) && service(text).HttpFailure? ==> r == Failure(ServiceFailed(service(text).message))
    ensures !AllSpace(text) && service(text) == Reply(None) ==> r == Failure(MissingEmbeddings)
    ensures !AllSpace(text) && service(text).Reply? && service(text).embeddings.Some? ==>
      var m := service(text).embeddings.value;
      && (!Rectangular(m) ==> r == Failure(RaggedEmbeddings))
      && (|m| == 0 ==> r == Failure(EmptyEmbedding))
    ensures r.Success? <==>
      !AllSpace(text) && service(text).Reply? && service(text).embeddings.Some? &&
      Rectangular(service(text).embeddings.value) && |service(text).embeddings.value| > 0
    ensures r.Success? ==>
      var m := service(text).embeddings.value;
      RowMajor(r.value, m, |m[0]|)
  {
    if Strip(text) == [] then Failure(EmptyText)
    else
      match service(text)
      case HttpFailure(message) => Failure(ServiceFailed(message))
      case Reply(None) => Failure(MissingEmbeddings)
      case Reply(Some(m)) =>
        if !Rectangular(m) then Failure(RaggedEmbeddings)
        else if |m| == 0 then Failure(EmptyEmbedding)
        else
          assert HasWidth(m, |m[0]|);
          FlattenRowMajor(m, |m[0]|);
          Success(Flatten(m))
  }

  /** Blank text fails the same way whatever the service would answer. */
  lemma BlankTextNeverReachesService(text: string, service1: string -> ServiceReply, service2: string -> ServiceReply)
    requires Strip(text) == []
    ensures GetEmbedding(text, service1) == GetEmbedding(text, service2) == Failure(EmptyText)
  {
  }

  /** A reply holding one empty row passes the emptiness check and gives
      the empty vector. */
  lemma EmptyRowPasses(text: string, service: string -> ServiceReply)
    requires !AllSpace(text)
    requires service(text) == Reply(Some([[]]))
    ensures GetEmbedding(text, service) == Success([])
  {
    assert Flatten([[]]) == [] + Flatten([]);
  }

  /** The embedding client for one service, as a function of the text. */
  function EmbedWith(service: string -> ServiceReply): string -> Result<Vector, EmbedError> {
    t => GetEmbedding(t, service)
  }

  /** The `get_embeddings` loop as a reference: every text embedded in
      order, the first failure aborting. */
  function EmbedAll(texts: seq<string>, embed: string -> Result<Vector, EmbedError>): (r: Result<Matrix, EmbedError>)
    ensures r.Success? <==> forall i :: 0 <= i < |texts| ==> embed(texts[i]).Success?
    ensures r.Success? ==>
      && |r.value| == |texts|
      && forall i :: 0 <= i < |texts| ==> embed(texts[i]) == Success(r.value[i])
    ensures r.Failure? ==>
      exists k :: 0 <= k < |texts|
        && embed(texts[k]) == Failure(r.error)
        && forall j :: 0 <= j < k ==> embed(texts[j]).Success?
    decreases |texts|
  {
    if texts == [] then Success([])
    else
      var first := embed(texts[0]);
      if first.Failure? then Failure(first.error)
      else
        var tail := texts[1..];
        var rest := EmbedAll(tail, embed);
        assert forall i :: 1 <= i < |texts| ==> texts[i] == tail[i - 1];
        if rest.Failure? then
          var k :| 0 <= k < |tail| && embed(tail[k]) == Failure(rest.error)
            && forall j :: 0 <= j < k ==> embed(tail[j]).Success?;
          assert embed(texts[k + 1]) == Failure(rest.error);
          Failure(rest.error)
        else Success([first.value] + rest.value)
  }

  /** `get_embeddings`: an empty list is refused; the collected vectors go
      through `np.array`, which refuses rows of different lengths. */
  function EmbedBatch(texts: seq<string>, service: string -> ServiceReply): Result<Matrix, EmbedError> {
    if |texts| == 0 then Failure(EmptyTextList)
    else
      var vectors :- EmbedAll(texts, EmbedWith(service));
      if Rectangular(vectors) then Success(vectors) else Failure(RaggedEmbeddings)
  }

  /** The `get_embeddings` loop, proved equal to the reference. */
  method GetEmbeddings(texts: seq<string>, service: string -> ServiceReply) returns (r: Result<Matrix, EmbedError>)
    ensures r == EmbedBatch(texts, service)
    ensures |texts| == 0 ==> r == Failure(EmptyTextList)
    ensures r.Success? ==>
      && |r.value| == |texts|
      && Rectangular(r.value)
      && forall i :: 0 <= i < |texts| ==> GetEmbedding(texts[i], service) == Success(r.value[i])
  {
    if |texts| == 0 {
      return Failure(EmptyTextList);
    }
    var vectors: Matrix := [];
    var i := 0;
    while i < |texts|
      invariant 0 <= i <= |texts|
      invariant |vectors| == i
      invariant forall j :: 0 <= j < i ==> GetEmbedding(texts[j], service) == Success(vectors[j])
    {
      var e := GetEmbedding(texts[i], service);
      if e.Failure? {
        return Failure(e.error);
      }
      vectors := vectors + [e.value];
      i := i + 1;
    }
    assert EmbedAll(texts, EmbedWith(service)).value == vectors;
    if !Rectangular(vectors) {
      return Failure(RaggedEmbeddings);
    }
    return Success(vectors);
  }

  /** `np.dot` of two vectors of the same length. */
  function Dot(a: Vector, b: Vector): real
    requires |a| == |b|
    decreases |a|
  {
    if |a| == 0 then 0.0 else a[0] * b[0] + Dot(a[1..], b[1..])
  }

  lemma {:induction false} DotSymmetric(a: Vector, b: Vector)
    requires |a| == |b|
    ensures Dot(a, b) == Dot(b, a)
    decreases |a|
  {
    if |a| > 0 {
      DotSymmetric(a[1..], b[1..]);
    }
  }

  /** `np.clip(x, -1.0, 1.0)`. */
  function Clip(x: real): (r: real)
    ensures -1.0 <= r <= 1.0
    ensures -1.0 <= x <= 1.0 ==> r == x
    ensures x < -1.0 ==> r == -1.0
    ensures x > 1.0 ==> r == 1.0
  {
    if x < -1.0 then -1.0 else if x > 1.0 then 1.0 else x
  }

  /** `np.dot(a, b) / (norm1 * norm2)`. */
  function Cosine(a: Vector, b: Vector, norm: Vector -> real): real
    requires |a| == |b| && norm(a) != 0.0 && norm(b) != 0.0
  {
    Dot(a, b) / (norm(a) * norm(b))
  }

  lemma CosineSymmetric(a: Vector, b: Vector, norm: Vector -> real)
    requires |a| == |b| && norm(a) != 0.0 && norm(b) != 0.0
    ensures Cosine(a, b, norm) == Cosine(b, a, norm)
  {
    DotSymmetric(a, b);
    assert norm(a) * norm(b) == norm(b) * norm(a);
  }

  /** The cosine part of `compute_similarity`: 0.0 when either norm is
      zero (checked before the lengths), otherwise the clipped cosine. */
  function Similarity(a: Vector, b: Vector, norm: Vector -> real): (r: Result<real, EmbedError>)
    ensures norm(a) == 0.0 || norm(b) == 0.0 ==> r == Success(0.0)
    ensures norm(a) != 0.0 && norm(b) != 0.0 ==> (r.Failure? <==> |a| != |b|)
    ensures r.Failure? ==> r.error == ShapeMismatch
    ensures r.Success? ==> -1.0 <= r.value <= 1.0
    ensures r.Success? && norm(a) != 0.0 && norm(b) != 0.0 ==>
      && |a| == |b|
      && (-1.0 <= Cosine(a, b, norm) <= 1.0 ==> r.value == Cosine(a, b, norm))
      && (Cosine(a, b, norm) > 1.0 ==> r.value == 1.0)
      && (Cosine(a, b, norm) < -1.0 ==> r.value == -1.0)
  {
    if norm(a) == 0.0 || norm(b) == 0.0 then Success(0.0)
    else if |a| != |b| then Failure(ShapeMismatch)
    else Success(Clip(Cosine(a, b, norm)))
  }

  lemma SimilaritySymmetric(a: Vector, b: Vector, norm: Vector -> real)
    ensures Similarity(a, b, norm) == Similarity(b, a, norm)
  {
    if |a| == |b| && norm(a) != 0.0 && norm(b) != 0.0 {
      CosineSymmetric(a, b, norm);
    }
  }

  /** A non-zero vector is fully similar to itself when the norm squares
      to its self dot product. */
  lemma SelfSimilarityIsOne(a: Vector, norm: Vector -> real)
    requires 0.0 < Dot(a, a) && norm(a) * norm(a) == Dot(a, a)
    ensures Similarity(a, a, norm) == Success(1.0)
  {
    var n, d := norm(a), Dot(a, a);
    ClipOfSelfRatio(n, d);
    assert Cosine(a, a, norm) == d / (n * n);
    assert Similarity(a, a, norm) == Success(Clip(Cosine(a, a, norm)));
  }

  lemma ClipOfSelfRatio(n: real, d: real)
    requires 0.0 < d && n * n == d
    ensures n != 0.0
    ensures Clip(d / (n * n)) == 1.0
  {
    var q := n * n;
    assert q == d;
    DivideBySelf(d);
  }

  lemma DivideBySelf(d: real)
    requires d != 0.0
    ensures d / d == 1.0
  {
  }

  /** `compute_similarity`: both texts are embedded, the first one first. */
  function ComputeSimilarity(text1: string, text2: string, service: string -> ServiceReply,
                             norm: Vector -> real): (r: Result<real, EmbedError>)
    ensures GetEmbedding(text1, service).Failure? ==> r == Failure(GetEmbedding(text1, service).error)
    ensures GetEmbedding(text1, service).Success? && GetEmbedding(text2, service).Failure? ==>
      r == Failure(GetEmbedding(text2, service).error)
    ensures r.Success? ==> -1.0 <= r.value <= 1.0
    ensures GetEmbedding(text1, service).Success? && GetEmbedding(text2, service).Success? ==>
      r == Similarity(GetEmbedding(text1, service).value, GetEmbedding(text2, service).value, norm)
  {
    var e1 :- GetEmbedding(text1, service);
    var e2 :- GetEmbedding(text2, service);
    Similarity(e1, e2, norm)
  }

  /** When both texts embed, the order of the texts does not matter. */
  lemma ComputeSimilaritySymmetric(text1: string, text2: string, service: string -> ServiceReply,
                                   norm: Vector -> real)
    requires GetEmbedding(text1, service).Success? && GetEmbedding(text2, service).Success?
    ensures ComputeSimilarity(text1, text2, service, norm) == ComputeSimilarity(text2, text1, service, norm)
  {
    SimilaritySymmetric(GetEmbedding(text1, service).value, GetEmbedding(text2, service).value, norm);
  }
}
