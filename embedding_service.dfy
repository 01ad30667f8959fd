/** services/embedding-service.js: the second copy of the cosine fold and
    the embedding call that wraps provider errors. */
module EmbeddingService {
  import opened Common
  import opened VectorUtils

  const DimensionError := "Vectors must have the same dimensions"
  const EmbeddingErrorPrefix := "Failed to generate embedding: "

  /** `calculateCosineSimilarity(vectorA, vectorB)`: the same folds as
      `cosineSimilarity`, under another error message. */
  function CalculateCosineSimilarity(vectorA: Vector, vectorB: Vector, sqrt: real -> real): (r: Result<JsNumber, string>)
    ensures r.Failure? <==> |vectorA| != |vectorB|
    ensures r.Failure? ==> r.error == DimensionError
  {
    if |vectorA| != |vectorB| then Failure(DimensionError)
    else
      var dotProduct := Dot(vectorA, vectorB);
      var magnitudeA := Norm(vectorA, sqrt);
      var magnitudeB := Norm(vectorB, sqrt);
      Success(Divide(dotProduct, magnitudeA * magnitudeB))
  }

  /** The two copies compute the same number and reject the same inputs;
      only the error message differs. */
  lemma CopiesAgree(a: Vector, b: Vector, sqrt: real -> real)
    ensures CalculateCosineSimilarity(a, b, sqrt).Success? == CosineSimilarity(a, b, sqrt).Success?
    ensures CalculateCosineSimilarity(a, b, sqrt).Success? ==>
              CalculateCosineSimilarity(a, b, sqrt).value == CosineSimilarity(a, b, sqrt).value
  {
  }

  lemma CalculateCosineSimilaritySymmetric(a: Vector, b: Vector, sqrt: real -> real)
    ensures CalculateCosineSimilarity(a, b, sqrt) == CalculateCosineSimilarity(b, a, sqrt)
  {
    CosineSimilaritySymmetric(a, b, sqrt);
    CopiesAgree(a, b, sqrt);
    CopiesAgree(b, a, sqrt);
  }

  /** Magnitudes are non-negative, and the result is NaN for a zero vector
      and a finite number otherwise. */
  lemma CalculateCosineSimilarityZeroCases(a: Vector, b: Vector, sqrt: real -> real)
    requires IsSqrt(sqrt)
    requires |a| == |b|
    ensures 0.0 <= Norm(a, sqrt) && 0.0 <= Norm(b, sqrt)
    ensures CalculateCosineSimilarity(a, b, sqrt).value == NaN <==> IsZero(a) || IsZero(b)
  {
    NormIsRootOfSumOfSquares(a, sqrt);
    NormIsRootOfSumOfSquares(b, sqrt);
    CopiesAgree(a, b, sqrt);
    if IsZero(a) || IsZero(b) {
      ZeroVectorGivesNaN(a, b, sqrt);
    } else {
      NonZeroVectorsGiveFinite(a, b, sqrt);
    }
  }

  /** `generateEmbedding(text)`: `response` is the provider's reply to the
      request for `text` under the configured model. The first embedding is
      returned; any failure, including an empty reply, is rethrown with the
      prefix "Failed to generate embedding: ". */
  function GenerateEmbedding(response: Result<seq<Vector>, string>): (r: Result<Vector, string>)
    ensures response.Success? && |response.value| > 0 ==> r == Success(response.value[0])
    ensures response.Failure? ==> r == Failure(EmbeddingErrorPrefix + response.error)
    ensures response == Success([]) ==> r == Failure(EmbeddingErrorPrefix + MissingEmbeddingError)
  {
    match response
    case Failure(e) => Failure(EmbeddingErrorPrefix + e)
    case Success(data) =>
      if |data| == 0 then Failure(EmbeddingErrorPrefix + MissingEmbeddingError)
      else Success(data[0])
  }

  /** Against the helper in utils/vector-utils.js: the same embedding on
      success, the same error message behind the prefix on failure. */
  lemma GenerateEmbeddingWrapsErrors(response: Result<seq<Vector>, string>)
    ensures GenerateEmbedding(response).Success? == VectorUtils.GenerateEmbedding(response).Success?
    ensures GenerateEmbedding(response).Success? ==>
              GenerateEmbedding(response).value == VectorUtils.GenerateEmbedding(response).value
    ensures GenerateEmbedding(response).Failure? ==>
              GenerateEmbedding(response).error == EmbeddingErrorPrefix + VectorUtils.GenerateEmbedding(response).error
  {
  }
}
