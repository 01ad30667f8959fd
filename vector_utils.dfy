/** The vector helpers of utils/vector-utils.js: the cosine similarity fold,
    the embedding call's result handling and the random mock embedding.
    Numbers are reals; `Math.sqrt` is the parameter `sqrt`, and the lemmas
    that need its meaning assume `IsSqrt(sqrt)`. */
module VectorUtils {
  import opened Common

  type Vector = seq<real>

  /** `generateMockEmbedding`'s default length (also the ada-002 output size). */
  const DefaultDimensions: nat := 1536

  const LengthError := "Vectors must have the same length"

  /** What `response.data.data[0].embedding` throws when the provider
      returned no embedding at all. */
  const MissingEmbeddingError := "Cannot read properties of undefined (reading 'embedding')"

  /** `a.reduce((sum, val, i) => sum + val * b[i], 0)`: a left fold, so the
      last element is added last. */
  function Dot(a: Vector, b: Vector): (r: real)
    requires |a| == |b|
    ensures IsZero(a) || IsZero(b) ==> r == 0.0
  {
    if |a| == 0 then 0.0
    else Dot(a[..|a| - 1], b[..|b| - 1]) + a[|a| - 1] * b[|b| - 1]
  }

  /** `a.reduce((sum, val) => sum + val * val, 0)`. */
  function SumOfSquares(a: Vector): (r: real)
    ensures 0.0 <= r
  {
    if |a| == 0 then 0.0
    else SumOfSquares(a[..|a| - 1]) + a[|a| - 1] * a[|a| - 1]
  }

  /** `Math.sqrt(SumOfSquares(a))`. */
  function Norm(a: Vector, sqrt: real -> real): (r: real)
    ensures IsSqrt(sqrt) ==> 0.0 <= r && r * r == SumOfSquares(a)
  {
    sqrt(SumOfSquares(a))
  }

  /** `sqrt` behaves as the non-negative square root on non-negative reals
      (the root of zero is stated on its own; it follows from the rest). */
  ghost predicate IsSqrt(sqrt: real -> real) {
    && sqrt(0.0) == 0.0
    && forall x :: 0.0 <= x ==> 0.0 <= sqrt(x) && sqrt(x) * sqrt(x) == x
  }

  /** Every component is zero. */
  predicate IsZero(v: Vector) {
    forall i :: 0 <= i < |v| ==> v[i] == 0.0
  }

  /** A JavaScript number produced by a division of finite operands. */
  datatype JsNumber = Finite(value: real) | NaN | PositiveInfinity | NegativeInfinity

  /** JavaScript `x / y`: a zero divisor gives NaN or an infinity instead of
      failing. */
  function Divide(x: real, y: real): (r: JsNumber)
    ensures r.Finite? <==> y != 0.0
    ensures r.Finite? ==> r.value * y == x
    ensures r == NaN <==> y == 0.0 && x == 0.0
  {
    if y != 0.0 then Finite(x / y)
    else if x == 0.0 then NaN
    else if x > 0.0 then PositiveInfinity
    else NegativeInfinity
  }

  /** `cosineSimilarity(vec1, vec2)`: throws on a length mismatch, otherwise
      divides the dot product by the product of the norms, with no guard for
      a zero norm. */
  function CosineSimilarity(vec1: Vector, vec2: Vector, sqrt: real -> real): (r: Result<JsNumber, string>)
    ensures r.Failure? <==> |vec1| != |vec2|
    ensures r.Failure? ==> r.error == LengthError
  {
    if |vec1| != |vec2| then Failure(LengthError)
    else Success(Divide(Dot(vec1, vec2), Norm(vec1, sqrt) * Norm(vec2, sqrt)))
  }

  lemma {:induction false} DotSymmetric(a: Vector, b: Vector)
    requires |a| == |b|
    ensures Dot(a, b) == Dot(b, a)
  {
    if |a| > 0 {
      DotSymmetric(a[..|a| - 1], b[..|b| - 1]);
    }
  }

  lemma {:induction false} DotSelfIsSumOfSquares(v: Vector)
    ensures Dot(v, v) == SumOfSquares(v)
  {
    if |v| > 0 {
      DotSelfIsSumOfSquares(v[..|v| - 1]);
    }
  }

  /** The result does not depend on the order of the arguments. */
  lemma CosineSimilaritySymmetric(a: Vector, b: Vector, sqrt: real -> real)
    ensures CosineSimilarity(a, b, sqrt) == CosineSimilarity(b, a, sqrt)
  {
    if |a| == |b| {
      DotSymmetric(a, b);
      assert Norm(a, sqrt) * Norm(b, sqrt) == Norm(b, sqrt) * Norm(a, sqrt);
    }
  }

  /** Both norms are non-negative square roots of the sums of squares, and a
      norm is zero exactly for the zero vector. */
  lemma NormIsRootOfSumOfSquares(a: Vector, sqrt: real -> real)
    requires IsSqrt(sqrt)
    ensures 0.0 <= Norm(a, sqrt)
    ensures Norm(a, sqrt) * Norm(a, sqrt) == SumOfSquares(a)
    ensures Norm(a, sqrt) == 0.0 <==> IsZero(a)
  {
    if IsZero(a) {
      ZeroVectorHasNoSquares(a);
    } else {
      NonZeroVectorHasSquares(a);
      var n := Norm(a, sqrt);
      assert n * n == SumOfSquares(a) > 0.0;
    }
  }

  lemma MulPositive(x: real, y: real)
    requires 0.0 < x && 0.0 < y
    ensures 0.0 < x * y
  {
  }

  /** `x * y` with `x == y` kept as two names, which keeps the solver's
      arithmetic on products of distinct terms. */
  lemma ProductOfEqualPositive(x: real, y: real)
    requires x == y && x != 0.0
    ensures 0.0 < x * y
  {
    if x > 0.0 {
      MulPositive(x, y);
    } else {
      MulPositive(-x, -y);
      assert (-x) * (-y) == x * y;
    }
  }

  lemma {:induction false} ZeroVectorHasNoSquares(v: Vector)
    requires IsZero(v)
    ensures SumOfSquares(v) == 0.0
  {
    if |v| > 0 {
      ZeroVectorHasNoSquares(v[..|v| - 1]);
    }
  }

  lemma {:induction false} DotOfEqualPositive(a: Vector, b: Vector)
    requires a == b && !IsZero(a)
    ensures 0.0 < Dot(a, b)
  {
    var n := |a| - 1;
    assert Dot(a, b) == Dot(a[..n], b[..n]) + a[n] * b[n];
    if a[n] != 0.0 {
      ProductOfEqualPositive(a[n], b[n]);
      DotSelfIsSumOfSquares(a[..n]);
    } else {
      var i :| 0 <= i < |a| && a[i] != 0.0;
      assert a[..n][i] == a[i];
      DotOfEqualPositive(a[..n], b[..n]);
      assert a[n] * b[n] == 0.0;
    }
  }

  lemma NonZeroVectorHasSquares(v: Vector)
    requires !IsZero(v)
    ensures 0.0 < SumOfSquares(v)
  {
    DotOfEqualPositive(v, v);
    DotSelfIsSumOfSquares(v);
  }

  lemma {:induction false} DotWithZero(a: Vector, b: Vector)
    requires |a| == |b|
    requires IsZero(a) || IsZero(b)
    ensures Dot(a, b) == 0.0
  {
    if |a| > 0 {
      DotWithZero(a[..|a| - 1], b[..|b| - 1]);
    }
  }

  /** The missing zero-vector guard: with a zero vector on either side the
      divisor and the dividend are both zero, so the result is NaN. */
  lemma ZeroVectorGivesNaN(a: Vector, b: Vector, sqrt: real -> real)
    requires IsSqrt(sqrt)
    requires |a| == |b|
    requires IsZero(a) || IsZero(b)
    ensures CosineSimilarity(a, b, sqrt) == Success(NaN)
  {
    DotWithZero(a, b);
    NormIsRootOfSumOfSquares(a, sqrt);
    NormIsRootOfSumOfSquares(b, sqrt);
  }

  /** With two non-zero vectors of equal length the result is a finite number. */
  lemma NonZeroVectorsGiveFinite(a: Vector, b: Vector, sqrt: real -> real)
    requires IsSqrt(sqrt)
    requires |a| == |b|
    requires !IsZero(a) && !IsZero(b)
    ensures CosineSimilarity(a, b, sqrt).Success?
    ensures CosineSimilarity(a, b, sqrt).value.Finite?
  {
    NormIsRootOfSumOfSquares(a, sqrt);
    NormIsRootOfSumOfSquares(b, sqrt);
    MulPositive(Norm(a, sqrt), Norm(b, sqrt));
  }

  /** A non-zero vector is perfectly similar to itself. */
  lemma SelfSimilarityIsOne(v: Vector, sqrt: real -> real)
    requires IsSqrt(sqrt)
    requires !IsZero(v)
    ensures CosineSimilarity(v, v, sqrt) == Success(Finite(1.0))
  {
    DotSelfIsSumOfSquares(v);
    NormIsRootOfSumOfSquares(v, sqrt);
    NonZeroVectorHasSquares(v);
    QuotientOfEqual(Dot(v, v), Norm(v, sqrt) * Norm(v, sqrt));
  }

  lemma QuotientOfEqual(x: real, y: real)
    requires x == y && y != 0.0
    ensures x / y == 1.0
  {
  }

  /** `generateEmbedding(text)`: `response` stands for the provider's reply to
      the request for `text` (its list of embeddings, or the error it threw).
      The first embedding is returned; a provider error is rethrown as is. */
  function GenerateEmbedding(response: Result<seq<Vector>, string>): (r: Result<Vector, string>)
    ensures response.Failure? ==> r == Failure(response.error)
    ensures response.Success? && |response.value| > 0 ==> r == Success(response.value[0])
    ensures response == Success([]) ==> r == Failure(MissingEmbeddingError)
  {
    match response
    case Failure(e) => Failure(e)
    case Success(data) => if |data| == 0 then Failure(MissingEmbeddingError) else Success(data[0])
  }

  /** The length `Array.from({ length: d })` produces: negative lengths clamp to 0. */
  function ArrayLength(d: int): nat {
    if d < 0 then 0 else d
  }

  /** `generateMockEmbedding(dimensions = 1536)`: component `i` is
      `draws[i] * 2 - 1`, where `draws` are the successive `Math.random()`
      values, each in [0, 1). */
  function MockEmbedding(dimensions: Option<int>, draws: seq<real>): (v: Vector)
    requires ArrayLength(dimensions.GetOr(DefaultDimensions)) <= |draws|
    requires forall i :: 0 <= i < |draws| ==> 0.0 <= draws[i] < 1.0
    ensures |v| == ArrayLength(dimensions.GetOr(DefaultDimensions))
    ensures dimensions.None? ==> |v| == 1536
    ensures forall i :: 0 <= i < |v| ==> -1.0 <= v[i] < 1.0
  {
    var n := ArrayLength(dimensions.GetOr(DefaultDimensions));
    seq(n, i requires 0 <= i < n => draws[i] * 2.0 - 1.0)
  }
}
