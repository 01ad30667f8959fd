/** The replacement `match_memories` of fix-match-memories.js: the same
    WHERE, ORDER BY and LIMIT over `ai_memory`, returning the row id under
    the name `memory_id` and the columns in the order
    `(memory_id, content, metadata, similarity)`. */
module FixMatchMemories {
  import opened Common
  import opened Json
  import opened Ranking
  import opened AiMemoryTable
  import VectorUtils

  /** One row of the replacement's result table. */
  datatype FixedMatch = FixedMatch(memoryId: string, content: string, metadata: Metadata, similarity: real)

  /** The replacement's SELECT list. */
  function ToFixedMatch(s: Scored<Row>): FixedMatch {
    FixedMatch(s.item.id, s.item.content, s.item.metadata, s.similarity)
  }

  function ToFixedMatches(s: seq<Scored<Row>>): (r: seq<FixedMatch>)
    ensures |r| == |s|
    ensures forall i :: 0 <= i < |s| ==> r[i] == ToFixedMatch(s[i])
  {
    seq(|s|, i requires 0 <= i < |s| => ToFixedMatch(s[i]))
  }

  /** The replacement `match_memories`: it qualifies every column with the
      alias `m`, so nothing clashes with its output parameters, and it fails
      only as `CallError` says. */
  function MatchMemoriesFixed(table: seq<Row>, q: Vector, threshold: real, count: int,
                              dist: (Vector, Vector) -> real): (r: Result<seq<FixedMatch>, TableError>)
    ensures r.Failure? <==>
              || !(0 < |q| <= MaxDimensions)
              || count < 0
              || (count > 0 && exists i :: 0 <= i < |table| && table[i].embedding.Some? &&
                                          |table[i].embedding.value| != |q|)
    ensures count == 0 && ValidVector(q) ==> r == Success([])
  {
    match CallError(table, q, count)
    case Some(e) => Failure(e)
    case None => Success(ToFixedMatches(Rank(Candidates(table, q, dist), threshold, count)))
  }

  /** The two definitions succeed and fail together, return the same number
      of rows, and agree row by row on every column but the id's name. */
  lemma FixedAgreesWithOriginal(table: seq<Row>, q: Vector, threshold: real, count: int,
                                dist: (Vector, Vector) -> real)
    ensures var fixed := MatchMemoriesFixed(table, q, threshold, count, dist);
            var original := MatchMemories(table, q, threshold, count, dist);
            && (fixed.Failure? <==> original.Failure?)
            && (fixed.Failure? ==> fixed.error == original.error)
            && (fixed.Success? ==>
                  && |fixed.value| == |original.value|
                  && forall i :: 0 <= i < |fixed.value| ==>
                       && fixed.value[i].memoryId == original.value[i].id
                       && fixed.value[i].content == original.value[i].content
                       && fixed.value[i].metadata == original.value[i].metadata
                       && fixed.value[i].similarity == original.value[i].similarity)
  {
  }

  /** The script's own check of the new function: a 1536-wide query built
      from `Math.random()` draws, threshold 0.5 and count 5, succeeds on a
      table that keeps its declared width and returns at most five rows,
      each above 0.5. */
  lemma SelfTestAtMostFive(table: seq<Row>, draws: seq<real>, dist: (Vector, Vector) -> real)
    requires WellFormed(table)
    requires |draws| >= EmbeddingDimensions
    requires forall i :: 0 <= i < |draws| ==> 0.0 <= draws[i] < 1.0
    ensures var q := VectorUtils.MockEmbedding(Some(1536), draws);
            var r := MatchMemoriesFixed(table, q, 0.5, 5, dist);
            && r.Success?
            && |r.value| <= 5
            && forall i :: 0 <= i < |r.value| ==> r.value[i].similarity > 0.5
  {
    var q := VectorUtils.MockEmbedding(Some(1536), draws);
    var c := Candidates(table, q, dist);
    RankLength(c, 0.5, 5);
    RankAboveThreshold(c, 0.5, 5);
  }
}
