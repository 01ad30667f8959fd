/** The `ai_memory` table and the original `match_memories` function of
    test-supabase.js, both as written and with the meaning it evidently
    intends. The table is a sequence of rows; pgvector's cosine distance
    `<=>` is the parameter `dist`, so the similarity of a row is
    `1 - dist(embedding, query)` whatever the distance computes. */
module AiMemoryTable {
  import opened Common
  import opened Json
  import opened Ranking
  import VectorUtils

  type Vector = VectorUtils.Vector

  /** The declared width of the `embedding vector(1536)` column. */
  const EmbeddingDimensions: nat := 1536

  /** pgvector's bound on the number of components of a `vector` value. */
  const MaxDimensions: nat := 16000

  /** One `ai_memory` row; a NULL embedding is `None`. */
  datatype Row = Row(id: string, content: string, embedding: Option<Vector>, metadata: Metadata, createdAt: int)

  /** The errors the database raises for the statements modelled here. */
  datatype TableError =
    | DimensionMismatch(expected: nat, actual: nat)
    | NotNullViolation(column: string)
    | UniqueViolation(column: string)
    | NegativeLimit
    | InvalidVector(dimensions: nat)
    | AmbiguousColumn(column: string)

  /** What the table's declaration guarantees of every stored state: the
      primary key is unique and every embedding has 1536 components. */
  predicate WellFormed(table: seq<Row>) {
    && (forall i, j :: 0 <= i < j < |table| ==> table[i].id != table[j].id)
    && (forall i :: 0 <= i < |table| && table[i].embedding.Some? ==>
          |table[i].embedding.value| == EmbeddingDimensions)
  }

  predicate HasId(table: seq<Row>, id: string) {
    exists i :: 0 <= i < |table| && table[i].id == id
  }

  /** `insert into ai_memory (content, embedding, metadata)`: an omitted
      metadata (`None`) takes the default `'{}'`, `id` is the freshly generated
      uuid `freshId` and `created_at` is the current time `now`. A vector of
      the wrong width is refused when it is converted, a NULL content by the
      `not null` constraint and a repeated id by the primary key. */
  function Insert(table: seq<Row>, content: Option<string>, embedding: Option<Vector>,
                  metadata: Option<Metadata>, freshId: string, now: int): (r: Result<seq<Row>, TableError>)
    ensures r.Failure? <==>
              || (embedding.Some? && |embedding.value| != EmbeddingDimensions)
              || content.None?
              || HasId(table, freshId)
    ensures r.Success? ==> |r.value| == |table| + 1 && r.value[..|table|] == table
    ensures r.Success? ==> var row := r.value[|table|];
              && row.id == freshId && row.content == content.value && row.embedding == embedding
              && row.createdAt == now
              && (metadata.None? ==> row.metadata == EmptyMetadata)
              && (metadata.Some? ==> row.metadata == metadata.value)
  {
    if embedding.Some? && |embedding.value| != EmbeddingDimensions then
      Failure(DimensionMismatch(EmbeddingDimensions, |embedding.value|))
    else if content.None? then Failure(NotNullViolation("content"))
    else if HasId(table, freshId) then Failure(UniqueViolation("id"))
    else Success(table + [Row(freshId, content.value, embedding, metadata.GetOr(EmptyMetadata), now)])
  }

  /** A successful insert keeps the table's guarantees. */
  lemma InsertPreservesWellFormed(table: seq<Row>, content: Option<string>, embedding: Option<Vector>,
                                  metadata: Option<Metadata>, freshId: string, now: int)
    requires WellFormed(table)
    requires Insert(table, content, embedding, metadata, freshId, now).Success?
    ensures WellFormed(Insert(table, content, embedding, metadata, freshId, now).value)
  {
    var t := Insert(table, content, embedding, metadata, freshId, now).value;
    forall i, j | 0 <= i < j < |t| ensures t[i].id != t[j].id {
      if j == |table| {
        assert t[i] == table[i];
      } else {
        assert t[i] == table[i] && t[j] == table[j];
      }
    }
  }

  /** The rows `<=>` can be evaluated on, each with `1 - (embedding <=> q)`:
      a NULL embedding makes the comparison NULL, so that row never passes
      the WHERE clause. */
  function Candidates(table: seq<Row>, q: Vector, dist: (Vector, Vector) -> real): (c: seq<Scored<Row>>)
    ensures |c| <= |table|
    ensures forall i :: 0 <= i < |c| ==>
              && c[i].item in table
              && c[i].item.embedding.Some?
              && c[i].similarity == 1.0 - dist(c[i].item.embedding.value, q)
  {
    if table == [] then []
    else
      var rest := Candidates(table[1..], q, dist);
      var row := table[0];
      if row.embedding.Some? then [Scored(row, 1.0 - dist(row.embedding.value, q))] + rest
      else rest
  }

  /** Every row with an embedding is a candidate. */
  lemma {:induction false} CandidatesComplete(table: seq<Row>, q: Vector, dist: (Vector, Vector) -> real, row: Row)
    requires row in table && row.embedding.Some?
    ensures Scored(row, 1.0 - dist(row.embedding.value, q)) in Candidates(table, q, dist)
  {
    if table[0] != row {
      CandidatesComplete(table[1..], q, dist, row);
    }
  }

  /** `row` passes `1 - (embedding <=> q) > threshold`. */
  predicate Qualifies(row: Row, q: Vector, threshold: real, dist: (Vector, Vector) -> real) {
    row.embedding.Some? && 1.0 - dist(row.embedding.value, q) > threshold
  }

  /** The rows the WHERE clause keeps, scored. */
  function Qualifying(table: seq<Row>, q: Vector, threshold: real, dist: (Vector, Vector) -> real): (r: seq<Scored<Row>>)
    ensures |r| <= |table|
    ensures forall i :: 0 <= i < |r| ==> r[i].similarity > threshold
  {
    Above(Candidates(table, q, dist), threshold)
  }

  /** One row of the function's result table `(id, content, similarity, metadata)`. */
  datatype Match = Match(id: string, content: string, similarity: real, metadata: Metadata)

  /** The SELECT list. */
  function ToMatch(s: Scored<Row>): Match {
    Match(s.item.id, s.item.content, s.similarity, s.item.metadata)
  }

  function ToMatches(s: seq<Scored<Row>>): (r: seq<Match>)
    ensures |r| == |s|
    ensures forall i :: 0 <= i < |s| ==> r[i] == ToMatch(s[i])
  {
    seq(|s|, i requires 0 <= i < |s| => ToMatch(s[i]))
  }

  /** A value the conversion to `vector` accepts. PostgreSQL drops the
      `(1536)` of a function parameter's declared type, so the query's width
      is not checked on entry. */
  predicate ValidVector(q: Vector) {
    0 < |q| <= MaxDimensions
  }

  /** The width of the first row, in scan order, whose embedding `<=>`
      cannot compare with `q` (pgvector: "different vector dimensions"). */
  function FirstMismatch(table: seq<Row>, q: Vector): (w: Option<nat>)
    ensures w.None? <==> forall i :: 0 <= i < |table| && table[i].embedding.Some? ==>
                           |table[i].embedding.value| == |q|
    ensures w.Some? ==> w.value != |q|
  {
    if table == [] then None
    else if table[0].embedding.Some? && |table[0].embedding.value| != |q| then Some(|table[0].embedding.value|)
    else
      var w := FirstMismatch(table[1..], q);
      assert forall i :: 1 <= i < |table| ==> table[i] == table[1..][i - 1];
      w
  }

  /** The error a call raises before it returns rows, if any: the query is
      converted to `vector` on entry, `LIMIT` is evaluated before its input
      is read (so a `LIMIT` of 0 reads nothing), and otherwise every row
      with an embedding goes through `<=>`. Both definitions share it. */
  function CallError(table: seq<Row>, q: Vector, count: int): Option<TableError> {
    if !ValidVector(q) then Some(InvalidVector(|q|))
    else if count < 0 then Some(NegativeLimit)
    else if count == 0 then None
    else match FirstMismatch(table, q)
      case Some(w) => Some(DimensionMismatch(w, |q|))
      case None => None
  }

  /** `match_memories(query_embedding, match_threshold, match_count)` with the
      meaning its text evidently intends: `id`, `content` and `metadata` read
      as the columns of `ai_memory`. */
  function MatchMemories(table: seq<Row>, q: Vector, threshold: real, count: int,
                         dist: (Vector, Vector) -> real): (r: Result<seq<Match>, TableError>)
    ensures r.Failure? <==>
              || !(0 < |q| <= MaxDimensions)
              || count < 0
              || (count > 0 && exists i :: 0 <= i < |table| && table[i].embedding.Some? &&
                                          |table[i].embedding.value| != |q|)
    ensures count == 0 && ValidVector(q) ==> r == Success([])
  {
    match CallError(table, q, count)
    case Some(e) => Failure(e)
    case None => Success(ToMatches(Rank(Candidates(table, q, dist), threshold, count)))
  }

  /** `match_memories` as test-supabase.js writes it. Its SELECT names `id`,
      `content` and `metadata` without a table qualifier, and each of them is
      both a column of `ai_memory` and an output parameter of its
      `RETURNS TABLE`. PL/pgSQL's default `variable_conflict = error` rejects
      the first of them when the query is first planned, so only the
      conversion of the argument can fail earlier. */
  function MatchMemoriesAsWritten(table: seq<Row>, q: Vector, threshold: real, count: int,
                                  dist: (Vector, Vector) -> real): (r: Result<seq<Match>, TableError>)
    ensures r.Failure?
    ensures ValidVector(q) ==> r.error == AmbiguousColumn("id")
  {
    if !ValidVector(q) then Failure(InvalidVector(|q|)) else Failure(AmbiguousColumn("id"))
  }

  /** On a table one embedded row of `q`'s width that passes the threshold,
      the intended function returns that row, while the text as written
      fails with the ambiguity error. */
  lemma AsWrittenFailsWhereIntendedReturnsRow(row: Row, q: Vector, threshold: real, count: int,
                                              dist: (Vector, Vector) -> real)
    requires ValidVector(q) && count > 0
    requires row.embedding.Some? && |row.embedding.value| == |q|
    requires 1.0 - dist(row.embedding.value, q) > threshold
    ensures MatchMemories([row], q, threshold, count, dist) ==
              Success([Match(row.id, row.content, 1.0 - dist(row.embedding.value, q), row.metadata)])
    ensures MatchMemoriesAsWritten([row], q, threshold, count, dist) == Failure(AmbiguousColumn("id"))
  {
    assert FirstMismatch([row], q).None?;
    var c := Candidates([row], q, dist);
    assert c == [Scored(row, 1.0 - dist(row.embedding.value, q))];
    RankLength(c, threshold, count);
    assert |Above(c, threshold)| == 1 by {
      AboveComplete(c, threshold, c[0]);
    }
    RankAboveThreshold(c, threshold, count);
    var ranked := Rank(c, threshold, count);
    assert ranked[0] in ranked;
    assert ranked == c;
    assert ToMatches(ranked) == [ToMatch(c[0])];
  }

  /** On a table whose rows have no embedding, a query of any width pgvector
      accepts returns no rows: `<=>` never runs. */
  lemma NoEmbeddingsNoRows(table: seq<Row>, q: Vector, threshold: real, count: int,
                           dist: (Vector, Vector) -> real)
    requires ValidVector(q) && count >= 0
    requires forall i :: 0 <= i < |table| ==> table[i].embedding.None?
    ensures MatchMemories(table, q, threshold, count, dist) == Success([])
  {
    var c := Candidates(table, q, dist);
    NoEmbeddingsNoCandidates(table, q, dist);
    RankLength(c, threshold, count);
  }

  lemma {:induction false} NoEmbeddingsNoCandidates(table: seq<Row>, q: Vector, dist: (Vector, Vector) -> real)
    requires forall i :: 0 <= i < |table| ==> table[i].embedding.None?
    ensures Candidates(table, q, dist) == []
  {
    if table != [] {
      assert table[0].embedding.None?;
      NoEmbeddingsNoCandidates(table[1..], q, dist);
    }
  }

  /** On a well-formed table, a call with a positive count fails exactly
      when the query is not 1536 wide and some row has an embedding. */
  lemma {:induction false} WellFormedCallFails(table: seq<Row>, q: Vector, threshold: real, count: int,
                                               dist: (Vector, Vector) -> real)
    requires WellFormed(table) && ValidVector(q) && count > 0
    ensures MatchMemories(table, q, threshold, count, dist).Failure? <==>
              |q| != EmbeddingDimensions && exists i :: 0 <= i < |table| && table[i].embedding.Some?
  {
    if |q| != EmbeddingDimensions && exists i :: 0 <= i < |table| && table[i].embedding.Some? {
      var i :| 0 <= i < |table| && table[i].embedding.Some?;
      assert |table[i].embedding.value| != |q|;
    }
  }

  /** Every result row is strictly above the threshold. */
  lemma MatchAboveThreshold(table: seq<Row>, q: Vector, threshold: real, count: int, dist: (Vector, Vector) -> real)
    requires MatchMemories(table, q, threshold, count, dist).Success?
    ensures var r := MatchMemories(table, q, threshold, count, dist).value;
            forall i :: 0 <= i < |r| ==> r[i].similarity > threshold
  {
    RankAboveThreshold(Candidates(table, q, dist), threshold, count);
  }

  /** At most `match_count` rows come back. */
  lemma MatchAtMostCount(table: seq<Row>, q: Vector, threshold: real, count: int, dist: (Vector, Vector) -> real)
    requires MatchMemories(table, q, threshold, count, dist).Success?
    ensures |MatchMemories(table, q, threshold, count, dist).value| <= count
  {
    RankLength(Candidates(table, q, dist), threshold, count);
  }

  /** Rows come back by similarity, highest first. */
  lemma MatchOrdered(table: seq<Row>, q: Vector, threshold: real, count: int, dist: (Vector, Vector) -> real)
    requires MatchMemories(table, q, threshold, count, dist).Success?
    ensures var r := MatchMemories(table, q, threshold, count, dist).value;
            forall i, j :: 0 <= i < j < |r| ==> r[i].similarity >= r[j].similarity
  {
    RankSorted(Candidates(table, q, dist), threshold, count);
  }

  /** Every result row is copied from a table row with a non-NULL embedding,
      and its similarity is `1 - (embedding <=> q)`. */
  lemma MatchRowsCopied(table: seq<Row>, q: Vector, threshold: real, count: int, dist: (Vector, Vector) -> real)
    requires MatchMemories(table, q, threshold, count, dist).Success?
    ensures var r := MatchMemories(table, q, threshold, count, dist).value;
            forall i :: 0 <= i < |r| ==>
              (exists row :: row in table && row.embedding.Some? &&
                 r[i] == Match(row.id, row.content, 1.0 - dist(row.embedding.value, q), row.metadata))
  {
    var c := Candidates(table, q, dist);
    var ranked := Rank(c, threshold, count);
    RankAboveThreshold(c, threshold, count);
    var r := MatchMemories(table, q, threshold, count, dist).value;
    forall i | 0 <= i < |r|
      ensures exists row :: row in table && row.embedding.Some? &&
                r[i] == Match(row.id, row.content, 1.0 - dist(row.embedding.value, q), row.metadata)
    {
      assert ranked[i] in ranked;
      var k :| 0 <= k < |c| && c[k] == ranked[i];
      assert r[i] == ToMatch(c[k]);
    }
  }

  /** No result row carries `id`. */
  predicate Omits(r: seq<Match>, id: string) {
    forall j :: 0 <= j < |r| ==> r[j].id != id
  }

  /** Top-K: a qualifying table row whose id is not among the results scores
      no higher than any result. */
  lemma MatchTopK(table: seq<Row>, q: Vector, threshold: real, count: int, dist: (Vector, Vector) -> real)
    requires MatchMemories(table, q, threshold, count, dist).Success?
    ensures var r := MatchMemories(table, q, threshold, count, dist).value;
            forall row, i ::
              (row in table && Qualifies(row, q, threshold, dist) && Omits(r, row.id) && 0 <= i < |r|) ==>
              1.0 - dist(row.embedding.value, q) <= r[i].similarity
  {
    var r := MatchMemories(table, q, threshold, count, dist).value;
    forall row, i | row in table && Qualifies(row, q, threshold, dist) && Omits(r, row.id) && 0 <= i < |r|
      ensures 1.0 - dist(row.embedding.value, q) <= r[i].similarity
    {
      var c := Candidates(table, q, dist);
      CandidatesComplete(table, q, dist, row);
      LeftOutRowScoresNoHigher(c, threshold, count, Scored(row, 1.0 - dist(row.embedding.value, q)), i);
    }
  }

  lemma LeftOutRowScoresNoHigher(c: seq<Scored<Row>>, threshold: real, count: nat, x: Scored<Row>, i: int)
    requires x in c && x.similarity > threshold
    requires Omits(ToMatches(Rank(c, threshold, count)), x.item.id)
    requires 0 <= i < |Rank(c, threshold, count)|
    ensures x.similarity <= Rank(c, threshold, count)[i].similarity
  {
    var ranked := Rank(c, threshold, count);
    AboveComplete(c, threshold, x);
    assert x !in ranked;
    assert ranked[i] in ranked;
    LeftOutScoresNoHigher(c, threshold, count, x, ranked[i]);
  }

  /** When no more than `match_count` rows qualify, every one of them is
      returned. */
  lemma MatchAllWhenFew(table: seq<Row>, q: Vector, threshold: real, count: int, dist: (Vector, Vector) -> real)
    requires MatchMemories(table, q, threshold, count, dist).Success?
    requires |Qualifying(table, q, threshold, dist)| <= count
    ensures var r := MatchMemories(table, q, threshold, count, dist).value;
            forall row :: row in table && Qualifies(row, q, threshold, dist) ==>
              Match(row.id, row.content, 1.0 - dist(row.embedding.value, q), row.metadata) in r
  {
    forall row | row in table && Qualifies(row, q, threshold, dist)
      ensures Match(row.id, row.content, 1.0 - dist(row.embedding.value, q), row.metadata)
                in MatchMemories(table, q, threshold, count, dist).value
    {
      RowReturned(table, q, threshold, count, dist, row);
    }
  }

  lemma RowReturned(table: seq<Row>, q: Vector, threshold: real, count: nat, dist: (Vector, Vector) -> real, row: Row)
    requires MatchMemories(table, q, threshold, count, dist).Success?
    requires |Qualifying(table, q, threshold, dist)| <= count
    requires row in table && Qualifies(row, q, threshold, dist)
    ensures Match(row.id, row.content, 1.0 - dist(row.embedding.value, q), row.metadata)
              in MatchMemories(table, q, threshold, count, dist).value
  {
    var c := Candidates(table, q, dist);
    CandidatesComplete(table, q, dist, row);
    QualifyingRowReturned(c, threshold, count, Scored(row, 1.0 - dist(row.embedding.value, q)));
  }

  lemma QualifyingRowReturned(c: seq<Scored<Row>>, threshold: real, count: nat, x: Scored<Row>)
    requires x in c && x.similarity > threshold
    requires |Above(c, threshold)| <= count
    ensures ToMatch(x) in ToMatches(Rank(c, threshold, count))
  {
    var ranked := Rank(c, threshold, count);
    AboveComplete(c, threshold, x);
    RankAllWhenFew(c, threshold, count);
    assert x in multiset(ranked);
    var j :| 0 <= j < |ranked| && ranked[j] == x;
    assert ToMatches(ranked)[j] == ToMatch(x);
  }

  /** Raising the threshold never returns more rows. */
  lemma MatchThresholdMonotone(table: seq<Row>, q: Vector, low: real, high: real, count: int,
                               dist: (Vector, Vector) -> real)
    requires low <= high
    requires MatchMemories(table, q, low, count, dist).Success?
    ensures MatchMemories(table, q, high, count, dist).Success?
    ensures |MatchMemories(table, q, high, count, dist).value| <= |MatchMemories(table, q, low, count, dist).value|
  {
    RankThresholdMonotone(Candidates(table, q, dist), low, high, count);
  }
}
