/** The MCP server object of index.js: the legacy key–value memory tools over
    the module-level dictionary `memoryStore`, the semantic tools that call
    the embedding provider and the `ai_memory` table, and `handleRequest`.
    Parameters are records of optional strings (`None` is an absent or
    undefined property); the remote services are the oracles of `Services`. */
module McpServer {
  import opened Common
  import opened Json
  import VectorUtils
  import EmbeddingService
  import opened AiMemoryTable
  import opened FixMatchMemories

  /** `config.defaults.maxResults`, the default `limit` of a search. */
  const MaxResults: int := 5

  const KeyValueRequired := "Both key and value are required"
  const KeyRequired := "Key is required"
  const ContentRequired := "Content is required"
  const QueryRequired := "Query text is required"
  const SavedWithEmbedding := "Memory saved with embedding"
  const SaveAndEmbedPrefix := "Failed to save and embed memory: "
  const SearchPrefix := "Failed to search similar memories: "
  const ListPrefix := "Failed to list memories: "

  /** The names under `mcpServer.tools`. */
  const ToolNames: set<string> := {"saveMemory", "recallMemory", "listMemoryKeys", "deleteMemory",
                                   "saveAndEmbedMemory", "searchSimilarMemory", "listAllMemories"}

  type Store = map<string, string>

  // ---------------------------------------------------------------------
  // The key–value tools as functions of the store

  /** `saveMemory`: both `key` and `value` must be truthy; the store then maps
      `key` to `value`. */
  function Save(store: Store, key: Option<string>, value: Option<string>): (r: Result<Store, string>)
    ensures r.Failure? <==> !Truthy(key) || !Truthy(value)
    ensures r.Failure? ==> r.error == KeyValueRequired
    ensures r.Success? ==> r.value.Keys == store.Keys + {key.value} && r.value[key.value] == value.value
    ensures r.Success? ==> forall k :: k in store && k != key.value ==> r.value[k] == store[k]
  {
    if !Truthy(key) || !Truthy(value) then Failure(KeyValueRequired)
    else Success(store[key.value := value.value])
  }

  /** `recallMemory`: the stored value, or a "not found" reply for an absent key. */
  function Recall(store: Store, key: Option<string>): (r: Result<string, string>)
    ensures r.Failure? <==> !Truthy(key)
    ensures r.Failure? ==> r.error == KeyRequired
    ensures r.Success? && key.value in store ==> r.value == store[key.value]
    ensures r.Success? && key.value !in store ==> r.value == "Key not found: " + key.value
  {
    if !Truthy(key) then Failure(KeyRequired)
    else if key.value in store then Success(store[key.value])
    else Success("Key not found: " + key.value)
  }

  /** What `deleteMemory` leaves behind: the new store, the reply, and whether
      an entry was removed (and so the store written to disk). */
  datatype Deletion = Deletion(store: Store, reply: string, removed: bool)

  /** `deleteMemory`: removes a present key, and answers "not found" for an
      absent one. */
  function Delete(store: Store, key: Option<string>): (r: Result<Deletion, string>)
    ensures r.Failure? <==> !Truthy(key)
    ensures r.Failure? ==> r.error == KeyRequired
    ensures r.Success? ==> (r.value.removed <==> key.value in store)
    ensures r.Success? ==> r.value.store.Keys == store.Keys - {key.value}
    ensures r.Success? ==> forall k :: k in r.value.store ==> r.value.store[k] == store[k]
    ensures r.Success? && r.value.removed ==> r.value.reply == "Deleted key: " + key.value
    ensures r.Success? && !r.value.removed ==> r.value.reply == "Key not found: " + key.value && r.value.store == store
  {
    if !Truthy(key) then Failure(KeyRequired)
    else if key.value in store then Success(Deletion(store - {key.value}, "Deleted key: " + key.value, true))
    else Success(Deletion(store, "Key not found: " + key.value, false))
  }

  /** After a save, the key recalls the saved value and every other key
      recalls what it did before. */
  lemma SaveThenRecall(store: Store, key: Option<string>, value: Option<string>, other: Option<string>)
    requires Save(store, key, value).Success?
    ensures Recall(Save(store, key, value).value, key) == Success(value.value)
    ensures Truthy(other) && other != key ==> Recall(Save(store, key, value).value, other) == Recall(store, other)
  {
  }

  /** Saving the same pair twice is the same as saving it once. */
  lemma SaveIdempotent(store: Store, key: Option<string>, value: Option<string>)
    requires Save(store, key, value).Success?
    ensures Save(Save(store, key, value).value, key, value) == Save(store, key, value)
  {
    var once := Save(store, key, value).value;
    assert once[key.value := value.value] == once;
  }

  /** Saving over an existing key replaces its value without adding a key. */
  lemma SaveOverwrites(store: Store, key: Option<string>, value: Option<string>)
    requires Save(store, key, value).Success? && key.value in store
    ensures Save(store, key, value).value.Keys == store.Keys
    ensures |Save(store, key, value).value| == |store|
  {
  }

  /** After a delete the key is not found, and every other key recalls what it
      did before. */
  lemma DeleteThenRecall(store: Store, key: Option<string>, other: Option<string>)
    requires Delete(store, key).Success?
    ensures Recall(Delete(store, key).value.store, key) == Success("Key not found: " + key.value)
    ensures other != key ==> Recall(Delete(store, key).value.store, other) == Recall(store, other)
  {
  }

  /** Deleting a key that a save just added restores the store. */
  lemma DeleteUndoesSave(store: Store, key: Option<string>, value: Option<string>)
    requires Save(store, key, value).Success? && key.value !in store
    ensures Delete(Save(store, key, value).value, key) ==
              Success(Deletion(store, "Deleted key: " + key.value, true))
  {
    assert Save(store, key, value).value - {key.value} == store;
  }

  /** `order` with `k` left out. */
  function RemoveKey(order: seq<string>, k: string): (r: seq<string>)
    ensures forall x :: x in r <==> x in order && x != k
    ensures NoDup(order) ==> NoDup(r)
    ensures |r| <= |order|
  {
    if order == [] then []
    else if order[0] == k then RemoveKey(order[1..], k)
    else
      var rest := RemoveKey(order[1..], k);
      assert NoDup(order) ==> order[0] !in order[1..];
      [order[0]] + rest
  }

  // ---------------------------------------------------------------------
  // The finding: `key in memoryStore` also sees Object.prototype's names

  /** The property names every plain object inherits from Object.prototype. */
  const InheritedNames: set<string> := {
    "constructor", "hasOwnProperty", "isPrototypeOf", "propertyIsEnumerable", "toLocaleString",
    "toString", "valueOf", "__proto__", "__defineGetter__", "__defineSetter__",
    "__lookupGetter__", "__lookupSetter__"}

  /** `deleteMemory` as written: the `in` test is true for an inherited name
      that was never saved, the `delete` of it removes nothing, and the
      store is still written and the key reported deleted. */
  function DeleteAsWritten(store: Store, key: Option<string>): (r: Result<Deletion, string>)
    ensures r.Failure? <==> !Truthy(key)
    ensures r.Success? ==> (r.value.removed <==> key.value in store || key.value in InheritedNames)
    ensures r.Success? ==> r.value.store == store - {key.value}
  {
    if !Truthy(key) then Failure(KeyRequired)
    else if key.value in store || key.value in InheritedNames then
      Success(Deletion(store - {key.value}, "Deleted key: " + key.value, true))
    else Success(Deletion(store, "Key not found: " + key.value, false))
  }

  /** On an empty store, deleting "toString" is reported as a deletion (and
      triggers a disk write) although nothing was ever saved under it; the
      corrected `Delete` answers "not found". */
  lemma DeleteAsWrittenReportsInheritedName()
    ensures DeleteAsWritten(map[], Some("toString")) == Success(Deletion(map[], "Deleted key: toString", true))
    ensures Delete(map[], Some("toString")) == Success(Deletion(map[], "Key not found: toString", false))
  {
    var empty: Store := map[];
    assert empty - {"toString"} == empty;
    assert "Deleted key: " + "toString" == "Deleted key: toString";
    assert "Key not found: " + "toString" == "Key not found: toString";
  }

  /** For every key that is not an inherited name the two agree. */
  lemma DeleteAsWrittenAgreesElsewhere(store: Store, key: Option<string>)
    requires key.Some? ==> key.value !in InheritedNames || key.value in store
    ensures DeleteAsWritten(store, key) == Delete(store, key)
  {
  }

  // ---------------------------------------------------------------------
  // The semantic tools

  /** One row of `searchSimilarMemory`'s answer. */
  datatype Hit = Hit(content: string, similarity: real, metadata: Metadata)

  /** One row of `listMemories`' `select('content, metadata, created_at')`. */
  datatype Listed = Listed(content: string, metadata: Metadata, createdAt: string)

  /** What a tool returns. */
  datatype Reply =
    | Text(text: string)
    | KeyList(keys: seq<string>)
    | SavedMemory(message: string, id: string, content: string)
    | Hits(hits: seq<Hit>)
    | Listing(rows: seq<Listed>)

  /** The remote services: the embedding provider's reply for a text,
      `supabaseService.saveMemory` (the inserted row), `findSimilarMemories`
      for an embedding and a limit, and `listMemories`. Each either answers
      or fails with an error message. */
  datatype Services = Services(
    provider: string -> Result<seq<VectorUtils.Vector>, string>,
    insert: (string, VectorUtils.Vector, Metadata) -> Result<Row, string>,
    search: (VectorUtils.Vector, int) -> Result<seq<Match>, string>,
    list: Result<seq<Listed>, string>)

  /** `{content, similarity, metadata}` of one `match_memories` row. */
  function ToHit(m: Match): Hit {
    Hit(m.content, m.similarity, m.metadata)
  }

  /** `results.map(...)`: each row in order, reduced to the three fields. */
  function Project(rows: seq<Match>): (hits: seq<Hit>)
    ensures |hits| == |rows|
    ensures forall i :: 0 <= i < |rows| ==>
              hits[i].content == rows[i].content && hits[i].similarity == rows[i].similarity &&
              hits[i].metadata == rows[i].metadata
  {
    if rows == [] then [] else [ToHit(rows[0])] + Project(rows[1..])
  }

  /** The same projection over the replacement definition's rows. */
  function ProjectFixed(rows: seq<FixedMatch>): (hits: seq<Hit>)
    ensures |hits| == |rows|
    ensures forall i :: 0 <= i < |rows| ==>
              hits[i].content == rows[i].content && hits[i].similarity == rows[i].similarity &&
              hits[i].metadata == rows[i].metadata
  {
    if rows == [] then [] else [Hit(rows[0].content, rows[0].similarity, rows[0].metadata)] + ProjectFixed(rows[1..])
  }

  /** The projection hides the difference between the two `match_memories`
      definitions: both give the same hits. */
  lemma ProjectionAgnostic(table: seq<Row>, q: VectorUtils.Vector, threshold: real, count: int,
                           dist: (VectorUtils.Vector, VectorUtils.Vector) -> real)
    requires MatchMemories(table, q, threshold, count, dist).Success?
    ensures MatchMemoriesFixed(table, q, threshold, count, dist).Success?
    ensures Project(MatchMemories(table, q, threshold, count, dist).value) ==
            ProjectFixed(MatchMemoriesFixed(table, q, threshold, count, dist).value)
  {
    FixedAgreesWithOriginal(table, q, threshold, count, dist);
  }

  /** `saveAndEmbedMemory`: `content` must be truthy and `metadata` defaults
      to `{}`; the content is embedded, the row inserted, and any failure
      on the way rethrown with the tool's prefix. */
  function SaveAndEmbed(content: Option<string>, metadata: Option<Metadata>, services: Services): (r: Result<Reply, string>)
    ensures !Truthy(content) ==> r == Failure(ContentRequired)
    ensures Truthy(content) ==>
              var embedded := EmbeddingService.GenerateEmbedding(services.provider(content.value));
              && (embedded.Failure? ==> r == Failure(SaveAndEmbedPrefix + embedded.error))
              && (embedded.Success? ==>
                    var inserted := services.insert(content.value, embedded.value, metadata.GetOr(EmptyMetadata));
                    && (inserted.Failure? ==> r == Failure(SaveAndEmbedPrefix + inserted.error))
                    && (inserted.Success? ==>
                          r == Success(SavedMemory(SavedWithEmbedding, inserted.value.id, inserted.value.content))))
  {
    if !Truthy(content) then Failure(ContentRequired)
    else
      match EmbeddingService.GenerateEmbedding(services.provider(content.value))
      case Failure(e) => Failure(SaveAndEmbedPrefix + e)
      case Success(embedding) =>
        match services.insert(content.value, embedding, metadata.GetOr(EmptyMetadata))
        case Failure(e) => Failure(SaveAndEmbedPrefix + e)
        case Success(row) => Success(SavedMemory(SavedWithEmbedding, row.id, row.content))
  }

  /** An omitted `metadata` behaves exactly as an explicit `{}`. */
  lemma SaveAndEmbedDefaultMetadata(content: Option<string>, services: Services)
    ensures SaveAndEmbed(content, None, services) == SaveAndEmbed(content, Some(EmptyMetadata), services)
  {
  }

  /** `searchSimilarMemory`: `queryText` must be truthy and `limit` defaults
      to `MaxResults`; the query is embedded, searched, and each hit
      projected; any failure is rethrown with the tool's prefix. */
  function SearchSimilar(queryText: Option<string>, limit: Option<int>, services: Services): (r: Result<Reply, string>)
    ensures !Truthy(queryText) ==> r == Failure(QueryRequired)
    ensures Truthy(queryText) ==>
              var embedded := EmbeddingService.GenerateEmbedding(services.provider(queryText.value));
              && (embedded.Failure? ==> r == Failure(SearchPrefix + embedded.error))
              && (embedded.Success? ==>
                    var found := services.search(embedded.value, limit.GetOr(MaxResults));
                    && (found.Failure? ==> r == Failure(SearchPrefix + found.error))
                    && (found.Success? ==> r == Success(Hits(Project(found.value)))))
  {
    if !Truthy(queryText) then Failure(QueryRequired)
    else
      match EmbeddingService.GenerateEmbedding(services.provider(queryText.value))
      case Failure(e) => Failure(SearchPrefix + e)
      case Success(embedding) =>
        match services.search(embedding, limit.GetOr(MaxResults))
        case Failure(e) => Failure(SearchPrefix + e)
        case Success(rows) => Success(Hits(Project(rows)))
  }

  /** An omitted `limit` searches with `MaxResults` (5). */
  lemma SearchDefaultLimit(queryText: Option<string>, services: Services)
    ensures SearchSimilar(queryText, None, services) == SearchSimilar(queryText, Some(5), services)
  {
  }

  /** When the search service is `match_memories` over a table, the search
      tool returns at most `limit` hits, in descending similarity, each
      above the service's threshold. */
  lemma SearchOverTable(queryText: Option<string>, limit: nat, services: Services, table: seq<Row>,
                        threshold: real, dist: (VectorUtils.Vector, VectorUtils.Vector) -> real)
    requires Truthy(queryText) && WellFormed(table)
    requires forall e, n :: MatchMemories(table, e, threshold, n, dist).Success? ==>
               services.search(e, n) == Success(MatchMemories(table, e, threshold, n, dist).value)
    requires EmbeddingService.GenerateEmbedding(services.provider(queryText.value)).Success?
    requires |EmbeddingService.GenerateEmbedding(services.provider(queryText.value)).value| == EmbeddingDimensions
    ensures var r := SearchSimilar(queryText, Some(limit), services);
            && r.Success? && r.value.Hits?
            && |r.value.hits| <= limit
            && (forall i :: 0 <= i < |r.value.hits| ==> r.value.hits[i].similarity > threshold)
            && (forall i, j :: 0 <= i < j < |r.value.hits| ==> r.value.hits[i].similarity >= r.value.hits[j].similarity)
  {
    var e := EmbeddingService.GenerateEmbedding(services.provider(queryText.value)).value;
    MatchAtMostCount(table, e, threshold, limit, dist);
    MatchAboveThreshold(table, e, threshold, limit, dist);
    MatchOrdered(table, e, threshold, limit, dist);
  }

  /** `listAllMemories`: the service's rows, or its error with the tool's prefix. */
  function ListAll(services: Services): (r: Result<Reply, string>)
    ensures services.list.Success? ==> r == Success(Listing(services.list.value))
    ensures services.list.Failure? ==> r == Failure(ListPrefix + services.list.error)
  {
    match services.list
    case Success(rows) => Success(Listing(rows))
    case Failure(e) => Failure(ListPrefix + e)
  }

  // ---------------------------------------------------------------------
  // The server object

  /** The arguments a tool may read; absent properties are `None`. */
  datatype Params = Params(
    key: Option<string>, value: Option<string>,
    content: Option<string>, metadata: Option<Metadata>,
    queryText: Option<string>, limit: Option<int>)

  /** `handleRequest`'s lookup: `this.tools[tool]` is defined. */
  predicate IsTool(tool: Option<string>)
    ensures tool.None? ==> !IsTool(tool)
    ensures IsTool(tool) ==> tool.value in ToolNames
  {
    tool.Some? && tool.value in ToolNames
  }

  /** How a missing tool name is printed in the error. */
  function ToolLabel(tool: Option<string>): (shown: string)
    ensures tool.Some? ==> shown == tool.value
    ensures tool.None? ==> shown == "undefined"
  {
    if tool.Some? then tool.value else "undefined"
  }

  function TextReply(r: Result<string, string>): (reply: Result<Reply, string>)
    ensures r.Success? ==> reply == Success(Text(r.value))
    ensures r.Failure? ==> reply == Failure(r.error)
  {
    match r
    case Success(s) => Success(Text(s))
    case Failure(e) => Failure(e)
  }

  /** `memoryStore` with its key order (insertion order, as `Object.keys`
      reports it) and the snapshots `saveToDisk` wrote, oldest first. */
  class MemoryServer {
    var store: Store
    var order: seq<string>
    var diskWrites: seq<Store>

    /** `order` lists every key of the store exactly once. */
    ghost predicate Valid()
      reads this
    {
      NoDup(order) && forall k :: k in order <==> k in store
    }

    /** The server after `initializeMemoryStore` read `loaded`, whose keys
        appear in the file in the order `loadedOrder`. */
    constructor(loaded: Store, loadedOrder: seq<string>)
      requires NoDup(loadedOrder) && forall k :: k in loadedOrder <==> k in loaded
      ensures Valid()
      ensures store == loaded && order == loadedOrder && diskWrites == []
    {
      store := loaded;
      order := loadedOrder;
      diskWrites := [];
    }

    /** `saveToDisk`: writes the whole store unless the file system fails
        with `diskError`, which is rethrown. */
    method SaveToDisk(diskError: Option<string>) returns (r: Result<(), string>)
      modifies this
      ensures store == old(store) && order == old(order)
      ensures diskError.None? ==> r == Success(()) && diskWrites == old(diskWrites) + [store]
      ensures diskError.Some? ==> r == Failure(diskError.value) && diskWrites == old(diskWrites)
    {
      if diskError.Some? {
        return Failure(diskError.value);
      }
      diskWrites := diskWrites + [store];
      return Success(());
    }

    /** `saveMemory`: a rejected call changes nothing; otherwise the store is
        updated first and then written, so a failed write still leaves the
        new value in memory. */
    method SaveMemory(key: Option<string>, value: Option<string>, diskError: Option<string>)
      returns (r: Result<string, string>)
      requires Valid()
      modifies this
      ensures Valid()
      ensures Save(old(store), key, value).Failure? ==>
                && r == Failure(KeyValueRequired)
                && store == old(store) && order == old(order) && diskWrites == old(diskWrites)
      ensures Save(old(store), key, value).Success? ==>
                && store == Save(old(store), key, value).value
                && order == (if key.value in old(store) then old(order) else old(order) + [key.value])
                && diskWrites == old(diskWrites) + (if diskError.None? then [store] else [])
                && r == (if diskError.None? then Success("Value saved for key: " + key.value)
                         else Failure(diskError.value))
    {
      if !Truthy(key) || !Truthy(value) {
        return Failure(KeyValueRequired);
      }
      if key.value !in store {
        order := order + [key.value];
      }
      store := store[key.value := value.value];
      var written := SaveToDisk(diskError);
      if written.Failure? {
        return Failure(written.error);
      }
      return Success("Value saved for key: " + key.value);
    }

    /** `deleteMemory`: only a removal is written to disk. */
    method DeleteMemory(key: Option<string>, diskError: Option<string>) returns (r: Result<string, string>)
      requires Valid()
      modifies this
      ensures Valid()
      ensures Delete(old(store), key).Failure? ==>
                && r == Failure(KeyRequired)
                && store == old(store) && order == old(order) && diskWrites == old(diskWrites)
      ensures Delete(old(store), key).Success? ==>
                var d := Delete(old(store), key).value;
                && store == d.store
                && order == RemoveKey(old(order), key.value)
                && diskWrites == old(diskWrites) + (if d.removed && diskError.None? then [store] else [])
                && r == (if d.removed && diskError.Some? then Failure(diskError.value) else Success(d.reply))
    {
      if !Truthy(key) {
        return Failure(KeyRequired);
      }
      if key.value in store {
        store := store - {key.value};
        order := RemoveKey(order, key.value);
        var written := SaveToDisk(diskError);
        if written.Failure? {
          return Failure(written.error);
        }
        return Success("Deleted key: " + key.value);
      }
      assert RemoveKey(order, key.value) == order by {
        RemoveAbsentKey(order, key.value);
      }
      return Success("Key not found: " + key.value);
    }

    /** `listMemoryKeys`: every key of the store exactly once. */
    function ListMemoryKeys(): (ks: seq<string>)
      reads this
      requires Valid()
      ensures NoDup(ks)
      ensures forall k :: k in ks <==> k in store
      ensures |ks| == |store|
    {
      DistinctKeysCount(order, store);
      order
    }

    /** `handleRequest`: an unknown tool is refused with "Tool <name> not
        found" and changes nothing; otherwise the named tool runs, and its
        result (or error) is the request's. */
    method HandleRequest(tool: Option<string>, params: Params, services: Services, diskError: Option<string>)
      returns (r: Result<Reply, string>)
      requires Valid()
      modifies this
      ensures Valid()
      ensures !IsTool(tool) ==> r == Failure("Tool " + ToolLabel(tool) + " not found")
      ensures tool != Some("saveMemory") && tool != Some("deleteMemory") ==>
                store == old(store) && order == old(order) && diskWrites == old(diskWrites)
      ensures tool == Some("saveMemory") && Save(old(store), params.key, params.value).Failure? ==>
                && r == Failure(KeyValueRequired)
                && store == old(store) && order == old(order) && diskWrites == old(diskWrites)
      ensures tool == Some("saveMemory") && Save(old(store), params.key, params.value).Success? ==>
                var key := params.key.value;
                && store == Save(old(store), params.key, params.value).value
                && order == (if key in old(store) then old(order) else old(order) + [key])
                && diskWrites == old(diskWrites) + (if diskError.None? then [store] else [])
                && r == (if diskError.None? then Success(Text("Value saved for key: " + key))
                         else Failure(diskError.value))
      ensures tool == Some("deleteMemory") && Delete(old(store), params.key).Failure? ==>
                && r == Failure(KeyRequired)
                && store == old(store) && order == old(order) && diskWrites == old(diskWrites)
      ensures tool == Some("deleteMemory") && Delete(old(store), params.key).Success? ==>
                var d := Delete(old(store), params.key).value;
                && store == d.store
                && order == RemoveKey(old(order), params.key.value)
                && diskWrites == old(diskWrites) + (if d.removed && diskError.None? then [store] else [])
                && r == (if d.removed && diskError.Some? then Failure(diskError.value) else Success(Text(d.reply)))
      ensures tool == Some("recallMemory") ==> r == TextReply(Recall(store, params.key))
      ensures tool == Some("listMemoryKeys") ==> r == Success(KeyList(order))
      ensures tool == Some("saveAndEmbedMemory") ==> r == SaveAndEmbed(params.content, params.metadata, services)
      ensures tool == Some("searchSimilarMemory") ==> r == SearchSimilar(params.queryText, params.limit, services)
      ensures tool == Some("listAllMemories") ==> r == ListAll(services)
    {
      if !IsTool(tool) {
        return Failure("Tool " + ToolLabel(tool) + " not found");
      }
      var name := tool.value;
      if name == "saveMemory" {
        var saved := SaveMemory(params.key, params.value, diskError);
        r := TextReply(saved);
      } else if name == "recallMemory" {
        r := TextReply(Recall(store, params.key));
      } else if name == "listMemoryKeys" {
        r := Success(KeyList(ListMemoryKeys()));
      } else if name == "deleteMemory" {
        var deleted := DeleteMemory(params.key, diskError);
        r := TextReply(deleted);
      } else if name == "saveAndEmbedMemory" {
        r := SaveAndEmbed(params.content, params.metadata, services);
      } else if name == "searchSimilarMemory" {
        r := SearchSimilar(params.queryText, params.limit, services);
      } else {
        r := ListAll(services);
      }
    }
  }

  lemma {:induction false} RemoveAbsentKey(order: seq<string>, k: string)
    requires k !in order
    ensures RemoveKey(order, k) == order
  {
    if order != [] {
      RemoveAbsentKey(order[1..], k);
      assert order == [order[0]] + order[1..];
    }
  }

  /** A duplicate-free listing of exactly the keys of `store` has one entry
      per key. */
  lemma {:induction false} DistinctKeysCount(order: seq<string>, store: Store)
    requires NoDup(order) && forall k :: k in order <==> k in store
    ensures |order| == |store|
  {
    if order == [] {
      assert store.Keys == {};
    } else {
      var k := order[0];
      var rest := order[1..];
      assert k !in rest;
      assert forall x :: x in rest <==> x in store - {k};
      DistinctKeysCount(rest, store - {k});
    }
  }
}
