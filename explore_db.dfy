/** The metadata-key tally of explore-db.js: the distinct metadata keys of
    the fetched rows in order of first appearance (`uniqueTypes`), and for
    each key the number of rows whose metadata carries it (`typeCounts`).
    The input is the `metadata` column of the rows the query returned. */
module ExploreDb {
  import opened Common
  import opened Json

  /** `metadataTypes.map(m => Object.keys(m.metadata)).flat()`. */
  function Flatten(rows: seq<Metadata>): (ks: seq<string>)
    ensures forall k :: k in ks <==> exists i :: 0 <= i < |rows| && k in Keys(rows[i])
  {
    if |rows| == 0 then []
    else
      var init := rows[..|rows| - 1];
      var ks := Flatten(init) + Keys(rows[|rows| - 1]);
      assert forall i :: 0 <= i < |init| ==> rows[i] == init[i];
      ks
  }

  /** `[...new Set(ks)]`: the first occurrence of each element, in order. */
  function Dedupe(ks: seq<string>): (u: seq<string>)
    ensures NoDup(u)
    ensures forall k :: k in u <==> k in ks
  {
    if |ks| == 0 then []
    else
      var d := Dedupe(ks[..|ks| - 1]);
      assert ks == ks[..|ks| - 1] + [ks[|ks| - 1]];
      if ks[|ks| - 1] in d then d else d + [ks[|ks| - 1]]
  }

  /** `uniqueTypes`. */
  function UniqueTypes(rows: seq<Metadata>): (types: seq<string>)
    ensures NoDup(types)
    ensures forall k :: k in types <==> exists i :: 0 <= i < |rows| && k in Keys(rows[i])
  {
    Dedupe(Flatten(rows))
  }

  /** The position of the first occurrence of `k` in `ks`. */
  function FirstIndex(ks: seq<string>, k: string): (i: nat)
    requires k in ks
    ensures i < |ks| && ks[i] == k
    ensures forall j :: 0 <= j < i ==> ks[j] != k
  {
    if ks[0] == k then 0 else 1 + FirstIndex(ks[1..], k)
  }

  lemma FirstIndexOfPrefix(ks: seq<string>, n: nat, k: string)
    requires n <= |ks| && k in ks[..n]
    ensures FirstIndex(ks[..n], k) == FirstIndex(ks, k)
  {
    var i := FirstIndex(ks[..n], k);
    var j := FirstIndex(ks, k);
    assert ks[i] == k;
  }

  /** `Dedupe` lists elements in the order they first appear. */
  lemma {:induction false} DedupeKeepsFirstAppearanceOrder(ks: seq<string>)
    ensures forall a, b :: 0 <= a < b < |Dedupe(ks)| ==>
              FirstIndex(ks, Dedupe(ks)[a]) < FirstIndex(ks, Dedupe(ks)[b])
  {
    if |ks| > 0 {
      var n := |ks| - 1;
      var init := ks[..n];
      var last := ks[n];
      var d := Dedupe(init);
      DedupeKeepsFirstAppearanceOrder(init);
      assert ks == init + [last];
      forall a, b | 0 <= a < b < |Dedupe(ks)|
        ensures FirstIndex(ks, Dedupe(ks)[a]) < FirstIndex(ks, Dedupe(ks)[b])
      {
        assert d[a] in init;
        FirstIndexOfPrefix(ks, n, d[a]);
        if b < |d| {
          assert d[b] in init;
          FirstIndexOfPrefix(ks, n, d[b]);
        } else {
          assert Dedupe(ks)[b] == last && last !in init;
          assert FirstIndex(ks, last) == n;
        }
      }
    }
  }

  /** The three promises of `uniqueTypes`: no key twice, exactly the keys some
      row carries, and in order of first appearance across the rows. */
  lemma UniqueTypesSpec(rows: seq<Metadata>)
    ensures NoDup(UniqueTypes(rows))
    ensures forall k :: k in UniqueTypes(rows) <==> exists i :: 0 <= i < |rows| && k in Keys(rows[i])
    ensures forall a, b :: 0 <= a < b < |UniqueTypes(rows)| ==>
              FirstIndex(Flatten(rows), UniqueTypes(rows)[a]) < FirstIndex(Flatten(rows), UniqueTypes(rows)[b])
  {
    DedupeKeepsFirstAppearanceOrder(Flatten(rows));
  }

  /** How many rows' metadata carry `k`. */
  function RowsWithKey(rows: seq<Metadata>, k: string): (n: nat)
    ensures n <= |rows|
    ensures n > 0 <==> exists i :: 0 <= i < |rows| && k in Keys(rows[i])
  {
    if |rows| == 0 then 0
    else
      var init := rows[..|rows| - 1];
      assert forall i :: 0 <= i < |init| ==> rows[i] == init[i];
      RowsWithKey(init, k) + (if k in Keys(rows[|rows| - 1]) then 1 else 0)
  }

  lemma KeysHaveNoDup(m: Metadata)
    ensures NoDup(Keys(m))
  {
  }

  /** The inner `forEach`: one more for each of a row's keys, which are
      distinct, starting from zero for a key not yet counted. */
  method CountKeys(counts: map<string, nat>, keys: seq<string>) returns (out: map<string, nat>)
    requires NoDup(keys)
    ensures forall k :: k in out <==> k in counts || k in keys
    ensures forall k :: k in out ==>
              out[k] == (if k in counts then counts[k] else 0) + (if k in keys then 1 else 0)
  {
    out := counts;
    var j := 0;
    while j < |keys|
      invariant 0 <= j <= |keys|
      invariant forall k :: k in out <==> k in counts || k in keys[..j]
      invariant forall k :: k in out ==>
                  out[k] == (if k in counts then counts[k] else 0) + (if k in keys[..j] then 1 else 0)
    {
      var t := keys[j];
      assert t !in keys[..j];
      assert keys[..j + 1] == keys[..j] + [t];
      out := out[t := (if t in out then out[t] else 0) + 1];
      j := j + 1;
    }
    assert keys[..j] == keys;
  }

  /** `typeCounts`: for each row, for each of its keys, add one to the key's
      count (`(typeCounts[type] || 0) + 1`). */
  method TypeCounts(rows: seq<Metadata>) returns (counts: map<string, nat>)
    ensures forall k :: k in counts <==> k in UniqueTypes(rows)
    ensures forall k :: k in counts ==> counts[k] == RowsWithKey(rows, k)
    ensures forall k :: k in counts ==> 1 <= counts[k] <= |rows|
  {
    counts := map[];
    var i := 0;
    while i < |rows|
      invariant 0 <= i <= |rows|
      invariant forall k :: k in counts <==> k in Flatten(rows[..i])
      invariant forall k :: k in counts ==> counts[k] == RowsWithKey(rows[..i], k)
    {
      KeysHaveNoDup(rows[i]);
      assert rows[..i + 1][..i] == rows[..i];
      assert rows[..i + 1][i] == rows[i];
      NoKeyNoRows(rows[..i]);
      counts := CountKeys(counts, Keys(rows[i]));
      i := i + 1;
    }
    assert rows[..i] == rows;
  }

  /** A key that no row carries is counted by no row. */
  lemma NoKeyNoRows(rows: seq<Metadata>)
    ensures forall k :: k !in Flatten(rows) ==> RowsWithKey(rows, k) == 0
  {
  }
}
