/** The bookkeeping shared by the two job loops of the workflow builders
    (src/CdkDeployPipeline.ts:222-307, src/CdkDeployDispatchWorkflow.ts:66-132):
    iteration `j` assigns `jobs[ids[j]] = vals[j]` unless `skip[j]`, into a
    record that may already hold some entries.  As with any JavaScript
    object, a later assignment to the same key replaces the earlier one. */
module JobLoop {

  /** No iteration after `i` and before `n` writes key `ids[i]` again. */
  predicate LastBefore(ids: seq<string>, skip: seq<bool>, n: int, i: int)
    requires |skip| == |ids| && 0 <= i < n <= |ids|
  {
    forall j :: i < j < n && !skip[j] ==> ids[j] != ids[i]
  }

  /** The keys the first `n` iterations write. */
  function Written(ids: seq<string>, skip: seq<bool>, n: int): set<string>
    requires |skip| == |ids| && 0 <= n <= |ids|
  {
    set j | 0 <= j < n && !skip[j] :: ids[j]
  }

  /** The record after the first `n` iterations, started from `before`:
      the keys are those of `before` and those written, the old entries that
      no iteration wrote are kept, and every written key holds the value of
      the last iteration that wrote it. */
  ghost predicate WrittenLast<V>(ids: seq<string>, skip: seq<bool>, vals: seq<V>, n: int,
                                 before: map<string, V>, m: map<string, V>)
    requires |skip| == |ids| && |vals| == |ids| && 0 <= n <= |ids|
  {
    && m.Keys == before.Keys + Written(ids, skip, n)
    && (forall k :: k in before && k !in Written(ids, skip, n) ==> m[k] == before[k])
    && (forall j :: 0 <= j < n && !skip[j] && LastBefore(ids, skip, n, j) ==> m[ids[j]] == vals[j])
  }

  // ---------------------------------------------------------------------
  // Lemmas

  lemma WrittenStep(ids: seq<string>, skip: seq<bool>, n: int)
    requires |skip| == |ids| && 0 <= n < |ids|
    ensures Written(ids, skip, n + 1) == Written(ids, skip, n) + (if skip[n] then {} else {ids[n]})
  {
    var extra := if skip[n] then {} else {ids[n]};
    forall x | x in Written(ids, skip, n + 1) ensures x in Written(ids, skip, n) + extra {
      var j :| 0 <= j < n + 1 && !skip[j] && ids[j] == x;
      if j < n {
        assert x in Written(ids, skip, n);
      }
    }
  }

  lemma LastBeforeShrinks(ids: seq<string>, skip: seq<bool>, n: int, j: int)
    requires |skip| == |ids| && 0 <= j < n < |ids|
    requires LastBefore(ids, skip, n + 1, j)
    ensures LastBefore(ids, skip, n, j)
    ensures !skip[n] ==> ids[n] != ids[j]
  {
  }

  /** A skipped iteration keeps `WrittenLast`. */
  lemma SkipStep<V>(ids: seq<string>, skip: seq<bool>, vals: seq<V>, n: int,
                    before: map<string, V>, m: map<string, V>)
    requires |skip| == |ids| && |vals| == |ids| && 0 <= n < |ids| && skip[n]
    requires WrittenLast(ids, skip, vals, n, before, m)
    ensures WrittenLast(ids, skip, vals, n + 1, before, m)
  {
    WrittenStep(ids, skip, n);
    forall j | 0 <= j < n + 1 && !skip[j] && LastBefore(ids, skip, n + 1, j)
      ensures m[ids[j]] == vals[j]
    {
      LastBeforeShrinks(ids, skip, n, j);
    }
  }

  /** A writing iteration keeps `WrittenLast`. */
  lemma WriteStep<V>(ids: seq<string>, skip: seq<bool>, vals: seq<V>, n: int,
                     before: map<string, V>, m: map<string, V>)
    requires |skip| == |ids| && |vals| == |ids| && 0 <= n < |ids| && !skip[n]
    requires WrittenLast(ids, skip, vals, n, before, m)
    ensures WrittenLast(ids, skip, vals, n + 1, before, m[ids[n] := vals[n]])
  {
    WrittenStep(ids, skip, n);
    var after := m[ids[n] := vals[n]];
    assert after.Keys == before.Keys + Written(ids, skip, n + 1);
    forall j | 0 <= j < n + 1 && !skip[j] && LastBefore(ids, skip, n + 1, j)
      ensures after[ids[j]] == vals[j]
    {
      if j < n {
        LastBeforeShrinks(ids, skip, n, j);
      }
    }
  }

  /** Every iteration that writes has a last writer of its key at or after
      it. */
  lemma {:induction false} LastExists(ids: seq<string>, skip: seq<bool>, i: int) returns (k: int)
    requires |skip| == |ids| && 0 <= i < |ids| && !skip[i]
    decreases |ids| - i
    ensures i <= k < |ids| && ids[k] == ids[i] && !skip[k]
    ensures LastBefore(ids, skip, |ids|, k)
  {
    if LastBefore(ids, skip, |ids|, i) {
      k := i;
    } else {
      var j :| i < j < |ids| && !skip[j] && ids[j] == ids[i];
      k := LastExists(ids, skip, j);
    }
  }

  /** After the whole loop every written key holds the value of its last
      writer. */
  lemma LastWriter<V>(ids: seq<string>, skip: seq<bool>, vals: seq<V>,
                      before: map<string, V>, m: map<string, V>, key: string) returns (k: int)
    requires |skip| == |ids| && |vals| == |ids|
    requires WrittenLast(ids, skip, vals, |ids|, before, m)
    requires key in Written(ids, skip, |ids|)
    ensures 0 <= k < |ids| && !skip[k] && ids[k] == key
    ensures LastBefore(ids, skip, |ids|, k)
    ensures key in m && m[key] == vals[k]
  {
    var i :| 0 <= i < |ids| && !skip[i] && ids[i] == key;
    k := LastExists(ids, skip, i);
  }
}
