/** The search driver of bt.py (`find_vanity`), run sequentially: both
    pattern strings are validated before any worker exists; then the workers
    run one after another, each over its own stub of keypairs and all adding
    to one counter that starts at zero, and the first result put on the queue
    ends the search. */
module Search {
  import opened Wrappers
  import opened Base58
  import opened Matcher
  import opened Mining

  /** The two `validate_base58_string` calls at the head of `find_vanity`:
      the prefix is checked first and its error wins; the suffix is checked
      only when the prefix passes. */
  function ValidatePattern(prefix: string, suffix: string): (r: Outcome<InvalidCharacter>)
    ensures r.Pass? <==> AllBase58(prefix) && AllBase58(suffix)
    ensures !AllBase58(prefix) ==> r.Fail? && IsFirstInvalid(prefix, r.error.index) && r.error.ch == prefix[r.error.index]
    ensures AllBase58(prefix) && !AllBase58(suffix) ==>
      r.Fail? && IsFirstInvalid(suffix, r.error.index) && r.error.ch == suffix[r.error.index]
  {
    match Validate(prefix)
    case Fail(e) => Fail(e)
    case Pass => Validate(suffix)
  }

  /** The workers of one search, run one after another over their own
      stubs (one possible schedule of the process pool), all adding to the
      shared counter that `find_vanity` creates at zero. The first worker to
      put a result on the queue ends the search; the workers after it are
      terminated before they draw anything. */
  method RunWorkers(prefix: string, suffix: string, streams: seq<seq<Keypair>>, batchSize: int)
    returns (found: Option<MatchResult>, counter: int)
    requires batchSize >= 1
    ensures counter >= 0 && counter % batchSize == 0
    ensures found.Some? ==>
      && CheckVanity(found.value.publicKey, prefix, suffix)
      && exists w, i ::
        && 0 <= w < |streams|
        && IsFirstHit(streams[w], prefix, suffix, i)
        && found.value == MatchResult(streams[w][i].publicKey, streams[w][i].secretKey)
        && forall v :: 0 <= v < w ==> NoHitBefore(streams[v], prefix, suffix, |streams[v]|)
    ensures found.None? ==>
      forall w :: 0 <= w < |streams| ==> NoHitBefore(streams[w], prefix, suffix, |streams[w]|)
  {
    counter := 0;
    ghost var batches: nat := 0;
    var w := 0;
    while w < |streams|
      invariant 0 <= w <= |streams|
      invariant counter == batchSize * batches
      invariant forall v :: 0 <= v < w ==> NoHitBefore(streams[v], prefix, suffix, |streams[v]|)
    {
      var result, after, examined := Worker(prefix, suffix, streams[w], batchSize, counter);
      ghost var added := if result.Some? then CompletedBatches(examined - 1, batchSize)
                         else CompletedBatches(|streams[w]|, batchSize);
      assert after == counter + batchSize * added;
      BatchesAddUp(batchSize, batches, added);
      batches := batches + added;
      counter := after;
      if result.Some? {
        ghost var i := examined - 1;
        assert IsFirstHit(streams[w], prefix, suffix, i);
        BatchesAddUp(batchSize, batches, 0);
        return result, counter;
      }
      w := w + 1;
    }
    BatchesAddUp(batchSize, batches, 0);
    return None, counter;
  }

  /** `find_vanity` with one stub per worker process. An invalid pattern
      fails the call before any worker is created; otherwise all
      `|streams|` workers are created and run until one finds a key, whose
      pair is returned. */
  method FindVanity(prefix: string, suffix: string, streams: seq<seq<Keypair>>, batchSize: int)
    returns (outcome: Result<Option<MatchResult>, InvalidCharacter>, counter: int, spawned: nat)
    requires batchSize >= 1
    ensures outcome.Failure? <==> ValidatePattern(prefix, suffix).Fail?
    ensures outcome.Failure? ==>
      && ValidatePattern(prefix, suffix) == Fail(outcome.error)
      && spawned == 0
      && counter == 0
    ensures outcome.Success? ==> spawned == |streams| && counter >= 0 && counter % batchSize == 0
    ensures outcome.Success? && outcome.value.Some? ==>
      && CheckVanity(outcome.value.value.publicKey, prefix, suffix)
      && exists w, i ::
        && 0 <= w < |streams|
        && IsFirstHit(streams[w], prefix, suffix, i)
        && outcome.value.value == MatchResult(streams[w][i].publicKey, streams[w][i].secretKey)
    ensures outcome.Success? && outcome.value.None? ==>
      forall w :: 0 <= w < |streams| ==> NoHitBefore(streams[w], prefix, suffix, |streams[w]|)
  {
    var check := ValidatePattern(prefix, suffix);
    if check.Fail? {
      return Failure(check.error), 0, 0;
    }
    spawned := |streams|;
    var found;
    found, counter := RunWorkers(prefix, suffix, streams, batchSize);
    outcome := Success(found);
  }
}
