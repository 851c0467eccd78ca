/** The worker of bt.py (`worker`), run sequentially over a finite stub of
    keypairs instead of fresh random ones, with its share of the progress
    counter as a plain integer and its result queue as an optional value. */
module Mining {
  import opened Wrappers
  import opened Matcher

  /** A generated keypair, seen only through its two text encodings: the
      public key (`str(keypair.pubkey())`) and the base-58 encoding of the
      secret key bytes. */
  datatype Keypair = Keypair(publicKey: string, secretKey: string)

  /** The pair a worker puts on the queue when it finds a vanity key. */
  datatype MatchResult = MatchResult(publicKey: string, secretKey: string)

  /** The keypair satisfies the vanity pattern. */
  predicate IsHit(kp: Keypair, prefix: string, suffix: string) {
    CheckVanity(kp.publicKey, prefix, suffix)
  }

  /** None of the first `n` candidates satisfies the pattern. */
  predicate NoHitBefore(candidates: seq<Keypair>, prefix: string, suffix: string, n: int)
    requires n <= |candidates|
  {
    forall k :: 0 <= k < n ==> !IsHit(candidates[k], prefix, suffix)
  }

  /** Candidate `i` is the earliest one satisfying the pattern. */
  predicate IsFirstHit(candidates: seq<Keypair>, prefix: string, suffix: string, i: int) {
    && 0 <= i < |candidates|
    && IsHit(candidates[i], prefix, suffix)
    && NoHitBefore(candidates, prefix, suffix, i)
  }

  /** The number of whole batches of `batchSize` among the first `n` draws. */
  function CompletedBatches(n: nat, batchSize: int): nat
    requires batchSize >= 1
  {
    n / batchSize
  }

  /** A non-zero multiple of a positive `b` is at least `b` away from zero. */
  lemma NonZeroMultiple(b: int, k: int)
    requires b >= 1
    ensures k >= 1 ==> b * k >= b
    ensures k <= -1 ==> b * k <= -b
  {
    if k >= 1 {
      assert b * k == b * (k - 1) + b;
    } else if k <= -1 {
      assert b * k == b * (k + 1) - b;
    }
  }

  /** Whole batches add up: `n` batches and then `m` more make `n + m`, and
      any number of whole batches is a non-negative multiple of the batch. */
  lemma BatchesAddUp(b: int, n: nat, m: nat)
    requires b >= 1
    ensures b * n + b * m == b * (n + m)
    ensures b * n >= 0
    ensures (b * n) % b == 0
  {
    var q := (b * n) / b;
    var r := (b * n) % b;
    assert b * q + r == b * n;
    assert b * (n - q) == r;
    NonZeroMultiple(b, n - q);
  }

  /** Drawing `q` whole batches and then `j` more (fewer than a batch) puts
      the draw count in batch `q`. */
  lemma BatchOfDraw(batchSize: int, q: nat, j: nat)
    requires batchSize >= 1 && j < batchSize
    ensures CompletedBatches(batchSize * q + j, batchSize) == q
  {
    var n := batchSize * q + j;
    var d := n / batchSize;
    var m := n % batchSize;
    assert batchSize * d + m == n;
    assert batchSize * (d - q) == j - m;
    NonZeroMultiple(batchSize, d - q);
  }

  /** `worker`: draws candidates in batches of `batchSize`, returns the first
      one whose public key matches (examining nothing after it), and adds
      `batchSize` to the counter after each whole batch without a match. A
      stub that runs dry stops the worker with no result; the unfinished
      batch adds nothing. */
  method Worker(prefix: string, suffix: string, candidates: seq<Keypair>, batchSize: int, counter0: int)
    returns (found: Option<MatchResult>, counter: int, examined: nat)
    requires batchSize >= 1
    ensures examined <= |candidates|
    ensures counter0 <= counter
    ensures found.Some? ==>
      && IsFirstHit(candidates, prefix, suffix, examined - 1)
      && found.value == MatchResult(candidates[examined - 1].publicKey, candidates[examined - 1].secretKey)
      && counter == counter0 + batchSize * CompletedBatches(examined - 1, batchSize)
    ensures found.None? ==>
      && examined == |candidates|
      && NoHitBefore(candidates, prefix, suffix, |candidates|)
      && counter == counter0 + batchSize * CompletedBatches(|candidates|, batchSize)
  {
    counter := counter0;
    examined := 0;
    ghost var batches: nat := 0;
    while true
      invariant examined <= |candidates|
      invariant examined == batchSize * batches
      invariant counter == counter0 + batchSize * batches
      invariant counter0 <= counter
      invariant NoHitBefore(candidates, prefix, suffix, examined)
      decreases |candidates| - examined
    {
      var j := 0;
      while j < batchSize
        invariant 0 <= j <= batchSize
        invariant examined == batchSize * batches + j
        invariant examined <= |candidates|
        invariant NoHitBefore(candidates, prefix, suffix, examined)
      {
        if examined == |candidates| {
          BatchOfDraw(batchSize, batches, j);
          return None, counter, examined;
        }
        var kp := candidates[examined];
        examined := examined + 1;
        if CheckVanity(kp.publicKey, prefix, suffix) {
          BatchOfDraw(batchSize, batches, j);
          return Some(MatchResult(kp.publicKey, kp.secretKey)), counter, examined;
        }
        j := j + 1;
      }
      counter := counter + batchSize;
      batches := batches + 1;
    }
  }

  /** With an empty prefix and an empty suffix no candidate is a hit, so a
      worker that receives such a pattern can only run its stub dry. */
  lemma EmptyPatternHasNoHit(candidates: seq<Keypair>)
    ensures NoHitBefore(candidates, "", "", |candidates|)
    ensures forall i :: !IsFirstHit(candidates, "", "", i)
  {
    forall k | 0 <= k < |candidates|
      ensures !IsHit(candidates[k], "", "")
    {
      EmptyPatternNeverMatches(candidates[k].publicKey);
    }
  }

  /** At most one candidate is the first hit. */
  lemma FirstHitUnique(candidates: seq<Keypair>, prefix: string, suffix: string, i: int, j: int)
    requires IsFirstHit(candidates, prefix, suffix, i)
    requires IsFirstHit(candidates, prefix, suffix, j)
    ensures i == j
  {
  }

  /** The worked scenario of a prefix-only search: with prefix "AB" and the
      stub "xx", "AByy", "zz" the worker returns "AByy" after two draws,
      never drawing "zz", and completes no batch of ten. */
  method ExampleRun() returns (found: Option<MatchResult>, counter: int, examined: nat)
    ensures found == Some(MatchResult("AByy", "secret-1"))
    ensures examined == 2
    ensures counter == 0
  {
    var stub := [Keypair("xx", "secret-0"), Keypair("AByy", "secret-1"), Keypair("zz", "secret-2")];
    assert IsHit(stub[1], "AB", "") by {
      assert stub[1].publicKey[..2] == "AB";
    }
    assert !IsHit(stub[0], "AB", "") by {
      assert stub[0].publicKey[..2] != "AB" by {
        assert stub[0].publicKey[0] != 'A';
      }
    }
    assert IsFirstHit(stub, "AB", "", 1);
    found, counter, examined := Worker("AB", "", stub, 10, 0);
    FirstHitUnique(stub, "AB", "", 1, examined - 1);
  }
}
