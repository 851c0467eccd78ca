# Solana vanity-address miner: a verified model of its search core

`bt.py` searches for a Solana keypair whose base-58 public key starts with a
chosen prefix and/or ends with a chosen suffix. It first validates both pattern
strings against the base-58 alphabet. Then it starts `num_processes` worker
processes. Each worker generates random keypairs in batches. After every batch
without a match, it adds the batch size to a shared counter. The first worker
that finds a match puts the public key and the encoded secret key on a queue.
The parent then terminates all workers and returns that pair.

This Dafny project models the sequential logic underneath:

- `wrappers.dfy` (module `Wrappers`): `Option`, `Outcome` and `Result`. These
  stand for the single-slot result queue, a check that raises `ValueError`, and
  a call that either returns a value or raises.
- `base58.dfy` (module `Base58`): `BASE58_ALPHABET` and
  `validate_base58_string`. The scan reports the offending character and its
  position.
- `matcher.dfy` (module `Matcher`): `check_vanity`, with Python's `startswith`
  and `endswith`.
- `counter.dfy` (module `Counter`): the shared `multiprocessing.Value('i', 0)`.
  It is a 32-bit C `int`, and storing a larger sum into it keeps only the low
  32 bits.
- `mining.dfy` (module `Mining`): `worker`, made sequential. Its candidates come
  from a finite stub sequence of keypairs, not from random generation. Its
  counter is a plain integer.
- `search.dfy` (module `Search`): `find_vanity`, made sequential. It validates
  both patterns before any worker exists. It then runs the workers one after
  another, each over its own stub, all sharing one counter. The first result
  ends the search.

The alphabet is written as three literals, one per character run: the digits,
the upper-case letters and the lower-case letters. Read one after another, they
spell exactly the string at `bt.py:11`. Its membership and ordering facts are
proved run by run.

Workers are stopped with `terminate()` (`bt.py:77-78`). An error raised by
`Keypair()` (`bt.py:15`) is not caught by the worker.

## Model

| member | source | states |
|---|---|---|
| Base58.Alphabet | bt.py:11 | `BASE58_ALPHABET` as the digits run, the upper-case run and the lower-case run joined; that this equals the single literal of the source holds by reading the text, not by a proof |
| Base58.AlphabetShape | bt.py:11 | The alphabet has exactly 58 characters, all pairwise distinct, and contains none of '0', 'O', 'I', 'l' |
| Base58.InAlphabetIff | bt.py:11 | A character is in the alphabet iff it is a digit 1-9, an upper-case letter other than I and O, or a lower-case letter other than l |
| Base58.ScanFrom | bt.py:30-32 | The loop resumed at position i passes iff every later character is in the alphabet; on failure it reports a position at or after i whose character is outside the alphabet, with every character between i and that position inside it |
| Base58.Validate | bt.py:28-32 | Validation passes iff every character of the string is in the alphabet; on failure it reports the leftmost offending position and the character found there |
| Base58.ValidateEmpty | bt.py:28-32 | The empty string, meaning no constraint, is always accepted |
| Base58.ValidateReportsFirstOffender | bt.py:30-32 | A rejection reports position i exactly when i is the leftmost character outside the alphabet, in both directions |
| Base58.ValidateAgreesWithRanges | bt.py:28-32 | Validation passes iff every character lies in the range description of base-58 |
| Base58.ScanConcat | bt.py:30-32 | The scan is left to right: on a concatenation, an offender in the front part is reported unchanged; otherwise the back part's verdict is reported, with its position shifted by the front's length |
| Matcher.StartsWith | bt.py:21-23 | Python's `startswith`, used at lines 21 and 23: true iff the prefix is no longer than the key and agrees with the key position by position from the start |
| Matcher.EndsWith | bt.py:21-25 | Python's `endswith`, used at lines 21 and 25: true iff the suffix is no longer than the key and agrees with the key's last characters position by position |
| Matcher.StartsWithIff | bt.py:21 | `startswith(prefix)` holds iff the key is the prefix followed by some string |
| Matcher.EndsWithIff | bt.py:25 | `endswith(suffix)` holds iff the key is some string followed by the suffix |
| Matcher.CheckVanity | bt.py:17-26 | The three-way if/elif equals one specification: at least one constraint is non-empty, and the key starts with the prefix when it is non-empty and ends with the suffix when it is non-empty |
| Matcher.EmptyPatternNeverMatches | bt.py:26 | With both prefix and suffix empty, no key matches |
| Matcher.AssembledKeyMatches | bt.py:20-25 | Every pattern with a non-empty part is met: prefix, then any middle, then suffix matches |
| Counter.Wrap32 | bt.py:57 | The value a C `int` holds after an assignment is in the signed 32-bit range, congruent to the assigned value modulo 2^32, and equal to it when it fits |
| Counter.Add32 | bt.py:44-45 | `counter.value += batch_size` leaves a signed 32-bit value congruent to the old value plus the batch size |
| Counter.AddBatches32 | bt.py:44-45 | `n` executions of the locked `counter.value += batch_size` on the 32-bit cell; the cell stays in the signed 32-bit range |
| Counter.AddBatches32Tracks | bt.py:44-45 | After n batches the 32-bit cell holds the true total (start plus n times the batch size) reduced into the signed 32-bit range |
| Counter.CounterWrapsNegative | bt.py:57 | One batch of 10 added to a cell holding 2147483640 leaves -2147483646, so the displayed count goes down |
| Mining.BatchOfDraw | bt.py:37-45 | A draw made after q whole batches and fewer than one more batch falls in completed-batch count q |
| Mining.Worker | bt.py:34-45 | Returns the first candidate whose key matches, after examining exactly the candidates up to and including it; returns nothing only after the whole stub was examined and none matched. The counter grows by batch_size for each whole batch before the match (or before exhaustion) and by nothing for the partial batch |
| Mining.EmptyPatternHasNoHit | bt.py:26 | With an empty prefix and suffix, no candidate is a hit and no candidate is the first hit, so a worker can only exhaust its stub |
| Mining.FirstHitUnique | bt.py:36-43 | At most one candidate is the first hit, so the worker's result is determined by the stub and the pattern |
| Mining.ExampleRun | bt.py:34-45 | With prefix "AB" and the stub "xx", "AByy", "zz", the worker returns "AByy" after two draws, never draws "zz", and adds nothing to the counter |
| Search.ValidatePattern | bt.py:53-54 | Passes iff both prefix and suffix are base-58; an invalid prefix is reported first, at its leftmost offender, and the suffix is reported only when the prefix is valid |
| Search.RunWorkers | bt.py:56-78 | A returned pair matches the pattern and is the first hit of some worker's stub, and every earlier worker's stub holds no hit; no result means no stub holds a hit; the counter is a non-negative multiple of batch_size |
| Search.FindVanity | bt.py:51-83 | An invalid pattern fails the call with the validator's error, with no worker created and the counter untouched; otherwise all workers are created, and a returned pair matches the pattern and is the first hit of some worker's stub |

## Left out

- Keypair generation (`Keypair()`, `pubkey()`, `bytes(keypair)`) is replaced by a finite stub sequence of `Keypair` values. Each value carries the public-key text and the secret-key text. The generation is a foreign library call with cryptographic randomness.
- `base58.b58encode` of the secret key is not modelled. The stub already holds the encoded secret key, because the encoder is an external library.
- The concurrency (`multiprocessing.Queue`, `Value`, `get_lock`, `Process.start`/`terminate`) is replaced by one sequential schedule. The workers run one after another, and the first result ends the search. The counter is a plain integer and the queue is one optional value. Other interleavings are not modelled.
- The progress display loop (`bt.py:65-73`) is not modelled: it uses wall-clock time, float `divmod`, writes to `sys.stdout` and `sleep`.
- `play_notification_sound` and its thread are not modelled: they are audio I/O.
- The `argparse` command line and the printing of the result and of the error message are not modelled: they are I/O. The text of the `ValueError` message is not modelled either.
- Exhaustion of the stub has no counterpart in the source, whose generator never runs dry. When the stub runs out, the model's worker stops with no result. A partial last batch adds nothing to the counter.
- A `batch_size` of zero or less is excluded by `requires batchSize >= 1`. With such a value, `range(batch_size)` is empty, and the source's worker loops forever without drawing a key.
- `num_processes` of zero or less makes the source wait forever on an empty queue. The model, given no streams, returns no result.
- Base58.Validate: the error also carries the offender's index; the source's `ValueError` (bt.py:32) names only the character.
- Search.FindVanity: states the counter only as a non-negative multiple of batch_size, not the exact per-worker sum. The exact amount is stated per worker by Mining.Worker.
- Search.RunWorkers: states the counter only as a non-negative multiple of batch_size, for the same reason.

## Findings

| source | as written | input that shows it | evidently intended | confidence | as-written member | corrected member |
|---|---|---|---|---|---|---|
| bt.py:57 | The wallet counter is `multiprocessing.Value('i', 0)`, a 32-bit signed C `int`. `counter.value += batch_size` stores the sum back into it, and the store silently keeps only the low 32 bits | A counter at 2147483640 plus one batch of 10 becomes -2147483646. With default settings, this happens after about 2.1 billion generated keys | A count of generated wallets that only grows | medium, not executed | Counter.Add32 (with Counter.CounterWrapsNegative and Counter.AddBatches32Tracks) | Mining.Worker (unbounded counter, proved never to decrease and to equal the start plus batch_size per completed batch) |
