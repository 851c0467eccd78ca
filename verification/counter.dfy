/** The shared progress counter of bt.py: `multiprocessing.Value('i', 0)`,
    a C `int` of 32 bits, to which each worker adds `batch_size` after every
    batch without a match. Storing an out-of-range Python integer into it
    keeps only the low 32 bits, read back as a signed value. */
module Counter {

  const TwoTo32: int := 0x1_0000_0000
  const Int32Min: int := -0x8000_0000
  const Int32Max: int := 0x7fff_ffff

  predicate IsInt32(x: int) {
    Int32Min <= x <= Int32Max
  }

  /** The signed 32-bit value a C `int` holds after being assigned `x`. */
  function Wrap32(x: int): (r: int)
    ensures IsInt32(r)
    ensures (x - r) % TwoTo32 == 0
    ensures IsInt32(x) ==> r == x
  {
    (x - Int32Min) % TwoTo32 + Int32Min
  }

  /** Two signed 32-bit values congruent modulo 2^32 are equal. */
  lemma Int32Congruent(a: int, b: int)
    requires IsInt32(a) && IsInt32(b)
    requires (a - b) % TwoTo32 == 0
    ensures a == b
  {
    var q := (a - b) / TwoTo32;
    assert a - b == TwoTo32 * q;
  }

  /** `counter.value += batch_size` as bt.py writes it: the sum is stored
      back into the 32-bit cell. */
  function Add32(value: int, batchSize: int): (r: int)
    ensures IsInt32(r)
    ensures (r - value - batchSize) % TwoTo32 == 0
  {
    Wrap32(value + batchSize)
  }

  /** The 32-bit cell after `n` batches of `batchSize` have been added to it,
      starting from `start`. */
  function AddBatches32(start: int, batchSize: int, n: nat): (r: int)
    ensures IsInt32(start) ==> IsInt32(r)
    ensures n > 0 ==> IsInt32(r)
  {
    if n == 0 then start else Add32(AddBatches32(start, batchSize, n - 1), batchSize)
  }

  /** The 32-bit cell always holds the true total reduced into the signed
      32-bit range: it is exact as long as the true total fits. */
  lemma {:induction false} AddBatches32Tracks(start: int, batchSize: int, n: nat)
    requires IsInt32(start)
    ensures AddBatches32(start, batchSize, n) == Wrap32(start + batchSize * n)
  {
    if n > 0 {
      AddBatches32Tracks(start, batchSize, n - 1);
      var prev := AddBatches32(start, batchSize, n - 1);
      var total := start + batchSize * n;
      assert start + batchSize * (n - 1) + batchSize == total;
      var r := AddBatches32(start, batchSize, n);
      assert (r - prev - batchSize) % TwoTo32 == 0;
      assert (start + batchSize * (n - 1) - prev) % TwoTo32 == 0;
      assert (r - total) % TwoTo32 == 0 by {
        var d1 := r - prev - batchSize;
        var d2 := start + batchSize * (n - 1) - prev;
        assert r - total == d1 - d2;
        ModDifference(d1, d2);
      }
      assert (total - Wrap32(total)) % TwoTo32 == 0;
      ModSum(r - total, total - Wrap32(total));
      Int32Congruent(r, Wrap32(total));
    }
  }

  lemma ModDifference(x: int, y: int)
    requires x % TwoTo32 == 0 && y % TwoTo32 == 0
    ensures (x - y) % TwoTo32 == 0
  {
    var p := x / TwoTo32;
    var q := y / TwoTo32;
    assert x - y == TwoTo32 * (p - q);
  }

  lemma ModSum(x: int, y: int)
    requires x % TwoTo32 == 0 && y % TwoTo32 == 0
    ensures (x + y) % TwoTo32 == 0
  {
    var p := x / TwoTo32;
    var q := y / TwoTo32;
    assert x + y == TwoTo32 * (p + q);
  }

  /** The count shown to the user can go down: one more batch of 10 on a
      cell holding 2147483640 leaves it negative. */
  lemma CounterWrapsNegative()
    ensures Add32(2147483640, 10) == -2147483646
    ensures Add32(2147483640, 10) < 2147483640
  {
  }
}
