/**
 * The playback cursor: `playNextVideo` adds one, and `playCurrentVideo`
 * resets a cursor at or past the list's end to 0 just before it indexes.
 */
module PlaybackLoop {

  /** The index `playCurrentVideo` accesses for a cursor `i` over a list of `size` files. */
  function WrapIndex(i: int, size: nat): (r: nat)
    requires size > 0 && i >= 0
    ensures r < size
    ensures i < size ==> r == i
    ensures i >= size ==> r == 0
  {
    if i >= size then 0 else i
  }

  /**
   * The index played by the k-th launch after a fresh scan when each launch
   * is ended by exactly one advance (end of stream, player error or a launch
   * exception).
   */
  function PlayedAt(size: nat, k: nat): (r: nat)
    requires size > 0
    ensures r < size
    ensures k < size ==> r == k
  {
    if k == 0 then WrapIndex(0, size) else WrapIndex(PlayedAt(size, k - 1) + 1, size)
  }

  /** Division with remainder determines both: the remainder of `q * n + r` is `r`. */
  lemma ModOfMultiplePlus(x: int, q: int, r: int, n: int)
    requires n > 0 && 0 <= r < n && x == q * n + r
    ensures x % n == r
  {
    var d := q - x / n;
    assert d * n == x % n - r;
  }

  /** The launches cycle through the list in order: the k-th plays file k mod size. */
  lemma {:induction false} PlayedAtCycles(size: nat, k: nat)
    requires size > 0
    ensures PlayedAt(size, k) == k % size
  {
    if k > 0 {
      PlayedAtCycles(size, k - 1);
      ModStep(k, size);
    }
  }

  /** Stepping `k - 1` to `k` steps the remainder by one, or wraps it to 0 at `size`. */
  lemma ModStep(k: nat, size: nat)
    requires size > 0 && k > 0
    ensures (k - 1) % size + 1 < size ==> k % size == (k - 1) % size + 1
    ensures (k - 1) % size + 1 == size ==> k % size == 0
  {
    var q, prev := (k - 1) / size, (k - 1) % size;
    if prev + 1 < size {
      ModOfMultiplePlus(k, q, prev + 1, size);
    } else {
      assert k == (q + 1) * size;
      ModOfMultiplePlus(k, q + 1, 0, size);
    }
  }

  /** After the last file the first one is played again. */
  lemma LastThenFirst(size: nat, k: nat)
    requires size > 0 && PlayedAt(size, k) == size - 1
    ensures PlayedAt(size, k + 1) == 0
  {
  }

  /** Every file of the list is played once in each run of `size` launches. */
  lemma {:induction false} EveryFileInTurn(size: nat, k: nat, j: nat)
    requires size > 0 && j < size
    ensures PlayedAt(size, k * size + j) == j
  {
    var n := k * size + j;
    ModOfMultiplePlus(n, k, j, size);
    assert n % size == j;
    PlayedAtCycles(size, n);
  }
}
