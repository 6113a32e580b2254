/** Positions in an array that is used as a ring. */
module Circular {
  /** The array position k slots behind the start position. */
  function Pos(start: int, k: int, size: int): int {
    if start + k < size then start + k else start + k - size
  }

  /** The distance from the start position up to the last acknowledged one. */
  function Distance(start: int, last: int, size: int): int {
    if last >= start then last - start else size + last - start
  }

  /** An array position, taken round the array. */
  function Round(i: int, size: int): (p: int)
    requires size > 0
    ensures 0 <= p < size
  {
    i % size
  }

  lemma PosMod(start: int, k: int, size: int)
    requires 0 <= start < size && 0 <= k <= size
    ensures Round(start + k, size) == Pos(start, k, size)
  {
    if start + k >= size {
      ModSmall(start + k - size, size);
    }
  }

  lemma ModSmall(a: int, m: int)
    requires 0 <= a < m
    ensures a % m == a && (a + m) % m == a
  {
  }

  lemma PosNext(start: int, k: int, size: int)
    requires 0 <= start < size && 0 <= k < size
    ensures 0 <= Pos(start, k, size) < size
    ensures Round(Pos(start, k, size) + 1, size) == Pos(start, k + 1, size)
    ensures (if Pos(start, k, size) + 1 == size then 0 else Pos(start, k, size) + 1) == Pos(start, k + 1, size)
  {
    PosMod(Pos(start, k, size), 1, size);
  }

  lemma PosZero(start: int, size: int)
    requires 0 <= start < size
    ensures Pos(start, 0, size) == start
  {
  }

  lemma PosAdd(start: int, last: int, d: int, size: int)
    requires 0 <= start < size && 0 <= last < size && 0 <= d && Distance(start, last, size) + d < size
    ensures Pos(last, d, size) == Pos(start, Distance(start, last, size) + d, size)
  {
  }

  lemma PosInjective(start: int, j: int, k: int, size: int)
    requires 0 <= start < size && 0 <= j < size && 0 <= k < size
    ensures Pos(start, j, size) == Pos(start, k, size) <==> j == k
  {
  }

  /** Moving the start position on. */
  lemma DistanceMoved(start: int, last: int, d: int, size: int)
    requires 0 <= start < size && 0 <= last < size && 0 <= d <= Distance(start, last, size)
    ensures Distance(Pos(start, d, size), last, size) == Distance(start, last, size) - d
  {
  }

  /** A run of slots from `first` to n ends right before its own start exactly if it fills all slots but one. */
  lemma RunCloses(start: int, first: int, n: int, size: int)
    requires 0 <= start < size && 0 <= first <= n < size - 1
    ensures Round(Pos(start, n + 1, size) + 1, size) == Pos(start, first, size) <==> first == 0 && n + 2 == size
  {
    PosNext(start, n + 1, size);
    PosZero(start, size);
    if n + 2 < size {
      PosInjective(start, n + 2, first, size);
    } else {
      PosInjective(start, 0, first, size);
    }
  }
}
