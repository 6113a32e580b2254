/** Circular 31-bit sequence numbers (udtCommon.h, class CSeqNo).

    A sequence number is an integer in [0, 2^31).  `Wrap` maps an unbounded coordinate (the position
    of a packet in the stream) to the number carried on the wire; the lemmas say that the comparison
    helpers recover coordinates exactly, as long as they lie less than `THRESHOLD` apart. */
module SeqNo {

  const MAX_SEQ_NO: int := 0x7FFF_FFFF
  const THRESHOLD: int := 0x3FFF_FFFF
  const MODULUS: int := 0x8000_0000

  predicate IsSeqNo(s: int) {
    0 <= s <= MAX_SEQ_NO
  }

  /** The sequence number of the packet at coordinate x. */
  function Wrap(x: int): (s: int)
    ensures IsSeqNo(s)
  {
    x % MODULUS
  }

  /** The coordinates x and y are close enough for the circular comparisons to be meaningful. */
  predicate Near(x: int, y: int) {
    -THRESHOLD < x - y < THRESHOLD
  }

  function Abs(x: int): int {
    if x < 0 then -x else x
  }

  function SeqCmp(seq1: int, seq2: int): int {
    if Abs(seq1 - seq2) < THRESHOLD then seq1 - seq2 else seq2 - seq1
  }

  function SeqLen(seq1: int, seq2: int): int {
    if seq1 <= seq2 then seq2 - seq1 + 1 else seq2 - seq1 + MAX_SEQ_NO + 2
  }

  function SeqOff(seq1: int, seq2: int): int {
    if Abs(seq1 - seq2) < THRESHOLD then seq2 - seq1
    else if seq1 < seq2 then seq2 - seq1 - MAX_SEQ_NO - 1
    else seq2 - seq1 + MAX_SEQ_NO + 1
  }

  function IncSeq(s: int): int {
    if s == MAX_SEQ_NO then 0 else s + 1
  }

  function DecSeq(s: int): int {
    if s == 0 then MAX_SEQ_NO else s - 1
  }

  /** incseq with an explicit increment. */
  function IncSeqBy(s: int, inc: int): int {
    if MAX_SEQ_NO - s >= inc then s + inc else s - MAX_SEQ_NO + inc - 1
  }

  /** seqoff is subtraction of coordinates. */
  lemma OffOfWrap(x: int, y: int)
    requires Near(x, y)
    ensures SeqOff(Wrap(x), Wrap(y)) == y - x
  {
    assert Wrap(y) == Wrap(x) + (y - x) || Wrap(y) == Wrap(x) + (y - x) - MODULUS || Wrap(y) == Wrap(x) + (y - x) + MODULUS;
  }

  /** seqcmp orders sequence numbers as their coordinates are ordered. */
  lemma CmpOfWrap(x: int, y: int)
    requires Near(x, y)
    ensures SeqCmp(Wrap(x), Wrap(y)) > 0 <==> x > y
    ensures SeqCmp(Wrap(x), Wrap(y)) == 0 <==> x == y
    ensures SeqCmp(Wrap(x), Wrap(y)) < 0 <==> x < y
    ensures Wrap(x) == Wrap(y) <==> x == y
  {
    assert Wrap(y) == Wrap(x) + (y - x) || Wrap(y) == Wrap(x) + (y - x) - MODULUS || Wrap(y) == Wrap(x) + (y - x) + MODULUS;
  }

  /** seqlen counts a range of coordinates, both ends included. */
  lemma LenOfWrap(x: int, y: int)
    requires 0 <= y - x < MODULUS
    ensures SeqLen(Wrap(x), Wrap(y)) == y - x + 1
  {
    assert Wrap(y) == Wrap(x) + (y - x) || Wrap(y) == Wrap(x) + (y - x) - MODULUS;
  }

  /** incseq, decseq and the two-argument incseq are addition of coordinates, at every wrap-around. */
  lemma StepOfWrap(x: int, inc: int)
    requires 0 <= inc <= MAX_SEQ_NO
    ensures IncSeq(Wrap(x)) == Wrap(x + 1)
    ensures DecSeq(Wrap(x)) == Wrap(x - 1)
    ensures IncSeqBy(Wrap(x), inc) == Wrap(x + inc)
  {
    assert Wrap(x + inc) == Wrap(x) + inc || Wrap(x + inc) == Wrap(x) + inc - MODULUS;
  }

  /** On numbers taken from one window shorter than the threshold, seqcmp is a strict total order. */
  lemma CmpIsTotalOrder(base: int, a: int, b: int, c: int)
    requires base <= a < base + THRESHOLD && base <= b < base + THRESHOLD && base <= c < base + THRESHOLD
    ensures !(SeqCmp(Wrap(a), Wrap(a)) < 0)
    ensures SeqCmp(Wrap(a), Wrap(b)) < 0 && SeqCmp(Wrap(b), Wrap(c)) < 0 ==> SeqCmp(Wrap(a), Wrap(c)) < 0
    ensures Wrap(a) != Wrap(b) ==> SeqCmp(Wrap(a), Wrap(b)) < 0 || SeqCmp(Wrap(b), Wrap(a)) < 0
    ensures SeqCmp(Wrap(a), Wrap(b)) < 0 <==> SeqCmp(Wrap(b), Wrap(a)) > 0
  {
    CmpOfWrap(a, a);
    CmpOfWrap(a, b);
    CmpOfWrap(b, a);
    CmpOfWrap(b, c);
    CmpOfWrap(a, c);
  }

  /** The exact reach of seqoff: it recovers every distance shorter than the threshold, and a distance d at or
      beyond it (up to half the circle) only when the two numbers lie on different sides of the wrap-around. */
  lemma OffExact(x: int, y: int)
    requires 0 <= y - x <= MODULUS - THRESHOLD
    ensures SeqOff(Wrap(x), Wrap(y)) == y - x <==> (y - x < THRESHOLD || Wrap(y) < Wrap(x))
  {
    assert Wrap(y) == Wrap(x) + (y - x) || Wrap(y) == Wrap(x) + (y - x) - MODULUS;
  }
}
