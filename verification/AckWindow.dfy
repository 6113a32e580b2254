/** The history of sent acknowledgements (window.cpp, class CACKWindow): circular arrays holding the latest records, of
    which at most size - 1 are kept. */
module AckWindows {
  import opened Circular

  datatype Record = Record(seqNo: int, ack: int, time: int)

  /** Adding a record evicts the oldest one when there is no room. */
  function Added(records: seq<Record>, r: Record, size: nat): (after: seq<Record>)
    requires |records| < size
    ensures |after| < size
  {
    if |records| + 1 == size then (records + [r])[1..] else records + [r]
  }

  /** What is kept are always the latest records: the new one, and of the others as many as there is room for. */
  lemma AddedKeeps(records: seq<Record>, r: Record, size: nat)
    requires |records| < size
    ensures var after, all := Added(records, r, size), records + [r];
            |after| == (if |all| < size then |all| else size - 1) && after == all[|all| - |after|..]
  {
  }

  /** The arrays hold the records, from position tail on, round the arrays. */
  ghost predicate Kept(seqNos: seq<int>, acks: seq<int>, times: seq<int>, tail: int, records: seq<Record>) {
    && |seqNos| == |acks| == |times| && 0 <= tail < |seqNos| && |records| <= |seqNos|
    && forall k :: 0 <= k < |records| ==> HeldAt(seqNos, acks, times, Pos(tail, k, |seqNos|), records[k])
  }

  ghost predicate HeldAt(seqNos: seq<int>, acks: seq<int>, times: seq<int>, i: int, r: Record)
    requires |seqNos| == |acks| == |times|
  {
    0 <= i < |seqNos| && r == Record(seqNos[i], acks[i], times[i])
  }

  lemma KeptAppend(seqNos: seq<int>, acks: seq<int>, times: seq<int>, tail: int, records: seq<Record>, r: Record)
    requires Kept(seqNos, acks, times, tail, records) && |records| < |seqNos|
    ensures var h := Pos(tail, |records|, |seqNos|);
            0 <= h < |seqNos| && Kept(seqNos[h := r.seqNo], acks[h := r.ack], times[h := r.time], tail, records + [r])
  {
    var h := Pos(tail, |records|, |seqNos|);
    forall k | 0 <= k < |records|
      ensures Pos(tail, k, |seqNos|) != h
    {
    }
  }

  lemma KeptDrop(seqNos: seq<int>, acks: seq<int>, times: seq<int>, tail: int, records: seq<Record>, m: int)
    requires Kept(seqNos, acks, times, tail, records) && 0 <= m <= |records|
    ensures Kept(seqNos, acks, times, Pos(tail, m, |seqNos|), records[m..])
    ensures |records| < |seqNos| ==> Pos(Pos(tail, m, |seqNos|), |records| - m, |seqNos|) == Pos(tail, |records|, |seqNos|)
  {
    var rest := records[m..];
    forall k | 0 <= k < |rest|
      ensures HeldAt(seqNos, acks, times, Pos(Pos(tail, m, |seqNos|), k, |seqNos|), rest[k])
    {
      assert HeldAt(seqNos, acks, times, Pos(tail, m + k, |seqNos|), records[m + k]);
    }
  }

  lemma KeptRecord(seqNos: seq<int>, acks: seq<int>, times: seq<int>, tail: int, records: seq<Record>, k: int)
    requires Kept(seqNos, acks, times, tail, records) && 0 <= k < |records|
    ensures var i := Pos(tail, k, |seqNos|); 0 <= i < |seqNos| && records[k] == Record(seqNos[i], acks[i], times[i])
  {
  }

  lemma KeptNothing(seqNos: seq<int>, acks: seq<int>, times: seq<int>)
    requires |seqNos| == |acks| == |times| > 0
    ensures Kept(seqNos, acks, times, 0, [])
  {
  }

  class AckWindow {
    const size: nat
    const seqNos: array<int>
    const acks: array<int>
    const times: array<int>
    var head: int
    var tail: int

    ghost var records: seq<Record>  // oldest first

    ghost predicate Valid()
      reads this, seqNos, acks, times
    {
      && seqNos != acks && seqNos != times && acks != times
      && seqNos.Length == acks.Length == times.Length == size > 0
      && 0 <= tail < size && |records| < size
      && head == Pos(tail, |records|, size)
      && Kept(seqNos[..], acks[..], times[..], tail, records)
    }

    constructor (size: nat)
      requires size > 0
      ensures Valid() && records == [] && this.size == size
      ensures fresh(seqNos) && fresh(acks) && fresh(times)
    {
      this.size := size;
      seqNos := new int[size](_ => 0);
      acks := new int[size](_ => 0);
      times := new int[size](_ => 0);
      head, tail := 0, 0;
      records := [];
      new;
      seqNos[0] := -1;
    }

    /** Stores a record behind the newest one; if the arrays are full after that, the oldest goes. */
    method Store(seqNo: int, ack: int, now: int)
      requires Valid()
      modifies this, seqNos, acks, times
      ensures Valid() && records == Added(old(records), Record(seqNo, ack, now), size)
    {
      hide Round, Kept;
      ghost var n := |records|;
      ghost var r := Record(seqNo, ack, now);
      ghost var s, a, t := seqNos[..], acks[..], times[..];
      PosNext(tail, n, size);
      PosNext(tail, 0, size);
      KeptAppend(s, a, t, tail, records, r);
      seqNos[head] := seqNo;
      acks[head] := ack;
      times[head] := now;
      assert seqNos[..] == s[head := seqNo] && acks[..] == a[head := ack] && times[..] == t[head := now];
      head := Round(head + 1, size);
      records := records + [r];
      if head == tail {
        tail := Round(tail + 1, size);
        KeptDrop(seqNos[..], acks[..], times[..], old(tail), records, 1);
        records := records[1..];
      }
    }

    /** Looks up the oldest record of an acknowledgement, and forgets it and everything older.  rtt: the time since it was
        stored, or -1 if there is none. */
    method Acknowledge(seqNo: int, now: int) returns (rtt: int, ack: int, ghost k: int)
      requires Valid()
      modifies this, seqNos
      ensures Valid() && 0 <= k <= |old(records)| && (forall i :: 0 <= i < k ==> old(records)[i].seqNo != seqNo)
      ensures if k == |old(records)| then rtt == -1 && records == old(records)
              else
                && old(records)[k].seqNo == seqNo && rtt == now - old(records)[k].time && ack == old(records)[k].ack
                && records == old(records)[k + 1..]
    {
      if head >= tail {
        rtt, ack, k := AcknowledgeStraight(seqNo, now);
      } else {
        rtt, ack, k := AcknowledgeRound(seqNo, now);
      }
    }

    /** The records lie in one piece. */
    method AcknowledgeStraight(seqNo: int, now: int) returns (rtt: int, ack: int, ghost k: int)
      requires Valid() && head >= tail
      modifies this, seqNos
      ensures Valid() && 0 <= k <= |old(records)| && (forall i :: 0 <= i < k ==> old(records)[i].seqNo != seqNo)
      ensures if k == |old(records)| then rtt == -1 && records == old(records)
              else
                && old(records)[k].seqNo == seqNo && rtt == now - old(records)[k].time && ack == old(records)[k].ack
                && records == old(records)[k + 1..]
    {
      hide Round, Kept;
      ack := 0;
      k := 0;
      var i, n := tail, head;
      while i < n
        invariant tail <= i <= n == head && k == i - tail
        invariant Valid() && records == old(records)
        invariant forall j :: 0 <= j < k ==> records[j].seqNo != seqNo
      {
        KeptRecord(seqNos[..], acks[..], times[..], tail, records, k);
        if seqNo == seqNos[i] {
          rtt := now - times[i];
          ack := acks[i];
          if i + 1 == head {
            tail, head := 0, 0;
            seqNos[0] := -1;
            records := [];
            KeptNothing(seqNos[..], acks[..], times[..]);
          } else {
            PosNext(tail, k, size);
            KeptDrop(seqNos[..], acks[..], times[..], tail, records, k + 1);
            tail := Round(i + 1, size);
            records := records[k + 1..];
          }
          return;
        }
        i := i + 1;
        k := k + 1;
      }
      rtt := -1;
    }

    /** The records go round the end of the arrays. */
    method AcknowledgeRound(seqNo: int, now: int) returns (rtt: int, ack: int, ghost k: int)
      requires Valid() && head < tail
      modifies this, seqNos
      ensures Valid() && 0 <= k <= |old(records)| && (forall i :: 0 <= i < k ==> old(records)[i].seqNo != seqNo)
      ensures if k == |old(records)| then rtt == -1 && records == old(records)
              else
                && old(records)[k].seqNo == seqNo && rtt == now - old(records)[k].time && ack == old(records)[k].ack
                && records == old(records)[k + 1..]
    {
      hide Round, Kept;
      ack := 0;
      k := 0;
      var j, n := tail, head + size;
      while j < n
        invariant tail <= j <= n == head + size && k == j - tail
        invariant Valid() && records == old(records) && head < tail
        invariant forall i :: 0 <= i < k ==> records[i].seqNo != seqNo
      {
        KeptRecord(seqNos[..], acks[..], times[..], tail, records, k);
        PosMod(tail, k, size);
        if seqNo == seqNos[Round(j, size)] {
          j := Round(j, size);
          rtt := now - times[j];
          ack := acks[j];
          if j == head {
            // the source would empty the window here, but the head is never where a record is
            assert false;
          } else {
            PosNext(tail, k, size);
            KeptDrop(seqNos[..], acks[..], times[..], tail, records, k + 1);
            tail := Round(j + 1, size);
            records := records[k + 1..];
          }
          return;
        }
        j := j + 1;
        k := k + 1;
      }
      rtt := -1;
    }
  }
}
