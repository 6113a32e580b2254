/** The pool of packet units (queue.cpp, class CUnitQueue), shared by the receive buffers.

    A unit is free when its flag is 0.  `busy` is the set of units with any other flag; the count field is its size. */
module UnitQueues {
  import opened Packets

  class Unit {
    var packet: Packet
    var flag: int

    constructor ()
      ensures flag == 0
    {
      packet := Packet(0, []);
      flag := 0;
    }
  }

  /** The entries hold different units, and `place` knows where each of them is. */
  ghost predicate Placed(entries: seq<seq<Unit>>, unitSize: nat, place: map<Unit, (nat, nat)>) {
    && (forall e :: 0 <= e < |entries| ==> |entries[e]| == unitSize)
    && (forall e, i :: 0 <= e < |entries| && 0 <= i < unitSize ==> entries[e][i] in place && place[entries[e][i]] == (e, i))
    && (forall u :: u in place ==> place[u].0 < |entries| && place[u].1 < unitSize && entries[place[u].0][place[u].1] == u)
  }

  lemma PlacedGrows(entries: seq<seq<Unit>>, unitSize: nat, place: map<Unit, (nat, nat)>, units: seq<Unit>, where: map<Unit, (nat, nat)>)
    requires Placed(entries, unitSize, place) && |units| == unitSize
    requires forall i :: 0 <= i < unitSize ==> units[i] in where && where[units[i]] == (|entries|, i)
    requires forall u :: u in where ==> where[u].0 == |entries| && where[u].1 < unitSize && units[where[u].1] == u
    requires place.Keys !! where.Keys
    ensures Placed(entries + [units], unitSize, place + where)
  {
    var all, both := entries + [units], place + where;
    forall e, i | 0 <= e < |all| && 0 <= i < unitSize
      ensures all[e][i] in both && both[all[e][i]] == (e, i)
    {
      if e < |entries| {
        assert entries[e][i] in place.Keys;
      }
    }
  }

  /** The first m units of the first n entries. */
  ghost function Block(entries: seq<seq<Unit>>, n: nat, m: nat): set<Unit>
    requires n <= |entries| && forall e :: 0 <= e < n ==> m <= |entries[e]|
  {
    if n == 0 then {} else Block(entries, n - 1, m) + Row(entries[n - 1], m)
  }

  ghost function Row(units: seq<Unit>, m: nat): set<Unit>
    requires m <= |units|
  {
    if m == 0 then {} else Row(units, m - 1) + {units[m - 1]}
  }

  /** Units that are the ones at the positions of entry e. */
  ghost predicate InEntry(units: seq<Unit>, place: map<Unit, (nat, nat)>, e: nat) {
    && (forall i :: 0 <= i < |units| ==> units[i] in place && place[units[i]] == (e, i))
    && (forall u :: u in place && place[u].0 == e ==> place[u].1 < |units| && units[place[u].1] == u)
  }

  lemma {:induction false} RowHas(units: seq<Unit>, m: nat, u: Unit)
    requires m <= |units|
    ensures u in Row(units, m) <==> exists i :: 0 <= i < m && units[i] == u
  {
    if m > 0 {
      RowHas(units, m - 1, u);
    }
  }

  lemma {:induction false} RowSize(units: seq<Unit>, place: map<Unit, (nat, nat)>, e: nat, m: nat)
    requires InEntry(units, place, e) && m <= |units|
    ensures |Row(units, m)| == m && Row(units, m) <= place.Keys
  {
    if m > 0 {
      RowHas(units, m - 1, units[m - 1]);
      RowSize(units, place, e, m - 1);
    }
  }

  lemma RowPlaces(units: seq<Unit>, place: map<Unit, (nat, nat)>, e: nat, m: nat)
    requires InEntry(units, place, e) && m <= |units|
    ensures forall u :: u in place ==> (u in Row(units, m) <==> place[u].0 == e && place[u].1 < m)
  {
    hide Row;
    forall u | u in place
      ensures u in Row(units, m) <==> place[u].0 == e && place[u].1 < m
    {
      RowHas(units, m, u);
    }
  }

  lemma PlacedAt(entries: seq<seq<Unit>>, unitSize: nat, place: map<Unit, (nat, nat)>, e: nat, i: nat)
    requires Placed(entries, unitSize, place) && e < |entries| && i < unitSize
    ensures |entries[e]| == unitSize && entries[e][i] in place && place[entries[e][i]] == (e, i)
    ensures forall u :: u in place && place[u] == (e, i) ==> u == entries[e][i]
  {
  }

  /** There are as many units as the entries hold, and each is counted once. */
  lemma {:induction false} BlockSize(entries: seq<seq<Unit>>, unitSize: nat, place: map<Unit, (nat, nat)>, n: nat, m: nat)
    requires Placed(entries, unitSize, place) && n <= |entries| && m <= unitSize
    ensures |Block(entries, n, m)| == n * m && Block(entries, n, m) <= place.Keys
    ensures forall u :: u in place ==> (u in Block(entries, n, m) <==> place[u].0 < n && place[u].1 < m)
  {
    hide Row, InEntry, Placed;
    PlacedSizes(entries, unitSize, place);
    if n == 0 {
      NoneBefore(place, m);
    } else {
      PlacedRow(entries, unitSize, place, n - 1);
      RowSize(entries[n - 1], place, n - 1, m);
      RowPlaces(entries[n - 1], place, n - 1, m);
      BlockSize(entries, unitSize, place, n - 1, m);
      BlockMore(entries, n, m);
      hide Block;
      BothSizes(Block(entries, n - 1, m), Row(entries[n - 1], m), place, n - 1);
      BothPlaces(Block(entries, n - 1, m), Row(entries[n - 1], m), place, n, m);
      Times(n, m);
    }
  }

  lemma PlacedSizes(entries: seq<seq<Unit>>, unitSize: nat, place: map<Unit, (nat, nat)>)
    requires Placed(entries, unitSize, place)
    ensures forall e :: 0 <= e < |entries| ==> |entries[e]| == unitSize
  {
  }

  lemma NoneBefore(place: map<Unit, (nat, nat)>, m: nat)
    ensures 0 * m == 0 && forall u :: u in place ==> !(place[u].0 < 0)
  {
  }

  lemma BlockMore(entries: seq<seq<Unit>>, n: nat, m: nat)
    requires 0 < n <= |entries| && (forall e :: 0 <= e < |entries| ==> m <= |entries[e]|)
    ensures Block(entries, n, m) == Block(entries, n - 1, m) + Row(entries[n - 1], m)
  {
    hide Row;
  }

  lemma BothPlaces(a: set<Unit>, b: set<Unit>, place: map<Unit, (nat, nat)>, n: nat, m: nat)
    requires n > 0 && (forall u :: u in place ==> (u in a <==> place[u].0 < n - 1 && place[u].1 < m))
    requires forall u :: u in place ==> (u in b <==> place[u].0 == n - 1 && place[u].1 < m)
    ensures forall u :: u in place ==> (u in a + b <==> place[u].0 < n && place[u].1 < m)
  {
  }

  lemma PlacedRow(entries: seq<seq<Unit>>, unitSize: nat, place: map<Unit, (nat, nat)>, e: nat)
    requires Placed(entries, unitSize, place) && e < |entries|
    ensures |entries[e]| == unitSize && InEntry(entries[e], place, e)
  {
  }

  lemma BothSizes(a: set<Unit>, b: set<Unit>, place: map<Unit, (nat, nat)>, n: nat)
    requires a <= place.Keys && b <= place.Keys
    requires (forall u :: u in a ==> place[u].0 < n) && forall u :: u in b ==> place[u].0 == n
    ensures |a + b| == |a| + |b|
  {
    assert a !! b;
  }

  /** A set that holds the first m units of every entry, or no others. */
  lemma AtLeast(entries: seq<seq<Unit>>, unitSize: nat, place: map<Unit, (nat, nat)>, m: nat, units: set<Unit>)
    requires Placed(entries, unitSize, place) && m <= unitSize
    requires forall e, i :: 0 <= e < |entries| && 0 <= i < m ==> entries[e][i] in units
    ensures |units| >= |entries| * m
  {
    BlockSize(entries, unitSize, place, |entries|, m);
    var most := Block(entries, |entries|, m);
    hide Block;
    forall u | u in place && u in most
      ensures u in units
    {
      assert entries[place[u].0][place[u].1] == u;
    }
    assert most <= units;
    hide Placed;
    SubsetSize(most, units);
  }

  lemma AtMost(entries: seq<seq<Unit>>, unitSize: nat, place: map<Unit, (nat, nat)>, m: nat, units: set<Unit>)
    requires Placed(entries, unitSize, place) && m <= unitSize && units <= place.Keys
    requires forall u :: u in units ==> place[u].1 < m
    ensures |units| <= |entries| * m
  {
    BlockSize(entries, unitSize, place, |entries|, m);
    var most := Block(entries, |entries|, m);
    assert units <= most;
    hide Placed, Block;
    SubsetSize(units, most);
  }

  lemma Times(n: nat, m: nat)
    requires n > 0
    ensures n * m == (n - 1) * m + m
  {
  }

  lemma AlmostAll(n: nat, m: nat)
    requires m > 0
    ensures n * (m - 1) == n * m - n
    ensures m >= 10 ==> 10 * (n * m - n) >= 9 * (n * m)
    ensures m <= 10 ==> 10 * (n * m - n) <= 9 * (n * m)
    ensures n > 0 && m < 10 ==> 10 * (n * m - n) < 9 * (n * m)
  {
    if m >= 10 {
      assert n * m >= n * 10;
    } else {
      assert n * m <= n * 9;
    }
  }

  /** Entry e lies between the entrance and the current entry, going round. */
  predicate Passed(e: int, entrance: int, curr: int) {
    if entrance <= curr then entrance <= e < curr else e >= entrance || e < curr
  }

  lemma SubsetSize<T>(a: set<T>, b: set<T>)
    requires a <= b
    ensures |a| <= |b|
  {
    assert b == a + (b - a);
  }

  /** Nothing in an entry will be found by a search that starts at a position: its first unit is in use, and so are all
      from there on but the last. */
  ghost predicate Blind(units: seq<Unit>, from: nat)
    reads units
  {
    (units != [] ==> units[0].flag != 0) && forall i :: from <= i < |units| - 1 ==> units[i].flag != 0
  }

  /** Entry e is blind for a search that starts in entry c at position a, and at the first position of the others. */
  ghost predicate BlindIn(entries: seq<seq<Unit>>, e: nat, c: nat, a: nat)
    requires e < |entries|
    reads entries[e]
  {
    Blind(entries[e], if e == c then a else 0)
  }

  /** What a search in an entry from a position on finds: the first free unit from there on, the last one not looked at,
      or else the entry's first unit. */
  ghost predicate Picks(units: seq<Unit>, from: nat, i: nat)
    reads units
  {
    && i < |units| && units[i].flag == 0
    && (if from <= i < |units| - 1 then forall j :: from <= j < i ==> units[j].flag != 0
        else i == 0 && forall j :: from <= j < |units| - 1 ==> units[j].flag != 0)
  }

  lemma PicksSees(units: seq<Unit>, from: nat, i: nat)
    requires Picks(units, from, i)
    ensures units != [] && !Blind(units, from)
    ensures |units| > 1 ==> i < |units| - 1
  {
  }

  class UnitQueue {
    const unitSize: nat              // units per entry
    var entries: seq<seq<Unit>>
    var curr: nat                    // the entry to search first
    var avail: nat                   // the position in it
    var size: int
    var count: int

    ghost var place: map<Unit, (nat, nat)>  // the entry and position of every unit
    ghost var busy: set<Unit>

    ghost predicate Entries()
      reads this
    {
      && unitSize > 0 && entries != []
      && Placed(entries, unitSize, place)
      && size == |entries| * unitSize
      && curr < |entries| && avail < unitSize
    }

    /** The count is the number of units in use. */
    ghost predicate Accounted()
      reads this, place.Keys
    {
      && busy <= place.Keys
      && (forall u :: u in place ==> (u in busy <==> u.flag != 0))
      && count == |busy|
    }

    ghost predicate Valid()
      reads this, place.Keys
    {
      Entries() && Accounted()
    }

    /** One more entry of free units. */
    static method NewEntry(n: nat, e: nat) returns (units: seq<Unit>, ghost where: map<Unit, (nat, nat)>)
      ensures |units| == n && (forall u :: u in where ==> fresh(u) && u.flag == 0)
      ensures forall i :: 0 <= i < n ==> units[i] in where && where[units[i]] == (e, i)
      ensures forall u :: u in where ==> where[u].0 == e && where[u].1 < n && units[where[u].1] == u
    {
      units, where := [], map[];
      for k := 0 to n
        invariant |units| == k && (forall u :: u in where ==> fresh(u) && u.flag == 0)
        invariant forall i :: 0 <= i < k ==> units[i] in where && where[units[i]] == (e, i)
        invariant forall u :: u in where ==> where[u].0 == e && where[u].1 < k && units[where[u].1] == u
      {
        var u := new Unit();
        units, where := units + [u], where[u := (e, k as nat)];
      }
    }

    constructor (size: nat)
      requires size > 0
      ensures Valid() && busy == {} && count == 0
      ensures unitSize == size && |entries| == 1 && curr == 0 && avail == 0
      ensures fresh(place.Keys)
    {
      var units, where := NewEntry(size, 0);
      unitSize := size;
      entries := [units];
      curr, avail := 0, 0;
      this.size := size;
      count := 0;
      place := where;
      busy := {};
    }

    /** Counts a free unit as in use. */
    method Occupy(unit: Unit)
      requires Valid() && unit in place && unit !in busy
      modifies this`count, this`busy, unit`flag
      ensures Valid() && busy == old(busy) + {unit} && unit.flag == 1 && count == old(count) + 1
    {
      hide Placed;
      unit.flag := 1;
      count := count + 1;
      busy := busy + {unit};
    }

    /** Returns a unit to the pool. */
    method Vacate(unit: Unit)
      requires Valid() && unit in busy
      modifies this`count, this`busy, unit`flag
      ensures Valid() && busy == old(busy) - {unit} && unit.flag == 0 && count == old(count) - 1
    {
      hide Placed;
      unit.flag := 0;
      count := count - 1;
      busy := busy - {unit};
    }

    /** A datagram is read into a unit, which stays as free or as busy as it was. */
    method Fill(unit: Unit, p: Packet)
      requires Valid()
      modifies unit`packet
      ensures Valid() && unit.packet == p
    {
      hide Placed;
      unit.packet := p;
    }

    /** Counts the units in use afresh; it finds what the count field says. */
    method Recount() returns (counted: int)
      requires Valid()
      ensures counted == count
    {
      counted := 0;
      ghost var seen: set<Unit> := {};
      for e := 0 to |entries|
        invariant counted == |seen| && seen <= busy
        invariant forall u :: u in busy ==> (u in seen <==> place[u].0 < e)
      {
        for i := 0 to unitSize
          invariant counted == |seen| && seen <= busy
          invariant forall u :: u in busy ==> (u in seen <==> place[u].0 < e || (place[u].0 == e && place[u].1 < i))
        {
          var u := entries[e][i];
          if u.flag != 0 {
            counted := counted + 1;
            seen := seen + {u};
          }
        }
      }
      assert seen == busy;
    }

    /** Adds an entry of free units. */
    method AddEntry()
      requires Valid()
      modifies this`entries, this`size, this`place
      ensures Valid() && size == old(size) + unitSize
      ensures |entries| == |old(entries)| + 1 && entries[..|old(entries)|] == old(entries)
      ensures entries[|old(entries)|] != [] && entries[|old(entries)|][0].flag == 0
      ensures old(place.Keys) <= place.Keys
      ensures forall u :: u in place && u !in old(place) ==> fresh(u)
    {
      var units, where := NewEntry(unitSize, |entries|);
      PlacedGrows(entries, unitSize, place, units, where);
      hide Placed;
      SizeGrows();
      assert units[0] in where;
      entries := entries + [units];
      place := place + where;
      size := size + unitSize;
    }

    lemma SizeGrows()
      ensures (|entries| + 1) * unitSize == |entries| * unitSize + unitSize
    {
    }

    /** Corrects the count, and adds an entry if at least nine tenths of the units are in use. */
    method Increase() returns (ok: bool)
      requires Valid()
      modifies this`count, this`entries, this`size, this`place
      ensures Valid() && busy == old(busy) && count == old(count)
      ensures ok == (10 * old(count) >= 9 * old(size))
      ensures old(place.Keys) <= place.Keys
      ensures forall u :: u in place && u !in old(place) ==> fresh(u)
      ensures size == old(size) + if ok then unitSize else 0
      ensures !ok ==> entries == old(entries) && place == old(place)
      ensures ok ==> |entries| == |old(entries)| + 1 && entries[..|old(entries)|] == old(entries)
      ensures ok ==> entries[|old(entries)|] != [] && entries[|old(entries)|][0].flag == 0
    {
      var counted := Recount();
      count := counted;
      if count * 10 < size * 9 {
        return false;
      }
      hide Entries, Accounted;
      AddEntry();
      ok := true;
    }

    /** The search will find nothing: at most nine tenths are in use, so that no entry is added before it, and every entry
        is blind.  There are free units all the same. */
    ghost predicate WillFail()
      requires Entries()
      reads this, place.Keys
    {
      10 * count <= 9 * size && forall e :: 0 <= e < |entries| ==> BlindIn(entries, e, curr, avail)
    }

    /** Nine tenths in use leave a free unit. */
    lemma SomethingFree()
      requires Valid() && 10 * count <= 9 * size
      ensures exists u :: u in place && u !in busy
    {
      BlockSize(entries, unitSize, place, |entries|, unitSize);
      var all := Block(entries, |entries|, unitSize);
      assert all == place.Keys;
      hide Placed, Block;
      SizePositive();
      assert (forall u :: u in place ==> u in busy) ==> busy == place.Keys;
    }

    lemma CountBound()
      requires Valid()
      ensures count <= size
    {
      BlockSize(entries, unitSize, place, |entries|, unitSize);
      var all := Block(entries, |entries|, unitSize);
      assert all == place.Keys;
      hide Placed, Block;
      SubsetSize(busy, all);
    }

    lemma SizePositive()
      requires Entries()
      ensures size > 0
    {
      Times(|entries|, unitSize);
    }

    lemma InUse()
      requires Valid()
      ensures forall e, i :: 0 <= e < |entries| && 0 <= i < unitSize ==> (entries[e][i] in busy <==> entries[e][i].flag != 0)
      ensures forall u :: u in busy ==> entries[place[u].0][place[u].1] == u
    {
    }

    /** If all units but the last ones are in use, that is more than nine tenths, for entries of more than ten. */
    lemma AlmostAllInUse()
      requires Valid() && forall e, i :: 0 <= e < |entries| && 0 <= i < unitSize - 1 ==> entries[e][i].flag != 0
      ensures count >= size - |entries|
      ensures unitSize >= 10 ==> 10 * count >= 9 * size
    {
      InUse();
      AtLeast(entries, unitSize, place, unitSize - 1, busy);
      AlmostAll(|entries|, unitSize);
    }

    /** When all units but the last of each entry are in use, nothing more is handed out: with fewer than ten to an entry
        the pool does not grow either. */
    lemma SmallEntriesStick()
      requires Valid() && unitSize > 1
      requires forall e, i :: 0 <= e < |entries| && 0 <= i < unitSize ==> (entries[e][i].flag != 0 <==> i < unitSize - 1)
      ensures 10 * count < 9 * size <==> unitSize < 10
      ensures unitSize <= 10 ==> WillFail()
    {
      CountOfAllButLast();
      AlmostAll(|entries|, unitSize);
      hide Accounted;
      assert forall e :: 0 <= e < |entries| ==> BlindIn(entries, e, curr, avail);
    }

    lemma CountOfAllButLast()
      requires Valid()
      requires forall e, i :: 0 <= e < |entries| && 0 <= i < unitSize ==> (entries[e][i].flag != 0 <==> i < unitSize - 1)
      ensures count == |entries| * (unitSize - 1)
    {
      InUse();
      AtLeast(entries, unitSize, place, unitSize - 1, busy);
      AtMost(entries, unitSize, place, unitSize - 1, busy);
    }

    /** The search goes through the entries once. */
    method Search() returns (unit: Unit?)
      requires Valid()
      modifies this`curr, this`avail
      ensures Valid()
      ensures unit == null <==> old(forall e :: 0 <= e < |entries| ==> BlindIn(entries, e, curr, avail))
      ensures unit == null ==> curr == old(curr) && avail == 0
      ensures unit != null ==> unit == entries[curr][avail] && Picks(entries[curr], if curr == old(curr) then old(avail) else 0, avail)
      ensures forall e :: 0 <= e < |entries| && Passed(e, old(curr), curr) ==> old(BlindIn(entries, e, curr, avail))
    {
      hide Blind, Picks;
      var entrance := curr;
      ghost var a0 := avail;
      while true
        invariant Valid() && (curr == entrance ==> avail == a0) && (curr != entrance ==> avail == 0)
        invariant forall e :: 0 <= e < |entries| && Passed(e, entrance, curr) ==> old(BlindIn(entries, e, curr, avail))
        decreases if curr < entrance then entrance - curr else |entries| - curr + entrance
      {
        ghost var c, a := curr, avail;
        unit := FindInEntry();
        if unit != null {
          PicksSees(entries[curr], a, avail);
          assert !old(BlindIn(entries, c, curr, avail));
          assert Passed(entrance, entrance, curr) || curr == entrance;
          return;
        }
        assert old(BlindIn(entries, c, curr, avail));
        curr := if curr + 1 < |entries| then curr + 1 else 0;
        avail := 0;
        if curr == entrance {
          return;
        }
      }
    }

    /** If fewer than nine tenths are in use after a failed search, the next search will find a unit, for entries of at
        least ten: it starts at the first position. */
    lemma SeenNext()
      requires Valid() && unitSize >= 10 && 10 * count < 9 * size
      ensures exists e :: 0 <= e < |entries| && !BlindIn(entries, e, curr, 0)
    {
      if forall e :: 0 <= e < |entries| ==> BlindIn(entries, e, curr, 0) {
        forall e, i | 0 <= e < |entries| && 0 <= i < unitSize - 1
          ensures entries[e][i].flag != 0
        {
          assert BlindIn(entries, e, curr, 0);
        }
        AlmostAllInUse();
      }
    }

    lemma FoundIsFree(unit: Unit, from: nat)
      requires Valid() && unit == entries[curr][avail] && Picks(entries[curr], from, avail)
      ensures unit in place && unit !in busy && unit.flag == 0
      ensures unitSize > 1 ==> place[unit].1 < unitSize - 1
    {
      PlacedAt(entries, unitSize, place, curr, avail);
      PicksSees(entries[curr], from, avail);
    }

    /** A unit for the next packet.  A null can be told before the call, and comes only while a unit is free.  The last
        unit of an entry of more than one is never handed out.  After a null, with entries of at least ten, some entry
        is not blind for the next call. */
    method GetNextAvailUnit() returns (unit: Unit?)
      requires Valid()
      modifies this`count, this`entries, this`size, this`place, this`curr, this`avail
      ensures Valid() && busy == old(busy) && count == old(count)
      ensures old(place.Keys) <= place.Keys && forall u :: u in place && u !in old(place) ==> fresh(u)
      ensures size == old(size) + if 10 * count > 9 * old(size) || (10 * count == 9 * old(size) && unit == null) then unitSize else 0
      ensures size == old(size) ==> entries == old(entries) && place == old(place)
      ensures unit == null <==> old(WillFail())
      ensures unit == null ==> exists u :: u in old(place) && u !in busy
      ensures unit != null ==> unit in place && unit !in busy && unit.flag == 0
      ensures unit != null ==> unit == entries[curr][avail] && Picks(entries[curr], if curr == old(curr) then old(avail) else 0, avail)
      ensures unit != null && unitSize > 1 ==> place[unit].1 < unitSize - 1
      ensures unit != null ==> forall e :: 0 <= e < |old(entries)| && Passed(e, old(curr), curr) ==> old(BlindIn(entries, e, curr, avail))
      ensures unit == null ==> curr == old(curr) && avail == 0
      ensures unit == null && unitSize >= 10 ==> exists e :: 0 <= e < |entries| && !BlindIn(entries, e, curr, avail)
    {
      hide Placed, Accounted, Picks;
      CountBound();
      SizePositive();
      if count * 10 > size * 9 {
        var _ := Increase();
        assert !BlindIn(entries, |entries| - 1, curr, avail);
      }
      if count >= size {
        // only if no memory is left for another entry, which is not modelled
        assert false;
      }
      unit := Search();
      if unit != null {
        FoundIsFree(unit, if curr == old(curr) then old(avail) else 0);
        return;
      }
      SomethingFree();
      var grown := Increase();
      if grown {
        assert !BlindIn(entries, |entries| - 1, curr, avail);
      } else if unitSize >= 10 {
        SeenNext();
      }
    }

    /** A free unit of the current entry, from the current position on, or its first unit; its last one is not tried. */
    method FindInEntry() returns (unit: Unit?)
      requires Valid()
      modifies this`avail
      ensures Valid()
      ensures unit != null ==> unit in place && unit !in busy && unit.flag == 0 && unit == entries[curr][avail]
      ensures unit != null ==> Picks(entries[curr], old(avail), avail)
      ensures unit == null ==> Blind(entries[curr], old(avail))
    {
      while avail != unitSize - 1
        invariant avail < unitSize && old(avail) <= avail
        invariant forall i :: old(avail) <= i < avail ==> entries[curr][i].flag != 0
        decreases unitSize - avail
      {
        if entries[curr][avail].flag == 0 {
          return entries[curr][avail];
        }
        avail := avail + 1;
      }
      if entries[curr][0].flag == 0 {
        avail := 0;
        return entries[curr][0];
      }
      return null;
    }
  }

  lemma PicksOne(units: seq<Unit>, from: nat, i: nat, j: nat)
    requires Picks(units, from, i) && Picks(units, from, j)
    ensures i == j
  {
  }

  lemma UnitsDiffer(entries: seq<seq<Unit>>, unitSize: nat, place: map<Unit, (nat, nat)>, e: nat)
    requires Placed(entries, unitSize, place) && e < |entries|
    ensures |entries[e]| == unitSize
    ensures forall i, j :: 0 <= i < unitSize && 0 <= j < unitSize && entries[e][i] == entries[e][j] ==> i == j
    ensures forall i :: 0 <= i < unitSize ==> entries[e][i] in place
  {
    forall i, j | 0 <= i < unitSize && 0 <= j < unitSize && entries[e][i] == entries[e][j]
      ensures i == j
    {
      PlacedAt(entries, unitSize, place, e, i);
      PlacedAt(entries, unitSize, place, e, j);
    }
  }

  /** A pool of one entry, of units with these flags. */
  ghost predicate OneEntry(queue: UnitQueue, units: seq<Unit>, flags: seq<int>, used: nat)
    reads queue, queue.place.Keys, units
  {
    && queue.Valid() && queue.entries == [units] && queue.size == |flags| && queue.count == used
    && |units| == |flags| && forall i :: 0 <= i < |flags| ==> units[i].flag == flags[i]
  }

  /** The units of one entry are the pool's. */
  lemma UnitsOfPool(queue: UnitQueue, units: seq<Unit>, flags: seq<int>, used: nat)
    requires OneEntry(queue, units, flags, used)
    ensures forall i :: 0 <= i < |units| ==> units[i] in queue.place && (units[i] in queue.busy <==> flags[i] != 0)
    ensures forall i, j :: 0 <= i < |units| && 0 <= j < |units| && units[i] == units[j] ==> i == j
  {
    UnitsDiffer(queue.entries, queue.unitSize, queue.place, 0);
  }

  /** Gets the unit at position i, which is free and seen next, and counts it as in use. */
  method Use(queue: UnitQueue, ghost units: seq<Unit>, ghost flags: seq<int>, ghost used: nat, ghost i: nat) returns (unit: Unit)
    requires OneEntry(queue, units, flags, used) && 10 * used <= 9 * |flags|
    requires Picks(units, queue.avail, i)
    modifies queue, units
    ensures OneEntry(queue, units, flags[i := 1], used + 1) && queue.avail == i && unit == units[i]
    ensures queue.busy == old(queue.busy) + {units[i]} && queue.place == old(queue.place)
  {
    hide Placed, UnitQueue.Accounted;
    PicksSees(units, queue.avail, i);
    UnitsOfPool(queue, units, flags, used);
    ghost var from := queue.avail;
    assert !BlindIn(queue.entries, 0, queue.curr, queue.avail);
    unit := queue.GetNextAvailUnit();
    PicksOne(units, from, i, queue.avail);
    assert unit == units[i];
    queue.Occupy(unit);
    assert queue.entries == [units];
  }

  method FourUnits() returns (queue: UnitQueue)
    ensures fresh(queue) && fresh(queue.place.Keys) && |queue.entries| == 1 && queue.avail == 0
    ensures OneEntry(queue, queue.entries[0], [0, 0, 0, 0], 0)
  {
    queue := new UnitQueue(4);
    UnitsDiffer(queue.entries, queue.unitSize, queue.place, 0);
    assert forall i :: 0 <= i < 4 ==> queue.entries[0][i] !in queue.busy;
  }

  /** The unit in use at position i comes back. */
  method GiveBack(queue: UnitQueue, ghost units: seq<Unit>, ghost flags: seq<int>, ghost used: nat, unit: Unit, ghost i: nat)
    requires OneEntry(queue, units, flags, used) && i < |units| && unit == units[i] && flags[i] != 0 && used > 0
    modifies queue`count, queue`busy, unit`flag
    ensures OneEntry(queue, units, flags[i := 0], used - 1)
  {
    hide Placed, UnitQueue.Accounted;
    UnitsOfPool(queue, units, flags, used);
    queue.Vacate(unit);
  }

  /** Neither the first unit nor those from the current position on are free: nothing is found, and the next call starts
      from the first. */
  method FindsNothing(queue: UnitQueue, ghost units: seq<Unit>, ghost flags: seq<int>, ghost used: nat) returns (unit: Unit?)
    requires OneEntry(queue, units, flags, used) && 10 * used < 9 * |flags| && Blind(units, queue.avail)
    modifies queue
    ensures OneEntry(queue, units, flags, used) && unit == null && queue.avail == 0
  {
    hide Placed, UnitQueue.Accounted;
    assert BlindIn(queue.entries, 0, queue.curr, queue.avail);
    unit := queue.GetNextAvailUnit();
  }

  /** Three of four are handed out. */
  method ThreeHanded() returns (queue: UnitQueue, ghost units: seq<Unit>, second: Unit, third: Unit, ghost handed: set<Unit>)
    ensures fresh(queue) && fresh(queue.place.Keys) && OneEntry(queue, units, [1, 1, 1, 0], 3) && queue.avail == 2
    ensures second == units[1] && third == units[2] && second in handed && second in queue.place
  {
    hide Placed, UnitQueue.Accounted, UnitQueue.Entries;
    queue := FourUnits();
    units := queue.entries[0];
    UnitsOfPool(queue, units, [0, 0, 0, 0], 0);
    var _ := Use(queue, units, [0, 0, 0, 0], 0, 0);
    second := Use(queue, units, [1, 0, 0, 0], 1, 1);
    handed := queue.busy;
    third := Use(queue, units, [1, 1, 0, 0], 2, 2);
  }

  /** The second comes back.  handed: the units in use right after it was handed out. */
  method SecondIsFree() returns (queue: UnitQueue, ghost units: seq<Unit>, second: Unit, ghost handed: set<Unit>)
    ensures fresh(queue) && OneEntry(queue, units, [1, 0, 1, 0], 2) && queue.avail == 2 && second == units[1]
    ensures second in handed
  {
    hide Placed, UnitQueue.Accounted, UnitQueue.Entries;
    var third;
    queue, units, second, third, handed := ThreeHanded();
    GiveBack(queue, units, [1, 1, 1, 0], 3, second, 1);
    assert [1, 1, 1, 0][1 := 0] == [1, 0, 1, 0];
  }

  /** In a new pool, the second unit is handed out and comes back.  The next call finds nothing, though that unit is free
      and only two of four are in use (inUse); the call after it finds that unit. */
  method MissesAFreeUnit() returns (queue: UnitQueue, second: Unit, missed: Unit?, next: Unit?, ghost handed: set<Unit>, ghost inUse: set<Unit>)
    ensures queue.Valid() && fresh(queue) && queue.unitSize == 4 && |queue.entries| == 1
    ensures second in handed && second in queue.place && second !in inUse && |inUse| == 2
    ensures missed == null && next == second && queue.busy == inUse && second.flag == 0
  {
    hide Placed, UnitQueue.Accounted;
    ghost var units;
    queue, units, second, handed := SecondIsFree();
    missed := FindsNothing(queue, units, [1, 0, 1, 0], 2);
    UnitsOfPool(queue, units, [1, 0, 1, 0], 2);
    inUse := queue.busy;
    InUseCount(queue);
    assert Picks(units, queue.avail, 1);
    PicksSees(units, queue.avail, 1);
    assert !BlindIn(queue.entries, 0, queue.curr, queue.avail);
    next := queue.GetNextAvailUnit();
    PicksOne(units, 0, 1, queue.avail);
  }

  lemma InUseCount(queue: UnitQueue)
    requires queue.Valid()
    ensures queue.count == |queue.busy|
  {
  }
}
