/** What the sixteen slots of the record cache hold (src/ntfs_mft.c): the records that came in last, each
    in the place of the oldest. */
module RecordSlots {
  import opened ByteData
  import opened RecordCache
  import opened UpdateSequence

  datatype Record = Record(index: nat, data: seq<byte>)

  /** One record after the other is cached. */
  function PutAll(g: Geometry, s: State, records: seq<Record>): (r: State)
    requires |s.slots| == 16 && s.next < 16
    ensures |r.slots| == 16 && r.next < 16
  {
    if records == [] then s
    else
      var last := |records| - 1;
      Put(g, PutAll(g, s, records[..last]), records[last].index, records[last].data)
  }

  predicate Lacks(s: State, index: nat) {
    forall k :: 0 <= k < |s.slots| ==> !(s.slots[k].valid && s.slots[k].index == index)
  }

  predicate Holds(s: State, record: Record) {
    exists k :: 0 <= k < |s.slots| && s.slots[k] == Slot(true, record.index, record.data)
  }

  /** The slot i places after the next one, around the end. */
  function Place(next: nat, i: nat): nat
    requires next < 16
  {
    if next + i < 16 then next + i else next + i - 16
  }

  lemma PutNew(g: Geometry, s: State, index: nat, data: seq<byte>)
    requires |s.slots| == 16 && s.next < 16 && g.bytesPerFileRecord <= 4096 && Lacks(s, index)
    ensures Put(g, s, index, data)
            == s.(slots := s.slots[s.next := Slot(true, index, data)], next := Place(s.next, 1))
  {
  }

  lemma PutSpares(g: Geometry, s: State, index: nat, data: seq<byte>, k: nat)
    requires |s.slots| == 16 && s.next < 16 && k < 16 && k != s.next
    requires s.slots[k].index != index
    ensures Put(g, s, index, data).slots[k] == s.slots[k]
    ensures Put(g, s, index, data).next == s.next || Put(g, s, index, data).next == Place(s.next, 1)
  {
  }

  /** A record too large for a slot is never cached. */
  lemma {:induction false} LargeAreNotKept(g: Geometry, s: State, records: seq<Record>)
    requires |s.slots| == 16 && s.next < 16 && g.bytesPerFileRecord > 4096
    ensures PutAll(g, s, records) == s
  {
    if records != [] {
      LargeAreNotKept(g, s, records[..|records| - 1]);
    }
  }

  /** A record that came in stays through the next fifteen, whichever they are. */
  lemma {:induction false} StaysCached(g: Geometry, s: State, record: Record, later: seq<Record>)
    requires |s.slots| == 16 && s.next < 16 && g.bytesPerFileRecord <= 4096 && Lacks(s, record.index)
    requires |later| <= 15 && forall i :: 0 <= i < |later| ==> later[i].index != record.index
    ensures Holds(PutAll(g, Put(g, s, record.index, record.data), later), record)
  {
    PutNew(g, s, record.index, record.data);
    hide Put;
    var _ := Advance(g, Put(g, s, record.index, record.data), s.next, record, later);
  }

  lemma {:induction false} Advance(g: Geometry, s: State, k: nat, record: Record, later: seq<Record>) returns (a: nat)
    requires |s.slots| == 16 && s.next < 16 && k < 16 && s.next == Place(k, 1)
    requires s.slots[k] == Slot(true, record.index, record.data)
    requires |later| <= 15 && forall i :: 0 <= i < |later| ==> later[i].index != record.index
    ensures var r := PutAll(g, s, later);
            && r.slots[k] == Slot(true, record.index, record.data)
            && a <= |later| && r.next == Place(k, a + 1)
  {
    hide Put;
    if later == [] {
      a := 0;
    } else {
      var last := |later| - 1;
      a := Advance(g, s, k, record, later[..last]);
      var before := PutAll(g, s, later[..last]);
      PutSpares(g, before, later[last].index, later[last].data, k);
      if PutAll(g, s, later).next != before.next {
        a := a + 1;
      }
    }
  }

  ghost predicate AllNew(s: State, records: seq<Record>) {
    && (forall i, j :: 0 <= i < j < |records| ==> records[i].index != records[j].index)
    && forall i :: 0 <= i < |records| ==> Lacks(s, records[i].index)
  }

  /** The records fill the slots from `next` on, and the slots behind them are as they were. */
  ghost predicate Filled(s: State, records: seq<Record>, r: State)
    requires |s.slots| == 16 && s.next < 16
  {
    && |r.slots| == 16 && |records| <= 16 && r.next == Place(s.next, if |records| == 16 then 0 else |records|)
    && (forall i :: 0 <= i < |records| ==> r.slots[Place(s.next, i)] == Slot(true, records[i].index, records[i].data))
    && forall i :: |records| <= i < 16 ==> r.slots[Place(s.next, i)] == s.slots[Place(s.next, i)]
  }

  /** Which slot of the turn slot k is. */
  function Turn(next: nat, k: nat): (i: nat)
    requires next < 16 && k < 16
    ensures i < 16 && Place(next, i) == k
  {
    if k < next then k + 16 - next else k - next
  }

  lemma StillLacks(s: State, records: seq<Record>, r: State, index: nat)
    requires |s.slots| == 16 && s.next < 16 && Filled(s, records, r) && Lacks(s, index)
    requires forall i :: 0 <= i < |records| ==> records[i].index != index
    ensures Lacks(r, index)
  {
    hide Place, Turn;
    forall k | 0 <= k < 16 ensures !(r.slots[k].valid && r.slots[k].index == index) {
      var i := Turn(s.next, k);
      assert s.slots[k] == s.slots[Place(s.next, i)];
      if i < |records| {
        assert r.slots[k] == Slot(true, records[i].index, records[i].data);
      }
    }
  }

  lemma FillNext(s: State, records: seq<Record>, r: State, record: Record)
    requires |s.slots| == 16 && s.next < 16 && Filled(s, records, r) && |records| < 16
    ensures r.next < 16
    ensures Filled(s, records + [record],
                   r.(slots := r.slots[r.next := Slot(true, record.index, record.data)], next := Place(r.next, 1)))
  {
  }

  /** New records take the slots in turn. */
  lemma {:induction false} TakeTurns(g: Geometry, s: State, records: seq<Record>)
    requires |s.slots| == 16 && s.next < 16 && g.bytesPerFileRecord <= 4096
    requires |records| <= 16 && AllNew(s, records)
    ensures Filled(s, records, PutAll(g, s, records))
  {
    hide Put, Filled, Lacks;
    if records == [] {
      NoneFilled(s);
    } else {
      var last := |records| - 1;
      TakeTurns(g, s, records[..last]);
      var before := PutAll(g, s, records[..last]);
      StillLacks(s, records[..last], before, records[last].index);
      PutNew(g, before, records[last].index, records[last].data);
      FillNext(s, records[..last], before, records[last]);
      assert records[..last] + [records[last]] == records;
    }
  }

  lemma NoneFilled(s: State)
    requires |s.slots| == 16 && s.next < 16
    ensures Filled(s, [], s)
  {
  }

  /** After sixteen new records the cache holds these and nothing else. */
  lemma {:induction false} LastSixteen(g: Geometry, s: State, records: seq<Record>, index: nat, data: seq<byte>)
    requires |s.slots| == 16 && s.next < 16 && g.bytesPerFileRecord <= 4096
    requires |records| == 16 && AllNew(s, records)
    ensures Holds(PutAll(g, s, records), Record(index, data)) <==> Record(index, data) in records
  {
    TakeTurns(g, s, records);
    hide Put, PutAll, AllNew, Place, Turn;
    var r := PutAll(g, s, records);
    forall k | 0 <= k < 16 && r.slots[k] == Slot(true, index, data) ensures Record(index, data) in records {
      var i := Turn(s.next, k);
      assert r.slots[Place(s.next, i)] == Slot(true, records[i].index, records[i].data);
      assert records[i] == Record(index, data);
    }
    if Record(index, data) in records {
      var i :| 0 <= i < 16 && records[i] == Record(index, data);
      PlaceIsSlot(s.next, i);
      assert r.slots[Place(s.next, i)] == Slot(true, index, data);
    }
  }

  lemma PlaceIsSlot(next: nat, i: nat)
    requires next < 16 && i < 16
    ensures Place(next, i) < 16
  {
  }
}
