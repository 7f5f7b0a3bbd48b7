/** The wrong-answer store: one record per question answered wrongly, keyed
    by question id, with the date of the last mistake and a mistake count.
    Every mutation is followed by a save, except removing an id that has no
    record. The key-value slot the store saves to is part of the state. */
module WrongAnswers {
  import opened Wrappers

  datatype WrongRecord = WrongRecord(id: string, lastWrongDate: int, timesWrong: int)

  /** `records` is the in-memory list; `slot` is what the persistence layer
      holds (`None` when nothing decodable is stored); `saves` counts writes. */
  datatype Store = Store(records: seq<WrongRecord>, slot: Option<seq<WrongRecord>>, saves: nat)

  /** The ids of a record list, in order. */
  function Ids(rs: seq<WrongRecord>): (r: seq<string>)
    ensures |r| == |rs|
    ensures forall i :: 0 <= i < |rs| ==> r[i] == rs[i].id
  {
    seq(|rs|, i requires 0 <= i < |rs| => rs[i].id)
  }

  lemma IdsConcat(a: seq<WrongRecord>, b: seq<WrongRecord>)
    ensures Ids(a + b) == Ids(a) + Ids(b)
  {
  }

  /** The store invariant: no id has two records and every count is positive. */
  predicate Valid(rs: seq<WrongRecord>) {
    && (forall i, j :: 0 <= i < j < |rs| ==> rs[i].id != rs[j].id)
    && (forall i :: 0 <= i < |rs| ==> rs[i].timesWrong >= 1)
  }

  /** The persisted slot holds exactly the in-memory records. */
  predicate Synced(s: Store) {
    s.slot == Some(s.records)
  }

  /** `firstIndex(where: { $0.id == id })`. */
  function FindIndex(rs: seq<WrongRecord>, id: string): (r: Option<nat>)
    ensures r.Some? ==> r.value < |rs| && rs[r.value].id == id
    ensures r.Some? ==> forall j :: 0 <= j < r.value ==> rs[j].id != id
    ensures r.None? <==> forall j :: 0 <= j < |rs| ==> rs[j].id != id
    ensures r.None? <==> id !in Ids(rs)
  {
    if rs == [] then None
    else if rs[0].id == id then Some(0)
    else match FindIndex(rs[1..], id)
      case None =>
        assert forall j :: 0 <= j < |rs| ==> rs[j].id != id by {
          forall j | 0 < j < |rs| ensures rs[j].id != id {
            assert rs[1..][j - 1] == rs[j];
          }
        }
        None
      case Some(k) => Some(k + 1)
  }

  /** The store built at start-up: the decoded slot, or an empty list when
      the slot is missing or does not decode. */
  function Load(slot: Option<seq<WrongRecord>>): (s: Store)
    ensures slot.None? ==> s.records == []
    ensures slot.Some? ==> Synced(s)
    ensures s.saves == 0
  {
    Store(slot.GetOr([]), slot, 0)
  }

  /** `save()`: write the current records to the slot. */
  function Save(s: Store): (r: Store)
    ensures Synced(r) && r.records == s.records && r.saves == s.saves + 1
  {
    s.(slot := Some(s.records), saves := s.saves + 1)
  }

  /** `recordWrong(questionID:)` at time `now`. */
  function RecordWrong(s: Store, id: string, now: int): (r: Store)
    ensures Synced(r) && r.saves == s.saves + 1
    ensures id in Ids(r.records)
    ensures FindIndex(s.records, id).Some? ==>
              var k := FindIndex(s.records, id).value;
              && |r.records| == |s.records|
              && r.records[k] == WrongRecord(id, now, s.records[k].timesWrong + 1)
              && (forall j :: 0 <= j < |s.records| && j != k ==> r.records[j] == s.records[j])
    ensures FindIndex(s.records, id).None? ==>
              r.records == s.records + [WrongRecord(id, now, 1)]
    ensures Valid(s.records) ==> Valid(r.records)
  {
    match FindIndex(s.records, id)
    case Some(k) =>
      var prev := s.records[k];
      var bumped := s.records[k := prev.(timesWrong := prev.timesWrong + 1, lastWrongDate := now)];
      assert Ids(bumped)[k] == id;
      Save(s.(records := bumped))
    case None =>
      var grown := s.records + [WrongRecord(id, now, 1)];
      assert Ids(grown)[|s.records|] == id;
      assert forall j :: 0 <= j < |s.records| ==> grown[j] == s.records[j];
      Save(s.(records := grown))
  }

  /** Dropping one position of a valid list keeps it valid and removes that
      position's id. */
  lemma RemoveAtKeepsValid(rs: seq<WrongRecord>, k: nat)
    requires Valid(rs) && k < |rs|
    ensures Valid(rs[..k] + rs[k + 1..])
    ensures rs[k].id !in Ids(rs[..k] + rs[k + 1..])
  {
    var t := rs[..k] + rs[k + 1..];
    forall i | 0 <= i < |t|
      ensures t[i] == rs[if i < k then i else i + 1]
    {
    }
  }

  /** `removeRecord(questionID:)`. */
  function RemoveRecord(s: Store, id: string): (r: Store)
    ensures FindIndex(s.records, id).None? ==> r == s
    ensures FindIndex(s.records, id).Some? ==>
              var k := FindIndex(s.records, id).value;
              && r.records == s.records[..k] + s.records[k + 1..]
              && Synced(r) && r.saves == s.saves + 1
    ensures Valid(s.records) ==> Valid(r.records) && id !in Ids(r.records)
  {
    match FindIndex(s.records, id)
    case None => s
    case Some(k) =>
      var rest := s.records[..k] + s.records[k + 1..];
      assert Valid(s.records) ==> Valid(rest) && id !in Ids(rest) by {
        if Valid(s.records) {
          RemoveAtKeepsValid(s.records, k);
        }
      }
      Save(s.(records := s.records[..k] + s.records[k + 1..]))
  }

  /** `clearAll()`. */
  function ClearAll(s: Store): (r: Store)
    ensures r.records == [] && Synced(r) && r.saves == s.saves + 1
  {
    Save(s.(records := []))
  }

  /** Non-decreasing in `lastWrongDate`. */
  predicate SortedByDate(rs: seq<WrongRecord>) {
    forall i, j :: 0 <= i < j < |rs| ==> rs[i].lastWrongDate <= rs[j].lastWrongDate
  }

  /** A record no newer than the head of a sorted list may go in front. */
  lemma SortedCons(a: WrongRecord, t: seq<WrongRecord>)
    requires SortedByDate(t)
    requires t != [] ==> a.lastWrongDate <= t[0].lastWrongDate
    ensures SortedByDate([a] + t)
  {
    var r := [a] + t;
    forall i, j | 0 <= i < j < |r| ensures r[i].lastWrongDate <= r[j].lastWrongDate {
      assert r[j] == t[j - 1];
      if i > 0 {
        assert r[i] == t[i - 1];
      }
    }
  }

  lemma MultisetCons(rs: seq<WrongRecord>)
    requires rs != []
    ensures multiset(rs) == multiset{rs[0]} + multiset(rs[1..])
  {
    assert rs == [rs[0]] + rs[1..];
  }

  /** Inserts `x` before the first record that is not older. */
  function InsertByDate(x: WrongRecord, rs: seq<WrongRecord>): (r: seq<WrongRecord>)
    requires SortedByDate(rs)
    ensures |r| == |rs| + 1
    ensures SortedByDate(r)
    ensures multiset(r) == multiset(rs) + multiset{x}
    ensures r[0] == x || (rs != [] && r[0] == rs[0])
  {
    if rs == [] then [x]
    else if x.lastWrongDate <= rs[0].lastWrongDate then
      SortedCons(x, rs);
      [x] + rs
    else
      var tail := InsertByDate(x, rs[1..]);
      MultisetCons(rs);
      SortedCons(rs[0], tail);
      [rs[0]] + tail
  }

  /** The records ordered oldest mistake first (ties keep list order). */
  function SortByDate(rs: seq<WrongRecord>): (r: seq<WrongRecord>)
    ensures SortedByDate(r)
    ensures multiset(r) == multiset(rs)
  {
    if rs == [] then []
    else
      MultisetCons(rs);
      InsertByDate(rs[0], SortByDate(rs[1..]))
  }

  lemma IdsCons(rs: seq<WrongRecord>)
    requires rs != []
    ensures multiset(Ids(rs)) == multiset{rs[0].id} + multiset(Ids(rs[1..]))
  {
    assert rs == [rs[0]] + rs[1..];
    IdsConcat([rs[0]], rs[1..]);
    assert Ids([rs[0]]) == [rs[0].id];
  }

  lemma {:induction false} InsertByDateIds(x: WrongRecord, rs: seq<WrongRecord>)
    requires SortedByDate(rs)
    ensures multiset(Ids(InsertByDate(x, rs))) == multiset(Ids(rs)) + multiset{x.id}
  {
    if rs == [] {
      assert Ids(InsertByDate(x, rs)) == [x.id];
    } else if x.lastWrongDate <= rs[0].lastWrongDate {
      assert InsertByDate(x, rs) == [x] + rs;
      IdsCons([x] + rs);
      assert ([x] + rs)[1..] == rs;
    } else {
      InsertByDateIds(x, rs[1..]);
      var r := InsertByDate(x, rs[1..]);
      assert InsertByDate(x, rs) == [rs[0]] + r;
      IdsCons([rs[0]] + r);
      assert ([rs[0]] + r)[1..] == r;
      IdsCons(rs);
    }
  }

  /** Sorting permutes the ids as well as the records. */
  lemma {:induction false} SortByDateIds(rs: seq<WrongRecord>)
    ensures multiset(Ids(SortByDate(rs))) == multiset(Ids(rs))
  {
    if rs != [] {
      var tail := SortByDate(rs[1..]);
      SortByDateIds(rs[1..]);
      InsertByDateIds(rs[0], tail);
      assert SortByDate(rs) == InsertByDate(rs[0], tail);
      IdsCons(rs);
    }
  }

  /** The date of the first record with this id (0 when there is none). */
  function DateOf(rs: seq<WrongRecord>, id: string): int {
    match FindIndex(rs, id)
    case Some(k) => rs[k].lastWrongDate
    case None => 0
  }

  /** In a valid list, the record found for a member's id is that member. */
  lemma DateOfMember(rs: seq<WrongRecord>, x: WrongRecord)
    requires Valid(rs) && x in rs
    ensures DateOf(rs, x.id) == x.lastWrongDate
  {
    var k :| 0 <= k < |rs| && rs[k] == x;
    assert Ids(rs)[k] == x.id;
    var f := FindIndex(rs, x.id).value;
    assert rs[f].id == rs[k].id;
  }

  /** `sortedWrongQuestionIDs()`: the ids, oldest mistake first. */
  function SortedWrongIds(s: Store): (r: seq<string>)
    ensures multiset(r) == multiset(Ids(s.records))
    ensures Valid(s.records) ==>
              forall i, j :: 0 <= i < j < |r| ==> DateOf(s.records, r[i]) <= DateOf(s.records, r[j])
  {
    var sorted := SortByDate(s.records);
    SortByDateIds(s.records);
    if Valid(s.records) then
      SortedIdsFollowDates(s.records);
      Ids(sorted)
    else
      Ids(sorted)
  }

  /** Projecting the date-sorted records to ids keeps the date order. */
  lemma SortedIdsFollowDates(rs: seq<WrongRecord>)
    requires Valid(rs)
    ensures var r := Ids(SortByDate(rs));
            forall i, j :: 0 <= i < j < |r| ==> DateOf(rs, r[i]) <= DateOf(rs, r[j])
  {
    var sorted := SortByDate(rs);
    var r := Ids(sorted);
    forall i | 0 <= i < |r|
      ensures DateOf(rs, r[i]) == sorted[i].lastWrongDate
    {
      assert sorted[i] in multiset(rs);
      DateOfMember(rs, sorted[i]);
    }
  }

  /** The record stored for an id, if any. */
  function Lookup(rs: seq<WrongRecord>, id: string): Option<WrongRecord> {
    match FindIndex(rs, id)
    case Some(k) => Some(rs[k])
    case None => None
  }

  /** The first position carrying an id is the one `FindIndex` finds. */
  lemma FindIndexAt(rs: seq<WrongRecord>, id: string, k: nat)
    requires k < |rs| && rs[k].id == id
    requires forall j :: 0 <= j < k ==> rs[j].id != id
    ensures FindIndex(rs, id) == Some(k)
  {
  }

  /** A first mistake appends a record with count 1, found at the end. */
  lemma RecordWrongNew(s: Store, id: string, now: int)
    requires id !in Ids(s.records)
    ensures var rs := RecordWrong(s, id, now).records;
            FindIndex(rs, id) == Some(|s.records|) && rs[|s.records|] == WrongRecord(id, now, 1)
  {
    var rs := RecordWrong(s, id, now).records;
    assert rs == s.records + [WrongRecord(id, now, 1)];
    forall j | 0 <= j < |s.records| ensures rs[j].id != id {
      assert Ids(s.records)[j] == s.records[j].id;
    }
    FindIndexAt(rs, id, |s.records|);
  }

  /** A repeated mistake updates the found record in place. */
  lemma RecordWrongAgain(s: Store, id: string, now: int, k: nat)
    requires FindIndex(s.records, id) == Some(k)
    ensures var rs := RecordWrong(s, id, now).records;
            FindIndex(rs, id) == Some(k) && rs[k] == WrongRecord(id, now, s.records[k].timesWrong + 1)
  {
    var rs := RecordWrong(s, id, now).records;
    forall j | 0 <= j < k ensures rs[j].id != id {
      assert rs[j] == s.records[j];
    }
    FindIndexAt(rs, id, k);
  }

  /** Two mistakes on a question with no record leave one record with count
      2 dated at the second mistake. */
  lemma RecordWrongTwice(s: Store, id: string, t1: int, t2: int)
    requires id !in Ids(s.records)
    ensures Lookup(RecordWrong(RecordWrong(s, id, t1), id, t2).records, id)
              == Some(WrongRecord(id, t2, 2))
  {
    RecordWrongNew(s, id, t1);
    RecordWrongAgain(RecordWrong(s, id, t1), id, t2, |s.records|);
  }

  /** Answering a question wrongly and then correctly leaves no trace of it
      in the replay order. */
  lemma RecordThenRemove(s: Store, id: string, now: int)
    requires Valid(s.records)
    ensures id !in SortedWrongIds(RemoveRecord(RecordWrong(s, id, now), id))
  {
    var r := RemoveRecord(RecordWrong(s, id, now), id);
    assert id !in multiset(Ids(r.records));
  }

  /** Saving after every change keeps the slot in step with memory: once the
      slot holds the records, every operation keeps it so. */
  lemma OperationsKeepSynced(s: Store, id: string, now: int)
    requires Synced(s)
    ensures Synced(RecordWrong(s, id, now))
    ensures Synced(RemoveRecord(s, id))
    ensures Synced(ClearAll(s))
    ensures Load(RemoveRecord(s, id).slot).records == RemoveRecord(s, id).records
  {
  }
}
