/** `Storage`: the persisted read flags. The store is a sequence of
    records, one per persisted `ComicModel`; only the id and the read flag of
    a model are ever consulted. */
module ReadStore {
  import opened Wrappers
  import opened ComicModels

  datatype ReadRecord = ReadRecord(id: Option<int>, isRead: bool)

  /** The batch delete `delete(model:where: $0.id == id)`. */
  function WithoutId(rs: seq<ReadRecord>, id: Option<int>): (r: seq<ReadRecord>)
    ensures |r| <= |rs|
    ensures forall x :: x in r <==> x in rs && x.id != id
  {
    if rs == [] then []
    else if rs[0].id == id then WithoutId(rs[1..], id)
    else [rs[0]] + WithoutId(rs[1..], id)
  }

  lemma {:induction false} WithoutIdAppend(a: seq<ReadRecord>, b: seq<ReadRecord>, id: Option<int>)
    ensures WithoutId(a + b, id) == WithoutId(a, id) + WithoutId(b, id)
  {
    if a == [] {
      assert a + b == b;
    } else {
      assert (a + b)[1..] == a[1..] + b;
      WithoutIdAppend(a[1..], b, id);
    }
  }

  lemma {:induction false} WithoutAbsentId(rs: seq<ReadRecord>, id: Option<int>)
    requires forall x :: x in rs ==> x.id != id
    ensures WithoutId(rs, id) == rs
  {
    if rs != [] {
      assert rs[0] in rs;
      assert forall x :: x in rs[1..] ==> x in rs;
      WithoutAbsentId(rs[1..], id);
    }
  }

  lemma {:induction false} WithoutIdKeepsUnique(rs: seq<ReadRecord>, id: Option<int>)
    ensures UniqueIds(rs) ==> UniqueIds(WithoutId(rs, id))
  {
    if rs != [] && UniqueIds(rs) {
      assert UniqueIds(rs[1..]) by {
        forall i, j | 0 <= i < j < |rs[1..]| ensures rs[1..][i].id != rs[1..][j].id {
          assert rs[1..][i] == rs[i + 1] && rs[1..][j] == rs[j + 1];
        }
      }
      WithoutIdKeepsUnique(rs[1..], id);
      if rs[0].id != id {
        var rest := WithoutId(rs[1..], id);
        forall x | x in rest ensures x.id != rs[0].id {
          var j :| 0 <= j < |rs[1..]| && rs[1..][j] == x;
          assert rs[j + 1] == x;
        }
      }
    }
  }

  /** No two records share an id. */
  ghost predicate UniqueIds(rs: seq<ReadRecord>)
  {
    forall i, j :: 0 <= i < j < |rs| ==> rs[i].id != rs[j].id
  }

  /** `insert`: delete every record with the model's id, then add the model. */
  function Upsert(rs: seq<ReadRecord>, rec: ReadRecord): (r: seq<ReadRecord>)
    ensures r != [] && r[|r| - 1] == rec
    ensures forall k :: 0 <= k < |r| - 1 ==> r[k].id != rec.id
    ensures WithoutId(r, rec.id) == WithoutId(rs, rec.id)
    ensures UniqueIds(rs) ==> UniqueIds(r)
  {
    var kept := WithoutId(rs, rec.id);
    WithoutIdAppend(kept, [rec], rec.id);
    WithoutAbsentId(kept, rec.id);
    assert WithoutId([rec], rec.id) == [];
    assert forall k :: 0 <= k < |kept| ==> kept[k] in kept;
    WithoutIdKeepsUnique(rs, rec.id);
    AppendFreshKeepsUnique(kept, rec);
    var r := kept + [rec];
    assert forall k :: 0 <= k < |r| - 1 ==> r[k] == kept[k];
    r
  }

  lemma AppendFreshKeepsUnique(rs: seq<ReadRecord>, rec: ReadRecord)
    requires forall k :: 0 <= k < |rs| ==> rs[k].id != rec.id
    ensures UniqueIds(rs) ==> UniqueIds(rs + [rec])
  {
  }

  /** `delete(_:)` of one model: drop the records equal to it. */
  function WithoutRecord(rs: seq<ReadRecord>, rec: ReadRecord): (r: seq<ReadRecord>)
    ensures |r| <= |rs|
    ensures forall x :: x in r <==> x in rs && x != rec
  {
    if rs == [] then []
    else if rs[0] == rec then WithoutRecord(rs[1..], rec)
    else [rs[0]] + WithoutRecord(rs[1..], rec)
  }

  /** Deleting keeps the ids unique. */
  lemma {:induction false} WithoutRecordKeepsUnique(rs: seq<ReadRecord>, rec: ReadRecord)
    ensures UniqueIds(rs) ==> UniqueIds(WithoutRecord(rs, rec))
  {
    if rs != [] && UniqueIds(rs) {
      assert UniqueIds(rs[1..]) by {
        forall i, j | 0 <= i < j < |rs[1..]| ensures rs[1..][i].id != rs[1..][j].id {
          assert rs[1..][i] == rs[i + 1] && rs[1..][j] == rs[j + 1];
        }
      }
      WithoutRecordKeepsUnique(rs[1..], rec);
      if rs[0] != rec {
        var rest := WithoutRecord(rs[1..], rec);
        forall x | x in rest ensures x.id != rs[0].id {
          var j :| 0 <= j < |rs[1..]| && rs[1..][j] == x;
          assert rs[j + 1] == x;
        }
      }
    }
  }

  /** The fetch `$0.id == id && $0.isRead == true`, counted, compared with 0;
      a nil id answers false without asking. */
  function Query(rs: seq<ReadRecord>, id: Option<int>): (r: bool)
    ensures r ==> id.Some?
  {
    id.Some? && ReadRecord(id, true) in rs
  }

  /** The query is true exactly when some stored record has the id and a
      set read flag. */
  lemma QueryMeansReadRecord(rs: seq<ReadRecord>, id: Option<int>)
    ensures Query(rs, id) <==> id.Some? && exists k :: 0 <= k < |rs| && rs[k].id == id && rs[k].isRead
  {
    if id.Some? && (exists k :: 0 <= k < |rs| && rs[k].id == id && rs[k].isRead) {
      var k :| 0 <= k < |rs| && rs[k].id == id && rs[k].isRead;
      assert rs[k] == ReadRecord(id, true);
    }
  }

  /** Right after an insert, the query for the inserted id gives the inserted
      flag; every other id answers as before. */
  lemma QueryAfterUpsert(rs: seq<ReadRecord>, rec: ReadRecord, id: Option<int>)
    ensures Query(Upsert(rs, rec), id) == if id == rec.id then id.Some? && rec.isRead else Query(rs, id)
  {
  }

  /** Two inserts for one id leave what the second one alone would leave. */
  lemma UpsertTwice(rs: seq<ReadRecord>, a: ReadRecord, b: ReadRecord)
    requires a.id == b.id
    ensures Upsert(Upsert(rs, a), b) == Upsert(rs, b)
  {
    var kept := WithoutId(rs, a.id);
    WithoutIdAppend(kept, [a], a.id);
    WithoutAbsentId(kept, a.id);
    assert WithoutId([a], a.id) == [];
  }

  /** Deleting a read model clears the flag of its id; deleting an unread
      one changes no answer. */
  lemma QueryAfterDelete(rs: seq<ReadRecord>, rec: ReadRecord, id: Option<int>)
    ensures Query(WithoutRecord(rs, rec), id) == (Query(rs, id) && !(id == rec.id && rec.isRead))
  {
  }

  class Storage {
    /** Whether the model container could be created. */
    const available: bool
    var records: seq<ReadRecord>

    ghost predicate Valid()
      reads this
    {
      (!available ==> records == []) && UniqueIds(records)
    }

    /** `init()`: whether `ModelContainer(for:)` succeeds is the parameter. */
    constructor (containerCreated: bool)
      ensures Valid() && available == containerCreated && records == []
    {
      available := containerCreated;
      records := [];
    }

    method Insert(m: ComicModel)
      requires Valid()
      modifies this
      ensures Valid()
      ensures records == if available then Upsert(old(records), ReadRecord(m.id, m.isRead)) else old(records)
      ensures m.id.Some? && available ==> IsMarkedAsRead(m.id) == m.isRead
    {
      if available {
        ghost var before := records;
        records := WithoutId(records, m.id);
        records := records + [ReadRecord(m.id, m.isRead)];
        assert records == Upsert(before, ReadRecord(m.id, m.isRead));
      }
    }

    method Delete(m: ComicModel)
      requires Valid()
      modifies this
      ensures Valid()
      ensures records == if available then WithoutRecord(old(records), ReadRecord(m.id, m.isRead)) else old(records)
    {
      if available {
        records := WithoutRecord(records, ReadRecord(m.id, m.isRead));
        WithoutRecordKeepsUnique(old(records), ReadRecord(m.id, m.isRead));
      }
    }

    /** `isMarkedAsReadPublisher(id:)`, answered synchronously. */
    function IsMarkedAsRead(id: Option<int>): (r: bool)
      reads this
      ensures r ==> available && id.Some?
    {
      available && Query(records, id)
    }
  }

  /** Fail-open: a store without a container answers false for every id. */
  lemma UnavailableAnswersFalse(s: Storage, id: Option<int>)
    requires s.Valid() && !s.available
    ensures !s.IsMarkedAsRead(id)
  {
  }
}
