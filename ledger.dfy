/** The duty ledger: the newest-first list of duty records and the edits the
    record form and the table make to it (src/App.tsx, handleAddOrUpdate,
    handleDelete, filteredRecords). */
module DutyLedger {
  import opened Seqs
  import opened DutyTypes

  /** The record form: every field of a duty record except its id. The form's
      notes box always holds a string, possibly empty. */
  datatype RecordForm = RecordForm(
    date: string,
    shift: Shift,
    className: string,
    mainTask: string,
    supervisor: string,
    evaluation: Evaluation,
    notes: string)
  {
    /** The record the form describes, under the given id. */
    function WithId(id: string): (r: DutyRecord)
      ensures r.id == id && FormOf(r) == this
      ensures r.notes == Some(notes)
    {
      DutyRecord(id, date, shift, className, mainTask, supervisor, evaluation, Some(notes))
    }
  }

  /** The form the edit dialog opens with for a record: its fields, and its notes
      or the empty string when it has none. */
  function FormOf(r: DutyRecord): RecordForm
  {
    RecordForm(r.date, r.shift, r.className, r.mainTask, r.supervisor, r.evaluation,
               if r.notes.Some? then r.notes.value else "")
  }

  /** Saving the edit dialog unchanged rebuilds the record, except that a record
      without notes comes back with empty notes. */
  lemma ReopenedFormRebuildsRecord(r: DutyRecord)
    ensures r.notes.Some? ==> FormOf(r).WithId(r.id) == r
    ensures r.notes.None? ==> FormOf(r).WithId(r.id) == r.(notes := Some(""))
  {
  }

  /** No two records of the ledger share an id. */
  predicate UniqueIds(records: seq<DutyRecord>)
  {
    UniqueBy(records, (r: DutyRecord) => r.id)
  }

  /** The ledger holds a record with this id. */
  predicate HasId(records: seq<DutyRecord>, id: string)
  {
    exists i :: 0 <= i < |records| && records[i].id == id
  }

  /** A new record from the form, under a fresh id, goes in front of the ledger. */
  function AddRecord(records: seq<DutyRecord>, form: RecordForm, id: string): (r: seq<DutyRecord>)
    ensures |r| == |records| + 1
    ensures r[0].id == id && FormOf(r[0]) == form
    ensures r[1..] == records
  {
    [form.WithId(id)] + records
  }

  /** Every record carrying the edited id takes the form's fields and keeps its id;
      all other records, and the order, stay as they were. */
  function UpdateRecord(records: seq<DutyRecord>, editingId: string, form: RecordForm): (r: seq<DutyRecord>)
    ensures |r| == |records|
    ensures forall i :: 0 <= i < |r| ==> r[i].id == records[i].id
    ensures forall i :: 0 <= i < |r| ==>
      if records[i].id == editingId then FormOf(r[i]) == form else r[i] == records[i]
  {
    seq(|records|, i requires 0 <= i < |records| =>
      if records[i].id == editingId then form.WithId(records[i].id) else records[i])
  }

  /** The ledger without the records that carry the given id. */
  function DeleteRecord(records: seq<DutyRecord>, id: string): (r: seq<DutyRecord>)
    ensures forall x :: x in r <==> x in records && x.id != id
    ensures !HasId(r, id)
    ensures IsSubsequence(r, records)
  {
    var r := Filter(records, (x: DutyRecord) => x.id != id);
    assert forall i :: 0 <= i < |r| ==> r[i] in r;
    r
  }

  /** The shift selector of the table: a single shift or every shift ("Tất cả"). */
  datatype ShiftFilter = AllShifts | OnlyShift(shift: Shift)

  /** The search term, lower-cased by `fold`, occurs in the lower-cased class name,
      task or supervisor, and the shift passes the selector. */
  predicate Matches(r: DutyRecord, searchTerm: string, filterShift: ShiftFilter, fold: string -> string)
  {
    var term := fold(searchTerm);
    && (Includes(fold(r.className), term) || Includes(fold(r.mainTask), term) || Includes(fold(r.supervisor), term))
    && (filterShift.AllShifts? || r.shift == filterShift.shift)
  }

  /** With an empty search term, provided lower-casing keeps it empty, a record
      matches exactly when its shift passes the selector. */
  lemma EmptySearchFiltersByShiftOnly(r: DutyRecord, filterShift: ShiftFilter, fold: string -> string)
    requires fold("") == ""
    ensures Matches(r, "", filterShift, fold) <==> (filterShift.AllShifts? || r.shift == filterShift.shift)
  {
    assert Includes(fold(r.className), "");
  }

  /** The records the table shows, in ledger order. */
  function FilterRecords(records: seq<DutyRecord>, searchTerm: string, filterShift: ShiftFilter, fold: string -> string): (r: seq<DutyRecord>)
    ensures forall x :: x in r <==> x in records && Matches(x, searchTerm, filterShift, fold)
    ensures IsSubsequence(r, records)
  {
    Filter(records, (x: DutyRecord) => Matches(x, searchTerm, filterShift, fold))
  }

  /** Deleting a freshly added record gives back the ledger it was added to. */
  lemma DeleteAfterAdd(records: seq<DutyRecord>, form: RecordForm, id: string)
    requires !HasId(records, id)
    ensures DeleteRecord(AddRecord(records, form, id), id) == records
  {
    var p := (x: DutyRecord) => x.id != id;
    var added := AddRecord(records, form, id);
    assert added == [form.WithId(id)] + records;
    FilterAppend([form.WithId(id)], records, p);
    assert Filter([form.WithId(id)], p) == [];
    forall x | x in records ensures p(x) {
      var i :| 0 <= i < |records| && records[i] == x;
    }
    FilterKeepsAll(records, p);
  }

  /** Adding under a fresh id keeps ids unique. */
  lemma AddKeepsUniqueIds(records: seq<DutyRecord>, form: RecordForm, id: string)
    requires UniqueIds(records) && !HasId(records, id)
    ensures UniqueIds(AddRecord(records, form, id))
  {
    var r := AddRecord(records, form, id);
    forall i, j | 0 <= i < j < |r| ensures r[i].id != r[j].id {
      assert r[j] == records[j - 1];
      if i > 0 {
        assert r[i] == records[i - 1];
      }
    }
  }

  /** Updating never changes the ids, so it keeps them unique. */
  lemma UpdateKeepsUniqueIds(records: seq<DutyRecord>, editingId: string, form: RecordForm)
    requires UniqueIds(records)
    ensures UniqueIds(UpdateRecord(records, editingId, form))
  {
  }

  /** Applying the same edit twice is applying it once. */
  lemma UpdateIdempotent(records: seq<DutyRecord>, editingId: string, form: RecordForm)
    ensures UpdateRecord(UpdateRecord(records, editingId, form), editingId, form)
         == UpdateRecord(records, editingId, form)
  {
  }

  /** An edit whose id is not in the ledger leaves it unchanged. */
  lemma UpdateAbsentIsNoop(records: seq<DutyRecord>, editingId: string, form: RecordForm)
    requires !HasId(records, editingId)
    ensures UpdateRecord(records, editingId, form) == records
  {
  }

  /** Deleting twice is deleting once; deleting an absent id changes nothing. */
  lemma DeleteIdempotent(records: seq<DutyRecord>, id: string)
    ensures DeleteRecord(DeleteRecord(records, id), id) == DeleteRecord(records, id)
    ensures !HasId(records, id) ==> DeleteRecord(records, id) == records
  {
    var p := (x: DutyRecord) => x.id != id;
    FilterIdempotent(records, p);
    if !HasId(records, id) {
      forall x | x in records ensures p(x) {
        var i :| 0 <= i < |records| && records[i] == x;
      }
      FilterKeepsAll(records, p);
    }
  }

  /** Deleting keeps ids unique. */
  lemma DeleteKeepsUniqueIds(records: seq<DutyRecord>, id: string)
    requires UniqueIds(records)
    ensures UniqueIds(DeleteRecord(records, id))
  {
    FilterUniqueBy(records, (x: DutyRecord) => x.id != id, (r: DutyRecord) => r.id);
  }

  /** In a ledger with unique ids, the records other than the k-th all pass the
      delete filter for the k-th record's id. */
  lemma OthersKeepTheirPlace(records: seq<DutyRecord>, k: nat, lo: nat, hi: nat)
    requires UniqueIds(records) && k < |records| && lo <= hi <= |records|
    requires k < lo || hi <= k
    ensures Filter(records[lo..hi], (x: DutyRecord) => x.id != records[k].id) == records[lo..hi]
  {
    var id := records[k].id;
    var part := records[lo..hi];
    forall x | x in part ensures x.id != id {
      var i :| 0 <= i < |part| && part[i] == x;
      assert records[lo + i] == x;
    }
    FilterKeepsAll(part, (x: DutyRecord) => x.id != id);
  }

  /** With unique ids, deleting a present id removes exactly that one record. */
  lemma DeleteRemovesOne(records: seq<DutyRecord>, k: nat)
    requires UniqueIds(records) && k < |records|
    ensures DeleteRecord(records, records[k].id) == records[..k] + records[k + 1..]
  {
    var id := records[k].id;
    var p := (x: DutyRecord) => x.id != id;
    var front, back := records[0..k], records[k + 1..|records|];
    assert records == front + ([records[k]] + back);
    FilterAppend(front, [records[k]] + back, p);
    FilterAppend([records[k]], back, p);
    assert Filter([records[k]], p) == [];
    OthersKeepTheirPlace(records, k, 0, k);
    OthersKeepTheirPlace(records, k, k + 1, |records|);
    calc {
      DeleteRecord(records, id);
      Filter(records, p);
      Filter(front, p) + (Filter([records[k]], p) + Filter(back, p));
      front + back;
    }
    assert records[..k] == front && records[k + 1..] == back;
  }

  /** An empty search term with every shift selected shows the whole ledger,
      provided lower-casing keeps the empty string empty. */
  lemma FilterWithoutCriteriaShowsAll(records: seq<DutyRecord>, fold: string -> string)
    requires fold("") == ""
    ensures FilterRecords(records, "", AllShifts, fold) == records
  {
    forall x | x in records ensures Matches(x, "", AllShifts, fold) {
      assert Includes(fold(x.className), "");
    }
    FilterKeepsAll(records, (x: DutyRecord) => Matches(x, "", AllShifts, fold));
  }
}
