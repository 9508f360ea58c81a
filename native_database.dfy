/** The device store: one SQL table `surveys` whose primary key is an
    AUTOINCREMENT rowid. If the database could not be opened and the table
    created, every later operation finds no handle: saving reports the error,
    reads answer with an empty list, and writes resolve without effect. */
module Native {
  import opened Wrappers
  import opened Records

  datatype StoreError = StoreUnavailable

  /** The `images` column as written by `saveSurvey`: `survey.images || ''`,
      so an absent or empty list reference becomes the empty string. */
  function StoredImages(images: Option<string>): (r: Option<string>)
    ensures r.Some?
    ensures images.Some? && images.value != "" ==> r == images
    ensures images.None? || images == Some("") ==> r == Some("")
  {
    Some(images.GetOr(""))
  }

  class NativeDatabase {
    /** Whether opening the database and creating the table succeeded. */
    const ready: bool
    /** The table, by rowid. */
    var rows: map<int, Survey>
    /** The AUTOINCREMENT sequence: the largest rowid ever handed out. */
    var sequence: int

    ghost predicate Valid()
      reads this
    {
      && sequence >= 0
      && TableValid(rows, sequence + 1)
      && forall k :: k in rows ==> rows[k].images.Some?
    }

    constructor (openSucceeded: bool)
      ensures Valid()
      ensures ready == openSucceeded && rows == map[] && sequence == 0
    {
      ready := openSucceeded;
      rows := map[];
      sequence := 0;
    }

    /** `saveSurvey`: INSERT one row with `synced = 0` and the current time,
        returning the new rowid; without a database the error propagates. */
    method SaveSurvey(input: SurveyInput, now: int) returns (r: Result<int, StoreError>)
      requires Valid()
      modifies this
      ensures Valid()
      ensures !ready ==> r == Failure(StoreUnavailable) && rows == old(rows) && sequence == old(sequence)
      ensures ready ==>
        && r.Success? && r.value == old(sequence) + 1 && r.value !in old(rows)
        && rows == old(rows)[r.value := NewRecord(input.(images := StoredImages(input.images)), Some(r.value), now)]
        && sequence == r.value
    {
      if !ready {
        return Failure(StoreUnavailable);
      }
      var row := NewRecord(input.(images := StoredImages(input.images)), Some(sequence + 1), now);
      sequence := sequence + 1;
      rows := rows[sequence := row];
      var lastInsertRowId := sequence;
      r := Success(if lastInsertRowId != 0 then lastInsertRowId else 0);
    }

    /** `SELECT * FROM surveys ORDER BY createdAt DESC`, or `[]` without a database. */
    method GetSurveys() returns (r: seq<Survey>)
      requires Valid()
      ensures !ready ==> r == []
      ensures ready ==>
        && NewestFirstOrder(r)
        && |r| == |rows|
        && (forall x :: x in r <==> x in rows.Values)
        && (forall x :: multiset(r)[x] <= 1)
    {
      if !ready {
        return [];
      }
      r := NewestFirst(TableRecords(rows));
      TableRecordsExact(rows, sequence + 1);
    }

    /** `SELECT * FROM surveys WHERE synced = 0`, or `[]` without a database. */
    method GetUnsyncedSurveys() returns (r: seq<Survey>)
      requires Valid()
      ensures !ready ==> r == []
      ensures ready ==> forall x :: x in r <==> x in rows.Values && x.synced == 0
      ensures ready ==> forall x :: multiset(r)[x] <= 1
    {
      if !ready {
        return [];
      }
      r := Unsynced(TableRecords(rows));
      TableRecordsExact(rows, sequence + 1);
      forall x ensures x in r <==> x in rows.Values && x.synced == 0 {
        assert x in r <==> multiset(r)[x] > 0;
      }
    }

    /** `UPDATE surveys SET synced = 1 WHERE id = ?`; never fails. */
    method MarkSurveyAsSynced(id: int)
      requires Valid()
      modifies this`rows
      ensures Valid()
      ensures rows == if ready then MarkedSynced(old(rows), id) else old(rows)
    {
      if !ready {
        return;
      }
      MarkedSyncedKeepsValid(rows, sequence + 1, id);
      rows := MarkedSynced(rows, id);
    }

    /** `DELETE FROM surveys WHERE id = ?`; never fails. */
    method DeleteSurvey(id: int)
      requires Valid()
      modifies this`rows
      ensures Valid()
      ensures rows == if ready then old(rows) - {id} else old(rows)
    {
      if !ready {
        return;
      }
      rows := rows - {id};
    }
  }
}
