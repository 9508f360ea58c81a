/** The survey record shared by both store backends, and the queries both
    backends run over a keyed table of records. */
module Records {
  import opened Wrappers

  /** A survey as stored. `id` is absent until a store assigns it; `images`
      holds the serialized list of image references, when there is one;
      `createdAt` is a timestamp; `synced` is 0 (not yet delivered) or 1. */
  datatype Survey = Survey(
    id: Option<int>,
    title: string,
    description: string,
    latitude: real,
    longitude: real,
    images: Option<string>,
    createdAt: int,
    synced: int)

  /** What a caller hands to `saveSurvey`: a survey without id, createdAt and synced. */
  datatype SurveyInput = SurveyInput(
    title: string,
    description: string,
    latitude: real,
    longitude: real,
    images: Option<string>)

  /** The record a store writes for `input`: the caller's fields copied, the
      timestamp and the id chosen by the store, and `synced` cleared. */
  function NewRecord(input: SurveyInput, id: Option<int>, now: int): (r: Survey)
    ensures r.id == id && r.createdAt == now && r.synced == 0
    ensures r.title == input.title && r.description == input.description
    ensures r.latitude == input.latitude && r.longitude == input.longitude
    ensures r.images == input.images
  {
    Survey(id, input.title, input.description, input.latitude, input.longitude, input.images, now, 0)
  }

  /** A keyed table: every record carries its own key as id, every key was
      issued by the counter (keys start at 1), and `synced` is a 0/1 flag. */
  ghost predicate TableValid(table: map<int, Survey>, next: int)
  {
    && next >= 1
    && forall k :: k in table ==>
         1 <= k < next && table[k].id == Some(k) && 0 <= table[k].synced <= 1
  }

  // ---------------------------------------------------------------------
  // Key order: a table read in ascending key order
  // ---------------------------------------------------------------------

  lemma {:induction false} MinimumExists(keys: set<int>)
    requires keys != {}
    ensures exists m :: m in keys && forall k :: k in keys ==> m <= k
    decreases |keys|
  {
    if forall k :: k !in keys {
      assert false;
    }
    var x :| x in keys;
    var rest := keys - {x};
    if rest == {} {
      assert keys == {x};
      assert forall k :: k in keys ==> x <= k;
    } else {
      MinimumExists(rest);
      var m :| m in rest && forall k :: k in rest ==> m <= k;
      assert forall k :: k in keys ==> k == x || k in rest;
      if x < m {
        assert forall k :: k in keys ==> x <= k;
      } else {
        assert forall k :: k in keys ==> m <= k;
      }
    }
  }

  function Minimum(keys: set<int>): (m: int)
    requires keys != {}
    ensures m in keys && forall k :: k in keys ==> m <= k
  {
    MinimumExists(keys);
    var m :| m in keys && forall k :: k in keys ==> m <= k;
    m
  }

  /** The keys of a table, smallest first. */
  function KeysAscending(keys: set<int>): (r: seq<int>)
    ensures |r| == |keys|
    ensures forall k :: k in keys <==> k in r
    ensures forall i, j :: 0 <= i < j < |r| ==> r[i] < r[j]
    decreases |keys|
  {
    if keys == {} then []
    else
      var m := Minimum(keys);
      var rest := KeysAscending(keys - {m});
      PrependMinimum(keys, m, rest);
      [m] + rest
  }

  lemma PrependMinimum(keys: set<int>, m: int, rest: seq<int>)
    requires m in keys && forall k :: k in keys ==> m <= k
    requires |rest| == |keys - {m}|
    requires forall k :: k in keys - {m} <==> k in rest
    requires forall i, j :: 0 <= i < j < |rest| ==> rest[i] < rest[j]
    ensures |[m] + rest| == |keys|
    ensures forall k :: k in keys <==> k in [m] + rest
    ensures forall i, j :: 0 <= i < j < |[m] + rest| ==> ([m] + rest)[i] < ([m] + rest)[j]
  {
    var r := [m] + rest;
    forall i, j | 0 <= i < j < |r| ensures r[i] < r[j] {
      assert r[j] == rest[j - 1] && r[j] in keys - {m};
      if i > 0 {
        assert r[i] == rest[i - 1];
      }
    }
  }

  /** The records of a table in ascending key order: what a full scan of an
      object store, or of a table by rowid, yields. */
  function TableRecords(table: map<int, Survey>): (r: seq<Survey>)
    ensures |r| == |table|
  {
    var ks := KeysAscending(table.Keys);
    seq(|ks|, i requires 0 <= i < |ks| => table[ks[i]])
  }

  lemma TableRecordsMembers(table: map<int, Survey>)
    ensures forall x :: x in TableRecords(table) <==> x in table.Values
  {
    var ks := KeysAscending(table.Keys);
    var r := TableRecords(table);
    forall x | x in table.Values ensures x in r {
      var k :| k in table && table[k] == x;
      var i :| 0 <= i < |ks| && ks[i] == k;
      assert r[i] == x;
    }
  }

  lemma TableRecordsDistinct(table: map<int, Survey>, next: int)
    requires TableValid(table, next)
    ensures var r := TableRecords(table);
      forall i, j :: 0 <= i < j < |r| ==> r[i].id != r[j].id
  {
    var ks := KeysAscending(table.Keys);
    var r := TableRecords(table);
    forall i, j | 0 <= i < j < |r| ensures r[i].id != r[j].id {
      assert r[i].id == Some(ks[i]) && r[j].id == Some(ks[j]);
    }
  }

  lemma TableRecordsExact(table: map<int, Survey>, next: int)
    requires TableValid(table, next)
    ensures forall x :: x in TableRecords(table) <==> x in table.Values
    ensures forall x :: multiset(TableRecords(table))[x] == if x in table.Values then 1 else 0
  {
    var r := TableRecords(table);
    TableRecordsMembers(table);
    TableRecordsDistinct(table, next);
    forall x ensures multiset(r)[x] == if x in table.Values then 1 else 0 {
      DistinctCount(r, x);
    }
  }

  /** In a valid table no record appears twice in a scan, since ids are keys. */
  lemma DistinctCount(r: seq<Survey>, x: Survey)
    requires forall i, j :: 0 <= i < j < |r| ==> r[i].id != r[j].id
    ensures multiset(r)[x] == if x in r then 1 else 0
  {
    if r != [] {
      assert r == [r[0]] + r[1..];
      DistinctCount(r[1..], x);
      if r[0] == x {
        assert x !in r[1..];
      }
    }
  }

  // ---------------------------------------------------------------------
  // Newest first: the stable sort by createdAt, descending
  // ---------------------------------------------------------------------

  ghost predicate NewestFirstOrder(s: seq<Survey>)
  {
    forall i, j :: 0 <= i < j < |s| ==> s[i].createdAt >= s[j].createdAt
  }

  /** Places `x` before the first record that is not newer than it, so that
      among records with the same timestamp the earlier one stays first. */
  function InsertByDate(x: Survey, s: seq<Survey>): (r: seq<Survey>)
    requires NewestFirstOrder(s)
    ensures InsertedInto(x, s, r)
  {
    if s == [] || x.createdAt >= s[0].createdAt then
      PrependKeepsOrder(x, s);
      [x] + s
    else
      var tail := InsertByDate(x, s[1..]);
      InsertBehindHead(x, s, tail);
      [s[0]] + tail
  }

  /** `r` is `s` with `x` added, and is newest first. */
  ghost predicate InsertedInto(x: Survey, s: seq<Survey>, r: seq<Survey>)
  {
    && |r| == |s| + 1
    && (forall i :: 0 <= i < |r| ==> r[i] == x || r[i] in s)
    && NewestFirstOrder(r)
    && multiset(r) == multiset(s) + multiset{x}
  }

  lemma InsertBehindHead(x: Survey, s: seq<Survey>, tail: seq<Survey>)
    requires NewestFirstOrder(s) && s != [] && x.createdAt < s[0].createdAt
    requires InsertedInto(x, s[1..], tail)
    ensures InsertedInto(x, s, [s[0]] + tail)
  {
    assert s == [s[0]] + s[1..];
    forall i | 0 <= i < |tail| ensures tail[i].createdAt <= s[0].createdAt {
      if tail[i] != x {
        var j :| 0 <= j < |s[1..]| && s[1..][j] == tail[i];
        assert s[j + 1] == tail[i];
      }
    }
    PrependKeepsOrder(s[0], tail);
    var r := [s[0]] + tail;
    assert forall i :: 1 <= i < |r| ==> r[i] == tail[i - 1];
    assert forall y :: y in s[1..] ==> y in s;
    assert multiset(r) == multiset{s[0]} + multiset(tail);
  }

  lemma PrependKeepsOrder(h: Survey, t: seq<Survey>)
    requires NewestFirstOrder(t)
    requires forall i :: 0 <= i < |t| ==> t[i].createdAt <= h.createdAt
    ensures NewestFirstOrder([h] + t)
  {
    var r := [h] + t;
    forall i, j | 0 <= i < j < |r| ensures r[i].createdAt >= r[j].createdAt {
      if i > 0 {
        assert r[i] == t[i - 1] && r[j] == t[j - 1];
      } else {
        assert r[j] == t[j - 1];
      }
    }
  }

  /** The order `getSurveys` promises: newest `createdAt` first, a
      permutation of what was read. */
  function NewestFirst(s: seq<Survey>): (r: seq<Survey>)
    ensures NewestFirstOrder(r)
    ensures multiset(r) == multiset(s)
  {
    if s == [] then []
    else
      assert s == [s[0]] + s[1..];
      InsertByDate(s[0], NewestFirst(s[1..]))
  }

  // ---------------------------------------------------------------------
  // The unsynced filter
  // ---------------------------------------------------------------------

  /** The records whose `synced` flag is 0, in their original order. */
  function Unsynced(s: seq<Survey>): (r: seq<Survey>)
    ensures forall x :: multiset(r)[x] == if x.synced == 0 then multiset(s)[x] else 0
  {
    if s == [] then []
    else
      assert s == [s[0]] + s[1..];
      (if s[0].synced == 0 then [s[0]] else []) + Unsynced(s[1..])
  }

  // ---------------------------------------------------------------------
  // Setting the synced flag of one key
  // ---------------------------------------------------------------------

  /** `UPDATE ... SET synced = 1 WHERE id = ?` on a keyed table: only the
      flag of the record under `id` changes; a missing id changes nothing. */
  function MarkedSynced(table: map<int, Survey>, id: int): (r: map<int, Survey>)
    ensures r.Keys == table.Keys
    ensures forall k :: k in table && k != id ==> r[k] == table[k]
    ensures id in table ==> r[id] == table[id].(synced := 1)
  {
    if id in table then table[id := table[id].(synced := 1)] else table
  }

  lemma MarkedSyncedIdempotent(table: map<int, Survey>, id: int)
    ensures MarkedSynced(MarkedSynced(table, id), id) == MarkedSynced(table, id)
  {
  }

  lemma MarkedSyncedKeepsValid(table: map<int, Survey>, next: int, id: int)
    requires TableValid(table, next)
    ensures TableValid(MarkedSynced(table, id), next)
    ensures forall k :: k in table ==>
      var r := MarkedSynced(table, id)[k];
      r.id == table[k].id && r.createdAt == table[k].createdAt && r.synced >= table[k].synced
  {
  }

  /** Deleting and then marking the same id leaves the deletion as it was. */
  lemma DeleteThenMarkIsNoOp(table: map<int, Survey>, id: int)
    ensures MarkedSynced(table - {id}, id) == table - {id}
  {
  }

  /** After the flag is set, the record under `id` is no longer listed as unsynced. */
  lemma MarkedNotUnsynced(table: map<int, Survey>, next: int, id: int)
    requires TableValid(table, next)
    ensures forall x :: x in Unsynced(TableRecords(MarkedSynced(table, id))) ==> x.id != Some(id)
  {
    var t := MarkedSynced(table, id);
    MarkedSyncedKeepsValid(table, next, id);
    TableRecordsMembers(t);
    var listed := Unsynced(TableRecords(t));
    forall x | x in listed ensures x.id != Some(id) {
      assert multiset(listed)[x] > 0;
      assert x.synced == 0 && x in TableRecords(t);
      var k :| k in t && t[k] == x;
      assert x.id == Some(k);
    }
  }
}
