/** The browser store. When a database handle is available the records live
    in an object store keyed by an auto-increment key with an index on
    `synced`; otherwise they live in one list serialized under a fixed
    local-storage key, which every operation reads, changes and writes back. */
module Web {
  import opened Wrappers
  import opened Records

  /** Fallback ids are drawn uniformly from [0, FallbackIdBound). */
  const FallbackIdBound: int := 10000

  datatype WebError = NotFound(id: int)

  // ---------------------------------------------------------------------
  // The fallback list
  // ---------------------------------------------------------------------

  /** `findIndex(s => s.id === id)`: the first position holding `id`, or -1. */
  function IndexOfId(s: seq<Survey>, id: int): (r: int)
    ensures -1 <= r < |s|
    ensures r == -1 <==> forall i :: 0 <= i < |s| ==> s[i].id != Some(id)
    ensures r >= 0 ==> s[r].id == Some(id) && forall i :: 0 <= i < r ==> s[i].id != Some(id)
  {
    if s == [] then -1
    else if s[0].id == Some(id) then 0
    else
      var k := IndexOfId(s[1..], id);
      if k == -1 then -1 else k + 1
  }

  /** The record at position `i` is the first one carrying `id`. */
  ghost predicate FirstWithId(s: seq<Survey>, id: int, i: int)
    requires 0 <= i < |s|
  {
    s[i].id == Some(id) && forall j :: 0 <= j < i ==> s[j].id != Some(id)
  }

  /** The fallback `markSurveyAsSynced`: the first record with `id` gets
      `synced = 1`, every other record and field is kept; without such a
      record the list is unchanged. */
  function MarkFirstSynced(s: seq<Survey>, id: int): (r: seq<Survey>)
    ensures |r| == |s|
    ensures forall i :: 0 <= i < |s| ==>
      r[i] == if FirstWithId(s, id, i) then s[i].(synced := 1) else s[i]
    ensures (forall i :: 0 <= i < |s| ==> s[i].id != Some(id)) ==> r == s
  {
    var i := IndexOfId(s, id);
    if i == -1 then s else s[i := s[i].(synced := 1)]
  }

  /** The fallback `deleteSurvey`: `splice` of the first record with `id`;
      without such a record the list is unchanged. */
  function RemoveFirst(s: seq<Survey>, id: int): (r: seq<Survey>)
    ensures IndexOfId(s, id) == -1 ==> r == s
    ensures IndexOfId(s, id) >= 0 ==> |r| == |s| - 1
    ensures forall i :: 0 <= i < |r| ==>
      r[i] == if IndexOfId(s, id) == -1 || i < IndexOfId(s, id) then s[i] else s[i + 1]
  {
    var i := IndexOfId(s, id);
    if i == -1 then s else s[..i] + s[i + 1..]
  }

  /** Deleting takes away exactly the first record with `id`, and nothing else. */
  lemma RemoveFirstTakesOne(s: seq<Survey>, id: int)
    requires IndexOfId(s, id) >= 0
    ensures multiset(RemoveFirst(s, id)) + multiset{s[IndexOfId(s, id)]} == multiset(s)
  {
    var i := IndexOfId(s, id);
    SpliceMultiset(s, i);
  }

  lemma SpliceMultiset<T>(s: seq<T>, i: int)
    requires 0 <= i < |s|
    ensures multiset(s[..i] + s[i + 1..]) + multiset{s[i]} == multiset(s)
  {
    assert s == s[..i] + [s[i]] + s[i + 1..];
  }

  /** The first-match lookup only looks at ids, so setting a flag does not move it. */
  lemma {:induction false} IndexOfIdOnlySeesIds(s: seq<Survey>, t: seq<Survey>, id: int)
    requires |s| == |t| && forall i :: 0 <= i < |s| ==> s[i].id == t[i].id
    ensures IndexOfId(s, id) == IndexOfId(t, id)
  {
    if s != [] {
      IndexOfIdOnlySeesIds(s[1..], t[1..], id);
    }
  }

  lemma MarkFirstSyncedIdempotent(s: seq<Survey>, id: int)
    ensures MarkFirstSynced(MarkFirstSynced(s, id), id) == MarkFirstSynced(s, id)
  {
    var once := MarkFirstSynced(s, id);
    IndexOfIdOnlySeesIds(s, once, id);
  }

  /** Fallback ids are not unique. While an earlier record with the same id
      is in the list, marking that id never reaches a record saved later with
      it, and one delete removes the earlier record instead: both operations
      act on the first match only. */
  lemma DuplicateFallbackIdShadowed(s: seq<Survey>, input: SurveyInput, now: int, id: int, k: int)
    requires 0 <= k < |s| && s[k].id == Some(id)
    ensures var saved := s + [NewRecord(input, Some(id), now)];
      && MarkFirstSynced(saved, id)[|s|] == saved[|s|]
      && RemoveFirst(saved, id)[|s| - 1] == saved[|s|]
  {
    var saved := s + [NewRecord(input, Some(id), now)];
    assert saved[k].id == Some(id);
    assert IndexOfId(saved, id) <= k;
  }

  /** Every record in the fallback list carries an id drawn from the fallback range. */
  ghost predicate FallbackValid(s: seq<Survey>)
  {
    forall i :: 0 <= i < |s| ==>
      s[i].id.Some? && 0 <= s[i].id.value < FallbackIdBound && 0 <= s[i].synced <= 1
  }

  // ---------------------------------------------------------------------
  // The store
  // ---------------------------------------------------------------------

  class WebDatabase {
    /** The object store, by key. */
    var store: map<int, Survey>
    /** The object store's key generator: the key the next `add` receives. */
    var nextKey: int
    /** The list held in local storage when no database handle is available. */
    var fallback: seq<Survey>

    ghost predicate Valid()
      reads this
    {
      TableValid(store, nextKey) && FallbackValid(fallback)
    }

    constructor ()
      ensures Valid()
      ensures store == map[] && nextKey == 1 && fallback == []
    {
      store := map[];
      nextKey := 1;
      fallback := [];
    }

    /** `getLocalStorageSurveys`: the stored list. */
    method GetLocalStorageSurveys() returns (s: seq<Survey>)
      ensures s == fallback
    {
      s := fallback;
    }

    /** `saveLocalStorageSurveys`: replaces the stored list. */
    method SaveLocalStorageSurveys(s: seq<Survey>)
      modifies this`fallback
      ensures fallback == s
    {
      fallback := s;
    }

    /** `saveSurvey`. With a handle the record is added under a fresh key,
        which is returned; without one it is appended to the fallback list
        under the drawn id `draw`, which need not be unique. */
    method SaveSurvey(input: SurveyInput, connected: bool, now: int, draw: int) returns (id: int)
      requires Valid()
      requires 0 <= draw < FallbackIdBound
      modifies this
      ensures Valid()
      ensures connected ==>
        && id == old(nextKey) && id !in old(store)
        && store == old(store)[id := NewRecord(input, Some(id), now)]
        && nextKey == old(nextKey) + 1 && fallback == old(fallback)
      ensures !connected ==>
        && id == draw
        && fallback == old(fallback) + [NewRecord(input, Some(draw), now)]
        && store == old(store) && nextKey == old(nextKey)
    {
      if !connected {
        id := draw;
        var surveys := GetLocalStorageSurveys();
        surveys := surveys + [NewRecord(input, Some(id), now)];
        SaveLocalStorageSurveys(surveys);
        return;
      }
      id := nextKey;
      store := store[id := NewRecord(input, Some(id), now)];
      nextKey := nextKey + 1;
    }

    /** `getSurveys`. With a handle: every stored record, newest first.
        Without one: the fallback list as stored, unsorted. */
    method GetSurveys(connected: bool) returns (r: seq<Survey>)
      requires Valid()
      ensures connected ==>
        && NewestFirstOrder(r)
        && |r| == |store|
        && (forall x :: x in r <==> x in store.Values)
        && (forall x :: multiset(r)[x] <= 1)
      ensures !connected ==> r == fallback
    {
      if !connected {
        r := GetLocalStorageSurveys();
        return;
      }
      r := NewestFirst(TableRecords(store));
      TableRecordsExact(store, nextKey);
    }

    /** `getUnsyncedSurveys`: exactly the records whose flag is 0. */
    method GetUnsyncedSurveys(connected: bool) returns (r: seq<Survey>)
      requires Valid()
      ensures connected ==> forall x :: x in r <==> x in store.Values && x.synced == 0
      ensures connected ==> forall x :: multiset(r)[x] <= 1
      ensures !connected ==>
        forall x :: multiset(r)[x] == if x.synced == 0 then multiset(fallback)[x] else 0
    {
      if !connected {
        var surveys := GetLocalStorageSurveys();
        r := Unsynced(surveys);
        return;
      }
      r := Unsynced(TableRecords(store));
      TableRecordsExact(store, nextKey);
      forall x ensures x in r <==> x in store.Values && x.synced == 0 {
        assert x in r <==> multiset(r)[x] > 0;
      }
    }

    /** `markSurveyAsSynced`. With a handle a missing id is an error and a
        present one gets `synced = 1`; the fallback marks the first record
        with that id and ignores a missing one. */
    method MarkSurveyAsSynced(id: int, connected: bool) returns (r: Result<(), WebError>)
      requires Valid()
      modifies this
      ensures Valid()
      ensures connected && id !in old(store) ==> r == Failure(NotFound(id))
      ensures connected && id in old(store) ==> r == Success(())
      ensures connected ==> store == MarkedSynced(old(store), id) && fallback == old(fallback)
      ensures !connected ==> r == Success(()) && fallback == MarkFirstSynced(old(fallback), id)
      ensures !connected ==> store == old(store)
      ensures nextKey == old(nextKey)
    {
      if !connected {
        var surveys := GetLocalStorageSurveys();
        var index := IndexOfId(surveys, id);
        if index != -1 {
          surveys := surveys[index := surveys[index].(synced := 1)];
          SaveLocalStorageSurveys(surveys);
        }
        return Success(());
      }
      if id !in store {
        return Failure(NotFound(id));
      }
      var survey := store[id];
      survey := survey.(synced := 1);
      // `put` stores the record under its own key path, `id`
      store := store[survey.id.value := survey];
      r := Success(());
    }

    /** `deleteSurvey`: with a handle the key is removed (a missing key is
        not an error); the fallback splices out the first record with `id`. */
    method DeleteSurvey(id: int, connected: bool)
      requires Valid()
      modifies this
      ensures Valid()
      ensures connected ==> store == old(store) - {id} && fallback == old(fallback)
      ensures !connected ==> fallback == RemoveFirst(old(fallback), id) && store == old(store)
      ensures nextKey == old(nextKey)
    {
      if !connected {
        var surveys := GetLocalStorageSurveys();
        var index := IndexOfId(surveys, id);
        if index != -1 {
          surveys := surveys[..index] + surveys[index + 1..];
          SaveLocalStorageSurveys(surveys);
        }
        return;
      }
      store := store - {id};
    }
  }
}
