/** The batch upload of unsynced surveys. Each record with an assigned id is
    turned into a transport payload and uploaded on its own; the routine
    reports which ids went through and which did not, and leaves marking
    them synced to its caller. */
module Sync {
  import opened Wrappers
  import opened Records
  import ImagesJson

  datatype Location = Location(latitude: real, longitude: real)

  /** The body of one upload request. */
  datatype Payload = Payload(
    id: int,
    title: string,
    description: string,
    location: Location,
    createdAt: int,
    images: seq<string>)

  datatype SyncResult = SyncResult(successIds: seq<int>, failedIds: seq<int>)

  datatype SyncError = AuthRequired

  /** What became of one record. */
  datatype Outcome = Skipped | Uploaded(id: int) | Rejected(id: int)

  /** `survey.id` is truthy: present and not 0. */
  predicate HasId(s: Survey)
  {
    s.id.Some? && s.id.value != 0
  }

  /** The stored token is truthy: present and not empty. */
  predicate HasToken(token: Option<string>)
  {
    token.Some? && token.value != ""
  }

  /** `survey.images ? JSON.parse(survey.images) : []`, None where the parse throws. */
  function PayloadImages(images: Option<string>): (r: Option<seq<string>>)
    ensures images.None? || images == Some("") ==> r == Some([])
    ensures images.Some? && images.value != "" ==> r == ImagesJson.Decode(images.value)
    ensures images.Some? && !ImagesJson.Printable(images.value) ==> r == None
  {
    if images.None? || images.value == "" then Some([])
    else
      ImagesJson.DecodePrintable(images.value);
      ImagesJson.Decode(images.value)
  }

  /** A list stored by the new-survey screen reaches the server unchanged. */
  lemma PayloadImagesRoundTrip(list: seq<string>)
    ensures PayloadImages(ImagesJson.ImagesField(list)) == Some(list)
  {
    if list != [] {
      ImagesJson.DecodeEncode(list);
    }
  }

  /** The transport form of a record: id, title, description and createdAt
      copied, the coordinates nested under `location`, the images parsed. */
  function ToPayload(s: Survey): (r: Option<Payload>)
    requires s.id.Some?
    ensures r.None? <==> PayloadImages(s.images).None?
    ensures r.Some? ==>
      && r.value.id == s.id.value && r.value.title == s.title
      && r.value.description == s.description && r.value.createdAt == s.createdAt
      && r.value.location == Location(s.latitude, s.longitude)
      && r.value.images == PayloadImages(s.images).value
  {
    match PayloadImages(s.images)
    case None => None
    case Some(images) =>
      Some(Payload(s.id.value, s.title, s.description, Location(s.latitude, s.longitude), s.createdAt, images))
  }

  /** One record's fate: skipped without an id; otherwise uploaded exactly
      when its payload could be built and the server accepted it. */
  function RecordOutcome(s: Survey, token: string, upload: (Payload, string) -> bool): (r: Outcome)
    ensures r == Skipped <==> !HasId(s)
    ensures r.Uploaded? <==> HasId(s) && ToPayload(s).Some? && upload(ToPayload(s).value, token)
    ensures !r.Skipped? ==> r.id == s.id.value
  {
    if !HasId(s) then Skipped
    else
      match ToPayload(s)
      case None => Rejected(s.id.value)
      case Some(p) => if upload(p, token) then Uploaded(s.id.value) else Rejected(s.id.value)
  }

  function Outcomes(surveys: seq<Survey>, token: string, upload: (Payload, string) -> bool): (r: seq<Outcome>)
    ensures |r| == |surveys|
  {
    seq(|surveys|, i requires 0 <= i < |surveys| => RecordOutcome(surveys[i], token, upload))
  }

  /** The ids of the uploaded records, in order. */
  function UploadedIds(os: seq<Outcome>): seq<int>
  {
    if os == [] then []
    else (if os[0].Uploaded? then [os[0].id] else []) + UploadedIds(os[1..])
  }

  /** The ids of the rejected records, in order. */
  function RejectedIds(os: seq<Outcome>): seq<int>
  {
    if os == [] then []
    else (if os[0].Rejected? then [os[0].id] else []) + RejectedIds(os[1..])
  }

  /** The truthy ids of a batch, in order. */
  function AssignedIds(surveys: seq<Survey>): seq<int>
  {
    if surveys == [] then []
    else (if HasId(surveys[0]) then [surveys[0].id.value] else []) + AssignedIds(surveys[1..])
  }

  /** `syncSurveysWithServer`. An empty batch succeeds at once; a batch
      without a token fails as a whole; otherwise every record with an id is
      uploaded on its own and reported in exactly one of the two lists. */
  method SyncSurveysWithServer(surveys: seq<Survey>, token: Option<string>, upload: (Payload, string) -> bool)
    returns (r: Result<SyncResult, SyncError>)
    ensures surveys == [] ==> r == Success(SyncResult([], []))
    ensures surveys != [] && !HasToken(token) ==> r == Failure(AuthRequired)
    ensures surveys != [] && HasToken(token) ==>
      r == Success(SyncResult(
        UploadedIds(Outcomes(surveys, token.value, upload)),
        RejectedIds(Outcomes(surveys, token.value, upload))))
  {
    if |surveys| == 0 {
      return Success(SyncResult([], []));
    }
    if !HasToken(token) {
      return Failure(AuthRequired);
    }
    var bearer := token.value;
    var successIds: seq<int> := [];
    var failedIds: seq<int> := [];
    for i := 0 to |surveys|
      invariant successIds == UploadedIds(Outcomes(surveys[..i], bearer, upload))
      invariant failedIds == RejectedIds(Outcomes(surveys[..i], bearer, upload))
    {
      var survey := surveys[i];
      OutcomesStep(surveys, i, bearer, upload);
      if !HasId(survey) {
        continue;
      }
      var id := survey.id.value;
      var payload := ToPayload(survey);
      if payload.None? {
        // the images could not be parsed
        assert RecordOutcome(survey, bearer, upload) == Rejected(id);
        failedIds := failedIds + [id];
      } else if upload(payload.value, bearer) {
        assert RecordOutcome(survey, bearer, upload) == Uploaded(id);
        successIds := successIds + [id];
      } else {
        assert RecordOutcome(survey, bearer, upload) == Rejected(id);
        failedIds := failedIds + [id];
      }
    }
    assert surveys[..|surveys|] == surveys;
    r := Success(SyncResult(successIds, failedIds));
  }

  // ---------------------------------------------------------------------
  // Properties of the partition
  // ---------------------------------------------------------------------

  /** Outcomes of a concatenated batch are the two batches' lists joined:
      no record's report depends on another record. */
  lemma {:induction false} PartitionIndependent(a: seq<Outcome>, b: seq<Outcome>)
    ensures UploadedIds(a + b) == UploadedIds(a) + UploadedIds(b)
    ensures RejectedIds(a + b) == RejectedIds(a) + RejectedIds(b)
  {
    if a != [] {
      assert (a + b)[0] == a[0];
      assert (a + b)[1..] == a[1..] + b;
      PartitionIndependent(a[1..], b);
    } else {
      assert a + b == b;
    }
  }

  lemma OutcomesSplit(a: seq<Survey>, b: seq<Survey>, token: string, upload: (Payload, string) -> bool)
    ensures Outcomes(a + b, token, upload) == Outcomes(a, token, upload) + Outcomes(b, token, upload)
  {
  }

  lemma OutcomesStep(surveys: seq<Survey>, i: int, token: string, upload: (Payload, string) -> bool)
    requires 0 <= i < |surveys|
    ensures var before := Outcomes(surveys[..i], token, upload);
      var o := RecordOutcome(surveys[i], token, upload);
      && UploadedIds(Outcomes(surveys[..i + 1], token, upload))
           == UploadedIds(before) + (if o.Uploaded? then [o.id] else [])
      && RejectedIds(Outcomes(surveys[..i + 1], token, upload))
           == RejectedIds(before) + (if o.Rejected? then [o.id] else [])
  {
    assert surveys[..i + 1] == surveys[..i] + [surveys[i]];
    OutcomesSplit(surveys[..i], [surveys[i]], token, upload);
    PartitionIndependent(Outcomes(surveys[..i], token, upload), Outcomes([surveys[i]], token, upload));
  }

  /** A record sent on its own is reported exactly as it is inside a batch. */
  lemma RecordIndependent(a: seq<Survey>, s: Survey, b: seq<Survey>, token: string, upload: (Payload, string) -> bool)
    ensures UploadedIds(Outcomes(a + [s] + b, token, upload))
      == UploadedIds(Outcomes(a, token, upload)) + UploadedIds(Outcomes([s], token, upload))
         + UploadedIds(Outcomes(b, token, upload))
    ensures RejectedIds(Outcomes(a + [s] + b, token, upload))
      == RejectedIds(Outcomes(a, token, upload)) + RejectedIds(Outcomes([s], token, upload))
         + RejectedIds(Outcomes(b, token, upload))
  {
    OutcomesSplit(a + [s], b, token, upload);
    OutcomesSplit(a, [s], token, upload);
    var oa, os, ob := Outcomes(a, token, upload), Outcomes([s], token, upload), Outcomes(b, token, upload);
    PartitionIndependent(oa + os, ob);
    PartitionIndependent(oa, os);
  }

  /** The ids of the records that were not skipped, in order. */
  function AttemptedIds(os: seq<Outcome>): seq<int>
  {
    if os == [] then []
    else (if os[0].Skipped? then [] else [os[0].id]) + AttemptedIds(os[1..])
  }

  lemma {:induction false} SplitAttempted(os: seq<Outcome>)
    ensures multiset(UploadedIds(os)) + multiset(RejectedIds(os)) == multiset(AttemptedIds(os))
  {
    if os != [] {
      SplitAttempted(os[1..]);
    }
  }

  lemma {:induction false} AttemptedAreAssigned(surveys: seq<Survey>, token: string, upload: (Payload, string) -> bool)
    ensures AttemptedIds(Outcomes(surveys, token, upload)) == AssignedIds(surveys)
  {
    if surveys != [] {
      var os := Outcomes(surveys, token, upload);
      assert os[1..] == Outcomes(surveys[1..], token, upload);
      AttemptedAreAssigned(surveys[1..], token, upload);
    }
  }

  /** Together the two lists hold each truthy id of the batch once per record
      that carries it, and nothing else: every record with an id lands in
      exactly one list, and records without one land in neither. */
  lemma PartitionCoversAssigned(surveys: seq<Survey>, token: string, upload: (Payload, string) -> bool)
    ensures var os := Outcomes(surveys, token, upload);
      multiset(UploadedIds(os)) + multiset(RejectedIds(os)) == multiset(AssignedIds(surveys))
  {
    SplitAttempted(Outcomes(surveys, token, upload));
    AttemptedAreAssigned(surveys, token, upload);
  }

  /** In numbers: the two lists together are as long as the batch has records with an id. */
  lemma PartitionCount(surveys: seq<Survey>, token: string, upload: (Payload, string) -> bool)
    ensures var os := Outcomes(surveys, token, upload);
      |UploadedIds(os)| + |RejectedIds(os)| == |AssignedIds(surveys)|
  {
    var os := Outcomes(surveys, token, upload);
    PartitionCoversAssigned(surveys, token, upload);
    assert |multiset(UploadedIds(os)) + multiset(RejectedIds(os))| == |multiset(AssignedIds(surveys))|;
  }

  lemma {:induction false} ListedOutcomes(os: seq<Outcome>, x: int)
    ensures x in UploadedIds(os) <==> Uploaded(x) in os
    ensures x in RejectedIds(os) <==> Rejected(x) in os
  {
    if os != [] {
      ListedOutcomes(os[1..], x);
      assert os == [os[0]] + os[1..];
    }
  }

  /** An id is reported as a success exactly when some record carrying it
      was uploaded, and as a failure exactly when some record carrying it
      was not; 0 is never reported. */
  lemma ReportedIdsMeaning(surveys: seq<Survey>, token: string, upload: (Payload, string) -> bool, x: int)
    ensures x in UploadedIds(Outcomes(surveys, token, upload)) <==>
      exists i :: 0 <= i < |surveys| && RecordOutcome(surveys[i], token, upload) == Uploaded(x)
    ensures x in RejectedIds(Outcomes(surveys, token, upload)) <==>
      exists i :: 0 <= i < |surveys| && RecordOutcome(surveys[i], token, upload) == Rejected(x)
    ensures x == 0 ==>
      x !in UploadedIds(Outcomes(surveys, token, upload)) && x !in RejectedIds(Outcomes(surveys, token, upload))
  {
    var os := Outcomes(surveys, token, upload);
    ListedOutcomes(os, x);
    assert forall i :: 0 <= i < |os| ==> os[i] == RecordOutcome(surveys[i], token, upload);
    assert Uploaded(x) in os <==> exists i :: 0 <= i < |os| && os[i] == Uploaded(x);
    assert Rejected(x) in os <==> exists i :: 0 <= i < |os| && os[i] == Rejected(x);
  }

  /** With distinct truthy ids in the batch, no id is both a success and a failure. */
  lemma SuccessAndFailureDisjoint(surveys: seq<Survey>, token: string, upload: (Payload, string) -> bool)
    requires forall i, j :: 0 <= i < j < |surveys| && HasId(surveys[i]) && HasId(surveys[j]) ==>
      surveys[i].id != surveys[j].id
    ensures forall x :: !(x in UploadedIds(Outcomes(surveys, token, upload)) &&
                          x in RejectedIds(Outcomes(surveys, token, upload)))
  {
    forall x ensures !(x in UploadedIds(Outcomes(surveys, token, upload)) &&
                       x in RejectedIds(Outcomes(surveys, token, upload))) {
      ReportedIdsMeaning(surveys, token, upload, x);
    }
  }

  /** A record whose images cannot be parsed is reported as failed. */
  lemma UnparseableImagesFail(s: Survey, token: string, upload: (Payload, string) -> bool)
    requires HasId(s) && s.images.Some? && s.images.value != ""
    requires ImagesJson.Decode(s.images.value).None?
    ensures RejectedIds(Outcomes([s], token, upload)) == [s.id.value]
    ensures UploadedIds(Outcomes([s], token, upload)) == []
  {
    var os := Outcomes([s], token, upload);
    assert os == [Rejected(s.id.value)];
    assert os[1..] == [];
  }

  /** A raw control character inside a string literal of the stored images
      makes `JSON.parse` throw, so the record is reported as failed whatever
      the server would have said. A tab, line feed or carriage return between
      tokens, which `JSON.parse` skips, is refused by the model as well. */
  lemma ControlCharacterImagesFail(s: Survey, token: string, upload: (Payload, string) -> bool)
    requires HasId(s) && s.images.Some? && !ImagesJson.Printable(s.images.value)
    ensures RejectedIds(Outcomes([s], token, upload)) == [s.id.value]
    ensures UploadedIds(Outcomes([s], token, upload)) == []
  {
    ImagesJson.DecodePrintable(s.images.value);
    UnparseableImagesFail(s, token, upload);
  }

  /** A fallback record whose drawn id is 0 is never reported, so the sync
      screen never marks it synced. */
  lemma ZeroIdNeverReported(input: SurveyInput, now: int, token: string, upload: (Payload, string) -> bool)
    ensures var os := Outcomes([NewRecord(input, Some(0), now)], token, upload);
      UploadedIds(os) == [] && RejectedIds(os) == []
  {
    var os := Outcomes([NewRecord(input, Some(0), now)], token, upload);
    assert os == [Skipped];
    assert os[1..] == [];
  }

  // ---------------------------------------------------------------------
  // The caller's confirmation step
  // ---------------------------------------------------------------------

  /** The sync screen marks every reported success synced, one id at a time. */
  function ConfirmAll(table: map<int, Survey>, ids: seq<int>): (r: map<int, Survey>)
    ensures r.Keys == table.Keys
  {
    if ids == [] then table else ConfirmAll(MarkedSynced(table, ids[0]), ids[1..])
  }

  /** After confirmation every reported record is synced and every other
      record is as it was. */
  lemma {:induction false} ConfirmAllMarks(table: map<int, Survey>, ids: seq<int>)
    ensures forall k :: k in table ==>
      ConfirmAll(table, ids)[k] == if k in ids then table[k].(synced := 1) else table[k]
  {
    if ids != [] {
      var t := MarkedSynced(table, ids[0]);
      ConfirmAllMarks(t, ids[1..]);
      forall k | k in table
        ensures ConfirmAll(table, ids)[k] == if k in ids then table[k].(synced := 1) else table[k]
      {
        assert k in ids <==> k == ids[0] || k in ids[1..];
      }
    }
  }

  lemma ConfirmAllKeepsValid(table: map<int, Survey>, next: int, ids: seq<int>)
    requires TableValid(table, next)
    ensures TableValid(ConfirmAll(table, ids), next)
  {
    ConfirmAllMarks(table, ids);
  }

  /** After confirmation no listed unsynced record carries a reported id. */
  lemma ConfirmedLeaveUnsynced(table: map<int, Survey>, next: int, ids: seq<int>)
    requires TableValid(table, next)
    ensures forall x :: x in Unsynced(TableRecords(ConfirmAll(table, ids))) ==>
      x.id.Some? && x.id.value !in ids
  {
    var t := ConfirmAll(table, ids);
    ConfirmAllKeepsValid(table, next, ids);
    ConfirmAllMarks(table, ids);
    TableRecordsExact(t, next);
    var listed := Unsynced(TableRecords(t));
    forall x | x in listed ensures x.id.Some? && x.id.value !in ids {
      assert multiset(listed)[x] > 0;
      assert x.synced == 0 && x in t.Values;
      var k :| k in t && t[k] == x;
      assert x.id == Some(k);
    }
  }
}
