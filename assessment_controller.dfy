/** AssessmentController: assessment rounds, listed newest first, searched by
    the patient's name, created, updated field by field and deleted. */
module AssessmentApi {
  import opened Wrappers
  import opened ActionResults
  import opened Models
  import opened Dtos
  import Seqs
  import Tables
  import Text
  import Data

  /** The filter `a => a.UserId == userId`. */
  function OwnedBy(userId: int): Assessment -> bool {
    (a: Assessment) => a.userId == userId
  }

  /** A newest-first arrangement of exactly the elements of `s`. */
  predicate NewestFirstOf(r: seq<Assessment>, s: seq<Assessment>) {
    && multiset(r) == multiset(s)
    && forall i, j :: 0 <= i < j < |r| ==> r[i].createdAt >= r[j].createdAt
  }

  function OwnedAssessments(assessments: seq<Assessment>, userId: int): seq<Assessment> {
    Seqs.Filter(assessments, OwnedBy(userId))
  }

  /** `Where(a => a.UserId == userId).OrderByDescending(a => a.CreatedAt)`. */
  function NewestFirst(assessments: seq<Assessment>, userId: int): seq<Assessment> {
    Seqs.SortByDescending(OwnedAssessments(assessments, userId), CreatedAt)
  }

  /** The user's assessments newest first: a permutation of the assessments
      whose `UserId` matches, and only those. */
  lemma NewestFirstIsOwned(assessments: seq<Assessment>, userId: int)
    ensures var r := NewestFirst(assessments, userId);
      && |r| == |OwnedAssessments(assessments, userId)|
      && NewestFirstOf(r, OwnedAssessments(assessments, userId))
      && (forall a :: a in r <==> a in assessments && a.userId == userId)
  {
    var own := OwnedAssessments(assessments, userId);
    var r := NewestFirst(assessments, userId);
    forall a ensures a in r <==> a in own {
      calc {
        a in r;
        a in multiset(r);
        a in multiset(own);
        a in own;
      }
    }
  }

  function ToAssessmentDto(a: Assessment): AssessmentDto {
    AssessmentDto(a.assessmentId, a.assessmentType, a.scaleType, a.isComplete, a.userId)
  }

  /** GET user/{userId}. */
  function GetAssessmentsForUser(assessments: seq<Assessment>, userId: int): (r: seq<AssessmentDto>)
    ensures |r| == |OwnedAssessments(assessments, userId)|
    ensures forall i :: 0 <= i < |r| ==> r[i] == ToAssessmentDto(NewestFirst(assessments, userId)[i])
    ensures forall d :: d in r ==> d.userId == userId
    ensures forall a :: a in assessments && a.userId == userId ==> ToAssessmentDto(a) in r
  {
    NewestFirstIsOwned(assessments, userId);
    Seqs.Map(NewestFirst(assessments, userId), ToAssessmentDto)
  }

  /** `OrderByDescending(a => a.CreatedAt)` over the whole table. */
  function AllNewestFirst(assessments: seq<Assessment>): (r: seq<Assessment>)
    ensures NewestFirstOf(r, assessments)
  {
    Seqs.SortByDescending(assessments, CreatedAt)
  }

  /** GET: every assessment, newest first. */
  function GetAssessments(assessments: seq<Assessment>): (r: seq<AssessmentDto>)
    ensures |r| == |assessments|
    ensures forall i :: 0 <= i < |r| ==> r[i] == ToAssessmentDto(AllNewestFirst(assessments)[i])
    ensures forall a :: a in assessments ==> ToAssessmentDto(a) in r
  {
    var sorted := AllNewestFirst(assessments);
    forall a | a in assessments ensures a in sorted {
      assert a in multiset(assessments);
    }
    Seqs.Map(sorted, ToAssessmentDto)
  }

  // ---------------------------------------------------------------------
  // Search by patient name

  /** The anonymous row of GET search. */
  datatype SearchRow = SearchRow(
    assessmentId: int,
    createdAt: int,
    assessmentType: string,
    scaleType: string,
    isComplete: bool,
    patientName: string,
    userId: int)

  /** `a => a.User.Username.ToLower().Contains(name.ToLower())`; an assessment
      whose user row is missing drops out of the join. */
  function NameMatches(users: seq<User>, name: string): Assessment -> bool {
    (a: Assessment) => PatientNameContains(users, name, a)
  }

  predicate PatientNameContains(users: seq<User>, name: string, a: Assessment) {
    UserOf(users, a.userId).Some? && Text.ContainsIgnoreCase(UserOf(users, a.userId).value.username, name)
  }

  function SearchRowOf(users: seq<User>): Assessment -> SearchRow {
    (a: Assessment) =>
      SearchRow(a.assessmentId, a.createdAt, a.assessmentType, a.scaleType, a.isComplete,
                UsernameOr(users, a.userId, ""), a.userId)
  }

  /** The matching assessments, newest first, as rows. */
  function SearchResults(assessments: seq<Assessment>, users: seq<User>, name: string): seq<SearchRow> {
    Seqs.Map(Seqs.SortByDescending(Seqs.Filter(assessments, NameMatches(users, name)), CreatedAt), SearchRowOf(users))
  }

  /** GET search?name=... */
  function SearchAssessmentsByPatientName(assessments: seq<Assessment>, users: seq<User>, name: string): (r: ActionResult<seq<SearchRow>>)
    ensures r.Ok? || r.NotFound?
    ensures r.NotFound? <==> forall a :: a in assessments ==> !PatientNameContains(users, name, a)
    ensures r.Ok? ==> r.value == SearchResults(assessments, users, name) && r.value != []
  {
    var rows := SearchResults(assessments, users, name);
    var matching := Seqs.Filter(assessments, NameMatches(users, name));
    assert |rows| == |matching|;
    assert matching == [] <==> forall a :: a in assessments ==> !PatientNameContains(users, name, a) by {
      if matching != [] {
        assert matching[0] in matching;
      } else {
        forall a | a in assessments ensures !PatientNameContains(users, name, a) {
          assert NameMatches(users, name)(a) == PatientNameContains(users, name, a);
        }
      }
    }
    if rows == [] then NotFound else Ok(rows)
  }

  /** Search results are ordered newest first. */
  lemma SearchNewestFirst(assessments: seq<Assessment>, users: seq<User>, name: string)
    ensures var rows := SearchResults(assessments, users, name);
      forall i, j :: 0 <= i < j < |rows| ==> rows[i].createdAt >= rows[j].createdAt
  {
    var sorted := Seqs.SortByDescending(Seqs.Filter(assessments, NameMatches(users, name)), CreatedAt);
    var rows := SearchResults(assessments, users, name);
    forall i, j | 0 <= i < j < |rows| ensures rows[i].createdAt >= rows[j].createdAt {
      assert CreatedAt(sorted[i]) >= CreatedAt(sorted[j]);
    }
  }

  /** The row of a matching assessment names a patient whose username contains
      the query, ignoring case. */
  lemma MatchingRowNamesPatient(users: seq<User>, name: string, a: Assessment)
    requires PatientNameContains(users, name, a)
    ensures var row := SearchRowOf(users)(a);
      exists u :: u in users && u.userId == row.userId && row.patientName == u.username
                  && Text.ContainsIgnoreCase(u.username, name)
  {
    var u := UserOf(users, a.userId).value;
    assert u in users && u.userId == a.userId && SearchRowOf(users)(a).patientName == u.username;
  }

  /** Every search result names a patient whose username contains the query,
      ignoring case. */
  lemma SearchRowsMatch(assessments: seq<Assessment>, users: seq<User>, name: string)
    ensures var rows := SearchResults(assessments, users, name);
      forall i :: 0 <= i < |rows| ==>
        exists u :: u in users && u.userId == rows[i].userId && rows[i].patientName == u.username
                    && Text.ContainsIgnoreCase(u.username, name)
  {
    var rows := SearchResults(assessments, users, name);
    forall i | 0 <= i < |rows|
      ensures exists u :: u in users && u.userId == rows[i].userId && rows[i].patientName == u.username
                          && Text.ContainsIgnoreCase(u.username, name)
    {
      SearchRowMatches(assessments, users, name, i);
      MatchingRowNamesPatient(users, name, Seqs.SortByDescending(Seqs.Filter(assessments, NameMatches(users, name)), CreatedAt)[i]);
    }
  }

  lemma SearchRowMatches(assessments: seq<Assessment>, users: seq<User>, name: string, i: int)
    requires 0 <= i < |SearchResults(assessments, users, name)|
    ensures PatientNameContains(users, name, Seqs.SortByDescending(Seqs.Filter(assessments, NameMatches(users, name)), CreatedAt)[i])
    ensures SearchResults(assessments, users, name)[i]
         == SearchRowOf(users)(Seqs.SortByDescending(Seqs.Filter(assessments, NameMatches(users, name)), CreatedAt)[i])
  {
    var matching := Seqs.Filter(assessments, NameMatches(users, name));
    var sorted := Seqs.SortByDescending(matching, CreatedAt);
    var a := sorted[i];
    assert a in multiset(matching);
    assert NameMatches(users, name)(a);
  }

  /** Every assessment whose patient's username contains the query is found. */
  lemma SearchComplete(assessments: seq<Assessment>, users: seq<User>, name: string)
    ensures forall a :: a in assessments && PatientNameContains(users, name, a) ==>
      SearchRowOf(users)(a) in SearchResults(assessments, users, name)
  {
    var matching := Seqs.Filter(assessments, NameMatches(users, name));
    var sorted := Seqs.SortByDescending(matching, CreatedAt);
    forall a | a in assessments && PatientNameContains(users, name, a)
      ensures SearchRowOf(users)(a) in SearchResults(assessments, users, name)
    {
      assert NameMatches(users, name)(a);
      assert a in multiset(matching);
      assert a in sorted;
    }
  }

  // ---------------------------------------------------------------------
  // Row updates

  /** POST: the new row; the two timestamps are separate readings of the clock. */
  function NewAssessment(id: int, dto: AssessmentDto, createdAt: int, updatedAt: int): (r: Assessment)
    ensures r.assessmentId == id
    ensures r.assessmentType == dto.assessmentType && r.scaleType == dto.scaleType
    ensures r.isComplete == dto.isComplete && r.userId == dto.userId
    ensures r.createdAt == createdAt && r.updatedAt == updatedAt
  {
    Assessment(id, dto.assessmentType, dto.scaleType, createdAt, updatedAt, dto.isComplete, dto.userId)
  }

  /** PUT {id}: type, scale, completion and update time change; owner and
      creation time do not. */
  function WithAssessmentUpdate(a: Assessment, dto: AssessmentDto, now: int): (r: Assessment)
    ensures r.assessmentType == dto.assessmentType && r.scaleType == dto.scaleType
    ensures r.isComplete == dto.isComplete && r.updatedAt == now
    ensures r.assessmentId == a.assessmentId && r.userId == a.userId && r.createdAt == a.createdAt
  {
    a.(assessmentType := dto.assessmentType, scaleType := dto.scaleType, isComplete := dto.isComplete, updatedAt := now)
  }

  class AssessmentController {
    const context: Data.AppDbContext

    constructor (context: Data.AppDbContext)
      ensures this.context == context
    {
      this.context := context;
    }

    /** POST: adds one assessment numbered by the identity counter. */
    method CreateAssessment(dto: AssessmentDto, createdAt: int, updatedAt: int) returns (r: ActionResult<int>)
      requires context.Valid()
      modifies context`assessments, context`nextAssessmentId
      ensures context.Valid()
      ensures r == Created(old(context.nextAssessmentId))
      ensures context.assessments == old(context.assessments) + [NewAssessment(old(context.nextAssessmentId), dto, createdAt, updatedAt)]
      ensures context.nextAssessmentId == old(context.nextAssessmentId) + 1
    {
      var id := context.nextAssessmentId;
      var a := NewAssessment(id, dto, createdAt, updatedAt);
      Tables.AppendKeepsKeys(context.assessments, AssessmentKey, a, id);
      context.assessments := context.assessments + [a];
      context.nextAssessmentId := id + 1;
      r := Created(id);
    }

    /** PUT {id}: the id in the path must equal the id in the body. */
    method UpdateAssessment(id: int, dto: AssessmentDto, now: int) returns (r: ActionResult<()>)
      requires context.Valid()
      modifies context`assessments
      ensures context.Valid()
      ensures id != dto.assessmentId ==> r == BadRequest && context.assessments == old(context.assessments)
      ensures id == dto.assessmentId ==>
        var found := Tables.Find(old(context.assessments), AssessmentKey, id);
        if found.None? then
          r == NotFound && context.assessments == old(context.assessments)
        else
          r == NoContent &&
          context.assessments == Tables.Replace(old(context.assessments), AssessmentKey, id, WithAssessmentUpdate(found.value, dto, now))
    {
      if id != dto.assessmentId {
        return BadRequest;
      }
      var found := Tables.Find(context.assessments, AssessmentKey, id);
      if found.None? {
        return NotFound;
      }
      var a := WithAssessmentUpdate(found.value, dto, now);
      Tables.ReplaceKeepsKeys(context.assessments, AssessmentKey, id, a, context.nextAssessmentId);
      context.assessments := Tables.Replace(context.assessments, AssessmentKey, id, a);
      r := NoContent;
    }

    /** DELETE {id}. */
    method DeleteAssessment(id: int) returns (r: ActionResult<()>)
      requires context.Valid()
      modifies context`assessments
      ensures context.Valid()
      ensures !Tables.HasKey(old(context.assessments), AssessmentKey, id) ==>
        r == NotFound && context.assessments == old(context.assessments)
      ensures Tables.HasKey(old(context.assessments), AssessmentKey, id) ==>
        r == NoContent && context.assessments == Tables.Remove(old(context.assessments), AssessmentKey, id)
    {
      var found := Tables.Find(context.assessments, AssessmentKey, id);
      if found.None? {
        return NotFound;
      }
      Tables.RemoveKeepsKeys(context.assessments, AssessmentKey, id, context.nextAssessmentId);
      context.assessments := Tables.Remove(context.assessments, AssessmentKey, id);
      r := NoContent;
    }
  }

  /** A new assessment is found under its id afterwards and copies the request's
      fields. */
  lemma CreatedAssessmentFound(assessments: seq<Assessment>, next: int, dto: AssessmentDto, createdAt: int, updatedAt: int)
    requires Seqs.UniqueBy(assessments, AssessmentKey) && Tables.KeysBelow(assessments, AssessmentKey, next)
    ensures var after := assessments + [NewAssessment(next, dto, createdAt, updatedAt)];
      && |after| == |assessments| + 1
      && Tables.Find(after, AssessmentKey, next) == Some(NewAssessment(next, dto, createdAt, updatedAt))
      && (forall other :: other != next ==> Tables.Find(after, AssessmentKey, other) == Tables.Find(assessments, AssessmentKey, other))
  {
    var x := NewAssessment(next, dto, createdAt, updatedAt);
    Tables.AppendFound(assessments, AssessmentKey, x, next);
  }
}
