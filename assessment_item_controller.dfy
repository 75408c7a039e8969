/** AssessmentItemController: a patient's and the staff's answers to the items
    (question rows) of one assessment round. The queries are functions of the
    tables; the endpoints that assign fields of a found row, or add or remove
    rows, are methods of the controller class. */
module AssessmentItemApi {
  import opened Wrappers
  import opened ActionResults
  import opened Models
  import opened Dtos
  import opened StaffResultDto
  import Seqs
  import Tables
  import Data
  import AssessmentApi

  /** The rows of GET patient/user/{userId}. */
  datatype PatientAssessmentSummary = PatientAssessmentSummary(
    assessmentId: int,
    createdAt: int,
    scaleType: string,
    isComplete: bool)

  /** The rows of GET patient/assessment/{assessmentId}. */
  datatype PatientAnswerRow = PatientAnswerRow(
    itemId: int,
    assessmentId: int,
    questionId: int,
    questionText: string,
    patientAnswer: Option<int>,
    flag: bool,
    skippedByPatient: bool)

  /** QuestionOverviewDto. */
  datatype QuestionOverviewDto = QuestionOverviewDto(
    itemId: int,
    questionId: int,
    questionText: string,
    patientAnswer: Option<int>,
    patientComment: Option<string>,
    order: int,
    total: int)

  /** AssessmentOverviewDto. */
  datatype AssessmentOverviewDto = AssessmentOverviewDto(
    assessmentId: int,
    scaleType: string,
    isComplete: bool,
    createdAt: int,
    questions: seq<QuestionOverviewDto>)

  /** The question shape GET patient/assessment/{assessmentId}/question/{order} returns. */
  datatype QuestionByOrderDto = QuestionByOrderDto(
    itemId: int,
    assessmentId: int,
    questionId: int,
    questionText: string,
    category: string,
    isActive: bool,
    order: int,
    total: int,
    scaleType: Option<string>)

  const MissingQuestionText := "Frågetext saknas"

  /** `ai.Question?.QuestionText ?? fallback`. */
  function QuestionTextOr(questions: seq<Question>, questionId: int, fallback: string): (t: string)
    ensures QuestionOf(questions, questionId).None? ==> t == fallback
    ensures QuestionOf(questions, questionId).Some? ==>
      exists q :: q in questions && q.questionId == questionId && t == q.questionText
  {
    match QuestionOf(questions, questionId)
    case None => fallback
    case Some(q) => q.questionText
  }

  // ---------------------------------------------------------------------
  // Patient queries

  function Summary(a: Assessment): PatientAssessmentSummary {
    PatientAssessmentSummary(a.assessmentId, a.createdAt, a.scaleType, a.isComplete)
  }

  /** GET patient/user/{userId}: the user's assessments, newest first. */
  function GetPatientAssessmentList(assessments: seq<Assessment>, userId: int): (r: seq<PatientAssessmentSummary>)
    ensures |r| == |AssessmentApi.OwnedAssessments(assessments, userId)|
    ensures forall i, j :: 0 <= i < j < |r| ==> r[i].createdAt >= r[j].createdAt
    ensures forall a :: a in assessments && a.userId == userId ==> Summary(a) in r
    ensures forall row :: row in r ==> exists a :: a in assessments && a.userId == userId && row == Summary(a)
  {
    var owned := AssessmentApi.NewestFirst(assessments, userId);
    AssessmentApi.NewestFirstIsOwned(assessments, userId);
    Seqs.Map(owned, Summary)
  }

  function AnswerRowOf(questions: seq<Question>): AssessmentItem -> PatientAnswerRow {
    (it: AssessmentItem) => PatientAnswerRow(it.itemId, it.assessmentId, it.questionId,
                           QuestionTextOr(questions, it.questionId, ""),
                           it.patientAnswer, it.flag, it.skippedByPatient)
  }

  /** GET patient/assessment/{assessmentId}: the patient's answers in question order. */
  function GetPatientAnswers(items: seq<AssessmentItem>, questions: seq<Question>, assessmentId: int): seq<PatientAnswerRow> {
    Seqs.Map(Seqs.SortBy(ItemsOf(items, assessmentId), ItemQuestionId), AnswerRowOf(questions))
  }

  /** The answer list holds one row per item of the assessment, each built from
      one of its items, in non-decreasing question id order. */
  lemma PatientAnswersSpec(items: seq<AssessmentItem>, questions: seq<Question>, assessmentId: int)
    ensures var r := GetPatientAnswers(items, questions, assessmentId);
      && |r| == |ItemsOf(items, assessmentId)|
      && (forall i, j :: 0 <= i < j < |r| ==> r[i].questionId <= r[j].questionId)
      && (forall it :: it in items && it.assessmentId == assessmentId ==> AnswerRowOf(questions)(it) in r)
      && (forall row :: row in r ==>
            exists it :: it in items && it.assessmentId == assessmentId && row == AnswerRowOf(questions)(it))
  {
    var own := ItemsOf(items, assessmentId);
    var sorted := Seqs.SortBy(own, ItemQuestionId);
    Seqs.SortBySorted(own, ItemQuestionId);
    Seqs.SortByMembers(own, ItemQuestionId);
    var r := GetPatientAnswers(items, questions, assessmentId);
    forall i, j | 0 <= i < j < |r| ensures r[i].questionId <= r[j].questionId {
      assert ItemQuestionId(sorted[i]) <= ItemQuestionId(sorted[j]);
    }
  }

  // ---------------------------------------------------------------------
  // Overview

  /** `ai.PatientAnswer is >= 0 and <= 4 ? ai.PatientAnswer : null`. */
  function ShownAnswer(a: Option<int>): (r: Option<int>)
    ensures r.Some? <==> OnScale(a)
    ensures r.Some? ==> r == a
  {
    if a.Some? && 0 <= a.value <= 4 then a else None
  }

  function OverviewRowOf(questions: seq<Question>, total: int): AssessmentItem -> QuestionOverviewDto {
    (it: AssessmentItem) => QuestionOverviewDto(it.itemId, it.questionId,
                              QuestionTextOr(questions, it.questionId, MissingQuestionText),
                              ShownAnswer(it.patientAnswer), it.patientComment, it.order, total)
  }

  /** The items of an assessment in `Order` order. */
  function ItemsByOrder(items: seq<AssessmentItem>, assessmentId: int): seq<AssessmentItem> {
    Seqs.SortBy(ItemsOf(items, assessmentId), ItemOrder)
  }

  /** GET patient/assessment/{assessmentId}/overview. */
  function GetAssessmentOverview(assessments: seq<Assessment>, items: seq<AssessmentItem>, questions: seq<Question>, assessmentId: int): (r: ActionResult<AssessmentOverviewDto>)
    ensures r.Ok? || r.NotFound?
    ensures r.NotFound? <==> !Tables.HasKey(assessments, AssessmentKey, assessmentId)
    ensures r.Ok? ==>
      exists a :: a in assessments && a.assessmentId == assessmentId
        && r.value.assessmentId == assessmentId && r.value.scaleType == a.scaleType
        && r.value.isComplete == a.isComplete && r.value.createdAt == a.createdAt
  {
    match Tables.Find(assessments, AssessmentKey, assessmentId)
    case None => NotFound
    case Some(a) =>
      var sorted := ItemsByOrder(items, assessmentId);
      var total := |sorted|;
      Ok(AssessmentOverviewDto(a.assessmentId, a.scaleType, a.isComplete, a.createdAt,
                               Seqs.Map(sorted, OverviewRowOf(questions, total))))
  }

  /** The overview of an existing assessment lists exactly its items, one row
      each, in non-decreasing `Order`, and every row's `Total` is their number. */
  lemma OverviewSpec(assessments: seq<Assessment>, items: seq<AssessmentItem>, questions: seq<Question>, assessmentId: int)
    requires Tables.HasKey(assessments, AssessmentKey, assessmentId)
    ensures var r := GetAssessmentOverview(assessments, items, questions, assessmentId);
      && r.Ok?
      && r.value.assessmentId == assessmentId
      && var qs := r.value.questions;
      && |qs| == |ItemsOf(items, assessmentId)|
      && (forall i :: 0 <= i < |qs| ==> qs[i].total == |qs|)
      && (forall i, j :: 0 <= i < j < |qs| ==> qs[i].order <= qs[j].order)
      && (forall it :: it in items && it.assessmentId == assessmentId ==> OverviewRowOf(questions, |qs|)(it) in qs)
      && (forall row :: row in qs ==>
            exists it :: it in items && it.assessmentId == assessmentId && row == OverviewRowOf(questions, |qs|)(it))
  {
    var own := ItemsOf(items, assessmentId);
    var sorted := ItemsByOrder(items, assessmentId);
    Seqs.SortBySorted(own, ItemOrder);
    Seqs.SortByMembers(own, ItemOrder);
    var qs := Seqs.Map(sorted, OverviewRowOf(questions, |sorted|));
    forall i, j | 0 <= i < j < |qs| ensures qs[i].order <= qs[j].order {
      assert ItemOrder(sorted[i]) <= ItemOrder(sorted[j]);
    }
  }

  /** No overview row shows an answer off the 0..4 scale; each row shows its
      item's answer exactly when that answer is on the scale. */
  lemma OverviewAnswersOnScale(assessments: seq<Assessment>, items: seq<AssessmentItem>, questions: seq<Question>, assessmentId: int)
    requires Tables.HasKey(assessments, AssessmentKey, assessmentId)
    ensures var qs := GetAssessmentOverview(assessments, items, questions, assessmentId).value.questions;
      && (forall i :: 0 <= i < |qs| ==> qs[i].patientAnswer.None? || 0 <= qs[i].patientAnswer.value <= 4)
      && (forall i :: 0 <= i < |qs| ==>
            (qs[i].patientAnswer.Some? <==> OnScale(ItemsByOrder(items, assessmentId)[i].patientAnswer)))
  {
  }

  /** The -1 that item creation stores for a missing patient answer never
      surfaces in an overview row. */
  lemma CreatedSentinelHidden(id: int, dto: AssessmentItemDto, now: int, questions: seq<Question>, total: int)
    requires dto.patientAnswer.None?
    ensures NewItem(id, dto, now).patientAnswer == Some(-1)
    ensures OverviewRowOf(questions, total)(NewItem(id, dto, now)).patientAnswer.None?
  {
  }

  // ---------------------------------------------------------------------
  // Staff overview

  function StaffRowOf(questions: seq<Question>): AssessmentItem -> StaffResultRowDto {
    (it: AssessmentItem) => StaffResultRowDto(it.itemId, it.order,
                            QuestionTextOr(questions, it.questionId, MissingQuestionText),
                            it.patientAnswer, it.staffAnswer, it.patientComment, it.staffComment,
                            it.flag, it.skippedByPatient)
  }

  /** GET staff/assessment/{assessmentId}/overview. */
  function GetStaffAssessmentOverview(assessments: seq<Assessment>, users: seq<User>, items: seq<AssessmentItem>, questions: seq<Question>, assessmentId: int): (r: ActionResult<StaffResultOverviewDto>)
    ensures r.Ok? || r.NotFound?
    ensures r.NotFound? <==> !Tables.HasKey(assessments, AssessmentKey, assessmentId)
    ensures r.Ok? ==>
      exists a :: a in assessments && a.assessmentId == assessmentId
        && r.value.assessmentId == assessmentId && r.value.userId == a.userId && r.value.createdAt == a.createdAt
        && r.value.username == UsernameOr(users, a.userId, "Okänd") && !r.value.isStaffComplete
  {
    match Tables.Find(assessments, AssessmentKey, assessmentId)
    case None => NotFound
    case Some(a) =>
      Ok(StaffResultOverviewDto(a.assessmentId, a.userId, UsernameOr(users, a.userId, "Okänd"), a.createdAt, false,
                                Seqs.Map(ItemsByOrder(items, assessmentId), StaffRowOf(questions))))
  }

  /** The staff overview lists the assessment's items in `Order` order with both
      raw answers; each row's `Difference` is the corrected difference of its
      item's answers. */
  lemma StaffOverviewSpec(assessments: seq<Assessment>, users: seq<User>, items: seq<AssessmentItem>, questions: seq<Question>, assessmentId: int)
    requires Tables.HasKey(assessments, AssessmentKey, assessmentId)
    ensures var r := GetStaffAssessmentOverview(assessments, users, items, questions, assessmentId);
      && r.Ok?
      && r.value.assessmentId == assessmentId
      && var qs := r.value.questions;
      && |qs| == |ItemsOf(items, assessmentId)|
      && (forall i, j :: 0 <= i < j < |qs| ==> qs[i].order <= qs[j].order)
      && (forall it :: it in items && it.assessmentId == assessmentId ==> StaffRowOf(questions)(it) in qs)
      && (forall row :: row in qs ==>
            exists it :: it in items && it.assessmentId == assessmentId && row == StaffRowOf(questions)(it)
                         && row.Difference() == ScaledDifference(it.patientAnswer, it.staffAnswer))
  {
    var own := ItemsOf(items, assessmentId);
    var sorted := ItemsByOrder(items, assessmentId);
    Seqs.SortBySorted(own, ItemOrder);
    Seqs.SortByMembers(own, ItemOrder);
    var qs := Seqs.Map(sorted, StaffRowOf(questions));
    forall i, j | 0 <= i < j < |qs| ensures qs[i].order <= qs[j].order {
      assert ItemOrder(sorted[i]) <= ItemOrder(sorted[j]);
    }
  }

  /** For an item created without a patient answer, the `Difference` as written
      is one more than the staff answer, where the intended difference of a
      missing answer, which the staff overview row shows, is -1. */
  lemma CreatedSentinelInStaffDifference(id: int, dto: AssessmentItemDto, now: int, questions: seq<Question>)
    requires dto.patientAnswer.None?
    requires dto.staffAnswer.Some? && 0 <= dto.staffAnswer.value <= 4
    ensures AnswerDifference(NewItem(id, dto, now).patientAnswer, NewItem(id, dto, now).staffAnswer) == dto.staffAnswer.value + 1
    ensures StaffRowOf(questions)(NewItem(id, dto, now)).Difference() == -1
  {
    SentinelReadAsAnswer(dto.staffAnswer.value);
  }

  // ---------------------------------------------------------------------
  // Lookup by order

  /** The filter `i => i.AssessmentID == assessmentId && i.Order == order`. */
  function AtOrder(assessmentId: int, order: int): AssessmentItem -> bool {
    (it: AssessmentItem) => it.assessmentId == assessmentId && it.order == order
  }

  /** `assessment?.ScaleType`. */
  function ScaleTypeOf(assessments: seq<Assessment>, assessmentId: int): (s: Option<string>)
    ensures s.None? <==> !Tables.HasKey(assessments, AssessmentKey, assessmentId)
    ensures s.Some? ==> exists a :: a in assessments && a.assessmentId == assessmentId && s.value == a.scaleType
  {
    match Tables.Find(assessments, AssessmentKey, assessmentId)
    case None => None
    case Some(a) => Some(a.scaleType)
  }

  /** GET patient/assessment/{assessmentId}/question/{order}. */
  function GetQuestionByOrder(assessments: seq<Assessment>, items: seq<AssessmentItem>, questions: seq<Question>, assessmentId: int, order: int): (r: ActionResult<QuestionByOrderDto>)
    ensures r.Ok? || r.NotFound?
    ensures (forall it :: it in items ==> !(it.assessmentId == assessmentId && it.order == order)) ==> r.NotFound?
    ensures (forall it :: it in items && it.assessmentId == assessmentId && it.order == order ==>
               QuestionOf(questions, it.questionId).None?) ==> r.NotFound?
    ensures (exists it :: it in items && AtOrder(assessmentId, order)(it)) &&
            (forall it :: it in items && AtOrder(assessmentId, order)(it) ==> QuestionOf(questions, it.questionId).Some?)
            ==> r.Ok?
    ensures r.Ok? ==>
      && r.value.assessmentId == assessmentId && r.value.order == order
      && r.value.total == |ItemsOf(items, assessmentId)|
      && r.value.scaleType == ScaleTypeOf(assessments, assessmentId)
      && (exists it, q :: it in items && q in questions
            && it.assessmentId == assessmentId && it.order == order && it.itemId == r.value.itemId
            && q.questionId == it.questionId && r.value.questionId == q.questionId
            && r.value.questionText == q.questionText && r.value.category == q.category
            && r.value.isActive == q.isActive)
  {
    match Seqs.FirstOrNone(items, AtOrder(assessmentId, order))
    case None => NotFound
    case Some(item) =>
      match QuestionOf(questions, item.questionId)
      case None => NotFound
      case Some(q) =>
        Ok(QuestionByOrderDto(item.itemId, item.assessmentId, q.questionId, q.questionText, q.category,
                              q.isActive, item.order, |ItemsOf(items, assessmentId)|,
                              ScaleTypeOf(assessments, assessmentId)))
  }

  // ---------------------------------------------------------------------
  // Row updates: the fields each endpoint assigns on the found item.

  /** PUT patient/{id}: answer and comment stored, the skip marker cleared. */
  function WithPatientAnswer(it: AssessmentItem, dto: PatientAnswerDto, now: int): (r: AssessmentItem)
    ensures r.patientAnswer == dto.answer && r.patientComment == dto.comment
    ensures !r.skippedByPatient && r.answeredAt == now
    ensures r.itemId == it.itemId && r.assessmentId == it.assessmentId && r.questionId == it.questionId
    ensures r.staffAnswer == it.staffAnswer && r.staffComment == it.staffComment
    ensures r.flag == it.flag && r.order == it.order
  {
    it.(patientAnswer := dto.answer, patientComment := dto.comment, answeredAt := now, skippedByPatient := false)
  }

  /** PUT skip/{itemId}: only the skip marker and the answer time change. */
  function WithSkip(it: AssessmentItem, now: int): (r: AssessmentItem)
    ensures r.skippedByPatient && r.answeredAt == now
    ensures r.itemId == it.itemId && r.assessmentId == it.assessmentId && r.questionId == it.questionId
    ensures r.patientAnswer == it.patientAnswer && r.patientComment == it.patientComment
    ensures r.staffAnswer == it.staffAnswer && r.staffComment == it.staffComment
    ensures r.flag == it.flag && r.order == it.order
  {
    it.(skippedByPatient := true, answeredAt := now)
  }

  /** PUT staff/{id}: staff answer, comment and flag (false when none is given). */
  function WithStaffAnswer(it: AssessmentItem, dto: StaffAnswerDto, now: int): (r: AssessmentItem)
    ensures r.staffAnswer == dto.answer && r.staffComment == dto.comment
    ensures r.flag == (dto.flag.Some? && dto.flag.value) && r.answeredAt == now
    ensures r.itemId == it.itemId && r.assessmentId == it.assessmentId && r.questionId == it.questionId
    ensures r.patientAnswer == it.patientAnswer && r.patientComment == it.patientComment
    ensures r.skippedByPatient == it.skippedByPatient && r.order == it.order
  {
    it.(staffAnswer := dto.answer, staffComment := dto.comment, flag := dto.flag.GetOr(false), answeredAt := now)
  }

  /** POST: the new row; a missing patient answer is stored as -1. */
  function NewItem(id: int, dto: AssessmentItemDto, now: int): (r: AssessmentItem)
    ensures r.itemId == id && r.assessmentId == dto.assessmentId && r.questionId == dto.questionId
    ensures dto.patientAnswer.Some? ==> r.patientAnswer == dto.patientAnswer
    ensures dto.patientAnswer.None? ==> r.patientAnswer == Some(-1)
    ensures r.staffAnswer == dto.staffAnswer && r.flag == dto.flag
    ensures !r.skippedByPatient && r.patientComment.None? && r.staffComment.None?
    ensures r.answeredAt == now && r.order == 0
  {
    AssessmentItem(id, dto.assessmentId, dto.questionId, Some(dto.patientAnswer.GetOr(-1)), None,
                   dto.staffAnswer, None, now, dto.flag, false, 0)
  }

  /** POST assessment/{assessmentId}/complete. */
  function WithComplete(a: Assessment): (r: Assessment)
    ensures r.isComplete
    ensures r.assessmentId == a.assessmentId && r.userId == a.userId
    ensures r.assessmentType == a.assessmentType && r.scaleType == a.scaleType
    ensures r.createdAt == a.createdAt && r.updatedAt == a.updatedAt
  {
    a.(isComplete := true)
  }

  // ---------------------------------------------------------------------
  // The controller

  class AssessmentItemController {
    const context: Data.AppDbContext

    constructor (context: Data.AppDbContext)
      ensures this.context == context
    {
      this.context := context;
    }

    /** PUT patient/{id}. */
    method UpdatePatientAnswer(id: int, dto: PatientAnswerDto, now: int) returns (r: ActionResult<()>)
      requires context.Valid()
      modifies context`assessmentItems
      ensures context.Valid()
      ensures var found := Tables.Find(old(context.assessmentItems), ItemKey, id);
        if found.None? then
          r == NotFound && context.assessmentItems == old(context.assessmentItems)
        else
          r == NoContent &&
          context.assessmentItems == Tables.Replace(old(context.assessmentItems), ItemKey, id, WithPatientAnswer(found.value, dto, now))
    {
      var found := Tables.Find(context.assessmentItems, ItemKey, id);
      if found.None? {
        return NotFound;
      }
      var item := WithPatientAnswer(found.value, dto, now);
      Tables.ReplaceKeepsKeys(context.assessmentItems, ItemKey, id, item, context.nextItemId);
      context.assessmentItems := Tables.Replace(context.assessmentItems, ItemKey, id, item);
      r := NoContent;
    }

    /** PUT skip/{itemId}. */
    method SkipQuestion(itemId: int, now: int) returns (r: ActionResult<()>)
      requires context.Valid()
      modifies context`assessmentItems
      ensures context.Valid()
      ensures var found := Tables.Find(old(context.assessmentItems), ItemKey, itemId);
        if found.None? then
          r == NotFound && context.assessmentItems == old(context.assessmentItems)
        else
          r == NoContent &&
          context.assessmentItems == Tables.Replace(old(context.assessmentItems), ItemKey, itemId, WithSkip(found.value, now))
    {
      var found := Tables.Find(context.assessmentItems, ItemKey, itemId);
      if found.None? {
        return NotFound;
      }
      var item := WithSkip(found.value, now);
      Tables.ReplaceKeepsKeys(context.assessmentItems, ItemKey, itemId, item, context.nextItemId);
      context.assessmentItems := Tables.Replace(context.assessmentItems, ItemKey, itemId, item);
      r := NoContent;
    }

    /** POST assessment/{assessmentId}/complete. */
    method CompleteAssessment(assessmentId: int) returns (r: ActionResult<()>)
      requires context.Valid()
      modifies context`assessments
      ensures context.Valid()
      ensures var found := Tables.Find(old(context.assessments), AssessmentKey, assessmentId);
        if found.None? then
          r == NotFound && context.assessments == old(context.assessments)
        else
          r == NoContent &&
          context.assessments == Tables.Replace(old(context.assessments), AssessmentKey, assessmentId, WithComplete(found.value))
    {
      var found := Tables.Find(context.assessments, AssessmentKey, assessmentId);
      if found.None? {
        return NotFound;
      }
      var a := WithComplete(found.value);
      Tables.ReplaceKeepsKeys(context.assessments, AssessmentKey, assessmentId, a, context.nextAssessmentId);
      context.assessments := Tables.Replace(context.assessments, AssessmentKey, assessmentId, a);
      r := NoContent;
    }

    /** POST: adds one row numbered by the identity counter; the result carries
        the new row's id. */
    method CreateItem(dto: AssessmentItemDto, now: int) returns (r: ActionResult<int>)
      requires context.Valid()
      modifies context`assessmentItems, context`nextItemId
      ensures context.Valid()
      ensures r == Created(old(context.nextItemId))
      ensures context.assessmentItems == old(context.assessmentItems) + [NewItem(old(context.nextItemId), dto, now)]
      ensures context.nextItemId == old(context.nextItemId) + 1
    {
      var id := context.nextItemId;
      var item := NewItem(id, dto, now);
      Tables.AppendKeepsKeys(context.assessmentItems, ItemKey, item, id);
      context.assessmentItems := context.assessmentItems + [item];
      context.nextItemId := id + 1;
      r := Created(id);
    }

    /** PUT staff/{id}. */
    method UpdateStaffAnswer(id: int, dto: StaffAnswerDto, now: int) returns (r: ActionResult<()>)
      requires context.Valid()
      modifies context`assessmentItems
      ensures context.Valid()
      ensures var found := Tables.Find(old(context.assessmentItems), ItemKey, id);
        if found.None? then
          r == NotFound && context.assessmentItems == old(context.assessmentItems)
        else
          r == NoContent &&
          context.assessmentItems == Tables.Replace(old(context.assessmentItems), ItemKey, id, WithStaffAnswer(found.value, dto, now))
    {
      var found := Tables.Find(context.assessmentItems, ItemKey, id);
      if found.None? {
        return NotFound;
      }
      var item := WithStaffAnswer(found.value, dto, now);
      Tables.ReplaceKeepsKeys(context.assessmentItems, ItemKey, id, item, context.nextItemId);
      context.assessmentItems := Tables.Replace(context.assessmentItems, ItemKey, id, item);
      r := NoContent;
    }

    /** DELETE {id}. */
    method DeleteItem(id: int) returns (r: ActionResult<()>)
      requires context.Valid()
      modifies context`assessmentItems
      ensures context.Valid()
      ensures !Tables.HasKey(old(context.assessmentItems), ItemKey, id) ==>
        r == NotFound && context.assessmentItems == old(context.assessmentItems)
      ensures Tables.HasKey(old(context.assessmentItems), ItemKey, id) ==>
        r == NoContent && context.assessmentItems == Tables.Remove(old(context.assessmentItems), ItemKey, id)
    {
      var found := Tables.Find(context.assessmentItems, ItemKey, id);
      if found.None? {
        return NotFound;
      }
      Tables.RemoveKeepsKeys(context.assessmentItems, ItemKey, id, context.nextItemId);
      context.assessmentItems := Tables.Remove(context.assessmentItems, ItemKey, id);
      r := NoContent;
    }
  }
}
