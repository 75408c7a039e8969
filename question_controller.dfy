/** QuestionController: the question catalogue (list by category, create,
    update, delete) and the quiz flow, in which the patient and the staff step
    through the items of an assessment in question id order. */
module QuestionApi {
  import opened Wrappers
  import opened ActionResults
  import opened Models
  import opened Dtos
  import Seqs
  import Tables
  import Text
  import Data
  import AssessmentItemApi

  // ---------------------------------------------------------------------
  // The catalogue

  function ToQuestionDto(q: Question): QuestionDto {
    QuestionDto(q.questionId, q.questionText, q.category, q.isActive)
  }

  /** The filter `q => (q.Category ?? "").ToLower() == category.ToLower()`. */
  function CategoryIs(category: string): Question -> bool {
    (q: Question) => Text.EqualsIgnoreCase(q.category, category)
  }

  /** GET category/{category}. */
  function GetQuestionsByCategory(questions: seq<Question>, category: string): (r: ActionResult<seq<QuestionDto>>)
    ensures r.Ok? || r.NotFound? || r.BadRequest?
    ensures r.BadRequest? <==> Text.IsNullOrWhiteSpace(category)
    ensures r.NotFound? <==>
      !Text.IsNullOrWhiteSpace(category) && forall q :: q in questions ==> !Text.EqualsIgnoreCase(q.category, category)
    ensures r.Ok? ==>
      && r.value != []
      && (forall d :: d in r.value ==> Text.EqualsIgnoreCase(d.category, category))
      && (forall q :: q in questions && Text.EqualsIgnoreCase(q.category, category) ==> ToQuestionDto(q) in r.value)
      && (forall d :: d in r.value ==> exists q :: q in questions && CategoryIs(category)(q) && d == ToQuestionDto(q))
  {
    if Text.IsNullOrWhiteSpace(category) then BadRequest
    else
      var matching := Seqs.Filter(questions, CategoryIs(category));
      var dtos := Seqs.Map(matching, ToQuestionDto);
      assert matching == [] <==> forall q :: q in questions ==> !Text.EqualsIgnoreCase(q.category, category) by {
        if matching != [] {
          assert matching[0] in matching;
        } else {
          forall q | q in questions ensures !Text.EqualsIgnoreCase(q.category, category) {
            assert CategoryIs(category)(q) == Text.EqualsIgnoreCase(q.category, category);
          }
        }
      }
      if dtos == [] then NotFound else Ok(dtos)
  }

  /** POST: the new question. */
  function NewQuestion(id: int, dto: QuestionDto, now: int): (r: Question)
    ensures r.questionId == id && r.createdAt == now
    ensures r.questionText == dto.questionText && r.category == dto.category && r.isActive == dto.isActive
  {
    Question(id, dto.questionText, dto.category, dto.isActive, now)
  }

  /** PUT {id}: text, category and activity change; id and creation time do not. */
  function WithQuestionUpdate(q: Question, dto: QuestionDto): (r: Question)
    ensures r.questionText == dto.questionText && r.category == dto.category && r.isActive == dto.isActive
    ensures r.questionId == q.questionId && r.createdAt == q.createdAt
  {
    q.(questionText := dto.questionText, category := dto.category, isActive := dto.isActive)
  }

  // ---------------------------------------------------------------------
  // The next unanswered item

  /** The filter `i => i.AssessmentID == assessmentId && !i.PatientAnswer.HasValue`. */
  function NeedsPatientAnswer(assessmentId: int): AssessmentItem -> bool {
    (it: AssessmentItem) => it.assessmentId == assessmentId && it.patientAnswer.None?
  }

  /** The filter `i => i.AssessmentID == assessmentId && !i.StaffAnswer.HasValue`. */
  function NeedsStaffAnswer(assessmentId: int): AssessmentItem -> bool {
    (it: AssessmentItem) => it.assessmentId == assessmentId && it.staffAnswer.None?
  }

  /** `Where(needs).OrderBy(i => i.QuestionID).FirstOrDefault()`. */
  function NextItem(items: seq<AssessmentItem>, needs: AssessmentItem -> bool): Option<AssessmentItem> {
    var candidates := Seqs.SortBy(Seqs.Filter(items, needs), ItemQuestionId);
    if candidates == [] then None else Some(candidates[0])
  }

  /** The next item is absent exactly when no item needs an answer; otherwise it
      is an item that needs one, with the smallest question id among them, and
      the first such item in table order. */
  lemma NextItemSpec(items: seq<AssessmentItem>, needs: AssessmentItem -> bool)
    ensures NextItem(items, needs).None? <==> forall it :: it in items ==> !needs(it)
    ensures NextItem(items, needs).Some? ==>
      var n := NextItem(items, needs).value;
      && n in items && needs(n)
      && (forall it :: it in items && needs(it) ==> n.questionId <= it.questionId)
      && exists k :: Seqs.FirstMinimal(Seqs.Filter(items, needs), ItemQuestionId, k) && n == Seqs.Filter(items, needs)[k]
  {
    var c := Seqs.Filter(items, needs);
    if c != [] {
      assert c[0] in c;
      Seqs.SortByHead(c, ItemQuestionId);
      var k :| Seqs.FirstMinimal(c, ItemQuestionId, k) && Seqs.SortBy(c, ItemQuestionId)[0] == c[k];
      forall it | it in items && needs(it) ensures c[k].questionId <= it.questionId {
        var j :| 0 <= j < |c| && c[j] == it;
        if j < k { assert ItemQuestionId(c[k]) < ItemQuestionId(c[j]); }
        else if j > k { assert ItemQuestionId(c[k]) <= ItemQuestionId(c[j]); }
      }
    }
  }

  /** `item.Question?.QuestionText`. */
  function QuestionTextOf(questions: seq<Question>, questionId: int): Option<string> {
    match QuestionOf(questions, questionId)
    case None => None
    case Some(q) => Some(q.questionText)
  }

  /** `item.Question?.Category`. */
  function CategoryOf(questions: seq<Question>, questionId: int): Option<string> {
    match QuestionOf(questions, questionId)
    case None => None
    case Some(q) => Some(q.category)
  }

  /** The result of quiz/patient/next: `{ Done = true }` or the next question. */
  datatype PatientNext =
    | PatientDone
    | PatientQuestion(questionId: int, questionText: Option<string>, category: Option<string>, itemId: int)

  /** The result of quiz/staff/next, which also shows the patient's answer and the flag. */
  datatype StaffNext =
    | StaffDone
    | StaffQuestion(questionId: int, questionText: Option<string>, category: Option<string>, itemId: int,
                    patientAnswer: Option<int>, flag: bool)

  /** GET quiz/patient/next/{assessmentId}. */
  function GetNextUnansweredPatientQuestion(items: seq<AssessmentItem>, questions: seq<Question>, assessmentId: int): PatientNext {
    match NextItem(items, NeedsPatientAnswer(assessmentId))
    case None => PatientDone
    case Some(n) => PatientQuestion(n.questionId, QuestionTextOf(questions, n.questionId), CategoryOf(questions, n.questionId), n.itemId)
  }

  /** GET quiz/staff/next/{assessmentId}. */
  function GetNextUnansweredStaffQuestion(items: seq<AssessmentItem>, questions: seq<Question>, assessmentId: int): StaffNext {
    match NextItem(items, NeedsStaffAnswer(assessmentId))
    case None => StaffDone
    case Some(n) =>
      StaffQuestion(n.questionId, QuestionTextOf(questions, n.questionId), CategoryOf(questions, n.questionId), n.itemId,
                    n.patientAnswer, n.flag)
  }

  /** The patient is done exactly when every item of the assessment has a patient
      answer; otherwise the next question is an unanswered item of the assessment
      with the smallest question id among the unanswered ones. */
  lemma PatientNextSpec(items: seq<AssessmentItem>, questions: seq<Question>, assessmentId: int)
    ensures var r := GetNextUnansweredPatientQuestion(items, questions, assessmentId);
      && (r.PatientDone? <==> forall it :: it in items && it.assessmentId == assessmentId ==> it.patientAnswer.Some?)
      && (r.PatientQuestion? ==>
            exists n :: n in items && n.itemId == r.itemId && n.questionId == r.questionId
                        && n.assessmentId == assessmentId && n.patientAnswer.None?
                        && forall it :: it in items && it.assessmentId == assessmentId && it.patientAnswer.None? ==>
                                          r.questionId <= it.questionId)
  {
    var needs := NeedsPatientAnswer(assessmentId);
    NextItemSpec(items, needs);
    assert forall it :: needs(it) <==> it.assessmentId == assessmentId && it.patientAnswer.None?;
  }

  /** The same two rules for the staff, on the staff answer. */
  lemma StaffNextSpec(items: seq<AssessmentItem>, questions: seq<Question>, assessmentId: int)
    ensures var r := GetNextUnansweredStaffQuestion(items, questions, assessmentId);
      && (r.StaffDone? <==> forall it :: it in items && it.assessmentId == assessmentId ==> it.staffAnswer.Some?)
      && (r.StaffQuestion? ==>
            exists n :: n in items && n.itemId == r.itemId && n.questionId == r.questionId
                        && n.assessmentId == assessmentId && n.staffAnswer.None?
                        && r.patientAnswer == n.patientAnswer && r.flag == n.flag
                        && forall it :: it in items && it.assessmentId == assessmentId && it.staffAnswer.None? ==>
                                          r.questionId <= it.questionId)
  {
    var needs := NeedsStaffAnswer(assessmentId);
    NextItemSpec(items, needs);
    assert forall it :: needs(it) <==> it.assessmentId == assessmentId && it.staffAnswer.None?;
  }

  /** An item created without a patient answer stores -1, which counts as an
      answer: adding it leaves the patient's next question as it was, so the
      patient is never asked that question. */
  lemma CreatedWithoutAnswerNeverOffered(items: seq<AssessmentItem>, questions: seq<Question>, assessmentId: int,
                                         id: int, dto: AssessmentItemDto, now: int)
    requires dto.patientAnswer.None?
    ensures GetNextUnansweredPatientQuestion(items + [AssessmentItemApi.NewItem(id, dto, now)], questions, assessmentId)
         == GetNextUnansweredPatientQuestion(items, questions, assessmentId)
  {
    var x := AssessmentItemApi.NewItem(id, dto, now);
    Seqs.FilterAppend(items, x, NeedsPatientAnswer(assessmentId));
    assert !NeedsPatientAnswer(assessmentId)(x);
    assert Seqs.Filter(items, NeedsPatientAnswer(assessmentId)) + [] == Seqs.Filter(items, NeedsPatientAnswer(assessmentId));
  }

  // ---------------------------------------------------------------------
  // Row updates of the quiz

  /** quiz/patient/submit: the answer is stored; the comment is not. */
  function WithSubmittedPatientAnswer(it: AssessmentItem, answer: int, now: int): (r: AssessmentItem)
    ensures r.patientAnswer == Some(answer) && r.answeredAt == now
    ensures r.itemId == it.itemId && r.assessmentId == it.assessmentId && r.questionId == it.questionId
    ensures r.patientComment == it.patientComment && r.skippedByPatient == it.skippedByPatient
    ensures r.staffAnswer == it.staffAnswer && r.staffComment == it.staffComment
    ensures r.flag == it.flag && r.order == it.order
  {
    it.(patientAnswer := Some(answer), answeredAt := now)
  }

  /** quiz/patient/skip: the patient answer is cleared. */
  function WithPatientAnswerCleared(it: AssessmentItem, now: int): (r: AssessmentItem)
    ensures r.patientAnswer.None? && r.answeredAt == now
    ensures r.itemId == it.itemId && r.assessmentId == it.assessmentId && r.questionId == it.questionId
    ensures r.patientComment == it.patientComment && r.skippedByPatient == it.skippedByPatient
    ensures r.staffAnswer == it.staffAnswer && r.staffComment == it.staffComment
    ensures r.flag == it.flag && r.order == it.order
  {
    it.(patientAnswer := None, answeredAt := now)
  }

  /** quiz/staff/submit: staff answer, and the flag or false when none is given. */
  function WithSubmittedStaffAnswer(it: AssessmentItem, dto: SubmitStaffAnswerDto, now: int): (r: AssessmentItem)
    ensures r.staffAnswer == dto.answer && r.answeredAt == now
    ensures r.flag == (dto.flag.Some? && dto.flag.value)
    ensures r.itemId == it.itemId && r.assessmentId == it.assessmentId && r.questionId == it.questionId
    ensures r.patientAnswer == it.patientAnswer && r.patientComment == it.patientComment
    ensures r.staffComment == it.staffComment && r.skippedByPatient == it.skippedByPatient && r.order == it.order
  {
    it.(staffAnswer := dto.answer, answeredAt := now, flag := dto.flag.GetOr(false))
  }

  /** quiz/staff/skip: the staff answer is cleared. */
  function WithStaffAnswerCleared(it: AssessmentItem, now: int): (r: AssessmentItem)
    ensures r.staffAnswer.None? && r.answeredAt == now
    ensures r.itemId == it.itemId && r.assessmentId == it.assessmentId && r.questionId == it.questionId
    ensures r.patientAnswer == it.patientAnswer && r.patientComment == it.patientComment
    ensures r.staffComment == it.staffComment && r.flag == it.flag
    ensures r.skippedByPatient == it.skippedByPatient && r.order == it.order
  {
    it.(staffAnswer := None, answeredAt := now)
  }

  /** Every row of a table after a replacement by key is the new row or a row
      of the old table with another key. */
  lemma ReplacedRows(items: seq<AssessmentItem>, id: int, x: AssessmentItem)
    ensures forall r :: r in Tables.Replace(items, ItemKey, id, x) ==> r == x || (r in items && r.itemId != id)
  {
    var after := Tables.Replace(items, ItemKey, id, x);
    forall r | r in after ensures r == x || (r in items && r.itemId != id) {
      var i :| 0 <= i < |after| && after[i] == r;
      Tables.ReplaceAtIndex(items, ItemKey, id, x, i);
    }
  }

  /** After the patient submits an answer to an item, the next-question query
      of any assessment never returns that item. */
  lemma SubmittedItemNotNext(items: seq<AssessmentItem>, questions: seq<Question>, assessmentId: int, id: int, answer: int, now: int)
    requires Tables.Find(items, ItemKey, id).Some?
    ensures var after := Tables.Replace(items, ItemKey, id, WithSubmittedPatientAnswer(Tables.Find(items, ItemKey, id).value, answer, now));
      var r := GetNextUnansweredPatientQuestion(after, questions, assessmentId);
      r.PatientQuestion? ==> r.itemId != id
  {
    var x := WithSubmittedPatientAnswer(Tables.Find(items, ItemKey, id).value, answer, now);
    var after := Tables.Replace(items, ItemKey, id, x);
    PatientNextSpec(after, questions, assessmentId);
    ReplacedRows(items, id, x);
  }

  /** After the patient skips an item, its assessment is not done, and the next
      question's id is at most the skipped item's. */
  lemma SkippedItemEligible(items: seq<AssessmentItem>, questions: seq<Question>, id: int, now: int)
    requires Tables.Find(items, ItemKey, id).Some?
    ensures var before := Tables.Find(items, ItemKey, id).value;
      var after := Tables.Replace(items, ItemKey, id, WithPatientAnswerCleared(before, now));
      var r := GetNextUnansweredPatientQuestion(after, questions, before.assessmentId);
      r.PatientQuestion? && r.questionId <= before.questionId
  {
    var it := Tables.Find(items, ItemKey, id).value;
    var x := WithPatientAnswerCleared(it, now);
    var after := Tables.Replace(items, ItemKey, id, x);
    Tables.ReplaceFound(items, ItemKey, id, x);
    assert x in after;
    PatientNextSpec(after, questions, it.assessmentId);
  }

  // ---------------------------------------------------------------------
  // Progress: question X of Y

  /** The items of an assessment in question id order (`allItems`). */
  function ItemsByQuestionId(items: seq<AssessmentItem>, assessmentId: int): seq<AssessmentItem> {
    Seqs.SortBy(ItemsOf(items, assessmentId), ItemQuestionId)
  }

  /** `allItems.FindIndex(i => i.QuestionID == questionId)`. */
  function ProgressIndex(items: seq<AssessmentItem>, assessmentId: int, questionId: int): int {
    Seqs.FindIndex(ItemsByQuestionId(items, assessmentId), Seqs.KeyIs(ItemQuestionId, questionId))
  }

  /** The position is -1 exactly when no item of the assessment has the question;
      otherwise it counts the assessment's items with a smaller question id. */
  lemma ProgressIndexSpec(items: seq<AssessmentItem>, assessmentId: int, questionId: int)
    ensures ProgressIndex(items, assessmentId, questionId) == -1 <==>
      forall it :: it in items && it.assessmentId == assessmentId ==> it.questionId != questionId
    ensures ProgressIndex(items, assessmentId, questionId) >= 0 ==>
      && ProgressIndex(items, assessmentId, questionId) == |Seqs.Filter(ItemsOf(items, assessmentId), Seqs.KeyBelow(ItemQuestionId, questionId))|
      && ProgressIndex(items, assessmentId, questionId) < |ItemsOf(items, assessmentId)|
  {
    var own := ItemsOf(items, assessmentId);
    var all := ItemsByQuestionId(items, assessmentId);
    var k := ProgressIndex(items, assessmentId, questionId);
    Seqs.SortByMembers(own, ItemQuestionId);
    if k == -1 {
      forall it | it in items && it.assessmentId == assessmentId ensures it.questionId != questionId {
        assert InAssessment(assessmentId)(it);
        assert it in own;
        var j :| 0 <= j < |all| && all[j] == it;
        assert !Seqs.KeyIs(ItemQuestionId, questionId)(all[j]);
        assert ItemQuestionId(it) != questionId;
      }
    } else {
      assert all[k] in all;
      Seqs.SortBySorted(own, ItemQuestionId);
      Seqs.FindIndexInSorted(all, ItemQuestionId, questionId);
      Seqs.SortByFilterLength(own, ItemQuestionId, Seqs.KeyBelow(ItemQuestionId, questionId));
    }
  }

  datatype PatientProgress = PatientProgress(
    questionNumber: int,
    totalQuestions: int,
    questionText: Option<string>,
    category: Option<string>)

  datatype StaffProgress = StaffProgress(
    questionNumber: int,
    totalQuestions: int,
    questionText: Option<string>,
    category: Option<string>,
    patientAnswer: Option<int>,
    flag: bool)

  /** GET quiz/patient/progress/{assessmentId}/{questionId}. */
  function GetPatientQuestionProgress(items: seq<AssessmentItem>, questions: seq<Question>, assessmentId: int, questionId: int): ActionResult<PatientProgress> {
    var all := ItemsByQuestionId(items, assessmentId);
    var index := ProgressIndex(items, assessmentId, questionId);
    if index == -1 then NotFound
    else
      var item := all[index];
      Ok(PatientProgress(index + 1, |all|, QuestionTextOf(questions, item.questionId), CategoryOf(questions, item.questionId)))
  }

  /** GET quiz/staff/progress/{assessmentId}/{questionId}. */
  function GetStaffQuestionProgress(items: seq<AssessmentItem>, questions: seq<Question>, assessmentId: int, questionId: int): ActionResult<StaffProgress> {
    var all := ItemsByQuestionId(items, assessmentId);
    var index := ProgressIndex(items, assessmentId, questionId);
    if index == -1 then NotFound
    else
      var item := all[index];
      Ok(StaffProgress(index + 1, |all|, QuestionTextOf(questions, item.questionId), CategoryOf(questions, item.questionId),
                       item.patientAnswer, item.flag))
  }

  /** Patient progress: NotFound exactly when the question is not among the
      assessment's items; otherwise question number 1 + (items with a smaller
      question id) of the item count, so 1 <= number <= total. */
  lemma PatientProgressSpec(items: seq<AssessmentItem>, questions: seq<Question>, assessmentId: int, questionId: int)
    ensures var r := GetPatientQuestionProgress(items, questions, assessmentId, questionId);
      && (r.Ok? || r.NotFound?)
      && (r.NotFound? <==> forall it :: it in items && it.assessmentId == assessmentId ==> it.questionId != questionId)
      && (r.Ok? ==>
            && r.value.questionNumber == 1 + |Seqs.Filter(ItemsOf(items, assessmentId), Seqs.KeyBelow(ItemQuestionId, questionId))|
            && r.value.totalQuestions == |ItemsOf(items, assessmentId)|
            && 1 <= r.value.questionNumber <= r.value.totalQuestions
            && r.value.questionText == QuestionTextOf(questions, questionId))
  {
    ProgressIndexSpec(items, assessmentId, questionId);
    var index := ProgressIndex(items, assessmentId, questionId);
    if index >= 0 {
      var it := ItemsByQuestionId(items, assessmentId)[index];
      assert Seqs.KeyIs(ItemQuestionId, questionId)(it);
      assert ItemQuestionId(it) == questionId;
    }
  }

  /** Staff progress: the same position rules, with the item's patient answer and flag. */
  lemma StaffProgressSpec(items: seq<AssessmentItem>, questions: seq<Question>, assessmentId: int, questionId: int)
    ensures var r := GetStaffQuestionProgress(items, questions, assessmentId, questionId);
      && (r.Ok? || r.NotFound?)
      && (r.NotFound? <==> forall it :: it in items && it.assessmentId == assessmentId ==> it.questionId != questionId)
      && (r.Ok? ==>
            && r.value.questionNumber == 1 + |Seqs.Filter(ItemsOf(items, assessmentId), Seqs.KeyBelow(ItemQuestionId, questionId))|
            && r.value.totalQuestions == |ItemsOf(items, assessmentId)|
            && 1 <= r.value.questionNumber <= r.value.totalQuestions
            && exists it :: it in items && it.assessmentId == assessmentId && it.questionId == questionId
                            && r.value.patientAnswer == it.patientAnswer && r.value.flag == it.flag)
  {
    ProgressIndexSpec(items, assessmentId, questionId);
    var index := ProgressIndex(items, assessmentId, questionId);
    if index >= 0 {
      var all := ItemsByQuestionId(items, assessmentId);
      Seqs.SortByMembers(ItemsOf(items, assessmentId), ItemQuestionId);
      var it := all[index];
      assert Seqs.KeyIs(ItemQuestionId, questionId)(it);
      assert it in all && it in ItemsOf(items, assessmentId);
      assert InAssessment(assessmentId)(it);
      assert ItemQuestionId(it) == questionId;
    }
  }

  // ---------------------------------------------------------------------
  // The controller

  class QuestionController {
    const context: Data.AppDbContext

    constructor (context: Data.AppDbContext)
      ensures this.context == context
    {
      this.context := context;
    }

    /** POST: adds one question numbered by the identity counter. */
    method CreateQuestion(dto: QuestionDto, now: int) returns (r: ActionResult<int>)
      requires context.Valid()
      modifies context`questions, context`nextQuestionId
      ensures context.Valid()
      ensures r == Created(old(context.nextQuestionId))
      ensures context.questions == old(context.questions) + [NewQuestion(old(context.nextQuestionId), dto, now)]
      ensures context.nextQuestionId == old(context.nextQuestionId) + 1
    {
      var id := context.nextQuestionId;
      var q := NewQuestion(id, dto, now);
      Tables.AppendKeepsKeys(context.questions, QuestionKey, q, id);
      context.questions := context.questions + [q];
      context.nextQuestionId := id + 1;
      r := Created(id);
    }

    /** PUT {id}: the id in the path must equal the id in the body. */
    method UpdateQuestion(id: int, dto: QuestionDto) returns (r: ActionResult<()>)
      requires context.Valid()
      modifies context`questions
      ensures context.Valid()
      ensures id != dto.questionId ==> r == BadRequest && context.questions == old(context.questions)
      ensures id == dto.questionId ==>
        var found := Tables.Find(old(context.questions), QuestionKey, id);
        if found.None? then
          r == NotFound && context.questions == old(context.questions)
        else
          r == NoContent &&
          context.questions == Tables.Replace(old(context.questions), QuestionKey, id, WithQuestionUpdate(found.value, dto))
    {
      if id != dto.questionId {
        return BadRequest;
      }
      var found := Tables.Find(context.questions, QuestionKey, id);
      if found.None? {
        return NotFound;
      }
      var q := WithQuestionUpdate(found.value, dto);
      Tables.ReplaceKeepsKeys(context.questions, QuestionKey, id, q, context.nextQuestionId);
      context.questions := Tables.Replace(context.questions, QuestionKey, id, q);
      r := NoContent;
    }

    /** DELETE {id}. */
    method DeleteQuestion(id: int) returns (r: ActionResult<()>)
      requires context.Valid()
      modifies context`questions
      ensures context.Valid()
      ensures !Tables.HasKey(old(context.questions), QuestionKey, id) ==>
        r == NotFound && context.questions == old(context.questions)
      ensures Tables.HasKey(old(context.questions), QuestionKey, id) ==>
        r == NoContent && context.questions == Tables.Remove(old(context.questions), QuestionKey, id)
    {
      var found := Tables.Find(context.questions, QuestionKey, id);
      if found.None? {
        return NotFound;
      }
      Tables.RemoveKeepsKeys(context.questions, QuestionKey, id, context.nextQuestionId);
      context.questions := Tables.Remove(context.questions, QuestionKey, id);
      r := NoContent;
    }

    /** POST quiz/patient/submit. */
    method SubmitPatientAnswer(dto: SubmitAnswerDto, now: int) returns (r: ActionResult<()>)
      requires context.Valid()
      modifies context`assessmentItems
      ensures context.Valid()
      ensures var found := Tables.Find(old(context.assessmentItems), ItemKey, dto.itemId);
        if found.None? then
          r == NotFound && context.assessmentItems == old(context.assessmentItems)
        else
          r == Ok(()) &&
          context.assessmentItems == Tables.Replace(old(context.assessmentItems), ItemKey, dto.itemId,
                                                    WithSubmittedPatientAnswer(found.value, dto.answer, now))
    {
      var found := Tables.Find(context.assessmentItems, ItemKey, dto.itemId);
      if found.None? {
        return NotFound;
      }
      var item := WithSubmittedPatientAnswer(found.value, dto.answer, now);
      Tables.ReplaceKeepsKeys(context.assessmentItems, ItemKey, dto.itemId, item, context.nextItemId);
      context.assessmentItems := Tables.Replace(context.assessmentItems, ItemKey, dto.itemId, item);
      r := Ok(());
    }

    /** POST quiz/patient/skip. */
    method SkipPatientQuestion(dto: SkipQuestionDto, now: int) returns (r: ActionResult<()>)
      requires context.Valid()
      modifies context`assessmentItems
      ensures context.Valid()
      ensures var found := Tables.Find(old(context.assessmentItems), ItemKey, dto.itemId);
        if found.None? then
          r == NotFound && context.assessmentItems == old(context.assessmentItems)
        else
          r == Ok(()) &&
          context.assessmentItems == Tables.Replace(old(context.assessmentItems), ItemKey, dto.itemId,
                                                    WithPatientAnswerCleared(found.value, now))
    {
      var found := Tables.Find(context.assessmentItems, ItemKey, dto.itemId);
      if found.None? {
        return NotFound;
      }
      var item := WithPatientAnswerCleared(found.value, now);
      Tables.ReplaceKeepsKeys(context.assessmentItems, ItemKey, dto.itemId, item, context.nextItemId);
      context.assessmentItems := Tables.Replace(context.assessmentItems, ItemKey, dto.itemId, item);
      r := Ok(());
    }

    /** POST quiz/staff/submit. */
    method SubmitStaffAnswer(dto: SubmitStaffAnswerDto, now: int) returns (r: ActionResult<()>)
      requires context.Valid()
      modifies context`assessmentItems
      ensures context.Valid()
      ensures var found := Tables.Find(old(context.assessmentItems), ItemKey, dto.itemId);
        if found.None? then
          r == NotFound && context.assessmentItems == old(context.assessmentItems)
        else
          r == Ok(()) &&
          context.assessmentItems == Tables.Replace(old(context.assessmentItems), ItemKey, dto.itemId,
                                                    WithSubmittedStaffAnswer(found.value, dto, now))
    {
      var found := Tables.Find(context.assessmentItems, ItemKey, dto.itemId);
      if found.None? {
        return NotFound;
      }
      var item := WithSubmittedStaffAnswer(found.value, dto, now);
      Tables.ReplaceKeepsKeys(context.assessmentItems, ItemKey, dto.itemId, item, context.nextItemId);
      context.assessmentItems := Tables.Replace(context.assessmentItems, ItemKey, dto.itemId, item);
      r := Ok(());
    }

    /** POST quiz/staff/skip. */
    method SkipStaffQuestion(dto: SkipQuestionDto, now: int) returns (r: ActionResult<()>)
      requires context.Valid()
      modifies context`assessmentItems
      ensures context.Valid()
      ensures var found := Tables.Find(old(context.assessmentItems), ItemKey, dto.itemId);
        if found.None? then
          r == NotFound && context.assessmentItems == old(context.assessmentItems)
        else
          r == Ok(()) &&
          context.assessmentItems == Tables.Replace(old(context.assessmentItems), ItemKey, dto.itemId,
                                                    WithStaffAnswerCleared(found.value, now))
    {
      var found := Tables.Find(context.assessmentItems, ItemKey, dto.itemId);
      if found.None? {
        return NotFound;
      }
      var item := WithStaffAnswerCleared(found.value, now);
      Tables.ReplaceKeepsKeys(context.assessmentItems, ItemKey, dto.itemId, item, context.nextItemId);
      context.assessmentItems := Tables.Replace(context.assessmentItems, ItemKey, dto.itemId, item);
      r := Ok(());
    }
  }
}
