/** The four entities of the database (the Models folder). Date-times are
    integers (ticks); a datatype's fields are the entity's columns. */
module Models {
  import opened Wrappers
  import Seqs
  import Tables

  datatype User = User(
    userId: int,
    username: string,
    email: string,
    passwordHash: string,  // a BCrypt hash, opaque here
    role: string,          // "patient", "staff", "admin", compared case-insensitively
    createdAt: int)

  datatype Assessment = Assessment(
    assessmentId: int,
    assessmentType: string,  // the C# property `Type`
    scaleType: string,
    createdAt: int,
    updatedAt: int,
    isComplete: bool,
    userId: int)

  datatype Question = Question(
    questionId: int,
    questionText: string,
    category: string,
    isActive: bool,
    createdAt: int)

  /** One question bound to one assessment round, with both respondents' answers
      (0 = no problem .. 4 = very big problem; nothing enforces the range). The
      columns `SkippedByPatient` and `Order`, which the controllers read and
      write, are part of the row. */
  datatype AssessmentItem = AssessmentItem(
    itemId: int,
    assessmentId: int,
    questionId: int,
    patientAnswer: Option<int>,
    patientComment: Option<string>,
    staffAnswer: Option<int>,
    staffComment: Option<string>,
    answeredAt: int,
    flag: bool,
    skippedByPatient: bool,
    order: int)

  // Primary keys.
  function UserKey(u: User): int { u.userId }
  function AssessmentKey(a: Assessment): int { a.assessmentId }
  function QuestionKey(q: Question): int { q.questionId }
  function ItemKey(it: AssessmentItem): int { it.itemId }

  // Sort keys.
  function ItemQuestionId(it: AssessmentItem): int { it.questionId }
  function ItemOrder(it: AssessmentItem): int { it.order }
  function CreatedAt(a: Assessment): int { a.createdAt }

  // Navigation properties: the row a foreign key refers to, or null.

  /** `item.Question`. */
  function QuestionOf(questions: seq<Question>, questionId: int): Option<Question> {
    Tables.Find(questions, QuestionKey, questionId)
  }

  /** `assessment.User`. */
  function UserOf(users: seq<User>, userId: int): Option<User> {
    Tables.Find(users, UserKey, userId)
  }

  /** `assessment.User?.Username ?? fallback`. */
  function UsernameOr(users: seq<User>, userId: int, fallback: string): (n: string)
    ensures UserOf(users, userId).None? ==> n == fallback
    ensures UserOf(users, userId).Some? ==> exists u :: u in users && u.userId == userId && n == u.username
  {
    match UserOf(users, userId)
    case None => fallback
    case Some(u) => u.username
  }

  /** The filter `ai => ai.AssessmentID == assessmentId`. */
  function InAssessment(assessmentId: int): AssessmentItem -> bool {
    (it: AssessmentItem) => it.assessmentId == assessmentId
  }

  /** The items of one assessment, in table order. */
  function ItemsOf(items: seq<AssessmentItem>, assessmentId: int): seq<AssessmentItem> {
    Seqs.Filter(items, InAssessment(assessmentId))
  }
}
