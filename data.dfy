/** AppDbContext: the four tables, each with the identity counter the database
    uses to number new rows. */
module Data {
  import opened Models
  import Seqs
  import Tables

  class AppDbContext {
    var users: seq<User>
    var assessments: seq<Assessment>
    var questions: seq<Question>
    var assessmentItems: seq<AssessmentItem>

    // The value each identity column gives the next inserted row.
    var nextUserId: int
    var nextAssessmentId: int
    var nextQuestionId: int
    var nextItemId: int

    /** Primary keys are unique and were handed out by the identity counters. */
    ghost predicate Valid()
      reads this
    {
      && Seqs.UniqueBy(users, UserKey) && Tables.KeysBelow(users, UserKey, nextUserId)
      && Seqs.UniqueBy(assessments, AssessmentKey) && Tables.KeysBelow(assessments, AssessmentKey, nextAssessmentId)
      && Seqs.UniqueBy(questions, QuestionKey) && Tables.KeysBelow(questions, QuestionKey, nextQuestionId)
      && Seqs.UniqueBy(assessmentItems, ItemKey) && Tables.KeysBelow(assessmentItems, ItemKey, nextItemId)
      && nextUserId > 0 && nextAssessmentId > 0 && nextQuestionId > 0 && nextItemId > 0
    }

    /** An empty database whose identity columns start at 1. */
    constructor ()
      ensures Valid()
      ensures users == [] && assessments == [] && questions == [] && assessmentItems == []
      ensures nextUserId == 1 && nextAssessmentId == 1 && nextQuestionId == 1 && nextItemId == 1
    {
      users, assessments, questions, assessmentItems := [], [], [], [];
      nextUserId, nextAssessmentId, nextQuestionId, nextItemId := 1, 1, 1, 1;
    }
  }
}
