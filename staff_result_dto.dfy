/** The staff result rows (DTOs/StaffResultDto.cs) and their computed
    `Difference` between the patient's and the caregiver's answer. */
module StaffResultDto {
  import opened Wrappers

  function Abs(x: int): int { if x < 0 then -x else x }

  /** `Difference` as written: the distance between the two answers when both
      are present, otherwise the sentinel -1. */
  function AnswerDifference(patientAnswer: Option<int>, staffAnswer: Option<int>): (d: int)
    ensures patientAnswer.Some? && staffAnswer.Some? ==>
      && d >= 0
      && (d == patientAnswer.value - staffAnswer.value || d == staffAnswer.value - patientAnswer.value)
      && (d == 0 <==> patientAnswer.value == staffAnswer.value)
    ensures patientAnswer.None? || staffAnswer.None? ==> d == -1
  {
    if patientAnswer.Some? && staffAnswer.Some? then Abs(patientAnswer.value - staffAnswer.value) else -1
  }

  /** An answer on the questionnaire's 0..4 scale. */
  predicate OnScale(a: Option<int>) {
    a.Some? && 0 <= a.value <= 4
  }

  /** The difference does not depend on which respondent is which. */
  lemma DifferenceSymmetric(p: Option<int>, s: Option<int>)
    ensures AnswerDifference(p, s) == AnswerDifference(s, p)
  {
  }

  /** Two answers on the scale differ by at most 4. */
  lemma DifferenceOnScale(p: Option<int>, s: Option<int>)
    requires OnScale(p) && OnScale(s)
    ensures 0 <= AnswerDifference(p, s) <= 4
  {
  }

  /** The difference as intended: answers off the 0..4 scale, such as the -1 that
      item creation stores for a missing patient answer, count as absent. */
  function ScaledDifference(patientAnswer: Option<int>, staffAnswer: Option<int>): (d: int)
    ensures -1 <= d <= 4
    ensures d == -1 <==> !OnScale(patientAnswer) || !OnScale(staffAnswer)
    ensures OnScale(patientAnswer) && OnScale(staffAnswer) ==> d == AnswerDifference(patientAnswer, staffAnswer)
  {
    if OnScale(patientAnswer) && OnScale(staffAnswer) then AnswerDifference(patientAnswer, staffAnswer) else -1
  }

  /** A missing patient answer stored as -1 is read by `Difference` as an answer:
      against any staff answer on the scale it yields a positive distance, never
      the sentinel -1, and exceeds the scale's bound when the staff answer is 4. */
  lemma SentinelReadAsAnswer(staffAnswer: int)
    requires 0 <= staffAnswer <= 4
    ensures AnswerDifference(Some(-1), Some(staffAnswer)) == staffAnswer + 1
    ensures ScaledDifference(Some(-1), Some(staffAnswer)) == -1
  {
  }

  /** StaffResultRowDto. */
  datatype StaffResultRowDto = StaffResultRowDto(
    itemId: int,
    order: int,
    questionText: string,
    patientAnswer: Option<int>,
    staffAnswer: Option<int>,
    patientComment: Option<string>,
    staffComment: Option<string>,
    flag: bool,
    skippedByPatient: bool)
  {
    /** The computed property `Difference`, in its corrected form: a stored
        answer off the 0..4 scale counts as missing. */
    function Difference(): int {
      ScaledDifference(patientAnswer, staffAnswer)
    }
  }

  /** StaffResultOverviewDto. */
  datatype StaffResultOverviewDto = StaffResultOverviewDto(
    assessmentId: int,
    userId: int,
    username: string,
    createdAt: int,
    isStaffComplete: bool,
    questions: seq<StaffResultRowDto>)
}
