/** The request and response shapes of the API (the DTOs folder, plus the
    request bodies the controllers name). Only the fields the controllers set
    or read are modelled. */
module Dtos {
  import opened Wrappers

  /** AssessmentDto, with the `Type` the controllers copy (`assessmentType`). */
  datatype AssessmentDto = AssessmentDto(
    assessmentId: int,
    assessmentType: string,
    scaleType: string,
    isComplete: bool,
    userId: int)

  datatype AssessmentItemDto = AssessmentItemDto(
    itemId: int,
    assessmentId: int,
    questionId: int,
    patientAnswer: Option<int>,
    staffAnswer: Option<int>,
    flag: bool)

  datatype QuestionDto = QuestionDto(
    questionId: int,
    questionText: string,
    category: string,
    isActive: bool)

  datatype UserDto = UserDto(
    userId: int,
    username: string,
    email: string,
    role: string)

  /** Body of PUT patient/{id}. */
  datatype PatientAnswerDto = PatientAnswerDto(answer: Option<int>, comment: Option<string>)

  /** Body of PUT staff/{id}. */
  datatype StaffAnswerDto = StaffAnswerDto(answer: Option<int>, comment: Option<string>, flag: Option<bool>)

  /** Body of quiz/patient/submit; its comment is not stored by the controller. */
  datatype SubmitAnswerDto = SubmitAnswerDto(itemId: int, answer: int, comment: Option<string>)

  /** Body of quiz/staff/submit. */
  datatype SubmitStaffAnswerDto = SubmitStaffAnswerDto(itemId: int, answer: Option<int>, flag: Option<bool>)

  /** Body of quiz/patient/skip and quiz/staff/skip. */
  datatype SkipQuestionDto = SkipQuestionDto(itemId: int)
}
