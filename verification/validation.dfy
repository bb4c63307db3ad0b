/**
 The `/trivia` action names and the per-action arity check that runs before
 any handler (`validateCommand` in server/command.go).
 */
module Validation {
  import opened Options

  // Action names, spelled as the plugin spells them.
  const Create: string := "create"
  const ListQuizes: string := "list_quizes"
  const ListQuestions: string := "list_questions"
  const AddQuestion: string := "add_question"
  const DeleteQuiz: string := "delete_quiz"
  const DeleteQuestion: string := "delete_question"
  const Start: string := "start"

  // Rejection reasons, one per action that has an arity rule.
  const CreateReason: string := "Please specify a channel and quiz name (one word, dashes allowed)."
  const ListQuizesReason: string := "List command does not accept any extra parameters"
  const ListQuestionsReason: string := "`You need to provide the quiz name (one word, dashes allowed)"
  const AddQuestionReason: string := "`You need to provide the quiz name, the question and the answer. Split the answer and the question with a |"
  const DeleteQuestionReason: string := "You need to provide the quiz name and the question"
  const StartReason: string := "This function requires the quiz name"

  /** How many parameters an action admits. */
  datatype Arity = Exactly(n: nat) | AtMost(n: nat) | AtLeast(n: nat)

  /** One entry of the command registry: the arity rule and the reason posted when it is broken. */
  datatype Rule = Rule(arity: Arity, reason: string)

  predicate Admits(a: Arity, count: nat) {
    match a
    case Exactly(n) => count == n
    case AtMost(n) => count <= n
    case AtLeast(n) => count >= n
  }

  /** The command registry as a table: the actions that carry an arity rule, and nothing else. */
  function Registry(): map<string, Rule> {
    map[
      Create := Rule(Exactly(2), CreateReason),
      ListQuizes := Rule(AtMost(0), ListQuizesReason),
      ListQuestions := Rule(Exactly(1), ListQuestionsReason),
      AddQuestion := Rule(AtLeast(2), AddQuestionReason),
      DeleteQuestion := Rule(AtLeast(2), DeleteQuestionReason),
      Start := Rule(Exactly(1), StartReason)
    ]
  }

  /**
   `validateCommand`: the empty string when `parameters` suits `action`,
   otherwise the reason to post. Actions without a rule (including
   `delete_quiz`, the empty action and unknown words) are always accepted.
   */
  function Validate(action: string, parameters: seq<string>): (reason: string)
    ensures reason != "" <==> action in Registry() && !Admits(Registry()[action].arity, |parameters|)
    ensures reason != "" ==> reason == Registry()[action].reason
  {
    var n := |parameters|;
    if action == Create then
      if n != 2 then CreateReason else ""
    else if action == ListQuizes then
      if n > 0 then ListQuizesReason else ""
    else if action == ListQuestions then
      if n != 1 then ListQuestionsReason else ""
    else if action == AddQuestion then
      if n < 2 then AddQuestionReason else ""
    else if action == DeleteQuestion then
      if n < 2 then DeleteQuestionReason else ""
    else if action == Start then
      if n != 1 then StartReason else ""
    else ""
  }

  /** The arity rules spelled out action by action: a reason is returned exactly when one is broken. */
  lemma ValidateRejectsExactly(action: string, parameters: seq<string>)
    ensures Validate(action, parameters) != "" <==>
      || (action == Create && |parameters| != 2)
      || (action == ListQuizes && |parameters| > 0)
      || ((action == ListQuestions || action == Start) && |parameters| != 1)
      || ((action == AddQuestion || action == DeleteQuestion) && |parameters| < 2)
  {
  }

  /** `delete_quiz`, the empty action and any word outside the registry pass validation with any parameters. */
  lemma ValidateAcceptsUnruled(action: string, parameters: seq<string>)
    requires action !in Registry()
    ensures Validate(action, parameters) == ""
  {
  }

  /** `delete_quiz` and the empty action have no rule, so they pass with any parameters. */
  lemma DeleteQuizAndEmptyAccepted(parameters: seq<string>)
    ensures Validate(DeleteQuiz, parameters) == ""
    ensures Validate("", parameters) == ""
  {
  }
}
