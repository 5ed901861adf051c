/** The quiz progression of quiz_app/gui.py: the five answer options and the
    state that `QuizFrame` keeps while the user steps through the questions.
    Widgets are reduced to the text they show. */
module Gui {
  import QuizLogic

  /** `ANSWER_OPTIONS`, in the order the radio buttons show them. */
  const AnswerOptions: seq<string> :=
    ["Strongly Agree", "Agree", "Don't Know", "Disagree", "Strongly Disagree"]

  const NextText: string := "Next \U{2192}"
  const FinishText: string := "Finish \U{2713}"

  /** The five options are distinct non-empty labels without a colon, so a
      chosen option is never mistaken for "nothing selected" and the answer
      keys built from them never collide. */
  lemma AnswerOptionsAreLabels()
    ensures |AnswerOptions| == 5 && QuizLogic.NoDuplicates(AnswerOptions)
    ensures forall o :: o in AnswerOptions ==> o != "" && ':' !in o
  {
  }

  /** For answers taken from the five options, the answer node key
      determines both the option and the question. */
  lemma OptionKeysAreDistinct(a1: string, q1: string, a2: string, q2: string)
    requires a1 in AnswerOptions && a2 in AnswerOptions
    requires (a1, q1) != (a2, q2)
    ensures QuizLogic.AnswerKey(a1, q1) != QuizLogic.AnswerKey(a2, q2)
  {
    AnswerOptionsAreLabels();
    if QuizLogic.AnswerKey(a1, q1) == QuizLogic.AnswerKey(a2, q2) {
      QuizLogic.AnswerKeyInjective(a1, q1, a2, q2);
    }
  }

  // ---------------------------------------------------------------------
  // Decimal rendering for the progress label

  predicate IsDigits(s: string) {
    forall i :: 0 <= i < |s| ==> '0' <= s[i] <= '9'
  }

  function DigitChar(d: nat): (c: char)
    requires d < 10
    ensures '0' <= c <= '9' && (c as int) - ('0' as int) == d
  {
    "0123456789"[d]
  }

  /** `str(n)` for a natural number: its decimal digits, most significant
      first, without leading zeros. */
  function Decimal(n: nat): (s: string)
    ensures |s| >= 1 && IsDigits(s)
    ensures |s| > 1 ==> s[0] != '0'
    ensures n < 10 <==> |s| == 1
    decreases n
  {
    if n < 10 then [DigitChar(n)] else Decimal(n / 10) + [DigitChar(n % 10)]
  }

  /** The number a string of decimal digits denotes. */
  function DigitsValue(s: string): nat
    requires IsDigits(s)
    decreases |s|
  {
    if s == [] then 0
    else 10 * DigitsValue(s[..|s| - 1]) + ((s[|s| - 1] as int) - ('0' as int))
  }

  /** Reading back the rendered digits gives the number. */
  lemma {:induction false} DecimalRoundTrip(n: nat)
    ensures DigitsValue(Decimal(n)) == n
    decreases n
  {
    var s := Decimal(n);
    if n >= 10 {
      DecimalRoundTrip(n / 10);
      assert s[..|s| - 1] == Decimal(n / 10);
    }
  }

  /** The progress label for question `index` (counted from 0) of `total`. */
  function ProgressLabel(index: nat, total: nat): string {
    "Question " + Decimal(index + 1) + " of " + Decimal(total)
  }

  // ---------------------------------------------------------------------
  // Answered questions

  /** The questions answered once `k` steps have been taken. */
  function Answered(questions: seq<string>, k: nat): set<string>
    requires k <= |questions|
  {
    set j | 0 <= j < k :: questions[j]
  }

  /** With distinct questions, each step adds exactly one answer: after `k`
      steps the answers dictionary holds `k` entries. */
  lemma {:induction false} AnsweredCount(questions: seq<string>, k: nat)
    requires k <= |questions| && QuizLogic.NoDuplicates(questions)
    ensures |Answered(questions, k)| == k
    decreases k
  {
    if k > 0 {
      AnsweredCount(questions, k - 1);
      assert Answered(questions, k) == Answered(questions, k - 1) + {questions[k - 1]};
      assert questions[k - 1] !in Answered(questions, k - 1);
    }
  }

  /** Once every question is answered, the answered set is the question set. */
  lemma AnsweredAll(questions: seq<string>)
    ensures forall q :: q in Answered(questions, |questions|) <==> q in questions
  {
    forall q | q in questions ensures q in Answered(questions, |questions|) {
      var j :| 0 <= j < |questions| && questions[j] == q;
    }
  }

  // ---------------------------------------------------------------------
  // QuizFrame

  class QuizFrame {
    const questions: seq<string>
    const statements: map<string, string>

    var currentIndex: nat
    /** Answer label by question id, as `self.answers`. */
    var answers: map<string, string>
    /** The selected radio button's value, "" when none is selected. */
    var selected: string

    // What `show_question` writes into the widgets.
    var progressLabel: string
    var questionText: string
    var buttonText: string

    /** The arguments of the calls made to `on_complete`, in order. */
    var completions: seq<map<string, string>>

    ghost predicate Valid()
      reads this
    {
      && |questions| > 0
      && (forall q :: q in questions ==> q in statements)
      && currentIndex <= |questions|
      && answers.Keys == Answered(questions, currentIndex)
      && (forall q :: q in answers ==> answers[q] in AnswerOptions)
      && (selected == "" || selected in AnswerOptions)
      && buttonText == (if currentIndex + 1 >= |questions| then FinishText else NextText)
      && (currentIndex < |questions| ==>
            && progressLabel == ProgressLabel(currentIndex, |questions|)
            && questionText == statements[questions[currentIndex]]
            && completions == [])
      && (currentIndex == |questions| ==> completions == [answers])
    }

    /** `QuizFrame.__init__`: no answers yet, the first question shown. */
    constructor (questions: seq<string>, statements: map<string, string>)
      requires |questions| > 0
      requires forall q :: q in questions ==> q in statements
      ensures Valid()
      ensures this.questions == questions && this.statements == statements
      ensures currentIndex == 0 && answers == map[] && selected == "" && completions == []
      ensures progressLabel == ProgressLabel(0, |questions|)
      ensures questionText == statements[questions[0]]
      ensures buttonText == if |questions| == 1 then FinishText else NextText
    {
      this.questions := questions;
      this.statements := statements;
      currentIndex := 0;
      answers := map[];
      selected := "";
      progressLabel := "";
      questionText := "";
      buttonText := NextText;
      completions := [];
      new;
      assert Answered(questions, 0) == {};
      ShowQuestion();
    }

    /** `show_question`: show the current question and its progress, clear
        the selection, and relabel the button on the last question. */
    method ShowQuestion()
      requires currentIndex < |questions| && questions[currentIndex] in statements
      modifies this
      ensures currentIndex == old(currentIndex) && answers == old(answers)
      ensures completions == old(completions)
      ensures progressLabel == ProgressLabel(currentIndex, |questions|)
      ensures questionText == statements[questions[currentIndex]]
      ensures selected == ""
      ensures buttonText == if currentIndex == |questions| - 1 then FinishText else old(buttonText)
    {
      var questionId := questions[currentIndex];
      questionText := statements[questionId];
      progressLabel := "Question " + Decimal(currentIndex + 1) + " of " + Decimal(|questions|);
      selected := "";
      if currentIndex == |questions| - 1 {
        buttonText := FinishText;
      }
    }

    /** Clicking the radio button of an option selects it. */
    method Select(option: string)
      requires Valid() && option in AnswerOptions
      modifies this`selected
      ensures Valid() && selected == option
    {
      selected := option;
    }

    /** `next_question`: without a selection nothing happens; otherwise the
        selection is recorded as the answer to the current question, the
        index moves on by one, and either `on_complete` receives the answers
        (after the last question) or the next question is shown. */
    method NextQuestion()
      requires Valid() && currentIndex < |questions|
      modifies this
      ensures Valid()
      ensures old(selected) == "" ==> unchanged(this)
      ensures old(selected) != "" ==>
        && currentIndex == old(currentIndex) + 1
        && answers == old(answers)[questions[old(currentIndex)] := old(selected)]
      ensures old(selected) != "" && currentIndex == |questions| ==>
        completions == old(completions) + [answers]
      ensures old(selected) != "" && currentIndex == |questions| ==>
        && selected == old(selected)
        && progressLabel == old(progressLabel)
        && questionText == old(questionText)
        && buttonText == old(buttonText)
      ensures old(selected) != "" && currentIndex < |questions| ==>
        completions == old(completions) && selected == ""
    {
      if selected == "" {
        return;
      }
      var questionId := questions[currentIndex];
      answers := answers[questionId := selected];
      currentIndex := currentIndex + 1;
      assert Answered(questions, currentIndex) == Answered(questions, currentIndex - 1) + {questionId};
      if currentIndex >= |questions| {
        completions := completions + [answers];
      } else {
        ShowQuestion();
      }
    }
  }
}
