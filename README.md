# Fictional-character quiz: matching engine and quiz progression

This project models, in Dafny, the two parts of the psycho-test quiz that hold
logic:

- the **matching engine** of `quiz_app/quiz_logic.py`. It turns the answers
  (question axis to one of five agreement labels) into a user vector. To do
  that it looks up the answer nodes `A:<label>:<axis>` in a trained embedding
  model and takes the mean of the vectors it finds. It then scans the `C:`
  character nodes of a relationship graph for the vector most similar to the
  user vector and returns the character's name and the similarity. It also
  picks the quiz questions (`get_random_questions`).
- the **quiz progression** of `QuizFrame` in `quiz_app/gui.py`. This is a
  small state machine: a current index, an answers dictionary and the
  selected radio button. It records one answer per step and hands the answers
  to the completion callback after the last question.

Files:

- `vectors.dfy` (module `Vectors`): real-valued vectors and the numpy
  operations the engine uses (`zeros`, `+=`, `/=`). It also gives the sum of a
  list of vectors and proves that this sum does not depend on the order of
  the list.
- `quiz_logic.dfy` (module `QuizLogic`): the embedding model as a value
  `Model(wv, vectorSize)`, answer keys, `CalculateUserVector` (the
  accumulate-and-count loop) against the specification `UserVector`,
  `FindMatchingCharacter` (the strict-`>` argmax loop) against the
  specification `Match`, the `"C:"` removal of `str.replace`, and
  `GetRandomQuestions`.
- `gui.dfy` (module `Gui`): `ANSWER_OPTIONS`, the decimal rendering of the
  progress label, and the class `QuizFrame`. Its methods update the fields in
  place and keep the invariant `Valid()`.

A Python dictionary of answers is modelled as its list of items
`seq<(axis, label)>` in iteration order. The model proves that the result is
the same for every order of the items.

Cosine similarity is a function-typed parameter `cos`. The lemmas that need its
properties require `IsCosine(cos)`: values in [-1, 1], 0 when either vector is
the zero vector (what the library computes for a zero norm), and 1 for a
non-zero vector compared with itself. The arithmetic on vectors is exact
arithmetic on `real`.

Three points about the code's behaviour that the model states:

- If no answer resolves, the user vector is the zero vector. Every stored
  candidate then scores 0 against it, and 0 beats the initial -1. So the first
  stored character wins with similarity 0, and no "no match" result comes
  back. The sentinel `("Unknown", -1)` appears only when no stored candidate
  scores above -1. `MatchWithNothingResolved` and
  `ExampleUnknownLabelMatchesFirstCharacter` state this.
- Ties are not broken by character name. The comparison is a strict `>`, so
  the first candidate in the graph's node order wins. `MatchWinner` and
  `ScanFindsFirstBest` state this.
- `str.replace("C:", "")` removes every occurrence of `C:`, not only the
  prefix. `ReplaceCharacterPrefix` models that, and `ReplaceCharacterPrefixAcross` states it.

## Model

| member | source | states |
|---|---|---|
| `QuizLogic.AnswerKeyIsNotCharacterNode` | quiz_app/quiz_logic.py:38 | an answer node key starts with "A:", so it is never a "C:" character node |
| `QuizLogic.AnswerKeyInjective` | quiz_app/quiz_logic.py:38 | for labels without a colon, the key "A:"+label+":"+axis determines both the label and the axis |
| `QuizLogic.ResolvedVectors` | quiz_app/quiz_logic.py:37-41 | the vectors taken from the model all have the declared length, and there are no more of them than answer items |
| `QuizLogic.UserVector` | quiz_app/quiz_logic.py:35-44 | the user vector has length `vector_size` whatever the answers |
| `QuizLogic.CalculateUserVector` | quiz_app/quiz_logic.py:34-44 | the accumulate-and-count loop returns the mean of the vectors of the resolving keys, or the zero vector when none resolves, always of length `vector_size` |
| `QuizLogic.ResolvedCount` | quiz_app/quiz_logic.py:36-41 | `valid_count` equals the number of answer items whose key is in the model |
| `QuizLogic.NothingResolvedGivesZeroVector` | quiz_app/quiz_logic.py:35-44 | if no answer key is in the model (an empty dictionary included), the user vector is the all-zero vector |
| `QuizLogic.UnresolvedItemIsSkipped` | quiz_app/quiz_logic.py:37-41 | an answer whose key is not in the model (a label outside the five options, say) is not rejected and changes nothing: removing it gives the same user vector |
| `Vectors.SumPermutation` | quiz_app/quiz_logic.py:40 | the accumulated sum is the same for any order of the summed vectors |
| `QuizLogic.UserVectorOrderIndependent` | quiz_app/quiz_logic.py:37-43 | any two orders of the same answer items give the same user vector |
| `QuizLogic.UserVectorSameDictionary` | quiz_app/quiz_logic.py:37-43 | any two iteration orders of one dictionary (each item once) give the same user vector |
| `QuizLogic.CharacterNodes` | quiz_app/quiz_logic.py:51 | a graph node is a candidate if and only if it starts with "C:" |
| `QuizLogic.CharacterNodesAppend` | quiz_app/quiz_logic.py:51 | the candidate filter keeps the graph's node order |
| `QuizLogic.ScanIsUpperBound` | quiz_app/quiz_logic.py:52-61 | the best similarity is at least -1 and at least the similarity of every candidate that is in the model |
| `QuizLogic.ScanFindsNothingIff` | quiz_app/quiz_logic.py:52-61 | no best character is found if and only if no stored candidate scores above -1, and then the similarity stays -1 |
| `QuizLogic.ScanFindsFirstBest` | quiz_app/quiz_logic.py:55-61 | a found character is the earliest candidate of maximal similarity among those in the model, and its similarity is the one reported |
| `QuizLogic.FirstBestIsUnique` | quiz_app/quiz_logic.py:59-61 | the earliest candidate of maximal similarity is unique, so the strict `>` fixes the winner |
| `QuizLogic.ReplaceCharacterPrefixIdentity` | quiz_app/quiz_logic.py:63 | a name without "C:" is returned unchanged by the replacement |
| `QuizLogic.ReplaceCharacterPrefixAcross` | quiz_app/quiz_logic.py:63 | the replacement removes every "C:", also one inside the name, and cleans each side of it |
| `QuizLogic.CharacterName` | quiz_app/quiz_logic.py:63 | the node "C:"+name is a character node, and its returned name is `name` when `name` holds no "C:" |
| `QuizLogic.FindMatchingCharacter` | quiz_app/quiz_logic.py:47-64 | the argmax loop returns exactly `Match` of the answers, the model and the graph nodes |
| `QuizLogic.MatchSentinel` | quiz_app/quiz_logic.py:52-64 | the result is ("Unknown", -1) when no candidate in the model scores above -1, no candidate at all included |
| `QuizLogic.MatchWinner` | quiz_app/quiz_logic.py:52-64 | when some candidate in the model scores above -1, the result is the earliest candidate of maximal similarity, a "C:" node of the graph that is in the model, with every "C:" removed, together with its similarity |
| `QuizLogic.MatchSimilarityBounds` | quiz_app/quiz_logic.py:52-64 | with cosine similarity, the returned similarity lies in [-1, 1] |
| `QuizLogic.MatchWithNothingResolved` | quiz_app/quiz_logic.py:42-64 | when no answer resolves, the first candidate that is in the model wins with similarity 0; the sentinel comes back only when no candidate is in the model |
| `QuizLogic.ExampleAgreeMatchesAlice` | quiz_app/quiz_logic.py:34-64 | with A:Agree:Q1=[1,0], C:Alice=[1,0], C:Bob=[0,1], the answer {Q1: "Agree"} gives ("Alice", 1) |
| `QuizLogic.ExampleUnknownLabelMatchesFirstCharacter` | quiz_app/quiz_logic.py:34-64 | in the same model, {Q1: "UnknownLabel"} gives ("Alice", 0), not the sentinel |
| `QuizLogic.GetRandomQuestions` | quiz_app/quiz_logic.py:30-31 | `count` defaults to 10; the result is `count` pairwise-distinct keys of `statements`; a ValueError comes back if and only if `count` is negative or larger than the number of statements |
| `Gui.AnswerOptionsAreLabels` | quiz_app/gui.py:9-15 | the five answer options are distinct, non-empty and contain no colon |
| `Gui.OptionKeysAreDistinct` | quiz_app/gui.py:9-15 | answers taken from the five options on different questions or with different labels give different answer node keys |
| `Gui.Decimal` | quiz_app/gui.py:231-233 | `str(n)` is a non-empty string of decimal digits with no leading zero |
| `Gui.DecimalRoundTrip` | quiz_app/gui.py:231-233 | reading the digits of `str(n)` back gives `n` |
| `Gui.AnsweredCount` | quiz_app/gui.py:244-246 | with distinct questions, after `k` steps the answers dictionary holds exactly `k` entries |
| `Gui.AnsweredAll` | quiz_app/gui.py:244-249 | when the index reaches the number of questions, the answered questions are exactly the questions |
| `Gui.QuizFrame.constructor` | quiz_app/gui.py:152-161 | a new frame has index 0, no answers, no selection and no completion call, and shows the first question with the label "Question 1 of n" |
| `Gui.QuizFrame.ShowQuestion` | quiz_app/gui.py:225-238 | shows the current question and "Question i+1 of n", clears the selection, and sets the button to "Finish ✓" on the last question; the index and the answers do not change |
| `Gui.QuizFrame.Select` | quiz_app/gui.py:201-212 | clicking a radio button selects that option and keeps the invariant |
| `Gui.QuizFrame.NextQuestion` | quiz_app/gui.py:240-251 | keeps the invariant (index in 0..n, answer keys exactly questions[0..index), answers from the five options, "Finish ✓" exactly from index n-1 on, completion called once with the answers exactly when the index is n); without a selection nothing changes; with one, the answer to the current question is set, every other answer is kept and the index grows by exactly 1; on the completing step the selection, the progress label, the question text and the button keep their values |

## Left out

- Loading the model, the graph and the CSV tables (`load_model_and_graph`,
  `load_statements`, `load_character_works`) is file I/O. The model, the
  graph's node sequence and the statements are parameters instead.
- The model is required to be well-formed: every stored vector has the
  declared length. A stored vector of another length makes numpy (the `+=`
  of an answer vector) or sklearn's `cosine_similarity` (a character vector)
  raise, and a one-element answer vector is broadcast silently into every
  component; neither case is modelled.
- sklearn's `cosine_similarity` is not computed. It is the parameter `cos`,
  and the lemmas that rely on its properties require `IsCosine`.
- Floating-point arithmetic is not modelled: vectors hold exact reals, so no
  rounding and no NaN.
- The randomness of `random.sample` is not modelled. `GetRandomQuestions`
  returns an arbitrary list of distinct keys.
- Question ids are strings. In the source an id from the CSV is formatted into
  the answer key by the f-string.
- All widget construction and layout (`WelcomeFrame`, `SettingsFrame`,
  `ResultFrame`, `QuizFrame.create_widgets`) is UI and is not modelled. The
  only state kept is the text that `show_question` writes and the button's
  initial "Next →".
- The progress bar's float value and the percentage in `ResultFrame` are
  float display and are not modelled.
- `ResultFrame.fetch_character_image` needs network access and image
  resizing, so it is not modelled.
- `quiz_app/main.py` (frame switching, the work lookup with an "Unknown"
  default) is not part of this model.
- Gui.QuizFrame.NextQuestion: requires an index below the number of
  questions. The source would raise IndexError on a call after completion,
  but `on_complete` (`QuizApp.show_result`) destroys the frame, so that call
  cannot happen.
- Gui.QuizFrame.constructor: requires at least one question and a statement
  for every question. The source would raise IndexError or KeyError
  otherwise, but the settings slider gives 5 to 30 questions and the
  questions are keys of the statements.
