# Electronics study chatbot: verified model of its dialogue core

The application is a small Flask chatbot for an electronics course. Its dialogue core lives in
`app.py` and has three parts:

- **The intent matcher `get_bot_response`.**
  - The user's text and every pattern of every intent are lower-cased and stripped.
  - The `(pattern, intent)` pairs are sorted longest pattern first by Python's stable sort.
  - The first pattern that equals the text, or that is longer than three characters and
    occurs inside the text, picks the intent the reply is drawn from at random.
  - With no such pattern, the reply comes from the intent tagged `noanswer`.
- **The quiz session.**
  - The record `quiz_state = {active, topic, index, score}` is updated by `start_quiz`
    (which begins a topic) and `answer_quiz` (which grades an answer "1" to "4").
  - `answer_quiz` advances to the next question, counts the right answers, and ends the quiz
    after the last question.
- **The text formatters.**
  - `format_question` lays a question out as numbered lines.
  - `list_quizzes` lists the topics in sorted order.

The Dafny modules follow that structure:

| module | file | contents |
|---|---|---|
| `Common` | Common.dfy | `Option` and `Result` |
| `Text` | Text.dfy | the Python string operations the core uses: `str.lower`, `str.strip`, the substring test `p in s`, `str(n)` for a natural number, and string order |
| `PatternIndex` | PatternIndex.dfy | pattern entries, the stable longest-first order, the first-hit scan, and the theorem that the scan over the sorted list finds the best hit of the unsorted list |
| `Matcher` | Matcher.dfy | intents, the pattern list, `get_bot_response` as a method with loops proved against the function `ReplyPool`, and the matcher's precedence properties |
| `QuizText` | QuizText.dfy | questions, `format_question`, and the `list_quizzes` menu |
| `Quiz` | Quiz.dfy | the quiz state and its invariant, `start_quiz` and `answer_quiz` as functions of the old state (`Start`, `Answer`), whole quiz runs, and the class `QuizSession`, whose methods update the four fields and are proved to match `Start` and `Answer` |

Modelling choices:

- **Random choice.** `random.choice(pool)` takes the random draw as a parameter `roll`, and
  picks `pool[roll % len(pool)]`. `PickReachesEveryResponse` shows that every response can be
  drawn.
- **Errors are results, not preconditions.**
  - `random.choice([])` raises IndexError. The model returns a `Failure`.
  - So do an empty question list in `start_quiz` and an out-of-range `answer_index` in
    `answer_quiz`. The model gives the reply `ServerError`, with the state exactly as Python
    leaves it.
  - In `start_quiz`, Python has already set the four fields when `questions[0]` fails.
  - In `answer_quiz`, nothing has been changed yet when either modelled lookup fails:
    `questions[idx]` or `choices[answer_index]`. Missing JSON fields are not modelled (see
    "Left out").
- **Preconditions.**
  - Loading the intent table with `next(...)` fails with StopIteration unless some intent is
    tagged `noanswer`. Only such tables reach the matcher, so `GetBotResponse` requires
    `HasNoAnswer`.
  - The quiz handlers (`Start`, `Answer`, `QuizSession.StartQuiz`, `QuizSession.AnswerQuiz`)
    require the session invariant `Valid`. The initial record satisfies it (`InitialValid`),
    and both handlers preserve it, so every reachable state meets it.
- **Python indexing.** `choices[answer_index]` follows Python, so a negative index counts from
  the end (`PyIndex`). As a consequence, a question with a negative `answer_index` can never
  be answered right (`NegativeAnswerIndexNeverCorrect`): the answer is compared with
  `int(ans) - 1`, which is at least 0. Yet a wrong answer reports `choices[answer_index]` as the
  right one (`NegativeAnswerIndexRun`).
- **Replies as lines.** A reply is a datatype that carries its lines. The final `"\n".join`
  and the emoji wording are not modelled.

## Model

| member | source | states |
|---|---|---|
| Matcher.GetBotResponse | app.py:21-48 | the method, with its nested append loops and early-return scan, returns exactly a random pick from `ReplyPool` for the lower-cased, stripped input |
| Matcher.ReplyFromBestHit | app.py:31-48 | with no hitting pattern the reply pool is the `noanswer` responses. When some pattern hits, a best hit exists: the longest hitting pattern, the earliest in table order among equals. The reply pool is then the responses of that pattern's intent |
| Matcher.ExactMatchWins | app.py:37-39 | an input equal to a pattern is answered by the intent owning the first such pattern; no longer pattern can take precedence |
| Matcher.ShortInputMatchesOnlyExactly | app.py:34-43 | an input of at most three characters equal to no non-empty pattern falls back to `noanswer`: an input of at most three characters is matched only by a non-empty pattern equal to it |
| Matcher.EmptyInputFallsBack | app.py:34-35 | a text that is empty or all whitespace gets the `noanswer` responses, whatever the table, because empty patterns are skipped |
| Matcher.SeriesPatternList | app.py:25-28 | for a table with patterns "series" and "series circuit" in two intents, the pattern list is exactly those two patterns, tagged with their intents |
| Matcher.LongerOverlappingPatternWins | app.py:30-43 | with patterns "series" and "series circuit" in two intents, the input "series circuit breaker", once lower-cased and stripped, is answered from the second intent |
| Matcher.ShortInputMissesLongerPattern | app.py:41-46 | "hi" is not answered by an intent whose only pattern is "high"; it gets the `noanswer` responses |
| Matcher.Pick | app.py:39-48 | `random.choice` succeeds exactly when the list is non-empty, and then returns one of its elements |
| Matcher.PickReachesEveryResponse | app.py:39 | every response of the list is the reply for some random draw |
| Matcher.NoAnswerIndex | app.py:18 | the fallback intent is the first intent tagged `noanswer` |
| Matcher.PatternList | app.py:25-28 | every entry of `pattern_list` names an intent of the table, and the entries come grouped by intent in table order |
| Matcher.PatternListContents | app.py:25-28 | `pattern_list` holds every pattern of every intent, lower-cased, stripped and paired with its intent, and nothing else |
| Matcher.SortedPatternList | app.py:31 | the sorted list still names only intents of the table |
| PatternIndex.LongestFirst | app.py:31 | the sort with `key=len, reverse=True` is a permutation in which no pattern is followed by a longer one |
| PatternIndex.FirstHitIsBestHit | app.py:31-43 | scanning the sorted list finds nothing exactly when no entry hits. Otherwise it stops at the best hit of the unsorted list: the longest hitting pattern, and among those of equal length the earliest (Python's sort is stable) |
| PatternIndex.FirstHitSpec | app.py:33-43 | the scan finds nothing exactly when no entry hits, else it stops at a hitting entry with no hitting entry before it |
| PatternIndex.BestHitUnique | app.py:31-43 | the best hit is unique, so the reply's intent is determined |
| Text.StripSpec | app.py:22 | `strip` (used on the input and, on line 28, on every pattern) keeps a contiguous piece of the text, removes only whitespace on either side, and leaves no whitespace at either end |
| Text.NormalizeSpec | app.py:22 | a lower-cased, stripped text has no ASCII capital and no whitespace at either end |
| Text.NormalizeIdempotent | app.py:22 | lower-casing and stripping twice gives what doing it once gives |
| Text.LowerSpec | app.py:22 | `lower` keeps the length, turns each ASCII capital into its small letter (code point + 32), leaves no ASCII capital, and changes no other character |
| Text.LowerCaseInsensitive | app.py:22 | two texts of equal length lower-case to the same text exactly when, position by position, their characters are equal or the same letter in different ASCII case |
| Text.NormalizeCaseInsensitive | app.py:22 | texts that differ only in ASCII case are lower-cased and stripped to the same text |
| Matcher.ReplyIgnoresCase | app.py:21-48 | texts that differ only in ASCII case ("Hello" and "hello") draw from the same reply pool, and get the same reply for the same random draw |
| Text.TrimStartSpec | app.py:22 | the leading-whitespace cut removes exactly the leading whitespace |
| Text.TrimEndSpec | app.py:22 | the trailing-whitespace cut removes exactly the trailing whitespace |
| Text.SubstringNoLonger | app.py:42 | a pattern that occurs in the input is no longer than the input |
| Text.NatToString | app.py:69-71 | the number printed by an f-string is a non-empty run of digits without a leading zero |
| Text.DecimalRoundTrip | app.py:141 | `int(str(n)) == n`, so answer "k" names choice number k |
| Text.StrLessStrictTotalOrder | app.py:93 | the string order `sorted` uses is irreflexive, transitive and total |
| QuizText.AppendEnumerated | app.py:70-71 | the `enumerate(..., start=1)` loop appends exactly the line "i. item" for each item in order, after the lines already there (also the topic loop of `list_quizzes`) |
| QuizText.QuestionLinesShape | app.py:68-73 | a formatted question is the header "Quiz (qnum/total)", the question, "i. choice" for each choice in order from 1, and the reply hint: `len(choices) + 3` lines |
| QuizText.FormatQuestion | app.py:68-73 | the method's loop builds exactly those lines |
| QuizText.SortedTopics | app.py:93 | `sorted(quiz_data.keys())` lists each topic exactly once, in strictly ascending order |
| QuizText.ListQuizzes | app.py:93-103 | with no topic the reply is the fixed notice. Otherwise the reply is the title, then "i. topic" for each sorted topic, then the usage line and the example; the topic list is returned as well |
| Quiz.ParseAnswer | app.py:131-141 | the answer is accepted exactly when it is "1", "2", "3" or "4", and then names the 0-based choice `int(ans) - 1` |
| Quiz.PyIndex | app.py:148 | Python list indexing is defined exactly for `-len <= i < len`, and then yields an element of the list: the one at `i` modulo `len` |
| Quiz.InitialValid | app.py:60-65 | the initial `quiz_state` satisfies the session invariant for every quiz table |
| Quiz.Start | app.py:105-122 | keeps the session invariant. An unknown topic leaves the state unchanged, with a fixed reply. A known topic (the default is `number_systems`) sets active, the topic, index 0 and score 0. The reply is question 1 of `len(questions)`, or the IndexError of an empty list |
| Quiz.Answer | app.py:125-163 | keeps the session invariant (`score <= index <= len(questions)`, and an inactive quiz has ended after its last question). With no active quiz, or an answer not in "1" to "4", the state is unchanged. A graded answer adds exactly 1 to `index`, and 1 to `score` exactly when it is right. The quiz ends exactly when the last question is answered; the final reply reports score and total, otherwise question `index + 1` follows. A wrong answer reports the right choice. For a valid answer, an IndexError occurs exactly when the topic has no question at `index` (`questions[idx]` on an empty topic), or the answer is wrong and the right choice cannot be looked up; either way the state is unchanged |
| Quiz.AnswerRestFinishes | app.py:141-159 | when every question of the topic has its `answer_index` within `-len(choices)` to `len(choices) - 1`, then from any point of an active quiz, answering each remaining question with "1" to "4" ends the quiz after the last question, with one more point per right answer |
| Quiz.QuizRunFinishes | app.py:105-159 | when every question's `answer_index` is within `-len(choices)` to `len(choices) - 1`, starting a topic and answering all its N questions with "1" to "4" leaves the quiz inactive at index N, with the number of right answers as the score |
| Quiz.CorrectAnswerIsNumberedChoice | app.py:141-144 | answer "k" (1 to 4) is graded right exactly when `answer_index` is k - 1 |
| Quiz.NegativeAnswerIndexNeverCorrect | app.py:141-144 | a question whose `answer_index` is negative is never graded right, whatever the answer |
| Quiz.NegativeAnswerIndexRun | app.py:141-158 | with `answer_index` -1 and choices a to d, "d" is printed as "4. d", but the answer "4" is graded wrong and "d" is reported as the right answer; the one-question quiz ends with score 0 of 1 |
| Quiz.TwoQuestionRun | app.py:105-163 | a two-question topic answered right then wrong: the second question follows the first answer, and the quiz finishes with score 1 of 2, inactive |
| Quiz.QuizSession.constructor | app.py:60-65 | the session starts inactive, with no topic, index 0 and score 0 |
| Quiz.QuizSession.StartQuiz | app.py:105-122 | updating the four fields in place leaves exactly the state, and gives exactly the reply, that `Start` specifies |
| Quiz.QuizSession.AnswerQuiz | app.py:125-163 | updating the fields in place leaves exactly the state, and gives exactly the reply, that `Answer` specifies |

## Left out

- Flask routing, `request.get_json` and `jsonify` are not modelled. The handlers take
  already-extracted arguments: `requested` is `None` when the request names no topic.
- Loading `intents.json` and `QUIZ.json` (file I/O and JSON parsing) is not modelled. The
  tables are parameters.
- Missing or wrong-typed JSON fields are not modelled. For example, a missing `q`,
  `choices`, `answer_index`, `explain` or `tag` key raises KeyError. A missing `explain` raises
  after `score += 1` (app.py:145-146), so that crash leaves a changed score. Other examples are a
  `topic` or `patterns` entry that is not a string, or an `answer_index` that is not an integer.
- The random number generator is not modelled. The draw is a parameter.
- The quiz state is one process-wide record shared by every user. The model has a single
  session and no concurrency.
- The exact feedback strings with their emoji, the "Quiz started!" prefix, and the final
  `"\n".join` are not modelled. Replies are datatypes carrying their lines, and feedback is
  correct/incorrect plus the explanation.
- The browser script `static/chat.js` is not part of this model: user interface, network calls
  and canvas drawing.
- Text.LowerSpec: Python's `str.lower` lower-cases all of Unicode; the model lower-cases only the
  ASCII letters A to Z.
- PatternIndex.LongestFirst: Timsort itself is not modelled. The sort is the stable order it
  produces: longest first, original order among equal lengths. That stability is stated
  through `FirstHitIsBestHit`, not as an ensures of `LongestFirst`.
- The opening message in `static/chat.js` advertises "/quiz" to list categories, a number
  after "/quiz", and "/clear" to reset the quiz. `app.py` has no such command handling, and
  the model follows `app.py`.
  Likewise, matching is the raw substring test of `app.py`, with no word boundaries, and the
  only length rule is the "longer than three characters" rule for substring hits.
