/** The quiz data and the text built from it: `format_question`, which lays one question out
    as numbered lines, and the menu of `list_quizzes`, which lists the topics in sorted order. */
module QuizText {
  import opened Text

  /** One quiz question: its text, its choices, the position of the right choice (any JSON
      integer; Python reads a negative one from the end of `choices`), and the explanation. */
  datatype Question = Question(q: string, choices: seq<string>, answerIndex: int, explain: string)

  /** The quiz table: topic name to its questions. */
  type QuizTable = map<string, seq<Question>>

  const ReplyHint: string := "Reply with 1, 2, 3, or 4."

  /** The line `f"{i}. {item}"`. */
  function Numbered(i: nat, item: string): string {
    NatToString(i) + ". " + item
  }

  /** `f"{i}. {item}"` for each item, numbered from `start`: the lines of
      `for i, c in enumerate(items, start=start)`. */
  function Enumerated(items: seq<string>, start: nat): seq<string> {
    if items == [] then [] else [Numbered(start, items[0])] + Enumerated(items[1..], start + 1)
  }

  /** Line `i` of the enumeration is item `i` numbered `start + i`. */
  lemma {:induction false} EnumeratedAt(items: seq<string>, start: nat, i: nat)
    requires i < |items|
    ensures |Enumerated(items, start)| == |items|
    ensures Enumerated(items, start)[i] == Numbered(start + i, items[i])
  {
    EnumeratedLength(items, start);
    if i > 0 {
      EnumeratedAt(items[1..], start + 1, i - 1);
    }
  }

  lemma {:induction false} EnumeratedLength(items: seq<string>, start: nat)
    ensures |Enumerated(items, start)| == |items|
  {
    if items != [] {
      EnumeratedLength(items[1..], start + 1);
    }
  }

  /** Enumerating one more item appends one more numbered line. */
  lemma {:induction false} EnumeratedSnoc(items: seq<string>, start: nat, x: string)
    ensures Enumerated(items + [x], start) == Enumerated(items, start) + [Numbered(start + |items|, x)]
  {
    if items == [] {
      assert Enumerated([x], start) == [Numbered(start, x)] + Enumerated([], start + 1);
    } else {
      assert (items + [x])[1..] == items[1..] + [x];
      EnumeratedSnoc(items[1..], start + 1, x);
    }
  }

  /** Appends `f"{i}. {item}"` for every item, numbered from 1: the loop both formatters run. */
  method AppendEnumerated(lines: seq<string>, items: seq<string>) returns (out: seq<string>)
    ensures |out| == |lines| + |items|
    ensures out[..|lines|] == lines
    ensures forall i :: 0 <= i < |items| ==> out[|lines| + i] == Numbered(i + 1, items[i])
    ensures out == lines + Enumerated(items, 1)
  {
    out := lines;
    for i := 0 to |items|
      invariant out == lines + Enumerated(items[..i], 1)
    {
      EnumeratedSnoc(items[..i], 1, items[i]);
      assert items[..i + 1] == items[..i] + [items[i]];
      out := out + [Numbered(i + 1, items[i])];
    }
    assert items[..|items|] == items;
    EnumeratedLength(items, 1);
    forall i | 0 <= i < |items| ensures out[|lines| + i] == Numbered(i + 1, items[i]) {
      EnumeratedAt(items, 1, i);
    }
  }

  // ---------------------------------------------------------------------------
  // format_question
  // ---------------------------------------------------------------------------

  /** The first line of a formatted question: `f"Quiz ({qnum}/{total})"`. */
  function QuizHeader(qnum: nat, total: nat): string {
    "Quiz (" + NatToString(qnum) + "/" + NatToString(total) + ")"
  }

  /** The lines of `format_question(q, qnum, total)`, before they are joined. */
  function QuestionLines(q: Question, qnum: nat, total: nat): seq<string> {
    [QuizHeader(qnum, total), q.q] + Enumerated(q.choices, 1) + [ReplyHint]
  }

  /** A formatted question is the header, the question, one numbered line per choice in
      order, and the reply hint: `len(choices) + 3` lines. */
  lemma QuestionLinesShape(q: Question, qnum: nat, total: nat)
    ensures |QuestionLines(q, qnum, total)| == |q.choices| + 3
    ensures QuestionLines(q, qnum, total)[0] == QuizHeader(qnum, total)
    ensures QuestionLines(q, qnum, total)[1] == q.q
    ensures forall i :: 0 <= i < |q.choices| ==> QuestionLines(q, qnum, total)[i + 2] == Numbered(i + 1, q.choices[i])
    ensures QuestionLines(q, qnum, total)[|q.choices| + 2] == ReplyHint
  {
    EnumeratedLength(q.choices, 1);
    forall i | 0 <= i < |q.choices|
      ensures QuestionLines(q, qnum, total)[i + 2] == Numbered(i + 1, q.choices[i])
    {
      EnumeratedAt(q.choices, 1, i);
    }
  }

  /** `format_question(qobj, qnum, total)`, as its list of lines. */
  method FormatQuestion(q: Question, qnum: nat, total: nat) returns (lines: seq<string>)
    ensures lines == QuestionLines(q, qnum, total)
  {
    lines := [QuizHeader(qnum, total), q.q];
    lines := AppendEnumerated(lines, q.choices);
    lines := lines + [ReplyHint];
  }

  // ---------------------------------------------------------------------------
  // list_quizzes
  // ---------------------------------------------------------------------------

  /** `s` is the least element of `keys` in Python's string order. */
  predicate IsLeast(s: string, keys: set<string>) {
    s in keys && forall t :: t in keys ==> s == t || StrLess(s, t)
  }

  lemma {:induction false} LeastExists(keys: set<string>)
    requires keys != {}
    ensures exists s :: IsLeast(s, keys)
    decreases |keys|
  {
    var x :| x in keys;
    if keys != {x} {
      LeastExists(keys - {x});
      var m :| IsLeast(m, keys - {x});
      StrLessStrictTotalOrder();
      if StrLess(x, m) {
        forall t | t in keys ensures x == t || StrLess(x, t) {
          if t != x && t != m {
            StrLessTransitive(x, m, t);
          }
        }
        assert IsLeast(x, keys);
      } else {
        assert IsLeast(m, keys);
      }
    } else {
      assert IsLeast(x, keys);
    }
  }

  /** `sorted(quiz_data.keys())`: the topics in strictly ascending order, each exactly once. */
  function SortedTopics(keys: set<string>): (r: seq<string>)
    ensures |r| == |keys|
    ensures forall t :: t in r <==> t in keys
    ensures forall i, j :: 0 <= i < j < |r| ==> StrLess(r[i], r[j])
    decreases |keys|
  {
    if keys == {} then []
    else
      LeastExists(keys);
      StrLessStrictTotalOrder();
      var m :| IsLeast(m, keys);
      var rest := SortedTopics(keys - {m});
      assert forall j :: 0 <= j < |rest| ==> rest[j] in keys - {m};
      [m] + rest
  }

  const MenuTitle: string := "Available quizzes:"
  const MenuUsage: string := "\nType: quiz <topic>"
  const MenuExample: string := "Example: quiz number_systems"

  /** The reply of `list_quizzes`. */
  datatype MenuReply =
    | NoQuizzesAvailable                            // "No quizzes available right now."
    | QuizMenu(lines: seq<string>, topics: seq<string>)

  /** `list_quizzes()`: with no topic a fixed notice; otherwise the title, the sorted topics
      numbered from 1, and two lines of usage, together with the sorted topic list. */
  method ListQuizzes(quiz: QuizTable) returns (reply: MenuReply)
    ensures reply.NoQuizzesAvailable? <==> quiz == map[]
    ensures reply.QuizMenu? ==> reply.topics == SortedTopics(quiz.Keys)
    ensures reply.QuizMenu? ==>
              && |reply.lines| == |reply.topics| + 3
              && reply.lines[0] == MenuTitle
              && (forall i :: 0 <= i < |reply.topics| ==> reply.lines[i + 1] == Numbered(i + 1, reply.topics[i]))
              && reply.lines[|reply.topics| + 1] == MenuUsage
              && reply.lines[|reply.topics| + 2] == MenuExample
  {
    var topics := SortedTopics(quiz.Keys);
    if topics == [] {
      assert quiz.Keys == {};
      return NoQuizzesAvailable;
    }
    var lines := AppendEnumerated([MenuTitle], topics);
    lines := lines + [MenuUsage];
    lines := lines + [MenuExample];
    return QuizMenu(lines, topics);
  }
}
