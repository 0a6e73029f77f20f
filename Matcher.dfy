/** The intent matcher `get_bot_response`: the user's text is lower-cased and stripped, every
    pattern of every intent goes into one list, the list is sorted longest pattern first, and
    the first pattern that equals the text, or (when longer than three characters) occurs in
    it, decides the intent whose responses the reply is drawn from; with no such pattern the
    reply comes from the `noanswer` intent. */
module Matcher {
  import opened Common
  import opened Text
  import opened PatternIndex

  /** One intent of the intent table. `patterns` is empty when the intent has no "patterns"
      key; `responses` is `None` when it has no "responses" key. */
  datatype Intent = Intent(tag: string, patterns: seq<string>, responses: Option<seq<string>>)

  const NoAnswerTag: string := "noanswer"

  /** The reply used when the `noanswer` intent has no "responses" key at all. */
  const DefaultFallback: string := "Sorry, I didn't understand that."

  /** `random.choice` on an empty list raises IndexError; the matcher does not catch it. */
  datatype ChoiceError = EmptyResponseList

  /** The intent table the application can load at all: `next(...)` finds a `noanswer`
      intent, otherwise loading raises StopIteration before any request is served. */
  predicate HasNoAnswer(intents: seq<Intent>) {
    exists k :: 0 <= k < |intents| && intents[k].tag == NoAnswerTag
  }

  /** The position of the first intent tagged `noanswer`: the fallback intent. */
  function NoAnswerIndex(intents: seq<Intent>): (k: nat)
    requires HasNoAnswer(intents)
    ensures k < |intents| && intents[k].tag == NoAnswerTag
    ensures forall j :: 0 <= j < k ==> intents[j].tag != NoAnswerTag
  {
    if intents[0].tag == NoAnswerTag then 0
    else
      var k :| 0 <= k < |intents| && intents[k].tag == NoAnswerTag;
      assert intents[1..][k - 1].tag == NoAnswerTag;
      var r := 1 + NoAnswerIndex(intents[1..]);
      assert forall j :: 0 < j < |intents| ==> intents[j] == intents[1..][j - 1];
      r
  }

  /** What a hit on an intent draws from: `intent.get("responses", [])`. */
  function Responses(intent: Intent): seq<string> {
    intent.responses.GetOr([])
  }

  /** What a miss draws from: `noanswer_intent.get("responses", [DefaultFallback])`. */
  function FallbackResponses(intents: seq<Intent>): seq<string>
    requires HasNoAnswer(intents)
  {
    intents[NoAnswerIndex(intents)].responses.GetOr([DefaultFallback])
  }

  // ---------------------------------------------------------------------------
  // The pattern list.
  // ---------------------------------------------------------------------------

  /** The entries intent number `k` contributes: each of its patterns, normalised, in order. */
  function OwnEntries(intent: Intent, k: nat): seq<Entry> {
    seq(|intent.patterns|, j requires 0 <= j < |intent.patterns| => Entry(Normalize(intent.patterns[j]), k))
  }

  /** The pattern list after the loops have visited the first `n` intents. */
  function EntriesOf(intents: seq<Intent>, n: nat): seq<Entry>
    requires n <= |intents|
  {
    if n == 0 then [] else EntriesOf(intents, n - 1) + OwnEntries(intents[n - 1], n - 1)
  }

  /** `pattern_list` before sorting: every entry names a real intent, and the entries come
      grouped by intent, in table order. */
  function PatternList(intents: seq<Intent>): (r: seq<Entry>)
    ensures forall i :: 0 <= i < |r| ==> r[i].owner < |intents|
    ensures forall i, j :: 0 <= i < j < |r| ==> r[i].owner <= r[j].owner
  {
    EntriesOfOwners(intents, |intents|);
    EntriesOf(intents, |intents|)
  }

  lemma {:induction false} EntriesOfOwners(intents: seq<Intent>, n: nat)
    requires n <= |intents|
    ensures forall i :: 0 <= i < |EntriesOf(intents, n)| ==> EntriesOf(intents, n)[i].owner < n
    ensures forall i, j :: 0 <= i < j < |EntriesOf(intents, n)| ==>
              EntriesOf(intents, n)[i].owner <= EntriesOf(intents, n)[j].owner
  {
    if n > 0 {
      EntriesOfOwners(intents, n - 1);
      var before := EntriesOf(intents, n - 1);
      var own := OwnEntries(intents[n - 1], n - 1);
      var all := before + own;
      assert EntriesOf(intents, n) == all;
      assert forall i :: |before| <= i < |all| ==> all[i] == own[i - |before|];
      assert forall i :: 0 <= i < |before| ==> all[i] == before[i];
    }
  }

  /** Every pattern of the first `n` intents is in the list, normalised and tagged with its
      intent. */
  lemma {:induction false} EntriesOfComplete(intents: seq<Intent>, n: nat, k: nat, j: nat)
    requires k < n <= |intents| && j < |intents[k].patterns|
    ensures Entry(Normalize(intents[k].patterns[j]), k) in EntriesOf(intents, n)
  {
    var own := OwnEntries(intents[n - 1], n - 1);
    assert EntriesOf(intents, n) == EntriesOf(intents, n - 1) + own;
    if k == n - 1 {
      assert own[j] == Entry(Normalize(intents[k].patterns[j]), k);
    } else {
      EntriesOfComplete(intents, n - 1, k, j);
    }
  }

  /** Every entry of the list is a normalised pattern of the intent it names. */
  lemma {:induction false} EntriesOfSound(intents: seq<Intent>, n: nat, e: Entry)
    requires n <= |intents| && e in EntriesOf(intents, n)
    ensures e.owner < n
    ensures exists j :: 0 <= j < |intents[e.owner].patterns| && e.pattern == Normalize(intents[e.owner].patterns[j])
  {
    var own := OwnEntries(intents[n - 1], n - 1);
    assert EntriesOf(intents, n) == EntriesOf(intents, n - 1) + own;
    if e in own {
      var j :| 0 <= j < |own| && own[j] == e;
      assert e.pattern == Normalize(intents[n - 1].patterns[j]);
    } else {
      EntriesOfSound(intents, n - 1, e);
    }
  }

  /** The pattern list flattens the patterns of all intents: it holds every pattern of every
      intent, normalised and tagged with its intent, and nothing else. */
  lemma PatternListContents(intents: seq<Intent>)
    ensures forall k, j :: 0 <= k < |intents| && 0 <= j < |intents[k].patterns| ==>
              Entry(Normalize(intents[k].patterns[j]), k) in PatternList(intents)
    ensures forall e :: e in PatternList(intents) ==>
              e.owner < |intents| &&
              exists j :: 0 <= j < |intents[e.owner].patterns| && e.pattern == Normalize(intents[e.owner].patterns[j])
  {
    forall k, j | 0 <= k < |intents| && 0 <= j < |intents[k].patterns|
      ensures Entry(Normalize(intents[k].patterns[j]), k) in PatternList(intents)
    {
      EntriesOfComplete(intents, |intents|, k, j);
    }
    forall e | e in PatternList(intents)
      ensures e.owner < |intents| &&
              exists j :: 0 <= j < |intents[e.owner].patterns| && e.pattern == Normalize(intents[e.owner].patterns[j])
    {
      EntriesOfSound(intents, |intents|, e);
    }
  }

  /** `pattern_list` after `sort`: longest pattern first, stable. */
  function SortedPatternList(intents: seq<Intent>): (r: seq<Entry>)
    ensures forall i :: 0 <= i < |r| ==> r[i].owner < |intents|
  {
    var es := PatternList(intents);
    var r := LongestFirst(es);
    assert forall i :: 0 <= i < |r| ==> r[i] in multiset(es);
    r
  }

  // ---------------------------------------------------------------------------
  // The reply.
  // ---------------------------------------------------------------------------

  /** The list the reply is drawn from, for the normalised input. */
  function ReplyPool(intents: seq<Intent>, input: string): seq<string>
    requires HasNoAnswer(intents)
  {
    var sorted := SortedPatternList(intents);
    FirstHitSpec(sorted, input);
    match FirstHit(sorted, input)
    case Some(e) => Responses(intents[e.owner])
    case None => FallbackResponses(intents)
  }

  /** `random.choice(pool)`, with the random number drawn as `roll`: an element of the pool,
      and an error exactly when the pool is empty. */
  function Pick(pool: seq<string>, roll: nat): (r: Result<string, ChoiceError>)
    ensures r.Success? <==> pool != []
    ensures r.Success? ==> r.value in pool
  {
    if pool == [] then Failure(EmptyResponseList) else Success(pool[roll % |pool|])
  }

  /** Every response of the pool is the reply for some random draw. */
  lemma PickReachesEveryResponse(pool: seq<string>, x: string)
    requires x in pool
    ensures exists roll: nat :: Pick(pool, roll) == Success(x)
  {
    var i :| 0 <= i < |pool| && pool[i] == x;
    assert i % |pool| == i;
    assert Pick(pool, i) == Success(x);
  }

  /** `get_bot_response(user_text)`, with the random draw passed in as `roll`. */
  method GetBotResponse(intents: seq<Intent>, userText: string, roll: nat) returns (r: Result<string, ChoiceError>)
    requires HasNoAnswer(intents)
    ensures r == Pick(ReplyPool(intents, Normalize(userText)), roll)
  {
    var text := Normalize(userText);
    var patternList: seq<Entry> := [];
    for k := 0 to |intents|
      invariant patternList == EntriesOf(intents, k)
    {
      var patterns := intents[k].patterns;
      for j := 0 to |patterns|
        invariant patternList == EntriesOf(intents, k) + OwnEntries(intents[k], k)[..j]
      {
        patternList := patternList + [Entry(Normalize(patterns[j]), k)];
      }
      assert OwnEntries(intents[k], k)[..|patterns|] == OwnEntries(intents[k], k);
    }
    var sorted := LongestFirst(patternList);
    assert sorted == SortedPatternList(intents);
    FirstHitSpec(sorted, text);
    var i := 0;
    while i < |sorted|
      invariant 0 <= i <= |sorted|
      invariant forall m :: 0 <= m < i ==> !Hits(sorted[m], text)
    {
      var e := sorted[i];
      if e.pattern == [] {
        i := i + 1;
        continue;
      }
      if text == e.pattern {
        return Pick(Responses(intents[e.owner]), roll);
      }
      if |e.pattern| > 3 && IsSubstring(e.pattern, text) {
        return Pick(Responses(intents[e.owner]), roll);
      }
      i := i + 1;
    }
    return Pick(FallbackResponses(intents), roll);
  }

  // ---------------------------------------------------------------------------
  // What the reply is, without the sort.
  // ---------------------------------------------------------------------------

  /** The reply comes from the intent owning the best hitting pattern: the longest pattern
      that hits, and among the longest the first in table order (an intent earlier in the
      table, or an earlier pattern of the same intent). With no hit it is a fallback reply. */
  lemma ReplyFromBestHit(intents: seq<Intent>, input: string)
    requires HasNoAnswer(intents)
    ensures (forall j :: 0 <= j < |PatternList(intents)| ==> !Hits(PatternList(intents)[j], input))
            ==> ReplyPool(intents, input) == FallbackResponses(intents)
    ensures (exists j :: 0 <= j < |PatternList(intents)| && Hits(PatternList(intents)[j], input))
            ==> exists i :: IsBestHit(PatternList(intents), input, i)
    ensures forall i :: IsBestHit(PatternList(intents), input, i) ==>
              ReplyPool(intents, input) == Responses(intents[PatternList(intents)[i].owner])
  {
    var es := PatternList(intents);
    FirstHitIsBestHit(es, input);
    forall i | IsBestHit(es, input, i)
      ensures ReplyPool(intents, input) == Responses(intents[es[i].owner])
    {
      var k :| IsBestHit(es, input, k) && es[k] == FirstHit(LongestFirst(es), input).value;
      BestHitUnique(es, input, i, k);
    }
  }

  lemma SubstringSameLength(p: string, s: string)
    requires IsSubstring(p, s) && |p| == |s|
    ensures p == s
  {
    var k :| 0 <= k <= |s| - |p| && OccursAt(p, s, k);
    assert s[0..|s|] == s;
  }

  /** An input equal to a pattern is answered by the intent owning the first entry with that
      pattern: no pattern can beat an exact match, since a longer one cannot occur in it. */
  lemma ExactMatchWins(intents: seq<Intent>, input: string, i: int)
    requires HasNoAnswer(intents)
    requires 0 <= i < |PatternList(intents)| && PatternList(intents)[i].pattern == input && input != []
    requires forall j :: 0 <= j < i ==> PatternList(intents)[j].pattern != input
    ensures ReplyPool(intents, input) == Responses(intents[PatternList(intents)[i].owner])
  {
    var es := PatternList(intents);
    forall j | 0 <= j < |es| && Hits(es[j], input)
      ensures |es[j].pattern| < |es[i].pattern| || (|es[j].pattern| == |es[i].pattern| && i <= j)
    {
      if es[j].pattern != input {
        SubstringNoLonger(es[j].pattern, input);
        if |es[j].pattern| == |input| {
          SubstringSameLength(es[j].pattern, input);
        }
      }
    }
    assert IsBestHit(es, input, i);
    ReplyFromBestHit(intents, input);
  }

  /** An input of at most three characters is matched only by a non-empty pattern equal to
      it: if no non-empty pattern equals it, the reply is a fallback reply (so "hi" never hits
      "high"). */
  lemma ShortInputMatchesOnlyExactly(intents: seq<Intent>, input: string)
    requires HasNoAnswer(intents)
    requires |input| <= 3
    requires forall j :: 0 <= j < |PatternList(intents)| && PatternList(intents)[j].pattern != [] ==>
               PatternList(intents)[j].pattern != input
    ensures ReplyPool(intents, input) == FallbackResponses(intents)
  {
    var es := PatternList(intents);
    forall j | 0 <= j < |es| ensures !Hits(es[j], input) {
      if Hits(es[j], input) {
        SubstringNoLonger(es[j].pattern, input);
      }
    }
    ReplyFromBestHit(intents, input);
  }

  /** An empty pattern never matches, not even an empty input: a text that is empty or all
      whitespace gets a fallback reply, whatever the intent table. */
  lemma EmptyInputFallsBack(intents: seq<Intent>, userText: string)
    requires HasNoAnswer(intents)
    requires Normalize(userText) == []
    ensures ReplyPool(intents, Normalize(userText)) == FallbackResponses(intents)
  {
    ShortInputMatchesOnlyExactly(intents, Normalize(userText));
  }

  /** Matching ignores ASCII case: texts that differ only in case ("Hello" and "hello") draw
      from the same reply pool, and so get the same reply for the same random draw. */
  lemma ReplyIgnoresCase(intents: seq<Intent>, s: string, t: string, roll: nat)
    requires HasNoAnswer(intents)
    requires |s| == |t| && forall i :: 0 <= i < |s| ==> SameUpToCase(s[i], t[i])
    ensures ReplyPool(intents, Normalize(s)) == ReplyPool(intents, Normalize(t))
    ensures Pick(ReplyPool(intents, Normalize(s)), roll) == Pick(ReplyPool(intents, Normalize(t)), roll)
  {
    NormalizeCaseInsensitive(s, t);
  }

  // ---------------------------------------------------------------------------
  // Two concrete tables.
  // ---------------------------------------------------------------------------

  /** A pattern already in lower case with no surrounding whitespace is its own normal form. */
  lemma NormalizePlain(p: string)
    requires p != [] && NoCapitals(p) && !IsSpace(p[0]) && !IsSpace(p[|p| - 1])
    ensures Normalize(p) == p
  {
    LowerNoCapitals(p);
  }

  /** A table with overlapping patterns "series" and "series circuit" in two intents. */
  const SeriesTable: seq<Intent> := [Intent("series", ["series"], Some(["S"])),
                                     Intent("series_circuit", ["series circuit"], Some(["C"])),
                                     Intent(NoAnswerTag, [], Some(["?"]))]

  lemma SeriesPatternList()
    ensures HasNoAnswer(SeriesTable)
    ensures PatternList(SeriesTable) == [Entry("series", 0), Entry("series circuit", 1)]
  {
    var intents := SeriesTable;
    assert intents[2].tag == NoAnswerTag;
    NormalizePlain("series");
    NormalizePlain("series circuit");
    assert OwnEntries(intents[0], 0) == [Entry("series", 0)];
    assert OwnEntries(intents[1], 1) == [Entry("series circuit", 1)];
    assert OwnEntries(intents[2], 2) == [];
    assert EntriesOf(intents, 1) == [Entry("series", 0)];
    assert EntriesOf(intents, 2) == [Entry("series", 0), Entry("series circuit", 1)];
  }

  /** The input "series circuit breaker" contains both overlapping patterns, and the longer
      one decides the reply. */
  lemma LongerOverlappingPatternWins()
    ensures HasNoAnswer(SeriesTable)
    ensures ReplyPool(SeriesTable, Normalize("series circuit breaker")) == ["C"]
  {
    var input := "series circuit breaker";
    NormalizePlain(input);
    SeriesPatternList();
    var es := PatternList(SeriesTable);
    assert OccursAt("series circuit", input, 0);
    assert Hits(es[1], input);
    assert IsBestHit(es, input, 1);
    ReplyFromBestHit(SeriesTable, input);
  }

  /** The input "hi" is not answered by an intent whose only pattern is "high". */
  lemma ShortInputMissesLongerPattern()
    ensures var intents := [Intent("high", ["high"], Some(["H"])), Intent(NoAnswerTag, [], Some(["?"]))];
            HasNoAnswer(intents) && ReplyPool(intents, Normalize("hi")) == ["?"]
  {
    var intents := [Intent("high", ["high"], Some(["H"])), Intent(NoAnswerTag, [], Some(["?"]))];
    assert intents[1].tag == NoAnswerTag;
    NormalizePlain("high");
    NormalizePlain("hi");
    assert OwnEntries(intents[0], 0) == [Entry("high", 0)];
    assert OwnEntries(intents[1], 1) == [];
    assert EntriesOf(intents, 1) == [Entry("high", 0)];
    assert PatternList(intents) == [Entry("high", 0)];
    ShortInputMatchesOnlyExactly(intents, "hi");
    assert NoAnswerIndex(intents) == 1;
  }
}
