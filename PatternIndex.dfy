/** The pattern index of the intent matcher: a flat list of (normalised pattern, owning intent)
    entries, put in longest-first order by a stable sort, and the scan for the first entry that
    hits the user's text. The main result, `FirstHitIsBestHit`, says what that scan finds
    without mentioning the sort: the longest hitting pattern, the earliest one among equals. */
module PatternIndex {
  import opened Common
  import opened Text

  /** One pattern of one intent, already lower-cased and stripped; `owner` is the position of
      the intent in the intent table. */
  datatype Entry = Entry(pattern: string, owner: nat)

  /** Whether the scan stops at entry `e` for the normalised input: an empty pattern is
      skipped; otherwise the pattern hits when it equals the input, or when it is longer than
      three characters and occurs inside the input. */
  predicate Hits(e: Entry, input: string) {
    e.pattern != [] && (input == e.pattern || (|e.pattern| > 3 && IsSubstring(e.pattern, input)))
  }

  // ---------------------------------------------------------------------------
  // The order: `pattern_list.sort(key=lambda x: len(x[0]), reverse=True)`.
  // Python's sort is stable, also with reverse=True, so the result is the entries of the
  // greatest length in their original order, then those one character shorter, and so on.
  // ---------------------------------------------------------------------------

  /** The entries whose pattern has exactly `n` characters, in their original order. */
  function Bucket(es: seq<Entry>, n: nat): (r: seq<Entry>)
  {
    if es == [] then []
    else (if |es[0].pattern| == n then [es[0]] else []) + Bucket(es[1..], n)
  }

  lemma {:induction false} BucketLengths(es: seq<Entry>, n: nat)
    ensures forall i :: 0 <= i < |Bucket(es, n)| ==> |Bucket(es, n)[i].pattern| == n
  {
    if es != [] {
      BucketLengths(es[1..], n);
    }
  }

  /** The buckets of lengths `n`, `n - 1`, ..., `0`, in that order. */
  function Buckets(es: seq<Entry>, n: nat): (r: seq<Entry>)
  {
    if n == 0 then Bucket(es, 0) else Bucket(es, n) + Buckets(es, n - 1)
  }

  /** The length of the longest pattern in `es`. */
  function MaxLength(es: seq<Entry>): (m: nat)
    ensures forall i :: 0 <= i < |es| ==> |es[i].pattern| <= m
  {
    if es == [] then 0
    else if |es[0].pattern| >= MaxLength(es[1..]) then |es[0].pattern|
    else MaxLength(es[1..])
  }

  /** The entries whose pattern has at most `n` characters, in their original order. */
  function AtMost(es: seq<Entry>, n: nat): seq<Entry> {
    if es == [] then []
    else (if |es[0].pattern| <= n then [es[0]] else []) + AtMost(es[1..], n)
  }

  /** The stable longest-first sort: a permutation of `es` in which no pattern is followed by
      a longer one. */
  function LongestFirst(es: seq<Entry>): (r: seq<Entry>)
    ensures multiset(r) == multiset(es)
    ensures forall i, j :: 0 <= i < j < |r| ==> |r[i].pattern| >= |r[j].pattern|
  {
    var m := MaxLength(es);
    BucketsPermutation(es, m);
    AtMostAll(es, m);
    BucketsDescending(es, m);
    Buckets(es, m)
  }

  lemma {:induction false} AtMostSplit(es: seq<Entry>, n: nat)
    requires n > 0
    ensures multiset(AtMost(es, n)) == multiset(Bucket(es, n)) + multiset(AtMost(es, n - 1))
  {
    if es != [] {
      AtMostSplit(es[1..], n);
    }
  }

  lemma {:induction false} AtMostZero(es: seq<Entry>)
    ensures AtMost(es, 0) == Bucket(es, 0)
  {
    if es != [] {
      AtMostZero(es[1..]);
    }
  }

  lemma {:induction false} AtMostAll(es: seq<Entry>, n: nat)
    requires forall i :: 0 <= i < |es| ==> |es[i].pattern| <= n
    ensures AtMost(es, n) == es
  {
    if es != [] {
      AtMostAll(es[1..], n);
      assert es == [es[0]] + es[1..];
    }
  }

  lemma {:induction false} BucketsPermutation(es: seq<Entry>, n: nat)
    ensures multiset(Buckets(es, n)) == multiset(AtMost(es, n))
  {
    if n == 0 {
      AtMostZero(es);
    } else {
      BucketsPermutation(es, n - 1);
      AtMostSplit(es, n);
      assert Buckets(es, n) == Bucket(es, n) + Buckets(es, n - 1);
      assert multiset(Buckets(es, n)) == multiset(Bucket(es, n)) + multiset(Buckets(es, n - 1));
    }
  }

  lemma {:induction false} BucketsLengths(es: seq<Entry>, n: nat)
    ensures forall i :: 0 <= i < |Buckets(es, n)| ==> |Buckets(es, n)[i].pattern| <= n
  {
    BucketLengths(es, n);
    if n > 0 {
      BucketsLengths(es, n - 1);
      var b: seq<Entry> := Bucket(es, n);
      var rest: seq<Entry> := Buckets(es, n - 1);
      assert Buckets(es, n) == b + rest;
      assert forall i :: |b| <= i < |b + rest| ==> (b + rest)[i] == rest[i - |b|];
    }
  }

  lemma {:induction false} BucketsDescending(es: seq<Entry>, n: nat)
    ensures forall i, j :: 0 <= i < j < |Buckets(es, n)| ==>
              |Buckets(es, n)[i].pattern| >= |Buckets(es, n)[j].pattern|
  {
    BucketLengths(es, n);
    if n > 0 {
      BucketsDescending(es, n - 1);
      BucketsLengths(es, n - 1);
      var b: seq<Entry> := Bucket(es, n);
      var rest: seq<Entry> := Buckets(es, n - 1);
      var s: seq<Entry> := b + rest;
      assert Buckets(es, n) == s;
      forall i: int, j: int | 0 <= i < j < |s|
        ensures |s[i].pattern| >= |s[j].pattern|
      {
        if j >= |b| {
          assert s[j] == rest[j - |b|];
          if i >= |b| {
            assert s[i] == rest[i - |b|];
          }
        }
      }
    }
  }

  // ---------------------------------------------------------------------------
  // The scan: the first entry, in list order, that hits.
  // ---------------------------------------------------------------------------

  /** The entry the scan stops at: the first one in `es` that hits, if any. */
  function FirstHit(es: seq<Entry>, input: string): Option<Entry> {
    if es == [] then None
    else if Hits(es[0], input) then Some(es[0])
    else FirstHit(es[1..], input)
  }

  /** The scan finds nothing exactly when no entry hits, and otherwise stops at a hitting
      entry with no hitting entry before it. */
  lemma {:induction false} FirstHitSpec(es: seq<Entry>, input: string)
    ensures FirstHit(es, input).None? <==> forall i :: 0 <= i < |es| ==> !Hits(es[i], input)
    ensures FirstHit(es, input).Some? ==>
              exists i :: 0 <= i < |es| && es[i] == FirstHit(es, input).value && Hits(es[i], input)
                          && forall j :: 0 <= j < i ==> !Hits(es[j], input)
  {
    if es != [] && !Hits(es[0], input) {
      FirstHitSpec(es[1..], input);
      assert forall i :: 0 < i < |es| ==> es[i] == es[1..][i - 1];
      if FirstHit(es, input).Some? {
        var i :| 0 <= i < |es[1..]| && es[1..][i] == FirstHit(es, input).value && Hits(es[1..][i], input)
                 && forall j :: 0 <= j < i ==> !Hits(es[1..][j], input);
        assert es[i + 1] == es[1..][i];
      }
    }
  }

  lemma {:induction false} FirstHitAppend(a: seq<Entry>, b: seq<Entry>, input: string)
    ensures FirstHit(a + b, input) == if FirstHit(a, input).Some? then FirstHit(a, input) else FirstHit(b, input)
  {
    if a != [] {
      assert (a + b)[1..] == a[1..] + b;
      FirstHitAppend(a[1..], b, input);
    } else {
      assert a + b == b;
    }
  }

  /** In the bucket of length `n`, the scan finds the earliest hitting entry of that length. */
  lemma {:induction false} BucketFirstHit(es: seq<Entry>, n: nat, input: string)
    ensures FirstHit(Bucket(es, n), input).None? <==>
              forall j :: 0 <= j < |es| && |es[j].pattern| == n ==> !Hits(es[j], input)
    ensures FirstHit(Bucket(es, n), input).Some? ==>
              exists i :: 0 <= i < |es| && es[i] == FirstHit(Bucket(es, n), input).value
                          && |es[i].pattern| == n && Hits(es[i], input)
                          && forall j :: 0 <= j < i && |es[j].pattern| == n ==> !Hits(es[j], input)
  {
    if es != [] {
      var head := if |es[0].pattern| == n then [es[0]] else [];
      var tail := es[1..];
      BucketFirstHit(tail, n, input);
      FirstHitAppend(head, Bucket(tail, n), input);
      assert forall j :: 0 < j < |es| ==> es[j] == tail[j - 1];
      if FirstHit(head, input).None? {
        var r := FirstHit(Bucket(es, n), input);
        if r.Some? {
          var i' :| 0 <= i' < |tail| && tail[i'] == r.value && |tail[i'].pattern| == n && Hits(tail[i'], input)
                    && forall j :: 0 <= j < i' && |tail[j].pattern| == n ==> !Hits(tail[j], input);
          assert es[i' + 1] == tail[i'];
        }
      }
    }
  }

  /** The best hit among the entries no longer than `n`: it hits, no hitting entry of at most
      `n` characters is longer, and none of the same length comes before it. */
  predicate IsBestHitUpTo(es: seq<Entry>, input: string, n: nat, i: int) {
    0 <= i < |es| && Hits(es[i], input) && |es[i].pattern| <= n
    && forall j :: 0 <= j < |es| && Hits(es[j], input) && |es[j].pattern| <= n ==>
         |es[j].pattern| < |es[i].pattern| || (|es[j].pattern| == |es[i].pattern| && i <= j)
  }

  lemma {:induction false} BucketsFirstHit(es: seq<Entry>, n: nat, input: string)
    ensures FirstHit(Buckets(es, n), input).None? <==>
              forall j :: 0 <= j < |es| && |es[j].pattern| <= n ==> !Hits(es[j], input)
    ensures FirstHit(Buckets(es, n), input).Some? ==>
              exists i :: IsBestHitUpTo(es, input, n, i) && es[i] == FirstHit(Buckets(es, n), input).value
  {
    BucketFirstHit(es, n, input);
    if n > 0 {
      BucketsFirstHit(es, n - 1, input);
      FirstHitAppend(Bucket(es, n), Buckets(es, n - 1), input);
      var r := FirstHit(Buckets(es, n), input);
      if FirstHit(Bucket(es, n), input).Some? {
        var i :| 0 <= i < |es| && es[i] == r.value && |es[i].pattern| == n && Hits(es[i], input)
                 && forall j :: 0 <= j < i && |es[j].pattern| == n ==> !Hits(es[j], input);
        BestInLongestBucket(es, input, n, i);
      } else {
        NoHitOfLength(es, input, n);
        if r.Some? {
          var i :| IsBestHitUpTo(es, input, n - 1, i) && es[i] == r.value;
          BestInShorterBuckets(es, input, n, i);
        }
      }
    }
  }

  lemma BestInLongestBucket(es: seq<Entry>, input: string, n: nat, i: int)
    requires 0 <= i < |es| && |es[i].pattern| == n && Hits(es[i], input)
    requires forall j :: 0 <= j < i && |es[j].pattern| == n ==> !Hits(es[j], input)
    ensures IsBestHitUpTo(es, input, n, i)
  {
  }

  lemma NoHitOfLength(es: seq<Entry>, input: string, n: nat)
    requires n > 0
    requires forall j :: 0 <= j < |es| && |es[j].pattern| == n ==> !Hits(es[j], input)
    ensures (forall j :: 0 <= j < |es| && |es[j].pattern| <= n ==> !Hits(es[j], input)) <==>
            (forall j :: 0 <= j < |es| && |es[j].pattern| <= n - 1 ==> !Hits(es[j], input))
  {
  }

  lemma BestInShorterBuckets(es: seq<Entry>, input: string, n: nat, i: int)
    requires n > 0 && IsBestHitUpTo(es, input, n - 1, i)
    requires forall j :: 0 <= j < |es| && |es[j].pattern| == n ==> !Hits(es[j], input)
    ensures IsBestHitUpTo(es, input, n, i)
  {
  }

  /** The best hit of the whole list: it hits, no hitting entry is longer, and no hitting entry
      of the same length comes before it. */
  predicate IsBestHit(es: seq<Entry>, input: string, i: int) {
    0 <= i < |es| && Hits(es[i], input)
    && forall j :: 0 <= j < |es| && Hits(es[j], input) ==>
         |es[j].pattern| < |es[i].pattern| || (|es[j].pattern| == |es[i].pattern| && i <= j)
  }

  /** Scanning the longest-first order stops at the best hit of the unsorted list, and finds
      nothing exactly when no entry hits. */
  lemma FirstHitIsBestHit(es: seq<Entry>, input: string)
    ensures FirstHit(LongestFirst(es), input).None? <==> forall j :: 0 <= j < |es| ==> !Hits(es[j], input)
    ensures FirstHit(LongestFirst(es), input).Some? ==>
              exists i :: IsBestHit(es, input, i) && es[i] == FirstHit(LongestFirst(es), input).value
  {
    var m := MaxLength(es);
    BucketsFirstHit(es, m, input);
    var r := FirstHit(LongestFirst(es), input);
    if r.Some? {
      var i :| IsBestHitUpTo(es, input, m, i) && es[i] == r.value;
      assert IsBestHit(es, input, i);
    }
  }

  /** There is at most one best hit. */
  lemma BestHitUnique(es: seq<Entry>, input: string, i: int, k: int)
    requires IsBestHit(es, input, i) && IsBestHit(es, input, k)
    ensures i == k
  {
  }
}
