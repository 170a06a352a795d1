/**
  The analytics log of the chatbot: five append-only record lists, four of
  them with a retention cap that keeps the newest entries, and the integer
  statistics computed over the records at or after a timestamp cutoff.
  Timestamps are ISO-8601 strings compared as strings, exactly as the log
  compares them; the clock is a parameter.
 */
module Analytics {
  import opened Wrappers
  import PySlice
  import Sorting

  /** Retention caps of the four capped lists; `sources_used` has none. */
  const QueryCap := 10000
  const SessionCap := 10000
  const FeedbackCap := 10000
  const ErrorCap := 1000

  /** How many entries each top list of `get_stats` holds at most. */
  const TopCount := 10

  datatype QueryRecord = QueryRecord(query: string, timestamp: string, responseTime: Option<real>, sourcesCount: nat)
  datatype SessionRecord = SessionRecord(timestamp: string)
  datatype FeedbackRecord = FeedbackRecord(positive: bool, timestamp: string)
  datatype ErrorRecord = ErrorRecord(kind: string, timestamp: string)
  datatype SourceUse = SourceUse(source: string, timestamp: string)

  /** A retrieved source as the caller passes it; `None` is a missing `metadata` key. */
  datatype Source = Source(metadata: Option<map<string, string>>)

  datatype Data = Data(queries: seq<QueryRecord>, sessions: seq<SessionRecord>, feedback: seq<FeedbackRecord>,
                       errors: seq<ErrorRecord>, sourcesUsed: seq<SourceUse>)

  /** What `get_stats` reports, less the floating-point average response time. */
  datatype Stats = Stats(totalQueries: nat, totalSessions: nat, totalFeedback: nat, positiveFeedback: nat,
                         feedbackScore: real, topQueries: seq<(string, nat)>, topSources: seq<(string, nat)>,
                         periodDays: int)

  /** The structure `_load_data` falls back to when there is no readable file. */
  function Fresh(): (d: Data)
    ensures WithinCaps(d)
    ensures |d.queries| + |d.sessions| + |d.feedback| + |d.errors| + |d.sourcesUsed| == 0
  {
    Data([], [], [], [], [])
  }

  /** Every capped list is within its cap. */
  predicate WithinCaps(d: Data) {
    |d.queries| <= QueryCap && |d.sessions| <= SessionCap && |d.feedback| <= FeedbackCap && |d.errors| <= ErrorCap
  }

  /**
    `after` is `before` with `x` appended and then cut to the newest `cap`
    entries: it ends with `x`, is a suffix of `before + [x]`, and is as long
    as the cap allows.
   */
  ghost predicate Appended<T>(before: seq<T>, after: seq<T>, x: T, cap: nat) {
    && |after| == (if |before| + 1 < cap then |before| + 1 else cap)
    && after == (before + [x])[|before| + 1 - |after|..]
  }

  /** Appends `x` to `log` and keeps the newest `cap` entries (`log[-cap:]` once over the cap). */
  function Push<T>(log: seq<T>, x: T, cap: nat): (r: seq<T>)
    requires cap > 0
    ensures Appended(log, r, x, cap)
    ensures r[|r| - 1] == x
  {
    PySlice.KeepLast(log + [x], cap)
  }

  /** The id `record_query` logs for a source: its metadata's `source`, else `unknown`. */
  function SourceId(s: Source): (id: string)
    ensures s.metadata.Some? && "source" in s.metadata.value ==> id == s.metadata.value["source"]
    ensures s.metadata.None? || "source" !in s.metadata.value ==> id == "unknown"
  {
    var metadata := s.metadata.GetOr(map[]);
    if "source" in metadata then metadata["source"] else "unknown"
  }

  /** One `sources_used` entry per source, in order, all stamped `now`. */
  function SourceUses(sources: seq<Source>, now: string): (r: seq<SourceUse>)
    ensures |r| == |sources|
    ensures forall i :: 0 <= i < |r| ==> r[i] == SourceUse(SourceId(sources[i]), now)
  {
    seq(|sources|, i requires 0 <= i < |sources| => SourceUse(SourceId(sources[i]), now))
  }

  /**
    `record_query`: one query record whose `sourcesCount` is the number of
    sources (none for `None` or an empty list), one `sources_used` entry per
    source, and the query list trimmed to its cap.
   */
  function RecordQuery(d: Data, query: string, responseTime: Option<real>, sources: Option<seq<Source>>, now: string): (d': Data)
    ensures var count := if sources.Some? then |sources.value| else 0;
      && Appended(d.queries, d'.queries, QueryRecord(query, now, responseTime, count), QueryCap)
      && |d'.sourcesUsed| == |d.sourcesUsed| + count
      && d'.sourcesUsed[..|d.sourcesUsed|] == d.sourcesUsed
      && forall i :: 0 <= i < count ==> d'.sourcesUsed[|d.sourcesUsed| + i] == SourceUse(SourceId(sources.value[i]), now)
    ensures |d'.queries| <= QueryCap
    ensures d'.sessions == d.sessions && d'.feedback == d.feedback && d'.errors == d.errors
  {
    var given := sources.GetOr([]);
    var record := QueryRecord(query, now, responseTime, |given|);
    d.(queries := Push(d.queries, record, QueryCap), sourcesUsed := d.sourcesUsed + SourceUses(given, now))
  }

  /** `record_session`: one session record, the list trimmed to its cap. */
  function RecordSession(d: Data, now: string): (d': Data)
    ensures Appended(d.sessions, d'.sessions, SessionRecord(now), SessionCap)
    ensures |d'.sessions| <= SessionCap
    ensures d'.queries == d.queries && d'.feedback == d.feedback && d'.errors == d.errors && d'.sourcesUsed == d.sourcesUsed
  {
    d.(sessions := Push(d.sessions, SessionRecord(now), SessionCap))
  }

  /** `record_feedback`: one feedback record, the list trimmed to its cap. */
  function RecordFeedback(d: Data, positive: bool, now: string): (d': Data)
    ensures Appended(d.feedback, d'.feedback, FeedbackRecord(positive, now), FeedbackCap)
    ensures |d'.feedback| <= FeedbackCap
    ensures d'.queries == d.queries && d'.sessions == d.sessions && d'.errors == d.errors && d'.sourcesUsed == d.sourcesUsed
  {
    d.(feedback := Push(d.feedback, FeedbackRecord(positive, now), FeedbackCap))
  }

  /** `record_error`: one error record, the list trimmed to its smaller cap. */
  function RecordError(d: Data, kind: string, now: string): (d': Data)
    ensures Appended(d.errors, d'.errors, ErrorRecord(kind, now), ErrorCap)
    ensures |d'.errors| <= ErrorCap
    ensures d'.queries == d.queries && d'.sessions == d.sessions && d'.feedback == d.feedback && d'.sourcesUsed == d.sourcesUsed
  {
    d.(errors := Push(d.errors, ErrorRecord(kind, now), ErrorCap))
  }

  /** The operations that change the log. */
  datatype Event =
    | Query(query: string, responseTime: Option<real>, sources: Option<seq<Source>>)
    | Session
    | Feedback(positive: bool)
    | Error(kind: string)

  function Apply(d: Data, e: Event, now: string): Data {
    match e
    case Query(q, t, s) => RecordQuery(d, q, t, s, now)
    case Session => RecordSession(d, now)
    case Feedback(p) => RecordFeedback(d, p, now)
    case Error(k) => RecordError(d, k, now)
  }

  /** No recording ever takes a log past its cap. */
  lemma RecordingKeepsCaps(d: Data, e: Event, now: string)
    requires WithinCaps(d)
    ensures WithinCaps(Apply(d, e, now))
  {
  }

  /** `sources_used` only grows: every recording keeps all of its old entries. */
  lemma SourcesNeverTrimmed(d: Data, e: Event, now: string)
    ensures |Apply(d, e, now).sourcesUsed| >= |d.sourcesUsed|
    ensures Apply(d, e, now).sourcesUsed[..|d.sourcesUsed|] == d.sourcesUsed
  {
  }

  // ---------------------------------------------------------------------------
  // Timestamp comparison

  /** Python's `<` on strings: lexicographic by code point, a proper prefix first. */
  predicate LexLess(a: string, b: string)
    decreases |a|
  {
    if |a| == 0 then |b| > 0
    else if |b| == 0 then false
    else if a[0] != b[0] then a[0] < b[0]
    else LexLess(a[1..], b[1..])
  }

  /** `t >= cutoff` on strings. */
  predicate AtOrAfter(t: string, cutoff: string) {
    !LexLess(t, cutoff)
  }

  lemma {:induction false} LexLessIrreflexive(a: string)
    ensures !LexLess(a, a)
    decreases |a|
  {
    if |a| > 0 {
      LexLessIrreflexive(a[1..]);
    }
  }

  lemma {:induction false} LexLessTransitive(a: string, b: string, c: string)
    requires LexLess(a, b) && LexLess(b, c)
    ensures LexLess(a, c)
    decreases |a|
  {
    if |a| > 0 && a[0] == b[0] && b[0] == c[0] {
      LexLessTransitive(a[1..], b[1..], c[1..]);
    }
  }

  lemma {:induction false} LexLessTotal(a: string, b: string)
    requires a != b
    ensures LexLess(a, b) || LexLess(b, a)
    decreases |a|
  {
    if |a| > 0 && |b| > 0 && a[0] == b[0] {
      assert a == [a[0]] + a[1..] && b == [b[0]] + b[1..];
      LexLessTotal(a[1..], b[1..]);
    }
  }

  /** A record at or after a cutoff is at or after every earlier cutoff. */
  lemma AtOrAfterEarlier(t: string, early: string, late: string)
    requires AtOrAfter(late, early) && AtOrAfter(t, late)
    ensures AtOrAfter(t, early)
  {
    if LexLess(t, early) {
      if early == late {
      } else {
        LexLessTotal(early, late);
        LexLessTransitive(t, early, late);
      }
    }
  }

  // ---------------------------------------------------------------------------
  // Recent records

  function QueryStamp(q: QueryRecord): string { q.timestamp }
  function SessionStamp(s: SessionRecord): string { s.timestamp }
  function FeedbackStamp(f: FeedbackRecord): string { f.timestamp }
  function SourceStamp(s: SourceUse): string { s.timestamp }

  /** The records of `s` stamped at or after `cutoff`, in their logged order. */
  function Since<T(!new)>(s: seq<T>, stamp: T -> string, cutoff: string): (r: seq<T>)
    ensures |r| <= |s|
    ensures forall x :: multiset(r)[x] == if AtOrAfter(stamp(x), cutoff) then multiset(s)[x] else 0
    decreases |s|
  {
    if |s| == 0 then []
    else
      var last := s[|s| - 1];
      assert s == s[..|s| - 1] + [last];
      Since(s[..|s| - 1], stamp, cutoff) + if AtOrAfter(stamp(last), cutoff) then [last] else []
  }

  /** A record logged after the others is counted exactly when it is recent. */
  lemma SinceAppend<T(!new)>(s: seq<T>, x: T, stamp: T -> string, cutoff: string)
    ensures Since(s + [x], stamp, cutoff) == Since(s, stamp, cutoff) + if AtOrAfter(stamp(x), cutoff) then [x] else []
  {
    assert (s + [x])[..|s|] == s;
  }

  /** Moving the cutoff later never counts more records. */
  lemma {:induction false} SinceShrinks<T(!new)>(s: seq<T>, stamp: T -> string, early: string, late: string)
    requires AtOrAfter(late, early)
    ensures multiset(Since(s, stamp, late)) <= multiset(Since(s, stamp, early))
    ensures |Since(s, stamp, late)| <= |Since(s, stamp, early)|
  {
    var l, e := Since(s, stamp, late), Since(s, stamp, early);
    forall x ensures multiset(l)[x] <= multiset(e)[x] {
      if AtOrAfter(stamp(x), late) {
        AtOrAfterEarlier(stamp(x), early, late);
      }
    }
    assert multiset(l) <= multiset(e);
    assert |multiset(l)| <= |multiset(e)| by {
      MultisetSizeMonotone(multiset(l), multiset(e));
    }
  }

  lemma {:induction false} MultisetSizeMonotone<T>(a: multiset<T>, b: multiset<T>)
    requires a <= b
    ensures |a| <= |b|
    decreases |b|
  {
    if |a| > 0 {
      var x :| x in a;
      MultisetSizeMonotone(a - multiset{x}, b - multiset{x});
    }
  }

  // ---------------------------------------------------------------------------
  // Counting

  /** How many times `v` occurs in `s`. */
  function Count<T(==)>(s: seq<T>, v: T): nat {
    multiset(s)[v]
  }

  /** The number of positive entries among `fs`. */
  function Positives(fs: seq<FeedbackRecord>): (n: nat)
    ensures n <= |fs|
    ensures n == |fs| <==> forall i :: 0 <= i < |fs| ==> fs[i].positive
    ensures n == 0 <==> forall i :: 0 <= i < |fs| ==> !fs[i].positive
    decreases |fs|
  {
    if |fs| == 0 then 0
    else
      var rest := Positives(fs[1..]);
      assert forall i :: 1 <= i < |fs| ==> fs[i] == fs[1..][i - 1];
      rest + if fs[0].positive then 1 else 0
  }

  lemma PositivesAppend(fs: seq<FeedbackRecord>, f: FeedbackRecord)
    ensures Positives(fs + [f]) == Positives(fs) + if f.positive then 1 else 0
    decreases |fs|
  {
    if |fs| > 0 {
      assert (fs + [f])[1..] == fs[1..] + [f];
      PositivesAppend(fs[1..], f);
    }
  }

  /**
    `feedback_score`: the percentage of positive feedback, and 0 when there is
    none; only `round(…, 1)` is left out.
   */
  function FeedbackScore(positive: nat, total: nat): (score: real)
    requires positive <= total
    ensures 0.0 <= score <= 100.0
    ensures total == 0 ==> score == 0.0
    ensures total > 0 ==> (score == 100.0 <==> positive == total)
    ensures total > 0 ==> (score == 0.0 <==> positive == 0)
  {
    if total > 0 then
      var fraction := positive as real / total as real;
      assert fraction <= 1.0 by {
        assert positive as real <= total as real;
      }
      assert fraction == 1.0 ==> positive == total by {
        assert fraction * total as real == positive as real;
      }
      fraction * 100.0
    else 0.0
  }

  /** The distinct values of `s` in the order of their first occurrence. */
  function Distinct<T(==,!new)>(s: seq<T>): (r: seq<T>)
    ensures forall x :: x in r <==> x in s
    ensures forall i, j :: 0 <= i < j < |r| ==> r[i] != r[j]
    decreases |s|
  {
    if |s| == 0 then []
    else
      var init := s[..|s| - 1];
      assert s == init + [s[|s| - 1]];
      var d := Distinct(init);
      if s[|s| - 1] in d then d else d + [s[|s| - 1]]
  }

  /** The position of the first occurrence of `x` in `s`. */
  function FirstIndex<T(==)>(s: seq<T>, x: T): (k: nat)
    requires x in s
    ensures k < |s| && s[k] == x && forall i :: 0 <= i < k ==> s[i] != x
  {
    if s[0] == x then 0 else 1 + FirstIndex(s[1..], x)
  }

  /** A value keeps its first position when the sequence is extended. */
  lemma FirstIndexOfPrefix<T>(init: seq<T>, y: T, x: T)
    requires x in init
    ensures FirstIndex(init + [y], x) == FirstIndex(init, x)
  {
    var s := init + [y];
    var a, b := FirstIndex(s, x), FirstIndex(init, x);
    assert s[b] == x;
  }

  /** `Distinct` lists the values in the order in which they first occur. */
  lemma {:induction false} DistinctInFirstOccurrenceOrder<T(!new)>(s: seq<T>)
    ensures forall i, j :: 0 <= i < j < |Distinct(s)| ==> FirstIndex(s, Distinct(s)[i]) < FirstIndex(s, Distinct(s)[j])
    decreases |s|
  {
    if |s| > 0 {
      var init, last := s[..|s| - 1], s[|s| - 1];
      assert s == init + [last];
      var d := Distinct(init);
      DistinctInFirstOccurrenceOrder(init);
      forall x | x in d ensures FirstIndex(s, x) == FirstIndex(init, x) {
        FirstIndexOfPrefix(init, last, x);
      }
      if last !in d {
        assert FirstIndex(s, last) == |init| by {
          assert last !in init;
        }
      }
    }
  }

  /** `Counter(values).items()`: each distinct value with its number of occurrences. */
  function Counted<T(==,!new)>(values: seq<T>): (r: seq<(T, nat)>)
    ensures |r| == |Distinct(values)|
    ensures forall i :: 0 <= i < |r| ==> r[i].0 == Distinct(values)[i] && r[i].1 == Count(values, r[i].0)
  {
    var d := Distinct(values);
    seq(|d|, i requires 0 <= i < |d| => (d[i], Count(values, d[i])))
  }

  function CountKey<T>(p: (T, nat)): real {
    p.1 as real
  }

  /**
    `Counter(values).most_common(n)`: the `n` most frequent values with their
    counts, by non-increasing count, ties in order of first occurrence (the
    stable sort `most_common` is defined by).
   */
  function Top<T(==,!new)>(values: seq<T>, n: nat): (r: seq<(T, nat)>)
    ensures |r| == if n < |Distinct(values)| then n else |Distinct(values)|
    ensures Sorting.NonIncreasing(r, CountKey)
    ensures forall i :: 0 <= i < |r| ==> r[i].0 in values && r[i].1 == Count(values, r[i].0) && r[i].1 > 0
    ensures forall i, j :: 0 <= i < j < |r| ==> r[i].0 != r[j].0
  {
    var sorted := Sorting.SortDesc(Counted(values), CountKey);
    var r := PySlice.Take(sorted, n);
    Sorting.PrefixNonIncreasing(sorted, CountKey, |r|);
    ReorderedCounts(values, sorted);
    assert forall i :: 0 <= i < |r| ==> r[i] == sorted[i];
    r
  }

  /**
    Ties keep their first-occurrence order: the top list is a prefix of a
    stable descending sort, by count, of the distinct values in the order
    `Distinct` lists them.
   */
  lemma TopIsStablePrefix<T(!new)>(values: seq<T>, n: nat)
    ensures var sorted := Sorting.SortDesc(Counted(values), CountKey);
      && Sorting.StablySortedFrom(sorted, Counted(values), CountKey)
      && Top(values, n) == sorted[..|Top(values, n)|]
  {
    Sorting.SortDescStable(Counted(values), CountKey);
  }

  /** Any reordering of the counted values pairs distinct values of the input with their counts. */
  lemma ReorderedCounts<T(!new)>(values: seq<T>, sorted: seq<(T, nat)>)
    requires multiset(sorted) == multiset(Counted(values))
    ensures forall i :: 0 <= i < |sorted| ==>
      sorted[i].0 in values && sorted[i].1 == Count(values, sorted[i].0) && sorted[i].1 > 0
    ensures forall i, j :: 0 <= i < j < |sorted| ==> sorted[i].0 != sorted[j].0
  {
    var counted := Counted(values);
    forall i | 0 <= i < |sorted|
      ensures sorted[i].0 in values && sorted[i].1 == Count(values, sorted[i].0) && sorted[i].1 > 0
    {
      assert sorted[i] in multiset(counted);
      var k :| 0 <= k < |counted| && counted[k] == sorted[i];
      assert counted[k].0 in Distinct(values);
    }
    forall i, j | 0 <= i < j < |sorted| ensures sorted[i].0 != sorted[j].0 {
      if sorted[i].0 == sorted[j].0 {
        assert sorted[i] == sorted[j];
        AtMostOnce(counted);
        TwiceCounted(sorted, i, j);
        assert false;
      }
    }
  }

  /** A sequence without repeats holds each value at most once. */
  lemma {:induction false} AtMostOnce<T>(s: seq<T>)
    requires forall i, j :: 0 <= i < j < |s| ==> s[i] != s[j]
    ensures forall x :: multiset(s)[x] <= 1
    decreases |s|
  {
    if |s| > 0 {
      AtMostOnce(s[1..]);
      assert s == [s[0]] + s[1..];
      assert s[0] !in s[1..];
    }
  }

  lemma TwiceCounted<T>(s: seq<T>, i: nat, j: nat)
    requires i < j < |s| && s[i] == s[j]
    ensures multiset(s)[s[i]] >= 2
  {
    assert s == s[..j] + [s[j]] + s[j + 1..];
    assert s[i] in s[..j];
  }

  // ---------------------------------------------------------------------------
  // Statistics

  function Texts(qs: seq<QueryRecord>): (r: seq<string>)
    ensures |r| == |qs| && forall i :: 0 <= i < |qs| ==> r[i] == qs[i].query
  {
    seq(|qs|, i requires 0 <= i < |qs| => qs[i].query)
  }

  function Names(ss: seq<SourceUse>): (r: seq<string>)
    ensures |r| == |ss| && forall i :: 0 <= i < |ss| ==> r[i] == ss[i].source
  {
    seq(|ss|, i requires 0 <= i < |ss| => ss[i].source)
  }

  /**
    `get_stats` over the records stamped at or after `cutoff` (the ISO form of
    now minus `days`), leaving out the average response time.
   */
  function GetStats(d: Data, cutoff: string, days: int): (s: Stats)
    ensures s.totalQueries == |Since(d.queries, QueryStamp, cutoff)| <= |d.queries|
    ensures s.totalSessions == |Since(d.sessions, SessionStamp, cutoff)| <= |d.sessions|
    ensures s.totalFeedback == |Since(d.feedback, FeedbackStamp, cutoff)| <= |d.feedback|
    ensures s.positiveFeedback <= s.totalFeedback
    ensures s.totalFeedback == 0 ==> s.feedbackScore == 0.0
    ensures 0.0 <= s.feedbackScore <= 100.0
    ensures |s.topQueries| <= TopCount && |s.topSources| <= TopCount
    ensures Sorting.NonIncreasing(s.topQueries, CountKey) && Sorting.NonIncreasing(s.topSources, CountKey)
    ensures s.periodDays == days
  {
    var queries := Since(d.queries, QueryStamp, cutoff);
    var sessions := Since(d.sessions, SessionStamp, cutoff);
    var feedback := Since(d.feedback, FeedbackStamp, cutoff);
    var sources := Since(d.sourcesUsed, SourceStamp, cutoff);
    var positive := Positives(feedback);
    Stats(|queries|, |sessions|, |feedback|, positive, FeedbackScore(positive, |feedback|),
          Top(Texts(queries), TopCount), Top(Names(sources), TopCount), days)
  }

  /** Each entry of `top_queries` carries the number of recent queries with exactly that text. */
  lemma TopQueriesCounted(d: Data, cutoff: string, days: int)
    ensures var top := GetStats(d, cutoff, days).topQueries;
      forall i :: 0 <= i < |top| ==>
        top[i].1 == |Since(Matching(d.queries, top[i].0), QueryStamp, cutoff)| && top[i].1 > 0
  {
    var top := GetStats(d, cutoff, days).topQueries;
    forall i | 0 <= i < |top|
      ensures top[i].1 == |Since(Matching(d.queries, top[i].0), QueryStamp, cutoff)| && top[i].1 > 0
    {
      var (text, count) := top[i];
      var recent := Since(d.queries, QueryStamp, cutoff);
      assert count == Count(Texts(recent), text);
      CountIsMatching(recent, text);
      MatchingSince(d.queries, text, cutoff);
    }
  }

  /** The queries whose text is `text`, in logged order. */
  function Matching(qs: seq<QueryRecord>, text: string): (r: seq<QueryRecord>)
    ensures forall q :: multiset(r)[q] == if q.query == text then multiset(qs)[q] else 0
    decreases |qs|
  {
    if |qs| == 0 then []
    else
      var last := qs[|qs| - 1];
      assert qs == qs[..|qs| - 1] + [last];
      Matching(qs[..|qs| - 1], text) + if last.query == text then [last] else []
  }

  lemma {:induction false} CountIsMatching(qs: seq<QueryRecord>, text: string)
    ensures Count(Texts(qs), text) == |Matching(qs, text)|
    decreases |qs|
  {
    if |qs| > 0 {
      var init, last := qs[..|qs| - 1], qs[|qs| - 1];
      assert Texts(qs) == Texts(init) + [last.query];
      CountIsMatching(init, text);
    }
  }

  lemma MatchingAppend(qs: seq<QueryRecord>, q: QueryRecord, text: string)
    ensures Matching(qs + [q], text) == Matching(qs, text) + if q.query == text then [q] else []
  {
    assert (qs + [q])[..|qs|] == qs;
  }

  /** The record kept by both filters, or nothing. */
  function Both(q: QueryRecord, text: string, cutoff: string): seq<QueryRecord> {
    if q.query == text && AtOrAfter(q.timestamp, cutoff) then [q] else []
  }

  lemma SinceOfMatchingAppend(qs: seq<QueryRecord>, q: QueryRecord, text: string, cutoff: string)
    ensures Since(Matching(qs + [q], text), QueryStamp, cutoff) == Since(Matching(qs, text), QueryStamp, cutoff) + Both(q, text, cutoff)
  {
    MatchingAppend(qs, q, text);
    if q.query == text {
      SinceAppend(Matching(qs, text), q, QueryStamp, cutoff);
    } else {
      assert Matching(qs, text) + [] == Matching(qs, text);
    }
  }

  lemma MatchingOfSinceAppend(qs: seq<QueryRecord>, q: QueryRecord, text: string, cutoff: string)
    ensures Matching(Since(qs + [q], QueryStamp, cutoff), text) == Matching(Since(qs, QueryStamp, cutoff), text) + Both(q, text, cutoff)
  {
    SinceAppend(qs, q, QueryStamp, cutoff);
    if AtOrAfter(q.timestamp, cutoff) {
      MatchingAppend(Since(qs, QueryStamp, cutoff), q, text);
    } else {
      assert Since(qs, QueryStamp, cutoff) + [] == Since(qs, QueryStamp, cutoff);
    }
  }

  lemma {:induction false} MatchingSince(qs: seq<QueryRecord>, text: string, cutoff: string)
    ensures Since(Matching(qs, text), QueryStamp, cutoff) == Matching(Since(qs, QueryStamp, cutoff), text)
    decreases |qs|
  {
    if |qs| > 0 {
      var init, last := qs[..|qs| - 1], qs[|qs| - 1];
      assert qs == init + [last];
      MatchingSince(init, text, cutoff);
      SinceOfMatchingAppend(init, last, text, cutoff);
      MatchingOfSinceAppend(init, last, text, cutoff);
    }
  }

  /**
    A value left out of a top list never has more recent occurrences than any
    value that made the list.
   */
  lemma TopOmitsNoOutranker<T(!new)>(values: seq<T>, n: nat, v: T, i: nat)
    requires v in values
    requires i < |Top(values, n)|
    requires forall k :: 0 <= k < |Top(values, n)| ==> Top(values, n)[k].0 != v
    ensures Count(values, v) <= Top(values, n)[i].1
  {
    var counted := Counted(values);
    var sorted := Sorting.SortDesc(counted, CountKey);
    var r := Top(values, n);
    assert r == sorted[..|r|];
    var j :| 0 <= j < |Distinct(values)| && Distinct(values)[j] == v;
    var x := counted[j];
    assert x in multiset(sorted);
    if Count(values, v) > r[i].1 {
      Sorting.OutrankerIsKept(sorted, CountKey, |r|, x, i);
    }
  }

  /** Recording a query stamped at or after the cutoff adds one to the recent total, until the cap bites. */
  lemma RecordedQueryIsCounted(d: Data, query: string, responseTime: Option<real>, sources: Option<seq<Source>>,
                               now: string, cutoff: string, days: int)
    requires |d.queries| < QueryCap
    ensures var before := GetStats(d, cutoff, days).totalQueries;
      GetStats(RecordQuery(d, query, responseTime, sources, now), cutoff, days).totalQueries
      == if AtOrAfter(now, cutoff) then before + 1 else before
  {
    var d' := RecordQuery(d, query, responseTime, sources, now);
    var record := d'.queries[|d'.queries| - 1];
    assert d'.queries == d.queries + [record];
    SinceAppend(d.queries, record, QueryStamp, cutoff);
  }

  /** Recording feedback inside the window adds one to the total, and one to the positives exactly when it is positive. */
  lemma RecordedFeedbackIsCounted(d: Data, positive: bool, now: string, cutoff: string, days: int)
    requires |d.feedback| < FeedbackCap
    requires AtOrAfter(now, cutoff)
    ensures var before := GetStats(d, cutoff, days);
      var after := GetStats(RecordFeedback(d, positive, now), cutoff, days);
      && after.totalFeedback == before.totalFeedback + 1
      && after.positiveFeedback == before.positiveFeedback + if positive then 1 else 0
  {
    var f := FeedbackRecord(positive, now);
    assert RecordFeedback(d, positive, now).feedback == d.feedback + [f];
    SinceAppend(d.feedback, f, FeedbackStamp, cutoff);
    PositivesAppend(Since(d.feedback, FeedbackStamp, cutoff), f);
  }

  /** A later cutoff never raises a total. */
  lemma LaterCutoffCountsLess(d: Data, early: string, late: string, days: int)
    requires AtOrAfter(late, early)
    ensures var e, l := GetStats(d, early, days), GetStats(d, late, days);
      l.totalQueries <= e.totalQueries && l.totalSessions <= e.totalSessions && l.totalFeedback <= e.totalFeedback
  {
    SinceShrinks(d.queries, QueryStamp, early, late);
    SinceShrinks(d.sessions, SessionStamp, early, late);
    SinceShrinks(d.feedback, FeedbackStamp, early, late);
  }
}
