/** The live debrief of DebriefPanel: when the number of messages changes
    an analysis is scheduled, on the first message or once at least two
    messages have arrived since the last analysis; a non-empty result is
    put on top of the insights.  The timer and the call to the analyst are
    left to the caller: `Due` is the test the effect makes, and
    `Complete` the end of the timer's callback, with the analysis text,
    the time stamp and the id as inputs. */
module Debrief {

  /** The test of the effect, on the message count and the count at the
      last analysis. */
  predicate ShouldAnalyze(msgCount: nat, lastAnalyzed: nat) {
    msgCount != lastAnalyzed &&
    var delta: int := msgCount - lastAnalyzed;
    msgCount > 0 && (delta >= 2 || (msgCount == 1 && lastAnalyzed == 0))
  }

  /** The rule in full: an analysis is due exactly when there is a message
      and either two or more arrived since the last analysis, or this is
      the very first one. */
  lemma ShouldAnalyzeExactly(msgCount: nat, lastAnalyzed: nat)
    ensures ShouldAnalyze(msgCount, lastAnalyzed) <==>
      msgCount > 0 && (msgCount >= lastAnalyzed + 2 || (msgCount == 1 && lastAnalyzed == 0))
    ensures msgCount == lastAnalyzed ==> !ShouldAnalyze(msgCount, lastAnalyzed)
    ensures lastAnalyzed > 0 && msgCount == lastAnalyzed + 1 ==> !ShouldAnalyze(msgCount, lastAnalyzed)
    ensures !ShouldAnalyze(0, lastAnalyzed)
  {
  }

  /** The count at the last analysis after messages arrive one at a time,
      up to `n`, each analysis finishing before the next message. */
  function LastAnalyzedAfter(n: nat): (r: nat)
    ensures r <= n
  {
    if n == 0 then 0
    else
      var last := LastAnalyzedAfter(n - 1);
      if ShouldAnalyze(n, last) then n else last
  }

  /** With one message at a time the debrief runs on the first, third,
      fifth... message: it covers the exchange in pairs. */
  lemma {:induction false} AnalysedOnOddCounts(n: nat)
    requires n > 0
    ensures LastAnalyzedAfter(n) == if n % 2 == 1 then n else n - 1
  {
    if n > 1 {
      AnalysedOnOddCounts(n - 1);
    }
  }

  datatype Insight = Insight(id: int, text: string, timestamp: string)

  /** The insights after an analysis: a non-empty text goes on top, an
      empty one (falsy) adds nothing. */
  function Record(insights: seq<Insight>, analysis: string, id: int, timestamp: string): (r: seq<Insight>)
    ensures analysis == [] ==> r == insights
    ensures analysis != [] ==> |r| == |insights| + 1 && r[0] == Insight(id, analysis, timestamp) && r[1..] == insights
  {
    if analysis != [] then [Insight(id, analysis, timestamp)] + insights else insights
  }

  /** The insights are newest first when their ids, taken from the clock,
      do not increase down the list. */
  predicate NewestFirst(insights: seq<Insight>) {
    forall i, j :: 0 <= i < j < |insights| ==> insights[i].id >= insights[j].id
  }

  /** An insight made no earlier than the newest one keeps the list newest
      first. */
  lemma RecordNewestFirst(insights: seq<Insight>, analysis: string, id: int, timestamp: string)
    requires NewestFirst(insights)
    requires insights != [] ==> id >= insights[0].id
    ensures NewestFirst(Record(insights, analysis, id, timestamp))
  {
    var r := Record(insights, analysis, id, timestamp);
    if analysis != [] {
      forall i, j | 0 <= i < j < |r|
        ensures r[i].id >= r[j].id
      {
        if i > 0 {
          assert r[i] == insights[i - 1] && r[j] == insights[j - 1];
        } else {
          assert r[j] == insights[j - 1];
        }
      }
    }
  }

  class DebriefPanel {
    var insights: seq<Insight>
    var isAnalyzing: bool
    /** `lastAnalyzedLengthRef.current`. */
    var lastAnalyzedLength: nat

    constructor ()
      ensures insights == [] && !isAnalyzing && lastAnalyzedLength == 0
    {
      insights := [];
      isAnalyzing := false;
      lastAnalyzedLength := 0;
    }

    /** Whether the effect schedules an analysis for `msgCount` messages. */
    predicate Due(msgCount: nat)
      reads this
    {
      ShouldAnalyze(msgCount, lastAnalyzedLength)
    }

    /** The timer fires: the analysis starts. */
    method Begin()
      modifies this
      ensures isAnalyzing
      ensures insights == old(insights) && lastAnalyzedLength == old(lastAnalyzedLength)
    {
      isAnalyzing := true;
    }

    /** The analysis of the `msgCount` messages comes back: it is recorded,
        and the count it covered becomes the last analysed count whether an
        insight was added or not. */
    method Complete(msgCount: nat, analysis: string, id: int, timestamp: string)
      modifies this
      ensures insights == Record(old(insights), analysis, id, timestamp)
      ensures !isAnalyzing && lastAnalyzedLength == msgCount
      ensures !Due(msgCount)
    {
      if analysis != [] {
        var newInsight := Insight(id, analysis, timestamp);
        insights := [newInsight] + insights;
      }
      isAnalyzing := false;
      lastAnalyzedLength := msgCount;
    }
  }
}
