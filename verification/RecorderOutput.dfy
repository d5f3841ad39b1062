/**
 What the recorder returns: the retained events and one summary of skills for each invocation.
 */
module RecorderOutput {
  import opened OrderedMaps
  import opened RunMetrics
  import opened Retention

  /** How the recorder counts skills: one pass over the names with a map of counts. */
  function Tally(names: seq<string>): Skills {
    if names == [] then []
    else
      var before, last := Tally(names[..|names| - 1]), names[|names| - 1];
      Put<string, nat>(before, last, CountIn(before, last) + 1)
  }

  function CountIn(counts: Skills, name: string): nat {
    match Get(counts, name) case Some(n) => n case None => 0
  }

  /** `summarizeActivities`, before the counts are sorted by name. */
  function SummarizeActivities(activities: Activities): Skills {
    Tally(Names(activities))
  }

  function SummaryEntry(id: string, summary: Summary): Entry {
    Entry(SkillSummary(id, SummarizeActivities(summary.activities)), summary.sequence)
  }

  function SummaryEntries(summaries: OrderedMap<string, Summary>): seq<Entry> {
    if summaries == [] then []
    else [SummaryEntry(summaries[0].0, summaries[0].1)] + SummaryEntries(summaries[1..])
  }

  function InsertBySequence(e: Entry, s: seq<Entry>): seq<Entry> {
    if s == [] then [e] else if e.sequence < s[0].sequence then [e] + s else [s[0]] + InsertBySequence(e, s[1..])
  }

  /** A stable sort by sequence number. */
  function SortBySequence(s: seq<Entry>): seq<Entry> {
    if s == [] then [] else InsertBySequence(s[|s| - 1], SortBySequence(s[..|s| - 1]))
  }

  function EventsIn(s: seq<Entry>): seq<MetricEvent> {
    if s == [] then [] else [s[0].event] + EventsIn(s[1..])
  }

  /** The `events` getter. */
  function RecordedEvents(r: Recording): seq<MetricEvent> {
    EventsIn(SortBySequence(r.retained + SummaryEntries(r.summaries)))
  }
}
