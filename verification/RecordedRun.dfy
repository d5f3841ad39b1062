/**
 A whole run through the recorder, and the metrics derived from what it returns.
 */
module RecordedRun {
  import opened RunMetrics
  import opened Retention
  import opened RecorderOutput
  import opened EventRecorder
  import opened RecorderContents
  import opened RecorderTransparency

  /** What the recorder makes of the events of a run. */
  function Projections(events: seq<Event>): (r: seq<MetricEvent>)
    ensures Projected(r)
  {
    if events == [] then []
    else
      var before := Projections(events[..|events| - 1]);
      match Project(events[|events| - 1]) case Some(e) => before + [e] case None => before
  }

  lemma {:induction false} OneMoreProjection(limit: nat, events: seq<Event>, event: Event)
    ensures RecordAll(limit, Projections(events + [event])) ==
            match Project(event)
            case None => RecordAll(limit, Projections(events))
            case Some(e) => Record(limit, RecordAll(limit, Projections(events)), e)
  {
    hide Record, RecordAll, Project;
    assert (events + [event])[..|events|] == events;
    if Project(event).Some? {
      var before := Projections(events);
      LastStep(limit, before + [Project(event).value]);
      assert (before + [Project(event).value])[..|before|] == before;
    }
  }

  /** However many events a recorder is given, it holds what the account of retention says. */
  method RecordRun(limit: nat, events: seq<Event>) returns (recorder: BoundedEventRecorder)
    requires limit >= 1
    ensures fresh(recorder) && recorder.Valid() && recorder.View() == RecordAll(limit, Projections(events))
  {
    hide Record, RecordAll, Project, Linked, BoundedEventRecorder.View;
    recorder := new BoundedEventRecorder(limit);
    NothingRecorded(limit);
    for i := 0 to |events|
      invariant fresh(recorder) && fresh(recorder.buckets) && recorder.limit == limit && recorder.Valid()
      invariant forall k | 0 <= k < |recorder.retained| :: fresh(recorder.retained[k])
      invariant recorder.View() == RecordAll(limit, Projections(events[..i]))
    {
      assert events[..i + 1] == events[..i] + [events[i]];
      OneMoreProjection(limit, events[..i], events[i]);
      recorder.Emit(events[i]);
    }
    assert events[..|events|] == events;
  }

  lemma {:induction false} NothingRecorded(limit: nat)
    ensures RecordAll(limit, Projections([])) == EMPTY_RECORDING
  {
  }

  /**
   The metrics published for a run.  If the recorder dropped nothing they are those of all events,
   exactly when every activity counted for a finished task has a name that fits.
   */
  method PublishedMetrics(limit: nat, events: seq<Event>, runId: string) returns (metrics: Metrics, truncated: bool)
    requires limit >= 1
    ensures truncated == RecordAll(limit, Projections(events)).truncated
    ensures !truncated ==> (metrics == Derive(Projections(events), runId) <==> NamesFit(Projections(events)))
  {
    hide RecordAll, RecordedEvents, Derive, NamesFit, Linked, Projections;
    var recorder := RecordRun(limit, events);
    var recorded := recorder.Events();
    truncated := recorder.didTruncate;
    metrics := DeriveRunMetrics(recorded, runId);
    if !truncated { RecorderIsTransparent(limit, Projections(events), runId); }
  }
}
