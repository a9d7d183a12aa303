/**
  The conversation analyzer: the object that holds the sorted records, the
  class method that ingests archive files into one, and the three
  aggregation loops behind the activity metrics.
*/
module Analysis {
  import opened Wrappers
  import opened Messages
  import opened Activity
  import Escapes

  /** The hourly view: (hour, total) pairs, in ascending hour order. */
  type HourlyActivity = seq<(int, int)>

  predicate StrictlyAscending(items: HourlyActivity) {
    forall i, j :: 0 <= i < j < |items| ==> items[i].0 < items[j].0
  }

  /** The items are exactly the entries of `m`. */
  ghost predicate ListsEntries(items: HourlyActivity, m: map<int, int>) {
    forall p :: p in items <==> p.0 in m && p.1 == m[p.0]
  }

  /** The three views `get_activity_metrics` returns. */
  datatype ActivityMetrics = ActivityMetrics(daily: map<Date, int>, hourly: HourlyActivity, monthly: map<string, int>)

  class ConversationAnalyzer {
    /** The records, in timestamp order. */
    const messages: seq<Message>

    /** `__init__`: keeps the records sorted by timestamp, equal timestamps in the given order. */
    constructor (messages: seq<Message>)
      ensures this.messages == SortByTimestamp(messages)
    {
      this.messages := SortByTimestamp(messages);
    }

    /**
      `from_json_files`: for each file in turn, repair, parse and walk its
      entries, appending a record for each kept entry to one shared list. A
      file that raises is abandoned where it raised; what it appended stays.
    */
    static method FromJsonFiles(files: seq<Option<string>>, parse: Parser, clock: Clock)
      returns (analyzer: ConversationAnalyzer)
      ensures analyzer.messages == SortByTimestamp(Ingest(files, parse, clock))
    {
      var messages: seq<Message> := [];
      assert files[..0] == [];
      for k := 0 to |files|
        invariant messages == Ingest(files[..k], parse, clock)
      {
        var file := files[k];
        if file.Some? {
          var cleaned := Escapes.Repair(file.value);
          if cleaned.Some? {
            var data := parse(cleaned.value);
            if data.Some? {
              messages := ReadEntries(messages, data.value, clock);
            }
          }
        }
        assert files[..k + 1] == files[..k] + [file];
        IngestSnoc(files[..k], file, parse, clock);
      }
      assert files[..|files|] == files;
      analyzer := new ConversationAnalyzer(messages);
    }

    /**
      The loop over one file's entries in `from_json_files`: appends a record
      for each kept entry to `messages` and stops at the first entry that raises.
    */
    static method ReadEntries(messages: seq<Message>, entries: seq<Entry>, clock: Clock)
      returns (appended: seq<Message>)
      ensures appended == messages + HarvestEntries(entries, clock).messages
    {
      appended := messages;
      var i := 0;
      var failed := false;
      while i < |entries| && !failed
        invariant 0 <= i <= |entries|
        invariant appended == messages + HarvestEntries(entries[..i], clock).messages
        invariant failed == !HarvestEntries(entries[..i], clock).completed
      {
        HarvestNext(entries, i, clock);
        match Process(entries[i], clock) {
          case Skipped =>
          case Kept(m) =>
            appended := appended + [m];
          case Failed =>
            failed := true;
        }
        i := i + 1;
      }
      if failed {
        HarvestAfterFailure(entries[..i], entries[i..], clock);
        assert entries[..i] + entries[i..] == entries;
      } else {
        assert entries[..i] == entries;
      }
    }

    /** `_aggregate_by_date`: the per-date sums of message lengths. */
    method AggregateByDate() returns (activity: map<Date, int>)
      ensures activity == Totals(messages, DateKey)
    {
      activity := map[];
      for i := 0 to |messages|
        invariant activity == Totals(messages[..i], DateKey)
      {
        var msg := messages[i];
        var key := DateKey(msg);
        TotalsNext(messages, DateKey, i, activity, key);
        activity := activity[key := (if key in activity then activity[key] else 0) + msg.Length()];
      }
      assert messages[..|messages|] == messages;
    }

    /** `_aggregate_by_month`: the per-month-key sums of message lengths. */
    method AggregateByMonth() returns (activity: map<string, int>)
      ensures activity == Totals(messages, MonthKey)
    {
      activity := map[];
      for i := 0 to |messages|
        invariant activity == Totals(messages[..i], MonthKey)
      {
        var msg := messages[i];
        var key := MonthKey(msg);
        TotalsNext(messages, MonthKey, i, activity, key);
        activity := activity[key := (if key in activity then activity[key] else 0) + msg.Length()];
      }
      assert messages[..|messages|] == messages;
    }

    /**
      `_aggregate_by_hour`: the per-hour sums of message lengths, emitted as
      `sorted(activity.items())`, one pair per hour that has messages, in
      ascending hour order.
    */
    method AggregateByHour() returns (hourly: HourlyActivity)
      ensures StrictlyAscending(hourly)
      ensures ListsEntries(hourly, Totals(messages, HourKey))
      ensures forall i :: 0 <= i < |hourly| ==> 0 <= hourly[i].0 <= 23
    {
      var activity: map<int, int> := map[];
      for i := 0 to |messages|
        invariant activity == Totals(messages[..i], HourKey)
      {
        var msg := messages[i];
        var key := HourKey(msg);
        TotalsNext(messages, HourKey, i, activity, key);
        activity := activity[key := (if key in activity then activity[key] else 0) + msg.Length()];
      }
      assert messages[..|messages|] == messages;
      HourKeysInRange(messages);

      // `sorted(activity.items())`: every key is an hour, so taking the hours in
      // ascending order and keeping those present sorts the items by key.
      hourly := [];
      for h := 0 to 24
        invariant StrictlyAscending(hourly)
        invariant forall i :: 0 <= i < |hourly| ==> hourly[i].0 < h
        invariant forall p :: p in hourly <==> p.0 in activity && p.0 < h && p.1 == activity[p.0]
      {
        if h in activity {
          hourly := hourly + [(h, activity[h])];
        }
      }
    }

    /** `get_activity_metrics`: the daily, hourly and monthly views of the same records. */
    method GetActivityMetrics() returns (metrics: ActivityMetrics)
      ensures metrics.daily == Totals(messages, DateKey)
      ensures StrictlyAscending(metrics.hourly) && ListsEntries(metrics.hourly, Totals(messages, HourKey))
      ensures metrics.monthly == Totals(messages, MonthKey)
    {
      var daily := AggregateByDate();
      var hourly := AggregateByHour();
      var monthly := AggregateByMonth();
      metrics := ActivityMetrics(daily, hourly, monthly);
    }
  }
}
