/**
  Message records and their ingestion from parsed archive files: the entry
  filter, the per-file harvest that stops at the first failing entry, the
  concatenation over files, and the stable sort by timestamp.
*/
module Messages {
  import opened Wrappers
  import Utf8
  import Escapes

  type Year = y: int | 1 <= y <= 9999 witness 1
  type Month = m: int | 1 <= m <= 12 witness 1
  type Day = d: int | 1 <= d <= 31 witness 1
  type Hour = h: int | 0 <= h <= 23
  type Minute = m: int | 0 <= m <= 59
  type Second = s: int | 0 <= s <= 59
  type Microsecond = u: int | 0 <= u <= 999_999

  /** A naive local date and time, with the field ranges of Python's `datetime`. */
  datatype DateTime = DateTime(year: Year, month: Month, day: Day, hour: Hour,
                               minute: Minute, second: Second, microsecond: Microsecond)

  /** `datetime.date()`: the calendar date of a local date and time. */
  datatype Date = Date(year: Year, month: Month, day: Day)

  /** Strictly earlier: the field-by-field comparison of naive `datetime` values. */
  predicate Before(a: DateTime, b: DateTime) {
    if a.year != b.year then a.year < b.year
    else if a.month != b.month then a.month < b.month
    else if a.day != b.day then a.day < b.day
    else if a.hour != b.hour then a.hour < b.hour
    else if a.minute != b.minute then a.minute < b.minute
    else if a.second != b.second then a.second < b.second
    else a.microsecond < b.microsecond
  }

  predicate NotAfter(a: DateTime, b: DateTime) {
    !Before(b, a)
  }

  /** The comparison is a total order: `NotAfter` is transitive, total and antisymmetric. */
  lemma NotAfterTotalOrder(a: DateTime, b: DateTime, c: DateTime)
    ensures NotAfter(a, b) && NotAfter(b, c) ==> NotAfter(a, c)
    ensures NotAfter(a, b) || NotAfter(b, a)
    ensures NotAfter(a, b) && NotAfter(b, a) ==> a == b
  {
  }

  /**
    `datetime.fromtimestamp(timestamp_ms / 1000)`: the host's local wall-clock
    time for an epoch time in milliseconds, `None` where it raises (a value out
    of the platform's range).
  */
  type Clock = int -> Option<DateTime>

  /** One chat message: its text, local send time and sender. */
  datatype Message = Message(text: string, timestamp: DateTime, sender: string) {
    /** The character count of the text. */
    function Length(): nat {
      |text|
    }
  }

  /** `len(content)` counts characters, not UTF-8 bytes: at most the bytes, and at least a quarter of them. */
  lemma LengthCountsCharacters(m: Message)
    ensures m.Length() <= |Utf8.Encode(m.text)| <= 4 * m.Length()
  {
    Utf8.EncodeLength(m.text);
  }

  // ---------------------------------------------------------------------------
  // Entries of a parsed archive

  /** A field of a parsed entry: absent, present with the expected type, or present with another JSON type. */
  datatype Field<T> = Missing | Present(value: T) | Mistyped

  /** One element of the `messages` array of an archive. */
  datatype Entry = Entry(content: Field<string>, timestampMs: Field<int>, senderName: Option<string>)

  /**
    `json.loads` followed by `data['messages']`: the entries of a repaired
    archive text, `None` where either raises.
  */
  type Parser = string -> Option<seq<Entry>>

  predicate StartsWith(s: string, prefix: string) {
    |prefix| <= |s| && s[..|prefix|] == prefix
  }

  /** The text of a reaction or like notice rather than an authored message. */
  predicate IsReaction(text: string) {
    StartsWith(text, "Reacted ") || StartsWith(text, "Liked ")
  }

  /** No record is a reaction or like notice. */
  predicate NoReactions(ms: seq<Message>) {
    forall k :: 0 <= k < |ms| ==> !IsReaction(ms[k].text)
  }

  lemma NoReactionsAppend(a: seq<Message>, b: seq<Message>)
    requires NoReactions(a) && NoReactions(b)
    ensures NoReactions(a + b)
  {
    forall k | 0 <= k < |a + b| ensures !IsReaction((a + b)[k].text) {
      if k < |a| {
        assert (a + b)[k] == a[k];
      } else {
        assert (a + b)[k] == b[k - |a|];
      }
    }
  }

  /** What the loop body does with one entry. */
  datatype Outcome = Skipped | Kept(message: Message) | Failed

  /**
    One entry: skipped when it has no content or its content is a reaction;
    otherwise it becomes a record, or raises when the content is not text
    (`startswith` on a non-string), or the timestamp or sender is missing, or
    the timestamp is not a number or cannot be converted.
  */
  function Process(e: Entry, clock: Clock): (o: Outcome)
    ensures o.Skipped? <==> e.content.Missing? || (e.content.Present? && IsReaction(e.content.value))
    ensures o.Kept? ==> e.content == Present(o.message.text) && !IsReaction(o.message.text)
                        && e.senderName == Some(o.message.sender)
                        && e.timestampMs.Present? && clock(e.timestampMs.value) == Some(o.message.timestamp)
                        && o.message.Length() == |e.content.value|
    ensures o.Failed? <==> e.content.Mistyped?
                           || (e.content.Present? && !IsReaction(e.content.value)
                               && (!e.timestampMs.Present? || clock(e.timestampMs.value).None? || e.senderName.None?))
  {
    match e.content
    case Missing => Skipped
    case Mistyped => Failed
    case Present(text) =>
      if IsReaction(text) then Skipped
      else if !e.timestampMs.Present? then Failed
      else
        match clock(e.timestampMs.value)
        case None => Failed
        case Some(time) =>
          match e.senderName
          case None => Failed
          case Some(sender) => Kept(Message(text, time, sender))
  }

  /** The records a file's loop appended, and whether the loop ran to its end. */
  datatype Harvest = Harvest(messages: seq<Message>, completed: bool)

  /** The inner loop over the entries of one file, which stops at the first entry that raises. */
  function HarvestEntries(es: seq<Entry>, clock: Clock): (h: Harvest)
    ensures |h.messages| <= |es|
    ensures NoReactions(h.messages)
  {
    if es == [] then Harvest([], true)
    else
      var before := HarvestEntries(es[..|es| - 1], clock);
      if !before.completed then before
      else
        match Process(es[|es| - 1], clock)
        case Skipped => before
        case Kept(m) => Harvest(before.messages + [m], true)
        case Failed => Harvest(before.messages, false)
  }

  /**
    The records one file contributes. An unreadable file, a repair that raises,
    or a parse that raises contributes nothing; otherwise the file contributes
    what its loop appended before it ended or raised.
  */
  function FileMessages(file: Option<string>, parse: Parser, clock: Clock): (r: seq<Message>)
    ensures r != [] ==> file.Some? && Escapes.Repair(file.value).Some? && parse(Escapes.Repair(file.value).value).Some?
    ensures NoReactions(r)
  {
    match file
    case None => []
    case Some(raw) =>
      match Escapes.Repair(raw)
      case None => []
      case Some(cleaned) =>
        match parse(cleaned)
        case None => []
        case Some(entries) => HarvestEntries(entries, clock).messages
  }

  /** What each file contributes, as a function of the file. */
  function FilePart(parse: Parser, clock: Clock): Option<string> -> seq<Message> {
    file => FileMessages(file, parse, clock)
  }

  /** The contributions of `xs`, one after the other. */
  function Concat<T>(xs: seq<T>, part: T -> seq<Message>): seq<Message> {
    if xs == [] then [] else Concat(xs[..|xs| - 1], part) + part(xs[|xs| - 1])
  }

  /** The records of all files, in file order, before sorting: none of them a reaction, and none from a file that cannot be read. */
  function Ingest(files: seq<Option<string>>, parse: Parser, clock: Clock): (r: seq<Message>)
    ensures NoReactions(r)
    ensures (forall i :: 0 <= i < |files| ==> files[i].None?) ==> r == []
  {
    FilePartsNoReactions(files, parse, clock);
    Concat(files, FilePart(parse, clock))
  }

  lemma {:induction false} FilePartsNoReactions(files: seq<Option<string>>, parse: Parser, clock: Clock)
    ensures NoReactions(Concat(files, FilePart(parse, clock)))
    ensures (forall i :: 0 <= i < |files| ==> files[i].None?) ==> Concat(files, FilePart(parse, clock)) == []
  {
    if files != [] {
      var init, last := files[..|files| - 1], files[|files| - 1];
      FilePartsNoReactions(init, parse, clock);
      NoReactionsAppend(Concat(init, FilePart(parse, clock)), FileMessages(last, parse, clock));
      if forall i :: 0 <= i < |files| ==> files[i].None? {
        assert forall i :: 0 <= i < |init| ==> init[i] == files[i];
        assert last.None?;
      }
    }
  }

  // ---------------------------------------------------------------------------
  // Properties of ingestion

  /** The loop runs to the end of a file exactly when none of its entries raises. */
  lemma {:induction false} HarvestCompleted(es: seq<Entry>, clock: Clock)
    ensures HarvestEntries(es, clock).completed <==> forall i :: 0 <= i < |es| ==> !Process(es[i], clock).Failed?
  {
    if es != [] {
      var init := es[..|es| - 1];
      HarvestCompleted(init, clock);
      assert forall i :: 0 <= i < |init| ==> init[i] == es[i];
    }
  }

  /** Once an entry has raised, later entries of the file change nothing. */
  lemma {:induction false} HarvestAfterFailure(es: seq<Entry>, more: seq<Entry>, clock: Clock)
    requires !HarvestEntries(es, clock).completed
    ensures HarvestEntries(es + more, clock) == HarvestEntries(es, clock)
    decreases |more|
  {
    if more == [] {
      assert es + more == es;
    } else {
      var init := more[..|more| - 1];
      assert (es + more)[..|es + more| - 1] == es + init;
      HarvestAfterFailure(es, init, clock);
    }
  }

  /** One more entry of a file, as the loop over its entries takes it. */
  lemma HarvestNext(es: seq<Entry>, i: nat, clock: Clock)
    requires i < |es|
    ensures var before := HarvestEntries(es[..i], clock);
            HarvestEntries(es[..i + 1], clock)
            == if !before.completed then before
               else match Process(es[i], clock)
                    case Skipped => before
                    case Kept(m) => Harvest(before.messages + [m], true)
                    case Failed => Harvest(before.messages, false)
  {
    var upto := es[..i + 1];
    assert upto[..|upto| - 1] == es[..i] && upto[|upto| - 1] == es[i];
  }

  /**
    A failing entry ends its file: the records appended for the entries before
    it stay, and nothing after it is looked at.
  */
  lemma HarvestStopsAtFailure(es: seq<Entry>, j: nat, clock: Clock)
    requires j < |es| && Process(es[j], clock).Failed?
    requires HarvestEntries(es[..j], clock).completed
    ensures HarvestEntries(es, clock) == Harvest(HarvestEntries(es[..j], clock).messages, false)
  {
    var upto := es[..j + 1];
    assert HarvestEntries(upto, clock) == Harvest(HarvestEntries(es[..j], clock).messages, false) by {
      assert upto[..|upto| - 1] == es[..j];
      assert upto[|upto| - 1] == es[j];
      HarvestFailing(upto, clock);
    }
    HarvestPrefixFailed(es, j + 1, clock);
  }

  /** A file whose first `n` entries already raised is harvested as those `n` entries are. */
  lemma HarvestPrefixFailed(es: seq<Entry>, n: nat, clock: Clock)
    requires n <= |es| && !HarvestEntries(es[..n], clock).completed
    ensures HarvestEntries(es, clock) == HarvestEntries(es[..n], clock)
  {
    HarvestTakeFailed(es, n, |es|, clock);
    assert es[..|es|] == es;
  }

  lemma {:induction false} HarvestTakeFailed(es: seq<Entry>, n: nat, m: nat, clock: Clock)
    requires n <= m <= |es| && !HarvestEntries(es[..n], clock).completed
    ensures HarvestEntries(es[..m], clock) == HarvestEntries(es[..n], clock)
    decreases m
  {
    if m > n {
      HarvestTakeFailed(es, n, m - 1, clock);
      var upto := es[..m];
      assert upto[..|upto| - 1] == es[..m - 1];
    }
  }

  /** A file whose last entry raises keeps the records of the entries before it. */
  lemma HarvestFailing(es: seq<Entry>, clock: Clock)
    requires es != [] && Process(es[|es| - 1], clock).Failed?
    requires HarvestEntries(es[..|es| - 1], clock).completed
    ensures HarvestEntries(es, clock) == Harvest(HarvestEntries(es[..|es| - 1], clock).messages, false)
  {
  }

  /** Every record comes from an entry of the file that is kept, unchanged. */
  lemma {:induction false} HarvestedFromEntries(es: seq<Entry>, clock: Clock, k: nat)
    requires k < |HarvestEntries(es, clock).messages|
    ensures exists i :: 0 <= i < |es| && Process(es[i], clock) == Kept(HarvestEntries(es, clock).messages[k])
  {
    var init := es[..|es| - 1];
    var before := HarvestEntries(init, clock);
    if k < |before.messages| {
      HarvestedFromEntries(init, clock, k);
      var i :| 0 <= i < |init| && Process(init[i], clock) == Kept(before.messages[k]);
      assert es[i] == init[i];
    } else {
      assert Process(es[|es| - 1], clock) == Kept(HarvestEntries(es, clock).messages[k]);
    }
  }

  /**
    A file whose entries all convert is harvested completely: every entry that
    is not skipped becomes a record, in order.
  */
  lemma {:induction false} HarvestComplete(es: seq<Entry>, clock: Clock)
    requires forall i :: 0 <= i < |es| ==> !Process(es[i], clock).Failed?
    ensures HarvestEntries(es, clock) == Harvest(KeptMessages(es, clock), true)
  {
    if es != [] {
      var init := es[..|es| - 1];
      assert forall i :: 0 <= i < |init| ==> init[i] == es[i];
      HarvestComplete(init, clock);
    }
  }

  /** The records of the entries that are kept, in entry order. */
  function KeptMessages(es: seq<Entry>, clock: Clock): seq<Message> {
    if es == [] then []
    else
      KeptMessages(es[..|es| - 1], clock)
      + match Process(es[|es| - 1], clock) case Kept(m) => [m] case _ => []
  }

  lemma ConcatSnoc<T>(xs: seq<T>, x: T, part: T -> seq<Message>)
    ensures Concat(xs + [x], part) == Concat(xs, part) + part(x)
  {
    assert (xs + [x])[..|xs|] == xs;
  }

  lemma {:induction false} ConcatAppend<T>(xs: seq<T>, ys: seq<T>, part: T -> seq<Message>)
    ensures Concat(xs + ys, part) == Concat(xs, part) + Concat(ys, part)
    decreases |ys|
  {
    if ys == [] {
      assert xs + ys == xs;
    } else {
      var init, last := ys[..|ys| - 1], ys[|ys| - 1];
      assert ys == init + [last];
      assert xs + ys == (xs + init) + [last];
      ConcatAppend(xs, init, part);
      ConcatSnoc(xs + init, last, part);
      ConcatSnoc(init, last, part);
    }
  }

  /** One more file, as the loop over the files takes it. */
  lemma IngestSnoc(fs: seq<Option<string>>, f: Option<string>, parse: Parser, clock: Clock)
    ensures Ingest(fs + [f], parse, clock) == Ingest(fs, parse, clock) + FileMessages(f, parse, clock)
  {
    ConcatSnoc(fs, f, FilePart(parse, clock));
  }

  /** Files are processed independently: the records of a list of files are those of each part, in order. */
  lemma IngestAppend(fs: seq<Option<string>>, gs: seq<Option<string>>, parse: Parser, clock: Clock)
    ensures Ingest(fs + gs, parse, clock) == Ingest(fs, parse, clock) + Ingest(gs, parse, clock)
  {
    ConcatAppend(fs, gs, FilePart(parse, clock));
  }

  /**
    A file that fails on entry `j` still contributes the records of the
    entries before `j`, and neither earlier nor later files are affected.
  */
  lemma FailureIsolated(before: seq<Option<string>>, raw: string, after: seq<Option<string>>,
                        parse: Parser, clock: Clock, cleaned: string, es: seq<Entry>, j: nat)
    requires Escapes.Repair(raw) == Some(cleaned) && parse(cleaned) == Some(es)
    requires j < |es| && Process(es[j], clock).Failed? && HarvestEntries(es[..j], clock).completed
    ensures Ingest(before + [Some(raw)] + after, parse, clock)
         == Ingest(before, parse, clock) + HarvestEntries(es[..j], clock).messages + Ingest(after, parse, clock)
  {
    IngestAppend(before + [Some(raw)], after, parse, clock);
    IngestSnoc(before, Some(raw), parse, clock);
    HarvestStopsAtFailure(es, j, clock);
  }

  /**
    A file whose text, cut at its maximal escape runs, holds a run with a
    `\U00` token contributes no record, however many runs and plain stretches
    surround it.
  */
  lemma UpperCaseEscapeDropsFile(pieces: seq<Escapes.Piece>, parse: Parser, clock: Clock)
    requires Escapes.WellCut(pieces) && Escapes.HasUpper(pieces)
    ensures FileMessages(Some(Escapes.Render(pieces)), parse, clock) == []
  {
    Escapes.RepairPieces(pieces);
  }

  // ---------------------------------------------------------------------------
  // The stable sort by timestamp

  predicate Sorted(s: seq<Message>) {
    forall i, j :: 0 <= i < j < |s| ==> NotAfter(s[i].timestamp, s[j].timestamp)
  }

  /** Appending a record that no earlier one follows keeps a sequence sorted. */
  lemma SortedSnoc(s: seq<Message>, m: Message)
    requires Sorted(s)
    requires forall i :: 0 <= i < |s| ==> NotAfter(s[i].timestamp, m.timestamp)
    ensures Sorted(s + [m])
  {
  }

  /** Everything in a sorted sequence is not after its last element. */
  lemma SortedUpToLast(s: seq<Message>, m: Message)
    requires Sorted(s) && s != [] && NotAfter(s[|s| - 1].timestamp, m.timestamp)
    ensures forall i :: 0 <= i < |s| ==> NotAfter(s[i].timestamp, m.timestamp)
  {
    forall i | 0 <= i < |s| ensures NotAfter(s[i].timestamp, m.timestamp) {
      NotAfterTotalOrder(s[i].timestamp, s[|s| - 1].timestamp, m.timestamp);
    }
  }

  /** Every element of `r` is `m` or an element of `s`, all of which are bounded by `b`. */
  lemma BoundedByMultiset(r: seq<Message>, s: seq<Message>, m: Message, b: DateTime)
    requires multiset(r) == multiset(s) + multiset{m}
    requires NotAfter(m.timestamp, b)
    requires forall k :: 0 <= k < |s| ==> NotAfter(s[k].timestamp, b)
    ensures forall i :: 0 <= i < |r| ==> NotAfter(r[i].timestamp, b)
  {
    forall i | 0 <= i < |r| ensures NotAfter(r[i].timestamp, b) {
      assert r[i] in multiset(r);
      if r[i] != m {
        assert r[i] in multiset(s);
        var k :| 0 <= k < |s| && s[k] == r[i];
      }
    }
  }

  /** Inserts `m` after every record whose timestamp is not after its own. */
  function Insert(s: seq<Message>, m: Message): (r: seq<Message>)
    requires Sorted(s)
    ensures Sorted(r) && multiset(r) == multiset(s) + multiset{m}
    decreases |s|
  {
    if s == [] then [m]
    else
      var last := s[|s| - 1];
      if NotAfter(last.timestamp, m.timestamp) then
        SortedUpToLast(s, m);
        SortedSnoc(s, m);
        s + [m]
      else
        var init := s[..|s| - 1];
        assert s == init + [last];
        var r := Insert(init, m);
        NotAfterTotalOrder(m.timestamp, last.timestamp, last.timestamp);
        BoundedByMultiset(r, init, m, last.timestamp);
        SortedSnoc(r, last);
        r + [last]
  }

  /** `sorted(messages, key=lambda m: m.timestamp)`, as an insertion sort that keeps equal timestamps in input order. */
  function SortByTimestamp(ms: seq<Message>): (r: seq<Message>)
    ensures Sorted(r)
    ensures multiset(r) == multiset(ms)
  {
    if ms == [] then []
    else
      assert ms == ms[..|ms| - 1] + [ms[|ms| - 1]];
      Insert(SortByTimestamp(ms[..|ms| - 1]), ms[|ms| - 1])
  }

  /** The records with timestamp `t`, in order. */
  function WithTimestamp(s: seq<Message>, t: DateTime): seq<Message> {
    if s == [] then []
    else WithTimestamp(s[..|s| - 1], t) + (if s[|s| - 1].timestamp == t then [s[|s| - 1]] else [])
  }

  lemma WithTimestampSnoc(s: seq<Message>, x: Message, t: DateTime)
    ensures WithTimestamp(s + [x], t) == WithTimestamp(s, t) + (if x.timestamp == t then [x] else [])
  {
    assert (s + [x])[..|s + [x]| - 1] == s;
  }

  lemma InsertBefore(s: seq<Message>, m: Message)
    requires Sorted(s) && s != [] && !NotAfter(s[|s| - 1].timestamp, m.timestamp)
    ensures Sorted(s[..|s| - 1])
    ensures Insert(s, m) == Insert(s[..|s| - 1], m) + [s[|s| - 1]]
  {
  }

  /** Inserting before the last record: the filter takes the inserted record before that one. */
  lemma WithTimestampInsertBefore(s: seq<Message>, m: Message, t: DateTime)
    requires Sorted(s) && s != [] && !NotAfter(s[|s| - 1].timestamp, m.timestamp)
    requires var init := s[..|s| - 1];
             WithTimestamp(Insert(init, m), t) == WithTimestamp(init, t) + (if m.timestamp == t then [m] else [])
    ensures WithTimestamp(Insert(s, m), t) == WithTimestamp(s, t) + (if m.timestamp == t then [m] else [])
  {
    var init, last := s[..|s| - 1], s[|s| - 1];
    assert s == init + [last];
    InsertBefore(s, m);
    WithTimestampSnoc(Insert(init, m), last, t);
    WithTimestampSnoc(init, last, t);
    // `m` is strictly earlier than `last`, so at most one of them passes the filter
    NotAfterTotalOrder(last.timestamp, m.timestamp, last.timestamp);
    SwapSingles(WithTimestamp(init, t), if m.timestamp == t then [m] else [], if last.timestamp == t then [last] else []);
  }

  lemma SwapSingles(a: seq<Message>, x: seq<Message>, y: seq<Message>)
    requires x == [] || y == []
    ensures a + x + y == a + y + x
  {
    if x == [] {
      assert a + x + y == a + y && a + y + x == a + y;
    } else {
      assert a + x + y == a + x && a + y + x == a + x;
    }
  }

  lemma {:induction false} WithTimestampInsert(s: seq<Message>, m: Message, t: DateTime)
    requires Sorted(s)
    ensures WithTimestamp(Insert(s, m), t) == WithTimestamp(s, t) + (if m.timestamp == t then [m] else [])
    decreases |s|
  {
    if s == [] {
      assert Insert(s, m) == [] + [m];
      WithTimestampSnoc([], m, t);
    } else if NotAfter(s[|s| - 1].timestamp, m.timestamp) {
      WithTimestampSnoc(s, m, t);
    } else {
      assert Sorted(s[..|s| - 1]);
      WithTimestampInsert(s[..|s| - 1], m, t);
      WithTimestampInsertBefore(s, m, t);
    }
  }

  /** The sort is stable: records with equal timestamps keep their input order. */
  lemma {:induction false} SortStable(ms: seq<Message>, t: DateTime)
    ensures WithTimestamp(SortByTimestamp(ms), t) == WithTimestamp(ms, t)
  {
    if ms != [] {
      var init, last := ms[..|ms| - 1], ms[|ms| - 1];
      SortStable(init, t);
      WithTimestampInsert(SortByTimestamp(init), last, t);
    }
  }
}
