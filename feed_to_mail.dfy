/**
 * One run of the program (main in main.go): read the feed's watermark,
 * diff the feed against it, store the new watermark, and only then, if
 * there are new posts, send the digest. The store, the feed and the
 * outcomes of the disk and mail operations come from outside.
 */
module FeedToMail {
  import opened Wrappers
  import opened Codec
  import opened DateResolver
  import opened DiffEngine
  import opened Store
  import opened Digest

  /** A fetched feed: its title, its link (the store key) and its items in feed order. */
  datatype Feed = Feed(title: string, link: string, items: seq<Item>)

  /** How a run ends. */
  datatype Outcome =
    | CorruptWatermark            // the stored value is shorter than 8 bytes: panic before the write
    | DateFailure(fault: DateFault) // an item has no effective date: panic before the write
    | NothingNew                  // watermark stored, no mail
    | Delivered(email: Email)     // watermark stored, then the digest was sent
    | SendFailed(email: Email)    // watermark stored, then sending the digest failed (panic)

  /** The store after a run, and how the run ended. */
  datatype RunResult = RunResult(entries: map<string, seq<byte>>, outcome: Outcome)

  /** Whether a run got past the diff and reached the store write. */
  predicate ReachedWrite(o: Outcome)
  {
    o.NothingNew? || o.Delivered? || o.SendFailed?
  }

  /** What one run does to the store and how it ends, in the order main does it. */
  function RunSpec(entries: map<string, seq<byte>>, feed: Feed, parse: Parser, format: Formatter, to: string,
                   readOk: bool, writeOk: bool, sendOk: bool): RunResult
  {
    match StoredWatermark(entries, feed.link, readOk)
    case None => RunResult(entries, CorruptWatermark)
    case Some(watermark) =>
      match DiffSpec(feed.items, parse, format, watermark)
      case Err(fault) => RunResult(entries, DateFailure(fault))
      case Ok(diff) =>
        var stored := if writeOk then entries[feed.link := EncodeWatermark(diff.watermark)] else entries;
        if diff.lines == [] then RunResult(stored, NothingNew)
        else
          var email := Email(Sender, to, feed.title + " - digest", Body(diff.lines));
          RunResult(stored, if sendOk then Delivered(email) else SendFailed(email))
  }

  /** main: the run itself, with panics turned into outcomes. */
  method Run(db: Datastore, feed: Feed, parse: Parser, format: Formatter, to: string,
             readOk: bool, writeOk: bool, sendOk: bool) returns (outcome: Outcome)
    modifies db
    ensures RunResult(db.entries, outcome) == RunSpec(old(db.entries), feed, parse, format, to, readOk, writeOk, sendOk)
  {
    var lastUpdated := GetLastUpdateTime(db, feed.link, readOk);
    if lastUpdated.None? {
      return CorruptWatermark;
    }
    var diff := DiffItems(feed.items, parse, format, lastUpdated.value);
    if diff.Err? {
      return DateFailure(diff.error);
    }
    PutUpdateTime(db, feed.link, diff.value.watermark, writeOk);
    if |diff.value.lines| > 0 {
      var email := CreateEmail(feed.title, to, diff.value.lines);
      if sendOk {
        outcome := Delivered(email);
      } else {
        outcome := SendFailed(email);
      }
    } else {
      outcome := NothingNew;
    }
  }

  /**
   * The store write happens before, and regardless of, the send: the
   * store after a run is the same whether the mail goes out or not.
   */
  lemma StoreIndependentOfSend(entries: map<string, seq<byte>>, feed: Feed, parse: Parser, format: Formatter,
                               to: string, readOk: bool, writeOk: bool)
    ensures RunSpec(entries, feed, parse, format, to, readOk, writeOk, true).entries
         == RunSpec(entries, feed, parse, format, to, readOk, writeOk, false).entries
  {
  }

  /** A mail is attempted exactly when the diff found at least one new post. */
  lemma MailOnlyWhenNew(entries: map<string, seq<byte>>, feed: Feed, parse: Parser, format: Formatter,
                        to: string, readOk: bool, writeOk: bool, sendOk: bool)
    ensures var r := RunSpec(entries, feed, parse, format, to, readOk, writeOk, sendOk);
            (r.outcome.Delivered? || r.outcome.SendFailed?) <==>
            (StoredWatermark(entries, feed.link, readOk).Some?
             && DiffSpec(feed.items, parse, format, StoredWatermark(entries, feed.link, readOk).value).Ok?
             && DiffSpec(feed.items, parse, format, StoredWatermark(entries, feed.link, readOk).value).value.lines != [])
  {
  }

  /** A run that panics before the write leaves the store untouched. */
  lemma EarlyFailureWritesNothing(entries: map<string, seq<byte>>, feed: Feed, parse: Parser, format: Formatter,
                                  to: string, readOk: bool, writeOk: bool, sendOk: bool)
    ensures var r := RunSpec(entries, feed, parse, format, to, readOk, writeOk, sendOk);
            !ReachedWrite(r.outcome) ==> r.entries == entries
  {
  }

  /**
   * The stored watermark is never below the one the run read: after a run
   * that reached the write, it is at least that value, and strictly later
   * when a digest was attempted. A failed read reads as 0, so this does not
   * rule out moving below what the store held (ReadFailureRewindsWatermark).
   */
  lemma WatermarkNotBelowRead(entries: map<string, seq<byte>>, feed: Feed, parse: Parser, format: Formatter,
                              to: string, readOk: bool, sendOk: bool)
    requires ReachedWrite(RunSpec(entries, feed, parse, format, to, readOk, true, sendOk).outcome)
    ensures var r := RunSpec(entries, feed, parse, format, to, readOk, true, sendOk);
            var before := StoredWatermark(entries, feed.link, readOk);
            var after := StoredWatermark(r.entries, feed.link, true);
            before.Some? && after.Some? && before.value <= after.value
            && (r.outcome.NothingNew? <==> before.value == after.value)
  {
    var watermark := StoredWatermark(entries, feed.link, readOk).value;
    var dated := ResolveAll(feed.items, parse).value;
    NewWatermarkIsMaximum(dated, watermark);
    ReadAfterWrite(entries, feed.link, NewWatermark(dated, watermark), feed.link, true);
  }

  /**
   * A failed send does not roll back the stored watermark: it already
   * covers every item of the feed, so the posts of the failed digest are
   * not offered again by the next run.
   */
  lemma SendFailureKeepsAdvancedWatermark(entries: map<string, seq<byte>>, feed: Feed, parse: Parser, format: Formatter,
                                          to: string, readOk: bool)
    requires RunSpec(entries, feed, parse, format, to, readOk, true, false).outcome.SendFailed?
    ensures var r := RunSpec(entries, feed, parse, format, to, readOk, true, false);
            var after := StoredWatermark(r.entries, feed.link, true);
            after.Some? && after.value > StoredWatermark(entries, feed.link, readOk).value
            && forall k :: 0 <= k < |feed.items| ==> GetItemDate(feed.items[k], parse).value <= after.value
  {
    var watermark := StoredWatermark(entries, feed.link, readOk).value;
    var dated := ResolveAll(feed.items, parse).value;
    NewWatermarkIsMaximum(dated, watermark);
    ReadAfterWrite(entries, feed.link, NewWatermark(dated, watermark), feed.link, true);
    forall k | 0 <= k < |feed.items|
      ensures GetItemDate(feed.items[k], parse).value <= NewWatermark(dated, watermark)
    {
      assert dated[k].date == GetItemDate(feed.items[k], parse).value;
    }
  }

  /**
   * A run on a store that already holds the watermark a diff of this feed
   * returned sends nothing and rewrites the same bytes.
   */
  lemma RunAfterWriteSendsNothing(entries: map<string, seq<byte>>, feed: Feed, parse: Parser, format: Formatter,
                                  to: string, watermark: Int64, writeOk: bool, sendOk: bool)
    requires DiffSpec(feed.items, parse, format, watermark).Ok?
    ensures var written := entries[feed.link := EncodeWatermark(DiffSpec(feed.items, parse, format, watermark).value.watermark)];
            RunSpec(written, feed, parse, format, to, true, writeOk, sendOk) == RunResult(written, NothingNew)
  {
    var w := DiffSpec(feed.items, parse, format, watermark).value.watermark;
    var written := entries[feed.link := EncodeWatermark(w)];
    ReadAfterWrite(entries, feed.link, w, feed.link, true);
    DiffIdempotent(feed.items, parse, format, watermark);
    assert written[feed.link := EncodeWatermark(w)] == written;
  }

  /**
   * Idempotent re-runs: once a run has stored its watermark, a second run
   * on the same feed whose read succeeds sends nothing and leaves the store
   * as it was.
   */
  lemma RerunSendsNothing(entries: map<string, seq<byte>>, feed: Feed, parse: Parser, format: Formatter, to: string,
                          readOk: bool, sendOk: bool, writeOk2: bool, sendOk2: bool)
    requires ReachedWrite(RunSpec(entries, feed, parse, format, to, readOk, true, sendOk).outcome)
    ensures var first := RunSpec(entries, feed, parse, format, to, readOk, true, sendOk);
            RunSpec(first.entries, feed, parse, format, to, true, writeOk2, sendOk2) == RunResult(first.entries, NothingNew)
  {
    var watermark := StoredWatermark(entries, feed.link, readOk).value;
    RunAfterWriteSendsNothing(entries, feed, parse, format, to, watermark, writeOk2, sendOk2);
  }

  /**
   * A failed read rewinds the watermark: the store holds 1000 and the feed
   * has one post dated 500. A run whose read fails (getLastUpdateTime then
   * returns 0) re-sends that post and stores 500. The same run with a
   * successful read sends nothing and keeps 1000.
   */
  lemma ReadFailureRewindsWatermark()
    ensures var feed := Feed("Feed", "key", [Item("Post", "link", "then", "")]);
            var parse: Parser := text => if text == "then" then Some(500) else None;
            var format: Formatter := t => "";
            var entries := map["key" := EncodeWatermark(1000)];
            var failedRead := RunSpec(entries, feed, parse, format, "to", false, true, true);
            var goodRead := RunSpec(entries, feed, parse, format, "to", true, true, true);
            StoredWatermark(entries, "key", true) == Some(1000)
            && failedRead.outcome.Delivered? && StoredWatermark(failedRead.entries, "key", true) == Some(500)
            && goodRead.outcome == NothingNew && StoredWatermark(goodRead.entries, "key", true) == Some(1000)
  {
    var feed := Feed("Feed", "key", [Item("Post", "link", "then", "")]);
    var parse: Parser := text => if text == "then" then Some(500) else None;
    var format: Formatter := t => "";
    var entries := map["key" := EncodeWatermark(1000)];
    var item := feed.items[0];
    assert GetItemDate(item, parse) == Ok(500);
    var dated := [DatedItem(item, 500)];
    assert feed.items[..0] == [];
    assert ResolveAll(feed.items[..0], parse) == Ok([]);
    assert [] + [DatedItem(item, 500)] == dated;
    assert ResolveAll(feed.items, parse) == Ok(dated);
    assert dated[..0] == [];
    assert Selected(dated, 0) == dated;
    assert Selected(dated, 1000) == [];
    assert MaxDate(0, dated[..0]) == 0;
    assert MaxDate(0, dated) == 500;
    assert NewWatermark(dated, 0) == 500;
    assert NewWatermark(dated, 1000) == 1000;
    ReadAfterWrite(entries, "key", 1000, "key", true);
    ReadAfterWrite(entries, "key", 500, "key", true);
    assert entries == entries["key" := EncodeWatermark(1000)];
  }
}
