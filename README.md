# feed-to-mail: a Dafny model of the incremental-delivery engine

feed-to-mail is run periodically against one syndication feed. It mails a
digest of the feed's new entries and remembers, per feed, the timestamp of
the newest entry it has seen (the *watermark*). This project models the
logic of `main.go` that decides what is new and what is remembered:

- `DateResolver` (`date_resolver.dfy`): `getItemDate` and `parseDate`. An
  item's effective date is the later of its published and updated dates
  when both are present, the single date when one is, and a fault
  otherwise. The date recognizer is a parameter (`Parser`).
- `DiffEngine` (`diff_engine.dfy`): the loop in `main` that keeps the items
  dated strictly after the watermark and renders one line per kept item
  (`PostLine`, with the date formatter as a parameter). It carries the
  running maximum of the kept dates, seeded from the watermark. `DiffItems`
  is the loop. It is proved equal to `DiffSpec`, which is built from
  `ResolveAll`, `Selected`, `Lines` and `NewWatermark`. The lemmas prove
  selection, order, maximum and idempotence for those functions.
- `Codec` (`codec.dfy`): Go's `int64`/`uint64` conversions and the 8-byte
  little-endian encoding (`PutUint64` fills a buffer in place; `ReadUint64`
  decodes), with round trips in both directions.
- `Store` (`store.dfy`): the key-value database as a class holding a
  `map<string, seq<byte>>`, and `getLastUpdateTime` / `putUpdateTime`.
- `Digest` (`digest.dfy`): `createEmailBody` (each line followed by the
  terminator `"\n\n--\n\n"`, the last line included) and `createEmail`.
- `FeedToMail` (`feed_to_mail.dfy`): one run of `main` as `Run`, proved
  equal to `RunSpec`. It reads the watermark, diffs, **stores the new
  watermark**, and only then builds and sends the digest if there is at
  least one new post. Whether the store read, the store write and the send
  succeed are boolean parameters.

Dates are Unix seconds in Go's `int64` range. A Go panic becomes an
outcome (`Result.Err`, `Option.None`, or `Outcome.CorruptWatermark`,
`DateFailure`, `SendFailed`). No panic is ruled out by a precondition.

Behaviours of `main.go` that the model keeps as written:

- main.go:52 writes the watermark before the send at main.go:54-62. So a
  failed SMTP connection or a failed send leaves the watermark advanced,
  and the posts of that digest are not offered again
  (`SendFailureKeepsAdvancedWatermark`).
- main.go:161 ignores the error returned by the store's `Put`. A failed
  write leaves the store unchanged and the run goes on to send.
- On equal dates `getItemDate` returns the published time
  (main.go:136-139). Two times can be the same instant in different time
  zones, and `Format` at main.go:46 renders the returned time in its own
  zone, so in Go the tie-break can change the text of a line. The model's
  `Formatter` maps Unix seconds to text and cannot see this difference.
- main.go:124-127 reads a failed `Get` as watermark 0. A run after a failed
  read re-selects old posts and can store a watermark below the one the
  store held (`ReadFailureRewindsWatermark`).
- A stored value shorter than 8 bytes makes `binary.LittleEndian.Uint64`
  panic (main.go:128). The model ends such a run as `CorruptWatermark`,
  before anything is written.

## Model

| member | source | states |
|---|---|---|
| `DateResolver.ParseDate` | main.go:149-156 | succeeds exactly when the recognizer accepts the text, with its date; a rejection is a fault naming the text, never a default date |
| `DateResolver.GetItemDate` | main.go:131-147 | a date exists iff some field is present and every present field parses; the date is a present field's date and no present field is later (the later of the two when both are present); neither field gives NoValidDate; otherwise the fault names the first unparsable field, published before updated |
| `DiffEngine.ResolveAll` | main.go:40-41 | all items resolve iff each does, giving each item its own effective date in feed order; otherwise the fault is that of the first item that fails, every earlier item resolving |
| `DiffEngine.ResolveAllPrefixFault` | main.go:40-41 | once a prefix of the feed fails to resolve, the whole run fails with that same fault |
| `DiffEngine.ResolveAllStep` | main.go:40-41 | proof step of `DiffItems`: one more pass of the loop either adds the item with its date or stops with its fault |
| `DiffEngine.Lines` | main.go:46 | one line per selected item, line k rendered from item k, so the order is the feed order |
| `DiffEngine.DiffStep` | main.go:43-50 | proof step of `DiffItems`: one more pass of the loop adds the item to the selection, its line and the running maximum only when it is dated after the watermark |
| `DiffEngine.DiffItems` | main.go:38-51 | the loop's result is the lines of the selected items in feed order and the new watermark, or the first date fault |
| `DiffEngine.SelectedMembers` | main.go:43-46 | an item is selected iff its date is strictly later than the watermark; an item dated exactly at the watermark is skipped |
| `DiffEngine.SelectedAppend` | main.go:40-46 | selection keeps relative order: selecting from a concatenation concatenates the selections |
| `DiffEngine.MaxDateIsMaximum` | main.go:48-50 | the running maximum is at least the seed and every date, and is the seed or one of the dates |
| `DiffEngine.NewWatermarkIsMaximum` | main.go:39-50 | the new watermark is at least the old one and every item's date, equals the old one iff nothing was selected, and is otherwise the date of a selected item |
| `DiffEngine.RerunSelectsNothing` | main.go:43-50 | diffing again with the returned watermark selects nothing and returns the same watermark |
| `DiffEngine.DiffIdempotent` | main.go:38-51 | a second diff of the same feed with the returned watermark yields no lines and the same watermark |
| `Codec.ToUnsigned` | main.go:160 | `uint64(t)` has the same bits as t modulo 2^64 and is t itself for t >= 0 |
| `Codec.ToSigned` | main.go:128 | `int64(u)` has the same bits as u modulo 2^64 and is u itself below 2^63 |
| `Codec.CastRoundTrip` | main.go:128 | the two conversions undo each other |
| `Codec.LittleEndian` | main.go:160 | the n-byte encoding has exactly n bytes |
| `Codec.FromLittleEndian` | main.go:128 | a decoded n-byte string is below 256^n |
| `Codec.DecodeEncode` | main.go:158-160 | decoding the n-byte encoding of any value below 256^n gives the value back |
| `Codec.EncodeDecode` | main.go:128 | encoding a decoded byte string gives the same bytes back |
| `Codec.PutUint64` | main.go:159-160 | the buffer's first 8 bytes become the little-endian encoding of the value, in place, the rest untouched |
| `Codec.ReadUint64` | main.go:128 | the value read from the first 8 bytes is the one whose encoding they are |
| `Codec.EncodeWatermark` | main.go:158-160 | the stored form of a watermark is 8 bytes |
| `Codec.DecodeWatermark` | main.go:128 | the watermark read from a value is the one whose stored form is its first 8 bytes |
| `Codec.WatermarkRoundTrip` | main.go:122-162 | every int64 timestamp, negative ones included, reads back unchanged after it is stored |
| `Store.Datastore.Get` | main.go:123 | the stored value exactly when the key is present and the read succeeds |
| `Store.Datastore.Put` | main.go:161 | a successful write overwrites the key; a failed one, whose error is ignored, changes nothing |
| `Store.StoredWatermark` | main.go:122-129 | a missing key or a failed read reads as 0; a value shorter than 8 bytes is a fault; otherwise the watermark whose stored form is the value's first 8 bytes |
| `Store.GetLastUpdateTime` | main.go:122-129 | returns the watermark StoredWatermark describes, decoding a zero-filled buffer on a failed read |
| `Store.PutUpdateTime` | main.go:158-162 | a successful write stores the 8-byte encoding under the feed's key and nothing else changes |
| `Store.ReadAfterWrite` | main.go:122-162 | a stored watermark reads back unchanged; the other feeds' watermarks are unaffected |
| `Digest.CreateEmailBody` | main.go:176-183 | the body is every line followed by the terminator, in order |
| `Digest.BodyAppend` | main.go:178-180 | the body of two lists of lines is the first body followed by the second |
| `Digest.SingleLineBody` | main.go:179 | one line gives the line followed by the terminator, so the terminator follows the last line too |
| `Digest.BodyLength` | main.go:176-183 | the body's length is the lines' total length plus 6 per line; the body is empty iff there are no lines |
| `Digest.CreateEmail` | main.go:164-174 | the mail is from the fixed sender to the recipient, with subject "<feed title> - digest" and the rendered body |
| `FeedToMail.Run` | main.go:29-63 | a run reads the watermark, diffs, writes the new watermark, then sends only when there are new posts, as RunSpec describes |
| `FeedToMail.StoreIndependentOfSend` | main.go:52-62 | the store after a run is the same whether the send succeeds or fails |
| `FeedToMail.MailOnlyWhenNew` | main.go:54 | a mail is attempted iff the watermark could be read, every item has a date and at least one post is new |
| `FeedToMail.EarlyFailureWritesNothing` | main.go:35-52 | a run that stops before main.go:52 (short stored value, date fault) leaves the store unchanged |
| `FeedToMail.WatermarkNotBelowRead` | main.go:35-52 | after a run that wrote, the stored watermark is never below the value the run read, and equals it iff no post was new |
| `FeedToMail.ReadFailureRewindsWatermark` | main.go:35-52 | with 1000 stored and one post dated 500, a run whose read fails re-sends the post and stores 500; with a successful read it sends nothing and keeps 1000 |
| `FeedToMail.SendFailureKeepsAdvancedWatermark` | main.go:52-62 | when the send fails the watermark stays advanced past every item of the feed |
| `FeedToMail.RunAfterWriteSendsNothing` | main.go:35-54 | a run on a store already holding the watermark a diff of this feed returned reads it back, selects nothing, sends nothing and rewrites the same bytes |
| `FeedToMail.RerunSendsNothing` | main.go:35-54 | once a run has written its watermark, a second run on the same feed whose read succeeds sends nothing and leaves the store unchanged |

`DiffEngine.PostLine` (main.go:46), `Selected`, `MaxDate`, `NewWatermark`,
`DiffSpec`, `Digest.Body` and `FeedToMail.RunSpec` are defined by their
bodies. The lemmas above state their properties.

## Left out

- Fetching and parsing the feed (main.go:94-101). This is network I/O and a foreign library. A feed is a given `Feed` value.
- The date recognizer `dateparse.ParseStrict` (main.go:150) is a foreign library. It is the `Parser` parameter.
- The date layout `Format("2006-01-02 at 15:04")` (main.go:46) depends on the parsed value's location. It is the `Formatter` parameter.
- Sub-second precision. main.go:43 compares full-precision times, but main.go:160 stores whole seconds. Dates are whole seconds here, so idempotence (`DiffIdempotent`, `RerunSendsNothing`) is claimed only for whole-second dates.
- Opening and closing the database and finding the configuration directory (main.go:30-31, 66-92). This is OS and disk plumbing. The store is a `Datastore` object.
- Command-line parsing with kingpin (main.go:19-27, 33).
- SMTP client setup, connection and sending (main.go:55-61, 103-120). These are network I/O. The `sendOk` parameter covers both a failed connection and a failed send. Each panics after the watermark write.
- FeedToMail.WatermarkNotBelowRead: compares the new watermark with the value the run read, not with the value the store held. After a failed read (main.go:124-127) the watermark can move back, as `FeedToMail.ReadFailureRewindsWatermark` shows.
- FeedToMail.RerunSendsNothing: holds only when the second run's read succeeds. A second run whose read fails starts again from watermark 0.
- `Store.Datastore.Get`: does not tell a missing key from a read error, because main.go:124 treats both the same.
- Process exit status and diagnostics on panic. A panic is a run outcome here.
