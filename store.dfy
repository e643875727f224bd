/**
 * The watermark store: a key-value database of byte strings keyed by the
 * feed's link (a bitcask database in the source), and the two routines of
 * main.go that read and write the watermark through it.
 */
module Store {
  import opened Wrappers
  import opened Codec

  /** The database; whether a read or write reaches the disk is decided outside the model. */
  class Datastore {
    var entries: map<string, seq<byte>>

    constructor (initial: map<string, seq<byte>>)
      ensures entries == initial
    {
      entries := initial;
    }

    /** Get: the stored value; None when the key is missing or the read fails. */
    method Get(key: string, readOk: bool) returns (r: Option<seq<byte>>)
      ensures r.Some? <==> readOk && key in entries
      ensures r.Some? ==> r.value == entries[key]
    {
      if readOk && key in entries {
        r := Some(entries[key]);
      } else {
        r := None;
      }
    }

    /** Put: overwrites the key's value; a failed write changes nothing. */
    method Put(key: string, value: seq<byte>, writeOk: bool)
      modifies this
      ensures entries == if writeOk then old(entries)[key := value] else old(entries)
    {
      if writeOk {
        entries := entries[key := value];
      }
    }
  }

  /**
   * The watermark a run reads for a feed: 0 when the key is missing or the
   * read fails, the decoded first 8 bytes otherwise, and None (a panic in
   * the source) when the stored value is shorter than 8 bytes.
   */
  function StoredWatermark(entries: map<string, seq<byte>>, feedId: string, readOk: bool): (r: Option<Int64>)
    ensures !readOk || feedId !in entries ==> r == Some(0)
    ensures readOk && feedId in entries ==> (r.Some? <==> |entries[feedId]| >= 8)
    ensures readOk && feedId in entries && r.Some? ==> EncodeWatermark(r.value) == entries[feedId][..8]
  {
    if !readOk || feedId !in entries then Some(0)
    else if |entries[feedId]| < 8 then None
    else Some(DecodeWatermark(entries[feedId]))
  }

  /** getLastUpdateTime: on a failed read it decodes a zero-filled 8-byte buffer. */
  method GetLastUpdateTime(db: Datastore, feedId: string, readOk: bool) returns (r: Option<Int64>)
    ensures r == StoredWatermark(db.entries, feedId, readOk)
  {
    var found := db.Get(feedId, readOk);
    var lastUpdate: seq<byte>;
    if found.None? {
      var buf := new byte[8];
      PutUint64(buf, 0);
      lastUpdate := buf[..];
      assert lastUpdate == lastUpdate[..8] == EncodeWatermark(0);
      WatermarkRoundTrip(0);
    } else {
      lastUpdate := found.value;
    }
    if |lastUpdate| < 8 {
      r := None;
    } else {
      r := Some(ToSigned(ReadUint64(lastUpdate)));
    }
  }

  /** putUpdateTime: stores the 8-byte little-endian form of the watermark under the feed's key. */
  method PutUpdateTime(db: Datastore, feedId: string, t: Int64, writeOk: bool)
    modifies db
    ensures db.entries == if writeOk then old(db.entries)[feedId := EncodeWatermark(t)] else old(db.entries)
  {
    var timestampBytes := new byte[8];
    PutUint64(timestampBytes, ToUnsigned(t));
    assert timestampBytes[..] == timestampBytes[..8];
    db.Put(feedId, timestampBytes[..], writeOk);
  }

  /** A written watermark reads back unchanged, and writing one feed's watermark leaves the others alone. */
  lemma ReadAfterWrite(entries: map<string, seq<byte>>, feedId: string, t: Int64, other: string, readOk: bool)
    ensures StoredWatermark(entries[feedId := EncodeWatermark(t)], feedId, true) == Some(t)
    ensures other != feedId ==>
              StoredWatermark(entries[feedId := EncodeWatermark(t)], other, readOk) == StoredWatermark(entries, other, readOk)
  {
    WatermarkRoundTrip(t);
  }
}
