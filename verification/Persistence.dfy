/** The append-only log as an object: src/persistence.py. */
module Persistence {
  import opened Options
  import opened Types
  import opened Journals

  /** A file and how much of it is known to be on disk. */
  class LogFile {
    var lines: seq<string>
    var synced: nat

    constructor (lines: seq<string>)
      ensures this.lines == lines && synced == 0
    {
      this.lines, synced := lines, 0;
    }
  }

  class AofPersistence {
    const codec: Codec
    const file: LogFile
    const fsyncPolicy: FsyncPolicy
    const fsyncEveryN: int
    var nextSequence: int
    var writesSinceFsync: nat
    ghost const openedAt: nat

    ghost function View(): Journal
      reads this, file
    {
      Journal(codec, fsyncPolicy, fsyncEveryN, file.lines, file.synced, openedAt, writesSinceFsync, nextSequence)
    }

    ghost predicate Valid()
      reads this, file
    {
      View().Valid()
    }

    constructor (codec: Codec, file: LogFile, fsyncPolicy: FsyncPolicy, fsyncEveryN: int)
      requires codec.RoundTrips() && file.synced <= |file.lines|
      ensures Valid() && View().InSequence() && View().Bounded() && this.file == file
      ensures View() == Journal(codec, fsyncPolicy, fsyncEveryN, file.lines, file.synced, |file.lines|, 0,
                                NextSequence(Decoded(codec, file.lines)))
    {
      this.codec, this.file := codec, file;
      this.fsyncPolicy, this.fsyncEveryN := fsyncPolicy, fsyncEveryN;
      openedAt := |file.lines|;
      writesSinceFsync := 0;
      nextSequence := 0;
      new;
      nextSequence := DiscoverNextSequence();
    }

    method DiscoverNextSequence() returns (next: int)
      ensures next == NextSequence(Decoded(codec, file.lines))
    {
      var maxSequence := -1;
      for i := 0 to |file.lines|
        invariant maxSequence + 1 == NextSequence(Decoded(codec, file.lines[..i]))
      {
        DecodedOneMore(codec, file.lines[..i], file.lines[i]);
        assert file.lines[..i + 1] == file.lines[..i] + [file.lines[i]];
        var parsed := codec.decode(file.lines[i]);
        if parsed.Some? {
          NextSequenceOneMore(Decoded(codec, file.lines[..i]), parsed.value);
          if parsed.value.sequence > maxSequence {
            maxSequence := parsed.value.sequence;
          }
        }
      }
      assert file.lines[..|file.lines|] == file.lines;
      next := maxSequence + 1;
    }

    /** Writes and flushes any record it is given, then syncs when the policy says so; `syncFails` stands for an
        fsync that raises, which leaves the line in the file. */
    method Append(record: LogRecord, syncFails: bool) returns (ok: bool)
      modifies `writesSinceFsync, file
      ensures ok <==> !(old(View()).SyncsNext() && syncFails)
      ensures View() == (if ok then old(View()).Written(record).Settled() else old(View()).Written(record))
    {
      file.lines := file.lines + [codec.encode(record)];
      writesSinceFsync := writesSinceFsync + 1;
      if fsyncPolicy == ALWAYS || (fsyncPolicy == EVERY_N && writesSinceFsync >= fsyncEveryN) {
        if syncFails { return false; }
        file.synced := |file.lines|;
        writesSinceFsync := 0;
      }
      return true;
    }

    /** Appends the request under the next number, which is used up unless the fsync fails. */
    method AppendRequest(request: Request, syncFails: bool) returns (record: Option<LogRecord>)
      requires Valid()
      modifies this, file
      ensures Valid() && View() == old(View()).Appended(request, syncFails)
      ensures View().Records() == old(View().Records()) + [LogRecord(old(nextSequence), request)]
      ensures record == (if old(View()).SyncsNext() && syncFails then None
                         else Some(LogRecord(old(nextSequence), request)))
      ensures record.Some? ==> View().InSequence() && View().Bounded()
    {
      AppendKeepsValid(View(), request, syncFails);
      var ok := Append(LogRecord(nextSequence, request), syncFails);
      if !ok { return None; }
      record := Some(LogRecord(nextSequence, request));
      nextSequence := nextSequence + 1;
    }

    method Replay() returns (records: seq<LogRecord>)
      ensures records == View().Records()
    {
      records := [];
      for i := 0 to |file.lines|
        invariant records == Decoded(codec, file.lines[..i])
      {
        DecodedOneMore(codec, file.lines[..i], file.lines[i]);
        assert file.lines[..i + 1] == file.lines[..i] + [file.lines[i]];
        var parsed := codec.decode(file.lines[i]);
        if parsed.Some? {
          records := records + [parsed.value];
        }
      }
      assert file.lines[..|file.lines|] == file.lines;
    }

    /** Afterwards a machine stop loses nothing. */
    method ForceFsync()
      requires Valid()
      modifies `writesSinceFsync, file`synced
      ensures Valid() && View() == old(View()).Synced()
      ensures View().WorstLoss() == 0
    {
      file.synced := |file.lines|;
      writesSinceFsync := 0;
      assert file.lines[..|file.lines|] == file.lines;
    }

    /** Syncs what the session has not, except under NEVER. */
    method Close()
      requires Valid()
      modifies file`synced
      ensures View() == old(View()).Closed()
      ensures View().WorstLoss() == if writesSinceFsync > 0 && fsyncPolicy != NEVER then 0 else old(View().WorstLoss())
    {
      if writesSinceFsync > 0 && fsyncPolicy != NEVER {
        file.synced := |file.lines|;
        assert file.lines[..|file.lines|] == file.lines;
      }
    }
  }
}
