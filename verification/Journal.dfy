/** The append-only log as values: src/persistence.py.  A log file is a sequence of whole lines. */
module Journals {
  import opened Integers
  import opened Options
  import opened Types

  /** The line format: any decoder, and an encoder it inverts. */
  datatype Codec = Codec(encode: LogRecord -> string, decode: string -> Option<LogRecord>) {
    ghost predicate RoundTrips() {
      forall r: LogRecord :: decode(encode(r)) == Some(r)
    }
  }

  /** The records of the well-formed lines, in order. */
  ghost function Decoded(codec: Codec, lines: seq<string>): seq<LogRecord> {
    if lines == [] then []
    else
      var rest, parsed := Decoded(codec, lines[..|lines| - 1]), codec.decode(lines[|lines| - 1]);
      if parsed.Some? then rest + [parsed.value] else rest
  }

  /** One more than the largest sequence number, and at least zero. */
  ghost function NextSequence(records: seq<LogRecord>): int {
    if records == [] then 0
    else
      var rest, r := NextSequence(records[..|records| - 1]), records[|records| - 1];
      if r.sequence >= rest then r.sequence + 1 else rest
  }

  /** The requests as records numbered from `next`. */
  function Numbered(next: int, requests: seq<Request>): seq<LogRecord> {
    seq(|requests|, i requires 0 <= i < |requests| => LogRecord(next + i, requests[i]))
  }

  function RequestsOf(records: seq<LogRecord>): seq<Request> {
    seq(|records|, i requires 0 <= i < |records| => records[i].request)
  }

  lemma RequestsOfOneMore(records: seq<LogRecord>, record: LogRecord)
    ensures RequestsOf(records + [record]) == RequestsOf(records) + [record.request]
  {
  }

  lemma {:induction false} NextSequenceIsAbove(records: seq<LogRecord>)
    ensures NextSequence(records) >= 0
    ensures forall r :: r in records ==> r.sequence < NextSequence(records)
    ensures NextSequence(records) > 0 ==> exists r :: r in records && r.sequence == NextSequence(records) - 1
  {
    if records == [] {
    } else {
      var front, last := records[..|records| - 1], records[|records| - 1];
      NextSequenceIsAbove(front);
      assert last in records;
      assert forall r :: r in records ==> r in front || r == last;
      assert forall r :: r in front ==> r in records;
    }
  }

  lemma DecodedOneMore(codec: Codec, lines: seq<string>, line: string)
    ensures Decoded(codec, lines + [line])
         == match codec.decode(line)
            case None => Decoded(codec, lines)
            case Some(r) => Decoded(codec, lines) + [r]
  {
    assert (lines + [line])[..|lines|] == lines;
  }

  lemma DecodedLine(codec: Codec, line: string)
    ensures Decoded(codec, [line]) == match codec.decode(line) case None => [] case Some(r) => [r]
  {
    assert [] + [line] == [line];
    DecodedOneMore(codec, [], line);
  }

  /** A file is read line by line: a malformed one takes nothing away from those before and after. */
  lemma {:induction false} DecodedConcat(codec: Codec, a: seq<string>, b: seq<string>)
    ensures Decoded(codec, a + b) == Decoded(codec, a) + Decoded(codec, b)
  {
    if b == [] {
      assert a + b == a;
    } else {
      var front, line := b[..|b| - 1], b[|b| - 1];
      DecodedConcat(codec, a, front);
      DecodedOneMore(codec, a + front, line);
      DecodedOneMore(codec, front, line);
      assert a + b == (a + front) + [line] && b == front + [line];
    }
  }

  /** So a malformed line counts for nothing, wherever it stands, and a record for one. */
  lemma LinesAreReadApart(codec: Codec, before: seq<string>, line: string, after: seq<string>)
    ensures var read := match codec.decode(line) case None => [] case Some(r) => [r];
            Decoded(codec, before + [line] + after) == Decoded(codec, before) + read + Decoded(codec, after)
  {
    DecodedConcat(codec, before + [line], after);
    DecodedConcat(codec, before, [line]);
    DecodedLine(codec, line);
  }

  lemma NumberedOneMore(next: int, requests: seq<Request>, request: Request)
    ensures Numbered(next, requests + [request]) == Numbered(next, requests) + [LogRecord(next + |requests|, request)]
  {
  }

  lemma NumberedNone(next: int)
    ensures Numbered(next, []) == []
  {
  }

  lemma NumberedConcat(next: int, a: seq<Request>, b: seq<Request>)
    ensures Numbered(next, a + b) == Numbered(next, a) + Numbered(next + |a|, b)
  {
  }

  lemma NextSequenceOneMore(records: seq<LogRecord>, r: LogRecord)
    ensures NextSequence(records + [r])
         == if r.sequence >= NextSequence(records) then r.sequence + 1 else NextSequence(records)
  {
    assert (records + [r])[..|records|] == records;
  }

  // ----- whole sessions -----

  /** The file after one session: opened, one request appended after another, closed. */
  ghost function AfterSession(codec: Codec, lines: seq<string>, requests: seq<Request>): seq<string> {
    if requests == [] then lines
    else
      var before := AfterSession(codec, lines, requests[..|requests| - 1]);
      before + [codec.encode(LogRecord(NextSequence(Decoded(codec, before)), requests[|requests| - 1]))]
  }

  ghost function AfterSessions(codec: Codec, lines: seq<string>, sessions: seq<seq<Request>>): seq<string> {
    if sessions == [] then lines
    else AfterSession(codec, AfterSessions(codec, lines, sessions[..|sessions| - 1]), sessions[|sessions| - 1])
  }

  function Flatten<T>(parts: seq<seq<T>>): seq<T> {
    if parts == [] then [] else Flatten(parts[..|parts| - 1]) + parts[|parts| - 1]
  }

  lemma {:induction false} SessionAppendsNumbered(codec: Codec, lines: seq<string>, requests: seq<Request>)
    requires codec.RoundTrips()
    ensures var prior, next := Decoded(codec, lines), NextSequence(Decoded(codec, lines));
            var now := Decoded(codec, AfterSession(codec, lines, requests));
            now == prior + Numbered(next, requests) && NextSequence(now) == next + |requests|
  {
    hide Numbered, Decoded, NextSequence;
    var prior, next := Decoded(codec, lines), NextSequence(Decoded(codec, lines));
    if requests == [] {
      NumberedNone(next);
    } else {
      var front, request := requests[..|requests| - 1], requests[|requests| - 1];
      SessionAppendsNumbered(codec, lines, front);
      var before := AfterSession(codec, lines, front);
      var record := LogRecord(next + |front|, request);
      assert codec.decode(codec.encode(record)) == Some(record);
      DecodedOneMore(codec, before, codec.encode(record));
      NextSequenceOneMore(Decoded(codec, before), record);
      NumberedOneMore(next, front, request);
      assert requests == front + [request];
      assert prior + Numbered(next, front) + [record] == prior + (Numbered(next, front) + [record]);
    }
  }

  /** Over any number of sessions on a file of whole lines, malformed ones included, replay yields
      the old valid records and then the new ones in order, numbered one by one from the number
      that follows the largest old one. */
  lemma {:induction false} SessionsAppendNumbered(codec: Codec, lines: seq<string>, sessions: seq<seq<Request>>)
    requires codec.RoundTrips()
    ensures var prior, next := Decoded(codec, lines), NextSequence(Decoded(codec, lines));
            var now := Decoded(codec, AfterSessions(codec, lines, sessions));
            now == prior + Numbered(next, Flatten(sessions)) && NextSequence(now) == next + |Flatten(sessions)|
  {
    hide Numbered, Decoded, NextSequence, AfterSession;
    var prior, next := Decoded(codec, lines), NextSequence(Decoded(codec, lines));
    if sessions == [] {
      NumberedNone(next);
    } else {
      var front, last := sessions[..|sessions| - 1], sessions[|sessions| - 1];
      var done, flat := AfterSessions(codec, lines, front), Flatten(front);
      SessionsAppendNumbered(codec, lines, front);
      SessionAppendsNumbered(codec, done, last);
      NumberedConcat(next, flat, last);
      assert prior + Numbered(next, flat) + Numbered(next + |flat|, last)
          == prior + (Numbered(next, flat) + Numbered(next + |flat|, last));
    }
  }

  /** In particular the new sequence numbers go up strictly, from above every old one. */
  lemma SessionSequencesIncrease(codec: Codec, lines: seq<string>, sessions: seq<seq<Request>>)
    requires codec.RoundTrips()
    ensures var prior, now := Decoded(codec, lines), Decoded(codec, AfterSessions(codec, lines, sessions));
            && |now| == |prior| + |Flatten(sessions)| && now[..|prior|] == prior
            && RequestsOf(now[|prior|..]) == Flatten(sessions)
            && (forall r, i :: r in prior && |prior| <= i < |now| ==> r.sequence < now[i].sequence)
            && (forall i, j :: |prior| <= i < j < |now| ==> now[i].sequence < now[j].sequence)
  {
    hide Decoded, NextSequence, AfterSessions;
    var prior := Decoded(codec, lines);
    var next := NextSequence(prior);
    SessionsAppendNumbered(codec, lines, sessions);
    NextSequenceIsAbove(prior);
    assert (prior + Numbered(next, Flatten(sessions)))[|prior|..] == Numbered(next, Flatten(sessions));
  }

  // ----- what is on disk -----

  /** An open log.  `synced` lines are known to be on disk; the session began after line `openedAt`;
      `writes` counts the appends since the session's last fsync. */
  datatype Journal = Journal(
    codec: Codec,
    policy: FsyncPolicy,
    everyN: int,
    lines: seq<string>,
    synced: nat,
    openedAt: nat,
    writes: nat,
    nextSequence: int)
  {
    ghost function Records(): seq<LogRecord> {
      Decoded(codec, lines)
    }

    /** The counter is right, every line of the session is a record, and the next number is the
        right one or, after an fsync that failed, the one before. */
    ghost predicate Valid() {
      && codec.RoundTrips()
      && openedAt <= |lines| && synced <= |lines|
      && writes == |lines| - (if synced < openedAt then openedAt else synced)
      && (forall i :: openedAt <= i < |lines| ==> codec.decode(lines[i]).Some?)
      && NextSequence(Records()) - 1 <= nextSequence <= NextSequence(Records())
    }

    ghost predicate InSequence() {
      nextSequence == NextSequence(Records())
    }

    /** The policy bounds the counter, unless an fsync has failed. */
    predicate Bounded() {
      && (policy == ALWAYS ==> writes == 0)
      && (policy == EVERY_N ==> writes == 0 || writes < everyN)
    }

    /** The next append ends with an fsync. */
    predicate SyncsNext() {
      policy == ALWAYS || (policy == EVERY_N && writes + 1 >= everyN)
    }

    /** One line more in the file, not yet synced. */
    function Written(record: LogRecord): Journal {
      this.(lines := lines + [codec.encode(record)], writes := writes + 1)
    }

    function Synced(): Journal {
      this.(synced := |lines|, writes := 0)
    }

    /** After a write: the fsync, if the policy asks for one. */
    function Settled(): Journal {
      if policy == ALWAYS || (policy == EVERY_N && writes >= everyN) then Synced() else this
    }

    /** A whole append; `syncFails` tells whether an fsync would raise, which skips all that follows. */
    function Appended(request: Request, syncFails: bool): Journal {
      var written := Written(LogRecord(nextSequence, request));
      if SyncsNext() && syncFails then written else Finished(written)
    }

    /** Appends one after another, each with whether an fsync would raise. */
    function AppendedEach(appends: seq<(Request, bool)>): Journal {
      if appends == [] then this
      else AppendedEach(appends[..|appends| - 1]).Appended(appends[|appends| - 1].0, appends[|appends| - 1].1)
    }

    /** The fsync of the last of these appends raised. */
    predicate LastSyncFails(appends: seq<(Request, bool)>) {
      appends != [] && appends[|appends| - 1].1 && AppendedEach(appends[..|appends| - 1]).SyncsNext()
    }

    function AppendedAll(requests: seq<Request>): Journal {
      if requests == [] then this
      else AppendedAll(requests[..|requests| - 1]).Appended(requests[|requests| - 1], false)
    }

    function Closed(): Journal {
      if writes > 0 && policy != NEVER then this.(synced := |lines|) else this
    }

    /** The file as a new session finds it. */
    ghost function Reopened(policy': FsyncPolicy, everyN': int): Journal {
      Journal(codec, policy', everyN', lines, synced, |lines|, 0, NextSequence(Records()))
    }

    /** The records lost when the machine stops and the file keeps its first `survivors` lines. */
    ghost function Loss(survivors: nat): int
      requires survivors <= |lines|
    {
      |Records()| - |Decoded(codec, lines[..survivors])|
    }

    ghost function WorstLoss(): int
      requires synced <= |lines|
    {
      Loss(synced)
    }

    ghost predicate LosesFewerThan(bound: int) {
      synced <= |lines| && WorstLoss() < bound
    }

    /** The records that the session found in the file and that are still not known to be on disk. */
    ghost function Backlog(): int
      requires openedAt <= |lines|
    {
      if openedAt <= synced then 0
      else |Decoded(codec, lines[..openedAt])| - |Decoded(codec, lines[..synced])|
    }
  }

  /** A line written under the next number, before any fsync. */
  lemma WriteKeepsValid(j: Journal, request: Request)
    requires j.Valid()
    ensures var record := LogRecord(j.nextSequence, request);
            var j' := j.Written(record);
            && j'.Valid() && j'.Records() == j.Records() + [record] && j'.Backlog() == j.Backlog()
            && NextSequence(j'.Records()) == j.nextSequence + 1
  {
    hide Decoded, NextSequence;
    var record := LogRecord(j.nextSequence, request);
    assert j.codec.decode(j.codec.encode(record)) == Some(record);
    DecodedOneMore(j.codec, j.lines, j.codec.encode(record));
    NextSequenceOneMore(j.Records(), record);
    var lines := j.Written(record).lines;
    assert lines[..j.openedAt] == j.lines[..j.openedAt];
    assert j.synced < j.openedAt ==> lines[..j.synced] == j.lines[..j.synced];
  }

  /** The end of an append: the fsync that the policy asks for, and the next number. */
  function Finished(j: Journal): Journal {
    j.Settled().(nextSequence := j.nextSequence + 1)
  }

  lemma FinishKeepsValid(j: Journal)
    requires j.Valid() && j.nextSequence + 1 == NextSequence(j.Records())
    ensures var j' := Finished(j);
            && j'.Valid() && j'.InSequence() && j'.Bounded() && j'.Records() == j.Records()
            && j'.Backlog() == if j.Settled() == j.Synced() then 0 else j.Backlog()
  {
    hide Decoded, NextSequence;
  }

  /** Appending keeps the log valid, fsync or not.  After a success the numbering is right and the
      counter within its bound; a failure leaves the line in the file and its number for the next. */
  lemma AppendKeepsValid(j: Journal, request: Request, syncFails: bool)
    requires j.Valid()
    ensures var j' := j.Appended(request, syncFails);
            && j'.Valid() && j'.Records() == j.Records() + [LogRecord(j.nextSequence, request)]
            && (if j.SyncsNext() && syncFails then j'.nextSequence == j.nextSequence && !j'.InSequence()
                else j'.InSequence() && j'.Bounded())
  {
    hide Decoded, NextSequence, Journal.Valid;
    WriteKeepsValid(j, request);
    FinishKeepsValid(j.Written(LogRecord(j.nextSequence, request)));
  }

  lemma {:induction false} DecodedPrefix(codec: Codec, lines: seq<string>, n: nat)
    requires n <= |lines|
    ensures Decoded(codec, lines[..n]) <= Decoded(codec, lines)
    ensures |Decoded(codec, lines)| - |Decoded(codec, lines[..n])| <= |lines| - n
    decreases |lines|
  {
    if n == |lines| {
      assert lines[..n] == lines;
    } else {
      var front := lines[..|lines| - 1];
      DecodedPrefix(codec, front, n);
      DecodedOneMore(codec, front, lines[|lines| - 1]);
      assert lines == front + [lines[|lines| - 1]] && front[..n] == lines[..n];
    }
  }

  lemma {:induction false} DecodableRange(codec: Codec, lines: seq<string>, a: nat, b: nat)
    requires a <= b <= |lines| && forall i :: a <= i < b ==> codec.decode(lines[i]).Some?
    ensures |Decoded(codec, lines[..b])| == |Decoded(codec, lines[..a])| + b - a
  {
    hide Decoded;
    if a == b {
    } else {
      DecodableRange(codec, lines, a, b - 1);
      DecodedOneMore(codec, lines[..b - 1], lines[b - 1]);
      assert lines[..b] == lines[..b - 1] + [lines[b - 1]];
    }
  }

  /** A machine stop leaves a prefix of the records; at worst it loses what the session found off disk
      and has not synced since, and the writes since its last fsync. */
  lemma MachineStopLoses(j: Journal, survivors: nat)
    requires j.Valid() && j.synced <= survivors <= |j.lines|
    ensures Decoded(j.codec, j.lines[..survivors]) <= j.Records()
    ensures 0 <= j.Loss(survivors) <= j.WorstLoss()
    ensures j.WorstLoss() == j.Backlog() + j.writes && j.Backlog() >= 0
  {
    hide Decoded, NextSequence;
    var kept := j.lines[..survivors];
    DecodedPrefix(j.codec, j.lines, survivors);
    DecodedPrefix(j.codec, kept, j.synced);
    assert kept[..j.synced] == j.lines[..j.synced] && j.lines[..|j.lines|] == j.lines;
    if j.synced < j.openedAt {
      DecodableRange(j.codec, j.lines, j.openedAt, |j.lines|);
      DecodedPrefix(j.codec, j.lines[..j.openedAt], j.synced);
      assert j.lines[..j.openedAt][..j.synced] == j.lines[..j.synced];
    } else {
      DecodableRange(j.codec, j.lines, j.synced, |j.lines|);
    }
  }

  lemma AppendKeepsBacklog(j: Journal, request: Request)
    requires j.Valid()
    ensures j.Appended(request, false).Valid()
    ensures j.Appended(request, false).Backlog() == if j.SyncsNext() then 0 else j.Backlog()
  {
    hide Decoded, NextSequence, Journal.Valid, Journal.Backlog;
    WriteKeepsValid(j, request);
    FinishKeepsValid(j.Written(LogRecord(j.nextSequence, request)));
  }

  /** An append leaves nothing off disk of what the session found, if nothing was. */
  lemma AppendStaysOpen(j: Journal, request: Request)
    requires j.Valid()
    ensures var j' := j.Appended(request, false);
            && j'.openedAt == j.openedAt <= |j'.lines|
            && (j.Backlog() == 0 ==> j'.Backlog() == 0)
  {
    hide Decoded, NextSequence, Journal.Backlog;
    AppendKeepsBacklog(j, request);
  }

  /** What a session of successful appends does to the counter and to the backlog. */
  lemma {:induction false} AppendedAllKeeps(j: Journal, requests: seq<Request>)
    requires j.Valid() && j.Bounded()
    ensures var j' := j.AppendedAll(requests);
            && j'.Valid() && j'.Bounded() && 0 <= j'.Backlog() <= j.Backlog()
            && j'.policy == j.policy && j'.everyN == j.everyN && j'.codec == j.codec && j'.openedAt == j.openedAt
            && (j.InSequence() ==> j'.InSequence() && j'.lines == AfterSession(j.codec, j.lines, requests))
  {
    if requests == [] {
      MachineStopLoses(j, |j.lines|);
    } else {
      hide Journal.Valid, Journal.Bounded, Journal.Backlog, Decoded;
      var front, request := requests[..|requests| - 1], requests[|requests| - 1];
      AppendedAllKeeps(j, front);
      AppendKeepsValid(j.AppendedAll(front), request, false);
      AppendKeepsBacklog(j.AppendedAll(front), request);
    }
  }

  /** Appends that do not reach the fsync only count up. */
  lemma {:induction false} AppendedBelowFsync(j: Journal, requests: seq<Request>)
    requires j.Valid() && j.Bounded() && j.policy == EVERY_N && j.writes + |requests| < j.everyN
    ensures var j' := j.AppendedAll(requests);
            j'.Valid() && j'.writes == j.writes + |requests| && j'.Backlog() == j.Backlog()
  {
    if requests == [] {
    } else {
      hide Journal.Valid, Journal.Bounded, Journal.Backlog;
      var front := requests[..|requests| - 1];
      AppendedBelowFsync(j, front);
      AppendedAllKeeps(j, front);
      AppendKeepsBacklog(j.AppendedAll(front), requests[|requests| - 1]);
    }
  }

  /** How many of a session's first `m` appends are not yet synced. */
  function UnsyncedOf(policy: FsyncPolicy, everyN: int, m: nat): nat {
    match policy
    case NEVER => m
    case ALWAYS => 0
    case EVERY_N => if everyN <= 1 then 0 else m % everyN
  }

  /** When a session syncs: at every append under ALWAYS, at every n-th under EVERY_N, and at none under
      NEVER; and what a machine stop can then cost. */
  lemma {:induction false} SyncsExactly(j: Journal, requests: seq<Request>)
    requires j.Valid() && j.Bounded() && j.writes == 0
    ensures var j', unsynced := j.AppendedAll(requests), UnsyncedOf(j.policy, j.everyN, |requests|);
            && j'.Valid() && j'.policy == j.policy && j'.everyN == j.everyN && j'.writes == unsynced
            && j'.Backlog() == (if unsynced < |requests| then 0 else j.Backlog())
            && j'.WorstLoss() == j'.Backlog() + unsynced
  {
    hide Decoded, NextSequence, Journal.Backlog, Journal.WorstLoss, Journal.Valid, UnsyncedOf;
    if requests == [] {
      NothingUnsynced(j);
    } else {
      var m := |requests| - 1;
      var before := j.AppendedAll(requests[..m]);
      SyncsExactly(j, requests[..m]);
      AppendKeepsBacklog(before, requests[m]);
      OneMoreUnsynced(before, requests[m], m);
    }
    SyncedWithin(j.AppendedAll(requests));
    MachineStopLoses(j.AppendedAll(requests), j.AppendedAll(requests).synced);
  }

  lemma NothingUnsynced(j: Journal)
    ensures UnsyncedOf(j.policy, j.everyN, 0) == 0
  {
  }

  lemma OneMoreUnsynced(j: Journal, request: Request, m: nat)
    requires j.writes == UnsyncedOf(j.policy, j.everyN, m)
    ensures j.Appended(request, false).writes == UnsyncedOf(j.policy, j.everyN, m + 1)
    ensures UnsyncedOf(j.policy, j.everyN, m + 1) < m + 1 <==> UnsyncedOf(j.policy, j.everyN, m) < m || j.SyncsNext()
  {
    if j.policy == EVERY_N && j.everyN > 1 { NextRemainder(m, j.everyN); }
  }

  lemma SyncedWithin(j: Journal)
    requires j.Valid()
    ensures j.synced <= |j.lines|
  {
  }

  /** Exactly when a session bounds what a machine stop can cost, over the whole file: nothing under
      ALWAYS and fewer than n records under EVERY_N, if and only if no record that the session found
      in the file is still off disk. */
  lemma LossBoundExactly(j: Journal, bound: int)
    requires j.Valid() && j.Bounded()
    requires (j.policy == ALWAYS && bound == 1) || (j.policy == EVERY_N && bound == j.everyN && bound >= 1)
    ensures (forall requests: seq<Request> :: j.AppendedAll(requests).LosesFewerThan(bound)) <==> j.Backlog() == 0
  {
    hide Decoded, Journal.Backlog, Journal.Loss;
    if j.Backlog() == 0 {
      forall requests: seq<Request> ensures j.AppendedAll(requests).LosesFewerThan(bound) {
        AppendedAllKeeps(j, requests);
        MachineStopLoses(j.AppendedAll(requests), j.AppendedAll(requests).synced);
      }
    } else {
      var more := if j.policy == ALWAYS then 0 else bound - 1 - j.writes;
      var requests := seq(more, (i: nat) => Request(PING, []));
      MachineStopLoses(j, |j.lines|);
      if j.policy == EVERY_N {
        AppendedBelowFsync(j, requests);
      }
      MachineStopLoses(j.AppendedAll(requests), j.AppendedAll(requests).synced);
      assert !j.AppendedAll(requests).LosesFewerThan(bound);
    }
  }

  // ----- from one session to the next -----

  /** A session inherits as its backlog all that the one before could have lost, unless that one was
      closed after a write it had not synced, under a policy other than NEVER. */
  lemma SessionInherits(j: Journal, policy: FsyncPolicy, everyN: int)
    requires j.Valid()
    ensures var killed, closed := j.Reopened(policy, everyN), j.Closed().Reopened(policy, everyN);
            && killed.Valid() && killed.InSequence() && killed.Bounded() && killed.Backlog() == j.WorstLoss()
            && closed.Valid() && closed.InSequence() && closed.Bounded()
            && closed.Backlog() == if j.writes > 0 && j.policy != NEVER then 0 else j.WorstLoss()
  {
    hide Decoded, NextSequence;
    assert j.lines[..|j.lines|] == j.lines;
  }

  function NewJournal(codec: Codec, n: int): Journal {
    Journal(codec, EVERY_N, n, [], 0, 0, 0, 0)
  }

  lemma NewJournalLosesNothing(codec: Codec, n: int)
    requires codec.RoundTrips()
    ensures NewJournal(codec, n).Valid() && NewJournal(codec, n).Records() == []
    ensures NewJournal(codec, n).WorstLoss() == 0
  {
  }

  /** Sessions of one request each on a new file, every one killed before its close. */
  ghost function KilledSessions(codec: Codec, n: int, request: Request, total: nat): Journal {
    if total == 0 then NewJournal(codec, n)
    else KilledSessions(codec, n, request, total - 1).Reopened(EVERY_N, n).Appended(request, false)
  }

  /** Under EVERY_N with n at least two, such sessions put nothing on disk, however many they are: a
      machine stop can lose every record. */
  lemma {:induction false} KilledSessionsLoseAll(codec: Codec, n: int, request: Request, total: nat)
    requires codec.RoundTrips() && n >= 2
    ensures var j := KilledSessions(codec, n, request, total);
            && j.Valid() && j.Bounded() && j.policy == EVERY_N && j.everyN == n
            && |j.Records()| == total && j.WorstLoss() == total
  {
    hide Decoded, NextSequence, Journal.WorstLoss, Journal.Backlog;
    if total == 0 {
      NewJournalLosesNothing(codec, n);
    } else {
      var before := KilledSessions(codec, n, request, total - 1);
      KilledSessionsLoseAll(codec, n, request, total - 1);
      SessionInherits(before, EVERY_N, n);
      var found := before.Reopened(EVERY_N, n);
      AppendKeepsValid(found, request, false);
      AppendKeepsBacklog(found, request);
      MachineStopLoses(found.Appended(request, false), found.synced);
    }
  }

  /** After an fsync that failed, the line is in the file and the next record repeats its number. */
  lemma FailedFsyncRepeatsNumber(j: Journal, first: Request, second: Request, fails: bool)
    requires j.Valid() && j.SyncsNext()
    ensures j.Appended(first, true).Appended(second, fails).Records()
         == j.Records() + [LogRecord(j.nextSequence, first), LogRecord(j.nextSequence, second)]
  {
    hide Decoded, NextSequence, Journal.Valid;
    AppendKeepsValid(j, first, true);
    AppendKeepsValid(j.Appended(first, true), second, fails);
  }

  /** Exactly when a session numbers its next record above every record of the file, whatever fsyncs
      have failed: when the last append's did not. */
  lemma {:induction false} NumberingExactly(j: Journal, appends: seq<(Request, bool)>)
    requires j.Valid() && j.InSequence()
    ensures var j' := j.AppendedEach(appends);
            && j'.Valid() && j'.nextSequence >= 0
            && ((forall r :: r in j'.Records() ==> r.sequence < j'.nextSequence) <==> !j.LastSyncFails(appends))
  {
    hide Decoded, NextSequence, Journal.Valid, Journal.SyncsNext;
    NextSequenceIsAbove(j.Records());
    if appends == [] {
    } else {
      var front, last := appends[..|appends| - 1], appends[|appends| - 1];
      var before := j.AppendedEach(front);
      NumberingExactly(j, front);
      AppendKeepsValid(before, last.0, last.1);
      NextSequenceIsAbove(j.AppendedEach(appends).Records());
      assert LogRecord(before.nextSequence, last.0) in j.AppendedEach(appends).Records();
    }
  }
}
