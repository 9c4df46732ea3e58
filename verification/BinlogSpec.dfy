/**
  The binary log of src/replication/replication.c: events go to the current file, a full file is
  archived, and the oldest archive goes when there are too many. An event is its id. A file is named by
  the second in which it is opened, and opening a name that exists appends to it; so the manager's
  records of its files are one thing, and what is on disk is another. The clock, and whether a file can
  be opened and a record written, are parameters of each step.
*/
module BinlogSpec {

  /** sizeof(binlog_event) with eight-byte pointers. */
  const EVENT_SIZE: nat := 40

  /** What the manager knows of a file: its name and the events written since it was opened. */
  datatype Record = Record(name: nat, events: seq<nat>)

  datatype Current = Closed | Open(record: Record)

  datatype Log = Log(archives: seq<Record>, current: Current, disk: map<nat, seq<nat>>, nextId: nat, maxSize: nat, maxFiles: nat)

  /** One call of `replication_manager_write_binlog`. */
  datatype Write = Write(clock: nat, opens: bool, writes: bool)

  function Size(events: seq<nat>): nat {
    EVENT_SIZE * |events|
  }

  function Opened(disk: map<nat, seq<nat>>, name: nat): map<nat, seq<nat>> {
    if name in disk then disk else disk[name := []]
  }

  /** `binlog_manager_rotate`: when the new file does not open, the oldest archive is not dropped either. */
  function RotateStep(log: Log, clock: nat, opens: bool): (Log, bool)
    requires log.current.Open?
  {
    var archives := log.archives + [log.current.record];
    if !opens then (log.(archives := archives, current := Closed), false)
    else
      var disk, current := Opened(log.disk, clock), Open(Record(clock, []));
      if |archives| > log.maxFiles then
        (log.(archives := archives[1..], current := current, disk := disk - {archives[0].name}), true)
      else (log.(archives := archives, current := current, disk := disk), true)
  }

  /** A record written to a file that has been removed while open is not on disk. */
  function Appended(disk: map<nat, seq<nat>>, name: nat, id: nat): map<nat, seq<nat>> {
    if name in disk then disk[name := disk[name] + [id]] else disk
  }

  /** The id is used up whether or not the event is written. */
  function WriteStep(log: Log, w: Write): (Log, bool) {
    var id := log.nextId;
    var log := log.(nextId := id + 1);
    if log.current.Closed? then (log, false)
    else
      var (ready, ok) := if Size(log.current.record.events) >= log.maxSize then RotateStep(log, w.clock, w.opens) else (log, true);
      if !ok || !w.writes then (ready, false)
      else
        var r := ready.current.record;
        (ready.(current := Open(r.(events := r.events + [id])), disk := Appended(ready.disk, r.name, id)), true)
  }

  function Start(maxSize: nat, maxFiles: nat, clock: nat): Log {
    Log([], Open(Record(clock, [])), map[clock := []], 1, maxSize, maxFiles)
  }

  function Run(start: Log, writes: seq<Write>): Log {
    if writes == [] then start else WriteStep(Run(start, writes[..|writes| - 1]), writes[|writes| - 1]).0
  }

  /** The ids of the events whose writing succeeded, in order. */
  function Written(start: Log, writes: seq<Write>): seq<nat> {
    if writes == [] then []
    else
      var front := writes[..|writes| - 1];
      var before := Run(start, front);
      Written(start, front) + if WriteStep(before, writes[|writes| - 1]).1 then [before.nextId] else []
  }

  function Records(log: Log): seq<Record> {
    log.archives + if log.current.Open? then [log.current.record] else []
  }

  function Flat(records: seq<Record>): seq<nat> {
    if records == [] then [] else records[0].events + Flat(records[1..])
  }

  /** The events that should be on disk, oldest first. */
  function Recorded(log: Log): seq<nat> {
    Flat(Records(log))
  }

  ghost predicate Suffix(part: seq<nat>, whole: seq<nat>) {
    |part| <= |whole| && part == whole[|whole| - |part|..]
  }

  ghost predicate Increasing(ids: seq<nat>, limit: nat) {
    (forall i :: 0 <= i < |ids| ==> ids[i] < limit) && forall i, j :: 0 <= i < j < |ids| ==> ids[i] < ids[j]
  }

  /** Without its last event a file is below the size limit. */
  predicate Bounded(events: seq<nat>, maxSize: nat) {
    |events| <= 1 || Size(events) < maxSize + EVENT_SIZE
  }

  /** No file passes the limit by a whole event, and archived ones have reached it, as far as they are recorded. */
  ghost predicate SizesOk(log: Log) {
    && (forall i :: 0 <= i < |log.archives| ==>
          log.maxSize <= Size(log.archives[i].events) && Bounded(log.archives[i].events, log.maxSize))
    && (log.current.Open? ==> Bounded(log.current.record.events, log.maxSize))
  }

  ghost predicate Inv(log: Log) {
    SizesOk(log) && |log.archives| <= log.maxFiles + (if log.current.Closed? then 1 else 0)
  }

  lemma {:induction false} FlatAppend(records: seq<Record>, r: Record)
    ensures Flat(records + [r]) == Flat(records) + r.events
  {
    if records == [] {
      assert [] + [r] == [r] && [r][1..] == [];
    } else {
      assert (records + [r])[1..] == records[1..] + [r];
      FlatAppend(records[1..], r);
    }
  }

  lemma WriteKeepsInv(log: Log, w: Write)
    requires Inv(log)
    ensures Inv(WriteStep(log, w).0)
  {
  }

  /** A write rotates, and opens the new file. */
  predicate Rotates(log: Log, w: Write) {
    log.current.Open? && Size(log.current.record.events) >= log.maxSize && w.opens
  }

  /** The rotation deletes the oldest file: there are more archives than allowed. */
  predicate Drops(log: Log, w: Write) {
    Rotates(log, w) && |log.archives| >= log.maxFiles
  }

  function Dropped(log: Log, w: Write): seq<nat> {
    if Drops(log, w) then Records(log)[0].events else []
  }

  lemma RotateRetains(log: Log, clock: nat, opens: bool)
    requires log.current.Open?
    ensures Recorded(log) == (if opens && |log.archives| >= log.maxFiles then Records(log)[0].events else [])
                             + Recorded(RotateStep(log, clock, opens).0)
  {
    var all := Records(log);
    FlatAppend(all, Record(clock, []));
    FlatAppend(all[1..], Record(clock, []));
    assert all + [] == all;
  }

  lemma AppendRetains(log: Log, id: nat, disk: map<nat, seq<nat>>)
    requires log.current.Open?
    ensures var r := log.current.record;
            Recorded(log.(current := Open(r.(events := r.events + [id])), disk := disk)) == Recorded(log) + [id]
  {
    FlatAppend(log.archives, log.current.record);
    FlatAppend(log.archives, log.current.record.(events := log.current.record.events + [id]));
  }

  /** A write adds its event after those recorded, if it succeeds, and takes away only the dropped file, from the front. */
  lemma WriteRetains(log: Log, w: Write)
    ensures var (log', ok) := WriteStep(log, w);
            && Recorded(log) + (if ok then [log.nextId] else []) == Dropped(log, w) + Recorded(log')
            && (Dropped(log, w) != [] ==> |log'.archives| >= log.maxFiles)
  {
    hide Flat;
    if log.current.Open? {
      var next := log.(nextId := log.nextId + 1);
      var rotates := Size(log.current.record.events) >= log.maxSize;
      if rotates {
        RotateRetains(next, w.clock, w.opens);
      }
      var (ready, ok) := if rotates then RotateStep(next, w.clock, w.opens) else (next, true);
      if ok && w.writes {
        AppendRetains(ready, log.nextId, Appended(ready.disk, ready.current.record.name, log.nextId));
      }
    }
  }

  /** Reachable states keep the bounds on the number and the sizes of files. */
  lemma {:induction false} RunKeepsInv(start: Log, writes: seq<Write>)
    requires Inv(start)
    ensures var log := Run(start, writes); Inv(log) && log.maxSize == start.maxSize && log.maxFiles == start.maxFiles
  {
    if writes != [] {
      RunKeepsInv(start, writes[..|writes| - 1]);
      WriteKeepsInv(Run(start, writes[..|writes| - 1]), writes[|writes| - 1]);
    }
  }

  // ---------- What is on disk ----------

  ghost predicate Named(records: seq<Record>, name: nat) {
    exists i :: 0 <= i < |records| && records[i].name == name
  }

  /** The events recorded under one name, which share a file. */
  function EventsNamed(records: seq<Record>, name: nat): seq<nat> {
    if records == [] then []
    else
      var last := records[|records| - 1];
      EventsNamed(records[..|records| - 1], name) + if last.name == name then last.events else []
  }

  /** The files on disk are the ones recorded, and each holds exactly the events recorded under its name, in order. */
  ghost predicate Faithful(log: Log) {
    forall name ::
      && (name in log.disk <==> Named(Records(log), name))
      && (name in log.disk ==> log.disk[name] == EventsNamed(Records(log), name))
  }

  ghost predicate OnDisk(log: Log, id: nat) {
    exists name :: name in log.disk && id in log.disk[name]
  }

  /** A rotation deletes a file whose name is recorded again, for a later archive or the new file itself. */
  ghost predicate Unlinks(log: Log, w: Write) {
    Drops(log, w) && (w.clock == Records(log)[0].name || Named(Records(log)[1..], Records(log)[0].name))
  }

  lemma {:induction false} EventsNamedIn(records: seq<Record>, id: nat)
    ensures id in Flat(records) <==> exists name :: Named(records, name) && id in EventsNamed(records, name)
  {
    if records == [] {
      assert forall name :: EventsNamed(records, name) == [];
    } else {
      var front, last := records[..|records| - 1], records[|records| - 1];
      EventsNamedIn(front, id);
      FlatAppend(front, last);
      assert records == front + [last];
      if name :| Named(front, name) && id in EventsNamed(front, name) {
        var i :| 0 <= i < |front| && front[i].name == name;
        assert records[i].name == name;
        assert Named(records, name) && id in EventsNamed(records, name);
      } else if id in last.events {
        assert records[|records| - 1].name == last.name;
        assert Named(records, last.name) && id in EventsNamed(records, last.name);
      } else {
        forall name | Named(records, name)
          ensures id !in EventsNamed(records, name)
        {
          if !Named(front, name) {
            NothingNamed(front, name);
          }
        }
      }
    }
  }

  lemma {:induction false} NothingNamed(records: seq<Record>, name: nat)
    requires !Named(records, name)
    ensures EventsNamed(records, name) == []
  {
    if records != [] {
      assert records[|records| - 1].name != name;
      assert forall i :: 0 <= i < |records| - 1 ==> records[..|records| - 1][i].name == records[i].name;
      NothingNamed(records[..|records| - 1], name);
    }
  }

  lemma {:induction false} EventsNamedConcat(a: seq<Record>, b: seq<Record>, name: nat)
    ensures EventsNamed(a + b, name) == EventsNamed(a, name) + EventsNamed(b, name)
    ensures Named(a + b, name) <==> Named(a, name) || Named(b, name)
  {
    hide EventsNamed, Named;
    if b == [] {
      assert a + b == a;
      NobodyNamed(name);
    } else {
      var front, last := b[..|b| - 1], b[|b| - 1];
      assert a + b == (a + front) + [last] && b == front + [last];
      EventsNamedConcat(a, front, name);
      NamedAppend(a + front, last, name);
      NamedAppend(front, last, name);
    }
  }

  lemma NamedAppend(records: seq<Record>, r: Record, name: nat)
    ensures Named(records + [r], name) <==> Named(records, name) || r.name == name
    ensures EventsNamed(records + [r], name) == EventsNamed(records, name) + if r.name == name then r.events else []
  {
    var all := records + [r];
    assert all[..|records|] == records && all[|records|] == r;
    if Named(records, name) {
      var i :| 0 <= i < |records| && records[i].name == name;
      assert all[i].name == name;
    }
  }

  lemma NamedPrepend(r: Record, records: seq<Record>, name: nat)
    ensures Named([r] + records, name) <==> r.name == name || Named(records, name)
    ensures EventsNamed([r] + records, name) == (if r.name == name then r.events else []) + EventsNamed(records, name)
  {
    EventsNamedConcat([r], records, name);
    NamedAppend([], r, name);
    assert [] + [r] == [r];
    NobodyNamed(name);
  }

  /** A faithful log holds on disk exactly the recorded events. */
  lemma FaithfulHolds(log: Log, id: nat)
    requires Faithful(log)
    ensures OnDisk(log, id) <==> id in Recorded(log)
  {
    hide Flat, EventsNamed, Named;
    EventsNamedIn(Records(log), id);
  }

  /** A rotation stays faithful exactly if it does not delete a file that is recorded again. */
  lemma RotateFaithful(log: Log, w: Write)
    requires log.current.Open? && Faithful(log) && Size(log.current.record.events) >= log.maxSize
    ensures Faithful(RotateStep(log, w.clock, w.opens).0) <==> !Unlinks(log, w)
  {
    hide EventsNamed, Named;
    var all, newest, log' := Records(log), Record(w.clock, []), RotateStep(log, w.clock, w.opens).0;
    assert Records(log') == if !w.opens then all else (if Drops(log, w) then all[1..] else all) + [newest];
    assert all == [all[0]] + all[1..];
    forall name
      ensures Named(all, name) <==> all[0].name == name || Named(all[1..], name)
      ensures EventsNamed(all, name) == (if all[0].name == name then all[0].events else []) + EventsNamed(all[1..], name)
      ensures Named(all + [newest], name) <==> Named(all, name) || w.clock == name
      ensures EventsNamed(all + [newest], name) == EventsNamed(all, name)
      ensures Named(all[1..] + [newest], name) <==> Named(all[1..], name) || w.clock == name
      ensures EventsNamed(all[1..] + [newest], name) == EventsNamed(all[1..], name)
      ensures !Named(all, name) ==> EventsNamed(all, name) == []
    {
      NamedPrepend(all[0], all[1..], name);
      NamedAppend(all, newest, name);
      NamedAppend(all[1..], newest, name);
      if !Named(all, name) {
        NothingNamed(all, name);
      }
    }
    if Unlinks(log, w) {
      assert Named(Records(log'), all[0].name) && all[0].name !in log'.disk;
    }
  }

  lemma AppendFaithful(log: Log, id: nat)
    requires log.current.Open?
    ensures var r := log.current.record;
            var log' := log.(current := Open(r.(events := r.events + [id])), disk := Appended(log.disk, r.name, id));
            Faithful(log) ==> Faithful(log')
  {
    hide EventsNamed, Named;
    var r, archives := log.current.record, log.archives;
    var r' := r.(events := r.events + [id]);
    forall name
      ensures Named(archives + [r'], name) <==> Named(archives + [r], name)
      ensures EventsNamed(archives + [r'], name) == EventsNamed(archives + [r], name) + if name == r.name then [id] else []
      ensures Named(archives + [r], r.name)
    {
      NamedAppend(archives, r, name);
      NamedAppend(archives, r', name);
      NamedAppend(archives, r, r.name);
    }
  }

  /** The converse: appending to a file that is not as recorded does not mend it. */
  lemma AppendUnfaithful(log: Log, id: nat)
    requires log.current.Open? && !Faithful(log)
    ensures var r := log.current.record;
            !Faithful(log.(current := Open(r.(events := r.events + [id])), disk := Appended(log.disk, r.name, id)))
  {
    hide EventsNamed, Named;
    var r, archives := log.current.record, log.archives;
    var r' := r.(events := r.events + [id]);
    var log' := log.(current := Open(r'), disk := Appended(log.disk, r.name, id));
    forall name
      ensures Named(archives + [r'], name) <==> Named(archives + [r], name)
      ensures EventsNamed(archives + [r'], name) == EventsNamed(archives + [r], name) + if name == r.name then [id] else []
    {
      NamedAppend(archives, r, name);
      NamedAppend(archives, r', name);
    }
    if Faithful(log') {
      forall name
        ensures name in log.disk <==> Named(Records(log), name)
        ensures name in log.disk ==> log.disk[name] == EventsNamed(Records(log), name)
      {
        assert name in log'.disk <==> Named(Records(log'), name);
        if name in log.disk && name == r.name {
          LastOff(log.disk[name], EventsNamed(Records(log), name), id);
        }
      }
      assert false;
    }
  }

  lemma LastOff<T>(a: seq<T>, b: seq<T>, x: T)
    requires a + [x] == b + [x]
    ensures a == b
  {
    assert a == (a + [x])[..|a|] && b == (b + [x])[..|b|] && |a + [x]| == |b + [x]|;
  }

  /** One write keeps every recorded event on disk exactly if it does not delete a file that is recorded again. */
  lemma WriteFaithful(log: Log, w: Write)
    requires Faithful(log)
    ensures Faithful(WriteStep(log, w).0) <==> !Unlinks(log, w)
  {
    hide Faithful, EventsNamed, Named;
    var next := log.(nextId := log.nextId + 1);
    NextIdAlone(log, log.nextId + 1);
    if log.current.Open? {
      var rotates := Size(log.current.record.events) >= log.maxSize;
      if rotates {
        RotateFaithful(next, w);
      }
      var (ready, ok) := if rotates then RotateStep(next, w.clock, w.opens) else (next, true);
      if ok && w.writes {
        AppendFaithful(ready, log.nextId);
        if !Faithful(ready) {
          AppendUnfaithful(ready, log.nextId);
        }
      }
    }
  }

  lemma NextIdAlone(log: Log, id: nat)
    ensures Faithful(log.(nextId := id)) <==> Faithful(log)
  {
    assert Records(log.(nextId := id)) == Records(log);
  }

  // ---------- Runs ----------

  ghost predicate NeverUnlinks(start: Log, writes: seq<Write>) {
    writes == []
    || (NeverUnlinks(start, writes[..|writes| - 1]) && !Unlinks(Run(start, writes[..|writes| - 1]), writes[|writes| - 1]))
  }

  ghost predicate FaithfulAfter(start: Log, writes: seq<Write>, n: nat)
    requires n <= |writes|
  {
    Faithful(Run(start, writes[..n]))
  }

  lemma StartFaithful(maxSize: nat, maxFiles: nat, clock: nat)
    ensures Faithful(Start(maxSize, maxFiles, clock)) && Inv(Start(maxSize, maxFiles, clock))
  {
    hide EventsNamed, Named;
    var log, none, r := Start(maxSize, maxFiles, clock), [], Record(clock, []);
    assert Records(log) == none + [r];
    forall name
      ensures Named(none + [r], name) <==> name == clock
      ensures EventsNamed(none + [r], name) == []
    {
      NamedAppend(none, r, name);
      NobodyNamed(name);
    }
  }

  lemma NobodyNamed(name: nat)
    ensures !Named([], name) && EventsNamed([], name) == []
  {
  }

  lemma StartRecordsNothing(maxSize: nat, maxFiles: nat, clock: nat)
    ensures Recorded(Start(maxSize, maxFiles, clock)) == []
  {
    var records := Records(Start(maxSize, maxFiles, clock));
    assert records == [Record(clock, [])] && records[1..] == [] && Flat(records[1..]) == [];
  }

  /** The files hold exactly what is recorded after every write of a run if and only if no rotation deletes a file recorded again. */
  lemma {:induction false} RunFaithfulExactly(start: Log, writes: seq<Write>)
    requires Faithful(start)
    ensures (forall n :: 0 <= n <= |writes| ==> FaithfulAfter(start, writes, n)) <==> NeverUnlinks(start, writes)
  {
    hide Faithful, Unlinks, WriteStep;
    assert writes[..|writes|] == writes;
    if writes == [] {
      assert writes[..0] == [];
    } else {
      var front, w := writes[..|writes| - 1], writes[|writes| - 1];
      RunFaithfulExactly(start, front);
      forall n | 0 <= n <= |front|
        ensures FaithfulAfter(start, writes, n) <==> FaithfulAfter(start, front, n)
      {
        assert writes[..n] == front[..n];
      }
      if FaithfulAfter(start, writes, |front|) {
        WriteFaithful(Run(start, front), w);
      }
      assert FaithfulAfter(start, writes, |writes|) <==> Faithful(WriteStep(Run(start, front), w).0);
    }
  }

  /**
    After any run, whatever failed in it, the records hold the latest of the events written, without a gap,
    with increasing ids; if any are missing, there are as many archives as are allowed. And what is recorded
    is on disk, and nothing else, if no rotation deleted a file that is recorded again.
  */
  lemma {:induction false} RunRetainsSuffix(maxSize: nat, maxFiles: nat, clock: nat, writes: seq<Write>)
    ensures var start := Start(maxSize, maxFiles, clock);
            var log, all := Run(start, writes), Written(start, writes);
            && Suffix(Recorded(log), all) && Increasing(all, log.nextId)
            && (Recorded(log) == all || |log.archives| >= maxFiles)
            && (NeverUnlinks(start, writes) ==> Faithful(log) && forall id :: OnDisk(log, id) <==> id in Recorded(log))
  {
    hide WriteStep, Recorded, Run, Suffix, Increasing, Dropped, Inv, Faithful, Unlinks, OnDisk;
    var start := Start(maxSize, maxFiles, clock);
    StartFaithful(maxSize, maxFiles, clock);
    StartRecordsNothing(maxSize, maxFiles, clock);
    RecordsRetain(start, writes);
    if NeverUnlinks(start, writes) {
      RunFaithfulExactly(start, writes);
      assert FaithfulAfter(start, writes, |writes|) && writes[..|writes|] == writes;
      forall id
        ensures OnDisk(Run(start, writes), id) <==> id in Recorded(Run(start, writes))
      {
        FaithfulHolds(Run(start, writes), id);
      }
    }
  }

  lemma {:induction false} RecordsRetain(start: Log, writes: seq<Write>)
    requires Recorded(start) == [] && Inv(start)
    ensures var log, all := Run(start, writes), Written(start, writes);
            && Suffix(Recorded(log), all) && Increasing(all, log.nextId)
            && (Recorded(log) == all || |log.archives| >= start.maxFiles)
  {
    hide WriteStep, Recorded, Run, Suffix, Increasing, Dropped, Inv;
    if writes == [] {
      NothingYet(start);
    } else {
      var front, w := writes[..|writes| - 1], writes[|writes| - 1];
      RecordsRetain(start, front);
      RunStep(start, writes);
      RunKeepsInv(start, front);
      var before := Run(start, front);
      WriteRetains(before, w);
      ArchivesStay(before, w);
      var all := Written(start, front);
      OneMoreId(all, before.nextId);
      var added := if WriteStep(before, w).1 then [before.nextId] else [];
      SuffixOfMore(Recorded(before), all, added, Dropped(before, w), Recorded(WriteStep(before, w).0));
    }
  }

  lemma OneMoreId(ids: seq<nat>, next: nat)
    requires Increasing(ids, next)
    ensures Increasing(ids, next + 1) && Increasing(ids + [next], next + 1) && ids + [] == ids
  {
  }

  /** Appending to both, and dropping from the front of one, leaves a suffix. */
  lemma SuffixOfMore(part: seq<nat>, whole: seq<nat>, added: seq<nat>, head: seq<nat>, part': seq<nat>)
    requires Suffix(part, whole) && part + added == head + part'
    ensures Suffix(part', whole + added)
    ensures part == whole && head == [] ==> part' == whole + added
  {
    var n := |whole| - |part|;
    assert whole + added == whole[..n] + (part + added);
  }

  lemma NothingYet(start: Log)
    ensures Run(start, []) == start && Suffix([], []) && Increasing([], start.nextId)
  {
  }

  lemma RunStep(start: Log, writes: seq<Write>)
    requires writes != []
    ensures Run(start, writes) == WriteStep(Run(start, writes[..|writes| - 1]), writes[|writes| - 1]).0
  {
  }

  lemma ArchivesStay(log: Log, w: Write)
    ensures var log' := WriteStep(log, w).0;
            && log'.nextId == log.nextId + 1 && log'.maxFiles == log.maxFiles
            && (|log'.archives| >= |log.archives| || |log'.archives| >= log.maxFiles)
  {
  }

  // ---------- Names that are not used twice ----------

  ghost predicate DistinctNames(records: seq<Record>) {
    forall i, j :: 0 <= i < j < |records| ==> records[i].name != records[j].name
  }

  /** No rotation of the run falls into a second in which a file was opened that is still recorded. */
  ghost predicate FreshNames(start: Log, writes: seq<Write>) {
    writes == []
    || (FreshNames(start, writes[..|writes| - 1])
        && (Rotates(Run(start, writes[..|writes| - 1]), writes[|writes| - 1]) ==>
              !Named(Records(Run(start, writes[..|writes| - 1])), writes[|writes| - 1].clock)))
  }

  lemma FreshStep(log: Log, w: Write)
    requires DistinctNames(Records(log)) && (Rotates(log, w) ==> !Named(Records(log), w.clock))
    ensures DistinctNames(Records(WriteStep(log, w).0)) && !Unlinks(log, w)
  {
    var all, all' := Records(log), Records(WriteStep(log, w).0);
    if Rotates(log, w) {
      assert all[0].name != w.clock;
      assert [] + [log.nextId] == [log.nextId];
      assert all' == (if Drops(log, w) then all[1..] else all) + [Record(w.clock, if w.writes then [log.nextId] else [])];
    } else {
      assert |all'| == |all| && forall i :: 0 <= i < |all| ==> all'[i].name == all[i].name;
    }
  }

  /** With at most one file opened in a second, nothing recorded is lost. */
  lemma {:induction false} FreshNamesNeverUnlink(maxSize: nat, maxFiles: nat, clock: nat, writes: seq<Write>)
    requires FreshNames(Start(maxSize, maxFiles, clock), writes)
    ensures NeverUnlinks(Start(maxSize, maxFiles, clock), writes)
    ensures DistinctNames(Records(Run(Start(maxSize, maxFiles, clock), writes)))
  {
    hide Unlinks, Rotates, DistinctNames, WriteStep, Named;
    if writes == [] {
      StartIsDistinct(maxSize, maxFiles, clock);
    } else {
      FreshNamesNeverUnlink(maxSize, maxFiles, clock, writes[..|writes| - 1]);
      FreshStep(Run(Start(maxSize, maxFiles, clock), writes[..|writes| - 1]), writes[|writes| - 1]);
    }
  }

  lemma StartIsDistinct(maxSize: nat, maxFiles: nat, clock: nat)
    ensures DistinctNames(Records(Start(maxSize, maxFiles, clock)))
  {
  }

  // ---------- A run that loses events ----------

  function OneWritten(clock: nat): Log {
    Log([], Open(Record(clock, [1])), map[clock := [1]], 2, EVENT_SIZE, 1)
  }

  function TwoWritten(clock: nat): Log {
    Log([Record(clock, [1])], Open(Record(clock, [2])), map[clock := [1, 2]], 3, EVENT_SIZE, 1)
  }

  function ThreeWritten(clock: nat): Log {
    Log([Record(clock, [2])], Open(Record(clock, [3])), map[], 4, EVENT_SIZE, 1)
  }

  lemma FirstOfThree(clock: nat)
    ensures WriteStep(Start(EVENT_SIZE, 1, clock), Write(clock, true, true)) == (OneWritten(clock), true)
  {
    var none: seq<nat> := [];
    assert none + [1] == [1] && map[clock := none][clock := [1]] == map[clock := [1]];
  }

  lemma SecondOfThree(clock: nat)
    ensures WriteStep(OneWritten(clock), Write(clock, true, true)) == (TwoWritten(clock), true)
  {
    var none: seq<nat> := [];
    var one: seq<nat> := [1];
    var records: seq<Record> := [];
    assert none + [2] == [2] && one + [2] == [1, 2] && records + [Record(clock, one)] == [Record(clock, one)];
    assert map[clock := one][clock := [1, 2]] == map[clock := [1, 2]];
  }

  lemma ThirdOfThree(clock: nat)
    ensures WriteStep(TwoWritten(clock), Write(clock, true, true)) == (ThreeWritten(clock), true)
  {
    var none: seq<nat> := [];
    var before: seq<Record> := [Record(clock, [1])];
    assert none + [3] == [3] && (before + [Record(clock, [2])])[1..] == [Record(clock, [2])];
    assert map[clock := [1, 2]] - {clock} == map[];
  }

  lemma WrittenStep(start: Log, writes: seq<Write>, w: Write)
    ensures Run(start, writes + [w]) == WriteStep(Run(start, writes), w).0
    ensures Written(start, writes + [w])
            == Written(start, writes) + if WriteStep(Run(start, writes), w).1 then [Run(start, writes).nextId] else []
    ensures Run(start, []) == start && Written(start, []) == []
  {
    assert (writes + [w])[..|writes|] == writes;
  }

  lemma ThreeRecorded(clock: nat)
    ensures Recorded(ThreeWritten(clock)) == [2, 3] && ThreeWritten(clock).disk == map[]
  {
    var records := Records(ThreeWritten(clock));
    assert records == [Record(clock, [2]), Record(clock, [3])] && records[1..] == [Record(clock, [3])] && records[1..][1..] == [];
    assert Flat(records[1..]) == [3];
  }

  /** Three writes in one second with one archive allowed: all succeed, and nothing is left on disk. */
  lemma SameSecondLosesEvents(clock: nat)
    ensures var start, w := Start(EVENT_SIZE, 1, clock), Write(clock, true, true);
            && Written(start, [w, w, w]) == [1, 2, 3] && Recorded(Run(start, [w, w, w])) == [2, 3]
            && Run(start, [w, w, w]).disk == map[]
  {
    hide Run, Written, Recorded;
    ThreeInASecond(clock, Write(clock, true, true));
  }

  lemma ThreeInASecond(clock: nat, w: Write)
    requires w == Write(clock, true, true)
    ensures var start := Start(EVENT_SIZE, 1, clock);
            && Written(start, [w, w, w]) == [1, 2, 3] && Recorded(Run(start, [w, w, w])) == [2, 3]
            && Run(start, [w, w, w]).disk == map[]
  {
    hide Run, Written, WriteStep, Recorded, OneWritten, TwoWritten, ThreeWritten;
    var start := Start(EVENT_SIZE, 1, clock);
    NextIds(clock);
    FirstOfThree(clock);
    SecondOfThree(clock);
    ThirdOfThree(clock);
    WrittenStep(start, [], w);
    WrittenStep(start, [w], w);
    WrittenStep(start, [w, w], w);
    assert [] + [w] == [w] && [w] + [w] == [w, w] && [w, w] + [w] == [w, w, w];
    ThreeRecorded(clock);
  }

  lemma NextIds(clock: nat)
    ensures Start(EVENT_SIZE, 1, clock).nextId == 1 && OneWritten(clock).nextId == 2 && TwoWritten(clock).nextId == 3
  {
  }

  // ---------- Ids and sizes in numbers ----------

  /** What one write does: an event of 40 bytes goes to the current file, after a rotation if that has reached its size. */
  lemma WriteEffect(log: Log, w: Write)
    requires log.current.Open?
    ensures var (log', ok) := WriteStep(log, w);
            var r, full := log.current.record, 40 * |log.current.record.events| >= log.maxSize;
            && (ok <==> w.writes && (full ==> w.opens))
            && (!full && ok ==> log'.current == Open(Record(r.name, r.events + [log.nextId])) && log'.archives == log.archives)
            && (full && ok ==> log'.current == Open(Record(w.clock, [log.nextId])))
            && (full && !w.opens ==> log'.current == Closed && log'.archives == log.archives + [r])
            && (full && w.opens ==> log'.archives == if |log.archives| < log.maxFiles then log.archives + [r] else (log.archives + [r])[1..])
  {
    var none: seq<nat> := [];
    assert none + [log.nextId] == [log.nextId];
  }

  ghost predicate Succeeds(start: Log, writes: seq<Write>, n: int) {
    0 <= n < |writes| && WriteStep(Run(start, writes[..n]), writes[n]).1
  }

  /** Every write takes one id, whether or not it succeeds, and the id of an event is the number of its write. */
  lemma {:induction false} WritesAreNumbered(maxSize: nat, maxFiles: nat, clock: nat, writes: seq<Write>)
    ensures var start := Start(maxSize, maxFiles, clock);
            && Run(start, writes).nextId == |writes| + 1
            && forall id :: id in Written(start, writes) <==> Succeeds(start, writes, id - 1)
  {
    hide WriteStep;
    var start := Start(maxSize, maxFiles, clock);
    if writes != [] {
      var n := |writes| - 1;
      var front := writes[..n];
      WritesAreNumbered(maxSize, maxFiles, clock, front);
      ArchivesStay(Run(start, front), writes[n]);
      forall i
        ensures Succeeds(start, writes, i) <==> if i == n then WriteStep(Run(start, front), writes[n]).1 else Succeeds(start, front, i)
      {
        if 0 <= i < n {
          assert front[..i] == writes[..i];
        }
      }
    }
  }
}
