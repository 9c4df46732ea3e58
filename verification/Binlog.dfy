/**
  The binlog manager of src/replication/replication.c as it runs: the current file's record is updated
  in place, copied behind the archived ones by rotation, and the oldest is shifted out. `disk` is the
  directory: what each named file holds, as the ids of its events. The clock, and what `fopen` and
  `fwrite` report, are parameters.
*/
module Binlog {
  import opened BinlogSpec

  datatype BinlogFile = BinlogFile(name: nat, events: seq<nat>, fileSize: nat, firstEventId: nat, lastEventId: nat)

  ghost function RecordsOf(files: seq<BinlogFile>): (s: seq<Record>)
    ensures |s| == |files| && forall i :: 0 <= i < |files| ==> s[i] == Record(files[i].name, files[i].events)
  {
    seq(|files|, i requires 0 <= i < |files| => Record(files[i].name, files[i].events))
  }

  class BinlogManager {
    const maxBinlogSize: nat
    const maxBinlogFiles: nat
    var current: BinlogFile
    var isOpen: bool
    var binlogs: seq<BinlogFile>
    var disk: map<nat, seq<nat>>
    var nextEventId: nat

    ghost function Value(): Log
      reads this
    {
      Log(RecordsOf(binlogs), if isOpen then Open(Record(current.name, current.events)) else Closed, disk, nextEventId,
          maxBinlogSize, maxBinlogFiles)
    }

    /** The recorded size and last id are those of the events written since the file was opened. */
    ghost predicate Valid()
      reads this
    {
      && current.fileSize == Size(current.events)
      && current.lastEventId == (if current.events == [] then 0 else current.events[|current.events| - 1])
      && Inv(Value())
    }

    /** `binlog_manager_create` and `binlog_manager_open` in an empty directory. */
    constructor (maxBinlogSize: nat, maxBinlogFiles: nat, clock: nat)
      ensures Valid() && Value() == Start(maxBinlogSize, maxBinlogFiles, clock)
    {
      this.maxBinlogSize, this.maxBinlogFiles := maxBinlogSize, maxBinlogFiles;
      current, isOpen, binlogs, disk, nextEventId := BinlogFile(clock, [], 0, 1, 0), true, [], map[clock := []], 1;
    }

    /** `binlog_manager_rotate`. The first event id recorded is the next one to be given, after the counter has moved on. */
    method Rotate(clock: nat, opens: bool) returns (ok: bool)
      requires isOpen
      modifies `current, `isOpen, `binlogs, `disk
      ensures Value() == RotateStep(old(Value()), clock, opens).0 && ok == RotateStep(old(Value()), clock, opens).1
      ensures isOpen == ok && (ok ==> current == BinlogFile(clock, [], 0, nextEventId, 0))
      ensures !ok ==> current == old(current)
    {
      isOpen := false;
      binlogs := binlogs + [current];
      assert RecordsOf(binlogs) == old(RecordsOf(binlogs)) + [Record(current.name, current.events)];
      if !opens {
        return false;
      }
      isOpen := true;
      current := BinlogFile(clock, [], 0, nextEventId, 0);
      disk := Opened(disk, clock);
      if |binlogs| > maxBinlogFiles {
        ghost var all := RecordsOf(binlogs);
        disk := disk - {binlogs[0].name};
        binlogs := binlogs[1..];
        assert RecordsOf(binlogs) == all[1..];
      }
      return true;
    }

    /** `replication_manager_write_binlog` and `binlog_manager_write`. */
    method WriteEvent(clock: nat, opens: bool, writes: bool) returns (ok: bool)
      requires Valid()
      modifies this
      ensures Valid()
      ensures Value() == WriteStep(old(Value()), Write(clock, opens, writes)).0
      ensures ok == WriteStep(old(Value()), Write(clock, opens, writes)).1
      ensures ok ==> current.lastEventId == old(nextEventId) && current.events != []
    {
      hide Inv, RotateStep, Opened;
      WriteKeepsInv(Value(), Write(clock, opens, writes));
      var id := nextEventId;
      nextEventId := nextEventId + 1;
      if !isOpen {
        return false;
      }
      if current.fileSize >= maxBinlogSize {
        var rotated := Rotate(clock, opens);
        if !rotated {
          return false;
        }
      }
      if !writes {
        return false;
      }
      disk := Appended(disk, current.name, id);
      current := current.(events := current.events + [id], fileSize := current.fileSize + EVENT_SIZE, lastEventId := id);
      return true;
    }
  }
}
