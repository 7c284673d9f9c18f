/** A log file that is renamed away when it gets too long, with a number of older files kept as backups. */
module RotatingFile {
  import opened Sequences
  import opened Storage

  /** The files of one log: 0 is the file that is written, i is the backup with suffix i. */
  class FileSystem {
    var files: map<nat, seq<byte>>

    constructor (files: map<nat, seq<byte>>)
      ensures this.files == files
    {
      this.files := files;
    }

    predicate Exists(k: nat)
      reads this
    {
      k in files
    }

    method Remove(k: nat)
      requires Exists(k)
      modifies this
      ensures files == old(files) - {k}
    {
      files := files - {k};
    }

    method Move(from: nat, to: nat)
      requires Exists(from) && from != to
      modifies this
      ensures files == (old(files) - {from})[to := old(files)[from]]
    {
      files := (files - {from})[to := files[from]];
    }

    /** Opening a file for writing creates or empties it. */
    method Create(k: nat)
      modifies this
      ensures files == old(files)[k := []]
    {
      files := files[k := []];
    }

    method Append(k: nat, b: seq<byte>)
      requires Exists(k)
      modifies this
      ensures files == old(files)[k := old(files)[k] + b]
    {
      files := files[k := files[k] + b];
    }
  }

  /** The backups, oldest first, and then the current file. */
  function Kept(files: map<nat, seq<byte>>, backups: nat): seq<byte>
    requires forall k :: 0 <= k <= backups ==> k in files
  {
    if backups == 0 then files[0] else files[backups] + Kept(files, backups - 1)
  }

  function Fewer(a: nat, b: nat): nat
  {
    if a < b then a else b
  }

  /** The files after a rollover: each is one older, the oldest is gone if there are too many. */
  ghost predicate Rolled(after: map<nat, seq<byte>>, before: map<nat, seq<byte>>, backups: nat, backupCount: nat)
    requires forall k :: 0 <= k <= backups ==> k in before
  {
    && (forall k: nat :: k in after <==> k <= Fewer(backups + 1, backupCount))
    && after[0] == []
    && forall k: nat :: 0 < k && k in after ==> after[k] == before[k - 1]
  }

  /** How often a limit makes a run of writes begin a new file, and the length of the current one. */
  datatype Usage = Usage(rollovers: nat, byteCount: nat)

  /** The next write does not fit into the file, and would not be its first and too long for any file. */
  predicate GoesOver(maxBytes: nat, byteCount: nat, len: nat)
  {
    maxBytes > 0 && !(byteCount == 0 && len > maxBytes) && byteCount + len > maxBytes
  }

  function Used(maxBytes: nat, writes: seq<seq<byte>>): Usage
  {
    if writes == [] then Usage(0, 0)
    else
      var before, len := Used(maxBytes, writes[..|writes| - 1]), |writes[|writes| - 1]|;
      if GoesOver(maxBytes, before.byteCount, len) then Usage(before.rollovers + 1, len)
      else Usage(before.rollovers, before.byteCount + len)
  }

  lemma UsedNext(maxBytes: nat, writes: seq<seq<byte>>, buffer: seq<byte>)
    ensures var before := Used(maxBytes, writes);
            Used(maxBytes, writes + [buffer])
            == if GoesOver(maxBytes, before.byteCount, |buffer|) then Usage(before.rollovers + 1, |buffer|)
               else Usage(before.rollovers, before.byteCount + |buffer|)
  {
    assert (writes + [buffer])[..|writes|] == writes;
  }

  lemma {:induction false} NoLimitNoRollover(writes: seq<seq<byte>>)
    ensures Used(0, writes).rollovers == 0
  {
    if writes != [] {
      NoLimitNoRollover(writes[..|writes| - 1]);
    }
  }

  /** How many of the writes have any bytes. */
  function Nonempty(writes: seq<seq<byte>>): nat
  {
    if writes == [] then 0
    else Nonempty(writes[..|writes| - 1]) + if writes[|writes| - 1] != [] then 1 else 0
  }

  lemma {:induction false} NothingWritten(writes: seq<seq<byte>>)
    requires Flatten(writes) == []
    ensures Nonempty(writes) == 0
  {
    if writes != [] {
      NothingWritten(writes[..|writes| - 1]);
    }
  }

  lemma NonemptyNext(writes: seq<seq<byte>>, buffer: seq<byte>)
    ensures Nonempty(writes + [buffer]) == Nonempty(writes) + if buffer != [] then 1 else 0
  {
    assert (writes + [buffer])[..|writes|] == writes;
  }

  /** What writes hold together of which one at most has any bytes. */
  lemma {:induction false} OneWritten(writes: seq<seq<byte>>)
    requires Nonempty(writes) <= 1
    ensures Nonempty(writes) == 0 ==> Flatten(writes) == []
    ensures Nonempty(writes) == 1 ==> Flatten(writes) in writes
  {
    if writes != [] {
      var n := |writes| - 1;
      OneWritten(writes[..n]);
      assert writes == writes[..n] + [writes[n]];
      assert Flatten(writes[..n]) + [] == Flatten(writes[..n]);
      assert [] + writes[n] == writes[n];
    }
  }

  /** All writes, and for the current file and each backup the first write in it. */
  datatype Log = Log(history: seq<seq<byte>>, starts: seq<nat>) {
    /** Behind the last write in file k. */
    function Stop(k: nat): nat
      requires k < |starts|
    {
      if k == 0 then |history| else starts[k - 1]
    }

    /** File k holds its writes. */
    ghost predicate Holds(files: map<nat, seq<byte>>, k: nat)
      requires k < |starts|
    {
      && k in files && starts[k] <= Stop(k) <= |history|
      && files[k] == Flatten(history[starts[k]..Stop(k)])
    }

    /** File k is not too long, unless of its writes a single one has any bytes. */
    ghost predicate Short(files: map<nat, seq<byte>>, k: nat, maxBytes: nat)
      requires k in files && k < |starts| && starts[k] <= Stop(k) <= |history|
    {
      0 < maxBytes < |files[k]| ==> Nonempty(history[starts[k]..Stop(k)]) == 1
    }

    /** File k was only given up because the next write did not fit. */
    ghost predicate GivenUp(files: map<nat, seq<byte>>, k: nat, maxBytes: nat)
      requires k in files && k < |starts|
    {
      0 < k ==>
        && 0 < maxBytes && files[k] != []
        && starts[k - 1] < |history| && |files[k]| + |history[starts[k - 1]]| > maxBytes
    }

    ghost predicate Fits(files: map<nat, seq<byte>>, maxBytes: nat)
    {
      && 0 < |starts|
      && (forall k: nat :: k in files <==> k < |starts|)
      && forall k: nat :: k < |starts| ==>
           Holds(files, k) && Short(files, k, maxBytes) && GivenUp(files, k, maxBytes)
    }

    function Wrote(buffer: seq<byte>): Log
    {
      Log(history + [buffer], starts)
    }

    function RolledOver(backupCount: nat): Log
    {
      Log(history, [|history|] + starts[..Fewer(|starts|, backupCount)])
    }
  }

  /** Which files there are while the backups behind i have moved and the others have not. */
  predicate InShift(b: nat, backupCount: nat, i: nat, k: nat)
  {
    if k <= i then k <= b
    else if k == i + 1 then k == backupCount && k <= b
    else k <= Fewer(b + 1, backupCount)
  }

  ghost predicate Shifting(files: map<nat, seq<byte>>, before: map<nat, seq<byte>>, b: nat, backupCount: nat, i: nat)
    requires forall k: nat :: k in before <==> k <= b
  {
    && (forall k: nat :: k in files <==> InShift(b, backupCount, i, k))
    && (forall k: nat :: k in files ==> files[k] == before[if k <= i + 1 then k else k - 1])
  }

  lemma ShiftBegins(before: map<nat, seq<byte>>, b: nat, backupCount: nat)
    requires (forall k: nat :: k in before <==> k <= b) && b <= backupCount && 0 < backupCount
    ensures Shifting(before, before, b, backupCount, backupCount - 1)
  {
  }

  lemma ShiftNext(files: map<nat, seq<byte>>, before: map<nat, seq<byte>>, b: nat, backupCount: nat, i: nat)
    requires forall k: nat :: k in before <==> k <= b
    requires 0 < i < backupCount && Shifting(files, before, b, backupCount, i)
    ensures if i in files then Shifting((files - {i})[i + 1 := files[i]], before, b, backupCount, i - 1)
            else Shifting(files, before, b, backupCount, i - 1)
  {
  }

  class RotatingFileOutputStream {
    const fs: FileSystem
    const maxBytes: nat
    const backupCount: nat
    var byteCount: nat
    /** What was written. */
    ghost var log: Log

    constructor (fs: FileSystem, maxBytes: nat, backupCount: nat)
      requires forall k :: k in fs.files ==> k == 0
      modifies fs
      ensures Valid() && log.history == []
      ensures this.fs == fs && this.maxBytes == maxBytes && this.backupCount == backupCount
    {
      this.fs, this.maxBytes, this.backupCount, byteCount := fs, maxBytes, backupCount, 0;
      log := Log([], [0]);
      new;
      fs.Create(0);
      // Opening the file empties it, so that the constructor's own check never rolls over.
      assert !ShouldRollover(0);
    }

    ghost predicate Valid()
      reads this, fs
    {
      && log.Fits(fs.files, maxBytes)
      && |fs.files[0]| == byteCount == Used(maxBytes, log.history).byteCount
      && var rollovers := Used(maxBytes, log.history).rollovers;
         && |log.starts| == Fewer(rollovers, backupCount) + 1
         && (rollovers <= backupCount ==> log.starts[|log.starts| - 1] == 0)
    }

    predicate ShouldRollover(len: nat)
      reads `byteCount
    {
      GoesOver(maxBytes, byteCount, len)
    }

    /** Renames every file to the next suffix and begins a new one. */
    method DoRollover(ghost b: nat)
      requires forall k: nat :: k in fs.files <==> k <= b
      requires b <= backupCount
      modifies fs, `byteCount
      ensures Rolled(fs.files, old(fs.files), b, backupCount) && byteCount == 0
    {
      ghost var before := fs.files;
      if backupCount > 0 {
        ShiftBackups(b);
        if fs.Exists(1) {
          fs.Remove(1);
        }
        fs.Move(0, 1);
      }
      fs.Create(0);
      byteCount := 0;
    }

    /** A backup moves to the next suffix, over whatever is there. */
    method MoveUp(i: nat)
      modifies fs
      ensures fs.files == if i in old(fs.files) then (old(fs.files) - {i})[i + 1 := old(fs.files)[i]] else old(fs.files)
    {
      if fs.Exists(i) {
        if fs.Exists(i + 1) {
          fs.Remove(i + 1);
        }
        fs.Move(i, i + 1);
      }
    }

    /** Every backup moves to the next suffix; the last one makes room. */
    method ShiftBackups(ghost b: nat)
      requires 0 < backupCount && b <= backupCount
      requires forall k: nat :: k in fs.files <==> k <= b
      modifies fs
      ensures Shifting(fs.files, old(fs.files), b, backupCount, 0)
    {
      hide *;
      ghost var before := fs.files;
      ShiftBegins(before, b, backupCount);
      var i := backupCount - 1;
      while i > 0
        invariant 0 <= i < backupCount && Shifting(fs.files, before, b, backupCount, i)
      {
        ShiftNext(fs.files, before, b, backupCount, i);
        MoveUp(i);
        i := i - 1;
      }
    }

    method Write(buffer: seq<byte>)
      requires Valid()
      modifies this, fs
      ensures Valid() && log.history == old(log.history) + [buffer]
    {
      hide Log.Fits, Rolled, Used;
      UsedNext(maxBytes, log.history, buffer);
      FirstFile(log, fs.files, maxBytes);
      if ShouldRollover(|buffer|) {
        ghost var before := fs.files;
        DoRollover(|log.starts| - 1);
        RolledWrite(log, before, fs.files, maxBytes, backupCount, buffer);
        RolledFirst(before, fs.files, |log.starts| - 1, backupCount);
        log := log.RolledOver(backupCount);
      } else {
        PlainWrite(log, fs.files, maxBytes, buffer);
      }
      fs.Append(0, buffer);
      byteCount := byteCount + |buffer|;
      log := log.Wrote(buffer);
    }
  }

  lemma FirstFile(log: Log, files: map<nat, seq<byte>>, maxBytes: nat)
    requires log.Fits(files, maxBytes)
    ensures 0 < |log.starts| && forall k: nat :: k in files <==> k < |log.starts|
  {
  }

  lemma RolledFirst(before: map<nat, seq<byte>>, after: map<nat, seq<byte>>, b: nat, backupCount: nat)
    requires forall k :: 0 <= k <= b ==> k in before
    requires Rolled(after, before, b, backupCount)
    ensures 0 in after && after[0] == []
  {
  }

  /** A write at the end of the last file. */
  lemma PlainWrite(log: Log, files: map<nat, seq<byte>>, maxBytes: nat, buffer: seq<byte>)
    requires log.Fits(files, maxBytes)
    requires 0 < maxBytes ==> |files[0]| + |buffer| <= maxBytes || files[0] == []
    ensures log.Wrote(buffer).Fits(files[0 := files[0] + buffer], maxBytes)
  {
    var next, after := log.Wrote(buffer), files[0 := files[0] + buffer];
    forall k: nat | k < |next.starts|
      ensures next.Holds(after, k) && next.Short(after, k, maxBytes) && next.GivenUp(after, k, maxBytes)
    {
      assert log.Holds(files, k) && log.Short(files, k, maxBytes) && log.GivenUp(files, k, maxBytes);
      if k == 0 {
        var from := log.starts[0];
        var more := next.history[from..];
        assert more[..|more| - 1] == log.history[from..];
        assert next.history[from..|next.history|] == more;
        assert log.history[from..|log.history|] == log.history[from..];
        assert more == log.history[from..] + [buffer];
        if files[0] == [] {
          NothingWritten(log.history[from..]);
          NonemptyNext(log.history[from..], buffer);
        }
      } else {
        SameWrites(log.history, buffer, log.starts[k], log.Stop(k));
      }
    }
  }

  lemma SameWrites(history: seq<seq<byte>>, buffer: seq<byte>, from: nat, to: nat)
    requires from <= to <= |history|
    ensures (history + [buffer])[from..to] == history[from..to]
  {
  }

  /** A write that begins a new file. */
  lemma RolledWrite(log: Log, before: map<nat, seq<byte>>, after: map<nat, seq<byte>>, maxBytes: nat, backupCount: nat,
                    buffer: seq<byte>)
    requires log.Fits(before, maxBytes) && |log.starts| <= backupCount + 1
    requires Rolled(after, before, |log.starts| - 1, backupCount)
    requires 0 < maxBytes && before[0] != [] && |before[0]| + |buffer| > maxBytes
    ensures 0 in after && log.RolledOver(backupCount).Wrote(buffer).Fits(after[0 := after[0] + buffer], maxBytes)
  {
    var next, files := log.RolledOver(backupCount).Wrote(buffer), after[0 := after[0] + buffer];
    assert files[0] == buffer;
    forall k: nat | k < |next.starts|
      ensures next.Holds(files, k) && next.Short(files, k, maxBytes) && next.GivenUp(files, k, maxBytes)
    {
      if k == 0 {
        assert next.history[|log.history|..|next.history|] == [buffer];
        OneWrite(buffer);
        NonemptyNext([], buffer);
        assert [] + [buffer] == [buffer];
      } else {
        assert log.Holds(before, k - 1) && log.Short(before, k - 1, maxBytes) && log.GivenUp(before, k - 1, maxBytes);
        SameWrites(log.history, buffer, log.starts[k - 1], log.Stop(k - 1));
      }
    }
  }

  lemma OneWrite(buffer: seq<byte>)
    ensures Flatten([buffer]) == buffer
  {
  }

  /** The files together, oldest first, are the last writes, one behind the other. */
  lemma {:induction false} KeptIsSuffix(log: Log, files: map<nat, seq<byte>>, maxBytes: nat, k: nat)
    requires log.Fits(files, maxBytes) && k < |log.starts|
    ensures forall j: nat :: j <= k ==> j in files
    ensures log.starts[k] <= |log.history| && Kept(files, k) == Flatten(log.history[log.starts[k]..])
  {
    FileHolds(log, files, maxBytes, k);
    hide Log.Fits, Log.Holds, Flatten;
    if k == 0 {
      assert log.history[log.starts[0]..|log.history|] == log.history[log.starts[0]..];
    } else {
      KeptIsSuffix(log, files, maxBytes, k - 1);
      FlattenFrom(log.history, log.starts[k], log.starts[k - 1]);
    }
  }

  lemma FileHolds(log: Log, files: map<nat, seq<byte>>, maxBytes: nat, k: nat)
    requires log.Fits(files, maxBytes) && k < |log.starts|
    ensures forall j: nat :: j <= k ==> j in files
    ensures log.starts[k] <= log.Stop(k) <= |log.history|
      && files[k] == Flatten(log.history[log.starts[k]..log.Stop(k)])
  {
    assert log.Holds(files, k);
  }

  /** Any run of writes from a fresh start: there are as many backups as rollovers, up to the limit; together with
      the current file they are the end of everything written, and all of it until a backup is first dropped;
      each file holds a run of whole writes, no file is too long unless a single one of its writes has any bytes, and
      a file was given up only because the next write did not fit; and without a limit there are no backups. */
  method WriteAll(fs: FileSystem, maxBytes: nat, backupCount: nat, writes: seq<seq<byte>>) returns (ghost log: Log)
    requires forall k :: k in fs.files ==> k == 0
    modifies fs
    ensures var rollovers := Used(maxBytes, writes).rollovers;
            var backups := Fewer(rollovers, backupCount);
            && (forall k: nat :: k in fs.files <==> k <= backups)
            && log.history == writes && |log.starts| == backups + 1 && log.starts[backups] <= |writes|
            && Kept(fs.files, backups) == Flatten(writes[log.starts[backups]..])
            && (rollovers <= backupCount ==> Kept(fs.files, backups) == Flatten(writes))
            && (maxBytes == 0 ==> rollovers == 0)
    ensures log.Fits(fs.files, maxBytes)
    ensures 0 < maxBytes ==> forall k :: k in fs.files ==> |fs.files[k]| <= maxBytes || fs.files[k] in writes
  {
    hide Log.Fits, Used, Kept, Flatten;
    var stream := new RotatingFileOutputStream(fs, maxBytes, backupCount);
    var i: nat := 0;
    while i < |writes|
      invariant i <= |writes| && fresh(stream) && stream.fs == fs
      invariant stream.maxBytes == maxBytes && stream.backupCount == backupCount
      invariant stream.Valid() && stream.log.history == writes[..i]
    {
      stream.Write(writes[i]);
      i := i + 1;
    }
    assert writes[..i] == writes;
    log := stream.log;
    FirstFile(log, fs.files, maxBytes);
    KeptIsSuffix(log, fs.files, maxBytes, |log.starts| - 1);
    NoLimitNoRollover(writes);
    LongFiles(log, fs.files, maxBytes);
    assert writes[0..] == writes;
  }

  /** A file that is too long holds nothing but one of the writes. */
  lemma LongFiles(log: Log, files: map<nat, seq<byte>>, maxBytes: nat)
    requires log.Fits(files, maxBytes)
    ensures 0 < maxBytes ==> forall k :: k in files ==> |files[k]| <= maxBytes || files[k] in log.history
  {
    hide Used, Nonempty, Flatten;
    forall k | k in files && 0 < maxBytes < |files[k]|
      ensures files[k] in log.history
    {
      assert log.Holds(files, k) && log.Short(files, k, maxBytes);
      OneWritten(log.history[log.starts[k]..log.Stop(k)]);
    }
  }
}
