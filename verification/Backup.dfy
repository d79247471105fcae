/**
 The backup service of src/backup/backup.go over an abstract backup directory: backup, retention, restore, and the
 round trip through them.
 */
module Backup {
  import opened Common
  import opened BackupArchive
  import opened BackupNames
  import opened BackupRetention

  /**
   How the archiving ends: well, without creating the file, or at a visited file, leaving some bytes behind. Errors
   of the deferred closes, which write the end of the archive, are dropped: then it also ends well, but with
   whatever was left.
   */
  datatype ArchiveFault = Archived | NotCreated | Broken(visited: nat, left: bytes) | Unflushed(left: bytes)

  /** createArchive reports success. */
  predicate Succeeds(fault: ArchiveFault, visits: nat) {
    fault.Archived? || fault.Unflushed? || (fault.Broken? && fault.visited >= visits)
  }

  /** The archive that a successful createArchive leaves. */
  function ArchiveBytes(c: Codec, files: map<string, bytes>, listing: seq<string>, fault: ArchiveFault): bytes
    requires IsListing(files, listing)
  {
    if fault.Unflushed? then fault.left else c.pack(Entries(files, listing))
  }

  /** What a dropped error leaves is a beginning of the archive: bytes were lost, or the last file became shorter. */
  ghost predicate LeavesBeginning(c: Codec, files: map<string, bytes>, listing: seq<string>, fault: ArchiveFault)
    requires IsListing(files, listing)
  {
    fault.Unflushed? ==> ReadsBeginning(c.unpack(fault.left), Entries(files, listing))
  }

  /** What goes wrong in one backup; `nonce` stands for reading the archive back and drawing the nonce. */
  datatype Faults = Faults(mkdir: bool, archive: ArchiveFault, nonce: bool, write: WriteFault)

  datatype Result = Done(name: string) | DirectoryFailed | ArchiveFailed | EncryptFailed | Panicked

  datatype RestoreResult = Restored | DecryptFailed | ExtractFailed

  /** One call of CreateBackup: the data directory, how it is walked, the time, the nonce, and what goes wrong. */
  datatype Job = Job(files: map<string, bytes>, listing: seq<string>, time: Timestamp, nonce: bytes, faults: Faults)

  /** What a job seals if it gets so far. */
  function Sealed(c: Codec, key: bytes, j: Job): bytes
    requires IsWalk(j.files, j.listing)
  {
    Encrypted(c, key, j.nonce, ArchiveBytes(c, j.files, j.listing, j.faults.archive))
  }

  /**
   The result of a job and the directory it leaves. A torn write stays under the backup's name; a failed archive
   stays as a working file.
   */
  ghost function AfterBackup(c: Codec, key: bytes, max: int, dir: map<string, bytes>, j: Job)
    : (Result, map<string, bytes>)
    requires IsWalk(j.files, j.listing)
  {
    var name := Name(j.time);
    var rest := dir - {name + ".tmp"};
    if j.faults.mkdir then (DirectoryFailed, dir)
    else if !Succeeds(j.faults.archive, |j.listing|) then
      (ArchiveFailed, if j.faults.archive.NotCreated? then dir else dir[name + ".tmp" := j.faults.archive.left])
    else if |key| != KEY_SIZE || j.faults.nonce then (EncryptFailed, rest)
    else
      var written := AfterWrite(rest, name, Sealed(c, key, j), j.faults.write);
      if !j.faults.write.Written? then (EncryptFailed, written)
      else if max < 0 then (Panicked, Unmatched(written))
      else (Done(name), Pruned(written, max))
  }

  /** The files of a directory after one retention pass. */
  ghost function Pruned(dir: map<string, bytes>, max: nat): map<string, bytes> {
    map n | n in dir && (!Matches(n) || n in Newest(Matching(dir.Keys), max)) :: dir[n]
  }

  lemma PrunedKeys(dir: map<string, bytes>, max: nat)
    ensures Pruned(dir, max).Keys == Prune(dir.Keys, max)
  {
  }

  /** The files outside the pattern. */
  function Unmatched(dir: map<string, bytes>): map<string, bytes> {
    map n | n in dir && !Matches(n) :: dir[n]
  }

  /** The least name of a set. */
  method Least(names: set<string>) returns (x: string)
    requires names != {}
    ensures x in names && Sorted(names) == [x] + Sorted(names - {x})
  {
    assert exists x :: x in names && forall y | y in names :: y == x || Less(x, y) by {
      LeastExists(names);
      var x :| IsLeast(x, names);
    }
    x :| x in names && forall y | y in names :: y == x || Less(x, y);
    SortedStep(names);
    LessIsTotal(x, Sorted(names)[0]);
  }

  class Service {
    const codec: Codec
    const maxBackups: int
    const key: bytes
    /** The files of the backup directory. */
    var dir: map<string, bytes>

    constructor (codec: Codec, maxBackups: int, key: bytes)
      ensures this.codec == codec && this.maxBackups == maxBackups && this.key == key && dir == map[]
    {
      this.codec, this.maxBackups, this.key := codec, maxBackups, key;
      dir := map[];
    }

    /** os.WriteFile. */
    method WriteFile(path: string, data: bytes, fault: WriteFault) returns (ok: bool)
      modifies this
      ensures ok <==> fault.Written?
      ensures dir == AfterWrite(old(dir), path, data, fault)
      ensures ok ==> dir == old(dir)[path := data]
      ensures !ok && dir != old(dir) ==> path in dir && dir[path] <= data && |dir[path]| <= fault.n
    {
      if fault.Refused? { return false; }
      dir := dir[path := Left(data, fault)];
      return fault.Written?;
    }

    /** createArchive. */
    method CreateArchive(files: map<string, bytes>, listing: seq<string>, fault: ArchiveFault, dest: string)
      returns (ok: bool)
      requires IsListing(files, listing)
      modifies this
      ensures ok <==> Succeeds(fault, |listing|)
      ensures ok ==> dir == old(dir)[dest := ArchiveBytes(codec, files, listing, fault)]
      ensures !ok ==> dir == if fault.NotCreated? then old(dir) else old(dir)[dest := fault.left]
    {
      if fault.NotCreated? { return false; }
      var entries: seq<Entry> := [];
      var i := 0;
      while i < |listing|
        invariant i <= |listing| && dir == old(dir)
        invariant entries == Entries(files, listing[..i])
        invariant fault.Broken? ==> fault.visited >= i
      {
        if fault.Broken? && fault.visited == i {
          dir := dir[dest := fault.left];
          return false;
        }
        OneMoreVisit(files, listing, i);
        entries := entries + [Entry(listing[i], files[listing[i]])];
        i := i + 1;
      }
      assert listing[..i] == listing;
      dir := dir[dest := if fault.Unflushed? then fault.left else codec.pack(entries)];
      return true;
    }

    /** encryptFile. */
    method EncryptFile(src: string, dest: string, nonce: bytes, faults: Faults) returns (ok: bool)
      requires src in dir && |nonce| == NONCE_SIZE
      modifies this
      ensures ok <==> |key| == KEY_SIZE && !faults.nonce && faults.write.Written?
      ensures dir == if |key| != KEY_SIZE || faults.nonce then old(dir)
                     else AfterWrite(old(dir), dest, Encrypted(codec, key, nonce, old(dir)[src]), faults.write)
    {
      if |key| != KEY_SIZE || faults.nonce { return false; }
      ok := WriteFile(dest, nonce + codec.seal(key, nonce, dir[src]), faults.write);
    }

    /** The sorted matches of the pattern. */
    method Glob() returns (files: seq<string>)
      ensures files == Sorted(Matching(dir.Keys))
    {
      var rest := set n | n in dir.Keys && Matches(n);
      ghost var all := Sorted(rest);
      files := [];
      while rest != {}
        invariant all == files + Sorted(rest)
        decreases |rest|
      {
        var x := Least(rest);
        files := files + [x];
        rest := rest - {x};
      }
    }

    /** cleanOldBackups; the loop indexes past the list, and panics, exactly for a negative limit. */
    method CleanOldBackups() returns (panicked: bool)
      modifies this
      ensures panicked <==> maxBackups < 0
      ensures dir == if panicked then Unmatched(old(dir)) else Pruned(old(dir), maxBackups)
    {
      var files := Glob();
      SortedIsAscending(Matching(dir.Keys));
      if |files| <= maxBackups {
        AllAreNewest(Matching(dir.Keys), maxBackups);
        assert Pruned(dir, maxBackups) == dir;
        return false;
      }
      var i := 0;
      while i < |files| - maxBackups
        invariant i <= |files| && i <= |files| - maxBackups
        invariant dir == Without(old(dir), files[..i])
      {
        if i >= |files| {
          assert files[..i] == files;
          NothingMatching(old(dir), files);
          return true;
        }
        WithoutOneMore(old(dir), files, i);
        dir := dir - {files[i]};
        i := i + 1;
      }
      RemovingOldestPrunes(old(dir), files, i, maxBackups);
      return false;
    }

    /** CreateBackup of the files of the data directory, at time t, with a fresh nonce. */
    method CreateBackup(files: map<string, bytes>, listing: seq<string>, t: Timestamp, nonce: bytes, faults: Faults)
      returns (r: Result)
      requires IsWalk(files, listing) && |nonce| == NONCE_SIZE
      modifies this
      ensures (r, dir) == AfterBackup(codec, key, maxBackups, old(dir), Job(files, listing, t, nonce, faults))
    {
      if faults.mkdir { return DirectoryFailed; }
      var name := Name(t);
      var tmp := name + ".tmp";
      assert |tmp| == |name| + 4;
      var ok := CreateArchive(files, listing, faults.archive, tmp);
      if !ok { return ArchiveFailed; }
      ghost var archive := ArchiveBytes(codec, files, listing, faults.archive);
      ok := EncryptFile(tmp, name, nonce, faults);
      WorkingFileVanishes(old(dir), tmp, archive, name, Encrypted(codec, key, nonce, archive), faults.write);
      if !ok {
        dir := dir - {tmp};
        return EncryptFailed;
      }
      label encrypted:
      var panicked := CleanOldBackups();
      WorkingFilesDoNotMatch(name);
      if panicked {
        assert Unmatched(old@encrypted(dir)) - {tmp} == Unmatched(old@encrypted(dir) - {tmp});
        dir := dir - {tmp};
        return Panicked;
      }
      PruningIgnoresWorkingFile(old@encrypted(dir), tmp, maxBackups);
      dir := dir - {tmp};
      return Done(name);
    }

    /** extractArchive of the decrypted bytes into the directory dest. */
    method ExtractArchive(plain: bytes, dest: Path, disk: Tree, stop: Option<Stop>) returns (result: Tree, ok: bool)
      ensures (result, ok) == ReadBack(disk, dest, codec.unpack(plain), stop)
    {
      result := disk;
      var reading := codec.unpack(plain);
      var es := reading.entries;
      var i := 0;
      while i < |es|
        invariant i <= |es|
        invariant (result, true) == Extracted(disk, dest, es[..i], stop)
      {
        NextEntry(disk, dest, es, stop, i);
        result, ok := ExtractEntry(es[i], dest, result, How(stop, i));
        if !ok {
          StopsAt(disk, dest, es, stop, i + 1);
          return;
        }
        i := i + 1;
      }
      assert es[..i] == es;
      result, ok := ExtractEnd(reading.end, dest, result, How(stop, i));
    }

    /** What comes after the complete entries. */
    method ExtractEnd(end: End, dest: Path, disk: Tree, how: WriteFault) returns (result: Tree, ok: bool)
      ensures ok <==> end.Ended?
      ensures result == if end.Cut? then Placed(disk, dest, end.entry, CutOff(how, end.entry.content)).0 else disk
    {
      match end
      case Ended => return disk, true;
      case Unreadable => return disk, false;
      case Cut(e) => result, ok := ExtractEntry(e, dest, disk, CutOff(how, e.content));
    }

    /** One turn of the loop: the directories, the file, its bytes. */
    method ExtractEntry(e: Entry, dest: Path, disk: Tree, how: WriteFault) returns (result: Tree, ok: bool)
      ensures (result, ok) == Placed(disk, dest, e, how)
    {
      var path := Target(dest, e.name);
      if Blocked(disk, path) { return disk, false; }
      result := Tree(AfterWrite(disk.files, path, e.content, how), disk.dirs + Ancestors(path));
      ok := how.Written?;
    }

    /** decryptFile followed by extractArchive. */
    method RestoreBackup(backupFile: string, dest: Path, disk: Tree, write: WriteFault, stop: Option<Stop>)
      returns (r: RestoreResult, result: Tree)
      modifies this
      ensures r.DecryptFailed? <==>
        backupFile !in old(dir) || Decrypted(codec, key, old(dir)[backupFile]).None? || !write.Written?
      ensures r.DecryptFailed? ==> result == disk
      ensures r.DecryptFailed? ==>
        dir == if backupFile !in old(dir) || Decrypted(codec, key, old(dir)[backupFile]).None? then old(dir)
               else AfterWrite(old(dir), backupFile + ".decrypted",
                               Decrypted(codec, key, old(dir)[backupFile]).value, write)
      ensures !r.DecryptFailed? ==> dir == old(dir) - {backupFile + ".decrypted"}
      ensures !r.DecryptFailed? ==>
        var reading := codec.unpack(Decrypted(codec, key, old(dir)[backupFile]).value);
        (result, r.Restored?) == ReadBack(disk, dest, reading, stop)
    {
      var tmp := backupFile + ".decrypted";
      if backupFile !in dir { return DecryptFailed, disk; }
      var data := dir[backupFile];
      if |key| != KEY_SIZE || |data| < NONCE_SIZE { return DecryptFailed, disk; }
      var plain := codec.open(key, data[..NONCE_SIZE], data[NONCE_SIZE..]);
      if plain.None? { return DecryptFailed, disk; }
      var ok := WriteFile(tmp, plain.value, write);
      if !ok { return DecryptFailed, disk; }
      result, ok := ExtractArchive(dir[tmp], dest, disk, stop);
      dir := dir - {tmp};
      assert dir == old(dir) - {tmp};
      r := if ok then Restored else ExtractFailed;
    }
  }

  /* ---------- lemmas about the retention loop ---------- */

  lemma AllAreNewest(names: set<string>, max: nat)
    requires |names| <= max
    ensures Newest(names, max) == names
  {
    forall n | n in names ensures |Above(names, n)| < max {
      LessIrreflexive(n);
      SubsetSize(Above(names, n), names - {n});
    }
  }

  lemma WorkingFileVanishes(dir: map<string, bytes>, tmp: string, archive: bytes, name: string, data: bytes,
                            write: WriteFault)
    requires name != tmp
    ensures AfterWrite(dir[tmp := archive], name, data, write) - {tmp} == AfterWrite(dir - {tmp}, name, data, write)
    ensures dir[tmp := archive] - {tmp} == dir - {tmp}
  {
  }

  /** A file outside the pattern can be removed before or after the pass. */
  lemma PruningIgnoresWorkingFile(dir: map<string, bytes>, tmp: string, max: nat)
    requires !Matches(tmp)
    ensures Pruned(dir, max) - {tmp} == Pruned(dir - {tmp}, max)
  {
    assert Matching(dir.Keys) == Matching((dir - {tmp}).Keys);
  }

  function Without(dir: map<string, bytes>, names: seq<string>): map<string, bytes> {
    map n | n in dir && n !in names :: dir[n]
  }

  lemma WithoutOneMore(dir: map<string, bytes>, names: seq<string>, i: nat)
    requires i < |names|
    ensures Without(dir, names[..i]) - {names[i]} == Without(dir, names[..i + 1])
  {
    assert names[..i + 1] == names[..i] + [names[i]];
  }

  lemma RemovingOldestPrunes(dir: map<string, bytes>, files: seq<string>, i: nat, max: nat)
    requires files == Sorted(Matching(dir.Keys)) && i + max == |files|
    ensures Without(dir, files[..i]) == Pruned(dir, max)
  {
    SortedIsAscending(Matching(dir.Keys));
    NewestIsTail(Matching(dir.Keys), max);
    OldestAreRemoved(Matching(dir.Keys), files, i);
    forall n | n in files[..i] ensures Matches(n) {
      assert n in files;
    }
  }

  lemma NothingMatching(dir: map<string, bytes>, files: seq<string>)
    requires files == Sorted(Matching(dir.Keys))
    ensures Without(dir, files) == Unmatched(dir)
  {
    SortedIsAscending(Matching(dir.Keys));
  }

  /** Dropping the first i of the listing leaves the tail. */
  lemma OldestAreRemoved(names: set<string>, files: seq<string>, i: nat)
    requires files == Sorted(names) && i <= |files|
    ensures forall n | n in names :: n !in files[..i] <==> n in (set j | i <= j < |files| :: files[j])
  {
    SortedIsAscending(names);
    forall n | n in names ensures n !in files[..i] <==> n in (set j | i <= j < |files| :: files[j]) {
      var j :| 0 <= j < |files| && files[j] == n;
      if j < i {
        assert files[..i][j] == n;
        forall l | i <= l < |files| ensures files[l] != n {
          assert Less(files[j], files[l]);
          LessIrreflexive(n);
        }
      } else if n in files[..i] {
        var l :| 0 <= l < i && files[..i][l] == n;
        assert Less(files[l], files[j]);
        LessIrreflexive(n);
        assert false;
      }
    }
  }

  /* ---------- main results ---------- */

  /** The disk with the backed-up files laid over it. */
  ghost function Overlay(files: map<string, bytes>, dest: Path, disk: Tree): Tree
    requires forall n | n in files :: CleanName(n)
  {
    Tree(disk.files + Located(dest, files), disk.dirs + AncestorsOf(Places(dest, files.Keys)))
  }

  /**
   Main result on the data: what a successful backup sealed restores exactly when it can be read to its end and the
   files fit; if no close failed, it can. The files are then overlaid on the disk, and nothing else changes.
   */
  lemma RestoreUndoesBackup(c: Codec, key: bytes, nonce: bytes, files: map<string, bytes>, listing: seq<string>,
                            fault: ArchiveFault, dest: Path, disk: Tree)
    requires c.Lawful() && |nonce| == NONCE_SIZE && |key| == KEY_SIZE && IsPath(dest)
    requires IsWalk(files, listing) && LeavesBeginning(c, files, listing, fault)
    ensures var archive := ArchiveBytes(c, files, listing, fault);
      var (u, ok) := ReadBack(disk, dest, c.unpack(archive), None);
      && Decrypted(c, key, Encrypted(c, key, nonce, archive)) == Some(archive)
      && (!fault.Unflushed? ==> c.unpack(archive).end.Ended?)
      && (ok <==> c.unpack(archive).end.Ended? && Compatible(disk, Places(dest, files.Keys)))
      && (ok ==> u == Overlay(files, dest, disk))
  {
    var archive := ArchiveBytes(c, files, listing, fault);
    DecryptUndoesEncrypt(c, key, nonce, archive);
    var reading := c.unpack(archive);
    assert !fault.Unflushed? ==> reading == Reading(Entries(files, listing), Ended);
    ReadingRestores(files, listing, reading, dest, disk);
  }

  /** A reading that is a beginning of the archive restores exactly when it is complete and the files fit. */
  lemma ReadingRestores(files: map<string, bytes>, listing: seq<string>, reading: Reading, dest: Path, disk: Tree)
    requires IsPath(dest) && IsWalk(files, listing) && ReadsBeginning(reading, Entries(files, listing))
    ensures var (u, ok) := ReadBack(disk, dest, reading, None);
      && (ok <==> reading.end.Ended? && Compatible(disk, Places(dest, files.Keys)))
      && (ok ==> u == Overlay(files, dest, disk))
  {
    ExtractUndoesArchive(files, listing, dest, disk);
  }

  /** Everything before the write of the sealed bytes goes well. */
  predicate Seals(key: bytes, j: Job) {
    !j.faults.mkdir && Succeeds(j.faults.archive, |j.listing|) && |key| == KEY_SIZE && !j.faults.nonce
  }

  /**
   What CreateBackup reports: the first call that fails, where errors of the deferred closes are no failure, and
   success, under its name, otherwise; with a negative limit a panic, which has removed every backup before.
   */
  lemma BackupResult(c: Codec, key: bytes, max: int, dir: map<string, bytes>, j: Job)
    requires IsWalk(j.files, j.listing)
    ensures var ((r, d), f) := (AfterBackup(c, key, max, dir, j), j.faults);
      var archived := f.archive.Archived? || f.archive.Unflushed?
                      || (f.archive.Broken? && f.archive.visited >= |j.listing|);
      var sealed := |key| == 32 && !f.nonce && f.write.Written?;
      && (r == DirectoryFailed <==> f.mkdir)
      && (r == ArchiveFailed <==> !f.mkdir && !archived)
      && (r == EncryptFailed <==> !f.mkdir && archived && !sealed)
      && (r == Panicked <==> !f.mkdir && archived && sealed && max < 0)
      && (r == Done(Name(j.time)) <==> !f.mkdir && archived && sealed && max >= 0)
      && (r.Done? ==> r.name == Name(j.time))
      && (r.Panicked? ==> forall n | n in d :: !Matches(n))
  {
  }

  /**
   What a failure leaves: all other files as they were; under the backup's name what was there, or, if the sealed
   bytes were written only in part, a beginning of them.
   */
  lemma FailedBackupLeaves(c: Codec, key: bytes, max: int, dir: map<string, bytes>, j: Job)
    requires IsWalk(j.files, j.listing) && Fails(AfterBackup(c, key, max, dir, j).0)
    ensures var d, name := AfterBackup(c, key, max, dir, j).1, Name(j.time);
      && (forall n | n != name && n != name + ".tmp" :: SameAt(dir, d, n))
      && if Seals(key, j) && j.faults.write.Torn? then name in d && d[name] <= Sealed(c, key, j)
         else SameAt(dir, d, name)
  {
    var d, name := AfterBackup(c, key, max, dir, j).1, Name(j.time);
    forall n | n != name && n != name + ".tmp" ensures SameAt(dir, d, n) { FailureKeeps(c, key, max, dir, j, n); }
    FailureUnderName(c, key, max, dir, j);
  }

  predicate Fails(r: Result) { !r.Done? && !r.Panicked? }

  /** The file of this name is the same, or missing in both. */
  predicate SameAt(dir: map<string, bytes>, d: map<string, bytes>, n: string) {
    (n in d <==> n in dir) && (n in d ==> d[n] == dir[n])
  }

  lemma FailureKeeps(c: Codec, key: bytes, max: int, dir: map<string, bytes>, j: Job, n: string)
    requires IsWalk(j.files, j.listing) && Fails(AfterBackup(c, key, max, dir, j).0)
    requires n != Name(j.time) && n != Name(j.time) + ".tmp"
    ensures SameAt(dir, AfterBackup(c, key, max, dir, j).1, n)
  {
  }

  lemma FailureUnderName(c: Codec, key: bytes, max: int, dir: map<string, bytes>, j: Job)
    requires IsWalk(j.files, j.listing) && Fails(AfterBackup(c, key, max, dir, j).0)
    ensures var d, name := AfterBackup(c, key, max, dir, j).1, Name(j.time);
      if Seals(key, j) && j.faults.write.Torn? then name in d && d[name] <= Sealed(c, key, j)
      else SameAt(dir, d, name)
  {
    assert |Name(j.time) + ".tmp"| == |Name(j.time)| + 4;
  }

  /**
   Whatever happens, a file outside the pattern stays as it was, except for the working file: a failing archive leaves
   it with what was written, an error before that leaves it alone, and every other outcome removes it.
   */
  lemma OtherFilesStay(c: Codec, key: bytes, max: int, dir: map<string, bytes>, j: Job, n: string)
    requires IsWalk(j.files, j.listing) && !Matches(n)
    ensures var ((r, d), tmp) := (AfterBackup(c, key, max, dir, j), Name(j.time) + ".tmp");
      && (n != tmp ==> SameAt(dir, d, n))
      && (r == DirectoryFailed || (r == ArchiveFailed && j.faults.archive.NotCreated?) ==> SameAt(dir, d, n))
      && (r == ArchiveFailed && j.faults.archive.Broken? ==> tmp in d && d[tmp] == j.faults.archive.left)
      && (!r.DirectoryFailed? && !r.ArchiveFailed? ==> tmp !in d)
  {
    var r := AfterBackup(c, key, max, dir, j).0;
    BackupsMatch(j.time);
    WorkingFileAfter(c, key, max, dir, j);
    if n != Name(j.time) + ".tmp" {
      if Fails(r) { FailureKeeps(c, key, max, dir, j, n); } else { PassKeeps(c, key, max, dir, j, n); }
    }
  }

  lemma WorkingFileAfter(c: Codec, key: bytes, max: int, dir: map<string, bytes>, j: Job)
    requires IsWalk(j.files, j.listing)
    ensures var ((r, d), tmp) := (AfterBackup(c, key, max, dir, j), Name(j.time) + ".tmp");
      && (r == DirectoryFailed || (r == ArchiveFailed && j.faults.archive.NotCreated?) ==> d == dir)
      && (r == ArchiveFailed && j.faults.archive.Broken? ==> tmp in d && d[tmp] == j.faults.archive.left)
      && (!r.DirectoryFailed? && !r.ArchiveFailed? ==> tmp !in d)
  {
    assert |Name(j.time) + ".tmp"| == |Name(j.time)| + 4;
  }

  lemma PassKeeps(c: Codec, key: bytes, max: int, dir: map<string, bytes>, j: Job, n: string)
    requires IsWalk(j.files, j.listing) && !Fails(AfterBackup(c, key, max, dir, j).0)
    requires !Matches(n) && n != Name(j.time) && n != Name(j.time) + ".tmp"
    ensures SameAt(dir, AfterBackup(c, key, max, dir, j).1, n)
  {
  }

  /** A success that no name sorts after is there, complete, when MaxBackups is positive. */
  lemma NewestBackupIsKept(c: Codec, key: bytes, max: nat, dir: map<string, bytes>, j: Job)
    requires IsWalk(j.files, j.listing) && max > 0 && AfterBackup(c, key, max, dir, j).0.Done?
    requires forall n | n in dir && Matches(n) :: n == Name(j.time) || Less(n, Name(j.time))
    ensures var d := AfterBackup(c, key, max, dir, j).1;
      Name(j.time) in d && d[Name(j.time)] == Sealed(c, key, j)
  {
    BackupsMatch(j.time);
    NothingAbove(dir - {Name(j.time) + ".tmp"}, Name(j.time), Sealed(c, key, j), max);
  }

  lemma NothingAbove(dir: map<string, bytes>, name: string, data: bytes, max: nat)
    requires max > 0 && Matches(name) && forall n | n in dir && Matches(n) :: n == name || Less(n, name)
    ensures name in Pruned(dir[name := data], max) && Pruned(dir[name := data], max)[name] == data
  {
    var names := Matching(dir[name := data].Keys);
    forall n | n in Above(names, name) ensures false {
      LessIrreflexive(name);
      LessIsTotal(n, name);
    }
    assert Above(names, name) == {};
  }

  /** A new backup outlives its own retention pass exactly when fewer than MaxBackups names sort after it. */
  lemma NewBackupSurvives(dir: map<string, bytes>, t: Timestamp, data: bytes, max: nat)
    ensures var d := dir[Name(t) := data];
      Name(t) in Pruned(d, max) <==> |Above(Matching(d.Keys), Name(t))| < max
  {
    BackupsMatch(t);
  }

  /** The new name is among the newest when it has been written. */
  ghost predicate Survives(dir: map<string, bytes>, t: Timestamp, max: int) {
    |Above(Matching((dir - {Name(t) + ".tmp"}).Keys + {Name(t)}), Name(t))| < max
  }

  /**
   Main result, the round trip through the service: a backup that was created, and not pruned away, restores with
   the same key exactly when its archive can be read to its end and its files fit the target, which then holds them
   over its old files. If a failed close always tears the archive: exactly when none failed and the files fit.
   */
  method BackupThenRestore(s: Service, files: map<string, bytes>, listing: seq<string>, t: Timestamp, nonce: bytes,
                           faults: Faults, dest: Path, disk: Tree)
    returns (created: Result, restored: RestoreResult, result: Tree)
    requires s.codec.Lawful() && IsWalk(files, listing) && |nonce| == NONCE_SIZE && IsPath(dest)
    modifies s
    ensures (created.Done? && Survives(old(s.dir), t, s.maxBackups)
             && LeavesBeginning(s.codec, files, listing, faults.archive)) ==>
      var readable := faults.archive.Unflushed? ==> s.codec.unpack(faults.archive.left).end.Ended?;
      && (restored == Restored <==> readable && Compatible(disk, Places(dest, files.Keys)))
      && (restored == Restored ==> result == Overlay(files, dest, disk))
      && ((faults.archive.Unflushed? ==> !readable) ==>
            (restored == Restored <==> !faults.archive.Unflushed? && Compatible(disk, Places(dest, files.Keys))))
  {
    created := s.CreateBackup(files, listing, t, nonce, faults);
    if !created.Done? { return created, DecryptFailed, disk; }
    ghost var data := Encrypted(s.codec, s.key, nonce, ArchiveBytes(s.codec, files, listing, faults.archive));
    ghost var rest := old(s.dir) - {Name(t) + ".tmp"};
    NewBackupSurvives(rest, t, data, s.maxBackups);
    assert rest[Name(t) := data].Keys == rest.Keys + {Name(t)};
    restored, result := s.RestoreBackup(created.name, dest, disk, Written, None);
    if LeavesBeginning(s.codec, files, listing, faults.archive) {
      RestoreUndoesBackup(s.codec, s.key, nonce, files, listing, faults.archive, dest, disk);
    }
  }

  /* ---------- many backups ---------- */

  ghost predicate AreWalks(jobs: seq<Job>) {
    forall i | 0 <= i < |jobs| :: IsWalk(jobs[i].files, jobs[i].listing) && |jobs[i].nonce| == NONCE_SIZE
  }

  /** The bytes decrypt to the archive that the job left: all of its files, unless a close failed. */
  ghost predicate ReadsBack(c: Codec, key: bytes, data: bytes, j: Job)
    requires IsWalk(j.files, j.listing)
  {
    var plain := Decrypted(c, key, data);
    && plain == Some(ArchiveBytes(c, j.files, j.listing, j.faults.archive))
    && (!j.faults.archive.Unflushed? ==> c.unpack(plain.value) == Reading(Entries(j.files, j.listing), Ended))
  }

  lemma SealedReadsBack(c: Codec, key: bytes, j: Job)
    requires c.Lawful() && |key| == KEY_SIZE && |j.nonce| == NONCE_SIZE && IsWalk(j.files, j.listing)
    ensures ReadsBack(c, key, Sealed(c, key, j), j)
  {
    DecryptUndoesEncrypt(c, key, j.nonce, ArchiveBytes(c, j.files, j.listing, j.faults.archive));
  }

  /** What a job leaves under its name. */
  function AttemptOf(key: bytes, j: Job): Attempt {
    if j.faults.mkdir || !Succeeds(j.faults.archive, |j.listing|) || |key| != KEY_SIZE || j.faults.nonce then Nothing
    else match j.faults.write
      case Written => Finished(j.time)
      case Refused => Nothing
      case Torn(_) => TornFile(j.time)
  }

  function AttemptsOf(key: bytes, jobs: seq<Job>): (attempts: seq<Attempt>)
    ensures |attempts| == |jobs|
  {
    seq(|jobs|, i requires 0 <= i < |jobs| => AttemptOf(key, jobs[i]))
  }

  /** Job i leaves a file under its name, and no later one does under the same name. */
  predicate LastOfItsName(key: bytes, jobs: seq<Job>, i: nat) {
    && i < |jobs| && !AttemptOf(key, jobs[i]).Nothing?
    && forall k | i < k < |jobs| && !AttemptOf(key, jobs[k]).Nothing? :: Name(jobs[k].time) != Name(jobs[i].time)
  }

  /** Every file left under a backup's name holds what the last job that wrote it sealed, or the beginning of that. */
  ghost predicate Holds(c: Codec, key: bytes, dir: map<string, bytes>, jobs: seq<Job>)
    requires AreWalks(jobs)
  {
    forall i: nat | LastOfItsName(key, jobs, i) && Name(jobs[i].time) in dir ::
      dir[Name(jobs[i].time)] == Left(Sealed(c, key, jobs[i]), jobs[i].faults.write)
  }

  /** The backups in a directory are those that the attempts leave. */
  ghost predicate Follows(c: Codec, key: bytes, dir: map<string, bytes>, before: set<string>, jobs: seq<Job>, max: nat)
    requires AreWalks(jobs)
  {
    && Matching(dir.Keys) == Matching(AfterAttempts(before, AttemptsOf(key, jobs), max))
    && Holds(c, key, dir, jobs)
  }

  /** What an attempt with this name and these sealed bytes makes of the files. */
  ghost predicate Changed(dir: map<string, bytes>, d: map<string, bytes>, a: Attempt, name: string, left: bytes,
                          max: nat)
  {
    var tmp := name + ".tmp";
    match a
    case Finished(t) => Name(t) == name && d == Pruned((dir - {tmp})[name := left], max)
    case TornFile(t) => Name(t) == name && d == (dir - {tmp})[name := left]
    case Nothing => d.Keys - {tmp} == dir.Keys - {tmp} && forall n | n in d && n != tmp :: n in dir && d[n] == dir[n]
  }

  lemma JobChanges(c: Codec, key: bytes, dir: map<string, bytes>, j: Job, max: nat)
    requires IsWalk(j.files, j.listing)
    ensures Changed(dir, AfterBackup(c, key, max, dir, j).1, AttemptOf(key, j), Name(j.time),
                    Left(Sealed(c, key, j), j.faults.write), max)
  {
  }

  lemma ChangedMatching(dir: map<string, bytes>, d: map<string, bytes>, a: Attempt, name: string, left: bytes, max: nat)
    requires Matches(name) && Changed(dir, d, a, name, left, max)
    ensures Matching(d.Keys) == Backups(Matching(dir.Keys), a, max)
  {
    WorkingFilesDoNotMatch(name);
    if a.Nothing? {
      SameMatching(d.Keys, dir.Keys, name + ".tmp");
    } else {
      WrittenMatching(dir, name, name + ".tmp", left, max);
    }
  }

  /** What one more job does to the names. */
  lemma JobMatching(c: Codec, key: bytes, dir: map<string, bytes>, j: Job, max: nat)
    requires IsWalk(j.files, j.listing)
    ensures Matching(AfterBackup(c, key, max, dir, j).1.Keys)
         == Backups(Matching(dir.Keys), AttemptOf(key, j), max)
  {
    BackupsMatch(j.time);
    JobChanges(c, key, dir, j, max);
    ChangedMatching(dir, AfterBackup(c, key, max, dir, j).1, AttemptOf(key, j), Name(j.time),
                    Left(Sealed(c, key, j), j.faults.write), max);
  }

  lemma WrittenMatching(dir: map<string, bytes>, name: string, tmp: string, data: bytes, max: nat)
    requires Matches(name) && !Matches(tmp)
    ensures var written := (dir - {tmp})[name := data];
      && Matching(written.Keys) == Matching(dir.Keys) + {name}
      && Matching(Pruned(written, max).Keys) == Newest(Matching(dir.Keys) + {name}, max)
  {
    var written := (dir - {tmp})[name := data];
    assert written.Keys == dir.Keys - {tmp} + {name};
    assert Matching(written.Keys) == Matching(dir.Keys) + {name};
    PrunedKeys(written, max);
    PruneMatching(written.Keys, max);
  }

  lemma SameMatching(a: set<string>, b: set<string>, tmp: string)
    requires !Matches(tmp)
    ensures a - {tmp} == b - {tmp} ==> Matching(a) == Matching(b)
  {
    if a - {tmp} == b - {tmp} {
      assert Matching(a) == Matching(a - {tmp});
      assert Matching(b) == Matching(b - {tmp});
    }
  }

  lemma AttemptsOneMore(key: bytes, before: set<string>, jobs: seq<Job>, j: Job, max: nat)
    ensures Matching(AfterAttempts(before, AttemptsOf(key, jobs + [j]), max))
         == Backups(Matching(AfterAttempts(before, AttemptsOf(key, jobs), max)), AttemptOf(key, j), max)
  {
    assert AttemptsOf(key, jobs + [j]) == AttemptsOf(key, jobs) + [AttemptOf(key, j)];
    OneMoreAttempt(before, AttemptsOf(key, jobs), AttemptOf(key, j), max);
  }

  lemma LastOfItsNameBefore(key: bytes, jobs: seq<Job>, j: Job, i: nat)
    requires LastOfItsName(key, jobs + [j], i) && i < |jobs|
    ensures LastOfItsName(key, jobs, i) && (AttemptOf(key, j).Nothing? || Name(j.time) != Name(jobs[i].time))
  {
    var all := jobs + [j];
    assert all[i] == jobs[i] && all[|jobs|] == j;
    forall k | i < k < |jobs| && !AttemptOf(key, jobs[k]).Nothing? ensures Name(jobs[k].time) != Name(jobs[i].time) {
      assert all[k] == jobs[k];
    }
  }

  lemma JobKeepsHolding(c: Codec, key: bytes, dir: map<string, bytes>, jobs: seq<Job>, j: Job, max: nat, i: nat)
    requires AreWalks(jobs) && IsWalk(j.files, j.listing) && Holds(c, key, dir, jobs)
    requires LastOfItsName(key, jobs + [j], i)
    requires Name((jobs + [j])[i].time) in AfterBackup(c, key, max, dir, j).1
    ensures AfterBackup(c, key, max, dir, j).1[Name((jobs + [j])[i].time)]
         == Left(Sealed(c, key, (jobs + [j])[i]), (jobs + [j])[i].faults.write)
  {
    JobChanges(c, key, dir, j, max);
    if i < |jobs| {
      LastOfItsNameBefore(key, jobs, j, i);
      BackupsMatch(jobs[i].time);
      WorkingFilesDoNotMatch(Name(j.time));
    }
  }

  lemma JobKeepsFollowing(c: Codec, key: bytes, dir: map<string, bytes>, before: set<string>, jobs: seq<Job>, j: Job,
                          max: nat)
    requires AreWalks(jobs) && Follows(c, key, dir, before, jobs, max)
    requires IsWalk(j.files, j.listing) && |j.nonce| == NONCE_SIZE
    ensures AreWalks(jobs + [j])
    ensures Follows(c, key, AfterBackup(c, key, max, dir, j).1, before, jobs + [j], max)
  {
    JobMatching(c, key, dir, j, max);
    AttemptsOneMore(key, before, jobs, j, max);
    var d := AfterBackup(c, key, max, dir, j).1;
    forall i: nat | LastOfItsName(key, jobs + [j], i) && Name((jobs + [j])[i].time) in d
      ensures d[Name((jobs + [j])[i].time)] == Left(Sealed(c, key, (jobs + [j])[i]), (jobs + [j])[i].faults.write)
    {
      JobKeepsHolding(c, key, dir, jobs, j, max, i);
    }
  }

  lemma DoneIfFinished(c: Codec, key: bytes, max: nat, dir: map<string, bytes>, j: Job)
    requires IsWalk(j.files, j.listing)
    ensures AfterBackup(c, key, max, dir, j).0.Done? <==> AttemptOf(key, j).Finished?
  {
  }

  lemma JobResult(c: Codec, key: bytes, dir: map<string, bytes>, before: set<string>, jobs: seq<Job>, j: Job, max: nat,
                  r: Result, d: map<string, bytes>)
    requires AreWalks(jobs) && Follows(c, key, dir, before, jobs, max)
    requires IsWalk(j.files, j.listing) && |j.nonce| == NONCE_SIZE
    requires (r, d) == AfterBackup(c, key, max, dir, j)
    ensures AreWalks(jobs + [j])
    ensures Follows(c, key, d, before, jobs + [j], max)
    ensures r.Done? <==> AttemptOf(key, j).Finished?
  {
    DoneIfFinished(c, key, max, dir, j);
    JobKeepsFollowing(c, key, dir, before, jobs, j, max);
  }

  /** One more backup after those that were done. */
  method BackUpNext(s: Service, ghost before: set<string>, ghost done: seq<Job>, j: Job) returns (r: Result)
    requires s.maxBackups >= 0 && AreWalks(done) && Follows(s.codec, s.key, s.dir, before, done, s.maxBackups)
    requires IsWalk(j.files, j.listing) && |j.nonce| == NONCE_SIZE
    modifies s
    ensures AreWalks(done + [j]) && Follows(s.codec, s.key, s.dir, before, done + [j], s.maxBackups)
    ensures r.Done? <==> AttemptOf(s.key, j).Finished?
  {
    ghost var dir := s.dir;
    r := s.CreateBackup(j.files, j.listing, j.time, j.nonce, j.faults);
    JobResult(s.codec, s.key, dir, before, done, j, s.maxBackups, r, s.dir);
  }

  /** Backups one after the other, whether they succeed or not. */
  method BackUpAll(s: Service, jobs: seq<Job>) returns (results: seq<Result>)
    requires s.maxBackups >= 0 && AreWalks(jobs)
    modifies s
    ensures |results| == |jobs|
    ensures forall i | 0 <= i < |jobs| :: results[i].Done? <==> AttemptOf(s.key, jobs[i]).Finished?
    ensures Follows(s.codec, s.key, s.dir, old(s.dir).Keys, jobs, s.maxBackups)
  {
    ghost var before := s.dir.Keys;
    results := [];
    var i := 0;
    while i < |jobs|
      invariant i <= |jobs| && |results| == i
      invariant forall k | 0 <= k < i :: results[k].Done? <==> AttemptOf(s.key, jobs[k]).Finished?
      invariant Follows(s.codec, s.key, s.dir, before, jobs[..i], s.maxBackups)
    {
      var r := BackUpNext(s, before, jobs[..i], jobs[i]);
      results := results + [r];
      assert jobs[..i] + [jobs[i]] == jobs[..i + 1];
      i := i + 1;
    }
    assert jobs[..i] == jobs;
  }

  function Times(jobs: seq<Job>): (ts: seq<Timestamp>)
    ensures |ts| == |jobs|
  {
    seq(|jobs|, i requires 0 <= i < |jobs| => jobs[i].time)
  }

  ghost predicate AllReadBack(c: Codec, key: bytes, dir: map<string, bytes>, jobs: seq<Job>)
    requires AreWalks(jobs)
  {
    forall i: nat | LastOfItsName(key, jobs, i) && AttemptOf(key, jobs[i]).Finished? && Name(jobs[i].time) in dir ::
      ReadsBack(c, key, dir[Name(jobs[i].time)], jobs[i])
  }

  /** Every finished backup that is still there reads back. */
  lemma HeldBackupsReadBack(c: Codec, key: bytes, dir: map<string, bytes>, jobs: seq<Job>)
    requires c.Lawful() && AreWalks(jobs) && Holds(c, key, dir, jobs)
    ensures AllReadBack(c, key, dir, jobs)
  {
    forall i: nat | LastOfItsName(key, jobs, i) && AttemptOf(key, jobs[i]).Finished? && Name(jobs[i].time) in dir
      ensures ReadsBack(c, key, dir[Name(jobs[i].time)], jobs[i])
    {
      SealedReadsBack(c, key, jobs[i]);
    }
  }

  /**
   Main result: after backups one after the other of which the last succeeded, the newest MaxBackups of all names
   that were ever written are left, with torn files among them; each file holds what its job sealed, or a beginning
   of that, and every finished one reads back as all of its files unless a close failed.
   */
  method RunBackups(s: Service, jobs: seq<Job>) returns (results: seq<Result>)
    requires s.maxBackups >= 0 && AreWalks(jobs)
    modifies s
    ensures |results| == |jobs|
    ensures forall i | 0 <= i < |jobs| :: results[i].Done? <==> AttemptOf(s.key, jobs[i]).Finished?
    ensures jobs != [] && results[|jobs| - 1].Done? ==>
      Matching(s.dir.Keys)
        == Newest(Matching(old(s.dir).Keys) + NamesWritten(AttemptsOf(s.key, jobs)), s.maxBackups)
    ensures Holds(s.codec, s.key, s.dir, jobs)
    ensures s.codec.Lawful() ==> AllReadBack(s.codec, s.key, s.dir, jobs)
    ensures (jobs != [] && (forall i | 0 <= i < |jobs| :: results[i].Done?)
             && Increasing(Times(jobs)) && Matching(old(s.dir).Keys) == {}) ==>
      var k := if |jobs| <= s.maxBackups then 0 else |jobs| - s.maxBackups;
      Matching(s.dir.Keys) == set i | k <= i < |jobs| :: Name(jobs[i].time)
  {
    ghost var before := s.dir.Keys;
    results := BackUpAll(s, jobs);
    if s.codec.Lawful() { HeldBackupsReadBack(s.codec, s.key, s.dir, jobs); }
    if jobs != [] && results[|jobs| - 1].Done? {
      AttemptsAreOnePrune(before, AttemptsOf(s.key, jobs), s.maxBackups);
      if (forall i | 0 <= i < |jobs| :: results[i].Done?) && Increasing(Times(jobs)) && Matching(before) == {} {
        NewestJobsRemain(s.key, before, jobs, s.maxBackups);
      }
    }
  }

  lemma NewestJobsRemain(key: bytes, before: set<string>, jobs: seq<Job>, max: nat)
    requires jobs != [] && Increasing(Times(jobs)) && Matching(before) == {}
    requires forall i | 0 <= i < |jobs| :: AttemptOf(key, jobs[i]).Finished?
    ensures var k := if |jobs| <= max then 0 else |jobs| - max;
      Matching(AfterAttempts(before, AttemptsOf(key, jobs), max)) == set i | k <= i < |jobs| :: Name(jobs[i].time)
  {
    var ts := Times(jobs);
    assert AttemptsOf(key, jobs) == AllFinished(ts);
    FinishedAttemptsAreHistory(before, ts, max);
    NewestBackupsRemain(before, ts, max);
    forall i | 0 <= i < |jobs| ensures Name(ts[i]) == Name(jobs[i].time) {}
  }
}
