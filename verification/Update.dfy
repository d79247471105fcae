/**
 Binary replacement of src/update/update.go over an abstract file system in which every call may fail.
 `history` records the contents of the file system after each call, so claims about intermediate moments are
 claims about its elements.
 */
module Update {
  import opened Common

  datatype File = File(content: bytes, mode: nat)

  type Files = map<string, File>

  const DEFAULT_MODE := 0x1A4 // 0644

  class FileSystem {
    var files: Files
    ghost var history: seq<Files>

    constructor (files: Files)
      ensures this.files == files && history == []
    {
      this.files, history := files, [];
    }

    method Rename(from: string, to: string, fault: bool) returns (ok: bool)
      modifies this
      ensures ok <==> !fault && from in old(files)
      ensures files == if ok then (old(files) - {from})[to := old(files)[from]] else old(files)
      ensures history == old(history) + [files]
    {
      ok := !fault && from in files;
      if ok { files := (files - {from})[to := files[from]]; }
      history := history + [files];
    }

    /** Creates or truncates; an existing file keeps its mode. */
    method Create(path: string, fault: bool) returns (ok: bool)
      modifies this
      ensures ok == !fault
      ensures files ==
        if !ok then old(files)
        else old(files)[path := File([], if path in old(files) then old(files)[path].mode else DEFAULT_MODE)]
      ensures history == old(history) + [files]
    {
      ok := !fault;
      if ok { files := files[path := File([], if path in files then files[path].mode else DEFAULT_MODE)]; }
      history := history + [files];
    }

    method Append(path: string, data: bytes)
      requires path in files
      modifies this
      ensures files == old(files)[path := old(files)[path].(content := old(files)[path].content + data)]
      ensures history == old(history) + [files]
    {
      files := files[path := files[path].(content := files[path].content + data)];
      history := history + [files];
    }

    method Chmod(path: string, mode: nat, fault: bool) returns (ok: bool)
      modifies this
      ensures ok <==> !fault && path in old(files)
      ensures files == if ok then old(files)[path := old(files)[path].(mode := mode)] else old(files)
      ensures history == old(history) + [files]
    {
      ok := !fault && path in files;
      if ok { files := files[path := files[path].(mode := mode)]; }
      history := history + [files];
    }

    method Remove(path: string, fault: bool)
      modifies this
      ensures files == if fault then old(files) else old(files) - {path}
      ensures history == old(history) + [files]
    {
      if !fault { files := files - {path}; }
      history := history + [files];
    }
  }

  /** Which call fails; `copy` is the number of bytes after which copying breaks off. */
  datatype Faults = Faults(
    backup: bool, open: bool, create: bool, copy: Option<nat>, stat: bool, chmod: bool, rollback: bool, cleanup: bool)

  /** Two states agree except at the paths. */
  ghost predicate SameOutside(a: Files, b: Files, paths: set<string>) {
    forall p | p !in paths :: (p in a <==> p in b) && (p in a ==> a[p] == b[p])
  }

  /** During a copy to dst only dst changes: it is as it was, or holds some first bytes of the content. */
  ghost predicate Copying(before: Files, now: Files, dst: string, content: bytes) {
    && SameOutside(before, now, {dst})
    && (dst in now ==> now[dst].content <= content || (dst in before && now[dst] == before[dst]))
  }

  /** What a copy of src to dst reads: creating dst empties the source when both are the same file. */
  function Source(files: Files, src: string, dst: string): bytes
    requires src in files
  {
    if src == dst then [] else files[src].content
  }

  /** copyFile. */
  method CopyFile(fs: FileSystem, src: string, dst: string, faults: Faults) returns (ok: bool)
    modifies fs
    ensures ok <==> (
      && src in old(fs.files) && !faults.open && !faults.create && !faults.stat && !faults.chmod
      && (faults.copy.None? || faults.copy.value >= |Source(old(fs.files), src, dst)|))
    ensures ok ==>
      fs.files == old(fs.files)[dst := File(Source(old(fs.files), src, dst), old(fs.files)[src].mode)]
    ensures SameOutside(old(fs.files), fs.files, {dst})
    ensures old(fs.history) <= fs.history
    ensures src in old(fs.files) ==> forall i | |old(fs.history)| <= i < |fs.history| ::
      Copying(old(fs.files), fs.history[i], dst, Source(old(fs.files), src, dst))
    ensures src !in old(fs.files) ==> fs.files == old(fs.files) && fs.history == old(fs.history)
  {
    if faults.open || src !in fs.files { return false; }
    ok := fs.Create(dst, faults.create);
    if !ok { return; }
    var content, mode := fs.files[src].content, fs.files[dst].mode;
    assert content == Source(old(fs.files), src, dst);
    assert Copying(old(fs.files), fs.files, dst, content);
    var k := 0;
    while k < |content|
      invariant k <= |content|
      invariant faults.copy.None? || faults.copy.value >= k
      invariant fs.files == old(fs.files)[dst := File(content[..k], mode)]
      invariant old(fs.history) <= fs.history
      invariant forall i | |old(fs.history)| <= i < |fs.history| :: Copying(old(fs.files), fs.history[i], dst, content)
    {
      if faults.copy == Some(k) { return false; }
      assert content[..k] + [content[k]] == content[..k + 1];
      fs.Append(dst, [content[k]]);
      k := k + 1;
    }
    assert content[..k] == content;
    if faults.stat { return false; }
    assert fs.files[src].mode == old(fs.files)[src].mode;
    ok := fs.Chmod(dst, fs.files[src].mode, faults.chmod);
  }

  /** The bytes replaceBinary reads as the new binary: after the backup rename the backup path holds the old one. */
  function NewBytes(files: Files, newPath: string, target: string, backup: string): Option<bytes>
    requires target in files
  {
    if newPath == backup then Some(files[target].content)
    else if newPath == target || newPath !in files then None
    else Some(files[newPath].content)
  }

  /** The mode that comes with them. */
  function NewMode(files: Files, newPath: string, target: string, backup: string): nat
    requires target in files
  {
    if newPath == backup || newPath !in files then files[target].mode else files[newPath].mode
  }

  /** No call of a copy of so many bytes fails. */
  predicate CopySucceeds(faults: Faults, size: nat) {
    && !faults.open && !faults.create && !faults.stat && !faults.chmod
    && (faults.copy.None? || faults.copy.value >= size)
  }

  /** The complete old or the complete new binary can be started from the target or the backup path. */
  ghost predicate Recoverable(files: Files, target: string, backup: string, binary: File, installed: Option<bytes>) {
    || (target in files && files[target] == binary)
    || (backup in files && files[backup] == binary)
    || (target in files && Some(files[target].content) == installed)
  }

  /** replaceBinary. */
  method ReplaceBinary(fs: FileSystem, newPath: string, target: string, faults: Faults) returns (ok: bool)
    modifies fs
    ensures var backup := target + ".backup";
      && SameOutside(old(fs.files), fs.files, {target, backup})
      && old(fs.history) <= fs.history
      && (target !in old(fs.files) ==> !ok && fs.files == old(fs.files))
      && (target in old(fs.files) ==>
            var binary, installed := old(fs.files)[target], NewBytes(old(fs.files), newPath, target, backup);
            // success exactly when there is a new binary and no call before the clean-up fails
            && (ok <==> installed.Some? && !faults.backup && CopySucceeds(faults, |installed.value|))
            // success: the target holds the new bytes and mode, and the backup is gone unless it cannot be removed
            && (ok ==> target in fs.files
                       && fs.files[target] == File(installed.value, NewMode(old(fs.files), newPath, target, backup)))
            && (ok ==> if faults.cleanup then backup in fs.files && fs.files[backup] == binary else backup !in fs.files)
            // a failed backup rename changes nothing
            && (faults.backup ==> !ok && fs.files == old(fs.files))
            // error: the target holds the old binary, unless the roll-back itself failed, and then the backup does
            && (!ok && !faults.rollback ==> target in fs.files && fs.files[target] == binary)
            && (!ok && !faults.rollback && !faults.backup ==> backup !in fs.files)
            && (!ok && faults.rollback && !faults.backup ==> backup in fs.files && fs.files[backup] == binary)
            // at every moment in between nothing is lost
            && (forall i | |old(fs.history)| <= i < |fs.history| ::
                  Recoverable(fs.history[i], target, backup, binary, installed)))
  {
    var backup := target + ".backup";
    assert |backup| == |target| + 7;
    ghost var before := fs.files;
    ok := fs.Rename(target, backup, faults.backup);
    if !ok { return; }
    ghost var moved, start := fs.files, |fs.history|;
    ok := CopyFile(fs, newPath, target, faults);
    assert moved[backup] == before[target];
    assert forall i | start <= i < |fs.history| :: backup in fs.history[i] && fs.history[i][backup] == before[target];
    if !ok {
      var _ := fs.Rename(backup, target, faults.rollback);
      return false;
    }
    fs.Remove(backup, faults.cleanup);
    return true;
  }

  /** Success installs what newPath held exactly when newPath is not the backup path, or holds the old bytes already. */
  lemma InstalledBytesAreTheGivenOnes(files: Files, newPath: string, target: string, backup: string)
    requires target in files && newPath in files && newPath != target && target != backup
    ensures NewBytes(files, newPath, target, backup) == Some(files[newPath].content) <==>
      newPath != backup || files[backup].content == files[target].content
  {
  }
}
