/** The edit procedures as the harness runs them: local flags, early returns, exception handlers and the finally block,
    proved equal to the functions of AtomicFile. */
module AtomicFileClient {
  import opened RemoteFiles
  import AtomicFile
  import opened Options

  /** An open SFTP session. A method that cannot return normally says so in its result. */
  class Sftp {
    var world: World

    constructor (world: World)
      ensures this.world == world
    {
      this.world := world;
    }

    method Lstat(path: string) returns (stat: Stat)
      modifies this
      ensures (world, stat) == RemoteFiles.Lstat(old(world), path)
    {
      var step := RemoteFiles.Lstat(world, path);
      world, stat := step.0, step.1;
    }

    method ReadFile(path: string) returns (data: Option<Bytes>)
      modifies this
      ensures (world, data) == ReadData(old(world), path)
    {
      var step := ReadData(world, path);
      world, data := step.0, step.1;
    }

    method Normalize() returns (r: Resolution)
      modifies this
      ensures (world, r) == RemoteFiles.Normalize(old(world))
    {
      var step := RemoteFiles.Normalize(world);
      world, r := step.0, step.1;
    }

    method CreateExclusive(path: string, data: Bytes, mode: nat, owner: Option<(nat, nat)>) returns (ok: bool)
      modifies this
      ensures (world, ok) == WriteNew(old(world), path, data, mode, owner)
    {
      var step := OpenNew(world, path);
      world, ok := step.0, step.1;
      if !ok { return; }
      step := Write(world, path, data);
      world, ok := step.0, step.1;
      if !ok { return; }
      step := Chmod(world, path, mode);
      world, ok := step.0, step.1;
      if !ok { return; }
      if owner.Some? {
        step := Chown(world, path, owner.value.0, owner.value.1);
        world, ok := step.0, step.1;
      }
    }

    method PosixRename(source: string, target: string) returns (ok: bool)
      modifies this
      ensures (world, ok) == RemoteFiles.PosixRename(old(world), source, target)
    {
      var step := RemoteFiles.PosixRename(world, source, target);
      world, ok := step.0, step.1;
    }

    method Rename(source: string, target: string) returns (ok: bool)
      modifies this
      ensures (world, ok) == RemoteFiles.Rename(old(world), source, target)
    {
      var step := RemoteFiles.Rename(world, source, target);
      world, ok := step.0, step.1;
    }

    method Remove(path: string)
      modifies this
      ensures world == RemoteFiles.Remove(old(world), path).0
    {
      world := RemoteFiles.Remove(world, path).0;
    }

    method ReadRegular(path: string) returns (r: Read)
      modifies this
      ensures (world, r) == RemoteFiles.ReadRegular(old(world), path)
      ensures r.Content? ==> r.node.Regular?
    {
      var stat := Lstat(path);
      if !stat.Attrs? { return Lost; }
      if stat.node.Symlink? { return Unfit("symlink_refused"); }
      if !stat.node.Regular? { return Unfit("not_regular_file"); }
      if |stat.node.data| > MAX_FILE_BYTES { return Unfit("file_too_large"); }
      var data := ReadFile(path);
      if data.None? { return Lost; }
      if |data.value| > MAX_FILE_BYTES { return Unfit("file_too_large"); }
      r := Content(stat.node, data.value);
    }

    /** No call: the result of a rename has been looked at, and other writers are as they were before it. */
    method Resume(quiet: bool)
      modifies this
      ensures world == old(world).(quiet := quiet)
    {
      world := world.(quiet := quiet);
    }

    method TargetAbsent(path: string) returns (p: AtomicFile.Presence)
      modifies this
      ensures (world, p) == AtomicFile.TargetAbsent(old(world), path)
    {
      var stat := Lstat(path);
      match stat {
        case Missing => p := AtomicFile.Absent;
        case Broken => p := AtomicFile.Unknown;
        case Attrs(node) =>
          p := AtomicFile.Present(if node.Symlink? then "symlink_refused" else "target_already_exists");
      }
    }
  }

  method ApplyReplace(sftp: Sftp, plan: AtomicFile.ReplacePlan, n: AtomicFile.Names) returns (result: AtomicFile.Result)
    modifies sftp
    ensures (sftp.world, result) == AtomicFile.ApplyReplace(old(sftp.world), plan, n)
  {
    hide RemoteFiles.ReadRegular, RemoteFiles.PosixRename, WriteNew, RemoteFiles.Normalize, RemoteFiles.Remove;
    var replaced, mutationAttempted, backupWritten, preserveBackup := false, false, false, false;
    var raised, quiet := true, sftp.world.quiet;
    result := AtomicFile.FAILED;
    label attempt: {
      var read := sftp.ReadRegular(plan.path);
      if !read.Content? { break attempt; }
      var resolution := sftp.Normalize();
      if !resolution.Resolved? { break attempt; }
      if resolution.path != plan.resolved {
        raised, result := false, AtomicFile.Error("resolved_path_changed_after_approval", None);
        break attempt;
      }
      if Sha(read.data) != plan.before {
        raised, result := false, AtomicFile.Error("stale_after_approval", None);
        break attempt;
      }
      if read.node.mode != plan.mode || read.node.uid != plan.uid || read.node.gid != plan.gid {
        raised, result := false, AtomicFile.Error("metadata_changed_after_approval", None);
        break attempt;
      }
      backupWritten := sftp.CreateExclusive(n.backup, read.data, plan.mode, Some((plan.uid, plan.gid)));
      if !backupWritten { break attempt; }
      var written := sftp.CreateExclusive(n.temporary, plan.data, plan.mode, Some((plan.uid, plan.gid)));
      if !written { break attempt; }
      mutationAttempted := true;
      quiet := sftp.world.quiet;
      replaced := sftp.PosixRename(n.temporary, plan.path);
      if !replaced { break attempt; }
      var verified := sftp.ReadRegular(plan.path);
      sftp.Resume(quiet);
      if !verified.Content? || Sha(verified.data) != Sha(plan.data) { break attempt; }
      raised, result := false, AtomicFile.Applied(false);
    }
    if raised {
      if mutationAttempted && !replaced {
        var observed := sftp.ReadRegular(plan.path);
        sftp.Resume(quiet);
        if !observed.Content? {
          preserveBackup := true;
          result := AtomicFile.Error("atomic_replace_outcome_unknown", Some(true));
        } else {
          var metadataOk := observed.node.mode == plan.mode && observed.node.uid == plan.uid
            && observed.node.gid == plan.gid;
          if Sha(observed.data) == Sha(plan.data) && metadataOk {
            replaced := true;
            result := AtomicFile.Applied(true);
          } else if Sha(observed.data) == plan.before && metadataOk {
            result := AtomicFile.Error("atomic_replace_failed", Some(false));
          } else {
            preserveBackup := true;
            result := AtomicFile.Error("atomic_replace_outcome_unknown", Some(true));
          }
        }
      } else {
        var rolledBack := false;
        if replaced && backupWritten {
          rolledBack := sftp.PosixRename(n.backup, plan.path);
        }
        result := AtomicFile.Error("atomic_replace_failed", Some(replaced && !rolledBack));
      }
    }
    if !replaced {
      sftp.Remove(n.temporary);
      if backupWritten && !preserveBackup {
        sftp.Remove(n.backup);
      }
    }
  }

  method ApplyCreate(sftp: Sftp, plan: AtomicFile.CreatePlan, temporary: string) returns (result: AtomicFile.Result)
    modifies sftp
    ensures (sftp.world, result) == AtomicFile.ApplyCreate(old(sftp.world), plan, temporary)
  {
    hide RemoteFiles.ReadRegular, RemoteFiles.Rename, WriteNew, RemoteFiles.Normalize, RemoteFiles.Remove,
         AtomicFile.TargetAbsent, RemoteFiles.Lstat;
    var created, renameAttempted, quiet := false, false, sftp.world.quiet;
    result := AtomicFile.Error(AtomicFile.CREATE_FAILED, Some(false));
    label attempt: {
      var presence := sftp.TargetAbsent(plan.path);
      if presence.Unknown? { break attempt; }
      if presence.Present? {
        result := AtomicFile.Error(presence.reason + "_after_approval", None);
        break attempt;
      }
      var parent := sftp.Lstat(plan.directory);
      if !parent.Attrs? { break attempt; }
      if parent.node.Symlink? {
        result := AtomicFile.Error("parent_symlink_refused", Some(created));
        break attempt;
      }
      if !parent.node.Directory? {
        result := AtomicFile.Error("parent_not_directory", Some(created));
        break attempt;
      }
      if parent.node != Directory(plan.parentMode, plan.parentUid, plan.parentGid) {
        result := AtomicFile.Error("parent_changed_after_approval", None);
        break attempt;
      }
      var resolution := sftp.Normalize();
      if resolution.Unresolved? { break attempt; }
      if resolution.Refused? {
        result := AtomicFile.Error("resolved_path_not_allowed", Some(created));
        break attempt;
      }
      if resolution.path != plan.resolved {
        result := AtomicFile.Error("resolved_path_changed_after_approval", None);
        break attempt;
      }
      var written := sftp.CreateExclusive(temporary, plan.data, plan.mode, None);
      if !written { break attempt; }
      renameAttempted := true;
      quiet := sftp.world.quiet;
      var renamed := sftp.Rename(temporary, plan.path);
      if !renamed {
        presence := sftp.TargetAbsent(plan.path);
        if presence.Absent? {
          sftp.Resume(quiet);
          break attempt;
        }
        if presence.Unknown? {
          sftp.Resume(quiet);
          result := AtomicFile.Error("atomic_create_outcome_unknown", Some(true));
          break attempt;
        }
        var read := sftp.ReadRegular(plan.path);
        sftp.Resume(quiet);
        if AtomicFile.AsApproved(read, plan) {
          created := true;
          result := AtomicFile.Applied(true);
        } else if read.Unfit? {
          result := AtomicFile.Error("target_created_after_approval", Some(false));
        } else {
          result := AtomicFile.Error("atomic_create_outcome_unknown", Some(true));
        }
        break attempt;
      }
      created := true;
      var verified := sftp.ReadRegular(plan.path);
      sftp.Resume(quiet);
      if AtomicFile.AsApproved(verified, plan) {
        result := AtomicFile.Applied(false);
      } else if verified.Content? {
        result := AtomicFile.Error("postcondition_failed", Some(true));
      } else if verified.Unfit? {
        result := AtomicFile.Error(verified.reason, Some(created));
      } else {
        result := AtomicFile.Error(AtomicFile.CREATE_FAILED, Some(created || renameAttempted));
      }
    }
    if !created {
      sftp.Remove(temporary);
    }
  }
}
