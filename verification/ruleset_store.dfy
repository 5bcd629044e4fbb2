/**
 Uploading and deleting rule, decoder and CDB list files and replacing ossec.conf: each operation
 copies the old file aside, changes the target, validates, and moves the copy back in a `finally`.
 Every fallible step takes its outcome from a record chosen by the environment.
 */
module RulesetStore {
  import opened Options

  type Path = string
  type Content = string

  /** How a call, or a step of one, ends: well, with a BongosecError, or with another exception. */
  datatype Outcome = Done | Failed(code: int) | Escaped

  /** `full_copy`: complete, refused before writing, or interrupted after writing something. */
  datatype Copy = Copied | Refused | Interrupted(junk: Content)

  /** The outcomes of the steps of one upload. */
  datatype Steps = Steps(
    directory: Outcome,   // validate_upload_delete_dir
    validation: Outcome,  // validate_bongosec_xml or validate_cdb_list
    copy: Copy,
    removable: bool,      // the old file can be deleted
    write: Outcome,       // upload_file
    logtest: Outcome,     // validate_dummy_logtest
    clean: bool,          // the new file can be deleted after a failed logtest
    dropped: bool)        // the backup can be deleted at the end

  function Backup(p: Path): Path {
    p + ".backup"
  }

  predicate IsBackup(p: Path) {
    |p| >= 7 && p[|p| - 7..] == ".backup"
  }

  predicate NoBackups(files: map<Path, Content>) {
    forall p :: p in files ==> !IsBackup(p)
  }

  lemma BackupIsBackup(p: Path)
    ensures IsBackup(Backup(p))
  {
    assert Backup(p)[|p|..] == ".backup";
  }

  predicate SameAt(before: map<Path, Content>, after: map<Path, Content>, p: Path) {
    (p in before <==> p in after) && (p in before ==> before[p] == after[p])
  }

  lemma SameEverywhere(before: map<Path, Content>, after: map<Path, Content>)
    requires forall p :: SameAt(before, after, p)
    ensures before == after
  {
    forall p
      ensures p in before <==> p in after
      ensures p in before ==> before[p] == after[p]
    {
      assert SameAt(before, after, p);
    }
  }

  /** The stale backup that a failed call would move over the target is there and is not the target. */
  predicate StaleHarm(files: map<Path, Content>, p: Path) {
    Backup(p) in files && (p !in files || files[p] != files[Backup(p)])
  }

  /** The call is turned down before anything is touched. */
  predicate TurnedDown(files: map<Path, Content>, p: Path, content: Content, overwrite: bool, e: Steps) {
    e.directory != Done || content == "" || e.validation != Done || (!overwrite && p in files)
  }

  predicate CopyHarms(files: map<Path, Content>, p: Path, copy: Copy)
    requires p in files
  {
    match copy
    case Copied => false
    case Refused => StaleHarm(files, p)
    case Interrupted(junk) => junk != files[p]
  }

  /**
   A rejected new file that nobody deletes: `overwrite` was set, the deletion failed, or the exception was of
   another kind.
   */
  predicate LeavesNewFile(files: map<Path, Content>, p: Path, content: Content, overwrite: bool, e: Steps) {
    && !TurnedDown(files, p, content, overwrite, e) && p !in files
    && e.write == Done && e.logtest != Done && (overwrite || e.logtest == Escaped || !e.clean)
  }

  /** Exactly the failed uploads that do not leave the target as it was. */
  predicate Harms(files: map<Path, Content>, p: Path, content: Content, overwrite: bool, e: Steps) {
    || (!TurnedDown(files, p, content, overwrite, e) && p in files && CopyHarms(files, p, e.copy))
    || LeavesNewFile(files, p, content, overwrite, e)
  }

  predicate Succeeds(files: map<Path, Content>, p: Path, content: Content, overwrite: bool, e: Steps) {
    && !TurnedDown(files, p, content, overwrite, e)
    && (p in files ==> e.copy == Copied && e.dropped)
    && e.write == Done && e.logtest == Done
  }

  // CDB lists: the deletion also drops the compiled list, and there is no logtest.

  function Compiled(p: Path): Path {
    p + ".cdb"
  }

  predicate ListTurnedDown(files: map<Path, Content>, p: Path, overwrite: bool, elsewhere: bool, e: Steps) {
    e.validation != Done || (!overwrite && p in files) || elsewhere
  }

  predicate ListHarms(files: map<Path, Content>, p: Path, overwrite: bool, elsewhere: bool, e: Steps) {
    !ListTurnedDown(files, p, overwrite, elsewhere, e) && p in files && CopyHarms(files, p, e.copy)
  }

  predicate ListSucceeds(files: map<Path, Content>, p: Path, overwrite: bool, elsewhere: bool, e: Steps) {
    && !ListTurnedDown(files, p, overwrite, elsewhere, e)
    && (p in files ==> e.copy == Copied && e.dropped)
    && e.write == Done
  }

  /** The compiled list goes when the old list is deleted, whether or not the call succeeds later. */
  predicate DropsCompiled(files: map<Path, Content>, p: Path, overwrite: bool, elsewhere: bool, e: Steps) {
    !ListTurnedDown(files, p, overwrite, elsewhere, e) && p in files && e.copy == Copied && e.removable && e.clean
  }

  // ossec.conf: the backup is restored whatever fails, and the write is not atomic.

  datatype Write = Written | WriteFailed(left: Option<Content>)

  predicate ConfHarms(files: map<Path, Content>, p: Path, conf: Content, validation: Outcome, copy: Copy) {
    if conf == "" || validation != Done || p !in files then StaleHarm(files, p) else CopyHarms(files, p, copy)
  }

  predicate ConfSucceeds(files: map<Path, Content>, p: Path, conf: Content, validation: Outcome, copy: Copy,
      write: Write, check: Outcome, dropped: bool)
  {
    conf != "" && validation == Done && p in files && copy == Copied && write == Written && check == Done && dropped
  }

  class Store {
    var files: map<Path, Content>

    constructor (files: map<Path, Content>)
      ensures this.files == files
    {
      this.files := files;
    }

    /** The `finally` clause: a backup that is still there goes back over the target. */
    method Restore(p: Path)
      modifies this
      ensures files == if Backup(p) in old(files)
                       then (old(files) - {Backup(p)})[p := old(files)[Backup(p)]] else old(files)
    {
      if Backup(p) in files {
        files := (files - {Backup(p)})[p := files[Backup(p)]];
      }
    }

    /** `delete_rule_file` and `delete_decoder_file`. */
    method DeleteRulesetFile(p: Path, directory: Outcome, removable: bool) returns (r: Outcome)
      modifies this
      ensures r == if directory != Done then directory
                   else if p !in old(files) then Failed(1906)
                   else if !removable then Failed(1907)
                   else Done
      ensures files == if r == Done then old(files) - {p} else old(files)
    {
      if directory != Done {
        return directory;
      }
      if p in files {
        if !removable {
          return Failed(1907);
        }
        files := files - {p};
        return Done;
      }
      return Failed(1906);
    }

    method CopyAside(p: Path, copy: Copy) returns (r: Outcome)
      requires p in files
      modifies this
      ensures r == if copy == Copied then Done else Failed(1019)
      ensures files == match copy
                       case Copied => old(files)[Backup(p) := old(files)[p]]
                       case Refused => old(files)
                       case Interrupted(junk) => old(files)[Backup(p) := junk]
    {
      match copy
      case Copied => files := files[Backup(p) := files[p]]; return Done;
      case Refused => return Failed(1019);
      case Interrupted(junk) => files := files[Backup(p) := junk]; return Failed(1019);
    }

    /** The part of the upload that writes and validates the new file. */
    method Install(p: Path, content: Content, overwrite: bool, backedUp: bool, e: Steps) returns (r: Outcome)
      modifies this
      ensures var dropping := backedUp && Backup(p) in old(files);
              r == if e.write != Done then e.write else if e.logtest != Done then e.logtest
                   else if dropping && !e.dropped then Escaped else Done
      ensures e.write != Done ==> files == old(files)
      ensures e.write == Done && e.logtest != Done ==>
                files == if e.logtest.Failed? && !overwrite && e.clean
                         then old(files) - {p} else old(files)[p := content]
      ensures e.write == Done && e.logtest == Done && r != Done ==> files == old(files)[p := content]
      ensures r == Done ==> files == (if backedUp then old(files) - {Backup(p)} else old(files))[p := content]
    {
      r := e.write;
      if r != Done {
        return;
      }
      files := files[p := content];
      if e.logtest != Done {
        if e.logtest.Failed? && !overwrite && p in files {
          var _ := DeleteRulesetFile(p, Done, e.clean);
        }
        return e.logtest;
      }
      if backedUp && Backup(p) in files {
        if !e.dropped {
          return Escaped;
        }
        files := files - {Backup(p)};
      }
    }

    /** `upload_rule_file` and `upload_decoder_file`. */
    method UploadRulesetFile(p: Path, content: Content, overwrite: bool, e: Steps) returns (r: Outcome)
      modifies this
      ensures r == if e.directory != Done then e.directory
                   else if content == "" then Failed(1112)
                   else if e.validation != Done then e.validation
                   else if !overwrite && p in old(files) then Failed(1905)
                   else if p in old(files) && e.copy != Copied then Failed(1019)
                   else if e.write != Done then e.write
                   else if e.logtest != Done then e.logtest
                   else if p in old(files) && !e.dropped then Escaped
                   else Done
      ensures e.directory != Done || content == "" || e.validation != Done || (!overwrite && p in old(files)) ==>
                files == old(files)
      ensures r == Done <==> Succeeds(old(files), p, content, overwrite, e)
      ensures r == Done ==> files == (if p in old(files) then old(files) - {Backup(p)} else old(files))[p := content]
      ensures r != Done ==> (SameAt(old(files), files, p) <==> !Harms(old(files), p, content, overwrite, e))
      ensures LeavesNewFile(old(files), p, content, overwrite, e) ==> files == old(files)[p := content]
      ensures forall q :: q != p && q != Backup(p) ==> SameAt(old(files), files, q)
      ensures Backup(p) !in old(files) ==> Backup(p) !in files
    {
      var backedUp := false;
      r := Done;
      label body: {
        if e.directory != Done {
          r := e.directory;
          break body;
        }
        if |content| == 0 {
          r := Failed(1112);
          break body;
        }
        if e.validation != Done {
          r := e.validation;
          break body;
        }
        if !overwrite && p in files {
          r := Failed(1905);
          break body;
        } else if overwrite && p in files {
          backedUp := true;
          r := CopyAside(p, e.copy);
          if r != Done {
            break body;
          }
          var _ := DeleteRulesetFile(p, Done, e.removable);
        }
        r := Install(p, content, overwrite, backedUp, e);
      }
      if backedUp {
        Restore(p);
      }
    }

    /** `delete_list_file`; `compiledGone` is whether the compiled list could be deleted too. */
    method DeleteListFile(p: Path, removable: bool, compiledGone: bool) returns (r: Outcome)
      modifies this
      ensures r == if p !in old(files) then Failed(1906) else if !removable then Failed(1907) else Done
      ensures files == if r != Done then old(files)
                       else if compiledGone then old(files) - {p, p + ".cdb"}
                       else old(files) - {p}
    {
      if p !in files {
        return Failed(1906);
      }
      if !removable {
        return Failed(1907);
      }
      files := files - {p};
      if compiledGone {
        files := files - {Compiled(p)};
      }
      return Done;
    }

    /** `upload_list_file`; `elsewhere` is whether a subdirectory already has a file of that name. */
    method UploadListFile(p: Path, content: Content, overwrite: bool, elsewhere: bool, e: Steps) returns (r: Outcome)
      modifies this
      ensures r == if e.validation != Done then e.validation
                   else if !overwrite && p in old(files) then Failed(1905)
                   else if elsewhere then Failed(1805)
                   else if p in old(files) && e.copy != Copied then Failed(1019)
                   else if e.write != Done then e.write
                   else if p in old(files) && !e.dropped then Escaped
                   else Done
      ensures e.validation != Done || (!overwrite && p in old(files)) || elsewhere ==> files == old(files)
      ensures r == Done <==> ListSucceeds(old(files), p, overwrite, elsewhere, e)
      ensures r == Done ==> p in files && files[p] == content
      ensures r != Done ==> (SameAt(old(files), files, p) <==> !ListHarms(old(files), p, overwrite, elsewhere, e))
      ensures Compiled(p) in files <==>
                Compiled(p) in old(files) && !DropsCompiled(old(files), p, overwrite, elsewhere, e)
      ensures forall q :: q != p && q != Backup(p) && q != Compiled(p) ==> SameAt(old(files), files, q)
      ensures Compiled(p) in files ==> files[Compiled(p)] == old(files)[Compiled(p)]
      ensures Backup(p) !in old(files) ==> Backup(p) !in files
    {
      NamesDiffer(p);
      var backedUp := false;
      r := Done;
      label body: {
        if e.validation != Done {
          r := e.validation;
          break body;
        }
        if !overwrite && p in files {
          r := Failed(1905);
          break body;
        } else if elsewhere {
          r := Failed(1805);
          break body;
        } else if overwrite && p in files {
          backedUp := true;
          r := CopyAside(p, e.copy);
          if r != Done {
            break body;
          }
          var _ := DeleteListFile(p, e.removable, e.clean);
        }
        r := e.write;
        if r != Done {
          break body;
        }
        files := files[p := content];
        if backedUp && Backup(p) in files {
          if !e.dropped {
            r := Escaped;
            break body;
          }
          files := files - {Backup(p)};
        }
      }
      if backedUp {
        Restore(p);
      }
    }

    /** `update_ossec_conf`; `check` is what `validate_ossec_conf` says about the written file. */
    method UpdateOssecConf(p: Path, conf: Content, validation: Outcome, copy: Copy, write: Write, check: Outcome,
                           dropped: bool)
      returns (r: Outcome)
      modifies this
      ensures r == if conf == "" then Failed(1125)
                   else if validation != Done then validation
                   else if p !in old(files) || copy != Copied then Failed(1019)
                   else if write != Written then Failed(1126)
                   else if check != Done then check
                   else if !dropped then Escaped
                   else Done
      ensures r == Done <==> ConfSucceeds(old(files), p, conf, validation, copy, write, check, dropped)
      ensures r == Done ==> files == (old(files) - {Backup(p)})[p := conf]
      ensures r != Done ==> (SameAt(old(files), files, p) <==> !ConfHarms(old(files), p, conf, validation, copy))
      ensures forall q :: q != p && q != Backup(p) ==> SameAt(old(files), files, q)
      ensures Backup(p) !in files
    {
      r := Done;
      label body: {
        if |conf| == 0 {
          r := Failed(1125);
          break body;
        }
        if validation != Done {
          r := validation;
          break body;
        }
        if p !in files {
          r := Failed(1019);
          break body;
        }
        r := CopyAside(p, copy);
        if r != Done {
          break body;
        }
        match write {
          case Written =>
            files := files[p := conf];
          case WriteFailed(left) =>
            if left.Some? {
              files := files[p := left.value];
            }
            r := Failed(1126);
            break body;
        }
        if check != Done {
          r := check;
          break body;
        }
        if Backup(p) in files {
          if !dropped {
            r := Escaped;
            break body;
          }
          files := files - {Backup(p)};
        }
      }
      Restore(p);
    }

    method Perform(call: Call) returns (r: Outcome)
      requires NoBackups(files) && Fair(call)
      modifies this
      ensures NoBackups(files) && files == Effect(old(files), call)
    {
      BackupIsBackup(call.p);
      NamesDiffer(call.p);
      assert Backup(call.p) !in files;
      ghost var before, ideal := files, Effect(files, call);
      match call {
      case Upload(p, content, overwrite, e) =>
        r := UploadRulesetFile(p, content, overwrite, e);
      case Delete(p, directory, removable) =>
        r := DeleteRulesetFile(p, directory, removable);
      case UploadList(p, content, overwrite, elsewhere, e) =>
        r := UploadListFile(p, content, overwrite, elsewhere, e);
      case DeleteList(p, removable, compiledGone) =>
        r := DeleteListFile(p, removable, compiledGone);
      case UpdateConf(p, conf, validation, copy, write, check, dropped) =>
        r := UpdateOssecConf(p, conf, validation, copy, write, check, dropped);
      }
      forall q
        ensures SameAt(files, ideal, q)
      {
        if q != call.p && q != Backup(call.p) && (call.UploadList? || call.DeleteList? ==> q != Compiled(call.p)) {
          assert SameAt(before, files, q);
        }
      }
      SameEverywhere(files, ideal);
    }

    /** Any sequence of calls, whatever fails in them, acts like one on a store without backups. */
    method PerformAll(calls: seq<Call>)
      requires NoBackups(files) && forall k :: 0 <= k < |calls| ==> Fair(calls[k])
      modifies this
      ensures NoBackups(files) && files == Effects(old(files), calls)
    {
      for k := 0 to |calls|
        invariant NoBackups(files) && Effects(files, calls[k..]) == Effects(old(files), calls)
      {
        var _ := Perform(calls[k]);
        assert calls[k..][1..] == calls[k + 1..];
      }
    }
  }

  lemma NamesDiffer(p: Path)
    ensures Compiled(p) != p && Backup(p) != p && Compiled(p) != Backup(p) && !IsBackup(Compiled(p))
  {
    assert Compiled(p)[|p| + 3] == 'b';
    assert Compiled(p)[|p|..][3] == 'b';
    if |p| + 4 >= 7 {
      assert Compiled(p)[|Compiled(p)| - 7..][6] == 'b';
    }
  }

  // Runs.

  datatype Call =
    | Upload(p: Path, content: Content, overwrite: bool, e: Steps)
    | Delete(p: Path, directory: Outcome, removable: bool)
    | UploadList(p: Path, content: Content, overwrite: bool, elsewhere: bool, e: Steps)
    | DeleteList(p: Path, removable: bool, compiledGone: bool)
    | UpdateConf(p: Path, conf: Content, validation: Outcome, copy: Copy, write: Write, check: Outcome, dropped: bool)

  /** The target is not itself named like a backup, and copying aside is all or nothing. */
  predicate Fair(call: Call) {
    && !IsBackup(call.p)
    && (match call
        case Upload(_, _, _, e) => !e.copy.Interrupted?
        case UploadList(_, _, _, _, e) => !e.copy.Interrupted?
        case UpdateConf(_, _, _, copy, _, _, _) => !copy.Interrupted?
        case Delete(_, _, _) => true
        case DeleteList(_, _, _) => true)
  }

  /** What a call means when nothing is ever half done: the new content, or no change. */
  function Effect(files: map<Path, Content>, call: Call): map<Path, Content> {
    match call
    case Upload(p, content, overwrite, e) =>
      if Succeeds(files, p, content, overwrite, e) || LeavesNewFile(files, p, content, overwrite, e)
      then files[p := content] else files
    case Delete(p, directory, removable) =>
      if directory == Done && removable then files - {p} else files
    case UploadList(p, content, overwrite, elsewhere, e) =>
      var rest := if DropsCompiled(files, p, overwrite, elsewhere, e) then files - {Compiled(p)} else files;
      if ListSucceeds(files, p, overwrite, elsewhere, e) then rest[p := content] else rest
    case DeleteList(p, removable, compiledGone) =>
      if p in files && removable then files - ({p} + if compiledGone then {Compiled(p)} else {}) else files
    case UpdateConf(p, conf, validation, copy, write, check, dropped) =>
      if ConfSucceeds(files, p, conf, validation, copy, write, check, dropped) then files[p := conf] else files
  }

  function Effects(files: map<Path, Content>, calls: seq<Call>): map<Path, Content>
    decreases |calls|
  {
    if calls == [] then files else Effects(Effect(files, calls[0]), calls[1..])
  }

  /**
   Without a leftover backup and with all-or-nothing copies, the one harmful failure is a rejected new file
   that stays.
   */
  lemma FailuresAreHarmlessUnless(files: map<Path, Content>, p: Path, content: Content, overwrite: bool, e: Steps)
    requires NoBackups(files) && !e.copy.Interrupted?
    ensures Harms(files, p, content, overwrite, e) <==> LeavesNewFile(files, p, content, overwrite, e)
    ensures p in files || (!overwrite && e.clean && e.logtest != Escaped) ==> !Harms(files, p, content, overwrite, e)
  {
    BackupIsBackup(p);
    assert Backup(p) !in files;
  }

  /** Inputs on which a failed call does change the target; each violates one of the conditions above. */
  lemma FailuresThatHarm()
    ensures Harms(map[], "a.xml", "<x/>", true, Steps(Done, Done, Copied, true, Done, Failed(1113), true, true))
    ensures Harms(map["a.xml" := "v1"], "a.xml", "v2", true,
        Steps(Done, Done, Interrupted("v"), true, Done, Done, true, true))
    ensures ConfHarms(map["ossec.conf" := "v2", Backup("ossec.conf") := "v1"], "ossec.conf", "", Done, Copied)
  {
    var files: map<Path, Content> := map["a.xml" := "v1"];
    assert files["a.xml"] == "v1" && |"v"| != |"v1"|;
    var confs: map<Path, Content> := map["ossec.conf" := "v2", Backup("ossec.conf") := "v1"];
    assert |Backup("ossec.conf")| != |"ossec.conf"|;
    assert confs["ossec.conf"] == "v2" && confs[Backup("ossec.conf")] == "v1" && "v1"[1] != "v2"[1];
  }

  /** What a call would put at its target. */
  function Offers(call: Call): Option<Content> {
    match call
    case Upload(_, content, _, _) => Some(content)
    case UploadList(_, content, _, _, _) => Some(content)
    case UpdateConf(_, conf, _, _, _, _, _) => Some(conf)
    case Delete(_, _, _) => None
    case DeleteList(_, _, _) => None
  }

  /** After any run, whatever a file holds was there at the start or was offered for it whole by a call. */
  lemma {:induction false} ContentHasASource(files: map<Path, Content>, calls: seq<Call>, q: Path)
    requires q in Effects(files, calls)
    ensures (q in files && files[q] == Effects(files, calls)[q])
            || exists k :: 0 <= k < |calls| && calls[k].p == q && Offers(calls[k]) == Some(Effects(files, calls)[q])
    decreases |calls|
  {
    if calls != [] {
      var next := Effect(files, calls[0]);
      ContentHasASource(next, calls[1..], q);
      if q in next && next[q] == Effects(files, calls)[q] {
        assert (q in files && files[q] == next[q]) || (calls[0].p == q && Offers(calls[0]) == Some(next[q]));
      } else {
        var k :| 0 <= k < |calls[1..]| && calls[1..][k].p == q
            && Offers(calls[1..][k]) == Some(Effects(files, calls)[q]);
        assert calls[k + 1] == calls[1..][k];
      }
    }
  }
}
