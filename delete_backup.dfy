/**
 * DeleteBackup.go: removing the backup files next to the configuration
 * file, after a confirmation whose answer is read the wrong way round.
 */
module DeleteBackup {
  import opened Wrappers
  import opened Text
  import opened Env
  import opened Conf
  import opened Backup

  /** The iptables backup file deletion looks for. */
  function DelIptablesFile(folder: string): string {
    folder + "iptables.bak"
  }

  /** The ipset backup file deletion looks for. */
  function DelIpsetFile(folder: string): string {
    folder + "ipset.bak"
  }

  /**
   * The files deletion looks for are never the files backupIPs writes into
   * the same folder, whatever the set name, and differ from each other.
   */
  lemma DeleteTargetsMissBackups(folder: string, name: string)
    ensures DelIptablesFile(folder) != DelIpsetFile(folder)
    ensures DelIptablesFile(folder) !in {IptablesFile(folder, name), IpsetFile(folder, name)}
    ensures DelIpsetFile(folder) !in {IptablesFile(folder, name), IpsetFile(folder, name)}
  {
    var n := |folder|;
    assert DelIptablesFile(folder)[n + 2] == 't' && DelIptablesFile(folder)[n + 8] == '.';
    assert DelIpsetFile(folder)[n + 2] == 's' && DelIpsetFile(folder)[n + 5] == '.';
    assert IptablesFile(folder, name)[n + 2] == 't' && IptablesFile(folder, name)[n + 8] == '_';
    assert IpsetFile(folder, name)[n + 2] == 's' && IpsetFile(folder, name)[n + 5] == '_';
  }

  /** delBackupCMD.Fn's flag normalisation: `--all` turns both flags on. */
  function NormaliseFlags(all: bool, ipset: bool, iptables: bool): (r: (bool, bool))
    ensures all ==> r == (true, true)
    ensures !all ==> r == (ipset, iptables)
  {
    if all then (true, true) else (ipset, iptables)
  }

  /** What the confirmation question names, by the flags. */
  function ConfirmLabel(deleteIPset: bool, deleteIPtables: bool): (r: string)
    ensures r == "" <==> !deleteIPset && !deleteIPtables
  {
    if deleteIPset && deleteIPtables then "IPset & IPtables"
    else if deleteIPset then "IPset"
    else if deleteIPtables then "IPtables"
    else ""
  }

  /** The label begins with "IPset" exactly when the ipset backup goes, and ends with "IPtables" exactly when the iptables one does. */
  lemma ConfirmLabelNamesTargets(deleteIPset: bool, deleteIPtables: bool)
    ensures var r := ConfirmLabel(deleteIPset, deleteIPtables);
      (|r| >= 5 && r[..5] == "IPset") == deleteIPset &&
      (|r| >= 8 && r[|r| - 8..] == "IPtables") == deleteIPtables
  {
    var r := ConfirmLabel(deleteIPset, deleteIPtables);
    if deleteIPset && deleteIPtables {
      assert r[..5] == "IPset" && r[|r| - 8..] == "IPtables";
    } else if deleteIPset {
      assert r[..5] == "IPset";
    } else if deleteIPtables {
      assert r[|r| - 8..] == "IPtables" && r[..5][2] != "IPset"[2];
    }
  }

  /** The question confirmInput asks. */
  function ConfirmPrompt(deleteIPset: bool, deleteIPtables: bool): string {
    "Do you really want to delete " + ConfirmLabel(deleteIPset, deleteIPtables) + " backup [y/n] > "
  }

  /** os.Stat, then os.Remove when the file is there: the events and the file system after. */
  function RemoveIfPresent(files: map<string, int>, fsOk: FsOp -> bool, file: string)
    : (seq<Event>, map<string, int>)
  {
    if file !in files then ([], files)
    else if fsOk(Remove(file)) then ([Fs(Remove(file))], files - {file})
    else ([Fs(Remove(file))], files)
  }

  /** The removals delBackup makes once past the confirmation: iptables first, then ipset. */
  function DeleteSteps(files: map<string, int>, fsOk: FsOp -> bool, folder: string,
                       deleteIPset: bool, deleteIPtables: bool)
    : (seq<Event>, map<string, int>)
  {
    var t := if deleteIPtables then RemoveIfPresent(files, fsOk, DelIptablesFile(folder)) else ([], files);
    var s := if deleteIPset then RemoveIfPresent(t.1, fsOk, DelIpsetFile(folder)) else ([], t.1);
    (t.0 + s.0, s.1)
  }

  /** A file that deletion asks for and that can be removed. */
  predicate Doomed(files: map<string, int>, fsOk: FsOp -> bool, folder: string,
                   deleteIPset: bool, deleteIPtables: bool, p: string)
  {
    p in files && fsOk(Remove(p)) &&
    ((deleteIPtables && p == DelIptablesFile(folder)) || (deleteIPset && p == DelIpsetFile(folder)))
  }

  /**
   * Only requested files that exist are removed (when the file system lets
   * them go); missing files are skipped, a removal is only attempted on a
   * file that is there, and every other file stays as it was.
   */
  lemma DeleteRemovesOnlyRequested(files: map<string, int>, fsOk: FsOp -> bool, folder: string,
                                   deleteIPset: bool, deleteIPtables: bool)
    ensures var r := DeleteSteps(files, fsOk, folder, deleteIPset, deleteIPtables);
      (forall p :: p in r.1 <==> p in files && !Doomed(files, fsOk, folder, deleteIPset, deleteIPtables, p)) &&
      (forall p :: p in r.1 ==> r.1[p] == files[p]) &&
      (forall e :: e in r.0 ==>
        e.Fs? && e.op.Remove? && e.op.path in files &&
        ((deleteIPtables && e.op.path == DelIptablesFile(folder)) || (deleteIPset && e.op.path == DelIpsetFile(folder))))
  {
    DeleteTargetsMissBackups(folder, "");
  }

  /**
   * delBackup: unless `ignoreConfirm`, asks whether to delete and returns
   * without deleting anything when the answer (`confirmed`, what
   * confirmInput reports) is yes; otherwise removes the requested backup
   * files that exist. Returns the question asked, if any.
   */
  method DelBackup(h: Host, configFile: string, deleteIPset: bool, deleteIPtables: bool,
                   ignoreConfirm: bool, confirmed: bool)
    returns (asked: Option<string>)
    modifies h
    ensures asked == if ignoreConfirm then None else Some(ConfirmPrompt(deleteIPset, deleteIPtables))
    ensures !ignoreConfirm && confirmed ==> h.files == old(h.files) && h.trace == old(h.trace)
    ensures ignoreConfirm || !confirmed ==>
      var r := DeleteSteps(old(h.files), h.fsOk, PathSplit(configFile).0, deleteIPset, deleteIPtables);
      h.trace == old(h.trace) + r.0 && h.files == r.1
    ensures h.sets == old(h.sets)
  {
    var folder := PathSplit(configFile).0;
    asked := None;
    if !ignoreConfirm {
      asked := Some(ConfirmPrompt(deleteIPset, deleteIPtables));
      if confirmed {
        return;
      }
    }
    RemoveBackups(h, folder, deleteIPset, deleteIPtables);
  }

  /** The removals of delBackup: the iptables file, then the ipset file, each only when asked for. */
  method RemoveBackups(h: Host, folder: string, deleteIPset: bool, deleteIPtables: bool)
    modifies h
    ensures var r := DeleteSteps(old(h.files), h.fsOk, folder, deleteIPset, deleteIPtables);
      h.trace == old(h.trace) + r.0 && h.files == r.1
    ensures h.sets == old(h.sets)
  {
    ghost var files0, trace0 := h.files, h.trace;
    ghost var t := if deleteIPtables then RemoveIfPresent(files0, h.fsOk, DelIptablesFile(folder)) else ([], files0);
    if deleteIPtables {
      RemoveStep(h, DelIptablesFile(folder));
    }
    assert h.trace == trace0 + t.0 && h.files == t.1;
    ghost var trace1 := h.trace;
    ghost var s := if deleteIPset then RemoveIfPresent(t.1, h.fsOk, DelIpsetFile(folder)) else ([], t.1);
    if deleteIPset {
      RemoveStep(h, DelIpsetFile(folder));
    }
    assert h.trace == trace1 + s.0 && h.files == s.1;
    assert trace0 + t.0 + s.0 == trace0 + (t.0 + s.0);
  }

  /** One removal of delBackup: skipped when the file is missing. */
  method RemoveStep(h: Host, file: string)
    modifies h
    ensures var r := RemoveIfPresent(old(h.files), h.fsOk, file);
      h.trace == old(h.trace) + r.0 && h.files == r.1
    ensures h.sets == old(h.sets)
  {
    if h.Exists(file) {
      var _ := h.Do(Remove(file));
    }
  }

  /**
   * delBackupCMD.Fn: without root nothing happens, nor without a flag; a
   * configuration status below 0 fails with "config not found", while an
   * empty configuration (status 0) is accepted; then delBackup runs on the
   * configuration file under the home directory. The ghost results are the
   * validation's status and configuration file and the files and trace it
   * left behind.
   */
  method DeleteBackupCommand(h: Host, isRoot: bool, configName: string, home: Option<string>,
                             all: bool, backupIPset: bool, backupIPtables: bool,
                             yes: bool, confirmed: bool)
    returns (err: Option<string>, ghost status: int, ghost configFile: string,
             ghost validated: map<string, int>, ghost validatedTrace: seq<Event>)
    modifies h
    ensures !isRoot ==> err == None && h.files == old(h.files) && h.trace == old(h.trace)
    ensures var (ipset, iptables) := NormaliseFlags(all, backupIPset, backupIPtables);
      !ipset && !iptables ==> err == None && h.files == old(h.files) && h.trace == old(h.trace)
    ensures err == None || err == Some("config not found")
    ensures var (ipset, iptables) := NormaliseFlags(all, backupIPset, backupIPtables);
      isRoot && (ipset || iptables) ==>
      var v := Validate(old(h.files), h.fsOk, configName, home);
      status == v.status && configFile == v.confFile && validated == v.files &&
      validatedTrace == old(h.trace) + v.events
    ensures var (ipset, iptables) := NormaliseFlags(all, backupIPset, backupIPtables);
      isRoot && (ipset || iptables) ==> (err.Some? <==> status < 0)
    ensures var (ipset, iptables) := NormaliseFlags(all, backupIPset, backupIPtables);
      isRoot && (ipset || iptables) && (home.None? || configName !in old(h.files)) ==>
      err == Some("config not found")
    ensures var (ipset, iptables) := NormaliseFlags(all, backupIPset, backupIPtables);
      isRoot && (ipset || iptables) && status >= 0 ==>
      home.Some? && configFile == GetConfFile(GetConfPath(home.value)) && configFile in validated &&
      var r := DeleteSteps(validated, h.fsOk, PathSplit(configFile).0, ipset, iptables);
      if yes || !confirmed then h.files == r.1 && h.trace == validatedTrace + r.0
      else h.files == validated && h.trace == validatedTrace
    ensures err.Some? ==> forall p :: p in old(h.files) ==> p in h.files
    ensures err.Some? ==> h.files == validated && h.trace == validatedTrace
    ensures home.Some? && configName in old(h.files) &&
            GetConfPath(home.value) in old(h.files) && GetConfFile(GetConfPath(home.value)) in old(h.files) ==>
      var (ipset, iptables) := NormaliseFlags(all, backupIPset, backupIPtables);
      var r := DeleteSteps(old(h.files), h.fsOk, PathSplit(GetConfFile(GetConfPath(home.value))).0, ipset, iptables);
      err == None &&
      h.files == (if isRoot && (ipset || iptables) && (yes || !confirmed) then r.1 else old(h.files))
    ensures h.sets == old(h.sets)
  {
    status, configFile, validated, validatedTrace := -1, "", h.files, h.trace;
    if !isRoot {
      return None, status, configFile, validated, validatedTrace;
    }
    var (ipset, iptables) := NormaliseFlags(all, backupIPset, backupIPtables);
    if !iptables && !ipset {
      return None, status, configFile, validated, validatedTrace;
    }
    var st, file := CreateAndValidateConfigFile(h, configName, home);
    status, configFile, validated, validatedTrace := st, file, h.files, h.trace;
    if st < 0 {
      return Some("config not found"), status, configFile, validated, validatedTrace;
    }
    var _ := DelBackup(h, file, ipset, iptables, yes, confirmed);
    err := None;
  }
}
