/**
 * Backup.go: saving the iptables rules and the blocklist set into files next
 * to the configuration file. Only the order of the steps, the file names and
 * the file system changes are modelled; what iptables-save and ipset save
 * write into the files is not.
 */
module Backup {
  import opened Wrappers
  import opened Text
  import opened Env
  import opened Firewall
  import opened Conf

  /** The set backupIPs saves: the blocklist name of the file name of `configFile`. */
  function BackupSetName(configFile: string): (r: string)
    ensures r == GetBlocklistName(configFile)
  {
    BlocklistNameOfBasename(configFile);
    GetBlocklistName(PathSplit(configFile).1)
  }

  /**
   * fetch hands backupIPs the fixed configuration file, so the set it saves
   * is always "blocklist_conf", whatever set the fetch filled.
   */
  lemma FetchBackupSavesConfSet(home: string)
    ensures BackupSetName(GetConfFile(GetConfPath(home))) == Prefix + "conf"
  {
    var p := GetConfFile(GetConfPath(home));
    var dir := home + "/.tripwirereporter/";
    ConfFileUnderHome(home);
    assert p == dir + "conf" + ".json";
    assert StemParts(p, dir, "conf", ".json");
    BlocklistNameDeterminedByStem(p, p, "conf");
  }

  /** The directory part of `configFile`, where the backups go. */
  function BackupFolder(configFile: string): string {
    PathSplit(configFile).0
  }

  /** The iptables backup file in `folder` for the set `name`. */
  function IptablesFile(folder: string, name: string): string {
    folder + "iptables_" + name + ".bak"
  }

  /** The ipset backup file in `folder` for the set `name`. */
  function IpsetFile(folder: string, name: string): string {
    folder + "ipset_" + name + ".bak"
  }

  /** The two backup files are different files, both directly in `folder` when `name` has no '/'. */
  lemma BackupFilesDistinct(folder: string, name: string)
    ensures IptablesFile(folder, name) != IpsetFile(folder, name)
    ensures '/' !in name ==>
      var t, s := IptablesFile(folder, name), IpsetFile(folder, name);
      t[..|folder|] == folder && '/' !in t[|folder|..] &&
      s[..|folder|] == folder && '/' !in s[|folder|..]
  {
    var t, s := IptablesFile(folder, name), IpsetFile(folder, name);
    assert t[|folder| + 2] == 't' && s[|folder| + 2] == 's';
    assert t[|folder|..] == "iptables_" + name + ".bak";
    assert s[|folder|..] == "ipset_" + name + ".bak";
  }

  /** The backup files of `configFile` lie directly in its folder. */
  lemma BackupFilesInConfigFolder(configFile: string)
    ensures var folder, name := BackupFolder(configFile), BackupSetName(configFile);
      var t, s := IptablesFile(folder, name), IpsetFile(folder, name);
      t[..|folder|] == folder && '/' !in t[|folder|..] &&
      s[..|folder|] == folder && '/' !in s[|folder|..]
  {
    BlocklistNameHasNoSlash(configFile);
    BackupFilesDistinct(BackupFolder(configFile), BackupSetName(configFile));
  }

  /** The iptables step: create the file when missing, then iptables-save, whether or not creating worked. */
  function IptablesSteps(files: map<string, int>, fsOk: FsOp -> bool, file: string)
    : (seq<Event>, map<string, int>)
  {
    if file in files then
      ([Ran(IptablesSave(file))], files)
    else if fsOk(Create(file)) then
      ([Fs(Create(file)), Ran(IptablesSave(file))], files[file := 0])
    else
      ([Fs(Create(file)), Ran(IptablesSave(file))], files)
  }

  /** The ipset step: `ipset help`, then create the file when missing, then ipset save unless creating failed. */
  function IpsetSteps(files: map<string, int>, fsOk: FsOp -> bool, installed: bool, name: string, file: string)
    : (seq<Event>, map<string, int>)
  {
    if !installed then
      ([Ran(IpsetHelp)], files)
    else if file in files then
      ([Ran(IpsetHelp), Ran(IpsetSave(name, file))], files)
    else if fsOk(Create(file)) then
      ([Ran(IpsetHelp), Fs(Create(file)), Ran(IpsetSave(name, file))], files[file := 0])
    else
      ([Ran(IpsetHelp), Fs(Create(file))], files)
  }

  /**
   * What backupIPs does to the outside world and the file system it leaves:
   * the iptables step when asked for, then the ipset step when asked for.
   * `installed` is whether `ipset help` succeeds.
   */
  function BackupSteps(files: map<string, int>, fsOk: FsOp -> bool, installed: bool,
                       folder: string, name: string, updateIPset: bool, updateIPtables: bool)
    : (seq<Event>, map<string, int>)
  {
    var t := if updateIPtables then IptablesSteps(files, fsOk, IptablesFile(folder, name)) else ([], files);
    var s := if updateIPset then IpsetSteps(t.1, fsOk, installed, name, IpsetFile(folder, name)) else ([], t.1);
    (t.0 + s.0, s.1)
  }

  /** An event of the iptables step. */
  predicate IptablesStepEvent(e: Event, file: string) {
    e == Fs(Create(file)) || e == Ran(IptablesSave(file))
  }

  /** An event of the ipset step. */
  predicate IpsetStepEvent(e: Event, name: string, file: string) {
    e == Ran(IpsetHelp) || e == Fs(Create(file)) || e == Ran(IpsetSave(name, file))
  }

  /** iptables-save is attempted exactly when asked for, even when its file could not be created. */
  lemma IptablesSaveAttempted(files: map<string, int>, fsOk: FsOp -> bool, installed: bool,
                              folder: string, name: string, updateIPset: bool, updateIPtables: bool)
    ensures var r := BackupSteps(files, fsOk, installed, folder, name, updateIPset, updateIPtables);
      Ran(IptablesSave(IptablesFile(folder, name))) in r.0 <==> updateIPtables
  {
    var r := BackupSteps(files, fsOk, installed, folder, name, updateIPset, updateIPtables);
    var save := Ran(IptablesSave(IptablesFile(folder, name)));
    if updateIPtables {
      assert r.0[0] == save || r.0[1] == save;
    }
  }

  /**
   * ipset save runs exactly when asked for, ipset is installed, and its file
   * existed or could be created; a failed creation returns before it.
   */
  lemma IpsetSaveRuns(files: map<string, int>, fsOk: FsOp -> bool, installed: bool,
                      folder: string, name: string, updateIPset: bool, updateIPtables: bool)
    ensures var r := BackupSteps(files, fsOk, installed, folder, name, updateIPset, updateIPtables);
      var file := IpsetFile(folder, name);
      Ran(IpsetSave(name, file)) in r.0 <==> updateIPset && installed && (file in files || fsOk(Create(file)))
  {
    BackupFilesDistinct(folder, name);
    var r := BackupSteps(files, fsOk, installed, folder, name, updateIPset, updateIPtables);
    var file := IpsetFile(folder, name);
    var save := Ran(IpsetSave(name, file));
    var t := if updateIPtables then IptablesSteps(files, fsOk, IptablesFile(folder, name)) else ([], files);
    assert file in t.1 <==> file in files;
    assert save !in t.0;
    if updateIPset && installed && (file in files || fsOk(Create(file))) {
      assert save == r.0[|r.0| - 1];
    }
  }

  /**
   * Every event belongs to one of the two steps, and the iptables step comes
   * first: no event of it follows an event of the ipset step.
   */
  lemma IptablesBeforeIpset(files: map<string, int>, fsOk: FsOp -> bool, installed: bool,
                            folder: string, name: string, updateIPset: bool, updateIPtables: bool)
    ensures var r := BackupSteps(files, fsOk, installed, folder, name, updateIPset, updateIPtables);
      var t, s := IptablesFile(folder, name), IpsetFile(folder, name);
      (forall e :: e in r.0 ==> IptablesStepEvent(e, t) || IpsetStepEvent(e, name, s)) &&
      forall i, j :: 0 <= i < j < |r.0| && IpsetStepEvent(r.0[i], name, s) ==> !IptablesStepEvent(r.0[j], t)
  {
    BackupFilesDistinct(folder, name);
    var r := BackupSteps(files, fsOk, installed, folder, name, updateIPset, updateIPtables);
    var t, s := IptablesFile(folder, name), IpsetFile(folder, name);
    var ts := if updateIPtables then IptablesSteps(files, fsOk, t) else ([], files);
    var ss := if updateIPset then IpsetSteps(ts.1, fsOk, installed, name, s) else ([], ts.1);
    assert r.0 == ts.0 + ss.0;
    assert forall e :: e in ts.0 ==> IptablesStepEvent(e, t) && !IpsetStepEvent(e, name, s);
    assert forall e :: e in ss.0 ==> IpsetStepEvent(e, name, s) && !IptablesStepEvent(e, t);
    forall i, j | 0 <= i < j < |r.0| && IpsetStepEvent(r.0[i], name, s)
      ensures !IptablesStepEvent(r.0[j], t)
    {
      assert r.0[j] == ss.0[j - |ts.0|];
    }
  }

  /**
   * Backing up adds at most the two backup files and changes no file that
   * was there: a missing file is created empty, an existing one is kept.
   */
  lemma BackupOnlyAddsBackupFiles(files: map<string, int>, fsOk: FsOp -> bool, installed: bool,
                                  folder: string, name: string, updateIPset: bool, updateIPtables: bool)
    ensures var r := BackupSteps(files, fsOk, installed, folder, name, updateIPset, updateIPtables);
      r.1.Keys <= files.Keys + {IptablesFile(folder, name), IpsetFile(folder, name)} &&
      (forall p :: p in files ==> p in r.1 && r.1[p] == files[p]) &&
      (forall p :: p in r.1 && p !in files ==> r.1[p] == 0)
  {
  }

  /**
   * backupIPs: saves the iptables rules when `updateIPtables`, then the
   * blocklist set when `updateIPset` and ipset is installed, each into its
   * backup file next to `configFile`, creating that file when missing.
   */
  method BackupIPs(h: Host, configFile: string, updateIPset: bool, updateIPtables: bool)
    modifies h
    ensures var r := BackupSteps(old(h.files), h.fsOk, h.cmdOk(IpsetHelp),
                                 BackupFolder(configFile), BackupSetName(configFile), updateIPset, updateIPtables);
      h.trace == old(h.trace) + r.0 && h.files == r.1
    ensures h.sets == old(h.sets)
  {
    BackupInto(h, BackupFolder(configFile), BackupSetName(configFile), updateIPset, updateIPtables);
  }

  /** backupIPs once the backup folder and set name are known. */
  method BackupInto(h: Host, folder: string, name: string, updateIPset: bool, updateIPtables: bool)
    modifies h
    ensures var r := BackupSteps(old(h.files), h.fsOk, h.cmdOk(IpsetHelp), folder, name, updateIPset, updateIPtables);
      h.trace == old(h.trace) + r.0 && h.files == r.1
    ensures h.sets == old(h.sets)
  {
    ghost var files0, trace0 := h.files, h.trace;
    ghost var t := if updateIPtables then IptablesSteps(files0, h.fsOk, IptablesFile(folder, name)) else ([], files0);
    if updateIPtables {
      IptablesStep(h, IptablesFile(folder, name));
    }
    assert h.trace == trace0 + t.0 && h.files == t.1;
    ghost var trace1 := h.trace;
    ghost var s := if updateIPset then IpsetSteps(t.1, h.fsOk, h.cmdOk(IpsetHelp), name, IpsetFile(folder, name)) else ([], t.1);
    if updateIPset {
      IpsetStep(h, name, IpsetFile(folder, name));
    }
    assert h.trace == trace1 + s.0 && h.files == s.1;
    assert trace0 + t.0 + s.0 == trace0 + (t.0 + s.0);
  }

  /** The iptables half of backupIPs. */
  method IptablesStep(h: Host, file: string)
    modifies h
    ensures var r := IptablesSteps(old(h.files), h.fsOk, file);
      h.trace == old(h.trace) + r.0 && h.files == r.1
    ensures h.sets == old(h.sets)
  {
    if !h.Exists(file) {
      var _ := h.Do(Create(file));
    }
    var _ := h.Run(IptablesSave(file));
  }

  /** The ipset half of backupIPs, which returns early when its file cannot be created. */
  method IpsetStep(h: Host, name: string, file: string)
    modifies h
    ensures var r := IpsetSteps(old(h.files), h.fsOk, h.cmdOk(IpsetHelp), name, file);
      h.trace == old(h.trace) + r.0 && h.files == r.1
    ensures h.sets == old(h.sets)
  {
    var installed := IsIpsetInstalled(h);
    if installed {
      if !h.Exists(file) {
        var created := h.Do(Create(file));
        if !created {
          return;
        }
      }
      var _ := h.Run(IpsetSave(name, file));
    }
  }

  /**
   * backupCMD.Fn: without root nothing happens; the backup runs only when
   * the configuration status is exactly 1 (a non-empty configuration
   * file); otherwise the command fails with "config not found".
   */
  method BackupCommand(h: Host, isRoot: bool, configName: string, home: Option<string>,
                       backupIPset: bool, backupIPtables: bool)
    returns (err: Option<string>)
    modifies h
    ensures !isRoot ==> err == None && h.trace == old(h.trace) && h.files == old(h.files)
    ensures err == None || err == Some("config not found")
    ensures isRoot ==> (err.None? <==>
      configName in old(h.files) && home.Some? &&
      GetConfPath(home.value) in old(h.files) && GetConfFile(GetConfPath(home.value)) in old(h.files) &&
      old(h.files)[GetConfFile(GetConfPath(home.value))] != 0)
    ensures isRoot && err.None? ==>
      var confFile := GetConfFile(GetConfPath(home.value));
      var r := BackupSteps(old(h.files), h.fsOk, h.cmdOk(IpsetHelp),
                           BackupFolder(confFile), BackupSetName(confFile), backupIPset, backupIPtables);
      h.trace == old(h.trace) + r.0 && h.files == r.1
    ensures isRoot && err.Some? ==>
      var v := Validate(old(h.files), h.fsOk, configName, home);
      v.status != 1 && h.files == v.files && h.trace == old(h.trace) + v.events
    ensures err.Some? ==>
      |h.trace| >= |old(h.trace)| && h.trace[..|old(h.trace)|] == old(h.trace) &&
      forall i :: |old(h.trace)| <= i < |h.trace| ==> h.trace[i].Fs?
    ensures h.sets == old(h.sets)
  {
    if !isRoot {
      return None;
    }
    var status, configFile := CreateAndValidateConfigFile(h, configName, home);
    if status != 1 {
      return Some("config not found");
    }
    BackupIPs(h, configFile, backupIPset, backupIPtables);
    return None;
  }
}
