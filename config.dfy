/** Config.go: where the configuration lives, and the check that it is there. */
module Conf {
  import opened Wrappers
  import opened Records
  import opened Env

  /** The permission bits 0600 (owner read and write). */
  const OwnerReadWrite: int := 0x180

  /** getConfPath */
  function GetConfPath(homeDir: string): string {
    homeDir + "/" + ".tripwirereporter/"
  }

  /** getConfFile */
  function GetConfFile(confPath: string): string {
    confPath + "conf.json"
  }

  /** The configuration file of a home directory, spelt out. */
  lemma ConfFileUnderHome(homeDir: string)
    ensures GetConfFile(GetConfPath(homeDir)) == homeDir + "/.tripwirereporter/conf.json"
  {
  }

  /** A command-line value overrides the configuration file's value unless it is empty. */
  function Override(fromFile: string, fromFlag: string): string {
    if |fromFlag| > 0 then fromFlag else fromFile
  }

  /** The in-memory configuration, which a sync updates in place. */
  class Config {
    var host: string
    var logFile: string
    var token: string
    /** Filter.Since, the sync watermark. */
    var since: int
    var autocreateIptables: bool

    constructor (d: ConfigData)
      ensures Data() == d
    {
      host, logFile, token := d.host, d.logFile, d.token;
      since, autocreateIptables := d.since, d.autocreateIptables;
    }

    function Data(): ConfigData
      reads this
    {
      ConfigData(host, logFile, token, since, autocreateIptables)
    }
  }

  /**
   * saveConfig: writes `encoded` (what json.Marshal makes of the config)
   * to `configFile`, readable and writable by the owner only, and reports
   * whether the write failed.
   */
  method SaveConfig(h: Host, configFile: string, encoded: string) returns (failed: bool)
    modifies h
    ensures h.trace == old(h.trace) + [Fs(WriteFile(configFile, OwnerReadWrite, |encoded|))]
    ensures failed == !h.fsOk(WriteFile(configFile, OwnerReadWrite, |encoded|))
    ensures !failed ==> configFile in h.files && h.files[configFile] == |encoded|
    ensures !failed ==> forall p :: p in old(h.files) && p != configFile ==> p in h.files && h.files[p] == old(h.files)[p]
    ensures !failed ==> h.files == old(h.files)[configFile := |encoded|]
    ensures failed ==> h.files == old(h.files)
    ensures h.sets == old(h.sets)
  {
    var ok := h.Do(WriteFile(configFile, OwnerReadWrite, |encoded|));
    failed := !ok;
  }

  /** What createAndValidateConfigFile settles on, the files it leaves and the file operations it makes. */
  datatype Validation = Validation(status: int, confFile: string, files: map<string, int>, events: seq<Event>)

  /**
   * createAndValidateConfigFile step by step: the argument path and the
   * home directory must exist; a missing configuration folder is made and
   * the configuration file created in it; a missing configuration file is
   * created; then the status is 0 for an empty and 1 for a non-empty file.
   * A refused operation gives -1 and "".
   */
  function Validate(files: map<string, int>, fsOk: FsOp -> bool, path: string, home: Option<string>)
    : (v: Validation)
    ensures v.status in {-1, 0, 1}
    ensures v.status == -1 <==> v.confFile == ""
    ensures v.status >= 0 ==>
      path in files && home.Some? && v.confFile == GetConfFile(GetConfPath(home.value)) &&
      GetConfPath(home.value) in v.files && v.confFile in v.files &&
      (v.status == 0 <==> v.files[v.confFile] == 0)
    ensures forall i :: 0 <= i < |v.events| ==> v.events[i].Fs?
  {
    if path !in files || home.None? then Validation(-1, "", files, [])
    else
      var confPath := GetConfPath(home.value);
      var confFile := GetConfFile(confPath);
      if confPath !in files then
        var made := [Fs(MkdirAll(confPath))];
        if !FsSucceeds(files, MkdirAll(confPath), fsOk(MkdirAll(confPath))) then Validation(-1, "", files, made)
        else
          var withPath := FsApply(files, MkdirAll(confPath));
          if !FsSucceeds(withPath, Create(confFile), fsOk(Create(confFile))) then
            Validation(-1, "", withPath, made + [Fs(Create(confFile))])
          else ValidateFile(FsApply(withPath, Create(confFile)), fsOk, confPath, made + [Fs(Create(confFile))])
      else ValidateFile(files, fsOk, confPath, [])
  }

  /** The part of Validate once the configuration folder is there: create the file when missing, then read its size. */
  function ValidateFile(files: map<string, int>, fsOk: FsOp -> bool, confPath: string, events: seq<Event>)
    : (v: Validation)
    requires confPath in files
    ensures v.status in {-1, 0, 1}
    ensures v.status == -1 <==> v.confFile == ""
    ensures v.status >= 0 ==>
      v.confFile == GetConfFile(confPath) && confPath in v.files && v.confFile in v.files &&
      (v.status == 0 <==> v.files[v.confFile] == 0)
    ensures (forall i :: 0 <= i < |events| ==> events[i].Fs?) ==>
      forall i :: 0 <= i < |v.events| ==> v.events[i].Fs?
  {
    var confFile := GetConfFile(confPath);
    if confFile !in files then
      if !FsSucceeds(files, Create(confFile), fsOk(Create(confFile))) then
        Validation(-1, "", files, events + [Fs(Create(confFile))])
      else
        var created := FsApply(files, Create(confFile));
        Validation(if created[confFile] == 0 then 0 else 1, confFile, created, events + [Fs(Create(confFile))])
    else Validation(if files[confFile] == 0 then 0 else 1, confFile, files, events)
  }

  /**
   * When the validation fails: only for a missing path or home directory,
   * or when making the folder or creating the file is refused. Whenever the
   * folder or the file had to be made, the status is 0.
   */
  lemma {:induction false} ValidateStatus(files: map<string, int>, fsOk: FsOp -> bool, path: string, home: Option<string>)
    ensures var v := Validate(files, fsOk, path, home);
      (path !in files || home.None? ==> v.status == -1 && v.files == files && v.events == []) &&
      (path in files && home.Some? ==>
        var confPath := GetConfPath(home.value);
        var confFile := GetConfFile(confPath);
        (v.status == -1 <==>
          if confPath !in files then !fsOk(MkdirAll(confPath)) || !fsOk(Create(confFile))
          else confFile !in files && !fsOk(Create(confFile))) &&
        (v.status >= 0 && (confPath !in files || confFile !in files) ==> v.status == 0) &&
        (confPath in files && confFile in files ==>
          v.files == files && v.events == [] && v.status == (if files[confFile] == 0 then 0 else 1)))
  {
    if path in files && home.Some? {
      var confPath := GetConfPath(home.value);
      var confFile := GetConfFile(confPath);
      ConfFileIsNotFolder(home.value);
      if confPath !in files && fsOk(MkdirAll(confPath)) {
        assert confFile in FsApply(FsApply(files, MkdirAll(confPath)), Create(confFile));
      }
    }
  }

  /** The configuration file and its folder are different paths. */
  lemma ConfFileIsNotFolder(homeDir: string)
    ensures GetConfFile(GetConfPath(homeDir)) != GetConfPath(homeDir)
  {
    assert |GetConfFile(GetConfPath(homeDir))| > |GetConfPath(homeDir)|;
  }

  /**
   * The validation only adds the folder and the file, keeps every other
   * file's size, and may empty only the configuration file.
   */
  lemma ValidateKeepsFiles(files: map<string, int>, fsOk: FsOp -> bool, path: string, home: Option<string>)
    ensures var v := Validate(files, fsOk, path, home);
      (forall p :: p in files ==> p in v.files) &&
      (forall p :: p in files && (home.None? || p != GetConfFile(GetConfPath(home.value))) ==> v.files[p] == files[p]) &&
      v.files.Keys <= files.Keys + (if home.Some? then {GetConfPath(home.value), GetConfFile(GetConfPath(home.value))} else {})
  {
  }

  /**
   * createAndValidateConfigFile: -1 and "" when `path` does not exist or the
   * configuration file cannot be made; otherwise 0 for an empty and 1 for a
   * non-empty configuration file, with that file's path. `home` is what
   * os.UserHomeDir returned.
   */
  method CreateAndValidateConfigFile(h: Host, path: string, home: Option<string>)
    returns (status: int, confFile: string)
    modifies h
    ensures var v := Validate(old(h.files), h.fsOk, path, home);
      status == v.status && confFile == v.confFile && h.files == v.files && h.trace == old(h.trace) + v.events
    ensures path in old(h.files) && home.Some? ==>
      var confPath := GetConfPath(home.value);
      var file := GetConfFile(confPath);
      (status == -1 <==>
        if confPath !in old(h.files) then !h.fsOk(MkdirAll(confPath)) || !h.fsOk(Create(file))
        else file !in old(h.files) && !h.fsOk(Create(file)))
    ensures status >= 0 ==> GetConfPath(home.value) in h.files
    ensures status in {-1, 0, 1}
    ensures status == -1 <==> confFile == ""
    ensures path !in old(h.files) ==>
      status == -1 && h.files == old(h.files) && h.trace == old(h.trace)
    ensures status >= 0 ==>
      path in old(h.files) && home.Some? &&
      confFile == GetConfFile(GetConfPath(home.value)) &&
      confFile in h.files && (status == 0 <==> h.files[confFile] == 0)
    ensures home.Some? && GetConfPath(home.value) in old(h.files) &&
            GetConfFile(GetConfPath(home.value)) in old(h.files) && path in old(h.files) ==>
      h.files == old(h.files) && h.trace == old(h.trace) &&
      status == (if old(h.files)[GetConfFile(GetConfPath(home.value))] == 0 then 0 else 1)
    ensures forall p :: p in old(h.files) ==> p in h.files
    ensures forall p :: p in old(h.files) && (home.None? || p != GetConfFile(GetConfPath(home.value))) ==>
      h.files[p] == old(h.files)[p]
    ensures status == 1 ==>
      home.Some? && GetConfPath(home.value) in old(h.files) &&
      GetConfFile(GetConfPath(home.value)) in old(h.files)
    ensures h.files.Keys <= old(h.files.Keys) +
      (if home.Some? then {GetConfPath(home.value), GetConfFile(GetConfPath(home.value))} else {})
    ensures h.sets == old(h.sets)
    ensures |h.trace| >= |old(h.trace)| && h.trace[..|old(h.trace)|] == old(h.trace)
    ensures forall i :: |old(h.trace)| <= i < |h.trace| ==> h.trace[i].Fs?
  {
    if !h.Exists(path) {
      return -1, "";
    }
    if home.None? {
      return -1, "";
    }
    var confPath := GetConfPath(home.value);
    var file := GetConfFile(confPath);
    if !h.Exists(confPath) {
      var ok := h.Do(MkdirAll(confPath));
      if !ok {
        return -1, "";
      }
      ok := h.Do(Create(file));
      if !ok {
        return -1, "";
      }
    }
    if !h.Exists(file) {
      var ok := h.Do(Create(file));
      if !ok {
        return -1, "";
      }
    }
    // The second os.Stat cannot fail here: the file is in place.
    status := if h.files[file] == 0 then 0 else 1;
    confFile := file;
  }
}
