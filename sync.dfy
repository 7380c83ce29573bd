/**
 * Update.go's sync path: FetchIPs asks the server for the records after the
 * stored watermark, stores the new watermark, empties the set it flushes
 * when told to, applies the records with blockIPs and backs up the set.
 */
module Sync {
  import opened Wrappers
  import opened Text
  import opened Records
  import opened Env
  import opened Conf
  import opened Firewall
  import opened Backup

  // ----- blockIPs -----

  /** The command a record calls for: del when Deleted is 1, add for any other value. */
  function RecordCommand(rec: IPRecord, name: string): Command {
    if rec.deleted == 1 then IpsetDel(name, rec.ip) else IpsetAdd(name, rec.ip)
  }

  /** Where blockIPs' loop stands: the ipset store, the two counters and the commands run so far. */
  datatype Tally = Tally(sets: IpsetState, added: nat, removed: nat, events: seq<Event>)

  /**
   * One round of blockIPs' loop: an invalid IP runs nothing; otherwise the
   * record's command runs and its counter goes up when the command succeeded.
   */
  function Step(t: Tally, rec: IPRecord, name: string, isIPValid: string -> bool): Tally {
    if !isIPValid(rec.ip) then t
    else
      var cmd := RecordCommand(rec, name);
      var r := Exec(t.sets, cmd, true);
      Tally(r.1,
            t.added + (if r.0 && rec.deleted != 1 then 1 else 0),
            t.removed + (if r.0 && rec.deleted == 1 then 1 else 0),
            t.events + [Ran(cmd)])
  }

  /** blockIPs' loop over all records, from the store `sets`. */
  function Replay(sets: IpsetState, ips: seq<IPRecord>, name: string, isIPValid: string -> bool): Tally {
    if |ips| == 0 then Tally(sets, 0, 0, [])
    else Step(Replay(sets, ips[..|ips| - 1], name, isIPValid), ips[|ips| - 1], name, isIPValid)
  }

  /**
   * What the loop leaves alone: the names of the sets, every other set, a
   * missing set (every command fails on it). Each counted command ran, at
   * most one per record, and every command run is an add or a delete on the
   * fetched set.
   */
  lemma {:induction false} ReplayFrame(sets: IpsetState, ips: seq<IPRecord>, name: string, isIPValid: string -> bool)
    ensures var t := Replay(sets, ips, name, isIPValid);
      t.sets.Keys == sets.Keys &&
      (forall n :: n in sets && n != name ==> t.sets[n] == sets[n]) &&
      t.added + t.removed <= |t.events| <= |ips| &&
      (forall e :: e in t.events ==> e.Ran? && (e.cmd.IpsetAdd? || e.cmd.IpsetDel?) && e.cmd.name == name) &&
      (name !in sets ==> t.sets == sets && t.added == 0 && t.removed == 0)
    decreases |ips|
  {
    if |ips| > 0 {
      ReplayFrame(sets, ips[..|ips| - 1], name, isIPValid);
    }
  }

  /** The last record for `ip` whose IP is valid: Some(true) when it deletes, Some(false) when it adds. */
  function LastValidOp(ips: seq<IPRecord>, ip: string, isIPValid: string -> bool): Option<bool> {
    if |ips| == 0 then None
    else if ips[|ips| - 1].ip == ip && isIPValid(ip) then Some(ips[|ips| - 1].deleted == 1)
    else LastValidOp(ips[..|ips| - 1], ip, isIPValid)
  }

  /**
   * Each IP's final membership in the set is decided by its last valid
   * record, and IPs without one keep the membership they had.
   */
  lemma {:induction false} MembershipByLastRecord(sets: IpsetState, ips: seq<IPRecord>, name: string,
                                                  isIPValid: string -> bool, ip: string)
    requires name in sets
    ensures var r := Replay(sets, ips, name, isIPValid).sets;
      name in r &&
      (ip in r[name] <==> match LastValidOp(ips, ip, isIPValid)
                          case None => ip in sets[name]
                          case Some(deletes) => !deletes)
    decreases |ips|
  {
    if |ips| > 0 {
      var front := ips[..|ips| - 1];
      MembershipByLastRecord(sets, front, name, isIPValid, ip);
    }
  }

  /** Running blockIPs' loop twice over the same records leaves the same store as running it once. */
  lemma {:induction false} ReplayIdempotent(sets: IpsetState, ips: seq<IPRecord>, name: string, isIPValid: string -> bool)
    ensures var once := Replay(sets, ips, name, isIPValid).sets;
      Replay(once, ips, name, isIPValid).sets == once
  {
    var once := Replay(sets, ips, name, isIPValid).sets;
    var twice := Replay(once, ips, name, isIPValid).sets;
    ReplayFrame(sets, ips, name, isIPValid);
    ReplayFrame(once, ips, name, isIPValid);
    if name in sets {
      forall ip
        ensures ip in twice[name] <==> ip in once[name]
      {
        MembershipByLastRecord(sets, ips, name, isIPValid, ip);
        MembershipByLastRecord(once, ips, name, isIPValid, ip);
      }
      assert twice[name] == once[name];
    }
  }

  /** The IPs of `ips`. */
  function IPsOf(ips: seq<IPRecord>): set<string> {
    if |ips| == 0 then {} else IPsOf(ips[..|ips| - 1]) + {ips[|ips| - 1].ip}
  }

  /**
   * When every record adds a valid IP, the set ends up as the old members
   * plus the records' IPs, and the add counter counts exactly the IPs that
   * were not members yet. After a flush (an empty set) the set is the
   * snapshot.
   */
  lemma {:induction false} AddsCountNewMembers(sets: IpsetState, ips: seq<IPRecord>, name: string,
                                               isIPValid: string -> bool)
    requires name in sets
    requires forall i :: 0 <= i < |ips| ==> ips[i].deleted != 1 && isIPValid(ips[i].ip)
    ensures var t := Replay(sets, ips, name, isIPValid);
      name in t.sets && t.sets[name] == sets[name] + IPsOf(ips) &&
      t.added == |t.sets[name]| - |sets[name]| && t.removed == 0
    decreases |ips|
  {
    if |ips| > 0 {
      var front := ips[..|ips| - 1];
      var rec := ips[|ips| - 1];
      AddsCountNewMembers(sets, front, name, isIPValid);
      var t := Replay(sets, front, name, isIPValid);
      assert rec.deleted != 1 && isIPValid(rec.ip);
      AddStep(t, rec, name, isIPValid);
    }
  }

  /** One adding record: its IP joins the set, and the add counter grows exactly when it was new. */
  lemma AddStep(t: Tally, rec: IPRecord, name: string, isIPValid: string -> bool)
    requires name in t.sets && rec.deleted != 1 && isIPValid(rec.ip)
    ensures var u := Step(t, rec, name, isIPValid);
      name in u.sets && u.sets[name] == t.sets[name] + {rec.ip} &&
      u.added - t.added == |u.sets[name]| - |t.sets[name]| && u.removed == t.removed
  {
    var members := t.sets[name];
    assert RecordCommand(rec, name) == IpsetAdd(name, rec.ip);
    if rec.ip !in members {
      assert |members + {rec.ip}| == |members| + 1;
    } else {
      assert members + {rec.ip} == members;
    }
  }

  /** One round of blockIPs' loop body: the record's command, run only for a valid IP. */
  method ApplyRecord(h: Host, rec: IPRecord, blocklistName: string, isIPValid: string -> bool) returns (ok: bool)
    modifies h
    ensures var r := Exec(old(h.sets), RecordCommand(rec, blocklistName), true);
      if isIPValid(rec.ip) then
        ok == r.0 && h.sets == r.1 && h.trace == old(h.trace) + [Ran(RecordCommand(rec, blocklistName))]
      else
        !ok && h.sets == old(h.sets) && h.trace == old(h.trace)
    ensures h.files == old(h.files)
  {
    if rec.deleted == 1 {
      ok := IpsetRemoveIP(h, rec.ip, blocklistName, isIPValid);
    } else {
      ok := IpsetAddIP(h, rec.ip, blocklistName, isIPValid);
    }
  }

  /**
   * blockIPs: applies the records in order, counting the commands that
   * succeeded, then, when the configuration asks for it, makes sure the
   * iptables rules exist; its result is false only when that fails.
   */
  method BlockIPs(h: Host, ips: seq<IPRecord>, blocklistName: string, c: Config, isIPValid: string -> bool)
    returns (ok: bool, added: nat, removed: nat)
    modifies h
    ensures var t := Replay(old(h.sets), ips, blocklistName, isIPValid);
      h.sets == t.sets && added == t.added && removed == t.removed &&
      h.trace == old(h.trace) + t.events + (if c.autocreateIptables then [RulesEnsured(blocklistName)] else [])
    ensures ok == (!c.autocreateIptables || h.rulesOk(blocklistName))
    ensures h.files == old(h.files)
  {
    added, removed := 0, 0;
    var i := 0;
    while i < |ips|
      invariant 0 <= i <= |ips|
      invariant var t := Replay(old(h.sets), ips[..i], blocklistName, isIPValid);
        h.sets == t.sets && added == t.added && removed == t.removed && h.trace == old(h.trace) + t.events
      invariant h.files == old(h.files)
    {
      ghost var before := Replay(old(h.sets), ips[..i], blocklistName, isIPValid);
      assert ips[..i + 1][..i] == ips[..i];
      assert Replay(old(h.sets), ips[..i + 1], blocklistName, isIPValid) == Step(before, ips[i], blocklistName, isIPValid);
      var done := ApplyRecord(h, ips[i], blocklistName, isIPValid);
      if done {
        if ips[i].deleted == 1 {
          removed := removed + 1;
        } else {
          added := added + 1;
        }
      }
      i := i + 1;
    }
    assert ips[..i] == ips;
    ok := true;
    if c.autocreateIptables {
      ok := h.EnsureRules(blocklistName);
    }
  }

  // ----- FetchIPs -----

  /** The store after flusIPset: the set "blocklist" emptied if it exists. */
  function FlushState(sets: IpsetState): IpsetState {
    if FlushTarget in sets then sets[FlushTarget := {}] else sets
  }

  /** What the server's reply amounts to. */
  datatype FetchReading =
    | TransportError(reason: string)
    | NothingToDo
    | Malformed(reason: string)
    | Decoded(response: FetchResponse)

  /**
   * A transport error wins; otherwise the body, with every newline removed,
   * is either "[]" (nothing to do) or handed to the decoder.
   */
  function ReadFetchReply(reply: Reply, decode: string -> Result<FetchResponse, string>): (r: FetchReading)
    ensures reply.Failed? <==> r.TransportError?
    ensures r.NothingToDo? <==> reply.Body? && RemoveAll(reply.data, '\n') == "[]"
  {
    match reply
    case Failed(reason) => TransportError(reason)
    case Body(data) =>
      var d := RemoveAll(data, '\n');
      if d == "[]" then NothingToDo
      else
        match decode(d)
        case Err(e) => Malformed(e)
        case Ok(resp) => Decoded(resp)
  }

  /** Newlines anywhere in an empty list leave nothing to do; spaces are not trimmed. */
  lemma {:induction false} EmptyListWithNewlines(a: string, b: string, c: string, decode: string -> Result<FetchResponse, string>)
    requires forall k :: 0 <= k < |a| ==> a[k] == '\n'
    requires forall k :: 0 <= k < |b| ==> b[k] == '\n'
    requires forall k :: 0 <= k < |c| ==> c[k] == '\n'
    ensures ReadFetchReply(Body(a + "[" + b + "]" + c), decode) == NothingToDo
  {
    NewlinesVanish(a);
    NewlinesVanish(b);
    NewlinesVanish(c);
    RemoveAllConcat(a + "[" + b + "]", c, '\n');
    RemoveAllConcat(a + "[" + b, "]", '\n');
    RemoveAllConcat(a + "[", b, '\n');
    RemoveAllConcat(a, "[", '\n');
    RemoveAllAbsent("[", '\n');
    RemoveAllAbsent("]", '\n');
  }

  /** A string of newlines loses them all. */
  lemma {:induction false} NewlinesVanish(s: string)
    requires forall k :: 0 <= k < |s| ==> s[k] == '\n'
    ensures RemoveAll(s, '\n') == ""
  {
    var r := RemoveAll(s, '\n');
    assert multiset(r) == multiset{};
  }

  /** The request FetchIPs sends: everything after the watermark, or everything when the fetch is full. */
  function RequestFor(token: string, since: int, fetchAll: bool): (r: FetchRequest)
    ensures r.token == token
    ensures r.since == 0 <==> fetchAll || since == 0
    ensures !fetchAll ==> r.since == since
  {
    FetchRequest(token, if fetchAll || since == 0 then 0 else since)
  }

  /** An event that changes the ipset store. */
  predicate Mutates(e: Event) {
    e.Ran? && (e.cmd.IpsetCreate? || e.cmd.IpsetAdd? || e.cmd.IpsetDel? || e.cmd.IpsetFlush?)
  }

  /** The events of a fetch that got records, from the save on. */
  function AppliedEvents(configFile: string, saved: ConfigData, flush: bool, t: Tally, blocklistName: string,
                         backup: seq<Event>): seq<Event>
  {
    [ConfigSaved(configFile, saved)] + RecordEvents(flush, t, saved.autocreateIptables, blocklistName) + backup
  }

  /** The events of flushing (when asked) and applying the records, and of ensuring the rules. */
  function RecordEvents(flush: bool, t: Tally, autocreateIptables: bool, blocklistName: string): seq<Event> {
    (if flush then [Ran(IpsetFlush(FlushTarget))] else []) +
    t.events + (if autocreateIptables then [RulesEnsured(blocklistName)] else [])
  }

  /**
   * The watermark is saved before the store changes: the save comes first,
   * and the only events that change the store are the flush of "blocklist"
   * and the records' adds and deletes on the fetched set; the backup
   * changes no set.
   */
  lemma {:induction false} SaveBeforeMutation(configFile: string, saved: ConfigData, flush: bool, sets: IpsetState,
                           ips: seq<IPRecord>, blocklistName: string, isIPValid: string -> bool,
                           files: map<string, int>, fsOk: FsOp -> bool, installed: bool,
                           folder: string, name: string)
    ensures var t := Replay(sets, ips, blocklistName, isIPValid);
      var b := BackupSteps(files, fsOk, installed, folder, name, true, false);
      var e := AppliedEvents(configFile, saved, flush, t, blocklistName, b.0);
      e[0] == ConfigSaved(configFile, saved) &&
      forall x :: x in e && Mutates(x) ==> x == Ran(IpsetFlush(FlushTarget)) || x.cmd.name == blocklistName
  {
    var t := Replay(sets, ips, blocklistName, isIPValid);
    var b := BackupSteps(files, fsOk, installed, folder, name, true, false);
    ReplayFrame(sets, ips, blocklistName, isIPValid);
    IptablesBeforeIpset(files, fsOk, installed, folder, name, true, false);
    var e := AppliedEvents(configFile, saved, flush, t, blocklistName, b.0);
    forall x | x in e && Mutates(x)
      ensures x == Ran(IpsetFlush(FlushTarget)) || x.cmd.name == blocklistName
    {
      assert x !in b.0;
    }
  }

  /**
   * A full fetch does not empty the fetched set: the flush hits "blocklist",
   * so a member without a valid record in the response stays a member.
   */
  lemma {:induction false} FullFetchKeepsStaleMembers(sets: IpsetState, ips: seq<IPRecord>, blocklistName: string,
                                   configName: string, isIPValid: string -> bool, ip: string)
    requires blocklistName == GetBlocklistName(configName)
    requires blocklistName in sets && ip in sets[blocklistName]
    requires LastValidOp(ips, ip, isIPValid) == None
    ensures var r := Replay(FlushState(sets), ips, blocklistName, isIPValid).sets;
      blocklistName in r && ip in r[blocklistName]
  {
    FlushTargetIsNoBlocklist(configName);
    assert FlushState(sets)[blocklistName] == sets[blocklistName];
    MembershipByLastRecord(FlushState(sets), ips, blocklistName, isIPValid, ip);
  }

  /** The error FetchIPs reports for a reply that leaves nothing to apply. */
  function ReadingError(r: FetchReading): Option<string> {
    match r
    case TransportError(reason) => Some(reason)
    case Malformed(reason) => Some(reason)
    case _ => None
  }

  /**
   * FetchIPs. `server` answers the request (request), `decode` stands for
   * json.Unmarshal and `isIPValid` for isIPValid. The saved configuration
   * (c.save) is recorded as an event with the values saved.
   */
  method FetchIPs(h: Host, c: Config, configFile: string, fetchAll: bool, ignoreCert: bool, blocklistName: string,
                  server: FetchRequest -> Reply, decode: string -> Result<FetchResponse, string>,
                  isIPValid: string -> bool)
    returns (err: Option<string>)
    modifies h, c
    ensures c.host == old(c.host) && c.token == old(c.token) && c.logFile == old(c.logFile)
    ensures c.autocreateIptables == old(c.autocreateIptables)
    ensures h.sets.Keys == old(h.sets).Keys
    ensures |h.trace| > |old(h.trace)| && h.trace[..|old(h.trace)|] == old(h.trace)
    ensures var request := RequestFor(old(c.token), old(c.since), fetchAll);
      var reading := ReadFetchReply(server(request), decode);
      !reading.Decoded? ==>
        err == ReadingError(reading) && c.since == request.since &&
        h.sets == old(h.sets) && h.files == old(h.files) &&
        h.trace == old(h.trace) + [Requested(old(c.host), "fetch", request, ignoreCert)]
    ensures var request := RequestFor(old(c.token), old(c.since), fetchAll);
      var reading := ReadFetchReply(server(request), decode);
      reading.Decoded? ==>
        var resp := reading.response;
        var flush := resp.full || fetchAll || old(c.since) == 0;
        var t := Replay(if flush then FlushState(old(h.sets)) else old(h.sets), resp.ips, blocklistName, isIPValid);
        var b := BackupSteps(old(h.files), h.fsOk, h.cmdOk(IpsetHelp),
                             BackupFolder(configFile), BackupSetName(configFile), true, false);
        err == None && c.since == resp.currentTimestamp && h.sets == t.sets && h.files == b.1 &&
        h.trace == old(h.trace) + [Requested(old(c.host), "fetch", request, ignoreCert)] +
                   AppliedEvents(configFile, c.Data(), flush, t, blocklistName, b.0)
  {
    var all := fetchAll;
    if c.since == 0 {
      all := true;
    }
    if all {
      c.since := 0;
    }
    var request := FetchRequest(c.token, c.since);
    h.Note(Requested(c.host, "fetch", request, ignoreCert));
    var reading := ReadFetchReply(server(request), decode);
    if !reading.Decoded? {
      return ReadingError(reading);
    }
    ApplyResponse(h, c, configFile, reading.response, all, blocklistName, isIPValid);
    return None;
  }

  /** FetchIPs once it has records: save the watermark, flush if asked to, apply the records, back up. */
  method ApplyResponse(h: Host, c: Config, configFile: string, resp: FetchResponse, all: bool,
                       blocklistName: string, isIPValid: string -> bool)
    modifies h, c
    ensures c.host == old(c.host) && c.token == old(c.token) && c.logFile == old(c.logFile)
    ensures c.autocreateIptables == old(c.autocreateIptables) && c.since == resp.currentTimestamp
    ensures h.sets.Keys == old(h.sets).Keys
    ensures var flush := resp.full || all;
      var t := Replay(if flush then FlushState(old(h.sets)) else old(h.sets), resp.ips, blocklistName, isIPValid);
      var b := BackupSteps(old(h.files), h.fsOk, h.cmdOk(IpsetHelp),
                           BackupFolder(configFile), BackupSetName(configFile), true, false);
      h.sets == t.sets && h.files == b.1 &&
      h.trace == old(h.trace) + AppliedEvents(configFile, c.Data(), flush, t, blocklistName, b.0)
  {
    c.since := resp.currentTimestamp;
    h.Note(ConfigSaved(configFile, c.Data()));
    ghost var afterSave := h.trace;
    var flush := resp.full || all;
    ghost var t := Replay(if flush then FlushState(old(h.sets)) else old(h.sets), resp.ips, blocklistName, isIPValid);
    ghost var records := RecordEvents(flush, t, c.autocreateIptables, blocklistName);
    ApplyRecords(h, c, resp.ips, flush, blocklistName, isIPValid);
    ghost var applied := h.trace;
    assert applied == afterSave + records;
    BackupIPs(h, configFile, true, false);
    ghost var b := BackupSteps(old(h.files), h.fsOk, h.cmdOk(IpsetHelp),
                               BackupFolder(configFile), BackupSetName(configFile), true, false);
    assert h.trace == applied + b.0;
    AppendAssoc(old(h.trace), [ConfigSaved(configFile, c.Data())], records);
    AppendAssoc(old(h.trace), [ConfigSaved(configFile, c.Data())] + records, b.0);
  }

  /** Flush "blocklist" when asked, then block the records' IPs: the store becomes Replay's. */
  method ApplyRecords(h: Host, c: Config, ips: seq<IPRecord>, flush: bool, blocklistName: string,
                      isIPValid: string -> bool)
    modifies h
    ensures var t := Replay(if flush then FlushState(old(h.sets)) else old(h.sets), ips, blocklistName, isIPValid);
      h.sets == t.sets && h.sets.Keys == old(h.sets).Keys && h.files == old(h.files) &&
      h.trace == old(h.trace) + RecordEvents(flush, t, c.autocreateIptables, blocklistName)
  {
    ghost var flushing: seq<Event> := [];
    if flush {
      FlushIPset(h);
      flushing := [Ran(IpsetFlush(FlushTarget))];
    }
    ghost var flushed, afterFlush := h.sets, h.trace;
    assert afterFlush == old(h.trace) + flushing;
    assert flushed.Keys == old(h.sets).Keys;
    ghost var t := Replay(flushed, ips, blocklistName, isIPValid);
    ReplayFrame(flushed, ips, blocklistName, isIPValid);
    ghost var rules := if c.autocreateIptables then [RulesEnsured(blocklistName)] else [];
    var _, _, _ := BlockIPs(h, ips, blocklistName, c, isIPValid);
    assert h.trace == afterFlush + t.events + rules;
    AppendAssoc(old(h.trace), flushing, t.events);
    AppendAssoc(old(h.trace), flushing + t.events, rules);
  }

  // ----- fetchCMD.Fn -----

  /**
   * The configuration fetch works with: nothing for status -1; for an empty
   * configuration (status 0) the flags, which must name host and token;
   * otherwise the file's configuration with each non-empty flag taking
   * precedence.
   */
  function FetchConfig(status: int, fromFile: ConfigData, host: string, token: string): Option<ConfigData> {
    if status < 0 then None
    else if status == 0 then
      if |host| == 0 || |token| == 0 then None
      else Some(ConfigData(host, "", token, 0, false))
    else Some(fromFile.(host := Override(fromFile.host, host), token := Override(fromFile.token, token)))
  }

  /**
   * Which configurations fetch goes on with, where host and token come
   * from, and that a configuration built from the flags alone has
   * watermark 0 and so forces a full fetch.
   */
  lemma {:induction false} FetchConfigPrecedence(status: int, fromFile: ConfigData, host: string, token: string)
    ensures var r := FetchConfig(status, fromFile, host, token);
      (r.Some? <==> status > 0 || (status == 0 && host != "" && token != "")) &&
      (r.Some? ==>
        r.value.host == (if host != "" then host else fromFile.host) &&
        r.value.token == (if token != "" then token else fromFile.token) &&
        r.value.since == (if status == 0 then 0 else fromFile.since) &&
        RequestFor(r.value.token, r.value.since, false).since == (if status == 0 then 0 else fromFile.since))
  {
  }

  /**
   * The configuration fetch starts with, from the files before validation:
   * an existing non-empty configuration file is read and the flags merged
   * in; on a fresh install, where the folder or file is created, only both
   * flags together start a fetch; a missing path or home starts nothing.
   */
  lemma FetchStartsFrom(files: map<string, int>, fsOk: FsOp -> bool, configName: string, home: Option<string>,
                        readConfig: string -> ConfigData, host: string, token: string)
    ensures var v := Validate(files, fsOk, configName, home);
      var r := FetchConfig(v.status, if v.status == 1 then readConfig(v.confFile) else ConfigData("", "", "", 0, false),
                           host, token);
      (configName !in files || home.None? ==> r.None?) &&
      (configName in files && home.Some? ==>
        var confPath := GetConfPath(home.value);
        var confFile := GetConfFile(confPath);
        (confPath in files && confFile in files && files[confFile] != 0 ==>
          var d := readConfig(confFile);
          r == Some(d.(host := Override(d.host, host), token := Override(d.token, token)))) &&
        (confPath !in files && fsOk(MkdirAll(confPath)) && fsOk(Create(confFile)) ==>
          (r.Some? <==> host != "" && token != "")))
  {
    ValidateStatus(files, fsOk, configName, home);
  }

  /**
   * fetchCMD.Fn: needs root and ipset, makes sure the set of the
   * configuration name exists (exiting when it cannot be created), reads and
   * merges the configuration, and runs FetchIPs, whose error is only
   * printed. Returns the configuration FetchIPs started with and its error.
   */
  method FetchCommand(h: Host, isRoot: bool, configName: string, home: Option<string>,
                      host: string, token: string, fetchAll: bool, ignoreCert: bool,
                      readConfig: string -> ConfigData, server: FetchRequest -> Reply,
                      decode: string -> Result<FetchResponse, string>, isIPValid: string -> bool)
    returns (started: Option<ConfigData>, err: Option<string>)
    modifies h
    ensures !isRoot ==>
      started == None && err == None &&
      h.trace == old(h.trace) && h.sets == old(h.sets) && h.files == old(h.files)
    ensures isRoot && !h.cmdOk(IpsetHelp) ==>
      started == None && err == None &&
      h.trace == old(h.trace) + [Ran(IpsetHelp)] && h.sets == old(h.sets) && h.files == old(h.files)
    ensures var name := GetBlocklistName(configName);
      isRoot && h.cmdOk(IpsetHelp) && name !in old(h.sets) && !h.cmdOk(IpsetCreate(name)) ==>
      started == None && err == None &&
      h.trace == old(h.trace) + [Ran(IpsetHelp), Ran(IpsetList(name)), Ran(IpsetCreate(name))] &&
      h.sets == old(h.sets) && h.files == old(h.files)
    ensures var name := GetBlocklistName(configName);
      isRoot && h.cmdOk(IpsetHelp) && (name in old(h.sets) || h.cmdOk(IpsetCreate(name))) ==>
      var v := Validate(old(h.files), h.fsOk, configName, home);
      started == FetchConfig(v.status, if v.status == 1 then readConfig(v.confFile) else ConfigData("", "", "", 0, false),
                             host, token)
    ensures isRoot ==> |h.trace| > |old(h.trace)| && h.trace[|old(h.trace)|] == Ran(IpsetHelp)
    ensures isRoot && h.cmdOk(IpsetHelp) ==>
      |h.trace| > |old(h.trace)| + 1 && h.trace[|old(h.trace)| + 1] == Ran(IpsetList(GetBlocklistName(configName)))
    ensures started.Some? ==>
      GetBlocklistName(configName) in h.sets &&
      (host != "" ==> started.value.host == host) && (token != "" ==> started.value.token == token)
    ensures err.Some? ==> started.Some?
  {
    started, err := None, None;
    var proceed := PrepareFetch(h, isRoot, GetBlocklistName(configName));
    if !proceed {
      return;
    }
    ghost var setUp := h.trace;
    assert setUp[|old(h.trace)|] == Ran(IpsetHelp) && setUp[|old(h.trace)| + 1] == Ran(IpsetList(GetBlocklistName(configName)));
    ghost var status, configFile, validated, validatedTrace;
    started, err, status, configFile, validated, validatedTrace := FetchWithConfig(
      h, configName, home, host, token, fetchAll, ignoreCert, GetBlocklistName(configName),
      readConfig, server, decode, isIPValid);
    PrefixIndex(setUp, h.trace, |old(h.trace)|);
    PrefixIndex(setUp, h.trace, |old(h.trace)| + 1);
  }

  /** The commands fetchCMD.Fn runs before it reads the configuration, as far as they get. */
  function SetupEvents(isRoot: bool, installed: bool, present: bool, name: string): seq<Event> {
    if !isRoot then []
    else if !installed then [Ran(IpsetHelp)]
    else if present then [Ran(IpsetHelp), Ran(IpsetList(name))]
    else [Ran(IpsetHelp), Ran(IpsetList(name)), Ran(IpsetCreate(name))]
  }

  /**
   * The start of fetchCMD.Fn: the root check, `ipset help`, and setupIPset
   * on the derived set `name`. Goes on exactly when running as root, ipset is
   * installed and the set exists or could be created; os.Exit(1) after a
   * refused creation is a stop like the others.
   */
  method PrepareFetch(h: Host, isRoot: bool, name: string) returns (proceed: bool)
    modifies h
    ensures proceed <==> isRoot && h.cmdOk(IpsetHelp) && (name in old(h.sets) || h.cmdOk(IpsetCreate(name)))
    ensures h.trace == old(h.trace) + SetupEvents(isRoot, h.cmdOk(IpsetHelp), name in old(h.sets), name)
    ensures h.sets == if proceed && name !in old(h.sets) then old(h.sets)[name := {}] else old(h.sets)
    ensures proceed ==> name in h.sets
    ensures h.files == old(h.files)
  {
    if !isRoot {
      return false;
    }
    var installed := IsIpsetInstalled(h);
    if !installed {
      return false;
    }
    ghost var helped := h.trace;
    var exited := SetupIPset(h, name);
    proceed := !exited;
    if name in old(h.sets) {
      assert h.trace == helped + [Ran(IpsetList(name))];
    } else {
      assert h.trace == helped + [Ran(IpsetList(name)), Ran(IpsetCreate(name))];
    }
  }

  /** An element inside a prefix is kept by the longer sequence. */
  lemma PrefixIndex<T>(a: seq<T>, b: seq<T>, i: int)
    requires |a| <= |b| && b[..|a|] == a && 0 <= i < |a|
    ensures b[i] == a[i]
  {
    assert b[..|a|][i] == b[i];
  }

  /**
   * The part of fetchCMD.Fn after the set exists: validate and read the
   * configuration, merge the flags into it, and run FetchIPs with it. The
   * ghost results are the validation's status and configuration file and
   * the files and trace it left behind; FetchIPs runs exactly when a
   * configuration is started, from that state, with that configuration.
   */
  method FetchWithConfig(h: Host, configName: string, home: Option<string>,
                         host: string, token: string, fetchAll: bool, ignoreCert: bool, blocklistName: string,
                         readConfig: string -> ConfigData, server: FetchRequest -> Reply,
                         decode: string -> Result<FetchResponse, string>, isIPValid: string -> bool)
    returns (started: Option<ConfigData>, err: Option<string>, ghost status: int, ghost configFile: string,
             ghost validated: map<string, int>, ghost validatedTrace: seq<Event>)
    modifies h
    ensures var v := Validate(old(h.files), h.fsOk, configName, home);
      status == v.status && configFile == v.confFile && validated == v.files &&
      validatedTrace == old(h.trace) + v.events
    ensures |h.trace| >= |old(h.trace)| && h.trace[..|old(h.trace)|] == old(h.trace)
    ensures h.sets.Keys == old(h.sets).Keys
    ensures status in {-1, 0, 1}
    ensures configName !in old(h.files) ==> status == -1
    ensures status >= 0 ==> home.Some? && configFile == GetConfFile(GetConfPath(home.value))
    ensures started == FetchConfig(status, if status == 1 then readConfig(configFile) else ConfigData("", "", "", 0, false),
                                   host, token)
    ensures started.None? ==>
      err == None && h.sets == old(h.sets) && h.files == validated && h.trace == validatedTrace
    ensures started.Some? ==>
      var request := RequestFor(started.value.token, started.value.since, fetchAll);
      var reading := ReadFetchReply(server(request), decode);
      var asked := validatedTrace + [Requested(started.value.host, "fetch", request, ignoreCert)];
      if !reading.Decoded? then
        err == ReadingError(reading) && h.sets == old(h.sets) && h.files == validated && h.trace == asked
      else
        var resp := reading.response;
        var flush := resp.full || fetchAll || started.value.since == 0;
        var t := Replay(if flush then FlushState(old(h.sets)) else old(h.sets), resp.ips, blocklistName, isIPValid);
        var b := BackupSteps(validated, h.fsOk, h.cmdOk(IpsetHelp),
                             BackupFolder(configFile), BackupSetName(configFile), true, false);
        err == None && h.sets == t.sets && h.files == b.1 &&
        h.trace == asked + AppliedEvents(configFile, started.value.(since := resp.currentTimestamp), flush, t,
                                         blocklistName, b.0)
    ensures started.Some? ==>
      (host != "" ==> started.value.host == host) && (token != "" ==> started.value.token == token)
    ensures err.Some? ==> started.Some?
  {
    started, err := None, None;
    var st, file := CreateAndValidateConfigFile(h, configName, home);
    status, configFile, validated, validatedTrace := st, file, h.files, h.trace;
    assert validatedTrace[..|old(h.trace)|] == old(h.trace);
    var fromFile := if st == 1 then readConfig(file) else ConfigData("", "", "", 0, false);
    var config := FetchConfig(st, fromFile, host, token);
    if config.None? {
      return;
    }
    var c := new Config(config.value);
    err := FetchIPs(h, c, file, fetchAll, ignoreCert, blocklistName, server, decode, isIPValid);
    PrefixTransitive(old(h.trace), validatedTrace, h.trace);
    started := config;
  }
}
