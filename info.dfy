/**
 * Info.go: the `ipinfo` command. Its parameter splitting (InitArrayParam),
 * the filter that keeps the valid IPs, the reading of the server's answer
 * and the lines displayIPdata prints.
 */
module Info {
  import opened Wrappers
  import opened Text
  import opened Records
  import opened Env
  import opened Conf

  // ----- InitArrayParam -----

  /** The non-empty strings of `parts`, in order. */
  function NonEmpty(parts: seq<string>): (r: seq<string>)
    ensures forall x :: x in r <==> x in parts && x != ""
  {
    if |parts| == 0 then []
    else NonEmpty(parts[..|parts| - 1]) + (if parts[|parts| - 1] == "" then [] else [parts[|parts| - 1]])
  }

  /** What one parameter value contributes: its non-empty pieces when it holds the separator, else itself unless empty. */
  function ParamPieces(hn: string, sep: string): seq<string> {
    if Contains(hn, sep) then NonEmpty(Split(hn, sep)) else if hn == "" then [] else [hn]
  }

  /** The parameter list InitArrayParam leaves behind. */
  function SplitParams(sl: seq<string>, sep: string): seq<string> {
    if |sl| == 0 then [] else SplitParams(sl[..|sl| - 1], sep) + ParamPieces(sl[|sl| - 1], sep)
  }

  /** Reference: every value split on the separator, empty pieces dropped, concatenated in order. */
  function SplitEach(sl: seq<string>, sep: string): seq<string> {
    if |sl| == 0 then [] else SplitEach(sl[..|sl| - 1], sep) + NonEmpty(Split(sl[|sl| - 1], sep))
  }

  /** Testing for the separator first changes nothing: a value without it splits to itself. */
  lemma ParamPiecesIsSplit(hn: string, sep: string)
    ensures ParamPieces(hn, sep) == NonEmpty(Split(hn, sep))
  {
    if !Contains(hn, sep) {
      ContainsEmpty(hn);
      SplitWithout(hn, sep);
      assert NonEmpty([hn]) == NonEmpty([hn][..0]) + (if hn == "" then [] else [hn]);
    }
  }

  /** InitArrayParam keeps the order: its result is the in-order concatenation of the split values. */
  lemma {:induction false} SplitParamsInOrder(sl: seq<string>, sep: string)
    ensures SplitParams(sl, sep) == SplitEach(sl, sep)
    decreases |sl|
  {
    if |sl| > 0 {
      SplitParamsInOrder(sl[..|sl| - 1], sep);
      ParamPiecesIsSplit(sl[|sl| - 1], sep);
    }
  }

  /** A value that InitArrayParam leaves as it is. */
  predicate Settled(x: string, sep: string) {
    ParamPieces(x, sep) == [x]
  }

  /** Every piece one value contributes is non-empty, free of the separator, and settled. */
  lemma PiecesClean(hn: string, sep: string)
    ensures forall x :: x in ParamPieces(hn, sep) ==>
      x != "" && (sep != "" ==> !Contains(x, sep)) && Settled(x, sep)
  {
    forall x | x in ParamPieces(hn, sep)
      ensures x != "" && (sep != "" ==> !Contains(x, sep)) && Settled(x, sep)
    {
      if !Contains(hn, sep) {
        assert x == hn;
      } else if sep == "" {
        var parts := Explode(hn);
        assert x in parts;
        var k :| 0 <= k < |parts| && parts[k] == x;
        assert x == [hn[k]];
        assert Split(x, sep) == [x];
        assert NonEmpty([x]) == NonEmpty([x][..0]) + [x];
      } else {
        var parts := Split(hn, sep);
        SplitPiecesFree(hn, sep);
        var k :| 0 <= k < |parts| && parts[k] == x;
        assert !Contains(x, sep);
      }
    }
  }

  /** After InitArrayParam no element is empty, and with a non-empty separator none holds it. */
  lemma {:induction false} SplitParamsClean(sl: seq<string>, sep: string)
    ensures forall x :: x in SplitParams(sl, sep) ==>
      x != "" && (sep != "" ==> !Contains(x, sep)) && Settled(x, sep)
    decreases |sl|
  {
    if |sl| > 0 {
      SplitParamsClean(sl[..|sl| - 1], sep);
      PiecesClean(sl[|sl| - 1], sep);
      assert SplitParams(sl, sep) == SplitParams(sl[..|sl| - 1], sep) + ParamPieces(sl[|sl| - 1], sep);
    }
  }

  /** A list of settled values is its own split. */
  lemma {:induction false} SettledFixed(sl: seq<string>, sep: string)
    requires forall x :: x in sl ==> Settled(x, sep)
    ensures SplitParams(sl, sep) == sl
    decreases |sl|
  {
    if |sl| > 0 {
      assert sl[|sl| - 1] in sl;
      assert forall x :: x in sl[..|sl| - 1] ==> x in sl;
      SettledFixed(sl[..|sl| - 1], sep);
      assert sl[..|sl| - 1] + [sl[|sl| - 1]] == sl;
    }
  }

  /** InitArrayParam is idempotent. */
  lemma SplitParamsIdempotent(sl: seq<string>, sep: string)
    ensures SplitParams(SplitParams(sl, sep), sep) == SplitParams(sl, sep)
  {
    SplitParamsClean(sl, sep);
    SettledFixed(SplitParams(sl, sep), sep);
  }

  /**
   * InitArrayParam: the new value of the parameter list. An empty list
   * becomes nil (the empty sequence here).
   */
  method InitArrayParam(sl: seq<string>, sep: string) returns (e: seq<string>)
    ensures |sl| == 0 ==> e == []
    ensures e == SplitParams(sl, sep)
  {
    if |sl| == 0 {
      return [];
    }
    e := [];
    var i := 0;
    while i < |sl|
      invariant 0 <= i <= |sl|
      invariant e == SplitParams(sl[..i], sep)
    {
      var hn := sl[i];
      ghost var e0 := e;
      if Contains(hn, sep) {
        e := AppendPieces(e, Split(hn, sep));
      } else if |hn| != 0 {
        e := e + [hn];
      }
      assert e == e0 + ParamPieces(hn, sep);
      assert sl[..i + 1][..i] == sl[..i];
      assert SplitParams(sl[..i + 1], sep) == SplitParams(sl[..i], sep) + ParamPieces(hn, sep);
      i := i + 1;
    }
    assert sl[..i] == sl;
  }

  /** The inner loop of InitArrayParam: appends the non-empty pieces, in order. */
  method AppendPieces(e0: seq<string>, parts: seq<string>) returns (e: seq<string>)
    ensures e == e0 + NonEmpty(parts)
  {
    e := e0;
    var j := 0;
    while j < |parts|
      invariant 0 <= j <= |parts|
      invariant e == e0 + NonEmpty(parts[..j])
    {
      assert parts[..j + 1][..j] == parts[..j];
      assert NonEmpty(parts[..j + 1]) == NonEmpty(parts[..j]) + (if parts[j] == "" then [] else [parts[j]]);
      if |parts[j]| != 0 {
        e := e + [parts[j]];
      }
      j := j + 1;
    }
    assert parts[..j] == parts;
  }

  // ----- the valid-IP filter -----

  /** The valid IPs of `ips`, in their order. */
  function ValidIPs(ips: seq<string>, isIPValid: string -> bool): (r: seq<string>)
    ensures forall x :: x in r <==> x in ips && isIPValid(x)
    ensures |r| <= |ips|
  {
    if |ips| == 0 then []
    else ValidIPs(ips[..|ips| - 1], isIPValid) + (if isIPValid(ips[|ips| - 1]) then [ips[|ips| - 1]] else [])
  }

  /** The filter keeps the order: filtering a concatenation concatenates the filtered parts. */
  lemma {:induction false} ValidIPsConcat(a: seq<string>, b: seq<string>, isIPValid: string -> bool)
    ensures ValidIPs(a + b, isIPValid) == ValidIPs(a, isIPValid) + ValidIPs(b, isIPValid)
    decreases |b|
  {
    if |b| == 0 {
      assert a + b == a;
    } else {
      var b' := b[..|b| - 1];
      assert (a + b)[..|a + b| - 1] == a + b';
      ValidIPsConcat(a, b', isIPValid);
    }
  }

  /** The loop of ipinfoCMD.Fn that keeps the valid IPs and skips the others. */
  method FilterValidIPs(ips: seq<string>, isIPValid: string -> bool) returns (valid: seq<string>)
    ensures valid == ValidIPs(ips, isIPValid)
  {
    valid := [];
    var i := 0;
    while i < |ips|
      invariant 0 <= i <= |ips|
      invariant valid == ValidIPs(ips[..i], isIPValid)
    {
      assert ips[..i + 1][..i] == ips[..i];
      if isIPValid(ips[i]) {
        valid := valid + [ips[i]];
      }
      i := i + 1;
    }
    assert ips[..i] == ips;
  }

  // ----- reading the answer -----

  /** The body with every newline removed and the surrounding spaces trimmed. */
  function CleanBody(res: string): string {
    TrimSpaces(RemoveAll(res, '\n'))
  }

  /** "-1" is a refused token, "2" a server error; anything else goes to the decoder. */
  function ClassifyInfo(res: string, decode: string -> Result<seq<IPInfoData>, string>)
    : (r: Result<seq<IPInfoData>, string>)
    ensures CleanBody(res) == "-1" ==> r == Err("Invalid token")
    ensures CleanBody(res) == "2" ==> r == Err("Server error")
    ensures CleanBody(res) != "-1" && CleanBody(res) != "2" ==>
      r == match decode(CleanBody(res))
           case Ok(d) => Ok(d)
           case Err(e) => Err("Error parsing response: " + e)
  {
    var t := CleanBody(res);
    if t == "-1" then Err("Invalid token")
    else if t == "2" then Err("Server error")
    else
      match decode(t)
      case Ok(d) => Ok(d)
      case Err(e) => Err("Error parsing response: " + e)
  }

  /** A blank string: spaces and newlines only. */
  predicate Blank(s: string) {
    forall k :: 0 <= k < |s| ==> s[k] == ' ' || s[k] == '\n'
  }

  /** The sentinels are recognised whatever blank lines and spaces surround them. */
  lemma SentinelsIgnoreLayout(before: string, core: string, after: string,
                              decode: string -> Result<seq<IPInfoData>, string>)
    requires Blank(before) && Blank(after)
    requires core == "-1" || core == "2"
    ensures ClassifyInfo(before + core + after, decode) ==
      if core == "-1" then Err("Invalid token") else Err("Server error")
  {
    RemoveAllConcat(before + core, after, '\n');
    RemoveAllConcat(before, core, '\n');
    RemoveAllAbsent(core, '\n');
    BlanksToSpaces(before);
    BlanksToSpaces(after);
    var b, a := RemoveAll(before, '\n'), RemoveAll(after, '\n');
    assert RemoveAll(before + core + after, '\n') == b + (core + a);
    TrimLeftPadding(b, core + a);
    TrimRightPadding(core, a);
    assert CleanBody(before + core + after) == core;
  }

  /** The decoder never sees a newline nor surrounding spaces. */
  lemma DecoderSeesCleanBody(res: string)
    ensures '\n' !in CleanBody(res)
    ensures CleanBody(res) == "" || (CleanBody(res)[0] != ' ' && CleanBody(res)[|CleanBody(res)| - 1] != ' ')
  {
    var r := RemoveAll(res, '\n');
    var l := TrimLeftSpaces(r);
    var t := TrimRightSpaces(l);
    assert CleanBody(res) == t;
    AbsentAfterTrimLeft(r, '\n');
    AbsentAfterTrimRight(l, '\n');
    if t != "" {
      assert t[0] == l[0];
    }
  }

  // ----- displayIPdata -----

  /** The total of the reports' counts, added up in Go's 64-bit `int`, which wraps. */
  function SumCounts(reports: seq<Report>): (r: int)
    ensures MinInt64 <= r <= MaxInt64
  {
    if |reports| == 0 then 0 else WrapInt64(SumCounts(reports[..|reports| - 1]) + reports[|reports| - 1].count)
  }

  /** The total of a concatenation is the int64 sum of the totals. */
  lemma {:induction false} SumCountsConcat(a: seq<Report>, b: seq<Report>)
    ensures SumCounts(a + b) == WrapInt64(SumCounts(a) + SumCounts(b))
    decreases |b|
  {
    if |b| == 0 {
      assert a + b == a;
      assert SumCounts(b) == 0;
      assert WrapInt64(SumCounts(a) + 0) == SumCounts(a);
      assert SumCounts(a + b) == WrapInt64(SumCounts(a) + SumCounts(b));
    } else {
      var init, last := b[..|b| - 1], b[|b| - 1].count;
      assert (a + b)[..|a + b| - 1] == a + init && (a + b)[|a + b| - 1].count == last;
      var sa, si := SumCounts(a), SumCounts(init);
      SumCountsConcat(a, init);
      assert SumCounts(a + b) == WrapInt64(WrapInt64(sa + si) + last);
      assert SumCounts(b) == WrapInt64(si + last);
      WrapAssoc(sa, si, last);
      assert SumCounts(a + b) == WrapInt64(SumCounts(a) + SumCounts(b));
    }
  }

  /** The loop of displayIPdata that adds up the counts. */
  method ReportTotal(reports: seq<Report>) returns (max: int)
    ensures max == SumCounts(reports)
  {
    max := 0;
    var i := 0;
    while i < |reports|
      invariant 0 <= i <= |reports|
      invariant max == SumCounts(reports[..i])
    {
      assert reports[..i + 1][..i] == reports[..i];
      max := WrapInt64(max + reports[i].count);
      i := i + 1;
    }
    assert reports[..i] == reports;
  }

  /** The line printed for one report; `parseTime` stands for parseTimeStamp. */
  function ReportLine(r: Report, parseTime: int -> string): string {
    "   " + parseTime(r.time) + " " + r.reporterName + " :" + Itoa(r.port) + " (" + Itoa(r.count) + "x)"
  }

  /** What precedes the first line of the entry at index `i`: a newline after the first entry. */
  function EntryPrefix(i: int): string {
    if i > 0 then "\n" else ""
  }

  /** The header of an entry with reports, with its total. */
  function HeaderLine(info: IPInfoData, i: int): string {
    EntryPrefix(i) + ("IP: " + (info.ip + (" (" + (Itoa(SumCounts(info.reports)) + "x)"))))
  }

  /** One line per report, in order. */
  function ReportLines(reports: seq<Report>, parseTime: int -> string): (r: seq<string>)
    ensures |r| == |reports|
  {
    if |reports| == 0 then []
    else ReportLines(reports[..|reports| - 1], parseTime) + [ReportLine(reports[|reports| - 1], parseTime)]
  }

  /** The lines printed for the entry at index `i`. */
  function EntryLines(info: IPInfoData, i: int, hideNotFound: bool, parseTime: int -> string): seq<string> {
    if |info.reports| > 0 then [HeaderLine(info, i)] + ReportLines(info.reports, parseTime)
    else if !hideNotFound then [EntryPrefix(i) + "No report for " + info.ip]
    else []
  }

  /** All lines displayIPdata prints. */
  function DisplayLines(ipdata: seq<IPInfoData>, hideNotFound: bool, parseTime: int -> string): seq<string> {
    if |ipdata| == 0 then []
    else
      var last := |ipdata| - 1;
      DisplayLines(ipdata[..last], hideNotFound, parseTime) + EntryLines(ipdata[last], last, hideNotFound, parseTime)
  }

  /**
   * An entry prints one header line and one line per report; without
   * reports it prints "No report for <ip>" unless hidden. Its first line
   * begins with a newline exactly when it is not the first entry.
   */
  lemma EntryLinesShape(info: IPInfoData, i: nat, hideNotFound: bool, parseTime: int -> string)
    ensures var lines := EntryLines(info, i, hideNotFound, parseTime);
      var add := if i > 0 then "\n" else "";
      |lines| == (if |info.reports| > 0 then 1 + |info.reports| else if hideNotFound then 0 else 1) &&
      (|info.reports| == 0 && !hideNotFound ==> lines == [add + "No report for " + info.ip]) &&
      (|lines| > 0 ==> |lines[0]| > 0 && (lines[0][0] == '\n' <==> i > 0))
  {
    if |info.reports| > 0 {
      HeaderFirst(info, i);
    } else if !hideNotFound {
      var add := EntryPrefix(i);
      var missing := "No report for " + info.ip;
      assert add + "No report for " + info.ip == add + missing;
      PrefixedFirst(add, missing);
    }
  }

  /** The header line of an entry starts with a newline exactly when it is not the first entry. */
  lemma HeaderFirst(info: IPInfoData, i: int)
    ensures |HeaderLine(info, i)| > 0 && (HeaderLine(info, i)[0] == '\n' <==> i > 0)
  {
    var header := "IP: " + (info.ip + (" (" + (Itoa(SumCounts(info.reports)) + "x)")));
    assert header[0] == 'I';
    PrefixedFirst(EntryPrefix(i), header);
  }

  /** A line behind the entry prefix starts with a newline exactly when the prefix is one. */
  lemma PrefixedFirst(add: string, line: string)
    requires add == "" || add == "\n"
    requires |line| > 0 && line[0] != '\n'
    ensures |add + line| > 0 && ((add + line)[0] == '\n' <==> add == "\n")
  {
  }

  /** displayIPdata: the lines it prints, in order. */
  method DisplayIPData(ipdata: seq<IPInfoData>, hideNotFound: bool, parseTime: int -> string)
    returns (out: seq<string>)
    ensures out == DisplayLines(ipdata, hideNotFound, parseTime)
  {
    out := [];
    var i := 0;
    while i < |ipdata|
      invariant 0 <= i <= |ipdata|
      invariant out == DisplayLines(ipdata[..i], hideNotFound, parseTime)
    {
      var lines := DisplayEntry(ipdata[i], i, hideNotFound, parseTime);
      out := out + lines;
      assert ipdata[..i + 1][..i] == ipdata[..i];
      i := i + 1;
    }
    assert ipdata[..i] == ipdata;
  }

  /** One round of displayIPdata's loop. */
  method DisplayEntry(info: IPInfoData, i: int, hideNotFound: bool, parseTime: int -> string)
    returns (lines: seq<string>)
    ensures lines == EntryLines(info, i, hideNotFound, parseTime)
  {
    var add := "";
    if i > 0 {
      add := "\n";
    }
    lines := [];
    if |info.reports| > 0 {
      var max := ReportTotal(info.reports);
      var details := PrintReports(info.reports, parseTime);
      lines := [add + ("IP: " + (info.ip + (" (" + (Itoa(max) + "x)"))))] + details;
    } else if !hideNotFound {
      lines := [add + "No report for " + info.ip];
    }
  }

  /** The inner loop of displayIPdata that prints each report. */
  method PrintReports(reports: seq<Report>, parseTime: int -> string) returns (lines: seq<string>)
    ensures lines == ReportLines(reports, parseTime)
  {
    lines := [];
    var j := 0;
    while j < |reports|
      invariant 0 <= j <= |reports|
      invariant lines == ReportLines(reports[..j], parseTime)
    {
      assert reports[..j + 1][..j] == reports[..j];
      lines := lines + [ReportLine(reports[j], parseTime)];
      j := j + 1;
    }
    assert reports[..j] == reports;
  }

  // ----- ipinfoCMD.Fn -----

  /**
   * The configuration ipinfo works with: nothing for status -1; for an
   * empty configuration (status 0) the flags, which must name host and
   * token; otherwise the file's values with each non-empty flag taking
   * precedence.
   */
  function InfoConfig(status: int, fromFile: ConfigData, host: string, token: string, logFile: string)
    : (r: Option<ConfigData>)
  {
    if status < 0 then None
    else if status == 0 then
      if |host| == 0 || |token| == 0 then None
      else Some(ConfigData(host, logFile, token, 0, false))
    else Some(ConfigData(Override(fromFile.host, host), Override(fromFile.logFile, logFile),
                         Override(fromFile.token, token), 0, false))
  }

  /**
   * The configuration ipinfo works with, from the files before validation:
   * an existing non-empty configuration file is read and the flags merged
   * in; on a fresh install only both host and token flags together go on;
   * a missing path or home goes nowhere.
   */
  lemma InfoStartsFrom(files: map<string, int>, fsOk: FsOp -> bool, configName: string, home: Option<string>,
                       readConfig: string -> ConfigData, host: string, token: string, logFile: string)
    ensures var v := Validate(files, fsOk, configName, home);
      var r := InfoConfig(v.status, if v.status == 1 then readConfig(v.confFile) else ConfigData("", "", "", 0, false),
                          host, token, logFile);
      (configName !in files || home.None? ==> r.None?) &&
      (configName in files && home.Some? ==>
        var confPath := GetConfPath(home.value);
        var confFile := GetConfFile(confPath);
        (confPath in files && confFile in files && files[confFile] != 0 ==>
          var d := readConfig(confFile);
          r == Some(ConfigData(Override(d.host, host), Override(d.logFile, logFile), Override(d.token, token), 0, false))) &&
        (confPath !in files && fsOk(MkdirAll(confPath)) && fsOk(Create(confFile)) ==>
          (r.Some? <==> host != "" && token != "")))
  {
    ValidateStatus(files, fsOk, configName, home);
  }

  /** Which configurations ipinfo goes on with, and where each value comes from. */
  lemma InfoConfigPrecedence(status: int, fromFile: ConfigData, host: string, token: string, logFile: string)
    ensures var r := InfoConfig(status, fromFile, host, token, logFile);
      (r.Some? <==> status > 0 || (status == 0 && host != "" && token != "")) &&
      (r.Some? ==>
        r.value.host == (if host != "" then host else fromFile.host) &&
        r.value.token == (if token != "" then token else fromFile.token) &&
        r.value.logFile == (if logFile != "" || status == 0 then logFile else fromFile.logFile))
  {
  }

  /**
   * ipinfoCMD.Fn: reads the configuration, checks the log file, splits and
   * filters the IPs, asks the server and prints its answer. `readConfig`
   * stands for readConfig, `logFileExists` for validateLogFile, `server`
   * for the ipinfo request, `decode` for json.Unmarshal and `parseTime` for
   * parseTimeStamp. Returns the error and the printed lines of the answer;
   * the ghost results are the validation's status and configuration file
   * and the trace it left behind.
   */
  method IpInfoCommand(h: Host, configName: string, home: Option<string>,
                       ips: seq<string>, logFile: string, host: string, token: string,
                       hideNotFound: bool, ignoreCert: bool,
                       readConfig: string -> ConfigData, logFileExists: string -> bool,
                       isIPValid: string -> bool, server: IPInfoRequest -> Reply,
                       decode: string -> Result<seq<IPInfoData>, string>, parseTime: int -> string)
    returns (err: Option<string>, out: seq<string>,
             ghost status: int, ghost configFile: string, ghost validatedTrace: seq<Event>)
    modifies h
    ensures out != [] ==> err == None
    ensures |h.trace| >= |old(h.trace)| && h.trace[..|old(h.trace)|] == old(h.trace)
    ensures forall i :: |old(h.trace)| <= i < |h.trace| ==> h.trace[i].Fs? || h.trace[i].AskedInfo?
    ensures forall i :: |old(h.trace)| <= i < |h.trace| && h.trace[i].AskedInfo? ==>
      i == |h.trace| - 1 && h.trace[i].info.ips == ValidIPs(SplitParams(ips, ","), isIPValid) &&
      h.trace[i].info.ips != []
    ensures var v := Validate(old(h.files), h.fsOk, configName, home);
      status == v.status && configFile == v.confFile && h.files == v.files &&
      validatedTrace == old(h.trace) + v.events
    ensures status in {-1, 0, 1}
    ensures configName !in old(h.files) ==> status == -1
    ensures status >= 0 ==> home.Some? && configFile == GetConfFile(GetConfPath(home.value))
    ensures var config := InfoConfig(status, if status == 1 then readConfig(configFile) else ConfigData("", "", "", 0, false),
                                     host, token, logFile);
      if config.None? || (!logFileExists(config.value.logFile) && |config.value.logFile| > 0) then
        err == None && out == [] && h.trace == validatedTrace
      else
        var valid := ValidIPs(SplitParams(ips, ","), isIPValid);
        var request := IPInfoRequest(config.value.token, valid);
        if |valid| == 0 then
          err == Some("No valid IP found") && out == [] && h.trace == validatedTrace
        else
          h.trace == validatedTrace + [AskedInfo(config.value.host, "ipinfo", request, ignoreCert)] &&
          (err, out) == InfoAnswer(server(request), decode, hideNotFound, parseTime)
    ensures h.sets == old(h.sets)
  {
    var config;
    config, status, configFile := ReadInfoConfig(h, configName, home, logFile, host, token, readConfig);
    validatedTrace := h.trace;
    if config.None? {
      return None, [], status, configFile, validatedTrace;
    }
    var c := config.value;
    if !logFileExists(c.logFile) && |c.logFile| > 0 {
      return None, [], status, configFile, validatedTrace;
    }
    err, out := QueryIPs(h, c, ips, hideNotFound, ignoreCert, isIPValid, server, decode, parseTime);
    AskedLast(old(h.trace), validatedTrace, h.trace, ValidIPs(SplitParams(ips, ","), isIPValid));
  }

  /**
   * A trace that extends `before` by file operations and then by nothing or
   * by one request for `valid`: only file operations and that request
   * follow `before`, and the request comes last.
   */
  lemma AskedLast(before: seq<Event>, validated: seq<Event>, after: seq<Event>, valid: seq<string>)
    requires |before| <= |validated| && validated[..|before|] == before
    requires forall i :: |before| <= i < |validated| ==> validated[i].Fs?
    requires after == validated ||
      (valid != [] && |after| == |validated| + 1 && after[..|validated|] == validated &&
       after[|validated|].AskedInfo? && after[|validated|].info.ips == valid)
    ensures |after| >= |before| && after[..|before|] == before
    ensures forall i :: |before| <= i < |after| ==> after[i].Fs? || after[i].AskedInfo?
    ensures forall i :: |before| <= i < |after| && after[i].AskedInfo? ==>
      i == |after| - 1 && after[i].info.ips == valid && after[i].info.ips != []
  {
    if after != validated {
      forall i | |before| <= i < |validated|
        ensures after[i] == validated[i]
      {
        assert after[..|validated|][i] == after[i];
      }
      PrefixTransitive(before, validated, after);
    }
  }

  /**
   * The configuration ipinfo works with, read from the validated file and
   * merged with the flags; the ghost results are the validation's status and
   * configuration file.
   */
  method ReadInfoConfig(h: Host, configName: string, home: Option<string>, logFile: string, host: string,
                        token: string, readConfig: string -> ConfigData)
    returns (config: Option<ConfigData>, ghost status: int, ghost configFile: string)
    modifies h
    ensures |h.trace| >= |old(h.trace)| && h.trace[..|old(h.trace)|] == old(h.trace)
    ensures forall i :: |old(h.trace)| <= i < |h.trace| ==> h.trace[i].Fs?
    ensures h.sets == old(h.sets)
    ensures var v := Validate(old(h.files), h.fsOk, configName, home);
      status == v.status && configFile == v.confFile && h.files == v.files && h.trace == old(h.trace) + v.events
    ensures status in {-1, 0, 1}
    ensures configName !in old(h.files) ==> status == -1
    ensures status >= 0 ==> home.Some? && configFile == GetConfFile(GetConfPath(home.value))
    ensures config == InfoConfig(status, if status == 1 then readConfig(configFile) else ConfigData("", "", "", 0, false),
                                 host, token, logFile)
    ensures config.Some? ==> (host != "" ==> config.value.host == host) && (token != "" ==> config.value.token == token)
  {
    var st, file := CreateAndValidateConfigFile(h, configName, home);
    status, configFile := st, file;
    var fromFile := if st == 1 then readConfig(file) else ConfigData("", "", "", 0, false);
    config := InfoConfig(st, fromFile, host, token, logFile);
  }

  /**
   * What ipinfo reports for the server's reply: a transport failure or a
   * refused answer is an error and prints nothing; a decoded answer prints
   * its display lines and no error.
   */
  function InfoAnswer(reply: Reply, decode: string -> Result<seq<IPInfoData>, string>, hideNotFound: bool,
                      parseTime: int -> string): (r: (Option<string>, seq<string>))
    ensures r.1 != [] ==> r.0 == None
    ensures r.0 == None <==> reply.Body? && ClassifyInfo(reply.data, decode).Ok?
    ensures r.0 == None ==> r.1 == DisplayLines(ClassifyInfo(reply.data, decode).value, hideNotFound, parseTime)
  {
    match reply
    case Failed(reason) => (Some("Error doing rest call: " + reason), [])
    case Body(res) =>
      match ClassifyInfo(res, decode)
      case Err(e) => (Some(e), [])
      case Ok(data) => (None, DisplayLines(data, hideNotFound, parseTime))
  }

  /**
   * The part of ipinfoCMD.Fn after the configuration: split and filter the
   * IPs; without a valid one fail with "No valid IP found" and ask nothing;
   * otherwise ask the server once and classify and print its answer.
   */
  method QueryIPs(h: Host, c: ConfigData, ips: seq<string>, hideNotFound: bool, ignoreCert: bool,
                  isIPValid: string -> bool, server: IPInfoRequest -> Reply,
                  decode: string -> Result<seq<IPInfoData>, string>, parseTime: int -> string)
    returns (err: Option<string>, out: seq<string>)
    modifies h
    ensures var valid := ValidIPs(SplitParams(ips, ","), isIPValid);
      var request := IPInfoRequest(c.token, valid);
      if |valid| == 0 then
        err == Some("No valid IP found") && out == [] && h.trace == old(h.trace)
      else
        h.trace == old(h.trace) + [AskedInfo(c.host, "ipinfo", request, ignoreCert)] &&
        (err, out) == InfoAnswer(server(request), decode, hideNotFound, parseTime)
    ensures h.sets == old(h.sets) && h.files == old(h.files)
  {
    var params := InitArrayParam(ips, ",");
    var valid := FilterValidIPs(params, isIPValid);
    if |valid| == 0 {
      return Some("No valid IP found"), [];
    }
    var request := IPInfoRequest(c.token, valid);
    h.Note(AskedInfo(c.host, "ipinfo", request, ignoreCert));
    match server(request)
    case Failed(reason) =>
      return Some("Error doing rest call: " + reason), [];
    case Body(res) =>
      match ClassifyInfo(res, decode)
      case Err(e) =>
        return Some(e), [];
      case Ok(data) =>
        out := DisplayIPData(data, hideNotFound, parseTime);
        return None, out;
  }
}
