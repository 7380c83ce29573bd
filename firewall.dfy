/**
 * The helpers of Update.go that talk to ipset and iptables, and the
 * derivation of the blocklist (ipset set) name from a configuration name.
 */
module Firewall {
  import opened Text
  import opened Env

  const Prefix: string := "blocklist_"

  /** The set that flusIPset empties, whatever blocklist is in use. */
  const FlushTarget: string := "blocklist"

  /** `stem` + `ext` splits a file name at its last '.', or `ext` is empty when there is none. */
  predicate SingleExtension(stem: string, ext: string) {
    (ext == "" && '.' !in stem) || (ext != "" && ext[0] == '.' && '.' !in ext[1..])
  }

  /** `path` is a directory part (empty or ending in '/'), then `stem`, then an extension. */
  ghost predicate StemParts(path: string, dir: string, stem: string, ext: string) {
    path == dir + stem + ext && (dir == "" || dir[|dir| - 1] == '/') &&
    '/' !in stem + ext && SingleExtension(stem, ext)
  }

  /** `stem` is the file name of `path` without its last extension. */
  ghost predicate IsStem(path: string, stem: string) {
    exists dir, ext :: StemParts(path, dir, stem, ext)
  }

  /** The file name of a path: what follows its last '/', or the whole path without one. */
  function BaseName(configName: string): (r: string)
    ensures '/' !in r
    ensures configName == (if '/' in configName then PathSplit(configName).0 else "") + r
  {
    if '/' in configName then PathSplit(configName).1 else configName
  }

  /** Where the stem of a file name ends: at its last '.', or at its end without one. */
  function StemEnd(name: string): (r: nat)
    ensures r <= |name|
  {
    if '.' in name then LastIndexOf(name, '.') else |name|
  }

  /** The directory part that BaseName drops. */
  function DirName(configName: string): (r: string)
    ensures r == "" || r[|r| - 1] == '/'
  {
    if '/' in configName then PathSplit(configName).0 else ""
  }

  /**
   * getBlocklistName: "blocklist_" followed by the file name of
   * `configName` (what follows its last '/') cut at its last '.'.
   */
  function GetBlocklistName(configName: string): (r: string)
    ensures |r| >= |Prefix| && r[..|Prefix|] == Prefix
    ensures '/' !in r[|Prefix|..]
    ensures IsStem(configName, r[|Prefix|..])
  {
    var name := BaseName(configName);
    var stem := name[..StemEnd(name)];
    StemOfConfigName(configName, name, stem, name[StemEnd(name)..]);
    assert (Prefix + stem)[|Prefix|..] == stem;
    Prefix + stem
  }

  /** A file name splits at StemEnd into a stem and a single extension. */
  lemma SplitAtStemEnd(name: string)
    ensures name == name[..StemEnd(name)] + name[StemEnd(name)..]
    ensures SingleExtension(name[..StemEnd(name)], name[StemEnd(name)..])
  {
    var until := StemEnd(name);
    var stem, ext := name[..until], name[until..];
    assert name == stem + ext;
    if '.' in name {
      assert ext[0] == name[until] == '.';
      assert ext[1..] == name[until + 1..];
    }
  }

  /** The cut GetBlocklistName makes is a directory, a stem and a single extension. */
  lemma StemOfConfigName(configName: string, name: string, stem: string, ext: string)
    requires name == BaseName(configName)
    requires stem == name[..StemEnd(name)] && ext == name[StemEnd(name)..]
    ensures StemParts(configName, DirName(configName), stem, ext)
  {
    SplitAtStemEnd(name);
    var dir := DirName(configName);
    assert configName == dir + name;
    assert stem + ext == name;
    assert dir + stem + ext == dir + (stem + ext);
    assert '/' !in stem + ext;
  }

  /** Every `c` of `s` after index `r` is absent, stated index by index. */
  lemma AbsentAfter(s: string, r: int, c: char)
    requires -1 <= r < |s| && c !in s[r + 1..]
    ensures forall j :: r < j < |s| ==> s[j] != c
  {
    forall j | r < j < |s|
      ensures s[j] != c
    {
      assert s[j] == s[r + 1..][j - r - 1];
    }
  }

  /** The stem and extension of a file name are determined by the name. */
  lemma SingleExtensionUnique(base: string, stem1: string, ext1: string, stem2: string, ext2: string)
    requires base == stem1 + ext1 && SingleExtension(stem1, ext1)
    requires base == stem2 + ext2 && SingleExtension(stem2, ext2)
    ensures stem1 == stem2
  {
    var d := LastIndexOf(base, '.');
    LastDotStartsExtension(base, stem1, ext1);
    LastDotStartsExtension(base, stem2, ext2);
    assert stem1 == base[..|stem1|] && stem2 == base[..|stem2|];
  }

  /** The last '.' of a file name begins its extension; without extension it has no '.'. */
  lemma LastDotStartsExtension(base: string, stem: string, ext: string)
    requires base == stem + ext && SingleExtension(stem, ext)
    ensures |stem| == if ext == "" then |base| else LastIndexOf(base, '.')
  {
    var d := LastIndexOf(base, '.');
    if ext != "" {
      assert base[|stem|] == '.';
      AbsentAfter(base, d, '.');
      AbsentAfter(ext, 0, '.');
      forall j | |stem| < j < |base|
        ensures base[j] != '.'
      {
        assert base[j] == ext[j - |stem|];
      }
    }
  }

  /** A path has exactly one stem, so the contract of GetBlocklistName determines its result. */
  lemma StemUnique(path: string, stem1: string, stem2: string)
    requires IsStem(path, stem1) && IsStem(path, stem2)
    ensures stem1 == stem2
  {
    var dir1, ext1 :| StemParts(path, dir1, stem1, ext1);
    var dir2, ext2 :| StemParts(path, dir2, stem2, ext2);
    assert dir1 + (stem1 + ext1) == path && dir2 + (stem2 + ext2) == path;
    PathSplitUnique(path, dir1, stem1 + ext1);
    PathSplitUnique(path, dir2, stem2 + ext2);
    SingleExtensionUnique(stem1 + ext1, stem1, ext1, stem2, ext2);
  }

  /** The blocklist name of a configuration depends only on its file name. */
  lemma BlocklistNameOfBasename(configName: string)
    ensures GetBlocklistName(PathSplit(configName).1) == GetBlocklistName(configName)
  {
    if '/' !in configName {
      PathSplitUnique(configName, "", configName);
    }
    assert PathSplit(configName).1 == BaseName(configName);
  }

  /** Two configurations with different stems get different sets; equal stems share one. */
  lemma BlocklistNameDeterminedByStem(c1: string, c2: string, stem: string)
    requires IsStem(c1, stem) && IsStem(c2, stem)
    ensures GetBlocklistName(c1) == GetBlocklistName(c2) == Prefix + stem
  {
    var a := GetBlocklistName(c1);
    var b := GetBlocklistName(c2);
    StemUnique(c1, stem, a[|Prefix|..]);
    StemUnique(c2, stem, b[|Prefix|..]);
    assert a == a[..|Prefix|] + a[|Prefix|..] && b == b[..|Prefix|] + b[|Prefix|..];
  }

  /** A directory and an extension are both dropped: "blocklist_acme". */
  lemma BlocklistNameOfNestedFile()
    ensures GetBlocklistName("configs/acme.json") == Prefix + "acme"
  {
    assert StemParts("configs/acme.json", "configs/", "acme", ".json");
    BlocklistNameDeterminedByStem("configs/acme.json", "configs/acme.json", "acme");
  }

  /** A bare name is kept whole: "blocklist_plain". */
  lemma BlocklistNameOfPlainName()
    ensures GetBlocklistName("plain") == Prefix + "plain"
  {
    assert StemParts("plain", "", "plain", "");
    BlocklistNameDeterminedByStem("plain", "plain", "plain");
  }

  /** Only the last extension is dropped: "blocklist_a.b". */
  lemma BlocklistNameOfDottedName()
    ensures GetBlocklistName("a.b.c") == Prefix + "a.b"
  {
    assert StemParts("a.b.c", "", "a.b", ".c");
    BlocklistNameDeterminedByStem("a.b.c", "a.b.c", "a.b");
  }

  /** A blocklist name never holds a '/'. */
  lemma BlocklistNameHasNoSlash(configName: string)
    ensures '/' !in GetBlocklistName(configName)
  {
    PrefixedNoSlash(GetBlocklistName(configName));
  }

  /** Prefix followed by a part without '/' has no '/'. */
  lemma PrefixedNoSlash(r: string)
    requires |r| >= |Prefix| && r[..|Prefix|] == Prefix && '/' !in r[|Prefix|..]
    ensures '/' !in r
  {
    var rest := r[|Prefix|..];
    assert '/' !in Prefix;
    assert r == Prefix + rest;
  }

  /** No derived blocklist name is the set that flusIPset empties. */
  lemma FlushTargetIsNoBlocklist(configName: string)
    ensures GetBlocklistName(configName) != FlushTarget
  {
  }

  // ----- ipset -----

  /** ipsetAddIP: adds a valid IP to the set; an invalid IP runs nothing and reports failure. */
  method IpsetAddIP(h: Host, ip: string, blocklistName: string, isIPValid: string -> bool) returns (ok: bool)
    modifies h
    ensures isIPValid(ip) ==>
      h.trace == old(h.trace) + [Ran(IpsetAdd(blocklistName, ip))] &&
      (ok, h.sets) == Exec(old(h.sets), IpsetAdd(blocklistName, ip), true)
    ensures !isIPValid(ip) ==> !ok && h.trace == old(h.trace) && h.sets == old(h.sets)
    ensures h.files == old(h.files)
  {
    ok := false;
    if isIPValid(ip) {
      ok := h.Run(IpsetAdd(blocklistName, ip));
    }
  }

  /** ipsetRemoveIP: removes a valid IP from the set; an invalid IP runs nothing and reports failure. */
  method IpsetRemoveIP(h: Host, ip: string, blocklistName: string, isIPValid: string -> bool) returns (ok: bool)
    modifies h
    ensures isIPValid(ip) ==>
      h.trace == old(h.trace) + [Ran(IpsetDel(blocklistName, ip))] &&
      (ok, h.sets) == Exec(old(h.sets), IpsetDel(blocklistName, ip), true)
    ensures !isIPValid(ip) ==> !ok && h.trace == old(h.trace) && h.sets == old(h.sets)
    ensures h.files == old(h.files)
  {
    ok := false;
    if isIPValid(ip) {
      ok := h.Run(IpsetDel(blocklistName, ip));
    }
  }

  /** flusIPset: empties the set named "blocklist", if there is one; the outcome is dropped. */
  method FlushIPset(h: Host)
    modifies h
    ensures h.trace == old(h.trace) + [Ran(IpsetFlush(FlushTarget))]
    ensures FlushTarget in old(h.sets) ==> h.sets == old(h.sets)[FlushTarget := {}]
    ensures FlushTarget !in old(h.sets) ==> h.sets == old(h.sets)
    ensures h.files == old(h.files)
  {
    var _ := h.Run(IpsetFlush(FlushTarget));
  }

  /** isIpsetInstalled: whether `ipset help` succeeds. */
  method IsIpsetInstalled(h: Host) returns (installed: bool)
    modifies h
    ensures installed == h.cmdOk(IpsetHelp)
    ensures h.trace == old(h.trace) + [Ran(IpsetHelp)]
    ensures h.sets == old(h.sets) && h.files == old(h.files)
  {
    installed := h.Run(IpsetHelp);
  }

  /** hasBlocklist */
  method HasBlocklist(h: Host, blocklistName: string) returns (has: bool)
    modifies h
    ensures has == (blocklistName in old(h.sets))
    ensures h.trace == old(h.trace) + [Ran(IpsetList(blocklistName))]
    ensures h.sets == old(h.sets) && h.files == old(h.files)
  {
    has := h.Run(IpsetList(blocklistName));
  }

  /** createBlocklist */
  method CreateBlocklist(h: Host, blocklistName: string) returns (ok: bool)
    modifies h
    ensures (ok, h.sets) == Exec(old(h.sets), IpsetCreate(blocklistName), h.cmdOk(IpsetCreate(blocklistName)))
    ensures h.trace == old(h.trace) + [Ran(IpsetCreate(blocklistName))]
    ensures h.files == old(h.files)
  {
    ok := h.Run(IpsetCreate(blocklistName));
  }

  /**
   * setupIPset: creates the set when it is missing. `exited` stands for
   * os.Exit(1) after a failed creation.
   */
  method SetupIPset(h: Host, blocklistName: string) returns (exited: bool)
    modifies h
    ensures exited <==> blocklistName !in old(h.sets) && !h.cmdOk(IpsetCreate(blocklistName))
    ensures !exited ==> blocklistName in h.sets
    ensures blocklistName in old(h.sets) ==>
      h.sets == old(h.sets) && h.trace == old(h.trace) + [Ran(IpsetList(blocklistName))]
    ensures blocklistName !in old(h.sets) ==>
      h.trace == old(h.trace) + [Ran(IpsetList(blocklistName)), Ran(IpsetCreate(blocklistName))] &&
      h.sets == if exited then old(h.sets) else old(h.sets)[blocklistName := {}]
    ensures h.files == old(h.files)
  {
    exited := false;
    var has := HasBlocklist(h, blocklistName);
    if !has {
      var created := CreateBlocklist(h, blocklistName);
      if !created {
        exited := true;
      }
    }
  }

  // ----- iptables -----

  /** An iptables invocation: `iptables -<action> <args>`. */
  datatype IptableCommand = IptableCommand(action: string, args: string)

  /**
   * runIptablesAction: unless the optional `ignCheck` flag is given and
   * true, probes with `iptables -C` first and runs the action only when the
   * probe fails. Reports false only when the action failed at a verbosity
   * above 2.
   */
  method RunIptablesAction(h: Host, cmd: IptableCommand, ignCheck: seq<bool>, verbose: int) returns (ok: bool)
    modifies h
    ensures var check := |ignCheck| == 0 || !ignCheck[0];
            var probe := Iptables("C", cmd.args);
            var act := Iptables(cmd.action, cmd.args);
            var runs := !check || !h.cmdOk(probe);
            h.trace == old(h.trace) + (if check then [Ran(probe)] else []) + (if runs then [Ran(act)] else []) &&
            (ok <==> !(runs && !h.cmdOk(act) && verbose > 2))
    ensures h.sets == old(h.sets) && h.files == old(h.files)
  {
    var run := false;
    if |ignCheck| == 0 || (|ignCheck| > 0 && !ignCheck[0]) {
      var found := h.Run(Iptables("C", cmd.args));
      if !found {
        run := true;
      }
    } else {
      run := true;
    }
    if run {
      var done := h.Run(Iptables(cmd.action, cmd.args));
      if !done && verbose > 2 {
        return false;
      }
    }
    return true;
  }

  /**
   * checkChain: lists the chain and creates it when listing fails. Reports
   * true only when both the listing and the creation failed.
   */
  method CheckChain(h: Host, name: string) returns (failed: bool)
    modifies h
    ensures failed <==> !h.cmdOk(Iptables("L", name)) && !h.cmdOk(Iptables("N", name))
    ensures h.trace == old(h.trace) + [Ran(Iptables("L", name))] +
      (if h.cmdOk(Iptables("L", name)) then [] else [Ran(Iptables("N", name))])
    ensures h.sets == old(h.sets) && h.files == old(h.files)
  {
    var listed := h.Run(Iptables("L", name));
    if !listed {
      var created := h.Run(Iptables("N", name));
      if !created {
        return true;
      }
    }
    return false;
  }
}
