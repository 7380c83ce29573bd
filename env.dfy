/**
 * The machine the program runs on: the kernel's ipset store, the file
 * system, and a trace of everything the program does to the outside world.
 * Commands are shell command lines (runCommand); their outcome is taken from
 * the ipset store where the store decides it, and from an oracle otherwise.
 */
module Env {
  import opened Records

  /** The external commands the program runs. */
  datatype Command =
    | IpsetHelp
    | IpsetList(name: string)
    | IpsetCreate(name: string)
    | IpsetAdd(name: string, ip: string)
    | IpsetDel(name: string, ip: string)
    | IpsetFlush(name: string)
    | IpsetSave(name: string, file: string)
    | Iptables(flag: string, args: string)
    | IptablesSave(file: string)

  /** The command line the program hands to the shell. */
  function CommandLine(c: Command): string {
    match c
    case IpsetHelp => "ipset help"
    case IpsetList(n) => "ipset list " + n
    case IpsetCreate(n) => "ipset create " + n + " nethash --maxelem 4000000"
    case IpsetAdd(n, ip) => "ipset add " + n + " " + ip
    case IpsetDel(n, ip) => "ipset del " + n + " " + ip
    case IpsetFlush(n) => "ipset flush " + n
    case IpsetSave(n, f) => "ipset save " + n + " > " + f
    case Iptables(flag, args) => "iptables -" + flag + " " + args
    case IptablesSave(f) => "iptables-save > " + f
  }

  /** File system operations that change something. */
  datatype FsOp =
    | MkdirAll(path: string)
    | Create(path: string)
    | Remove(path: string)
    | WriteFile(path: string, perm: int, size: nat)

  /** Everything the program does to the outside world, in order. */
  datatype Event =
    | Ran(cmd: Command)
    | Fs(op: FsOp)
    | Requested(host: string, endpoint: string, request: FetchRequest, ignoreCert: bool)
    | AskedInfo(host: string, endpoint: string, info: IPInfoRequest, ignoreCert: bool)
    | ConfigSaved(path: string, config: ConfigData)
    | RulesEnsured(name: string)

  /** Set name to members. */
  type IpsetState = map<string, set<string>>

  /**
   * Success and new ipset store after running `cmd`. `ipset add` refuses a
   * member, `ipset del` a non-member, and add, del, flush and list a missing
   * set; `ipset create` refuses an existing set and otherwise succeeds when
   * `permitted`; every other command succeeds when `permitted` and leaves the
   * store alone.
   */
  function Exec(sets: IpsetState, cmd: Command, permitted: bool): (r: (bool, IpsetState))
    ensures !r.0 ==> r.1 == sets
    ensures r.1.Keys == if r.0 && cmd.IpsetCreate? then sets.Keys + {cmd.name} else sets.Keys
    ensures !(cmd.IpsetCreate? || cmd.IpsetAdd? || cmd.IpsetDel? || cmd.IpsetFlush?) ==> r.1 == sets
  {
    match cmd
    case IpsetList(n) => (n in sets, sets)
    case IpsetCreate(n) => if n !in sets && permitted then (true, sets[n := {}]) else (false, sets)
    case IpsetAdd(n, ip) =>
      if n in sets && ip !in sets[n] then (true, sets[n := sets[n] + {ip}]) else (false, sets)
    case IpsetDel(n, ip) =>
      if n in sets && ip in sets[n] then (true, sets[n := sets[n] - {ip}]) else (false, sets)
    case IpsetFlush(n) => if n in sets then (true, sets[n := {}]) else (false, sets)
    case _ => (permitted, sets)
  }

  /** Whether `op` succeeds: removing needs the file; all operations need the oracle's consent. */
  function FsSucceeds(files: map<string, int>, op: FsOp, permitted: bool): bool {
    permitted && (op.Remove? ==> op.path in files)
  }

  /** The file system after `op` succeeded. A directory is an entry like a file. */
  function FsApply(files: map<string, int>, op: FsOp): (r: map<string, int>)
    ensures r.Keys == if op.Remove? then files.Keys - {op.path} else files.Keys + {op.path}
    ensures forall p :: p in files && p != op.path ==> r[p] == files[p]
  {
    match op
    case MkdirAll(p) => files[p := 0]
    case Create(p) => files[p := 0]
    case Remove(p) => files - {p}
    case WriteFile(p, _, size) => files[p := size]
  }

  /** The machine. */
  class Host {
    var sets: IpsetState
    var files: map<string, int>
    var trace: seq<Event>
    /** Whether a command succeeds, where the ipset store does not decide it. */
    const cmdOk: Command -> bool
    /** Whether a file system operation is permitted. */
    const fsOk: FsOp -> bool
    /** Whether createIPtableRules succeeds for a set. */
    const rulesOk: string -> bool

    constructor (sets0: IpsetState, files0: map<string, int>,
                 cmdOk: Command -> bool, fsOk: FsOp -> bool, rulesOk: string -> bool)
      ensures sets == sets0 && files == files0 && trace == []
      ensures this.cmdOk == cmdOk && this.fsOk == fsOk && this.rulesOk == rulesOk
    {
      sets, files, trace := sets0, files0, [];
      this.cmdOk, this.fsOk, this.rulesOk := cmdOk, fsOk, rulesOk;
    }

    /** os.Stat succeeds. */
    predicate Exists(p: string)
      reads this
    {
      p in files
    }

    /** runCommand: runs `cmd` and reports whether it succeeded. */
    method Run(cmd: Command) returns (ok: bool)
      modifies this
      ensures (ok, sets) == Exec(old(sets), cmd, cmdOk(cmd))
      ensures files == old(files) && trace == old(trace) + [Ran(cmd)]
    {
      var r := Exec(sets, cmd, cmdOk(cmd));
      ok, sets := r.0, r.1;
      trace := trace + [Ran(cmd)];
    }

    /** A file system operation that changes something. */
    method Do(op: FsOp) returns (ok: bool)
      modifies this
      ensures ok == FsSucceeds(old(files), op, fsOk(op))
      ensures files == if ok then FsApply(old(files), op) else old(files)
      ensures sets == old(sets) && trace == old(trace) + [Fs(op)]
    {
      ok := FsSucceeds(files, op, fsOk(op));
      if ok {
        files := FsApply(files, op);
      }
      trace := trace + [Fs(op)];
    }

    /** An outside action whose outcome the program ignores (a request, c.save). */
    method Note(e: Event)
      requires e.Requested? || e.AskedInfo? || e.ConfigSaved?
      modifies this
      ensures sets == old(sets) && files == old(files) && trace == old(trace) + [e]
    {
      trace := trace + [e];
    }

    /** createIPtableRules: makes sure iptables drops what the set holds. */
    method EnsureRules(name: string) returns (ok: bool)
      modifies this
      ensures ok == rulesOk(name)
      ensures sets == old(sets) && files == old(files) && trace == old(trace) + [RulesEnsured(name)]
    {
      ok := rulesOk(name);
      trace := trace + [RulesEnsured(name)];
    }
  }
}
