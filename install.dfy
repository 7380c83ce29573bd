/**
 * Install.go: the `install` wizard. It asks its questions in order, checks
 * the period, and turns the answers into a command, a description and a
 * crontab(5) line (with Vixie cron's `*\/N` step and `@reboot`), then
 * appends them to root's crontab.
 */
module Install {
  import opened Wrappers
  import opened Text

  /** What WaitForMessage returns: a status (1 when a line was read) and the line. */
  datatype Answer = Answer(status: int, text: string)

  /** The answer to the `k`-th question; a question past the end of the input reads nothing (status -1). */
  function Ask(answers: seq<Answer>, k: nat): Answer {
    if k < |answers| then answers[k] else Answer(-1, "")
  }

  // ----- the period -----

  /** A run period: after boot, or every `minutes` minutes as typed (`raw`). */
  datatype Period = Reboot | Every(raw: string, minutes: int)

  /** The period check: "@reboot", or text strconv.Atoi reads as a number from 0 to 59. */
  function ParsePeriod(text: string): (r: Option<Period>)
    ensures r == Some(Reboot) <==> text == "@reboot"
    ensures r.Some? && r.value.Every? ==>
      r.value.raw == text && Atoi(text) == Some(r.value.minutes) && 0 <= r.value.minutes <= 59
  {
    if text == "@reboot" then Some(Reboot)
    else
      match Atoi(text)
      case None => None
      case Some(n) => if n < 0 || n > 59 then None else Some(Every(text, n))
  }

  /** The value of an optionally signed digit string. */
  function SignedValue(sign: string, d: string): int
    requires AllDigits(d)
  {
    if sign == "-" then -(DecimalValue(d) as int) else DecimalValue(d)
  }

  /** `text` is a sign ("", "+" or "-") followed by digits whose value lies in 0..59. */
  ghost predicate MinuteText(text: string, sign: string, d: string) {
    sign in {"", "+", "-"} && text == sign + d && d != "" && AllDigits(d) && 0 <= SignedValue(sign, d) <= 59
  }

  /**
   * A period is accepted exactly when it is "@reboot" or an optionally
   * signed digit string whose value lies in 0..59.
   */
  lemma PeriodAccepted(text: string)
    ensures ParsePeriod(text).Some? <==> text == "@reboot" || exists sign, d :: MinuteText(text, sign, d)
  {
    if text != "@reboot" && ParsePeriod(text).Some? {
      AcceptedIsMinuteText(text);
    }
    if exists sign, d :: MinuteText(text, sign, d) {
      var sign, d :| MinuteText(text, sign, d);
      MinuteTextAccepted(text, sign, d);
    }
  }

  /** An accepted period other than "@reboot" is a signed digit string in 0..59. */
  lemma AcceptedIsMinuteText(text: string)
    requires text != "@reboot" && ParsePeriod(text).Some?
    ensures exists sign, d :: MinuteText(text, sign, d)
  {
    AtoiAccepts(text);
    var sign, d :| sign in {"", "+", "-"} && text == sign + d && d != "" && AllDigits(d) &&
      MinInt64 <= SignedValue(sign, d) <= MaxInt64;
    AtoiValue(text, sign, d);
    assert MinuteText(text, sign, d);
  }

  /** A signed digit string in 0..59 is accepted. */
  lemma MinuteTextAccepted(text: string, sign: string, d: string)
    requires MinuteText(text, sign, d)
    ensures ParsePeriod(text).Some?
  {
    AtoiValue(text, sign, d);
  }

  /** What Atoi reads from a sign and digits. */
  lemma AtoiValue(text: string, sign: string, d: string)
    requires sign in {"", "+", "-"} && text == sign + d && d != "" && AllDigits(d)
    requires MinInt64 <= SignedValue(sign, d) <= MaxInt64
    ensures Atoi(text) == Some(SignedValue(sign, d))
  {
    if sign == "" {
      assert text == d;
      assert IsDigit(text[0]);
    } else {
      assert text[0] == sign[0] && text[1..] == d;
    }
  }

  /** Every minute count from 0 to 59, written as Itoa writes it, is accepted with its value. */
  lemma MinutesAccepted(n: int)
    requires 0 <= n <= 59
    ensures ParsePeriod(Itoa(n)) == Some(Every(Itoa(n), n))
  {
    AtoiItoa(n);
    assert Itoa(n) != "@reboot" by {
      assert IsDigit(Itoa(n)[0]);
    }
  }

  /** The period part of a description: "after boot", or "every N minutes" with the "s" dropped when N <= 1. */
  function PeriodDescription(p: Period): string {
    match p
    case Reboot => "after boot"
    case Every(raw, n) =>
      var s := "every " + raw + " minutes";
      if n <= 1 then s[..|s| - 1] else s
  }

  /** The singular is used for at most one minute, the plural otherwise. */
  lemma DescriptionPlural(raw: string, n: int)
    ensures PeriodDescription(Every(raw, n)) == "every " + raw + (if n <= 1 then " minute" else " minutes")
  {
    var s := "every " + raw + " minutes";
    if n <= 1 {
      assert s[..|s| - 1] == "every " + raw + " minute";
    }
  }

  // ----- the crontab line -----

  /** crontabReboot and crontabPeriodically: the line for root's crontab, using the period as typed. */
  function CronLine(p: Period, file: string, addCmd: string): string {
    match p
    case Reboot => "@reboot " + CronCommand(file, addCmd)
    case Every(raw, _) => "*/" + raw + " * * * * " + CronCommand(file, addCmd)
  }

  /** The command part of a crontab line: the binary, its arguments, output discarded. */
  function CronCommand(file: string, addCmd: string): string {
    file + " " + addCmd + " > /dev/null"
  }

  /**
   * A periodic line begins with the five time fields of crontab(5), the
   * minute field being the step `*\/N` with N as typed; a reboot line
   * begins with the `@reboot` keyword. The command follows in both.
   */
  lemma CronLineFields(p: Period, file: string, addCmd: string)
    requires p.Every? ==> ' ' !in p.raw
    ensures var fields := Split(CronLine(p, file, addCmd), " ");
      var rest := CronCommand(file, addCmd);
      match p
      case Reboot => fields == ["@reboot"] + Split(rest, " ")
      case Every(raw, _) => fields == ["*/" + raw, "*", "*", "*", "*"] + Split(rest, " ")
  {
    var rest := CronCommand(file, addCmd);
    match p
    case Reboot =>
      assert "@reboot " + rest == "@reboot" + [' '] + rest;
      SplitAtFirst("@reboot", ' ', rest);
    case Every(raw, _) =>
      PeriodicFields(raw, rest);
  }

  /** The five time fields of a periodic line. */
  lemma PeriodicFields(raw: string, rest: string)
    requires ' ' !in raw
    ensures Split("*/" + raw + " * * * * " + rest, " ") == ["*/" + raw, "*", "*", "*", "*"] + Split(rest, " ")
  {
    var r1 := Stars(4, rest);
    assert ' ' !in "*/" + raw;
    assert StarFields(4) == ["*", "*", "*", "*"];
    calc {
      Split("*/" + raw + " * * * * " + rest, " ");
      { PeriodicLineShape(raw, rest); }
      Split(("*/" + raw) + [' '] + r1, " ");
      { SplitAtFirst("*/" + raw, ' ', r1); }
      ["*/" + raw] + Split(r1, " ");
      { StarsSplit(4, rest); }
      ["*/" + raw] + (StarFields(4) + Split(rest, " "));
      { AppendAssoc(["*/" + raw], StarFields(4), Split(rest, " ")); }
      ["*/" + raw, "*", "*", "*", "*"] + Split(rest, " ");
    }
  }

  /** `n` star fields, each followed by a space, in front of `rest`. */
  function Stars(n: nat, rest: string): string {
    if n == 0 then rest else "*" + [' '] + Stars(n - 1, rest)
  }

  /** The four star fields of a periodic line, written with Stars. */
  lemma PeriodicLineShape(raw: string, rest: string)
    ensures "*/" + raw + " * * * * " + rest == ("*/" + raw) + [' '] + Stars(4, rest)
  {
    assert Stars(1, rest) == ['*', ' '] + rest;
    assert Stars(2, rest) == ['*', ' ', '*', ' '] + rest;
    assert Stars(3, rest) == ['*', ' ', '*', ' ', '*', ' '] + rest;
    assert Stars(4, rest) == ['*', ' ', '*', ' ', '*', ' ', '*', ' '] + rest;
    assert " * * * * " == [' '] + ['*', ' ', '*', ' ', '*', ' ', '*', ' '];
  }

  /** `n` fields holding "*". */
  function StarFields(n: nat): seq<string> {
    if n == 0 then [] else ["*"] + StarFields(n - 1)
  }

  /** Star fields split into one "*" each. */
  lemma {:induction false} StarsSplit(n: nat, rest: string)
    ensures Split(Stars(n, rest), " ") == StarFields(n) + Split(rest, " ")
  {
    if n == 0 {
      assert StarFields(n) + Split(rest, " ") == Split(rest, " ");
    } else {
      var s := Stars(n - 1, rest);
      calc {
        Split(Stars(n, rest), " ");
        Split("*" + [' '] + s, " ");
        { StarStep(s); }
        ["*"] + Split(s, " ");
        { StarsSplit(n - 1, rest); }
        ["*"] + (StarFields(n - 1) + Split(rest, " "));
        { AppendAssoc(["*"], StarFields(n - 1), Split(rest, " ")); }
        StarFields(n) + Split(rest, " ");
      }
    }
  }

  /** One star field splits off as "*". */
  lemma StarStep(s: string)
    ensures Split("*" + [' '] + s, " ") == ["*"] + Split(s, " ")
  {
    SplitAtFirst("*", ' ', s);
  }

  /** The text writeCrontab appends: a blank line, the description as a comment, and the line. */
  function CrontabEntry(cronCommand: string, description: string): string {
    "\n# " + description + "\n" + cronCommand + "\n"
  }

  /** An entry reads back as exactly four lines: blank, the comment, the command, and an empty rest. */
  lemma CrontabEntryLines(cronCommand: string, description: string)
    requires '\n' !in cronCommand && '\n' !in description
    ensures Split(CrontabEntry(cronCommand, description), "\n") == ["", "# " + description, cronCommand, ""]
  {
    var comment := "# " + description;
    assert '\n' !in comment;
    assert CrontabEntry(cronCommand, description) == "" + ['\n'] + (comment + ['\n'] + (cronCommand + ['\n'] + ""));
    SplitAtFirst("", '\n', comment + ['\n'] + (cronCommand + ['\n'] + ""));
    SplitAtFirst(comment, '\n', cronCommand + ['\n'] + "");
    SplitAtFirst(cronCommand, '\n', "");
  }

  /** Root's crontab file: its text, whether it exists, and whether it may be opened for writing. */
  class Crontab {
    var content: string
    var present: bool
    const writable: bool

    constructor (content0: string, present0: bool, writable: bool)
      ensures content == content0 && present == present0 && this.writable == writable
    {
      content, present := content0, present0;
      this.writable := writable;
    }

    /** writeCrontab: appends the entry; opening fails when the file is missing or not writable. */
    method WriteCrontab(cronCommand: string, description: string) returns (failed: bool)
      modifies this
      ensures failed == !(old(present) && writable)
      ensures content == old(content) + (if failed then "" else CrontabEntry(cronCommand, description))
      ensures present == old(present)
    {
      if !present || !writable {
        return true;
      }
      content := content + CrontabEntry(cronCommand, description);
      return false;
    }
  }

  // ----- the wizard -----

  /** What the wizard settles on: the program's arguments, the comment and the crontab line. */
  datatype Plan = Plan(command: string, description: string, cronLine: string)

  /** How a wizard ends: with a plan or without one, after asking `asked` questions. */
  datatype Outcome = Outcome(plan: Option<Plan>, asked: nat)

  /** The backup-or-restore question of setIP, read in lower case. */
  function IPMode(a: Answer): Option<string> {
    if a.status != 1 then None
    else
      var opt := ToLower(a.text);
      if opt == "b" then Some("backup") else if opt == "r" then Some("restore") else None
  }

  /** setIP's option: the arguments added to the mode and the start of the description. */
  function IPAction(mode: string, opt: string): Option<(string, string)> {
    if opt == "1" then Some((mode + " -s", mode + " IPset "))
    else if opt == "2" then Some((mode + " -t -s=false", mode + " IPtables "))
    else if opt == "3" then Some((mode + " -s -t", mode + " IPset and IPtables "))
    else None
  }

  /**
   * setIP: asks for the mode, the option and the period, in that order,
   * and rejects an unknown option only after the period was asked.
   */
  function SetIP(answers: seq<Answer>, file: string): Outcome {
    var modeAnswer := Ask(answers, 0);
    match IPMode(modeAnswer)
    case None => Outcome(None, 1)
    case Some(mode) =>
      var what := Ask(answers, 1);
      if what.status != 1 then Outcome(None, 2)
      else
        var period := Ask(answers, 2);
        if period.status != 1 then Outcome(None, 3)
        else
          match ParsePeriod(period.text)
          case None => Outcome(None, 3)
          case Some(p) =>
            match IPAction(mode, what.text)
            case None => Outcome(None, 3)
            case Some((addCmd, lead)) =>
              Outcome(Some(Plan(addCmd, lead + PeriodDescription(p), CronLine(p, file, addCmd))), 3)
  }

  /** setTripwire's option: the program's arguments and the start of the description. */
  function TripwireAction(opt: string, c: string): Option<(string, string)> {
    if opt == "1" then Some(("u -C=\"" + c + "\"", "Fetch and block IPs from server "))
    else if opt == "3" then Some(("r -u -C=\"" + c + "\"", "Report IPs using tripwire AND Fetch and block IPs "))
    else if opt == "2" then Some(("r -C=\"" + c + "\"", "Report IPs only (No blocking) "))
    else None
  }

  /**
   * setTripwire: stops when the configuration `config` is missing; asks how
   * to act and rejects options other than 1, 2 and 3 at once; for options 1
   * and 3 asks whether to update the filter; then asks for the period.
   */
  function SetTripwire(answers: seq<Answer>, c: string, config: string, configExists: bool, file: string): Outcome {
    if !configExists then Outcome(None, 0)
    else
      var act := Ask(answers, 0);
      if act.status != 1 then Outcome(None, 1)
      else if act.text != "1" && act.text != "2" && act.text != "3" then Outcome(None, 1)
      else
        var k := if act.text != "2" then 2 else 1;
        var period := Ask(answers, k);
        if period.status != 1 then Outcome(None, k + 1)
        else
          match ParsePeriod(period.text)
          case None => Outcome(None, k + 1)
          case Some(p) =>
            match TripwireAction(act.text, c)
            case None => Outcome(None, k + 1)
            case Some((addCmd, lead)) =>
              var description := lead + PeriodDescription(p) + " (using \"" + config + "\" as configuration)";
              Outcome(Some(Plan(addCmd, description, CronLine(p, file, addCmd))), k + 1)
  }

  /**
   * installCMD.Fn after the root check: "t" (either case) goes to
   * setTripwire, "i" to setIP; anything else, or a failed read, ends the
   * wizard. `file` is the program's path (os.Executable).
   */
  function InstallWizard(answers: seq<Answer>, c: string, config: string, configExists: bool, file: string): Outcome {
    var first := Ask(answers, 0);
    var rest := if |answers| > 0 then answers[1..] else [];
    if first.status != 1 then Outcome(None, 1)
    else
      var text := ToLower(first.text);
      if text == "t" then
        var o := SetTripwire(rest, c, config, configExists, file);
        Outcome(o.plan, o.asked + 1)
      else if text == "i" then
        var o := SetIP(rest, file);
        Outcome(o.plan, o.asked + 1)
      else Outcome(None, 1)
  }

  /** Only "t", "T", "i", "I" or the dotted capital I, read successfully, gets past the first menu. */
  lemma FirstMenuGate(answers: seq<Answer>, c: string, config: string, configExists: bool, file: string)
    ensures var first := Ask(answers, 0);
      InstallWizard(answers, c, config, configExists, file).asked > 1 ==>
        first.status == 1 && first.text in {"t", "T", "i", "I", [DottedCapitalI]}
  {
    var first := Ask(answers, 0);
    ToLowerOneLetter(first.text, 't');
    ToLowerOneLetter(first.text, 'i');
  }

  /** setIP maps its options to the arguments of the backup or restore command; other options install nothing. */
  lemma SetIPOptions(answers: seq<Answer>, file: string)
    requires IPMode(Ask(answers, 0)).Some? && Ask(answers, 1).status == 1 && Ask(answers, 2).status == 1
    requires ParsePeriod(Ask(answers, 2).text).Some?
    ensures var mode, opt := IPMode(Ask(answers, 0)).value, Ask(answers, 1).text;
      var plan := SetIP(answers, file).plan;
      (opt == "1" ==> plan.Some? && plan.value.command == mode + " -s") &&
      (opt == "2" ==> plan.Some? && plan.value.command == mode + " -t -s=false") &&
      (opt == "3" ==> plan.Some? && plan.value.command == mode + " -s -t") &&
      (opt !in {"1", "2", "3"} ==> plan.None?)
  {
  }

  /**
   * setTripwire stops at once without a configuration; otherwise options 1,
   * 3 and 2 give `u`, `r -u` and `r` with the configuration name, after the
   * filter confirmation for options 1 and 3, and the description names the
   * configuration file.
   */
  lemma SetTripwireOptions(answers: seq<Answer>, c: string, config: string, configExists: bool, file: string)
    ensures !configExists ==> SetTripwire(answers, c, config, configExists, file) == Outcome(None, 0)
    ensures var opt := Ask(answers, 0).text;
      var k := if opt == "2" then 1 else 2;
      configExists && Ask(answers, 0).status == 1 && opt in {"1", "2", "3"} &&
      Ask(answers, k).status == 1 && ParsePeriod(Ask(answers, k).text).Some? ==>
        var p := ParsePeriod(Ask(answers, k).text).value;
        var o := SetTripwire(answers, c, config, configExists, file);
        var using := " (using \"" + config + "\" as configuration)";
        o.asked == k + 1 && o.plan.Some? &&
        o.plan.value.cronLine == CronLine(p, file, o.plan.value.command) &&
        (opt == "1" ==> o.plan.value.command == "u -C=\"" + c + "\"" &&
                        o.plan.value.description == "Fetch and block IPs from server " + PeriodDescription(p) + using) &&
        (opt == "3" ==> o.plan.value.command == "r -u -C=\"" + c + "\"" &&
                        o.plan.value.description == "Report IPs using tripwire AND Fetch and block IPs " + PeriodDescription(p) + using) &&
        (opt == "2" ==> o.plan.value.command == "r -C=\"" + c + "\"" &&
                        o.plan.value.description == "Report IPs only (No blocking) " + PeriodDescription(p) + using)
  {
    var act := Ask(answers, 0);
    var k := if act.text == "2" then 1 else 2;
    if configExists && act.status == 1 && act.text in {"1", "2", "3"} &&
       Ask(answers, k).status == 1 && ParsePeriod(Ask(answers, k).text).Some? {
      var p := ParsePeriod(Ask(answers, k).text).value;
      var action := TripwireAction(act.text, c);
      assert action.Some?;
      var using := " (using \"" + config + "\" as configuration)";
      var description := action.value.1 + PeriodDescription(p) + " (using \"" + config + "\" as configuration)";
      assert description == action.value.1 + PeriodDescription(p) + using;
      assert SetTripwire(answers, c, config, configExists, file) ==
        Outcome(Some(Plan(action.value.0, description, CronLine(p, file, action.value.0))), k + 1);
    }
  }

  /** setIP asks for the period even when the option is unknown; setTripwire rejects such an option first. */
  lemma UnknownOptionPrompts(tripwire: seq<Answer>, ip: seq<Answer>, c: string, config: string, file: string)
    ensures Ask(tripwire, 0).status == 1 && Ask(tripwire, 0).text !in {"1", "2", "3"} ==>
      SetTripwire(tripwire, c, config, true, file) == Outcome(None, 1)
    ensures IPMode(Ask(ip, 0)).Some? && Ask(ip, 1).status == 1 && Ask(ip, 1).text !in {"1", "2", "3"} ==>
      SetIP(ip, file) == Outcome(None, 3)
  {
  }

  /**
   * Every plan the wizard produces has a period that passed the check, and
   * its crontab line is built from that period as typed.
   */
  lemma PlansHaveValidPeriod(answers: seq<Answer>, c: string, config: string, configExists: bool, file: string)
    ensures var o := InstallWizard(answers, c, config, configExists, file);
      o.plan.Some? ==>
        var text := Ask(answers, o.asked - 1).text;
        exists p :: ParsePeriod(text) == Some(p) && o.plan.value.cronLine == CronLine(p, file, o.plan.value.command)
  {
    var o := InstallWizard(answers, c, config, configExists, file);
    if o.plan.Some? {
      var rest := answers[1..];
      assert forall k: nat :: Ask(rest, k) == Ask(answers, k + 1);
      var text := Ask(answers, o.asked - 1).text;
      var p :| ParsePeriod(text) == Some(p) && o.plan.value.cronLine == CronLine(p, file, o.plan.value.command);
    }
  }

  /**
   * installCMD.Fn: without root nothing is asked and nothing is written;
   * otherwise setIP or setTripwire, followed by crontab's write: the plan,
   * and the crontab with the plan's entry appended when one was made and the
   * file could be opened. Restarting cron is not modelled.
   */
  method RunInstall(cron: Crontab, isRoot: bool, answers: seq<Answer>, c: string, config: string,
                    configExists: bool, file: string)
    returns (o: Outcome, failed: bool)
    modifies cron
    ensures !isRoot ==> o == Outcome(None, 0)
    ensures isRoot ==> o == InstallWizard(answers, c, config, configExists, file)
    ensures o.plan.None? ==> !failed && cron.content == old(cron.content)
    ensures o.plan.Some? ==>
      failed == !(old(cron.present) && cron.writable) &&
      cron.content == old(cron.content) +
        (if failed then "" else CrontabEntry(o.plan.value.cronLine, o.plan.value.description))
    ensures cron.present == old(cron.present)
  {
    failed := false;
    if !isRoot {
      return Outcome(None, 0), false;
    }
    o := InstallWizard(answers, c, config, configExists, file);
    if o.plan.Some? {
      failed := cron.WriteCrontab(o.plan.value.cronLine, o.plan.value.description);
    }
  }
}
