/**
 * What ExifRenamer.rb does with the commands it decides on: `echo` writes
 * each one to standard error behind `### ` unless `$QUIET` is set, and
 * `system` runs it unless `$DRYRUN` is set (lines 14-18, 49-50, 71-72,
 * 77-78, 108-109); the paths are handled in order and an exception ends the
 * run with status 1 (lines 134-143).
 */
module Driver {
  import opened Renamer

  const DATE_FORMAT := "%Y-%m-%d_%H-%M-%S"

  /** The program a command starts. */
  function Program(a: Action): string {
    match a
    case Rename(_, _) => "mv"
    case WriteTags(_, _) => "exiftool"
    case SetFileDates(_, _) => "setfile"
    case SetItemTimes(_, _) => "powershell"
  }

  /** The value an action sets: the new path, the tag value or the time. */
  function Payload(a: Action): string {
    match a
    case Rename(_, to) => to
    case WriteTags(_, value) => value
    case SetFileDates(_, time) => time
    case SetItemTimes(_, time) => time
  }

  /** `s` occurs in `r`. */
  predicate Mentions(r: string, s: string) {
    exists k :: 0 <= k <= |r| && s <= r[k..]
  }

  /** A command line: the program, a space, and arguments that embed `x`
      and then `y` between fixed texts. */
  function Line(program: string, p1: string, x: string, p2: string, y: string, p3: string): (r: string)
    ensures program + " " <= r
    ensures Mentions(r, x) && Mentions(r, y)
  {
    var r := program + " " + p1 + x + p2 + y + p3;
    var i := |program| + 1 + |p1|;
    var j := i + |x| + |p2|;
    assert r[..|program| + 1] == program + " ";
    assert x <= r[i..] by {
      assert r[i..i + |x|] == x;
    }
    assert y <= r[j..] by {
      assert r[j..j + |y|] == y;
    }
    r
  }

  /** The command line handed to `echo` and `system` (lines 48, 70, 76, 94
      and 103-104): the program the action calls for, then arguments that
      name the file it acts on and the value it sets. */
  function Command(a: Action): (r: string)
    ensures Program(a) + " " <= r
    ensures Mentions(r, Subject(a)) && Mentions(r, Payload(a))
  {
    match a
    case Rename(from, to) =>
      Line(Program(a), "\"", from, "\" \"", to, "\"")
    case WriteTags(path, value) =>
      Line(Program(a), "-F -d '" + DATE_FORMAT + "' -DateTimeOriginal=\"", value,
        "\" -CreateDate=\"" + value + "\" -ModifyDate=\"" + value + "\" -overwrite_original \"", path, "\"")
    case SetFileDates(path, time) =>
      Line(Program(a), "-d \"", time, "\" \"", path, "\"; setfile -m \"" + time + "\" \"" + path + "\"")
    case SetItemTimes(path, time) =>
      Line(Program(a), "-NoProfile -ExecutionPolicy Unrestricted \"Set-ItemProperty '", path,
        "' -name CreationTime -value '", time,
        "'; Set-ItemProperty '" + path + "' -name LastWriteTime -value '" + time + "';\"")
  }

  /** The command lines of the actions, in order. */
  function Commands(actions: seq<Action>): (r: seq<string>)
    ensures |r| == |actions|
  {
    if actions == [] then [] else [Command(actions[0])] + Commands(actions[1..])
  }

  lemma {:induction false} CommandsAt(actions: seq<Action>, i: nat)
    requires i < |actions|
    ensures Commands(actions)[i] == Command(actions[i])
  {
    if i > 0 {
      CommandsAt(actions[1..], i - 1);
    }
  }

  /** The line `echo` writes for a message. */
  function EchoLine(message: string): (r: string)
    ensures "### " <= r && |r| == |message| + 4 && r[4..] == message
  {
    "### " + message
  }

  /** What `echo` writes for each of the messages in turn: nothing when
      quiet. */
  function Echoed(quiet: bool, messages: seq<string>): (r: seq<string>)
    ensures quiet ==> r == []
    ensures !quiet ==> |r| == |messages|
  {
    if quiet || messages == [] then [] else [EchoLine(messages[0])] + Echoed(quiet, messages[1..])
  }

  /** Unless quiet, the i-th line is the i-th message behind `### `. */
  lemma {:induction false} EchoedAt(quiet: bool, messages: seq<string>, i: nat)
    requires !quiet && i < |messages|
    ensures "### " <= Echoed(quiet, messages)[i] && Echoed(quiet, messages)[i][4..] == messages[i]
  {
    if i > 0 {
      EchoedAt(quiet, messages[1..], i - 1);
    }
  }

  lemma {:induction false} CommandsAppend(xs: seq<Action>, ys: seq<Action>)
    ensures Commands(xs + ys) == Commands(xs) + Commands(ys)
  {
    if xs == [] {
      assert xs + ys == ys;
    } else {
      assert (xs + ys)[1..] == xs[1..] + ys;
      CommandsAppend(xs[1..], ys);
    }
  }

  lemma {:induction false} EchoedAppend(quiet: bool, xs: seq<string>, ys: seq<string>)
    ensures Echoed(quiet, xs + ys) == Echoed(quiet, xs) + Echoed(quiet, ys)
  {
    if quiet {
    } else if xs == [] {
      assert xs + ys == ys;
    } else {
      assert (xs + ys)[1..] == xs[1..] + ys;
      EchoedAppend(quiet, xs[1..], ys);
    }
  }

  /** What a run has shown so far, followed by the next file's commands, is
      what the longer run shows. */
  lemma ShownStep(quiet: bool, dryRun: bool, log: seq<string>, executed: seq<string>, done: seq<Action>, more: seq<Action>)
    ensures log + Echoed(quiet, Commands(done)) + Echoed(quiet, Commands(more)) ==
      log + Echoed(quiet, Commands(done + more))
    ensures executed + (if dryRun then [] else Commands(done)) + (if dryRun then [] else Commands(more)) ==
      executed + (if dryRun then [] else Commands(done + more))
  {
    var xs, ys := Commands(done), Commands(more);
    CommandsAppend(done, more);
    EchoedAppend(quiet, xs, ys);
    assert log + Echoed(quiet, xs) + Echoed(quiet, ys) == log + (Echoed(quiet, xs) + Echoed(quiet, ys));
    assert executed + xs + ys == executed + (xs + ys);
  }

  /** The two switches and what the script leaves behind: the lines on
      standard error and the commands run, each in order. */
  class Executor {
    const dryRun: bool
    const quiet: bool
    var log: seq<string>
    var executed: seq<string>

    constructor(dryRun: bool, quiet: bool)
      ensures this.dryRun == dryRun && this.quiet == quiet
      ensures log == [] && executed == []
    {
      this.dryRun := dryRun;
      this.quiet := quiet;
      log := [];
      executed := [];
    }

    /** `echo`: the message behind `### ` on standard error, unless quiet. */
    method Echo(message: string)
      modifies this
      ensures log == old(log) + Echoed(quiet, [message])
      ensures executed == old(executed)
    {
      if !quiet {
        log := log + [EchoLine(message)];
      }
    }

    /** `echo(cmd)` followed by `system(cmd) unless $DRYRUN`. */
    method Issue(cmd: string)
      modifies this
      ensures log == old(log) + Echoed(quiet, [cmd])
      ensures executed == old(executed) + if dryRun then [] else [cmd]
    {
      Echo(cmd);
      if !dryRun {
        executed := executed + [cmd];
      }
    }

    /** The log and the executed commands are the earlier ones followed by
        what issuing `cmds` shows and runs. */
    ghost predicate Shows(log0: seq<string>, executed0: seq<string>, cmds: seq<string>)
      reads this
    {
      log == log0 + Echoed(quiet, cmds) && executed == executed0 + (if dryRun then [] else cmds)
    }

    /** The commands of one file issued one after the other: `echo(cmd)`
        and `system(cmd) unless $DRYRUN` for each (at most two per file). */
    method IssueAll(cmds: seq<string>)
      requires |cmds| <= 2
      modifies this
      ensures log == old(log) + Echoed(quiet, cmds)
      ensures executed == old(executed) + (if dryRun then [] else cmds)
    {
      if |cmds| == 0 {
        assert Echoed(quiet, cmds) == [];
      } else if |cmds| == 1 {
        Issue(cmds[0]);
        assert cmds == [cmds[0]];
      } else {
        Issue(cmds[0]);
        Issue(cmds[1]);
        assert cmds == [cmds[0]] + [cmds[1]];
        EchoedAppend(quiet, [cmds[0]], [cmds[1]]);
      }
    }

    /** One more file's commands issued after those of the files before. */
    method Advance(ghost log0: seq<string>, ghost executed0: seq<string>, ghost done: seq<Action>, actions: seq<Action>)
      requires |actions| <= 2
      requires Shows(log0, executed0, Commands(done))
      modifies this
      ensures Shows(log0, executed0, Commands(done + actions))
    {
      IssueAll(Commands(actions));
      ShownStep(quiet, dryRun, log0, executed0, done, actions);
    }

    /** Lines 134-143: every path in order; an exception stops the loop and
        the script exits with status 1, otherwise with 0. Dry run or not,
        standard error shows the same lines. */
    method RunAll(mode: Mode, force: bool, env: Env, files: seq<FileFacts>) returns (status: int)
      modifies this
      ensures var p := Schedule(mode, force, env, files);
        && status == (if p.aborted then 1 else 0)
        && log == old(log) + Echoed(quiet, Commands(p.actions))
        && executed == old(executed) + (if dryRun then [] else Commands(p.actions))
    {
      status := RunOutcomes(Outcomes(mode, force, env, files));
    }

    /** The loop of lines 134-138 over the files' outcomes, with the rescue
        of lines 139-143. */
    method RunOutcomes(outcomes: seq<Outcome>) returns (status: int)
      requires forall i :: 0 <= i < |outcomes| && outcomes[i].Proceed? ==> |outcomes[i].actions| <= 2
      modifies this
      ensures var p := Run(outcomes);
        && status == (if p.aborted then 1 else 0)
        && log == old(log) + Echoed(quiet, Commands(p.actions))
        && executed == old(executed) + (if dryRun then [] else Commands(p.actions))
    {
      var i := 0;
      ghost var done: seq<Action> := [];
      while i < |outcomes| && outcomes[i].Proceed?
        invariant 0 <= i <= |outcomes|
        invariant Run(outcomes[..i]) == Plan(done, false)
        invariant Shows(old(log), old(executed), Commands(done))
      {
        var actions := outcomes[i].actions;
        RunStep(outcomes, i);
        Advance(old(log), old(executed), done, actions);
        done := done + actions;
        i := i + 1;
      }
      if i < |outcomes| {
        RunStep(outcomes, i);
        RunEndsAtAbort(outcomes, i);
        status := 1;
      } else {
        assert outcomes[..i] == outcomes;
        status := 0;
      }
    }
  }
}
