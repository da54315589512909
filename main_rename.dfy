/**
  `conda rename`: check that the source environment may be renamed and that the
  destination is free, then clone the source to the destination and remove the
  source, in that order, or only print those two actions in a dry run.

  The clone itself (`install.clone`), `rm_rf` and `rename_context` are outside
  this model: an action is a transition of the host's state whose only visible
  effect is on which prefixes exist.
 */
module MainRename {
  import opened Wrappers

  /** conda's `DRY_RUN_PREFIX`. */
  const DryRunPrefix: string := "Dry run action:"

  const BaseMessage: string := "The 'base' environment cannot be renamed"
  const ActiveMessage: string := "Cannot rename the active environment"

  /** The parts of conda's context the command reads. */
  datatype Context = Context(targetPrefix: string, rootPrefix: string, activePrefix: Option<string>)

  /** The parsed command line. */
  datatype Arguments = Arguments(destination: string, force: bool, dryRun: bool)

  /** One entry of the `actions` tuple: `partial(install.clone, source, destination)`
      or `partial(rm_rf, source)`. */
  datatype Action = Clone(source: string, destination: string) | RmRf(path: string)

  datatype RenameError =
    | EnvironmentLocationNotFound(prefix: string)  // raised by validate_prefix_exists
    | FileNotFound(path: string)                   // raised by Path.samefile for a missing path
    | CondaEnvException(message: string)
    | DestinationExists(prefix: string)           // raised by validate_new_prefix
    | ActionFailed(action: Action)                 // an exception out of an action

  /** What the opaque `install.clone` does: it raises, or it creates the
      destination, which the filesystem gives a new identity. */
  datatype CloneOutcome = CloneRaised | Cloned(identity: nat)

  /** `os.stat` of the paths that exist: each maps to its file identity (device and
      inode), which is what `Path.samefile` compares. */
  type Stat = map<string, nat>

  /** An active prefix counts only when it is set and non-empty (Python truthiness). */
  predicate HasActivePrefix(ctx: Context) {
    ctx.activePrefix.Some? && ctx.activePrefix.value != ""
  }

  /** `Path(a).samefile(b)`: raises when either path does not exist. */
  function SameFile(stat: Stat, a: string, b: string): (r: Result<bool, RenameError>)
    ensures r.Success? <==> a in stat && b in stat
    ensures r.Success? ==> (r.value <==> stat[a] == stat[b])
  {
    if a !in stat then Failure(FileNotFound(a))
    else if b !in stat then Failure(FileNotFound(b))
    else Success(stat[a] == stat[b])
  }

  /** `validate_src()`: the source must exist, must not be the base environment and
      must not be the active environment. */
  function ValidateSrc(ctx: Context, stat: Stat): (r: Result<string, RenameError>)
    // existence is checked first, whatever the root and active prefixes are
    ensures ctx.targetPrefix !in stat ==> r == Failure(EnvironmentLocationNotFound(ctx.targetPrefix))
    // the base environment is refused, whatever the active prefix is
    ensures (ctx.targetPrefix in stat && ctx.rootPrefix in stat &&
             stat[ctx.targetPrefix] == stat[ctx.rootPrefix]) ==> r == Failure(CondaEnvException(BaseMessage))
    // the active environment is refused only when an active prefix is set
    ensures r == Failure(CondaEnvException(ActiveMessage)) ==> HasActivePrefix(ctx)
    ensures r.Success? <==>
              ctx.targetPrefix in stat && ctx.rootPrefix in stat &&
              stat[ctx.targetPrefix] != stat[ctx.rootPrefix] &&
              (HasActivePrefix(ctx) ==>
                 ctx.activePrefix.value in stat && stat[ctx.targetPrefix] != stat[ctx.activePrefix.value])
    ensures r.Success? ==> r.value == ctx.targetPrefix
  {
    var prefix := ctx.targetPrefix;
    if prefix !in stat then Failure(EnvironmentLocationNotFound(prefix))
    else
      match SameFile(stat, prefix, ctx.rootPrefix)
      case Failure(e) => Failure(e)
      case Success(isRoot) =>
        if isRoot then Failure(CondaEnvException(BaseMessage))
        else if HasActivePrefix(ctx) then
          match SameFile(stat, prefix, ctx.activePrefix.value)
          case Failure(e) => Failure(e)
          case Success(isActive) =>
            if isActive then Failure(CondaEnvException(ActiveMessage)) else Success(prefix)
        else Success(prefix)
  }

  /** `validate_destination(dest, force)`: the destination prefix must not exist,
      unless `--force` is given. */
  function ValidateDestination(dest: string, force: bool, stat: Stat): (r: Result<string, RenameError>)
    ensures r.Success? <==> force || dest !in stat
    ensures r.Success? ==> r.value == dest
  {
    if !force && dest in stat then Failure(DestinationExists(dest)) else Success(dest)
  }

  /** An unset active prefix and an empty one are treated alike, and neither needs
      to exist. */
  lemma UnsetActivePrefixIgnored(target: string, root: string, stat: Stat)
    ensures ValidateSrc(Context(target, root, None), stat) == ValidateSrc(Context(target, root, Some("")), stat)
  {
  }

  // ---------------------------------------------------------------------------
  // the action list and its dry-run rendering

  /** The `actions` tuple of `clone_and_remove`. */
  function Plan(source: string, destination: string): seq<Action> {
    [Clone(source, destination), RmRf(source)]
  }

  /** `func.func.__name__` */
  function FuncName(a: Action): string {
    match a
    case Clone(_, _) => "clone"
    case RmRf(_) => "rm_rf"
  }

  /** `func.args` */
  function Args(a: Action): seq<string> {
    match a
    case Clone(s, d) => [s, d]
    case RmRf(p) => [p]
  }

  /** `','.join(xs)` */
  function CommaJoin(xs: seq<string>): string {
    if xs == [] then "" else if |xs| == 1 then xs[0] else xs[0] + "," + CommaJoin(xs[1..])
  }

  /** The line a dry run prints for an action. */
  function DryRunLine(a: Action): string {
    DryRunPrefix + " " + FuncName(a) + " " + CommaJoin(Args(a))
  }

  function DryRunLines(actions: seq<Action>): seq<string>
    decreases |actions|
  {
    if actions == [] then [] else DryRunLines(actions[..|actions| - 1]) + [DryRunLine(actions[|actions| - 1])]
  }

  /** `s.split(',')` */
  function SplitComma(s: string): (r: seq<string>)
    ensures r != []
    decreases |s|
  {
    if ',' !in s then [s]
    else
      var i := FirstComma(s);
      [s[..i]] + SplitComma(s[i + 1..])
  }

  function FirstComma(s: string): (i: nat)
    requires ',' in s
    ensures i < |s| && s[i] == ',' && ',' !in s[..i]
  {
    if s[0] == ',' then 0
    else
      var i := 1 + FirstComma(s[1..]);
      assert s[..i] == [s[0]] + s[1..][..i - 1];
      i
  }

  lemma FirstCommaAt(s: string, j: nat)
    requires j < |s| && s[j] == ',' && ',' !in s[..j]
    ensures FirstComma(s) == j
  {
  }

  predicate CommaFree(xs: seq<string>) {
    forall k :: 0 <= k < |xs| ==> ',' !in xs[k]
  }

  /** Splitting a comma-joined list gives the list back when no element holds a comma. */
  lemma {:induction false} SplitCommaJoin(xs: seq<string>)
    requires xs != [] && CommaFree(xs)
    ensures SplitComma(CommaJoin(xs)) == xs
    decreases |xs|
  {
    if |xs| > 1 {
      var s := CommaJoin(xs);
      var rest := CommaJoin(xs[1..]);
      assert s == xs[0] + "," + rest;
      assert ',' !in xs[0];
      assert s[|xs[0]|] == ',';
      assert s[..|xs[0]|] == xs[0];
      FirstCommaAt(s, |xs[0]|);
      assert s[|xs[0]| + 1..] == rest;
      SplitCommaJoin(xs[1..]);
    }
  }

  /** A dry-run line names its action unambiguously: two actions whose arguments
      hold no comma print the same line only if they are the same action. */
  lemma DryRunLineIdentifiesAction(a: Action, b: Action)
    requires CommaFree(Args(a)) && CommaFree(Args(b))
    requires DryRunLine(a) == DryRunLine(b)
    ensures a == b
  {
    var n := |DryRunPrefix + " "|;
    var la, lb := DryRunLine(a), DryRunLine(b);
    assert la[n] == FuncName(a)[0] && lb[n] == FuncName(b)[0];
    assert FuncName(a) == FuncName(b);
    var m := n + |FuncName(a)| + 1;
    assert la[m..] == CommaJoin(Args(a));
    assert lb[m..] == CommaJoin(Args(b));
    SplitCommaJoin(Args(a));
    SplitCommaJoin(Args(b));
  }

  // ---------------------------------------------------------------------------
  // running the actions

  /** What the host records about the command's run, in order. */
  datatype Event =
    | EnterRenameContext(destination: string, dryRun: bool)
    | Ran(action: Action)
    | ExitRenameContext

  function RanAll(actions: seq<Action>): seq<Event>
    decreases |actions|
  {
    if actions == [] then [] else RanAll(actions[..|actions| - 1]) + [Ran(actions[|actions| - 1])]
  }

  /** Which prefixes exist after an action that completed. */
  function Apply(stat: Stat, a: Action, identity: nat): Stat {
    match a
    case Clone(_, d) => stat[d := identity]
    case RmRf(p) => stat - {p}
  }

  function ApplyAll(stat: Stat, actions: seq<Action>, identity: nat): Stat
    decreases |actions|
  {
    if actions == [] then stat
    else Apply(ApplyAll(stat, actions[..|actions| - 1], identity), actions[|actions| - 1], identity)
  }

  /** The process running the command: the filesystem it sees, what it has printed
      and what it has done. */
  class Host {
    var stat: Stat
    var stdout: seq<string>
    var events: seq<Event>

    constructor (stat: Stat)
      ensures this.stat == stat && stdout == [] && events == []
    {
      this.stat := stat;
      stdout := [];
      events := [];
    }

    /** `func()`: one action of the list, run for real. */
    method Run(a: Action, outcome: CloneOutcome) returns (ok: bool)
      modifies this
      ensures ok == (a.RmRf? || outcome.Cloned?)
      ensures stdout == old(stdout)
      ensures ok ==> events == old(events) + [Ran(a)] &&
                     stat == Apply(old(stat), a, if outcome.Cloned? then outcome.identity else 0)
      ensures !ok ==> events == old(events) && stat == old(stat)
    {
      match a {
        case Clone(_, d) =>
          if outcome.CloneRaised? {
            return false;
          }
          stat := stat[d := outcome.identity];
        case RmRf(p) =>
          stat := stat - {p};
      }
      events := events + [Ran(a)];
      ok := true;
    }

    /** `clone_and_remove()`: walk the action list in order, printing each action in
        a dry run and running it otherwise; an exception stops the walk. */
    method CloneAndRemove(source: string, destination: string, dryRun: bool, outcome: CloneOutcome)
      returns (ok: bool)
      modifies this
      // a dry run prints one line per action, in order, and changes nothing
      ensures dryRun ==>
                ok &&
                stdout == old(stdout) + [DryRunLine(Clone(source, destination)), DryRunLine(RmRf(source))] &&
                stat == old(stat) && events == old(events)
      // a real run prints nothing of its own
      ensures !dryRun ==> stdout == old(stdout)
      // a real run clones, then removes the source
      ensures !dryRun && outcome.Cloned? ==>
                ok &&
                events == old(events) + [Ran(Clone(source, destination)), Ran(RmRf(source))] &&
                stat == old(stat)[destination := outcome.identity] - {source}
      // a failed clone stops the run before the source is removed
      ensures !dryRun && outcome.CloneRaised? ==> !ok && stat == old(stat) && events == old(events)
    {
      var actions := Plan(source, destination);
      var identity := if outcome.Cloned? then outcome.identity else 0;
      ok := true;
      for i := 0 to |actions|
        invariant dryRun ==> stdout == old(stdout) + DryRunLines(actions[..i]) &&
                             stat == old(stat) && events == old(events)
        invariant !dryRun ==> stdout == old(stdout) && events == old(events) + RanAll(actions[..i]) &&
                              stat == ApplyAll(old(stat), actions[..i], identity)
        invariant !dryRun && i > 0 ==> outcome.Cloned?
      {
        if dryRun {
          stdout := stdout + [DryRunLine(actions[i])];
        } else {
          ok := Run(actions[i], outcome);
          if !ok {
            return;
          }
        }
        assert actions[..i + 1][..i] == actions[..i];
      }
      assert actions[..2] == actions;
      assert actions[..1] == [Clone(source, destination)];
    }

    /** `execute(args, parser)`: validate the source, then the destination, then run
        `clone_and_remove`, inside `rename_context` when `--force` is given. */
    method Execute(args: Arguments, ctx: Context, outcome: CloneOutcome) returns (r: Result<int, RenameError>)
      modifies this
      // the source is validated first, then the destination, before anything else happens
      ensures ValidateSrc(ctx, old(stat)).Failure? ==>
                r == Failure(ValidateSrc(ctx, old(stat)).error)
      ensures ValidateSrc(ctx, old(stat)).Success? &&
              ValidateDestination(args.destination, args.force, old(stat)).Failure? ==>
                r == Failure(ValidateDestination(args.destination, args.force, old(stat)).error)
      ensures (ValidateSrc(ctx, old(stat)).Failure? ||
               ValidateDestination(args.destination, args.force, old(stat)).Failure?) ==>
                stat == old(stat) && stdout == old(stdout) && events == old(events)
      // a dry run prints the two action lines and leaves the filesystem as it was
      ensures args.dryRun ==> stat == old(stat)
      ensures r.Success? && args.dryRun ==>
                stdout == old(stdout) +
                  [DryRunLine(Clone(ctx.targetPrefix, args.destination)), DryRunLine(RmRf(ctx.targetPrefix))]
      // a real run prints nothing of its own
      ensures !args.dryRun ==> stdout == old(stdout)
      // a raised clone leaves the filesystem as it was; rename_context is still left
      ensures r == Failure(ActionFailed(Clone(ctx.targetPrefix, args.destination))) ==>
                stat == old(stat) &&
                events == old(events) +
                  (if args.force then [EnterRenameContext(args.destination, args.dryRun), ExitRenameContext] else [])
      // success returns 0
      ensures r.Success? ==> r.value == 0
      ensures r.Success? <==>
                ValidateSrc(ctx, old(stat)).Success? &&
                ValidateDestination(args.destination, args.force, old(stat)).Success? &&
                (args.dryRun || outcome.Cloned?)
      // a real successful run leaves the destination in place of the source
      ensures r.Success? && !args.dryRun ==>
                stat == old(stat)[args.destination := outcome.identity] - {ctx.targetPrefix}
      // rename_context is entered and left around the actions only with --force
      ensures r.Success? ==>
                events == old(events) +
                  (if args.force then [EnterRenameContext(args.destination, args.dryRun)] else []) +
                  (if args.dryRun then [] else [Ran(Clone(ctx.targetPrefix, args.destination)), Ran(RmRf(ctx.targetPrefix))]) +
                  (if args.force then [ExitRenameContext] else [])
    {
      var src := ValidateSrc(ctx, stat);
      if src.Failure? {
        return Failure(src.error);
      }
      var dst := ValidateDestination(args.destination, args.force, stat);
      if dst.Failure? {
        return Failure(dst.error);
      }
      var source, destination := src.value, dst.value;
      var ok;
      if args.force {
        events := events + [EnterRenameContext(destination, args.dryRun)];
        ok := CloneAndRemove(source, destination, args.dryRun, outcome);
        events := events + [ExitRenameContext];
      } else {
        ok := CloneAndRemove(source, destination, args.dryRun, outcome);
      }
      if !ok {
        return Failure(ActionFailed(Clone(source, destination)));
      }
      return Success(0);
    }
  }
}
