/** The argument vectors the server hands to the Ansible command-line tools:
    `_dict_to_module_args`, the `ansible-playbook` argv of `ansible_playbook`
    and the ad-hoc `ansible` argv of `ansible_task`
    (src/ansible_mcp/server.py). Each builder is paired with a reader that
    takes the argv apart again in the same fixed flag order. */
module Commands {
  import opened Results
  import opened Dicts
  import opened PyJson
  import Text

  // ---------------------------------------------------------------------
  // Module arguments
  // ---------------------------------------------------------------------

  /** What follows `key=` for one module argument: containers as the quoted
      JSON dump, booleans as bare `yes`/`no`, `None` as nothing, anything else
      as its quoted `str`. */
  function RenderArgValue(v: Json, lib: Lib): (r: string)
    ensures v.JBool? ==> r == (if v.b then "yes" else "no")
    ensures v.JNull? ==> r == ""
    ensures v.JArr? || v.JObj? ==> r == lib.quote(lib.dumps(v))
    ensures v.JStr? ==> r == lib.quote(v.s)
    ensures v.JInt? ==> r == lib.quote(Text.IntToString(v.n))
  {
    match v
    case JArr(_) => lib.quote(lib.dumps(v))
    case JObj(_) => lib.quote(lib.dumps(v))
    case JBool(b) => if b then "yes" else "no"
    case JNull => ""
    case _ => lib.quote(Str(v, lib))
  }

  /** The `key=value` segments, one per entry, in insertion order. */
  function ArgSegments(args: Dict<Json>, lib: Lib): seq<string>
  {
    seq(|args|, i requires 0 <= i < |args| => args[i].0 + "=" + RenderArgValue(args[i].1, lib))
  }

  /** No key and no rendered value holds a space. */
  predicate SpaceFree(args: Dict<Json>, lib: Lib)
  {
    forall i :: 0 <= i < |args| ==> ' ' !in args[i].0 && ' ' !in RenderArgValue(args[i].1, lib)
  }

  lemma SegmentsSpaceFree(args: Dict<Json>, lib: Lib)
    requires SpaceFree(args, lib)
    ensures forall i :: 0 <= i < |args| ==> ' ' !in ArgSegments(args, lib)[i]
  {
    forall i | 0 <= i < |args| ensures ' ' !in ArgSegments(args, lib)[i] {
      assert ArgSegments(args, lib)[i] == args[i].0 + "=" + RenderArgValue(args[i].1, lib);
    }
  }

  /** `_dict_to_module_args(module_args)`: no arguments give the empty
      string; when nothing holds a space, the words of the result are the
      `key=value` pairs, one per argument, in insertion order. */
  function ModuleArgs(args: Dict<Json>, lib: Lib): (r: string)
    ensures |args| == 0 ==> r == ""
    ensures |args| == 1 ==> r == args[0].0 + "=" + RenderArgValue(args[0].1, lib)
    ensures |args| > 0 && SpaceFree(args, lib) ==>
      var words := Text.Split(r, ' ');
      |words| == |args|
      && forall i :: 0 <= i < |args| ==> words[i] == args[i].0 + "=" + RenderArgValue(args[i].1, lib)
  {
    var segs := ArgSegments(args, lib);
    if |args| > 0 && SpaceFree(args, lib) then
      SegmentsSpaceFree(args, lib);
      Text.SplitJoin(segs, ' ');
      Text.Join(segs, " ")
    else Text.Join(segs, " ")
  }

  /** The rendering is compositional: the arguments of two dicts, one after
      the other, are their renderings joined by a single space. */
  lemma ModuleArgsAppend(a: Dict<Json>, b: Dict<Json>, lib: Lib)
    requires |a| > 0 && |b| > 0
    ensures ModuleArgs(a + b, lib) == ModuleArgs(a, lib) + " " + ModuleArgs(b, lib)
  {
    assert ArgSegments(a + b, lib) == ArgSegments(a, lib) + ArgSegments(b, lib);
    Text.JoinAppend(ArgSegments(a, lib), ArgSegments(b, lib), " ");
  }

  /** When no key holds a space or `=` and no rendered value holds a space,
      the module's own `key=value` reading recovers every key and value, in
      order. */
  lemma ModuleArgsDecode(args: Dict<Json>, lib: Lib)
    requires |args| > 0
    requires forall i :: 0 <= i < |args| ==> ' ' !in args[i].0 && '=' !in args[i].0
    requires forall i :: 0 <= i < |args| ==> ' ' !in RenderArgValue(args[i].1, lib)
    ensures var fields := Text.Split(ModuleArgs(args, lib), ' ');
      |fields| == |args|
      && forall i :: 0 <= i < |args| ==>
           fields[i] == args[i].0 + "=" + RenderArgValue(args[i].1, lib)
           && Text.Split(fields[i], '=')[0] == args[i].0
  {
    var segs := ArgSegments(args, lib);
    forall i | 0 <= i < |segs| ensures ' ' !in segs[i] {
      assert segs[i] == args[i].0 + "=" + RenderArgValue(args[i].1, lib);
    }
    Text.SplitJoin(segs, ' ');
    forall i | 0 <= i < |args|
      ensures Text.Split(segs[i], '=')[0] == args[i].0
    {
      var rest := RenderArgValue(args[i].1, lib);
      assert segs[i] == args[i].0 + ['='] + rest;
      Text.SplitCons(args[i].0, rest, '=');
    }
  }

  // ---------------------------------------------------------------------
  // Flag segments and the fixed-order reader
  // ---------------------------------------------------------------------

  /** `cmd.extend([flag, value])` when a value is present. */
  function ValueSeg(flag: string, v: Option<string>): seq<string>
  {
    if v.Some? then [flag, v.value] else []
  }

  /** `cmd.append(flag)` when the switch is on. */
  function SwitchSeg(flag: string, on: bool): seq<string>
  {
    if on then [flag] else []
  }

  /** `-v` ... `-vvvv`. */
  predicate IsVerbosityFlag(a: string)
  {
    2 <= |a| <= 5 && a[0] == '-' && forall i :: 1 <= i < |a| ==> a[i] == 'v'
  }

  /** The verbosity flag for a level, absent at level 0. */
  function VerbositySeg(level: nat): (r: seq<string>)
    requires level <= 4
    ensures |r| <= 1
    ensures |r| == 1 ==> IsVerbosityFlag(r[0]) && |r[0]| == level + 1
    ensures |r| == 0 <==> level == 0
  {
    if level == 0 then [] else ["-" + Text.Repeat('v', level)]
  }

  /** `if verbose: "-" + "v" * max(1, min(verbose, 4))`, as a level in 0..4. */
  function VerbosityLevel(verbose: Option<int>): (level: nat)
    ensures level <= 4
    ensures level == 0 <==> verbose.None? || verbose.value == 0
    ensures verbose.Some? && 1 <= verbose.value <= 4 ==> level == verbose.value
    ensures verbose.Some? && verbose.value > 4 ==> level == 4
    ensures verbose.Some? && verbose.value < 0 ==> level == 1
  {
    if verbose.None? || verbose.value == 0 then 0
    else
      var capped := if verbose.value < 4 then verbose.value else 4;
      if capped < 1 then 1 else capped
  }

  /** Reads `flag value` at the head of an argv. */
  function TakeValue(flag: string, argv: seq<string>): (Option<string>, seq<string>)
  {
    if |argv| >= 2 && argv[0] == flag then (Some(argv[1]), argv[2..]) else (None, argv)
  }

  /** Reads a bare `flag` at the head of an argv. */
  function TakeSwitch(flag: string, argv: seq<string>): (bool, seq<string>)
  {
    if |argv| >= 1 && argv[0] == flag then (true, argv[1..]) else (false, argv)
  }

  /** Reads a verbosity flag at the head of an argv. */
  function TakeVerbosity(argv: seq<string>): (nat, seq<string>)
  {
    if |argv| >= 1 && IsVerbosityFlag(argv[0]) then (|argv[0]| - 1, argv[1..]) else (0, argv)
  }

  /** The argv is empty or starts with one of `names` or a verbosity flag. */
  predicate StartsWithin(argv: seq<string>, names: set<string>)
  {
    |argv| == 0 || argv[0] in names || IsVerbosityFlag(argv[0])
  }

  lemma TakeValueSeg(flag: string, v: Option<string>, rest: seq<string>, names: set<string>)
    requires StartsWithin(rest, names) && flag !in names && !IsVerbosityFlag(flag)
    ensures TakeValue(flag, ValueSeg(flag, v) + rest) == (v, rest)
    ensures StartsWithin(ValueSeg(flag, v) + rest, names + {flag})
  {
    if v.Some? {
      assert (ValueSeg(flag, v) + rest)[2..] == rest;
    } else {
      assert ValueSeg(flag, v) + rest == rest;
      assert |rest| > 0 ==> rest[0] != flag;
    }
  }

  lemma TakeSwitchSeg(flag: string, on: bool, rest: seq<string>, names: set<string>)
    requires StartsWithin(rest, names) && flag !in names && !IsVerbosityFlag(flag)
    ensures TakeSwitch(flag, SwitchSeg(flag, on) + rest) == (on, rest)
    ensures StartsWithin(SwitchSeg(flag, on) + rest, names + {flag})
  {
    if on {
      assert (SwitchSeg(flag, on) + rest)[1..] == rest;
    } else {
      assert SwitchSeg(flag, on) + rest == rest;
      assert |rest| > 0 ==> rest[0] != flag;
    }
  }

  lemma TakeVerbositySeg(level: nat)
    requires level <= 4
    ensures TakeVerbosity(VerbositySeg(level)) == (level, [])
    ensures StartsWithin(VerbositySeg(level), {})
  {
    if level > 0 {
      var a := VerbositySeg(level);
      assert IsVerbosityFlag(a[0]) && |a[0]| - 1 == level;
      assert a[1..] == [];
    }
  }

  /** The short value flags are not verbosity flags. */
  lemma ShortFlagsDistinct()
    ensures !IsVerbosityFlag("-i") && !IsVerbosityFlag("-a") && !IsVerbosityFlag("-c")
  {
    assert "-i"[1] != 'v' && "-a"[1] != 'v' && "-c"[1] != 'v';
  }

  // ---------------------------------------------------------------------
  // ansible-playbook
  // ---------------------------------------------------------------------

  /** The optional arguments of the `ansible-playbook` tool. */
  datatype PlaybookOptions = PlaybookOptions(
    inventory: Option<string>,
    extraVars: Option<Dict<Json>>,
    tags: Option<seq<string>>,
    skipTags: Option<seq<string>>,
    limit: Option<string>,
    check: Option<bool>,
    diff: Option<bool>,
    verbose: Option<int>)

  /** The flags an `ansible-playbook` command line carries after the playbook. */
  datatype PlaybookFlags = PlaybookFlags(
    inventory: Option<string>,
    extraVars: Option<string>,
    tags: Option<string>,
    skipTags: Option<string>,
    limit: Option<string>,
    check: bool,
    diff: bool,
    verbosity: nat)

  /** The flags in their fixed order: `-i`, `--extra-vars`, `--tags`,
      `--skip-tags`, `--limit`, `--check`, `--diff`, verbosity. */
  function RenderPlaybookFlags(f: PlaybookFlags): seq<string>
    requires f.verbosity <= 4
  {
    ValueSeg("-i", f.inventory)
    + (ValueSeg("--extra-vars", f.extraVars)
    + (ValueSeg("--tags", f.tags)
    + (ValueSeg("--skip-tags", f.skipTags)
    + (ValueSeg("--limit", f.limit)
    + (SwitchSeg("--check", f.check)
    + (SwitchSeg("--diff", f.diff)
    + VerbositySeg(f.verbosity)))))))
  }

  /** Reads the flags back in the same order; `None` if anything is left over. */
  function ParsePlaybookFlags(argv: seq<string>): Option<PlaybookFlags>
  {
    var (inventory, a1) := TakeValue("-i", argv);
    var (extraVars, a2) := TakeValue("--extra-vars", a1);
    var (tags, a3) := TakeValue("--tags", a2);
    var (skipTags, a4) := TakeValue("--skip-tags", a3);
    var (limit, a5) := TakeValue("--limit", a4);
    var (check, a6) := TakeSwitch("--check", a5);
    var (diff, a7) := TakeSwitch("--diff", a6);
    var (verbosity, a8) := TakeVerbosity(a7);
    if |a8| == 0 then Some(PlaybookFlags(inventory, extraVars, tags, skipTags, limit, check, diff, verbosity))
    else None
  }

  /** The switches and the verbosity flag at the end of an argv are read back. */
  lemma SwitchTailRoundTrip(check: bool, diff: bool, verbosity: nat)
    requires verbosity <= 4
    ensures var t8 := VerbositySeg(verbosity);
      var t7 := SwitchSeg("--diff", diff) + t8;
      var t6 := SwitchSeg("--check", check) + t7;
      && TakeSwitch("--check", t6) == (check, t7)
      && TakeSwitch("--diff", t7) == (diff, t8)
      && TakeVerbosity(t8) == (verbosity, [])
      && StartsWithin(t6, {"--diff", "--check"})
  {
    var t8 := VerbositySeg(verbosity);
    TakeVerbositySeg(verbosity);
    var t7 := SwitchSeg("--diff", diff) + t8;
    TakeSwitchSeg("--diff", diff, t8, {});
    TakeSwitchSeg("--check", check, t7, {"--diff"});
  }

  /** Every flag record is read back from its rendering. */
  lemma {:induction false} PlaybookFlagsRoundTrip(f: PlaybookFlags)
    requires f.verbosity <= 4
    ensures ParsePlaybookFlags(RenderPlaybookFlags(f)) == Some(f)
  {
    var t8 := VerbositySeg(f.verbosity);
    var t7 := SwitchSeg("--diff", f.diff) + t8;
    var t6 := SwitchSeg("--check", f.check) + t7;
    SwitchTailRoundTrip(f.check, f.diff, f.verbosity);
    var t5 := ValueSeg("--limit", f.limit) + t6;
    TakeValueSeg("--limit", f.limit, t6, {"--diff", "--check"});
    var t4 := ValueSeg("--skip-tags", f.skipTags) + t5;
    TakeValueSeg("--skip-tags", f.skipTags, t5, {"--diff", "--check", "--limit"});
    var t3 := ValueSeg("--tags", f.tags) + t4;
    TakeValueSeg("--tags", f.tags, t4, {"--diff", "--check", "--limit", "--skip-tags"});
    var t2 := ValueSeg("--extra-vars", f.extraVars) + t3;
    TakeValueSeg("--extra-vars", f.extraVars, t3, {"--diff", "--check", "--limit", "--skip-tags", "--tags"});
    var t1 := ValueSeg("-i", f.inventory) + t2;
    ShortFlagsDistinct();
    TakeValueSeg("-i", f.inventory, t2, {"--diff", "--check", "--limit", "--skip-tags", "--tags", "--extra-vars"});
    assert RenderPlaybookFlags(f) == t1;
  }

  /** The flags `ansible_playbook` asks for: each flag only when its argument
      is truthy; the verbosity clamped to 1..4. */
  function RequestedPlaybookFlags(o: PlaybookOptions, lib: Lib): (f: PlaybookFlags)
    ensures f.verbosity <= 4
  {
    PlaybookFlags(
      if Given(o.inventory) then o.inventory else None,
      if o.extraVars.Some? && |o.extraVars.value| > 0 then Some(lib.dumps(JObj(o.extraVars.value))) else None,
      if o.tags.Some? && |o.tags.value| > 0 then Some(Text.Join(o.tags.value, ",")) else None,
      if o.skipTags.Some? && |o.skipTags.value| > 0 then Some(Text.Join(o.skipTags.value, ",")) else None,
      if Given(o.limit) then o.limit else None,
      o.check == Some(true),
      o.diff == Some(true),
      VerbosityLevel(o.verbose))
  }

  /** The `ansible-playbook` argv. */
  function PlaybookArgv(playbookPath: string, o: PlaybookOptions, lib: Lib): (argv: seq<string>)
    ensures |argv| >= 2 && argv[..2] == ["ansible-playbook", playbookPath]
    ensures ParsePlaybookFlags(argv[2..]) == Some(RequestedPlaybookFlags(o, lib))
    ensures VerbosityLevel(o.verbose) > 0 ==>
      IsVerbosityFlag(argv[|argv| - 1]) && 2 <= |argv[|argv| - 1]| <= 5
  {
    var f := RequestedPlaybookFlags(o, lib);
    var argv := ["ansible-playbook", playbookPath] + RenderPlaybookFlags(f);
    PlaybookFlagsRoundTrip(f);
    assert argv[2..] == RenderPlaybookFlags(f);
    argv
  }

  // ---------------------------------------------------------------------
  // ansible (ad-hoc task)
  // ---------------------------------------------------------------------

  /** The optional arguments of the `ansible-task` tool; `args` is `JNull`
      when the caller passed `None`. */
  datatype TaskOptions = TaskOptions(
    args: Json,
    inventory: Option<string>,
    become: Option<bool>,
    becomeUser: Option<string>,
    check: Option<bool>,
    diff: Option<bool>,
    verbose: Option<int>,
    connection: Option<string>)

  /** The flags an `ansible` command line carries after `-m module`. */
  datatype TaskFlags = TaskFlags(
    args: Option<string>,
    inventory: Option<string>,
    connection: Option<string>,
    become: bool,
    becomeUser: Option<string>,
    check: bool,
    diff: bool,
    verbosity: nat)

  /** `use_conn`: an explicit connection, else `local` for `localhost` and
      `127.0.0.1`. An explicit empty string is kept (and later emits no `-c`). */
  function EffectiveConnection(hostPattern: string, connection: Option<string>): (c: Option<string>)
    ensures connection.Some? ==> c == connection
    ensures connection.None? ==>
      (c.Some? <==> hostPattern == "localhost" || hostPattern == "127.0.0.1")
    ensures c.Some? && connection.None? ==> c.value == "local"
  {
    if connection.None? && (hostPattern == "localhost" || hostPattern == "127.0.0.1") then Some("local")
    else connection
  }

  /** The flags in their fixed order: `-a`, `-i`, `-c`, `--become`,
      `--become-user`, `--check`, `--diff`, verbosity. */
  function RenderTaskFlags(f: TaskFlags): seq<string>
    requires f.verbosity <= 4
  {
    ValueSeg("-a", f.args)
    + (ValueSeg("-i", f.inventory)
    + (ValueSeg("-c", f.connection)
    + (SwitchSeg("--become", f.become)
    + (ValueSeg("--become-user", f.becomeUser)
    + (SwitchSeg("--check", f.check)
    + (SwitchSeg("--diff", f.diff)
    + VerbositySeg(f.verbosity)))))))
  }

  /** Reads the flags back in the same order; `None` if anything is left over. */
  function ParseTaskFlags(argv: seq<string>): Option<TaskFlags>
  {
    var (args, a1) := TakeValue("-a", argv);
    var (inventory, a2) := TakeValue("-i", a1);
    var (connection, a3) := TakeValue("-c", a2);
    var (become, a4) := TakeSwitch("--become", a3);
    var (becomeUser, a5) := TakeValue("--become-user", a4);
    var (check, a6) := TakeSwitch("--check", a5);
    var (diff, a7) := TakeSwitch("--diff", a6);
    var (verbosity, a8) := TakeVerbosity(a7);
    if |a8| == 0 then Some(TaskFlags(args, inventory, connection, become, becomeUser, check, diff, verbosity))
    else None
  }

  /** Every flag record is read back from its rendering. */
  lemma {:induction false} TaskFlagsRoundTrip(f: TaskFlags)
    requires f.verbosity <= 4
    ensures ParseTaskFlags(RenderTaskFlags(f)) == Some(f)
  {
    var t8 := VerbositySeg(f.verbosity);
    var t7 := SwitchSeg("--diff", f.diff) + t8;
    var t6 := SwitchSeg("--check", f.check) + t7;
    SwitchTailRoundTrip(f.check, f.diff, f.verbosity);
    var t5 := ValueSeg("--become-user", f.becomeUser) + t6;
    TakeValueSeg("--become-user", f.becomeUser, t6, {"--diff", "--check"});
    var t4 := SwitchSeg("--become", f.become) + t5;
    TakeSwitchSeg("--become", f.become, t5, {"--diff", "--check", "--become-user"});
    var t3 := ValueSeg("-c", f.connection) + t4;
    ShortFlagsDistinct();
    TakeValueSeg("-c", f.connection, t4, {"--diff", "--check", "--become-user", "--become"});
    var t2 := ValueSeg("-i", f.inventory) + t3;
    TakeValueSeg("-i", f.inventory, t3, {"--diff", "--check", "--become-user", "--become", "-c"});
    var t1 := ValueSeg("-a", f.args) + t2;
    TakeValueSeg("-a", f.args, t2, {"--diff", "--check", "--become-user", "--become", "-c", "-i"});
    assert RenderTaskFlags(f) == t1;
  }

  /** The flags `ansible_task` asks for. */
  function RequestedTaskFlags(hostPattern: string, o: TaskOptions, lib: Lib): (f: TaskFlags)
    ensures f.verbosity <= 4
  {
    var conn := EffectiveConnection(hostPattern, o.connection);
    TaskFlags(
      if o.args.JNull? then None
      else if o.args.JObj? then Some(ModuleArgs(o.args.fields, lib))
      else Some(Str(o.args, lib)),
      if Given(o.inventory) then o.inventory else None,
      if Given(conn) then conn else None,
      o.become == Some(true),
      if Given(o.becomeUser) then o.becomeUser else None,
      o.check == Some(true),
      o.diff == Some(true),
      VerbosityLevel(o.verbose))
  }

  /** The ad-hoc `ansible` argv. */
  function TaskArgv(hostPattern: string, moduleName: string, o: TaskOptions, lib: Lib): (argv: seq<string>)
    ensures |argv| >= 4 && argv[..4] == ["ansible", hostPattern, "-m", moduleName]
    ensures ParseTaskFlags(argv[4..]) == Some(RequestedTaskFlags(hostPattern, o, lib))
    // `-c`: a non-empty explicit connection always wins, an empty one gives no
    // `-c`, and without one `-c local` is added exactly for the local host
    ensures var c := ParseTaskFlags(argv[4..]).value.connection;
      && (Given(o.connection) ==> c == o.connection)
      && (o.connection == Some("") ==> c.None?)
      && (o.connection.None? ==> (c.Some? <==> hostPattern == "localhost" || hostPattern == "127.0.0.1"))
      && (o.connection.None? && c.Some? ==> c.value == "local")
  {
    var f := RequestedTaskFlags(hostPattern, o, lib);
    var argv := ["ansible", hostPattern, "-m", moduleName] + RenderTaskFlags(f);
    TaskFlagsRoundTrip(f);
    assert argv[4..] == RenderTaskFlags(f);
    argv
  }
}
