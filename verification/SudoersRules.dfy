/**
 The sudo rules a member's permissions earn them, and what they let through
 under sudoers matching, where `*` in the arguments also matches spaces.
 */
module SudoersRules {
  import opened Text

  // --- Matching.

  /** sudoers argument matching for patterns whose only wildcard is `*`. */
  predicate Match(p: string, s: string)
    decreases |p| + |s|
  {
    if p == "" then s == ""
    else if p[0] == '*' then Match(p[1..], s) || (s != "" && Match(p, s[1..]))
    else s != "" && s[0] == p[0] && Match(p[1..], s[1..])
  }

  lemma {:induction false} StarMatchesAll(s: string)
    ensures Match("*", s)
  {
    if s == "" {
    } else {
      StarMatchesAll(s[1..]);
    }
  }

  /** `*` stands for any stretch of characters. */
  lemma {:induction false} StarMeans(p: string, s: string)
    ensures Match("*" + p, s) <==> exists k | 0 <= k <= |s| :: Match(p, s[k..])
    decreases |s|
  {
    assert ("*" + p)[1..] == p;
    assert s[0..] == s;
    if s == "" {
    } else {
      StarMeans(p, s[1..]);
      assert forall k | 0 <= k <= |s[1..]| :: s[1..][k..] == s[k + 1..];
      assert forall k | 1 <= k <= |s| :: s[k..] == s[1..][k - 1..];
    }
  }

  /** A pattern that ends in `*` matches whatever the pattern with any other ending matches. */
  lemma {:induction false} StarEndsAnyWay(p: string, x: string, s: string)
    requires Match(p + x, s)
    ensures Match(p + "*", s)
    decreases |p| + |s|
  {
    if p == "" {
      assert p + "*" == "*";
      StarMatchesAll(s);
    } else {
      assert (p + x)[1..] == p[1..] + x && (p + "*")[1..] == p[1..] + "*";
      if p[0] == '*' {
        if Match(p[1..] + x, s) {
          StarEndsAnyWay(p[1..], x, s);
        } else {
          StarEndsAnyWay(p, x, s[1..]);
        }
      } else {
        StarEndsAnyWay(p[1..], x, s[1..]);
      }
    }
  }

  predicate EndsWith(s: string, x: string) {
    |x| <= |s| && s[|s| - |x|..] == x
  }

  /** A pattern without `*` matches itself and nothing else. */
  lemma {:induction false} LiteralMatches(x: string, s: string)
    requires '*' !in x
    ensures Match(x, s) <==> s == x
    decreases |x|
  {
    if x == "" {
    } else {
      assert x[0] in x && '*' !in x[1..];
      if s != "" && s[0] == x[0] {
        LiteralMatches(x[1..], s[1..]);
        assert s == [s[0]] + s[1..] && x == [x[0]] + x[1..];
      }
    }
  }

  /** What a pattern ends in literally, every match ends in. */
  lemma {:induction false} LiteralEnd(p: string, x: string, s: string)
    requires Match(p + x, s) && '*' !in x
    ensures EndsWith(s, x)
    decreases |p| + |s|
  {
    if p == "" {
      assert p + x == x;
      LiteralMatches(x, s);
    } else {
      assert (p + x)[1..] == p[1..] + x;
      if p[0] == '*' && Match(p[1..] + x, s) {
        LiteralEnd(p[1..], x, s);
      } else {
        LiteralEnd(if p[0] == '*' then p else p[1..], x, s[1..]);
        assert s[|s| - |x|..] == s[1..][|s[1..]| - |x|..];
      }
    }
  }

  // --- Rules and privileges.

  /** A command line: the program and its arguments as one string. */
  datatype CommandLine = CommandLine(program: string, arguments: string)

  datatype AllowedCommand = AllowedCommand(program: string, arguments: string)

  /** Without arguments a sudoers rule allows any; no rule below is of that kind. */
  predicate Allows(rule: AllowedCommand, line: CommandLine) {
    rule.program == line.program && (rule.arguments == "" || Match(rule.arguments, line.arguments))
  }

  predicate AnyAllows(rules: set<AllowedCommand>, line: CommandLine) {
    exists rule | rule in rules :: Allows(rule, line)
  }

  datatype Privilege = Nothing | Commands(rules: set<AllowedCommand>) | Root(reason: string)

  predicate Permits(p: Privilege, line: CommandLine) {
    match p
    case Nothing => false
    case Commands(rules) => AnyAllows(rules, line)
    case Root(_) => true
  }

  const ROOT_EQUIVALENT: seq<string> := [
    "node.terminal", "node.software", "node.services", "node.network", "applications.create", "applications.delete",
    "applications.config", "applications.databases", "applications.backups"
  ]
  const APPLICATIONS_VIEW: string := "applications.view"
  const APPLICATIONS_LIFECYCLE: string := "applications.lifecycle"
  const APPLICATIONS_CONSOLE: string := "applications.console"
  const FILES_READ: string := "applications.files.read"
  const FILES_WRITE: string := "applications.files.write"
  const NODE_FIREWALL: string := "node.firewall"

  const DOCKER: string := "docker"
  const SYSTEMCTL: string := "systemctl"
  const CONSOLE_WRITER_PATH: string := "/usr/local/lib/vibessh/console-write"
  const DOCKER_USER_HELPER_PATH: string := "/usr/local/lib/vibessh/docker-user"
  const APP: string := "vibessh-app-"

  const DOCKER_VERBS: seq<string> := ["start", "stop", "restart", "kill"]
  const SYSTEMCTL_VERBS: seq<string> := ["start", "stop", "restart"]
  const UFW_FORMS: seq<string> := ["status", "show added", "--force enable", "allow *", "delete allow *"]

  // Argument patterns up to the Application's name.
  const INSPECT: string := "inspect " + APP
  const LOGS: string := "logs " + APP
  const LOGS_WITH_OPTIONS: string := "logs * " + APP
  const STATUS: string := "status --no-pager " + APP
  function Verb(verb: string): string { verb + (" " + APP) }

  function ViewRules(): set<AllowedCommand> {
    {AllowedCommand(DOCKER, "ps"), AllowedCommand(DOCKER, "ps *"), AllowedCommand(DOCKER, INSPECT + "*"),
     AllowedCommand(DOCKER, LOGS + "*"), AllowedCommand(DOCKER, LOGS_WITH_OPTIONS + "*"),
     AllowedCommand(SYSTEMCTL, STATUS + "*")}
  }

  function VerbRules(program: string, verbs: seq<string>, name: string): set<AllowedCommand> {
    set v | v in verbs :: AllowedCommand(program, Verb(v) + name)
  }

  function LifecycleRules(): set<AllowedCommand> {
    VerbRules(DOCKER, DOCKER_VERBS, "*") + VerbRules(SYSTEMCTL, SYSTEMCTL_VERBS, "*")
  }

  function ConsoleRules(): set<AllowedCommand> {
    {AllowedCommand(CONSOLE_WRITER_PATH, "*")}
  }

  function FirewallRules(): set<AllowedCommand> {
    (set form | form in UFW_FORMS :: AllowedCommand("ufw", form)) + {AllowedCommand(DOCKER_USER_HELPER_PATH, "*")}
  }

  /** What a set of permissions narrows to. */
  function NarrowRules(held: set<string>): set<AllowedCommand> {
    (if APPLICATIONS_VIEW in held then ViewRules() else {})
    + (if APPLICATIONS_LIFECYCLE in held then LifecycleRules() else {})
    + (if APPLICATIONS_CONSOLE in held then ConsoleRules() else {})
    + (if NODE_FIREWALL in held then FirewallRules() else {})
  }

  /** The first entry of `keys` that is held. */
  function FirstHeld(keys: seq<string>, held: set<string>): (r: Option<string>)
    ensures r.Some? <==> exists i | 0 <= i < |keys| :: keys[i] in held
    ensures r.Some? ==> r.value in keys && r.value in held
  {
    if keys == [] then None else if keys[0] in held then Some(keys[0]) else FirstHeld(keys[1..], held)
  }

  function PrivilegeFor(held: set<string>): Privilege {
    var root := FirstHeld(ROOT_EQUIVALENT, held);
    if root.Some? then Root(root.value)
    else if NarrowRules(held) == {} then Nothing
    else Commands(NarrowRules(held))
  }

  method InsertVerbs(rules: set<AllowedCommand>, program: string, verbs: seq<string>, name: string)
    returns (out: set<AllowedCommand>)
    ensures out == rules + VerbRules(program, verbs, name)
  {
    out := rules;
    for i := 0 to |verbs|
      invariant out == rules + VerbRules(program, verbs[..i], name)
    {
      assert forall v :: v in verbs[..i + 1] <==> v in verbs[..i] || v == verbs[i];
      out := out + {AllowedCommand(program, Verb(verbs[i]) + name)};
    }
    assert verbs[..|verbs|] == verbs;
  }

  method InsertForms(rules: set<AllowedCommand>, program: string, forms: seq<string>) returns (out: set<AllowedCommand>)
    ensures out == rules + (set form | form in forms :: AllowedCommand(program, form))
  {
    out := rules;
    for i := 0 to |forms|
      invariant out == rules + (set form | form in forms[..i] :: AllowedCommand(program, form))
    {
      assert forall f :: f in forms[..i + 1] <==> f in forms[..i] || f == forms[i];
      out := out + {AllowedCommand(program, forms[i])};
    }
    assert forms[..|forms|] == forms;
  }

  method FindRootEquivalent(held: set<string>) returns (reason: Option<string>)
    ensures reason == FirstHeld(ROOT_EQUIVALENT, held)
  {
    var keys := ROOT_EQUIVALENT;
    for i := 0 to |keys|
      invariant FirstHeld(keys[i..], held) == FirstHeld(keys, held)
    {
      if keys[i] in held {
        return Some(keys[i]);
      }
      assert keys[i..][1..] == keys[i + 1..];
    }
    return None;
  }

  /** `privilege_for`. */
  method ComputePrivilege(permissions: seq<string>) returns (p: Privilege)
    ensures p == PrivilegeFor(set key | key in permissions)
  {
    var held := set key | key in permissions;
    var reason := FindRootEquivalent(held);
    if reason.Some? {
      return Root(reason.value);
    }
    var rules: set<AllowedCommand> := {};
    if APPLICATIONS_VIEW in held {
      rules := rules + ViewRules();
    }
    if APPLICATIONS_LIFECYCLE in held {
      rules := InsertVerbs(rules, DOCKER, DOCKER_VERBS, "*");
      rules := InsertVerbs(rules, SYSTEMCTL, SYSTEMCTL_VERBS, "*");
    }
    if APPLICATIONS_CONSOLE in held {
      rules := rules + ConsoleRules();
    }
    if NODE_FIREWALL in held {
      rules := InsertForms(rules, "ufw", UFW_FORMS);
      rules := rules + {AllowedCommand(DOCKER_USER_HELPER_PATH, "*")};
    }
    assert rules == NarrowRules(held);
    return if rules == {} then Nothing else Commands(rules);
  }

  /** Holding more never permits less. */
  lemma Monotone(held: set<string>, more: set<string>, line: CommandLine)
    requires held <= more && Permits(PrivilegeFor(held), line)
    ensures Permits(PrivilegeFor(more), line)
  {
    if PrivilegeFor(held).Root? {
      var root := PrivilegeFor(held).reason;
      assert root in ROOT_EQUIVALENT && root in more;
    } else {
      var rule :| rule in NarrowRules(held) && Allows(rule, line);
      assert rule in NarrowRules(more);
    }
  }

  // --- One shared Application.

  datatype Runtime = Docker | Systemd

  /** The file helper, run as the Application's own account on its directory. */
  datatype FileRule = FileRule(account: string, root: string, write: bool)
  datatype SkipReason = FolderUnnameable | NoConsole

  datatype Grant = Grant(id: string, runtime: Runtime, directory: string, permissions: set<string>)

  datatype ApplicationRules = ApplicationRules(
    commands: seq<AllowedCommand>, console: Option<string>, files: Option<FileRule>, skipped: seq<SkipReason>
  )

  /** A UUID as it is written: 36 lowercase hexadecimal digits and hyphens. */
  predicate IsUuid(id: string) {
    |id| == 36 && forall i | 0 <= i < |id| :: '0' <= id[i] <= '9' || 'a' <= id[i] <= 'f' || id[i] == '-'
  }

  function Unit(id: string): string {
    id + ".service"
  }

  /** `dedicated_user::username`: the first twelve hexadecimal digits of the identifier. */
  function Account(id: string): string {
    APP + (if |id| < 13 then id else id[..8] + id[9..13])
  }

  function ApplicationCommands(g: Grant): set<AllowedCommand> {
    if g.runtime.Docker? then
      {AllowedCommand(DOCKER, INSPECT + g.id), AllowedCommand(DOCKER, LOGS + g.id),
       AllowedCommand(DOCKER, LOGS_WITH_OPTIONS + g.id)}
      + (if APPLICATIONS_LIFECYCLE in g.permissions then VerbRules(DOCKER, DOCKER_VERBS, g.id) else {})
    else
      {AllowedCommand(SYSTEMCTL, STATUS + Unit(g.id))}
      + (if APPLICATIONS_LIFECYCLE in g.permissions then VerbRules(SYSTEMCTL, SYSTEMCTL_VERBS, Unit(g.id)) else {})
  }

  function ApplicationConsole(g: Grant): Option<string> {
    if g.runtime.Docker? && APPLICATIONS_CONSOLE in g.permissions then Some(g.id) else None
  }

  /** Everything the Application's rules let the member run as root. */
  predicate ApplicationPermits(g: Grant, line: CommandLine) {
    || AnyAllows(ApplicationCommands(g), line)
    || (ApplicationConsole(g).Some? && Allows(AllowedCommand(CONSOLE_WRITER_PATH, ApplicationConsole(g).value), line))
  }

  function VerbList(program: string, verbs: seq<string>, name: string): seq<AllowedCommand> {
    seq(|verbs|, i requires 0 <= i < |verbs| => AllowedCommand(program, Verb(verbs[i]) + name))
  }

  /** The root commands in the order they are pushed. */
  function CommandList(g: Grant): seq<AllowedCommand> {
    if g.runtime.Docker? then
      [AllowedCommand(DOCKER, INSPECT + g.id), AllowedCommand(DOCKER, LOGS + g.id),
       AllowedCommand(DOCKER, LOGS_WITH_OPTIONS + g.id)]
      + (if APPLICATIONS_LIFECYCLE in g.permissions then VerbList(DOCKER, DOCKER_VERBS, g.id) else [])
    else
      [AllowedCommand(SYSTEMCTL, STATUS + Unit(g.id))]
      + (if APPLICATIONS_LIFECYCLE in g.permissions then VerbList(SYSTEMCTL, SYSTEMCTL_VERBS, Unit(g.id)) else [])
  }

  lemma VerbListIs(program: string, verbs: seq<string>, name: string)
    ensures (set c | c in VerbList(program, verbs, name)) == VerbRules(program, verbs, name)
  {
    var list := VerbList(program, verbs, name);
    forall c | c in VerbRules(program, verbs, name)
      ensures c in list
    {
      var v :| v in verbs && c == AllowedCommand(program, Verb(v) + name);
      var i :| 0 <= i < |verbs| && verbs[i] == v;
      assert list[i] == c;
    }
  }

  lemma CommandListIs(g: Grant)
    ensures (set c | c in CommandList(g)) == ApplicationCommands(g)
  {
    VerbListIs(DOCKER, DOCKER_VERBS, g.id);
    VerbListIs(SYSTEMCTL, SYSTEMCTL_VERBS, Unit(g.id));
  }

  predicate AsksForFiles(g: Grant) {
    FILES_WRITE in g.permissions || FILES_READ in g.permissions
  }

  function TrimSlashes(s: string): (r: string)
    ensures r <= s && (r == "" || r[|r| - 1] != '/')
  {
    if s != "" && s[|s| - 1] == '/' then TrimSlashes(s[..|s| - 1]) else s
  }

  predicate SafeChar(c: char) {
    'a' <= c <= 'z' || 'A' <= c <= 'Z' || '0' <= c <= '9' || c == '/' || c == '.' || c == '_' || c == '-'
  }

  /** A path component `..` starts at `i`. */
  predicate ParentAt(s: string, i: int) {
    At(s, i, "..") && (i == 0 || s[i - 1] == '/') && (i + 2 == |s| || s[i + 2] == '/')
  }

  predicate SafeDirectory(s: string) {
    && |s| > 1 && s[0] == '/'
    && (forall i | 0 <= i <= |s| :: !ParentAt(s, i))
    && (forall i | 0 <= i < |s| :: SafeChar(s[i]))
  }

  /** `rule_safe_directory`. */
  function RuleSafeDirectory(directory: string): Option<string> {
    var trimmed := TrimSlashes(directory);
    if SafeDirectory(trimmed) then Some(trimmed) else None
  }

  /** The file rule a grant earns: none without the permission or without a directory a rule can hold. */
  function GrantedFiles(g: Grant): Option<FileRule> {
    var root := RuleSafeDirectory(g.directory);
    if AsksForFiles(g) && root.Some? then Some(FileRule(Account(g.id), root.value, FILES_WRITE in g.permissions))
    else None
  }

  function Skipped(g: Grant): seq<SkipReason> {
    (if g.runtime.Systemd? && APPLICATIONS_CONSOLE in g.permissions then [NoConsole] else [])
    + (if AsksForFiles(g) && RuleSafeDirectory(g.directory).None? then [FolderUnnameable] else [])
  }

  method PushVerbs(commands: seq<AllowedCommand>, program: string, verbs: seq<string>, name: string)
    returns (out: seq<AllowedCommand>)
    ensures out == commands + VerbList(program, verbs, name)
  {
    out := commands;
    for i := 0 to |verbs|
      invariant out == commands + VerbList(program, verbs, name)[..i]
    {
      var rule := AllowedCommand(program, Verb(verbs[i]) + name);
      assert VerbList(program, verbs, name)[..i + 1] == VerbList(program, verbs, name)[..i] + [rule];
      out := out + [rule];
    }
  }

  /** `application_rules`. */
  method ComputeApplicationRules(g: Grant) returns (rules: ApplicationRules)
    ensures rules.commands == CommandList(g)
    ensures (set c | c in rules.commands) == ApplicationCommands(g)
    ensures rules.console == ApplicationConsole(g)
    ensures rules.files == GrantedFiles(g)
    ensures rules.skipped == Skipped(g)
  {
    var commands: seq<AllowedCommand>, console, files, skipped: seq<SkipReason> := [], None, None, [];
    match g.runtime {
      case Docker =>
        commands := [AllowedCommand(DOCKER, INSPECT + g.id), AllowedCommand(DOCKER, LOGS + g.id),
                     AllowedCommand(DOCKER, LOGS_WITH_OPTIONS + g.id)];
        if APPLICATIONS_LIFECYCLE in g.permissions {
          commands := PushVerbs(commands, DOCKER, DOCKER_VERBS, g.id);
        }
        if APPLICATIONS_CONSOLE in g.permissions {
          console := Some(g.id);
        }
      case Systemd =>
        commands := [AllowedCommand(SYSTEMCTL, STATUS + Unit(g.id))];
        if APPLICATIONS_LIFECYCLE in g.permissions {
          commands := PushVerbs(commands, SYSTEMCTL, SYSTEMCTL_VERBS, Unit(g.id));
        }
        if APPLICATIONS_CONSOLE in g.permissions {
          skipped := skipped + [NoConsole];
        }
    }
    var write := FILES_WRITE in g.permissions;
    if write || FILES_READ in g.permissions {
      match RuleSafeDirectory(g.directory) {
        case Some(root) => files := Some(FileRule(Account(g.id), root, write));
        case None => skipped := skipped + [FolderUnnameable];
      }
    }
    CommandListIs(g);
    return ApplicationRules(commands, console, files, skipped);
  }

  // --- Containment.

  lemma UnitOf(p: string, id: string, line: CommandLine, program: string)
    requires Allows(AllowedCommand(program, p + id), line) && p != ""
    ensures Allows(AllowedCommand(program, p + "*"), line)
  {
    StarEndsAnyWay(p, id, line.arguments);
  }

  /** The Application's command that allows the line has a role-wide counterpart that does. */
  lemma CommandContained(g: Grant, held: set<string>, rule: AllowedCommand, line: CommandLine)
    requires rule in ApplicationCommands(g) && Allows(rule, line)
    requires APPLICATIONS_VIEW in held && (APPLICATIONS_LIFECYCLE in g.permissions ==> APPLICATIONS_LIFECYCLE in held)
    ensures AnyAllows(NarrowRules(held), line)
  {
    var name := if g.runtime.Docker? then g.id else Unit(g.id);
    var program := if g.runtime.Docker? then DOCKER else SYSTEMCTL;
    if rule == AllowedCommand(DOCKER, INSPECT + g.id) {
      UnitOf(INSPECT, g.id, line, DOCKER);
      assert AllowedCommand(DOCKER, INSPECT + "*") in NarrowRules(held);
    } else if rule == AllowedCommand(DOCKER, LOGS + g.id) {
      UnitOf(LOGS, g.id, line, DOCKER);
      assert AllowedCommand(DOCKER, LOGS + "*") in NarrowRules(held);
    } else if rule == AllowedCommand(DOCKER, LOGS_WITH_OPTIONS + g.id) {
      UnitOf(LOGS_WITH_OPTIONS, g.id, line, DOCKER);
      assert AllowedCommand(DOCKER, LOGS_WITH_OPTIONS + "*") in NarrowRules(held);
    } else if rule == AllowedCommand(SYSTEMCTL, STATUS + Unit(g.id)) {
      UnitOf(STATUS, Unit(g.id), line, SYSTEMCTL);
      assert AllowedCommand(SYSTEMCTL, STATUS + "*") in NarrowRules(held);
    } else {
      var verbs := if g.runtime.Docker? then DOCKER_VERBS else SYSTEMCTL_VERBS;
      var v :| v in verbs && rule == AllowedCommand(program, Verb(v) + name);
      UnitOf(Verb(v), name, line, program);
      assert AllowedCommand(program, Verb(v) + "*") in VerbRules(program, verbs, "*");
      assert AllowedCommand(program, Verb(v) + "*") in NarrowRules(held);
    }
  }

  /**
   Whatever the rules of one Application let through, the role-wide rules for
   `applications.view` together with the same permissions let through.
   */
  lemma Contained(g: Grant, line: CommandLine)
    requires ApplicationPermits(g, line)
    ensures Permits(PrivilegeFor(g.permissions + {APPLICATIONS_VIEW}), line)
  {
    var held := g.permissions + {APPLICATIONS_VIEW};
    assert AnyAllows(NarrowRules(held), line) by {
      if AnyAllows(ApplicationCommands(g), line) {
        var rule :| rule in ApplicationCommands(g) && Allows(rule, line);
        CommandContained(g, held, rule, line);
      } else {
        StarMatchesAll(line.arguments);
        assert AllowedCommand(CONSOLE_WRITER_PATH, "*") in NarrowRules(held);
      }
    }
  }

  // --- Separation.

  /** The name the Application's command rules end in. */
  function CommandName(g: Grant): string {
    if g.runtime.Docker? then g.id else Unit(g.id)
  }

  function CommandProgram(g: Grant): string {
    if g.runtime.Docker? then DOCKER else SYSTEMCTL
  }

  lemma CommandsEndInTheName(g: Grant, rule: AllowedCommand, line: CommandLine)
    requires IsUuid(g.id) && rule in ApplicationCommands(g) && Allows(rule, line)
    ensures line.program == CommandProgram(g) && EndsWith(line.arguments, CommandName(g))
  {
    var name := CommandName(g);
    assert '*' !in name;
    var p := if rule.arguments == INSPECT + name then INSPECT
             else if rule.arguments == LOGS + name then LOGS
             else if rule.arguments == LOGS_WITH_OPTIONS + name then LOGS_WITH_OPTIONS
             else STATUS;
    if rule.arguments == p + name {
      LiteralEnd(p, name, line.arguments);
    } else {
      var verbs := if g.runtime.Docker? then DOCKER_VERBS else SYSTEMCTL_VERBS;
      var v :| v in verbs && rule == AllowedCommand(CommandProgram(g), Verb(v) + name);
      LiteralEnd(Verb(v), name, line.arguments);
    }
  }

  lemma SameEnding(s: string, a: string, b: string)
    requires EndsWith(s, a) && EndsWith(s, b) && |a| == |b|
    ensures a == b
  {
  }

  lemma SameUnit(a: string, b: string)
    requires Unit(a) == Unit(b)
    ensures a == b
  {
    assert a == Unit(a)[..|Unit(a)| - 8] && b == Unit(b)[..|Unit(b)| - 8];
  }

  lemma ConsoleNamesTheApplication(id: string, line: CommandLine)
    requires IsUuid(id) && Allows(AllowedCommand(CONSOLE_WRITER_PATH, id), line)
    ensures line == CommandLine(CONSOLE_WRITER_PATH, id)
  {
    LiteralMatches(id, line.arguments);
  }

  lemma OnlyTheConsole(g: Grant, line: CommandLine)
    requires line.program == CONSOLE_WRITER_PATH && ApplicationPermits(g, line)
    ensures Allows(AllowedCommand(CONSOLE_WRITER_PATH, g.id), line)
  {
    assert DOCKER[0] != '/' && SYSTEMCTL[0] != '/' && CONSOLE_WRITER_PATH[0] == '/';
    forall rule | rule in ApplicationCommands(g)
      ensures !Allows(rule, line)
    {
    }
  }

  /** The rules of two different Applications let no command line through in common. */
  lemma Separate(g: Grant, h: Grant, line: CommandLine)
    requires IsUuid(g.id) && IsUuid(h.id)
    requires ApplicationPermits(g, line) && ApplicationPermits(h, line)
    ensures g.id == h.id
  {
    if line.program == CONSOLE_WRITER_PATH {
      OnlyTheConsole(g, line);
      OnlyTheConsole(h, line);
      ConsoleNamesTheApplication(g.id, line);
      ConsoleNamesTheApplication(h.id, line);
    } else {
      var a :| a in ApplicationCommands(g) && Allows(a, line);
      var b :| b in ApplicationCommands(h) && Allows(b, line);
      CommandsEndInTheName(g, a, line);
      CommandsEndInTheName(h, b, line);
      assert DOCKER != SYSTEMCTL;
      SameEnding(line.arguments, CommandName(g), CommandName(h));
      if g.runtime.Systemd? {
        SameUnit(g.id, h.id);
      }
    }
  }

  // --- Files.

  const READ_ONLY_FILE_OPERATIONS: seq<string> := ["realpath", "list", "stat", "read", "readrange", "readsmall"]

  /** `FileRule::commands`, as the set of argument patterns of the file helper. */
  function FilePatterns(rule: FileRule): set<string> {
    if rule.write then {rule.root + " *"}
    else (set op | op in READ_ONLY_FILE_OPERATIONS :: rule.root + (" " + op))
         + (set op | op in READ_ONLY_FILE_OPERATIONS :: rule.root + (" " + (op + " *")))
  }

  predicate FileMatches(rule: FileRule, arguments: string) {
    exists p | p in FilePatterns(rule) :: Match(p, arguments)
  }

  /** Arguments as sudoers matches them: one string, with a space between each two. */
  function Joined(arguments: seq<string>): string {
    if arguments == [] then ""
    else if |arguments| == 1 then arguments[0]
    else arguments[0] + (" " + Joined(arguments[1..]))
  }

  predicate FilePermits(rule: FileRule, arguments: seq<string>) {
    FileMatches(rule, Joined(arguments))
  }

  lemma {:induction false} LiteralStart(x: string, p: string, s: string)
    requires '*' !in x
    ensures Match(x + p, s) <==> x <= s && Match(p, s[|x|..])
    decreases |x|
  {
    if x == "" {
      assert x + p == p && s[0..] == s;
    } else {
      assert x[0] in x && '*' !in x[1..];
      assert (x + p)[1..] == x[1..] + p;
      if s != "" && s[0] == x[0] {
        LiteralStart(x[1..], p, s[1..]);
        assert s == [s[0]] + s[1..] && x == [x[0]] + x[1..];
        if x <= s {
          assert s[1..][|x| - 1..] == s[|x|..];
        }
      }
    }
  }

  lemma StartsWithTheRoot(rule: FileRule, arguments: string)
    requires SafeDirectory(rule.root) && FileMatches(rule, arguments)
    ensures rule.root + " " <= arguments
  {
    var p :| p in FilePatterns(rule) && Match(p, arguments);
    assert '*' !in rule.root by {
      assert forall i | 0 <= i < |rule.root| :: SafeChar(rule.root[i]);
    }
    var tail := p[|rule.root|..];
    assert p == rule.root + tail;
    assert tail == " " + tail[1..];
    assert p == (rule.root + " ") + tail[1..];
    LiteralStart(rule.root + " ", tail[1..], arguments);
  }

  /** Everything a write rule's pattern matches: the root, a space and anything. */
  lemma WriteMatches(account: string, root: string, arguments: string)
    requires SafeDirectory(root)
    ensures FileMatches(FileRule(account, root, true), arguments) <==> root + " " <= arguments
  {
    if root + " " <= arguments {
      assert '*' !in root by {
        assert forall i | 0 <= i < |root| :: SafeChar(root[i]);
      }
      LiteralStart(root + " ", "*", arguments);
      StarMatchesAll(arguments[|root| + 1..]);
      assert (root + " ") + "*" == root + " *";
      assert root + " *" in FilePatterns(FileRule(account, root, true));
    } else if FileMatches(FileRule(account, root, true), arguments) {
      StartsWithTheRoot(FileRule(account, root, true), arguments);
      assert false;
    }
  }

  /** Reading is part of writing. */
  lemma ReadWithinWrite(account: string, root: string, arguments: seq<string>)
    requires SafeDirectory(root) && FilePermits(FileRule(account, root, false), arguments)
    ensures FilePermits(FileRule(account, root, true), arguments)
  {
    StartsWithTheRoot(FileRule(account, root, false), Joined(arguments));
    WriteMatches(account, root, Joined(arguments));
  }

  lemma FirstSpace(root: string, s: string)
    requires SafeDirectory(root) && root + " " <= s
    ensures FirstIn(s, {' '}) == |root| && root == s[..|root|]
  {
    assert s[|root|] == (root + " ")[|root|] == ' ';
    forall i | 0 <= i < |root|
      ensures s[i] != ' '
    {
      assert s[i] == (root + " ")[i] == root[i] && SafeChar(root[i]);
    }
    FirstInIs(s, {' '}, |root|);
  }

  /** The first argument, from the first space of the whole. */
  lemma FirstArgument(arguments: seq<string>, n: nat)
    requires FirstIn(Joined(arguments), {' '}) == n < |Joined(arguments)|
    ensures arguments != []
    ensures if ' ' in arguments[0] then n < |arguments[0]| && arguments[0][..n + 1] == Joined(arguments)[..n + 1]
            else arguments[0] == Joined(arguments)[..n]
  {
    var first, all := arguments[0], Joined(arguments);
    assert forall i | 0 <= i < |first| :: all[i] == first[i];
    var k := FirstIn(first, {' '});
    if ' ' in first {
      FirstInIs(all, {' '}, k);
    } else {
      assert |arguments| > 1;
      assert all[|first|] == ' ';
      FirstInIs(all, {' '}, |first|);
    }
  }

  lemma RootHasNoSpace(root: string)
    requires SafeDirectory(root)
    ensures ' ' !in root
  {
    assert forall i | 0 <= i < |root| :: SafeChar(root[i]);
  }

  /**
   What every file rule fixes: the first argument is its directory, exactly if
   that argument has no space; otherwise it begins with the directory and a
   space.
   */
  lemma HeldToTheRoot(rule: FileRule, arguments: seq<string>)
    requires SafeDirectory(rule.root) && FilePermits(rule, arguments)
    ensures arguments != []
    ensures arguments[0] == rule.root <==> ' ' !in arguments[0]
    ensures ' ' in arguments[0] ==> rule.root + " " <= arguments[0]
  {
    var all := Joined(arguments);
    StartsWithTheRoot(rule, all);
    FirstSpace(rule.root, all);
    FirstArgument(arguments, |rule.root|);
    RootHasNoSpace(rule.root);
    assert all[..|rule.root| + 1] == rule.root + " ";
  }

  lemma OtherDirectoryText()
    ensures Joined(["/srv/app two", "read", "x"]) == "/srv/app" + (" " + "two read x")
    ensures SafeDirectory("/srv/app")
  {
    var rest := ["read", "x"];
    assert ["/srv/app two", "read", "x"][1..] == rest && rest[1..] == ["x"];
    assert Joined(rest) == "read x";
  }

  /** A first argument with a space in it may name another directory. */
  lemma SpaceInTheFirstArgument(account: string, root: string)
    requires root == "/srv/app"
    ensures FilePermits(FileRule(account, root, true), ["/srv/app two", "read", "x"])
    ensures ["/srv/app two", "read", "x"][0] != root
  {
    OtherDirectoryText();
    Assoc(root, " ", "two read x");
    WriteMatches(account, root, Joined(["/srv/app two", "read", "x"]));
  }

  /** Two file rules let something through in common only for the same directory. */
  lemma FileRulesSeparate(a: FileRule, b: FileRule, arguments: seq<string>)
    requires SafeDirectory(a.root) && SafeDirectory(b.root)
    requires FilePermits(a, arguments) && FilePermits(b, arguments)
    ensures a.root == b.root
  {
    var all := Joined(arguments);
    StartsWithTheRoot(a, all);
    StartsWithTheRoot(b, all);
    FirstSpace(a.root, all);
    FirstSpace(b.root, all);
  }

  /** An accepted directory is accepted as it is, whatever slashes follow it. */
  lemma AcceptedDirectory(directory: string)
    requires RuleSafeDirectory(directory).Some?
    ensures var root := RuleSafeDirectory(directory).value;
            && SafeDirectory(root) && root[|root| - 1] != '/'
            && RuleSafeDirectory(root) == Some(root) && RuleSafeDirectory(root + "/") == Some(root)
  {
    var root := RuleSafeDirectory(directory).value;
    assert TrimSlashes(root) == root;
    assert (root + "/")[..|root|] == root;
  }

  /** Every file rule a grant earns names the Application's account and a safe directory. */
  lemma GrantedFilesAreSafe(g: Grant)
    requires GrantedFiles(g).Some?
    ensures var rule := GrantedFiles(g).value; SafeDirectory(rule.root) && rule.account == Account(g.id)
  {
  }

  // --- Which names the role-wide rules let through.

  /** A pattern of literal text and a star at its end lets through what begins with the text. */
  lemma PrefixMatches(text: string, s: string)
    requires '*' !in text
    ensures Match(text + "*", s) <==> text <= s
  {
    LiteralStart(text, "*", s);
    if text <= s {
      StarMatchesAll(s[|text|..]);
    }
  }

  /** Arguments that are words. */
  predicate AllWords(arguments: seq<string>) {
    forall i | 0 <= i < |arguments| :: ' ' !in arguments[i]
  }

  lemma JoinedRest(arguments: seq<string>)
    requires |arguments| > 1
    ensures Joined(arguments) == (arguments[0] + " ") + Joined(arguments[1..])
  {
    Assoc(arguments[0], " ", Joined(arguments[1..]));
  }

  /** A word in front of joined words begins the first of them. */
  lemma BeginsTheFirst(x: string, arguments: seq<string>)
    requires x != "" && ' ' !in x && arguments != [] && ' ' !in arguments[0]
    ensures x <= Joined(arguments) <==> x <= arguments[0]
  {
    var first, all := arguments[0], Joined(arguments);
    assert first <= all;
    if |first| < |x| {
      assert x[|first|] in x;
      assert |arguments| > 1 ==> all[|first|] == ' ';
    }
  }

  lemma SpaceBehind(verb: string, all: string)
    requires ' ' !in verb && verb + " " <= all
    ensures |verb| < |all| && FirstIn(all, {' '}) == |verb| && all[..|verb|] == verb
  {
    assert forall i | 0 <= i <= |verb| :: all[i] == (verb + " ")[i];
    assert forall i | 0 <= i < |verb| :: all[i] == verb[i];
    FirstInIs(all, {' '}, |verb|);
  }

  lemma SamePrefix(a: string, x: string, y: string)
    ensures a + x <= a + y <==> x <= y
  {
    if x <= y {
      assert y == x + y[|x|..];
      Assoc(a, x, y[|x|..]);
    }
    if a + x <= a + y {
      assert forall i | 0 <= i < |x| :: x[i] == (a + x)[|a| + i] == (a + y)[|a| + i] == y[i];
    }
  }

  lemma FirstWordIs(verb: string, arguments: seq<string>)
    requires ' ' !in verb && AllWords(arguments) && verb + " " <= Joined(arguments)
    ensures |arguments| > 1 && arguments[0] == verb
  {
    SpaceBehind(verb, Joined(arguments));
    FirstArgument(arguments, |verb|);
    assert ' ' !in arguments[0];
  }

  lemma TwoWords(verb: string, name: string, arguments: seq<string>)
    requires ' ' !in verb && name != "" && ' ' !in name && AllWords(arguments)
    ensures (verb + " ") + name <= Joined(arguments) <==>
            |arguments| > 1 && arguments[0] == verb && name <= arguments[1]
  {
    if (verb + " ") + name <= Joined(arguments) {
      assert verb + " " <= Joined(arguments);
      FirstWordIs(verb, arguments);
    }
    if |arguments| > 1 && arguments[0] == verb {
      JoinedRest(arguments);
      SamePrefix(verb + " ", name, Joined(arguments[1..]));
      BeginsTheFirst(name, arguments[1..]);
    }
  }

  lemma PlainVerb(verb: string)
    requires '*' !in verb
    ensures '*' !in Verb(verb) && Verb(verb) == (verb + " ") + APP && ' ' !in APP
  {
    Assoc(verb, " ", APP);
  }

  /**
   Of words, a rule on a verb and the Applications' names lets through exactly
   those that begin with the verb and such a name, whatever follows.
   */
  lemma NamedRuleExactly(verb: string, arguments: seq<string>)
    requires ' ' !in verb && '*' !in verb && AllWords(arguments)
    ensures Match(Verb(verb) + "*", Joined(arguments)) <==>
            |arguments| > 1 && arguments[0] == verb && APP <= arguments[1]
  {
    PlainVerb(verb);
    PrefixMatches(Verb(verb), Joined(arguments));
    TwoWords(verb, APP, arguments);
  }

  /** Such a line names nothing but the Application exactly if nothing stands behind its name. */
  lemma OneNameExactly(verb: string, arguments: seq<string>)
    requires ' ' !in verb && '*' !in verb && AllWords(arguments) && Match(Verb(verb) + "*", Joined(arguments))
    ensures |verb| < |Joined(arguments)| && (|arguments| == 2 <==> ' ' !in Joined(arguments)[|verb| + 1..])
  {
    NamedRuleExactly(verb, arguments);
    JoinedRest(arguments);
    var rest, all := arguments[1..], Joined(arguments);
    assert all[|verb| + 1..] == Joined(rest);
    if |arguments| > 2 {
      assert Joined(rest)[|rest[0]|] == ' ';
    }
  }

  lemma OtherContainerText(arguments: seq<string>)
    requires arguments == ["stop", "vibessh-app-x", "other"]
    ensures AllWords(arguments) && APP <= arguments[1]
  {
    assert arguments[1] == APP + "x";
  }

  /** A member who may stop Applications may stop another container on the same line. */
  lemma OtherContainerStopped(arguments: seq<string>)
    requires arguments == ["stop", "vibessh-app-x", "other"]
    ensures AnyAllows(LifecycleRules(), CommandLine(DOCKER, Joined(arguments)))
  {
    OtherContainerText(arguments);
    NamedRuleExactly("stop", arguments);
    assert "stop" == DOCKER_VERBS[1];
    assert AllowedCommand(DOCKER, Verb("stop") + "*") in LifecycleRules();
  }
}
