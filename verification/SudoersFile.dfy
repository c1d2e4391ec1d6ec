/**
 Which rules `sudoers_script` writes for a member, and what they add up to.
 A command is written only if its program is installed on the Node, a file
 rule only if its account exists there.
 */
module SudoersFile {
  import opened Text
  import opened SudoersRules

  /** The member's file in `/etc/sudoers.d`, by what is in it. */
  datatype Rules =
    | Absent
    | Present(
        root: bool,                     // everything, without a password
        helper: bool,                   // the file helper, as any Application's account
        consoles: set<string>,          // the console writer, for these Applications
        commands: set<AllowedCommand>,  // as root
        files: seq<FileRule>)           // the file helper, as one Application's account

  /** What the script finds on the Node. */
  datatype Node = Node(programs: set<string>, accounts: set<string>)

  predicate ConsoleAllows(consoles: set<string>, line: CommandLine) {
    exists id | id in consoles :: Allows(AllowedCommand(CONSOLE_WRITER_PATH, id), line)
  }

  /** What the file lets the member run as root. */
  predicate RunsAsRoot(file: Rules, line: CommandLine) {
    file.Present? &&
    (|| file.root
     || AnyAllows(file.commands, line)
     || ConsoleAllows(file.consoles, line))
  }

  // --- What the member has earned.

  predicate FilesHeld(held: set<string>) {
    "applications.files.read" in held || "applications.files.write" in held
  }

  /** Some shared Application's commands, or its console, allow the line. */
  predicate ApplicationCommandsAllow(grants: seq<Grant>, line: CommandLine) {
    exists g | g in grants :: AnyAllows(ApplicationCommands(g), line)
  }

  function Console(g: Grant): set<string> {
    if ApplicationConsole(g).Some? then {ApplicationConsole(g).value} else {}
  }

  predicate ApplicationConsoleAllows(grants: seq<Grant>, line: CommandLine) {
    exists g | g in grants :: ConsoleAllows(Console(g), line)
  }

  /** The role or a shared Application earns the line, as far as the Node has the program. */
  predicate Earned(held: set<string>, grants: seq<Grant>, node: Node, line: CommandLine) {
    || PrivilegeFor(held).Root?
    || (line.program in node.programs && (Permits(PrivilegeFor(held), line) || ApplicationCommandsAllow(grants, line)))
    || ApplicationConsoleAllows(grants, line)
  }

  /** The grant earns this file rule. */
  predicate Shares(g: Grant, rule: FileRule) {
    GrantedFiles(g) == Some(rule)
  }

  /** Some shared Application earns the file rule, and its account exists. */
  predicate FileEarned(grants: seq<Grant>, node: Node, rule: FileRule) {
    rule.account in node.accounts && exists g | g in grants :: Shares(g, rule)
  }

  // --- Collecting.

  /** The part of `application_rules` that goes into the file, for a grant. */
  predicate RulesOf(g: Grant, r: ApplicationRules) {
    && (set c | c in r.commands) == ApplicationCommands(g)
    && r.console == ApplicationConsole(g)
    && r.files == GrantedFiles(g)
  }

  ghost function AllCommands(grants: seq<Grant>): set<AllowedCommand> {
    if grants == [] then {} else AllCommands(grants[..|grants| - 1]) + ApplicationCommands(grants[|grants| - 1])
  }

  ghost function AllConsoles(grants: seq<Grant>): set<string> {
    if grants == [] then {} else AllConsoles(grants[..|grants| - 1]) + Console(grants[|grants| - 1])
  }

  function File(g: Grant): seq<FileRule> {
    if GrantedFiles(g).Some? then [GrantedFiles(g).value] else []
  }

  ghost function AllFiles(grants: seq<Grant>): seq<FileRule> {
    if grants == [] then [] else AllFiles(grants[..|grants| - 1]) + File(grants[|grants| - 1])
  }

  lemma AllSnoc(grants: seq<Grant>, g: Grant)
    ensures AllCommands(grants + [g]) == AllCommands(grants) + ApplicationCommands(g)
    ensures AllConsoles(grants + [g]) == AllConsoles(grants) + Console(g)
    ensures AllFiles(grants + [g]) == AllFiles(grants) + File(g)
  {
    assert (grants + [g])[..|grants|] == grants;
  }

  /** Being shared an Application earns at least one rule. */
  lemma EarnsSomething(g: Grant)
    ensures ApplicationCommands(g) != {}
  {
    if g.runtime.Docker? {
      assert AllowedCommand(DOCKER, INSPECT + g.id) in ApplicationCommands(g);
    } else {
      assert AllowedCommand(SYSTEMCTL, STATUS + Unit(g.id)) in ApplicationCommands(g);
    }
  }

  predicate AllRulesOf(grants: seq<Grant>, applications: seq<ApplicationRules>) {
    |applications| == |grants| && forall i | 0 <= i < |grants| :: RulesOf(grants[i], applications[i])
  }

  method CollectCommands(role: set<AllowedCommand>, applications: seq<ApplicationRules>, ghost grants: seq<Grant>)
    returns (commands: set<AllowedCommand>)
    requires AllRulesOf(grants, applications)
    ensures commands == role + AllCommands(grants)
    ensures grants != [] ==> commands != {}
  {
    commands := role;
    for i := 0 to |applications|
      invariant commands == role + AllCommands(grants[..i])
      invariant i > 0 ==> commands != {}
    {
      assert grants[..i + 1] == grants[..i] + [grants[i]];
      AllSnoc(grants[..i], grants[i]);
      EarnsSomething(grants[i]);
      commands := commands + (set c | c in applications[i].commands);
    }
    assert grants[..|grants|] == grants;
  }

  method CollectConsoles(applications: seq<ApplicationRules>, ghost grants: seq<Grant>) returns (consoles: set<string>)
    requires AllRulesOf(grants, applications)
    ensures consoles == AllConsoles(grants)
  {
    consoles := {};
    for i := 0 to |applications|
      invariant consoles == AllConsoles(grants[..i])
    {
      assert grants[..i + 1] == grants[..i] + [grants[i]];
      AllSnoc(grants[..i], grants[i]);
      if applications[i].console.Some? {
        consoles := consoles + {applications[i].console.value};
      }
    }
    assert grants[..|grants|] == grants;
  }

  method CollectFiles(applications: seq<ApplicationRules>, ghost grants: seq<Grant>) returns (files: seq<FileRule>)
    requires AllRulesOf(grants, applications)
    ensures files == AllFiles(grants)
  {
    files := [];
    for i := 0 to |applications|
      invariant files == AllFiles(grants[..i])
    {
      assert grants[..i + 1] == grants[..i] + [grants[i]];
      AllSnoc(grants[..i], grants[i]);
      if applications[i].files.Some? {
        files := files + [applications[i].files.value];
      }
    }
    assert grants[..|grants|] == grants;
  }

  // --- What was collected is what was earned.

  lemma AllowsUnion(a: set<AllowedCommand>, b: set<AllowedCommand>, line: CommandLine)
    ensures AnyAllows(a + b, line) <==> AnyAllows(a, line) || AnyAllows(b, line)
  {
  }

  lemma {:induction false} CommandsAddUp(grants: seq<Grant>, line: CommandLine)
    ensures AnyAllows(AllCommands(grants), line) <==> ApplicationCommandsAllow(grants, line)
    decreases |grants|
  {
    if grants == [] {
    } else {
      var n := |grants| - 1;
      CommandsAddUp(grants[..n], line);
      AllowsUnion(AllCommands(grants[..n]), ApplicationCommands(grants[n]), line);
      assert grants == grants[..n] + [grants[n]];
    }
  }

  lemma {:induction false} ConsolesAddUp(grants: seq<Grant>, line: CommandLine)
    ensures ConsoleAllows(AllConsoles(grants), line) <==> ApplicationConsoleAllows(grants, line)
    decreases |grants|
  {
    if grants == [] {
    } else {
      var n := |grants| - 1;
      ConsolesAddUp(grants[..n], line);
      assert ConsoleAllows(AllConsoles(grants), line) <==>
             ConsoleAllows(AllConsoles(grants[..n]), line) || ConsoleAllows(Console(grants[n]), line);
      assert grants == grants[..n] + [grants[n]];
    }
  }

  lemma FileIsShared(g: Grant, rule: FileRule)
    ensures rule in File(g) <==> Shares(g, rule)
  {
  }

  lemma SharedByOneMore(grants: seq<Grant>, g: Grant, rule: FileRule)
    ensures (exists h | h in grants + [g] :: Shares(h, rule)) <==>
            (exists h | h in grants :: Shares(h, rule)) || Shares(g, rule)
  {
    assert forall h :: h in grants + [g] <==> h in grants || h == g;
  }

  lemma FilesOfOneMore(grants: seq<Grant>, g: Grant, rule: FileRule)
    ensures rule in AllFiles(grants + [g]) <==> rule in AllFiles(grants) || Shares(g, rule)
  {
    assert (grants + [g])[..|grants|] == grants;
    FileIsShared(g, rule);
  }

  lemma {:induction false} FilesAddUp(grants: seq<Grant>, rule: FileRule)
    ensures rule in AllFiles(grants) <==> exists g | g in grants :: Shares(g, rule)
    decreases |grants|
  {
    if grants == [] {
    } else {
      var n := |grants| - 1;
      assert grants == grants[..n] + [grants[n]];
      FilesAddUp(grants[..n], rule);
      FilesOfOneMore(grants[..n], grants[n], rule);
      SharedByOneMore(grants[..n], grants[n], rule);
    }
  }

  /** Only rules for what the Node has are written. */
  function Installed(commands: set<AllowedCommand>, node: Node): set<AllowedCommand> {
    set c | c in commands && c.program in node.programs
  }

  lemma InstalledAllows(commands: set<AllowedCommand>, node: Node, line: CommandLine)
    ensures AnyAllows(Installed(commands, node), line) <==> line.program in node.programs && AnyAllows(commands, line)
  {
  }

  method ExistingFiles(files: seq<FileRule>, node: Node) returns (out: seq<FileRule>)
    ensures forall rule :: rule in out <==> rule in files && rule.account in node.accounts
  {
    out := [];
    for i := 0 to |files|
      invariant forall rule :: rule in out <==> rule in files[..i] && rule.account in node.accounts
    {
      assert files[..i + 1] == files[..i] + [files[i]];
      if files[i].account in node.accounts {
        out := out + [files[i]];
      }
    }
    assert files[..|files|] == files;
  }

  function RoleRules(privilege: Privilege): set<AllowedCommand> {
    if privilege.Commands? then privilege.rules else {}
  }

  lemma CollectedIsEarned(held: set<string>, grants: seq<Grant>, node: Node, line: CommandLine)
    requires !PrivilegeFor(held).Root?
    ensures var commands := RoleRules(PrivilegeFor(held)) + AllCommands(grants);
            AnyAllows(Installed(commands, node), line) || ConsoleAllows(AllConsoles(grants), line) <==>
            Earned(held, grants, node, line)
  {
    var role := RoleRules(PrivilegeFor(held));
    InstalledAllows(role + AllCommands(grants), node, line);
    AllowsUnion(role, AllCommands(grants), line);
    CommandsAddUp(grants, line);
    ConsolesAddUp(grants, line);
  }

  lemma FilesAreSafe(grants: seq<Grant>, node: Node, files: seq<FileRule>)
    requires forall rule | rule in files :: FileEarned(grants, node, rule)
    ensures forall rule | rule in files :: SafeDirectory(rule.root)
  {
  }

  /**
   `sudoers_script`, as the file it leaves. It allows as root exactly what was
   earned, and holds exactly the file rules that were, all on safe
   directories; for a root role, which covers everything, the Applications'
   rules are left out. There is no file exactly if nothing was earned.
   */
  method WriteSudoers(permissions: seq<string>, applications: seq<ApplicationRules>,
                      ghost grants: seq<Grant>, node: Node)
    returns (file: Rules)
    requires AllRulesOf(grants, applications)
    ensures var held := set key | key in permissions;
            && (forall line :: RunsAsRoot(file, line) <==> Earned(held, grants, node, line))
            && (file.Present? ==> file.root == PrivilegeFor(held).Root? && file.helper == FilesHeld(held))
            && (file.Present? ==> forall rule :: rule in file.files <==> !file.root && FileEarned(grants, node, rule))
            && (file.Absent? <==> PrivilegeFor(held).Nothing? && !FilesHeld(held) && grants == [])
    ensures file.Present? ==> forall rule | rule in file.files :: SafeDirectory(rule.root)
  {
    ghost var held := set key | key in permissions;
    var privilege := ComputePrivilege(permissions);
    var helper := FILES_READ in permissions || FILES_WRITE in permissions;
    if privilege.Root? {
      return Present(true, helper, {}, {}, []);
    }
    var consoles := CollectConsoles(applications, grants);
    var commands := CollectCommands(RoleRules(privilege), applications, grants);
    var files := CollectFiles(applications, grants);
    forall line
      ensures AnyAllows(Installed(commands, node), line) || ConsoleAllows(consoles, line) <==>
              Earned(held, grants, node, line)
    {
      CollectedIsEarned(held, grants, node, line);
    }
    if commands == {} && consoles == {} && files == [] && !helper {
      return Absent;
    }
    var existing := ExistingFiles(files, node);
    forall rule
      ensures rule in existing <==> FileEarned(grants, node, rule)
    {
      FilesAddUp(grants, rule);
    }
    FilesAreSafe(grants, node, existing);
    return Present(false, helper, consoles, Installed(commands, node), existing);
  }

  /**
   What a member may do with files through the rules of shared Applications:
   as that Application's account, and in a directory that was shared exactly
   if the first argument has no space.
   */
  lemma FilesHeldToShares(grants: seq<Grant>, node: Node, rule: FileRule, arguments: seq<string>) returns (g: Grant)
    requires FileEarned(grants, node, rule) && FilePermits(rule, arguments)
    ensures g in grants && rule.account == Account(g.id) && AsksForFiles(g)
    ensures arguments != [] && RuleSafeDirectory(g.directory) == Some(rule.root)
    ensures RuleSafeDirectory(g.directory) == Some(arguments[0]) <==> ' ' !in arguments[0]
  {
    g :| g in grants && Shares(g, rule);
    GrantedFilesAreSafe(g);
    HeldToTheRoot(rule, arguments);
  }
}
