/**
 Exactly which command lines a member may run as root, on lines of words: what
 each permission earns and what one shared Application earns.
 */
module SudoersLines {
  import opened Text
  import opened SudoersRules
  import opened SudoersFile

  // --- Patterns on words.

  lemma WordsPrefixStep(w: string, arguments: seq<string>, more: string)
    requires ' ' !in w && AllWords(arguments)
    ensures (w + " ") + more <= Joined(arguments) <==>
            |arguments| > 1 && arguments[0] == w && more <= Joined(arguments[1..])
  {
    if (w + " ") + more <= Joined(arguments) {
      assert w + " " <= Joined(arguments);
      FirstWordIs(w, arguments);
    }
    if |arguments| > 1 && arguments[0] == w {
      JoinedRest(arguments);
      SamePrefix(w + " ", more, Joined(arguments[1..]));
    }
  }

  lemma JoinedStep(ws: seq<string>, tail: string)
    requires |ws| > 1
    ensures (Joined(ws) + " ") + tail == (ws[0] + " ") + ((Joined(ws[1..]) + " ") + tail)
  {
    JoinedRest(ws);
    Assoc(ws[0] + " ", Joined(ws[1..]), " ");
    Assoc(ws[0] + " ", Joined(ws[1..]) + " ", tail);
  }

  lemma FirstOfWords(ws: seq<string>, arguments: seq<string>)
    requires ws != [] && |arguments| > |ws|
    ensures arguments[..|ws|] == ws <==> arguments[0] == ws[0] && arguments[1..][..|ws| - 1] == ws[1..]
    ensures arguments[1..][|ws| - 1..] == arguments[|ws|..]
  {
    assert arguments[..|ws|] == [arguments[0]] + arguments[1..][..|ws| - 1];
    assert ws == [ws[0]] + ws[1..];
  }

  lemma {:induction false} WordsPrefix(ws: seq<string>, arguments: seq<string>, tail: string)
    requires ws != [] && AllWords(ws) && AllWords(arguments)
    ensures (Joined(ws) + " ") + tail <= Joined(arguments) <==>
            |arguments| > |ws| && arguments[..|ws|] == ws && tail <= Joined(arguments[|ws|..])
    decreases |ws|
  {
    if |ws| == 1 {
      WordsPrefixStep(ws[0], arguments, tail);
      assert |arguments| > 1 ==> (arguments[..1] == ws <==> arguments[0] == ws[0]);
    } else {
      JoinedStep(ws, tail);
      WordsPrefixStep(ws[0], arguments, (Joined(ws[1..]) + " ") + tail);
      if |arguments| > 1 {
        WordsPrefix(ws[1..], arguments[1..], tail);
      }
      if |arguments| > |ws| {
        FirstOfWords(ws, arguments);
      }
    }
  }

  lemma {:induction false} NoSpaceInOne(arguments: seq<string>)
    requires AllWords(arguments)
    ensures ' ' in Joined(arguments) <==> |arguments| > 1
  {
    if |arguments| > 1 {
      assert Joined(arguments)[|arguments[0]|] == ' ';
    }
  }

  /** Words are read back from the line. */
  lemma {:induction false} WordsExactly(ws: seq<string>, arguments: seq<string>)
    requires ws != [] && ws[|ws| - 1] != "" && AllWords(ws) && AllWords(arguments)
    ensures Joined(arguments) == Joined(ws) <==> arguments == ws
    decreases |ws|
  {
    NoSpaceInOne(arguments);
    if |ws| == 1 {
      assert ws == [ws[0]];
      assert |arguments| == 1 ==> arguments == [arguments[0]];
    } else if Joined(arguments) == Joined(ws) {
      JoinedRest(ws);
      FirstWordIs(ws[0], arguments);
      JoinedRest(arguments);
      assert Joined(arguments[1..]) == Joined(arguments)[|ws[0]| + 1..] == Joined(ws[1..]);
      WordsExactly(ws[1..], arguments[1..]);
      assert ws == [ws[0]] + ws[1..] && arguments == [arguments[0]] + arguments[1..];
    }
  }

  predicate Starless(ws: seq<string>) {
    forall i | 0 <= i < |ws| :: '*' !in ws[i]
  }

  lemma {:induction false} JoinedStarless(ws: seq<string>)
    requires Starless(ws)
    ensures '*' !in Joined(ws)
    decreases |ws|
  {
    if |ws| < 2 {
    } else {
      JoinedStarless(ws[1..]);
    }
  }

  predicate Begins(ws: seq<string>, arguments: seq<string>) {
    |arguments| > |ws| && arguments[..|ws|] == ws
  }

  /** A pattern of words. */
  lemma ExactPattern(ws: seq<string>, arguments: seq<string>)
    requires ws != [] && ws[|ws| - 1] != "" && AllWords(ws) && Starless(ws) && AllWords(arguments)
    ensures Match(Joined(ws), Joined(arguments)) <==> arguments == ws
  {
    JoinedStarless(ws);
    LiteralMatches(Joined(ws), Joined(arguments));
    WordsExactly(ws, arguments);
  }

  /** Words, and anything behind them. */
  lemma OpenPattern(ws: seq<string>, arguments: seq<string>)
    requires ws != [] && AllWords(ws) && Starless(ws) && AllWords(arguments)
    ensures Match(Joined(ws) + " *", Joined(arguments)) <==> Begins(ws, arguments)
  {
    JoinedStarless(ws);
    Assoc(Joined(ws), " ", "*");
    assert " " + "*" == " *";
    PrefixMatches(Joined(ws) + " ", Joined(arguments));
    WordsPrefix(ws, arguments, "");
    assert (Joined(ws) + " ") + "" == Joined(ws) + " ";
  }

  /** Words, a name that begins like this, and anything behind it. */
  lemma NamedPattern(ws: seq<string>, name: string, arguments: seq<string>)
    requires ws != [] && AllWords(ws) && Starless(ws) && AllWords(arguments)
    requires name != "" && ' ' !in name && '*' !in name
    ensures Match(((Joined(ws) + " ") + name) + "*", Joined(arguments)) <==>
            Begins(ws, arguments) && name <= arguments[|ws|]
  {
    JoinedStarless(ws);
    PrefixMatches((Joined(ws) + " ") + name, Joined(arguments));
    WordsPrefix(ws, arguments, name);
    if Begins(ws, arguments) {
      BeginsTheFirst(name, arguments[|ws|..]);
    }
  }

  // --- A name behind options.

  lemma NoSpaceNoName(all: string, name: string)
    requires ' ' !in all
    ensures forall k | 0 <= k <= |all| :: !(" " + name <= all[k..])
  {
    forall k | 0 <= k <= |all|
      ensures !(" " + name <= all[k..])
    {
      assert (" " + name)[0] == ' ';
      assert k < |all| ==> all[k..][0] == all[k];
    }
  }

  /** A space and the name stand somewhere in the text. */
  predicate HasName(all: string, name: string) {
    exists k | 0 <= k <= |all| :: " " + name <= all[k..]
  }

  lemma NotInFirst(first: string, tail: string, name: string, k: nat)
    requires ' ' !in first && k < |first|
    ensures !(" " + name <= (first + (" " + tail))[k..])
  {
    assert (first + (" " + tail))[k..][0] == first[k] && (" " + name)[0] == ' ';
  }

  lemma NameInTail(first: string, tail: string, name: string)
    requires ' ' !in first && HasName(first + (" " + tail), name)
    ensures name <= tail || HasName(tail, name)
  {
    var all := first + (" " + tail);
    var k :| 0 <= k <= |all| && " " + name <= all[k..];
    if k < |first| {
      NotInFirst(first, tail, name, k);
    } else if k == |first| {
      assert all[k..] == " " + tail;
      SamePrefix(" ", name, tail);
    } else {
      assert all[k..] == tail[k - |first| - 1..];
    }
  }

  lemma NameOfTail(first: string, tail: string, name: string)
    requires name <= tail || HasName(tail, name)
    ensures HasName(first + (" " + tail), name)
  {
    var all := first + (" " + tail);
    if name <= tail {
      assert all[|first|..] == " " + tail;
      SamePrefix(" ", name, tail);
    } else {
      var k :| 0 <= k <= |tail| && " " + name <= tail[k..];
      assert all[k + |first| + 1..] == tail[k..];
    }
  }

  predicate SomeBegins(arguments: seq<string>, name: string) {
    exists i | 1 <= i < |arguments| :: name <= arguments[i]
  }

  lemma SomeOfTheRest(arguments: seq<string>, name: string)
    requires |arguments| > 1
    ensures SomeBegins(arguments, name) <==> name <= arguments[1] || SomeBegins(arguments[1..], name)
  {
    var rest := arguments[1..];
    assert forall i | 1 <= i < |rest| :: rest[i] == arguments[i + 1];
    assert forall i | 2 <= i < |arguments| :: arguments[i] == rest[i - 1];
  }

  /** A space and a name stand in the line if and only if some word but the first begins with the name. */
  lemma {:induction false} NameBehindASpace(arguments: seq<string>, name: string)
    requires AllWords(arguments) && name != "" && ' ' !in name
    ensures HasName(Joined(arguments), name) <==> SomeBegins(arguments, name)
    decreases |arguments|
  {
    if |arguments| < 2 {
      NoSpaceInOne(arguments);
      NoSpaceNoName(Joined(arguments), name);
    } else {
      var first, rest := arguments[0], arguments[1..];
      var tail := Joined(rest);
      NameBehindASpace(rest, name);
      BeginsTheFirst(name, rest);
      SomeOfTheRest(arguments, name);
      assert Joined(arguments) == first + (" " + tail);
      if HasName(Joined(arguments), name) {
        NameInTail(first, tail, name);
      } else if name <= tail || HasName(tail, name) {
        NameOfTail(first, tail, name);
      }
    }
  }

  /** `verb * name*` */
  lemma OptionsThenName(verb: string, name: string, arguments: seq<string>)
    requires ' ' !in verb && '*' !in verb && AllWords(arguments)
    requires name != "" && ' ' !in name && '*' !in name
    ensures Match((verb + " ") + ("*" + ((" " + name) + "*")), Joined(arguments)) <==>
            |arguments| > 1 && arguments[0] == verb && exists i | 2 <= i < |arguments| :: name <= arguments[i]
  {
    var all, rest := Joined(arguments), (" " + name) + "*";
    LiteralStart(verb + " ", "*" + rest, all);
    WordsPrefixStep(verb, arguments, "");
    assert (verb + " ") + "" == verb + " ";
    if verb + " " <= all {
      JoinedRest(arguments);
      var tail := Joined(arguments[1..]);
      assert all[|verb| + 1..] == tail;
      StarMeans(rest, tail);
      forall k | 0 <= k <= |tail|
        ensures Match(rest, tail[k..]) <==> " " + name <= tail[k..]
      {
        PrefixMatches(" " + name, tail[k..]);
      }
      NameBehindASpace(arguments[1..], name);
      assert forall i | 1 <= i < |arguments[1..]| :: arguments[1..][i] == arguments[i + 1];
      assert forall i | 2 <= i < |arguments| :: arguments[i] == arguments[1..][i - 1];
    }
  }

  lemma EndsSomewhere(s: string, x: string)
    ensures (exists k | 0 <= k <= |s| :: s[k..] == x) <==> EndsWith(s, x)
  {
    if EndsWith(s, x) {
      assert s[|s| - |x|..] == x;
    }
  }

  /** Behind the first word, the end of a line is the end of the rest. */
  lemma EndOfTheRest(first: string, rest: string, name: string)
    requires ' ' !in name
    ensures EndsWith((first + " ") + rest, " " + name) <==> EndsWith(rest, " " + name) || rest == name
  {
    var all, x := (first + " ") + rest, " " + name;
    assert x[0] == ' ' && x[1..] == name;
    if |rest| >= |x| {
      assert all[|all| - |x|..] == rest[|rest| - |x|..];
    } else if |rest| == |name| {
      assert all[|all| - |x|..] == " " + rest;
      assert (" " + rest)[1..] == rest;
    } else if |all| >= |x| {
      var k := |name| - |rest|;
      assert all[|all| - |x|..][k] == ' ';
      assert x[k] == name[k - 1];
    }
  }

  /** The line ends in a space and a name if and only if the name is its last word, and not its only one. */
  lemma {:induction false} NameAtTheEnd(arguments: seq<string>, name: string)
    requires AllWords(arguments) && name != "" && ' ' !in name
    ensures EndsWith(Joined(arguments), " " + name) <==> |arguments| > 1 && arguments[|arguments| - 1] == name
    decreases |arguments|
  {
    if |arguments| < 2 {
      NoSpaceInOne(arguments);
      assert (" " + name)[0] == ' ';
    } else {
      var rest := arguments[1..];
      NameAtTheEnd(rest, name);
      JoinedRest(arguments);
      EndOfTheRest(arguments[0], Joined(rest), name);
      WordsExactly([name], rest);
      assert rest[|rest| - 1] == arguments[|arguments| - 1];
    }
  }

  /** `verb * name` */
  lemma OptionsThenExactly(verb: string, name: string, arguments: seq<string>)
    requires ' ' !in verb && '*' !in verb && AllWords(arguments)
    requires name != "" && ' ' !in name && '*' !in name
    ensures Match((verb + " ") + ("*" + (" " + name)), Joined(arguments)) <==>
            |arguments| > 2 && arguments[0] == verb && arguments[|arguments| - 1] == name
  {
    var all, rest := Joined(arguments), " " + name;
    LiteralStart(verb + " ", "*" + rest, all);
    WordsPrefixStep(verb, arguments, "");
    assert (verb + " ") + "" == verb + " ";
    if verb + " " <= all {
      JoinedRest(arguments);
      var tail := Joined(arguments[1..]);
      assert all[|verb| + 1..] == tail;
      StarMeans(rest, tail);
      forall k | 0 <= k <= |tail|
        ensures Match(rest, tail[k..]) <==> tail[k..] == rest
      {
        LiteralMatches(rest, tail[k..]);
      }
      EndsSomewhere(tail, rest);
      NameAtTheEnd(arguments[1..], name);
    }
  }

  // --- What a permission earns.

  /** A name of an Application's container or unit. */
  predicate Names(w: string) {
    "vibessh-app-" <= w
  }

  predicate ViewLine(program: string, a: seq<string>) {
    || (program == "docker" && |a| > 0 &&
        (|| a[0] == "ps"
         || (a[0] == "inspect" && |a| > 1 && Names(a[1]))
         || (a[0] == "logs" && exists i | 1 <= i < |a| :: Names(a[i]))))
    || (program == "systemctl" && |a| > 2 && a[0] == "status" && a[1] == "--no-pager" && Names(a[2]))
  }

  predicate LifecycleLine(program: string, a: seq<string>) {
    && |a| > 1 && Names(a[1])
    && (|| (program == "docker" && a[0] in {"start", "stop", "restart", "kill"})
        || (program == "systemctl" && a[0] in {"start", "stop", "restart"}))
  }

  predicate FirewallLine(program: string, a: seq<string>) {
    || (program == "ufw" &&
        (|| a == ["status"] || a == ["show", "added"] || a == ["--force", "enable"]
         || (|a| > 1 && a[0] == "allow") || (|a| > 2 && a[0] == "delete" && a[1] == "allow")))
    || program == "/usr/local/lib/vibessh/docker-user"
  }

  lemma AppText()
    ensures APP == "vibessh-app-" && APP != "" && ' ' !in APP && '*' !in APP
  {
  }

  predicate Plain(w: string) {
    w != "" && ' ' !in w && '*' !in w
  }

  lemma OneWord(w: string, a: seq<string>)
    requires AllWords(a) && Plain(w)
    ensures Match(w, Joined(a)) <==> a == [w]
    ensures Match(w + " *", Joined(a)) <==> |a| > 1 && a[0] == w
  {
    assert Joined([w]) == w;
    ExactPattern([w], a);
    OpenPattern([w], a);
    assert |a| > 1 ==> (a[..1] == [w] <==> a[0] == w);
  }

  lemma JoinedTwo(v: string, w: string)
    ensures Joined([v, w]) == v + (" " + w)
  {
    assert [v, w][1..] == [w];
  }

  lemma TwoPlainWords(v: string, w: string, a: seq<string>)
    requires AllWords(a) && Plain(v) && Plain(w)
    ensures Match(v + (" " + w), Joined(a)) <==> a == [v, w]
    ensures Match((v + (" " + w)) + " *", Joined(a)) <==> |a| > 2 && a[0] == v && a[1] == w
  {
    var ws := [v, w];
    JoinedTwo(v, w);
    ExactPattern(ws, a);
    OpenPattern(ws, a);
    assert |a| > 2 ==> (a[..2] == ws <==> a[0] == v && a[1] == w);
  }

  lemma TwoPlainWordsAndName(v: string, w: string, name: string, a: seq<string>)
    requires AllWords(a) && Plain(v) && Plain(w) && Plain(name)
    ensures Match((((v + (" " + w)) + " ") + name) + "*", Joined(a)) <==>
            |a| > 2 && a[0] == v && a[1] == w && name <= a[2]
  {
    var ws := [v, w];
    JoinedTwo(v, w);
    NamedPattern(ws, name, a);
    assert |a| > 2 ==> (a[..2] == ws <==> a[0] == v && a[1] == w);
  }

  lemma FirstWordOnly(w: string, open: string, a: seq<string>)
    requires AllWords(a) && Plain(w) && open == w + " *"
    ensures Match(w, Joined(a)) || Match(open, Joined(a)) <==> |a| > 0 && a[0] == w
  {
    OneWord(w, a);
    assert |a| == 1 ==> (a == [w] <==> a[0] == w);
  }

  lemma Listing(a: seq<string>)
    requires AllWords(a)
    ensures Match("ps", Joined(a)) || Match("ps *", Joined(a)) <==> |a| > 0 && a[0] == "ps"
  {
    assert "ps" + " *" == "ps *";
    FirstWordOnly("ps", "ps *", a);
  }

  lemma VerbAndName(verb: string, a: seq<string>)
    requires AllWords(a) && ' ' !in verb && '*' !in verb
    ensures Match(Verb(verb) + "*", Joined(a)) <==> |a| > 1 && a[0] == verb && Names(a[1])
  {
    AppText();
    NamedRuleExactly(verb, a);
  }

  lemma Logging(a: seq<string>)
    requires AllWords(a)
    ensures Match(LOGS_WITH_OPTIONS + "*", Joined(a)) <==>
            |a| > 1 && a[0] == "logs" && exists i | 2 <= i < |a| :: Names(a[i])
  {
    AppText();
    assert LOGS_WITH_OPTIONS == ("logs" + " ") + ("*" + (" " + APP));
    Assoc("*", " " + APP, "*");
    Assoc("logs" + " ", "*" + (" " + APP), "*");
    OptionsThenName("logs", APP, a);
  }

  lemma StatusText()
    ensures STATUS == (("status" + (" " + "--no-pager")) + " ") + APP
  {
  }

  lemma StatusWords(v: string, w: string)
    requires v == "status" && w == "--no-pager"
    ensures Plain(v) && Plain(w)
  {
  }

  lemma StatusOf(v: string, w: string, name: string, status: string, a: seq<string>)
    requires AllWords(a) && Plain(v) && Plain(w) && Plain(name) && status == ((v + (" " + w)) + " ") + name
    ensures Match(status + "*", Joined(a)) <==> |a| > 2 && a[0] == v && a[1] == w && name <= a[2]
  {
    TwoPlainWordsAndName(v, w, name, a);
  }

  lemma Status(a: seq<string>)
    requires AllWords(a)
    ensures Match(STATUS + "*", Joined(a)) <==> |a| > 2 && a[0] == "status" && a[1] == "--no-pager" && Names(a[2])
  {
    AppText();
    StatusText();
    StatusWords("status", "--no-pager");
    StatusOf("status", "--no-pager", APP, STATUS, a);
  }

  lemma ViewRulesAllow(program: string, s: string)
    ensures AnyAllows(ViewRules(), CommandLine(program, s)) <==>
            || (program == DOCKER &&
                (|| Match("ps", s) || Match("ps *", s) || Match(INSPECT + "*", s) || Match(LOGS + "*", s)
                 || Match(LOGS_WITH_OPTIONS + "*", s)))
            || (program == SYSTEMCTL && Match(STATUS + "*", s))
  {
    var line := CommandLine(program, s);
    assert Allows(AllowedCommand(DOCKER, "ps"), line) <==> program == DOCKER && Match("ps", s);
    assert Allows(AllowedCommand(DOCKER, "ps *"), line) <==> program == DOCKER && Match("ps *", s);
    assert Allows(AllowedCommand(DOCKER, INSPECT + "*"), line) <==> program == DOCKER && Match(INSPECT + "*", s);
    assert Allows(AllowedCommand(DOCKER, LOGS + "*"), line) <==> program == DOCKER && Match(LOGS + "*", s);
    assert Allows(AllowedCommand(DOCKER, LOGS_WITH_OPTIONS + "*"), line) <==>
           program == DOCKER && Match(LOGS_WITH_OPTIONS + "*", s);
    assert Allows(AllowedCommand(SYSTEMCTL, STATUS + "*"), line) <==> program == SYSTEMCTL && Match(STATUS + "*", s);
  }

  lemma ViewExactly(program: string, a: seq<string>)
    requires AllWords(a)
    ensures AnyAllows(ViewRules(), CommandLine(program, Joined(a))) <==> ViewLine(program, a)
  {
    ViewRulesAllow(program, Joined(a));
    Listing(a);
    assert INSPECT == Verb("inspect") && LOGS == Verb("logs");
    VerbAndName("inspect", a);
    VerbAndName("logs", a);
    Logging(a);
    Status(a);
    assert DOCKER == "docker" && SYSTEMCTL == "systemctl";
  }

  /** Rules on verbs and one name pattern. */
  lemma VerbRulesAllow(rule: string, verbs: seq<string>, name: string, program: string, s: string)
    requires name != ""
    ensures AnyAllows(VerbRules(rule, verbs, name), CommandLine(program, s)) <==>
            program == rule && exists v | v in verbs :: Match(Verb(v) + name, s)
  {
    var line, rules := CommandLine(program, s), VerbRules(rule, verbs, name);
    if program == rule && exists v | v in verbs :: Match(Verb(v) + name, s) {
      var v :| v in verbs && Match(Verb(v) + name, s);
      assert AllowedCommand(rule, Verb(v) + name) in rules;
      assert Allows(AllowedCommand(rule, Verb(v) + name), line);
    }
  }

  lemma VerbsExactly(rule: string, verbs: seq<string>, program: string, a: seq<string>)
    requires AllWords(a) && forall i | 0 <= i < |verbs| :: ' ' !in verbs[i] && '*' !in verbs[i]
    ensures AnyAllows(VerbRules(rule, verbs, "*"), CommandLine(program, Joined(a))) <==>
            program == rule && |a| > 1 && a[0] in verbs && Names(a[1])
  {
    VerbRulesAllow(rule, verbs, "*", program, Joined(a));
    forall v | v in verbs
      ensures Match(Verb(v) + "*", Joined(a)) <==> |a| > 1 && a[0] == v && Names(a[1])
    {
      VerbAndName(v, a);
    }
  }

  lemma AllowsEither(one: set<AllowedCommand>, other: set<AllowedCommand>, line: CommandLine)
    ensures AnyAllows(one + other, line) <==> AnyAllows(one, line) || AnyAllows(other, line)
  {
  }

  lemma LifecycleExactly(program: string, a: seq<string>)
    requires AllWords(a)
    ensures AnyAllows(LifecycleRules(), CommandLine(program, Joined(a))) <==> LifecycleLine(program, a)
  {
    VerbsExactly(DOCKER, DOCKER_VERBS, program, a);
    VerbsExactly(SYSTEMCTL, SYSTEMCTL_VERBS, program, a);
    AllowsEither(VerbRules(DOCKER, DOCKER_VERBS, "*"), VerbRules(SYSTEMCTL, SYSTEMCTL_VERBS, "*"),
                 CommandLine(program, Joined(a)));
    assert DOCKER_VERBS == ["start", "stop", "restart", "kill"] && SYSTEMCTL_VERBS == ["start", "stop", "restart"];
    assert DOCKER == "docker" && SYSTEMCTL == "systemctl";
  }

  lemma ConsoleExactly(program: string, a: seq<string>)
    ensures AnyAllows(ConsoleRules(), CommandLine(program, Joined(a))) <==>
            program == "/usr/local/lib/vibessh/console-write"
  {
    StarMatchesAll(Joined(a));
    assert Allows(AllowedCommand(CONSOLE_WRITER_PATH, "*"), CommandLine(program, Joined(a))) <==>
           program == CONSOLE_WRITER_PATH;
  }

  lemma UfwTexts()
    ensures UFW_FORMS == ["status", "show" + (" " + "added"), "--force" + (" " + "enable"), "allow" + " *",
                          ("delete" + (" " + "allow")) + " *"]
  {
    assert "show added" == "show" + (" " + "added");
    assert "--force enable" == "--force" + (" " + "enable");
    assert "allow *" == "allow" + " *";
    assert "delete allow *" == ("delete" + (" " + "allow")) + " *";
  }

  lemma FirewallRulesAllow(program: string, s: string)
    ensures AnyAllows(FirewallRules(), CommandLine(program, s)) <==>
            || (program == "ufw" && exists f | f in UFW_FORMS :: Match(f, s))
            || program == "/usr/local/lib/vibessh/docker-user"
  {
    var line := CommandLine(program, s);
    StarMatchesAll(s);
    assert Allows(AllowedCommand(DOCKER_USER_HELPER_PATH, "*"), line) <==> program == DOCKER_USER_HELPER_PATH;
    assert AllowedCommand(DOCKER_USER_HELPER_PATH, "*") in FirewallRules();
    forall f | f in UFW_FORMS
      ensures AllowedCommand("ufw", f) in FirewallRules()
      ensures Allows(AllowedCommand("ufw", f), line) <==> program == "ufw" && Match(f, s)
    {
    }
  }

  lemma AnyOfFive(forms: seq<string>, s: string)
    requires |forms| == 5
    ensures (exists f | f in forms :: Match(f, s)) <==>
            Match(forms[0], s) || Match(forms[1], s) || Match(forms[2], s) || Match(forms[3], s) || Match(forms[4], s)
  {
  }

  lemma UfwExactly(forms: seq<string>, v: seq<string>, a: seq<string>)
    requires AllWords(a) && |v| == 7 && forall i | 0 <= i < 7 :: Plain(v[i])
    requires forms == [v[0], v[1] + (" " + v[2]), v[3] + (" " + v[4]), v[5] + " *", (v[6] + (" " + v[5])) + " *"]
    ensures (exists f | f in forms :: Match(f, Joined(a))) <==>
            || a == [v[0]] || a == [v[1], v[2]] || a == [v[3], v[4]]
            || (|a| > 1 && a[0] == v[5]) || (|a| > 2 && a[0] == v[6] && a[1] == v[5])
  {
    AnyOfFive(forms, Joined(a));
    OneWord(v[0], a);
    TwoPlainWords(v[1], v[2], a);
    TwoPlainWords(v[3], v[4], a);
    OneWord(v[5], a);
    TwoPlainWords(v[6], v[5], a);
  }

  lemma FirewallExactly(program: string, a: seq<string>)
    requires AllWords(a)
    ensures AnyAllows(FirewallRules(), CommandLine(program, Joined(a))) <==> FirewallLine(program, a)
  {
    FirewallRulesAllow(program, Joined(a));
    UfwTexts();
    UfwExactly(UFW_FORMS, ["status", "show", "added", "--force", "enable", "allow", "delete"], a);
  }

  // --- The theorems.

  const ROOT_KEYS: set<string> := {
    "node.terminal", "node.software", "node.services", "node.network", "applications.create", "applications.delete",
    "applications.config", "applications.databases", "applications.backups"
  }

  /** A member is root if and only if they hold one of nine permissions. */
  lemma RootExactly(held: set<string>)
    ensures PrivilegeFor(held).Root? <==> exists key | key in ROOT_KEYS :: key in held
    ensures PrivilegeFor(held).Root? ==> PrivilegeFor(held).reason in ROOT_KEYS && PrivilegeFor(held).reason in held
  {
    assert forall key :: key in ROOT_KEYS <==> key in ROOT_EQUIVALENT;
  }

  lemma NarrowAllows(held: set<string>, line: CommandLine)
    ensures AnyAllows(NarrowRules(held), line) <==>
            || ("applications.view" in held && AnyAllows(ViewRules(), line))
            || ("applications.lifecycle" in held && AnyAllows(LifecycleRules(), line))
            || ("applications.console" in held && AnyAllows(ConsoleRules(), line))
            || ("node.firewall" in held && AnyAllows(FirewallRules(), line))
  {
    var view := if APPLICATIONS_VIEW in held then ViewRules() else {};
    var lifecycle := if APPLICATIONS_LIFECYCLE in held then LifecycleRules() else {};
    var console := if APPLICATIONS_CONSOLE in held then ConsoleRules() else {};
    var firewall := if NODE_FIREWALL in held then FirewallRules() else {};
    AllowsEither(view, lifecycle, line);
    AllowsEither(view + lifecycle, console, line);
    AllowsEither(view + lifecycle + console, firewall, line);
  }

  /** What the permissions earn, of words. */
  predicate RoleLine(held: set<string>, program: string, a: seq<string>) {
    || ("applications.view" in held && ViewLine(program, a))
    || ("applications.lifecycle" in held && LifecycleLine(program, a))
    || ("applications.console" in held && program == "/usr/local/lib/vibessh/console-write")
    || ("node.firewall" in held && FirewallLine(program, a))
  }

  /** Without one of those nine, the permissions earn exactly these lines of words. */
  lemma PermitsExactly(held: set<string>, program: string, a: seq<string>)
    requires AllWords(a) && held !! ROOT_KEYS
    ensures Permits(PrivilegeFor(held), CommandLine(program, Joined(a))) <==>
            RoleLine(held, program, a)
  {
    RootExactly(held);
    NarrowAllows(held, CommandLine(program, Joined(a)));
    ViewExactly(program, a);
    LifecycleExactly(program, a);
    ConsoleExactly(program, a);
    FirewallExactly(program, a);
  }

  /** Who may only view may run exactly the lines for viewing. */
  lemma ViewerExactly(program: string, a: seq<string>)
    requires AllWords(a)
    ensures Permits(PrivilegeFor({"applications.view"}), CommandLine(program, Joined(a))) <==> ViewLine(program, a)
  {
    PermitsExactly({"applications.view"}, program, a);
  }

  /** No verb of a lifecycle is one of viewing. */
  lemma VerbsDiffer(v: string)
    requires v == "start" || v == "stop" || v == "restart" || v == "kill"
    ensures v != "ps" && v != "inspect" && v != "logs" && v != "status"
  {
    assert v[0] == 's' || v[0] == 'r' || v[0] == 'k';
  }

  lemma NoLineForIt(held: set<string>, program: string, a: seq<string>)
    requires a != [] && "applications.lifecycle" !in held && (program == "docker" || program == "systemctl")
    requires a[0] != "ps" && a[0] != "inspect" && a[0] != "logs" && a[0] != "status"
    ensures !RoleLine(held, program, a)
  {
    assert !ViewLine(program, a);
    assert |program| < 10;
  }

  /** Nobody starts or stops anything without the permission for it. */
  lemma LifecycleNeedsItsPermission(held: set<string>, program: string, a: seq<string>)
    requires AllWords(a) && a != [] && held !! ROOT_KEYS && "applications.lifecycle" !in held
    requires || (program == "docker" && a[0] in {"start", "stop", "restart", "kill"})
             || (program == "systemctl" && a[0] in {"start", "stop", "restart"})
    ensures !Permits(PrivilegeFor(held), CommandLine(program, Joined(a)))
  {
    assert !RoleLine(held, program, a) by {
      VerbsDiffer(a[0]);
      NoLineForIt(held, program, a);
    }
    PermitsExactly(held, program, a);
  }

  /** Nor touches the firewall or a console. */
  lemma FirewallAndConsoleNeedTheirs(held: set<string>, a: seq<string>)
    requires AllWords(a) && held !! ROOT_KEYS
    ensures "node.firewall" !in held ==> !Permits(PrivilegeFor(held), CommandLine("ufw", Joined(a)))
    ensures "applications.console" !in held ==>
            !Permits(PrivilegeFor(held), CommandLine("/usr/local/lib/vibessh/console-write", Joined(a)))
  {
    PermitsExactly(held, "ufw", a);
    PermitsExactly(held, "/usr/local/lib/vibessh/console-write", a);
  }

  // --- What one shared Application earns.

  predicate ApplicationCommandLine(g: Grant, program: string, a: seq<string>) {
    if g.runtime.Docker? then
      var name := "vibessh-app-" + g.id;
      program == "docker" &&
      (|| a == ["inspect", name]
       || (|a| > 1 && a[0] == "logs" && a[|a| - 1] == name)
       || ("applications.lifecycle" in g.permissions
           && |a| == 2 && a[0] in {"start", "stop", "restart", "kill"} && a[1] == name))
    else
      var unit := "vibessh-app-" + (g.id + ".service");
      program == "systemctl" &&
      (|| a == ["status", "--no-pager", unit]
       || ("applications.lifecycle" in g.permissions
           && |a| == 2 && a[0] in {"start", "stop", "restart"} && a[1] == unit))
  }

  predicate ApplicationConsoleLine(g: Grant, program: string, a: seq<string>) {
    && g.runtime.Docker? && "applications.console" in g.permissions
    && program == "/usr/local/lib/vibessh/console-write" && a == [g.id]
  }

  predicate ApplicationLine(g: Grant, program: string, a: seq<string>) {
    ApplicationCommandLine(g, program, a) || ApplicationConsoleLine(g, program, a)
  }

  lemma NameIsPlain(id: string)
    requires IsUuid(id)
    ensures Plain(id) && Plain(APP + id) && Plain(APP + Unit(id))
  {
    assert forall i | 0 <= i < |id| :: id[i] != ' ' && id[i] != '*';
    assert ' ' !in ".service" && '*' !in ".service";
  }

  lemma VerbNameText(verb: string, name: string)
    ensures Verb(verb) + name == verb + (" " + (APP + name))
  {
    Assoc(verb, " " + APP, name);
    Assoc(" ", APP, name);
  }

  lemma VerbsOnOneName(rule: string, verbs: seq<string>, name: string, program: string, a: seq<string>)
    requires AllWords(a) && Plain(APP + name) && name != "" && forall i | 0 <= i < |verbs| :: Plain(verbs[i])
    ensures AnyAllows(VerbRules(rule, verbs, name), CommandLine(program, Joined(a))) <==>
            program == rule && |a| == 2 && a[0] in verbs && a[1] == APP + name
  {
    VerbRulesAllow(rule, verbs, name, program, Joined(a));
    forall v | v in verbs
      ensures Match(Verb(v) + name, Joined(a)) <==> |a| == 2 && a[0] == v && a[1] == APP + name
    {
      VerbNameText(v, name);
      TwoPlainWords(v, APP + name, a);
      assert |a| == 2 ==> a == [a[0], a[1]];
    }
  }

  lemma LogsOfOne(id: string, a: seq<string>)
    requires AllWords(a) && Plain(APP + id)
    ensures Match(LOGS_WITH_OPTIONS + id, Joined(a)) <==> |a| > 2 && a[0] == "logs" && a[|a| - 1] == APP + id
  {
    assert LOGS_WITH_OPTIONS == ("logs" + " ") + ("*" + (" " + APP));
    Assoc(" ", APP, id);
    Assoc("*", " " + APP, id);
    Assoc("logs" + " ", "*" + (" " + APP), id);
    OptionsThenExactly("logs", APP + id, a);
  }

  lemma StatusOfOneText(v: string, w: string, app: string, name: string)
    ensures (((v + (" " + w)) + " ") + app) + name == v + (" " + (w + (" " + (app + name))))
  {
    Assoc((v + (" " + w)) + " ", app, name);
    Assoc(v + (" " + w), " ", app + name);
    Assoc(v, " " + w, " " + (app + name));
    Assoc(" ", w, " " + (app + name));
  }

  lemma StatusOfOne(name: string, a: seq<string>)
    requires AllWords(a) && Plain(APP + name)
    ensures Match(STATUS + name, Joined(a)) <==> a == ["status", "--no-pager", APP + name]
  {
    var ws := ["status", "--no-pager", APP + name];
    StatusText();
    assert ws[1..] == ["--no-pager", APP + name];
    JoinedTwo("--no-pager", APP + name);
    StatusOfOneText("status", "--no-pager", APP, name);
    ExactPattern(ws, a);
  }

  function ReadingRules(inspect: string, logs: string, options: string): set<AllowedCommand> {
    {AllowedCommand("docker", inspect), AllowedCommand("docker", logs), AllowedCommand("docker", options)}
  }

  lemma ReadingRulesAllow(inspect: string, logs: string, options: string, program: string, s: string)
    requires inspect != "" && logs != "" && options != ""
    ensures AnyAllows(ReadingRules(inspect, logs, options), CommandLine(program, s)) <==>
            program == "docker" && (Match(inspect, s) || Match(logs, s) || Match(options, s))
  {
    var line := CommandLine(program, s);
    assert Allows(AllowedCommand("docker", inspect), line) <==> program == "docker" && Match(inspect, s);
    assert Allows(AllowedCommand("docker", logs), line) <==> program == "docker" && Match(logs, s);
    assert Allows(AllowedCommand("docker", options), line) <==> program == "docker" && Match(options, s);
  }

  lemma VerbOfOne(verb: string, pattern: string, id: string, a: seq<string>)
    requires AllWords(a) && Plain(verb) && Plain(APP + id) && pattern == Verb(verb)
    ensures Match(pattern + id, Joined(a)) <==> a == [verb, APP + id]
  {
    VerbNameText(verb, id);
    TwoPlainWords(verb, APP + id, a);
  }

  lemma ReadingMatches(id: string, inspect: string, logs: string, options: string, a: seq<string>)
    requires AllWords(a) && IsUuid(id)
    requires inspect == INSPECT + id && logs == LOGS + id && options == LOGS_WITH_OPTIONS + id
    ensures Match(inspect, Joined(a)) || Match(logs, Joined(a)) || Match(options, Joined(a)) <==>
            a == ["inspect", APP + id] || (|a| > 1 && a[0] == "logs" && a[|a| - 1] == APP + id)
  {
    NameIsPlain(id);
    VerbOfOne("inspect", INSPECT, id, a);
    VerbOfOne("logs", LOGS, id, a);
    LogsOfOne(id, a);
    assert |a| == 2 ==> a == [a[0], a[1]];
  }

  lemma ReadingExactly(id: string, program: string, a: seq<string>)
    requires AllWords(a) && IsUuid(id)
    ensures AnyAllows(ReadingRules(INSPECT + id, LOGS + id, LOGS_WITH_OPTIONS + id),
                      CommandLine(program, Joined(a))) <==>
            program == "docker" &&
            (a == ["inspect", APP + id] || (|a| > 1 && a[0] == "logs" && a[|a| - 1] == APP + id))
  {
    ReadingMatches(id, INSPECT + id, LOGS + id, LOGS_WITH_OPTIONS + id, a);
    ReadingRulesAllow(INSPECT + id, LOGS + id, LOGS_WITH_OPTIONS + id, program, Joined(a));
  }

  lemma UnitExactly(id: string, program: string, a: seq<string>)
    requires AllWords(a) && IsUuid(id)
    ensures AnyAllows({AllowedCommand(SYSTEMCTL, STATUS + Unit(id))}, CommandLine(program, Joined(a))) <==>
            program == "systemctl" && a == ["status", "--no-pager", APP + Unit(id)]
  {
    NameIsPlain(id);
    StatusOfOne(Unit(id), a);
    var line := CommandLine(program, Joined(a));
    assert Allows(AllowedCommand(SYSTEMCTL, STATUS + Unit(id)), line) <==>
           program == SYSTEMCTL && Match(STATUS + Unit(id), Joined(a));
  }

  lemma CommandsExactly(g: Grant, program: string, a: seq<string>)
    requires AllWords(a) && IsUuid(g.id)
    ensures AnyAllows(ApplicationCommands(g), CommandLine(program, Joined(a))) <==>
            ApplicationCommandLine(g, program, a)
  {
    var line := CommandLine(program, Joined(a));
    var lifecycle := "applications.lifecycle" in g.permissions;
    NameIsPlain(g.id);
    AppText();
    if g.runtime.Docker? {
      ReadingExactly(g.id, program, a);
      VerbsOnOneName(DOCKER, DOCKER_VERBS, g.id, program, a);
      AllowsEither(ReadingRules(INSPECT + g.id, LOGS + g.id, LOGS_WITH_OPTIONS + g.id),
                   if lifecycle then VerbRules(DOCKER, DOCKER_VERBS, g.id) else {}, line);
      assert DOCKER_VERBS == ["start", "stop", "restart", "kill"];
    } else {
      UnitExactly(g.id, program, a);
      VerbsOnOneName(SYSTEMCTL, SYSTEMCTL_VERBS, Unit(g.id), program, a);
      AllowsEither({AllowedCommand(SYSTEMCTL, STATUS + Unit(g.id))},
                   if lifecycle then VerbRules(SYSTEMCTL, SYSTEMCTL_VERBS, Unit(g.id)) else {}, line);
      assert SYSTEMCTL_VERBS == ["start", "stop", "restart"];
    }
  }

  /** One shared Application earns exactly these lines of words. */
  lemma ApplicationExactly(g: Grant, program: string, a: seq<string>)
    requires AllWords(a) && IsUuid(g.id)
    ensures ApplicationPermits(g, CommandLine(program, Joined(a))) <==> ApplicationLine(g, program, a)
  {
    CommandsExactly(g, program, a);
    NameIsPlain(g.id);
    OneWord(g.id, a);
  }

  // --- What the file on the Node adds up to.

  lemma CommandsOfAll(grants: seq<Grant>, program: string, a: seq<string>)
    requires AllWords(a) && forall g | g in grants :: IsUuid(g.id)
    ensures ApplicationCommandsAllow(grants, CommandLine(program, Joined(a))) <==>
            exists g | g in grants :: ApplicationCommandLine(g, program, a)
  {
    forall g | g in grants
      ensures AnyAllows(ApplicationCommands(g), CommandLine(program, Joined(a))) <==>
              ApplicationCommandLine(g, program, a)
    {
      CommandsExactly(g, program, a);
    }
  }

  lemma ConsolesOfAll(grants: seq<Grant>, program: string, a: seq<string>)
    requires AllWords(a) && forall g | g in grants :: IsUuid(g.id)
    ensures ApplicationConsoleAllows(grants, CommandLine(program, Joined(a))) <==>
            exists g | g in grants :: ApplicationConsoleLine(g, program, a)
  {
    forall g | g in grants
      ensures ConsoleAllows(Console(g), CommandLine(program, Joined(a))) <==> ApplicationConsoleLine(g, program, a)
    {
      NameIsPlain(g.id);
      OneWord(g.id, a);
    }
  }

  /**
   The file on the Node lets a member run, of words, exactly: everything with
   one of the nine permissions; what the others and the shared Applications
   earn, of programs that are installed; and the consoles shared.
   */
  lemma EarnedExactly(held: set<string>, grants: seq<Grant>, node: Node, program: string, a: seq<string>)
    requires AllWords(a) && forall g | g in grants :: IsUuid(g.id)
    ensures Earned(held, grants, node, CommandLine(program, Joined(a))) <==>
            || !(held !! ROOT_KEYS)
            || (program in node.programs && RoleLine(held, program, a))
            || (program in node.programs && exists g | g in grants :: ApplicationCommandLine(g, program, a))
            || (exists g | g in grants :: ApplicationConsoleLine(g, program, a))
  {
    RootExactly(held);
    if held !! ROOT_KEYS {
      PermitsExactly(held, program, a);
      CommandsOfAll(grants, program, a);
      ConsolesOfAll(grants, program, a);
    } else {
      var key :| key in held && key in ROOT_KEYS;
    }
  }

  // --- Files.

  /** The characters from `a` to `b` stand between slashes or ends. */
  predicate Component(s: string, a: nat, b: nat) {
    && a <= b <= |s| && (a == 0 || s[a - 1] == '/') && (b == |s| || s[b] == '/')
    && (forall i | a <= i < b :: s[i] != '/')
  }

  lemma DotsGoUp(s: string, a: nat, b: nat)
    requires Component(s, a, b) && s[a..b] == ".."
    ensures ParentAt(s, a)
  {
    assert |s[a..b]| == 2;
    assert b == a + 2 && At(s, a, "..");
  }

  /** A directory can be named exactly if it is absolute, below the root, of plain characters, and never goes up. */
  lemma SafeExactly(s: string)
    ensures SafeDirectory(s) <==>
            && |s| > 1 && s[0] == '/'
            && (forall i | 0 <= i < |s| ::
                  var c := s[i] as int; 45 <= c <= 57 || 65 <= c <= 90 || c == 95 || 97 <= c <= 122)
            && (forall a: nat, b: nat | Component(s, a, b) :: s[a..b] != "..")
  {
    forall a: nat, b: nat | Component(s, a, b) && s[a..b] == ".."
      ensures ParentAt(s, a)
    {
      DotsGoUp(s, a, b);
    }
    forall i | 0 <= i <= |s| && ParentAt(s, i)
      ensures Component(s, i, i + 2) && s[i..i + 2] == ".."
    {
      assert s[i..i + 2] == "..";
    }
  }

  lemma {:induction false} SlashesTrimmed(s: string, root: string)
    ensures TrimSlashes(s) == root <==>
            root <= s && (root == "" || root[|root| - 1] != '/') && forall i | |root| <= i < |s| :: s[i] == '/'
    decreases |s|
  {
    if s != "" && s[|s| - 1] == '/' {
      SlashesTrimmed(s[..|s| - 1], root);
    } else {
    }
  }

  /**
   A shared Application earns exactly this file rule: for whoever may read or
   write its files, as its own account, on its directory without the slashes
   at the end, if that can be named in a rule.
   */
  lemma FilesEarnedExactly(g: Grant, rule: FileRule)
    requires IsUuid(g.id)
    ensures GrantedFiles(g) == Some(rule) <==>
            && ("applications.files.read" in g.permissions || "applications.files.write" in g.permissions)
            && (rule.write <==> "applications.files.write" in g.permissions)
            && rule.account == "vibessh-app-" + (g.id[..8] + g.id[9..13])
            && SafeDirectory(rule.root) && rule.root[|rule.root| - 1] != '/' && rule.root <= g.directory
            && (forall i | |rule.root| <= i < |g.directory| :: g.directory[i] == '/')
  {
    SlashesTrimmed(g.directory, rule.root);
    assert APP == "vibessh-app-";
  }

  /** What no rule could carry is said: a console of a service, and files in a directory that cannot be named. */
  lemma SkippedExactly(g: Grant)
    ensures NoConsole in Skipped(g) <==> g.runtime.Systemd? && "applications.console" in g.permissions
    ensures FolderUnnameable in Skipped(g) <==>
            && ("applications.files.read" in g.permissions || "applications.files.write" in g.permissions)
            && GrantedFiles(g).None?
  {
    var console := if g.runtime.Systemd? && APPLICATIONS_CONSOLE in g.permissions then [NoConsole] else [];
    var folder := if AsksForFiles(g) && RuleSafeDirectory(g.directory).None? then [FolderUnnameable] else [];
    assert Skipped(g) == console + folder;
  }

  const READING: set<string> := {"realpath", "list", "stat", "read", "readrange", "readsmall"}

  lemma ReadPatterns(root: string, op: string, a: seq<string>)
    requires AllWords(a) && Plain(root) && Plain(op)
    ensures Match(root + (" " + op), Joined(a)) || Match(root + (" " + (op + " *")), Joined(a)) <==>
            |a| > 1 && a[0] == root && a[1] == op
  {
    TwoPlainWords(root, op, a);
    Assoc(" ", op, " *");
    Assoc(root, " " + op, " *");
    assert |a| == 2 ==> a == [a[0], a[1]];
  }

  lemma OperationIsPlain(op: string)
    requires op in READ_ONLY_FILE_OPERATIONS
    ensures Plain(op)
  {
  }

  lemma ReadRuleMatches(rule: FileRule, s: string)
    requires !rule.write
    ensures FileMatches(rule, s) <==>
            exists op | op in READ_ONLY_FILE_OPERATIONS ::
              Match(rule.root + (" " + op), s) || Match(rule.root + (" " + (op + " *")), s)
  {
    forall op | op in READ_ONLY_FILE_OPERATIONS
      ensures rule.root + (" " + op) in FilePatterns(rule) && rule.root + (" " + (op + " *")) in FilePatterns(rule)
    {
    }
  }

  /** Of words, a write rule lets through every operation on its directory, and a read rule exactly six. */
  lemma FileRuleExactly(rule: FileRule, a: seq<string>)
    requires AllWords(a) && SafeDirectory(rule.root)
    ensures FilePermits(rule, a) <==> |a| > 1 && a[0] == rule.root && (rule.write || a[1] in READING)
  {
    RootHasNoSpace(rule.root);
    assert '*' !in rule.root by {
      assert forall i | 0 <= i < |rule.root| :: SafeChar(rule.root[i]);
    }
    if rule.write {
      assert FilePatterns(rule) == {rule.root + " *"};
      OneWord(rule.root, a);
    } else {
      ReadRuleMatches(rule, Joined(a));
      forall op | op in READ_ONLY_FILE_OPERATIONS
        ensures Match(rule.root + (" " + op), Joined(a)) || Match(rule.root + (" " + (op + " *")), Joined(a)) <==>
                |a| > 1 && a[0] == rule.root && a[1] == op
      {
        OperationIsPlain(op);
        ReadPatterns(rule.root, op, a);
      }
      assert forall op :: op in READING <==> op in READ_ONLY_FILE_OPERATIONS;
    }
  }

  /** A member who may read cannot have a file written or deleted. */
  lemma ReadersDoNotWrite(rule: FileRule, a: seq<string>)
    requires AllWords(a) && |a| > 1 && SafeDirectory(rule.root) && !rule.write && a[1] !in READING
    ensures !FilePermits(rule, a)
  {
    FileRuleExactly(rule, a);
  }
}
