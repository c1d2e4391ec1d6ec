/**
 Command lines with values from elsewhere in them: the agent's `docker logs`
 line and the script that replaces a member's keys. Both are given by what
 the shell makes of them, token by token.
 */
module AccountScripts {
  import opened Numbers
  import opened Text
  import opened Shell
  import opened ShellLines

  // --- `docker logs` on the agent.

  function Digit(n: nat): (c: char)
    requires n < 10
    ensures IsDigit(c)
  {
    '0' + n as char
  }

  function Decimal(n: nat): (s: string)
    ensures s != "" && AllDigits(s)
  {
    if n < 10 then [Digit(n)] else Decimal(n / 10) + [Digit(n % 10)]
  }

  lemma {:induction false} NumberOfDecimal(n: nat)
    ensures Number(Decimal(n)) == n
    decreases n
  {
    if n < 10 {
      assert Decimal(n)[..0] == "";
    } else {
      var front := Decimal(n / 10);
      assert Decimal(n) == front + [Digit(n % 10)] && Decimal(n)[..|front|] == front;
      NumberOfDecimal(n / 10);
    }
  }

  lemma DigitsArePlain(s: string)
    requires s != "" && AllDigits(s)
    ensures FixedWord(s)
  {
    forall i | 0 <= i < |s|
      ensures Plain(s[i])
    {
      assert IsDigit(s[i]);
    }
  }

  function Clamp(tail: nat): nat {
    if tail < 1 then 1 else if tail > 5000 then 5000 else tail
  }

  function FollowParts(container: string, lines: string): seq<Part> {
    [Fixed("docker", true), Fixed("logs", true), Fixed("--tail", true), Fixed(lines, true),
     Fixed("-f", true), Quoted(container, true)]
  }

  /** The line `start_follow` hands to `sh -c`. */
  function FollowLine(container: string, tail: nat): string {
    LineText(FollowParts(container, Decimal(Clamp(tail)))) + "2>&1"
  }

  lemma OneDigit(m: string)
    requires |m| == 1 && AllDigits(m)
    ensures Lex(m) == Some([Word(m)])
  {
    DigitsArePlain(m);
    assert m == m + "";
    WordAhead(m, "");
  }

  lemma Redirected(n: string, rest: string, m: string)
    requires |n| == 1 && AllDigits(n) && |m| == 1 && AllDigits(m) && rest == ">&" + m
    ensures Lex(n + rest) == Some([IoNumber(n), Operator(">&"), Word(m)])
  {
    DigitsArePlain(n);
    WordAhead(n, rest);
    assert rest[..2] == ">&" && rest[2..] == m;
    OneDigit(m);
    assert [IoNumber(n)] + [Operator(">&")] + [Word(m)] == [IoNumber(n), Operator(">&"), Word(m)];
  }

  lemma MergedOutput()
    ensures Lex("2>&1") == Some([IoNumber("2"), Operator(">&"), Word("1")])
  {
    Redirected("2", ">&" + "1", "1");
    assert "2>&1" == "2" + (">&" + "1");
  }

  lemma FollowWords()
    ensures FixedWord("docker") && FixedWord("logs") && FixedWord("--tail") && FixedWord("-f")
  {
  }

  lemma FollowFormed(container: string, lines: string)
    requires NUL !in container && lines != "" && AllDigits(lines)
    ensures WellFormed(FollowParts(container, lines))
    ensures LineTokens(FollowParts(container, lines)) ==
            [Word("docker"), Word("logs"), Word("--tail"), Word(lines), Word("-f"), Word(container)]
  {
    FollowWords();
    DigitsArePlain(lines);
  }

  /**
   Whatever the container is called, the line runs `docker logs` on exactly
   that name, for the number of lines asked for held to 1 to 5000.
   */
  lemma FollowLineMeans(container: string, tail: nat) returns (lines: string)
    requires NUL !in container
    ensures Lex(FollowLine(container, tail)) == Some([
              Word("docker"), Word("logs"), Word("--tail"), Word(lines), Word("-f"), Word(container),
              IoNumber("2"), Operator(">&"), Word("1")])
    ensures AllDigits(lines) && 1 <= Number(lines) <= 5000 && (1 <= tail <= 5000 ==> Number(lines) == tail)
    ensures (tail == 0 ==> Number(lines) == 1) && (tail > 5000 ==> Number(lines) == 5000)
  {
    lines := Decimal(Clamp(tail));
    NumberOfDecimal(Clamp(tail));
    FollowFormed(container, lines);
    LineMeans(FollowParts(container, lines), "2>&1");
    MergedOutput();
    assert [Word("docker"), Word("logs"), Word("--tail"), Word(lines), Word("-f"), Word(container)] +
           [IoNumber("2"), Operator(">&"), Word("1")] ==
           [Word("docker"), Word("logs"), Word("--tail"), Word(lines), Word("-f"), Word(container),
            IoNumber("2"), Operator(">&"), Word("1")];
  }

  // --- The authorized keys script.

  const PRIVATE: string := "umask 077 && "
  const MAKE_SSH: string := "mkdir -p \"$1/.ssh\" && "
  const CLOSE_SSH: string := "chmod 700 \"$1/.ssh\" && "
  const NEW_KEYS: string := "\"$1/.ssh/authorized_keys.new\""
  const KEYS: string := "\"$1/.ssh/authorized_keys\""

  /** What the member's own account runs; the home directory is `$1`, the keys arrive on stdin. */
  const MEMBER_KEYS_WRITE: string :=
    (PRIVATE + MAKE_SSH + CLOSE_SSH) + ("cat > " + NEW_KEYS + " && ") + ("mv -f " + NEW_KEYS + " " + KEYS)

  lemma MemberScriptIsText()
    ensures NUL !in MEMBER_KEYS_WRITE
  {
    assert NUL !in PRIVATE && NUL !in MAKE_SSH && NUL !in CLOSE_SSH;
    assert NUL !in NEW_KEYS;
    assert NUL !in KEYS;
  }

  predicate UsernameStart(c: char) {
    'a' <= c <= 'z' || c == '_'
  }

  predicate UsernameChar(c: char) {
    UsernameStart(c) || '0' <= c <= '9' || c == '-'
  }

  /** `validate_linux_username`. */
  predicate ValidUsername(name: string) {
    name != "" && UsernameStart(name[0]) && (forall i | 1 <= i < |name| :: UsernameChar(name[i])) && |name| <= 32
  }

  /**
   An account name is valid exactly with 1 to 32 characters, all of them small
   letters, digits, `_` and `-`, and neither a digit nor `-` at the front.
   */
  lemma ValidExactly(name: string)
    ensures ValidUsername(name) <==>
            && 1 <= |name| <= 32 && name[0] != '-' && !(48 <= name[0] as int <= 57)
            && (forall i | 0 <= i < |name| ::
                  var c := name[i] as int; 97 <= c <= 122 || 48 <= c <= 57 || c == 95 || c == 45)
  {
    if ValidUsername(name) {
      assert forall i | 0 <= i < |name| :: i == 0 || UsernameChar(name[i]);
    }
  }

  function HomeDirectory(username: string): string {
    "/home/" + username
  }

  function PrintfParts(key: string): seq<Part> {
    [Fixed("printf", true), Quoted("%s\\n", true), Quoted(key, false)]
  }

  /** One `printf` per key with `; ` between them, or `true` for no keys. */
  function WriteParts(keys: seq<string>): seq<Part> {
    if keys == [] then [Fixed("true", false)]
    else if |keys| == 1 then PrintfParts(keys[0])
    else PrintfParts(keys[0]) + ([Op(';', true)] + WriteParts(keys[1..]))
  }

  const OPENING: seq<Part> := [Fixed("set", true), Fixed("-e", false), Op(';', true), Op('(', false)]

  function AsMember(username: string): seq<Part> {
    [Op(')', true), Op('|', true), Fixed("sudo", true), Fixed("-n", true), Fixed("-u", true), Quoted(username, true),
     Fixed("sh", true), Fixed("-c", true), Quoted(MEMBER_KEYS_WRITE, true), Fixed("vibessh-keys", true),
     Quoted(HomeDirectory(username), false)]
  }

  function KeysScript(username: string, keys: seq<string>): string {
    LineText((OPENING + WriteParts(keys)) + AsMember(username))
  }

  datatype ScriptError = InvalidUsername | LineBreakInKey
  datatype ScriptResult = Script(text: string) | Refused(error: ScriptError)

  /** `authorized_keys_script`. */
  method AuthorizedKeysScript(username: string, keys: seq<string>) returns (r: ScriptResult)
    ensures r == if !ValidUsername(username) then Refused(InvalidUsername)
                 else if exists i | 0 <= i < |keys| :: '\n' in keys[i] || '\r' in keys[i] then Refused(LineBreakInKey)
                 else Script(KeysScript(username, keys))
  {
    if !ValidUsername(username) {
      return Refused(InvalidUsername);
    }
    for i := 0 to |keys|
      invariant forall j | 0 <= j < i :: '\n' !in keys[j] && '\r' !in keys[j]
    {
      if '\n' in keys[i] || '\r' in keys[i] {
        return Refused(LineBreakInKey);
      }
    }
    return Script(KeysScript(username, keys));
  }

  /** The commands that print the keys, each with one key as its last word. */
  function KeyCommands(keys: seq<string>): seq<Token> {
    if keys == [] then [Word("true")]
    else
      var one := [Word("printf"), Word("%s\\n"), Word(keys[0])];
      if |keys| == 1 then one else one + ([Operator(";")] + KeyCommands(keys[1..]))
  }

  predicate NoNul(keys: seq<string>) {
    forall i | 0 <= i < |keys| :: NUL !in keys[i]
  }

  lemma PrintfFormed(key: string)
    requires NUL !in key
    ensures WellFormed(PrintfParts(key))
    ensures LineTokens(PrintfParts(key)) == [Word("printf"), Word("%s\\n"), Word(key)]
  {
  }

  lemma {:induction false} WritesMean(keys: seq<string>)
    requires NoNul(keys)
    ensures WellFormed(WriteParts(keys)) && LineTokens(WriteParts(keys)) == KeyCommands(keys)
    ensures var ps := WriteParts(keys); ps != [] && ps[0].Fixed? && !ps[|ps| - 1].Op?
    decreases |keys|
  {
    if keys == [] {
    } else if |keys| == 1 {
      PrintfFormed(keys[0]);
    } else {
      var one, more := PrintfParts(keys[0]), WriteParts(keys[1..]);
      PrintfFormed(keys[0]);
      WritesMean(keys[1..]);
      WellFormedJoin([Op(';', true)], more);
      WellFormedJoin(one, [Op(';', true)] + more);
      LineTokensJoin([Op(';', true)], more);
      LineTokensJoin(one, [Op(';', true)] + more);
      assert LineTokens([Op(';', true)]) == [Operator(";")];
    }
  }

  lemma AcceptedIsNulFree(name: string)
    requires ValidUsername(name)
    ensures NUL !in name && NUL !in HomeDirectory(name)
  {
    assert forall i | 0 <= i < |name| :: UsernameChar(name[i]);
  }

  lemma MemberWords()
    ensures FixedWord("sudo") && FixedWord("-n") && FixedWord("-u") && FixedWord("sh") && FixedWord("-c")
    ensures FixedWord("vibessh-keys")
  {
  }

  lemma AsMemberFormed(username: string)
    requires NUL !in username && NUL !in HomeDirectory(username)
    ensures WellFormed(AsMember(username))
    ensures LineTokens(AsMember(username)) ==
            [Operator(")"), Operator("|"), Word("sudo"), Word("-n"), Word("-u"), Word(username), Word("sh"),
               Word("-c"),
             Word(MEMBER_KEYS_WRITE), Word("vibessh-keys"), Word(HomeDirectory(username))]
  {
    MemberWords();
    MemberScriptIsText();
  }

  lemma OpeningFormed()
    ensures WellFormed(OPENING)
    ensures LineTokens(OPENING) == [Word("set"), Word("-e"), Operator(";"), Operator("(")]
  {
  }

  /**
   The shell runs exactly one `printf` per key, each with that key as one
   word, piped into the member's own `sh`; nothing in a key or in a name
   starts anything else.
   */
  lemma KeysScriptMeans(username: string, keys: seq<string>)
    requires ValidUsername(username) && NoNul(keys)
    ensures Lex(KeysScript(username, keys)) == Some(
              ([Word("set"), Word("-e"), Operator(";"), Operator("(")] + KeyCommands(keys)) +
              [Operator(")"), Operator("|"), Word("sudo"), Word("-n"), Word("-u"), Word(username), Word("sh"),
               Word("-c"),
               Word(MEMBER_KEYS_WRITE), Word("vibessh-keys"), Word(HomeDirectory(username))])
  {
    AcceptedIsNulFree(username);
    AsMemberFormed(username);
    OpeningFormed();
    WritesMean(keys);
    WellFormedJoin(OPENING, WriteParts(keys));
    WellFormedJoin(OPENING + WriteParts(keys), AsMember(username));
    WholeLineMeans((OPENING + WriteParts(keys)) + AsMember(username));
    LineTokensJoin(OPENING, WriteParts(keys));
    LineTokensJoin(OPENING + WriteParts(keys), AsMember(username));
  }
}
