/**
 Which passwords the URL pass hides, exactly: wherever in a text it comes to
 `scheme://user:password@`, the password goes if and only if neither it nor
 the user has an `@` or a character that ends an authority. A scheme is come
 to unless the colon of it was taken for the end of the authority before it.
 */
module UrlPasswords {
  import opened Text
  import opened Redaction
  import opened UrlUserinfo

  // --- Where the pass comes to.

  /** Starting on `text`, the pass comes to `rest` with `out` written. */
  ghost predicate Reaches(text: string, out: string, rest: string)
    decreases |text|
  {
    || (out == "" && text == rest)
    || (Find(text, SCHEME).Some? &&
        var a := ReadAuthority(text, Find(text, SCHEME).value);
        var part := Part(text, a);
        part <= out && Reaches(text[Next(a)..], out[|part|..], rest))
  }

  lemma Chain(whole: string, part: string, tail: string, out: string, rest: string)
    requires whole == part + tail && tail == out + rest
    ensures whole == (part + out) + rest
  {
    Assoc(part, out, rest);
  }

  /** The first turn on the way. */
  ghost predicate Turns(text: string, e: nat, a: Authority, part: string, after: string) {
    && Find(text, SCHEME) == Some(e) && e + 3 <= |text| && ReadAuthority(text, e) == a
    && Part(text, a) == part && text[Next(a)..] == after
  }

  lemma FirstTurn(text: string, out: string, rest: string)
    returns (e: nat, a: Authority, part: string, after: string, out': string)
    requires Reaches(text, out, rest) && !(out == "" && text == rest)
    ensures Turns(text, e, a, part, after) && |after| < |text|
    ensures out == part + out' && Reaches(after, out', rest)
  {
    e := Find(text, SCHEME).value;
    a := ReadAuthority(text, e);
    part, after := Part(text, a), text[Next(a)..];
    out' := out[|part|..];
  }

  lemma TurnRedacts(text: string, e: nat, a: Authority, part: string, after: string)
    requires Turns(text, e, a, part, after)
    ensures Redact(text) == part + Redact(after)
  {
    OneAuthorityTo(text, e, a, part, after);
  }

  lemma {:induction false} ReachesRedact(text: string, out: string, rest: string)
    requires Reaches(text, out, rest)
    ensures Redact(text) == out + Redact(rest)
    decreases |text|
  {
    if out == "" && text == rest {
      assert out + Redact(rest) == Redact(rest);
    } else {
      var e, a, part, after, out' := FirstTurn(text, out, rest);
      TurnRedacts(text, e, a, part, after);
      ReachesRedact(after, out', rest);
      Chain(Redact(text), part, Redact(after), out', Redact(rest));
    }
  }

  lemma {:induction false} ReachesShrinks(text: string, out: string, rest: string)
    requires Reaches(text, out, rest)
    ensures |rest| <= |text| && (|rest| == |text| ==> out == "" && text == rest)
    decreases |text|
  {
    if out == "" && text == rest {
    } else {
      var a := ReadAuthority(text, Find(text, SCHEME).value);
      ReachesShrinks(text[Next(a)..], out[|Part(text, a)|..], rest);
    }
  }

  lemma DescribesRestrict(s: string, x: string, e: nat, a: Authority)
    requires Describes(s + x, e, a) && Next(a) < |s|
    ensures Describes(s, e, a)
  {
    assert forall i | 0 <= i < |s| :: (s + x)[i] == s[i];
  }

  lemma FirstSchemeWithin(s: string, x: string, e: nat)
    requires Find(s + x, SCHEME) == Some(e) && e + 3 <= |s|
    ensures Find(s, SCHEME) == Some(e)
  {
    WithinFirst(s, x, |s|);
    assert s[..|s|] == s;
    PrefixFirstScheme(s + x, e, |s|);
  }

  /** A turn that ends inside `s` does not depend on what follows `s`. */
  lemma TurnLocal(s: string, x: string, y: string, e: nat, a: Authority)
    requires Find(s + x, SCHEME) == Some(e) && ReadAuthority(s + x, e) == a && Next(a) < |s|
    ensures Find(s + y, SCHEME) == Some(e) && ReadAuthority(s + y, e) == a
    ensures Part(s + y, a) == Part(s + x, a)
  {
    FirstSchemeWithin(s, x, e);
    FirstSchemeIn(s, y, e);
    assert Describes(s, e, a) by {
      ReadAuthorityMeans(s + x, e);
      DescribesRestrict(s, x, e, a);
    }
    assert ReadAuthority(s + y, e) == a by {
      FindMeans(s, SCHEME);
      DescribesExtend(s, y, e, a);
      ReadAuthorityIs(s + y, e, a);
    }
    PartExtends(s, x, a);
    PartExtends(s, y, a);
  }

  /** The way to a place does not depend on what is behind its first characters. */
  lemma {:induction false} ReachesElsewhere(pre: string, out: string, c: string, x: string, y: string)
    requires c != "" && Reaches(pre + (c + x), out, c + x)
    ensures Reaches(pre + (c + y), out, c + y)
    decreases |pre|
  {
    var s, s' := pre + (c + x), pre + (c + y);
    ReachesShrinks(s, out, c + x);
    if pre == "" {
      assert s == c + x && s' == c + y;
    } else {
      var e := Find(s, SCHEME).value;
      var a := ReadAuthority(s, e);
      var part := Part(s, a);
      ReachesShrinks(s[Next(a)..], out[|part|..], c + x);
      Assoc(pre, c, x);
      Assoc(pre, c, y);
      TurnLocal(pre + c, x, y, e, a);
      WithinFirst(pre, c + x, Next(a));
      WithinFirst(pre, c + y, Next(a));
      ReachesElsewhere(pre[Next(a)..], out[|part|..], c, x, y);
    }
  }

  // --- One authority.

  /** What ends an authority. */
  predicate Ends(c: char) {
    c == '/' || c == ' ' || c == '"' || c == '\n' || c == '\t' || c == '\''
  }

  predicate CleanUser(user: string) {
    forall i | 0 <= i < |user| :: !Ends(user[i]) && user[i] != '@' && user[i] != ':'
  }

  /** Nothing in it ends an authority or looks like its end. */
  predicate CleanPassword(password: string) {
    forall i | 0 <= i < |password| :: !Ends(password[i]) && password[i] != '@'
  }

  /** `://user:` */
  function Login(user: string): string {
    "://" + (user + ":")
  }

  lemma FirstScheme(p: string, b: string)
    requires !Contains(p, SCHEME)
    ensures forall j | 0 <= j < |p| :: !At(p + (SCHEME + b), j, SCHEME)
  {
    var s := p + (SCHEME + b);
    forall j | 0 <= j < |p|
      ensures !At(s, j, SCHEME)
    {
      if j + 3 <= |p| {
        AtPrefix(p, SCHEME + b, j, SCHEME);
      } else {
        assert s[|p|] == ':';
        NotAt(s, j, SCHEME, |p| - j);
      }
    }
  }

  /** Text without a scheme in front of one is copied. */
  lemma CopiedBefore(p: string, b: string)
    requires !Contains(p, SCHEME)
    ensures Redact(p + (SCHEME + b)) == p + Redact(SCHEME + b)
  {
    FirstScheme(p, b);
    PrefixCopied(p, SCHEME + b);
  }

  lemma SchemeAhead(b: string)
    ensures Find(SCHEME + b, SCHEME) == Some(0)
  {
    assert (SCHEME + b)[0..3] == SCHEME;
    FindIs(SCHEME + b, SCHEME, 0);
  }

  lemma LoginIsScheme(user: string, rest: string)
    ensures Login(user) + rest == SCHEME + (user + (":" + rest))
    ensures Find(Login(user) + rest, SCHEME) == Some(0)
  {
    Assoc(SCHEME, user + ":", rest);
    Assoc(user, ":", rest);
    SchemeAhead(user + (":" + rest));
  }

  /** The user and the first stretch `x` of a password, behind the scheme. */
  lemma LoginCharacters(user: string, x: string, rest: string)
    requires CleanUser(user) && CleanPassword(x)
    ensures var s, c, n := Login(user) + (x + rest), 3 + |user|, 4 + |user| + |x|;
            && (forall i | 3 <= i < n :: s[i] !in TERMINATORS && s[i] != '@')
            && (forall i | 3 <= i < c :: s[i] != ':') && s[c] == ':'
            && (rest != "" ==> s[n] == rest[0])
  {
    var s, c := Login(user) + (x + rest), 3 + |user|;
    assert forall i | 3 <= i < c :: s[i] == Login(user)[i] == user[i - 3];
    assert forall i | c < i < c + 1 + |x| :: s[i] == (x + rest)[i - c - 1] == x[i - c - 1];
    assert s[c] == Login(user)[c] == ':';
    if rest != "" {
      assert s[c + 1 + |x|] == (x + rest)[|x|] == rest[0];
    }
  }

  /** What masking and showing leave of a login, from its parts. */
  lemma PartsOfLogin(l: string, x: string, t: string, more: string, s: string)
    requires s == l + (x + (t + more)) && |l| >= 4 && |t| == 1
    ensures Part(s, Credentials(|l| - 1, |l| + |x|)) == l + (REDACTED + "@")
    ensures s[|l| + |x| + 1..] == more
    ensures Part(s, Plain(|l| + |x|)) == l + x && s[|l| + |x|..] == t + more
  {
    FourParts(l, x, t, more);
  }

  /** The first turn, from a description of the authority. */
  lemma DescribedTurn(s: string, a: Authority, part: string, after: string)
    requires Find(s, SCHEME) == Some(0) && Describes(s, 0, a)
    requires Next(a) <= |s| && Part(s, a) == part && s[Next(a)..] == after
    ensures Redact(s) == part + Redact(after)
  {
    ReadAuthorityIs(s, 0, a);
    OneAuthorityTo(s, 0, a, part, after);
  }

  lemma MaskedDescribed(user: string, x: string, more: string)
    requires CleanUser(user) && CleanPassword(x)
    ensures Describes(Login(user) + (x + ("@" + more)), 0, Credentials(3 + |user|, 4 + |user| + |x|))
  {
    LoginCharacters(user, x, "@" + more);
  }

  lemma ShownDescribed(user: string, x: string, t: char, more: string)
    requires CleanUser(user) && CleanPassword(x) && t in TERMINATORS
    ensures Describes(Login(user) + (x + ([t] + more)), 0, Plain(4 + |user| + |x|))
  {
    LoginCharacters(user, x, [t] + more);
  }

  /** Up to the first `@`, if nothing ends the authority before it, the password is masked. */
  lemma MaskedUpToAt(user: string, x: string, more: string)
    requires CleanUser(user) && CleanPassword(x)
    ensures Redact(Login(user) + (x + ("@" + more))) == (Login(user) + (REDACTED + "@")) + Redact(more)
  {
    var s := Login(user) + (x + ("@" + more));
    LoginIsScheme(user, x + ("@" + more));
    PartsOfLogin(Login(user), x, "@", more, s);
    MaskedDescribed(user, x, more);
    DescribedTurn(s, Credentials(3 + |user|, 4 + |user| + |x|), Login(user) + (REDACTED + "@"), more);
  }

  /** Up to whatever ends the authority before an `@`, everything is shown. */
  lemma ShownUpToTerminator(user: string, x: string, t: char, more: string)
    requires CleanUser(user) && CleanPassword(x) && t in TERMINATORS
    ensures Redact(Login(user) + (x + ([t] + more))) == (Login(user) + x) + Redact([t] + more)
  {
    var s := Login(user) + (x + ([t] + more));
    LoginIsScheme(user, x + ([t] + more));
    PartsOfLogin(Login(user), x, [t], more, s);
    ShownDescribed(user, x, t, more);
    DescribedTurn(s, Plain(4 + |user| + |x|), Login(user) + x, [t] + more);
  }

  // --- Exactly which passwords are hidden.

  /** An authority in front of an `@` ends with it at the latest. */
  lemma EndsByAt(x: string, post: string, e: nat)
    requires e + 3 <= |x|
    ensures Next(ReadAuthority(x + ("@" + post), e)) <= |x| + 1
  {
    var s := x + ("@" + post);
    ReadAuthorityMeans(s, e);
    assert s[|x|] == '@';
  }

  /** The first authority in front of an `@`, and where the pass is after it. */
  lemma FirstBeforeAt(x: string, post: string, e: nat)
    requires Find(x, SCHEME) == Some(e)
    ensures var s := x + ("@" + post);
            var a := ReadAuthority(s, e);
            && 3 <= Next(a) <= |x| + 1 && Find(s, SCHEME) == Some(e)
            && (if Next(a) == |x| + 1 then s[Next(a)..] == post else s[Next(a)..] == x[Next(a)..] + ("@" + post))
  {
    FirstSchemeIn(x, "@" + post, e);
    EndsByAt(x, post, e);
    var n := Next(ReadAuthority(x + ("@" + post), e));
    if n == |x| + 1 {
      WithinSecond(x, "@" + post, 1);
    } else {
      WithinFirst(x, "@" + post, n);
    }
  }

  /** The text up to and with the scheme is kept. */
  lemma PartKeepsScheme(s: string, e: nat)
    requires e + 3 <= |s|
    ensures var part := Part(s, ReadAuthority(s, e)); e + 3 <= |part| && part[..e + 3] == s[..e + 3]
  {
  }

  lemma KeptInFront(part: string, y: string, x: string, rest: string, n: nat)
    requires n <= |part| && n <= |x| && part[..n] == (x + rest)[..n]
    ensures (part + y)[..n] == x[..n]
  {
    WithinFirst(part, y, n);
    WithinFirst(x, rest, n);
  }

  lemma CopiedThroughAt(x: string, post: string)
    requires !Contains(x, SCHEME)
    ensures Redact(x + ("@" + post)) == (x + "@") + Redact(post)
  {
    var s := x + ("@" + post);
    Assoc(x, "@", post);
    forall j | 0 <= j < |x + "@"|
      ensures !At((x + "@") + post, j, SCHEME)
    {
      if j + 3 <= |x| {
        AtPrefix(x, "@" + post, j, SCHEME);
      } else {
        assert s[|x|] == '@';
        NotAt(s, j, SCHEME, |x| - j);
      }
    }
    PrefixCopied(x + "@", post);
  }

  /** What becomes of `x` in front of an `@`: the scheme in it, if any, is kept with what is before it. */
  predicate KeepsFront(x: string, y: string) {
    match Find(x, SCHEME)
    case None => y == x + "@"
    case Some(e) => e + 3 <= |y| && e + 3 <= |x| && y[..e + 3] == x[..e + 3]
  }

  /**
   Whatever is in front of an `@`, what is behind it is treated as if it
   stood alone; and what is in front never vanishes.
   */
  lemma {:induction false} FreshBehindAt(x: string, post: string) returns (y: string)
    ensures y != "" && Redact(x + ("@" + post)) == y + Redact(post)
    ensures KeepsFront(x, y)
    decreases |x|
  {
    var found := Find(x, SCHEME);
    if found.None? {
      FindMeans(x, SCHEME);
      CopiedThroughAt(x, post);
      y := x + "@";
    } else {
      var s, e := x + ("@" + post), found.value;
      FirstBeforeAt(x, post, e);
      var a := ReadAuthority(s, e);
      var part, after := Part(s, a), s[Next(a)..];
      PartKeepsScheme(s, e);
      OneAuthority(s, e, a);
      if Next(a) == |x| + 1 {
        y := part;
        KeptInFront(part, "", x, "@" + post, e + 3);
        assert part + "" == part;
      } else {
        var y' := FreshBehindAt(x[Next(a)..], post);
        Chain(Redact(s), part, Redact(after), y', Redact(post));
        y := part + y';
        KeptInFront(part, y', x, "@" + post, e + 3);
      }
    }
  }

  /** The whole password is replaced: what stands around it is what the output shows. */
  predicate Hidden(p: string, user: string, password: string, post: string) {
    Redact(p + (Login(user) + (password + ("@" + post)))) == p + ((Login(user) + ("***" + "@")) + Redact(post))
  }

  /** The first character of a password that is not clean, and what is around it. */
  lemma {:induction false} FirstUnclean(password: string) returns (x: string, t: char, more: string)
    requires !CleanPassword(password)
    ensures password == x + ([t] + more) && CleanPassword(x) && (t in TERMINATORS || t == '@')
    decreases |password|
  {
    var c := password[0];
    if c in TERMINATORS || c == '@' {
      x, t, more := "", c, password[1..];
    } else {
      var x';
      x', t, more := FirstUnclean(password[1..]);
      x := [c] + x';
      assert password == [c] + password[1..];
      Assoc([c], x', [t] + more);
    }
  }

  /** A stretch shown in clear up to a terminator is not the mask. */
  lemma ClearIsNotMasked(x: string, t: char, r: string, post: string)
    requires CleanPassword(x) && t in TERMINATORS && r != "" && r[0] == t
    ensures x + r != (REDACTED + "@") + post
  {
    var shown, masked := x + r, (REDACTED + "@") + post;
    assert shown[|x|] == t;
    if |x| < 4 {
      assert masked[|x|] == (REDACTED + "@")[|x|];
    } else {
      assert shown[3] == x[3] && masked[3] == '@';
    }
  }

  lemma Drop<T>(a: seq<T>, b: seq<T>, c: seq<T>)
    ensures a + b == a + c <==> b == c
  {
    assert (a + b)[|a|..] == b && (a + c)[|a|..] == c;
  }

  /** With a terminator first, the password is not hidden. */
  lemma TerminatorShows(user: string, x: string, t: char, more: string, post: string)
    requires CleanUser(user) && CleanPassword(x) && t in TERMINATORS
    ensures Redact(Login(user) + (x + ([t] + more))) != (Login(user) + (REDACTED + "@")) + Redact(post)
  {
    var r := Redact([t] + more);
    ShownUpToTerminator(user, x, t, more);
    FirstCharacterKept([t] + more);
    ClearIsNotMasked(x, t, r, Redact(post));
    Assoc(Login(user), x, r);
    Assoc(Login(user), REDACTED + "@", Redact(post));
    Drop(Login(user), x + r, (REDACTED + "@") + Redact(post));
  }

  /** With an `@` first, its tail is not hidden. */
  lemma AtShows(user: string, x: string, more: string, post: string)
    requires CleanUser(user) && CleanPassword(x)
    ensures Redact(Login(user) + (x + ("@" + (more + ("@" + post))))) != (Login(user) + (REDACTED + "@")) + Redact(post)
  {
    MaskedUpToAt(user, x, more + ("@" + post));
    var y := FreshBehindAt(more, post);
    Drop(Login(user) + (REDACTED + "@"), y + Redact(post), Redact(post));
    assert |y + Redact(post)| > |Redact(post)|;
  }

  /** A password that is not clean is not hidden. */
  lemma UncleanPasswordShows(user: string, password: string, post: string)
    requires CleanUser(user) && !CleanPassword(password)
    ensures Redact(Login(user) + (password + ("@" + post))) != (Login(user) + (REDACTED + "@")) + Redact(post)
  {
    var x, t, more := FirstUnclean(password);
    Assoc(x, [t] + more, "@" + post);
    Assoc([t], more, "@" + post);
    if t == '@' {
      AtShows(user, x, more, post);
    } else {
      TerminatorShows(user, x, t, more + ("@" + post), post);
    }
  }

  lemma DropRight<T>(a: seq<T>, b: seq<T>, c: seq<T>)
    ensures a + c == b + c <==> a == b
  {
    if a + c == b + c {
      assert |a| == |b|;
      assert (a + c)[..|a|] == a && (b + c)[..|b|] == b;
    }
  }

  /** A scheme in `r:password` begins at that colon or in the password. */
  lemma SchemeBehindColon(r: string, password: string, e: nat)
    requires ':' !in r && At((r + ":") + password, e, SCHEME)
    ensures |r| <= e
  {
    var x := (r + ":") + password;
    if e < |r| {
      assert x[e] == r[e];
      NotAt(x, e, SCHEME, 0);
      assert false;
    }
  }

  /** The mask behind a colon shows no scheme at or behind the colon. */
  lemma MaskHasNoScheme(r: string, y: string, e: nat)
    requires |r| <= e && e + 3 <= |y| && y[e..e + 3] == SCHEME
    ensures y != (r + ":") + (REDACTED + "@")
  {
    var masked := (r + ":") + (REDACTED + "@");
    assert y[e] == y[e..e + 3][0] == ':' && y[e + 1] == y[e..e + 3][1] == '/';
    if e == |r| {
      assert masked[e + 1] == '*';
    } else if e < |masked| {
      assert masked[e] == (REDACTED + "@")[e - |r| - 1];
    }
  }

  /** Without a slash in the password there is no scheme. */
  lemma CleanHasNoScheme(r: string, password: string)
    requires ':' !in r && CleanPassword(password)
    ensures !Contains((r + ":") + password, SCHEME)
  {
    var x := (r + ":") + password;
    forall j | 0 <= j <= |x|
      ensures !At(x, j, SCHEME)
    {
      if j < |r| {
        assert x[j] == r[j];
        NotAt(x, j, SCHEME, 0);
      } else {
        assert j + 1 < |x| ==> x[j + 1] == password[j - |r|];
        NotAt(x, j, SCHEME, 1);
      }
    }
  }

  // --- A user that the authority does not reach to the end of.

  lemma PlainUpToAt(x: string, rest: string)
    requires CleanUser(x)
    ensures Redact(SCHEME + (x + ("@" + rest))) == (SCHEME + (x + "@")) + Redact(rest)
  {
    var s, n := SCHEME + (x + ("@" + rest)), 4 + |x|;
    SchemeAhead(x + ("@" + rest));
    assert forall i | 3 <= i < 3 + |x| :: s[i] == (x + ("@" + rest))[i - 3] == x[i - 3];
    assert s[3 + |x|] == (x + ("@" + rest))[|x|] == '@';
    FourParts(SCHEME, x, "@", rest);
    Assoc(SCHEME, x, "@");
    DescribedTurn(s, Plain(n), SCHEME + (x + "@"), rest);
  }

  lemma PlainUpToTerminator(x: string, t: char, rest: string)
    requires CleanUser(x) && t in TERMINATORS
    ensures Redact(SCHEME + (x + ([t] + rest))) == (SCHEME + x) + Redact([t] + rest)
  {
    var s, n := SCHEME + (x + ([t] + rest)), 3 + |x|;
    SchemeAhead(x + ([t] + rest));
    assert forall i | 3 <= i < 3 + |x| :: s[i] == (x + ([t] + rest))[i - 3] == x[i - 3];
    assert s[3 + |x|] == (x + ([t] + rest))[|x|] == t;
    FourParts(SCHEME, x, [t], rest);
    DescribedTurn(s, Plain(n), SCHEME + x, [t] + rest);
  }

  /** Such a user is cut in two: the authority ends behind `f`, and the pass goes on with `r`. */
  lemma UserCut(user: string, tail: string) returns (f: string, r: string)
    requires ':' !in user && !CleanUser(user)
    ensures user == f + r && ':' !in r
    ensures Redact(SCHEME + (user + tail)) == (SCHEME + f) + Redact(r + tail)
  {
    var x, t, more := FirstUnclean(user);
    assert forall i | 0 <= i < |x| :: x[i] == user[i];
    assert forall i | 0 <= i < |more| :: more[i] == user[|x| + 1 + i];
    Assoc(x, [t] + more, tail);
    Assoc([t], more, tail);
    if t == '@' {
      f, r := x + "@", more;
      Assoc(x, "@", more);
      PlainUpToAt(x, more + tail);
    } else {
      f, r := x, [t] + more;
      PlainUpToTerminator(x, t, more + tail);
    }
  }

  /** A login and what takes the place of its password, from the two halves of the user. */
  lemma LoginCut(f: string, r: string, mask: string, after: string)
    ensures (Login(f + r) + mask) + after == (SCHEME + f) + (((r + ":") + mask) + after)
  {
    Assoc(f, r, ":");
    Assoc(SCHEME, f, r + ":");
    Assoc(SCHEME + f, r + ":", mask);
    Assoc(SCHEME + f, (r + ":") + mask, after);
  }

  /** Behind the cut the password is shown, so that it looks hidden only if it is the mask. */
  lemma OnlyTheMask(r: string, password: string, y: string)
    requires ':' !in r && KeepsFront((r + ":") + password, y)
    ensures y == (r + ":") + (REDACTED + "@") <==> password == REDACTED
  {
    var x, masked := (r + ":") + password, (r + ":") + (REDACTED + "@");
    FindMeans(x, SCHEME);
    if Find(x, SCHEME).None? {
      Assoc(r + ":", password, "@");
      Drop(r + ":", password + "@", REDACTED + "@");
      DropRight(password, REDACTED, "@");
    } else {
      var e := Find(x, SCHEME).value;
      SchemeBehindColon(r, password, e);
      MaskHasNoScheme(r, y, e);
      if password == REDACTED {
        MaskHasNoScheme(r, x + "@", e);
      }
    }
  }

  lemma UncleanUserHides(user: string, password: string, post: string)
    requires ':' !in user && !CleanUser(user)
    ensures Redact(Login(user) + (password + ("@" + post))) == (Login(user) + (REDACTED + "@")) + Redact(post)
            <==> password == REDACTED
  {
    var tail := ":" + (password + ("@" + post));
    LoginIsScheme(user, password + ("@" + post));
    var f, r := UserCut(user, tail);
    var y := FreshBehindAt((r + ":") + password, post);
    Assoc(r, ":", password + ("@" + post));
    Assoc(r + ":", password, "@" + post);
    LoginCut(f, r, REDACTED + "@", Redact(post));
    Drop(SCHEME + f, y + Redact(post), ((r + ":") + (REDACTED + "@")) + Redact(post));
    DropRight(y, (r + ":") + (REDACTED + "@"), Redact(post));
    OnlyTheMask(r, password, y);
  }

  /** Behind such a user a password that could be hidden is shown. */
  lemma UncleanUserShows(user: string, password: string, post: string)
    requires ':' !in user && !CleanUser(user) && CleanPassword(password)
    ensures Redact(Login(user) + (password + ("@" + post))) == (Login(user) + (password + "@")) + Redact(post)
  {
    var tail := ":" + (password + ("@" + post));
    LoginIsScheme(user, password + ("@" + post));
    var f, r := UserCut(user, tail);
    CleanHasNoScheme(r, password);
    Assoc(r, ":", password + ("@" + post));
    Assoc(r + ":", password, "@" + post);
    CopiedThroughAt((r + ":") + password, post);
    Assoc(r + ":", password, "@");
    LoginCut(f, r, password + "@", Redact(post));
  }

  // --- The theorems.

  /**
   Behind any text without a scheme, for every user and every password: the
   password is hidden if and only if it and the user are clean. The one
   password that looks hidden when it is shown is the mask itself.
   */
  lemma HiddenExactly(p: string, user: string, password: string, post: string)
    requires !Contains(p, SCHEME) && ':' !in user
    ensures Hidden(p, user, password, post) <==>
            if CleanUser(user) then CleanPassword(password) else password == REDACTED
  {
    var tail := password + ("@" + post);
    LoginIsScheme(user, tail);
    CopiedBefore(p, user + (":" + tail));
    Drop(p, Redact(Login(user) + tail), (Login(user) + (REDACTED + "@")) + Redact(post));
    if !CleanUser(user) {
      UncleanUserHides(user, password, post);
    } else if CleanPassword(password) {
      MaskedUpToAt(user, password, post);
    } else {
      UncleanPasswordShows(user, password, post);
    }
  }

  /** The same at every place the pass comes to. */
  lemma HiddenWhereReached(text: string, out: string, p: string, user: string, password: string, post: string)
    requires !Contains(p, SCHEME) && ':' !in user
    requires Reaches(text, out, p + (Login(user) + (password + ("@" + post))))
    ensures Redact(text) == out + (p + ((Login(user) + (REDACTED + "@")) + Redact(post))) <==>
            if CleanUser(user) then CleanPassword(password) else password == REDACTED
  {
    var rest := p + (Login(user) + (password + ("@" + post)));
    ReachesRedact(text, out, rest);
    HiddenExactly(p, user, password, post);
    Drop(out, Redact(rest), p + ((Login(user) + (REDACTED + "@")) + Redact(post)));
  }

  /** What a login with a clean password becomes. */
  function LoginShown(user: string, password: string): string {
    Login(user) + ((if CleanUser(user) then REDACTED else password) + "@")
  }

  lemma LoginRedacted(user: string, password: string, post: string)
    requires ':' !in user && CleanPassword(password)
    ensures Redact(Login(user) + (password + ("@" + post))) == LoginShown(user, password) + Redact(post)
  {
    if CleanUser(user) {
      MaskedUpToAt(user, password, post);
    } else {
      UncleanUserShows(user, password, post);
    }
  }

  lemma LoginRedactedWhereReached(text: string, out: string, p: string, user: string, password: string, post: string)
    requires !Contains(p, SCHEME) && ':' !in user && CleanPassword(password)
    requires Reaches(text, out, p + (Login(user) + (password + ("@" + post))))
    ensures Redact(text) == out + (p + (LoginShown(user, password) + Redact(post)))
  {
    var tail := password + ("@" + post);
    ReachesRedact(text, out, p + (Login(user) + tail));
    LoginIsScheme(user, tail);
    CopiedBefore(p, user + (":" + tail));
    LoginRedacted(user, password, post);
  }

  lemma ShownApart(user: string, password: string, password': string, before: string, p: string, after: string)
    ensures (before + (p + (LoginShown(user, password) + after)) ==
             before + (p + (LoginShown(user, password') + after)))
            <==> CleanUser(user) || password == password'
  {
    var one, other := LoginShown(user, password), LoginShown(user, password');
    Drop(before, p + (one + after), p + (other + after));
    Drop(p, one + after, other + after);
    DropRight(one, other, after);
    if !CleanUser(user) {
      Drop(Login(user), password + "@", password' + "@");
      DropRight(password, password', "@");
    }
  }

  /** Two texts that differ in a clean password the pass comes to give one output exactly behind a clean user. */
  lemma NonInterference(pre: string, out: string, p: string, user: string, password: string, password': string,
                        post: string)
    requires !Contains(p, SCHEME) && ':' !in user && CleanPassword(password) && CleanPassword(password')
    requires var rest := p + (Login(user) + (password + ("@" + post))); Reaches(pre + rest, out, rest)
    ensures (Redact(pre + (p + (Login(user) + (password + ("@" + post))))) ==
             Redact(pre + (p + (Login(user) + (password' + ("@" + post))))))
            <==> CleanUser(user) || password == password'
  {
    var c, x, y := p + Login(user), password + ("@" + post), password' + ("@" + post);
    Assoc(p, Login(user), x);
    Assoc(p, Login(user), y);
    ReachesElsewhere(pre, out, c, x, y);
    LoginRedactedWhereReached(pre + (c + x), out, p, user, password, post);
    LoginRedactedWhereReached(pre + (c + y), out, p, user, password', post);
    ShownApart(user, password, password', out, p, Redact(post));
  }

  // --- Which schemes the pass comes to.

  /** Something between two schemes ends the authority behind the first. */
  predicate Closed(mid: string) {
    exists i | 0 <= i < |mid| :: mid[i] in TERMINATORS || mid[i] == '@'
  }

  lemma NoColonNoScheme(s: string)
    requires ':' !in s
    ensures !Contains(s, SCHEME) && Redact(s) == s
  {
    forall j | 0 <= j <= |s|
      ensures !At(s, j, SCHEME)
    {
      NotAt(s, j, SCHEME, 0);
    }
    FindMeans(s, SCHEME);
  }

  lemma SchemeFreeSuffix(mid: string, k: nat)
    requires !Contains(mid, SCHEME) && k <= |mid|
    ensures !Contains(mid[k..], SCHEME)
  {
    forall j | 0 <= j <= |mid[k..]|
      ensures !At(mid[k..], j, SCHEME)
    {
      assert mid == mid[..k] + mid[k..];
      AtSuffix(mid[..k], mid[k..], k + j, SCHEME);
      assert !At(mid, k + j, SCHEME);
    }
  }

  /** An open one takes the colon of the next scheme with it. */
  lemma OpenRunsOn(mid: string, tail: string)
    requires !Closed(mid)
    ensures Redact(SCHEME + (mid + (SCHEME + tail))) == (SCHEME + (mid + ":")) + Redact("//" + tail)
  {
    var s, n := SCHEME + (mid + (SCHEME + tail)), 4 + |mid|;
    var after := mid + (SCHEME + tail);
    SchemeAhead(after);
    assert forall i | 3 <= i < 3 + |mid| :: s[i] == after[i - 3] == mid[i - 3];
    assert s[3 + |mid|] == after[|mid|] == ':' && s[n] == after[|mid| + 1] == '/';
    ReadAuthorityIs(s, 0, Plain(n));
    assert s[..n] == SCHEME + (mid + ":") && s[n..] == "//" + tail;
    OneAuthorityTo(s, 0, Plain(n), SCHEME + (mid + ":"), "//" + tail);
  }

  lemma ClosedIsNotOpen(mid: string)
    requires Closed(mid)
    ensures !Open(SCHEME + mid, ReadAuthority(SCHEME + mid, 0))
    ensures Next(ReadAuthority(SCHEME + mid, 0)) <= 3 + |mid|
  {
    var s := SCHEME + mid;
    ReadAuthorityMeans(s, 0);
    var i :| 0 <= i < |mid| && (mid[i] in TERMINATORS || mid[i] == '@');
    assert s[3 + i] == mid[i];
  }

  /** A scheme-free end of an authority's line, in front of the next scheme. */
  lemma EndThenScheme(mid: string, k: nat, tail: string)
    requires !Contains(mid, SCHEME) && k <= |mid|
    ensures Redact(mid[k..]) == mid[k..] && Redact(mid[k..] + (SCHEME + tail)) == mid[k..] + Redact(SCHEME + tail)
  {
    SchemeFreeSuffix(mid, k);
    FindMeans(mid[k..], SCHEME);
    CopiedBefore(mid[k..], tail);
  }

  /** Two schemes with a closed authority between them are treated one after the other. */
  lemma ClosedReaches(mid: string, tail: string)
    requires Closed(mid) && !Contains(mid, SCHEME)
    ensures Redact(SCHEME + (mid + (SCHEME + tail))) == Redact(SCHEME + mid) + Redact(SCHEME + tail)
  {
    var s, x := SCHEME + mid, SCHEME + tail;
    SchemeAhead(mid);
    ClosedIsNotOpen(mid);
    var a := ReadAuthority(s, 0);
    var k := Next(a) - 3;
    WithinSecond(SCHEME, mid, k);
    assert s[Next(a)..] == mid[k..];
    EndThenScheme(mid, k, tail);
    assert Redact(s + x) == Part(s, a) + (mid[k..] + Redact(x)) by {
      StepExtends(s, x, 0, a);
    }
    assert Redact(s) == Part(s, a) + mid[k..] by {
      OneAuthority(s, 0, a);
    }
    Assoc(Part(s, a), mid[k..], Redact(x));
    Assoc(SCHEME, mid, x);
  }

  lemma GluedLoginText(user: string, password: string, post: string)
    ensures var x := "//" + (user + (":" + password));
            && x + "@" == "//" + (user + (":" + (password + "@")))
            && x + ("@" + post) == "//" + (user + (":" + (password + ("@" + post))))
  {
    Assoc("//", user + (":" + password), "@");
    Assoc(user, ":" + password, "@");
    Assoc(":", password, "@");
    Assoc("//", user + (":" + password), "@" + post);
    Assoc(user, ":" + password, "@" + post);
    Assoc(":", password, "@" + post);
  }

  lemma OneColon(user: string, password: string, j: nat)
    requires ':' !in user && CleanPassword(password)
    requires j <= |"//" + (user + (":" + password))|
    ensures !At("//" + (user + (":" + password)), j, SCHEME)
  {
    var x := "//" + (user + (":" + password));
    if j < 2 + |user| {
      assert x[j] == if j < 2 then '/' else user[j - 2];
      NotAt(x, j, SCHEME, 0);
    } else {
      assert j + 1 < |x| ==> x[j + 1] == password[j - 2 - |user|];
      NotAt(x, j, SCHEME, 1);
    }
  }

  lemma GluedLoginHasNoScheme(user: string, password: string)
    requires ':' !in user && CleanPassword(password)
    ensures !Contains("//" + (user + (":" + password)), SCHEME)
  {
    var x := "//" + (user + (":" + password));
    forall j | 0 <= j <= |x|
      ensures !At(x, j, SCHEME)
    {
      OneColon(user, password, j);
    }
  }

  /** Cut off from its colon, a login is ordinary text. */
  lemma GluedLoginShows(user: string, password: string, post: string)
    requires ':' !in user && CleanPassword(password)
    ensures Redact("//" + (user + (":" + (password + ("@" + post))))) ==
            ("//" + (user + (":" + (password + "@")))) + Redact(post)
  {
    GluedLoginText(user, password, post);
    GluedLoginHasNoScheme(user, password);
    CopiedThroughAt("//" + (user + (":" + password)), post);
  }

  /** A login whose scheme has lost its colon. */
  function GluedLogin(user: string, password: string): string {
    "//" + (user + (":" + (password + "@")))
  }

  /**
   A login behind another scheme: treated as if it stood alone if something
   closes the authority in between, and shown in clear if the two are glued
   together.
   */
  lemma SecondScheme(p: string, mid: string, user: string, password: string, post: string)
    requires !Contains(p, SCHEME) && !Contains(mid, SCHEME) && ':' !in user && CleanPassword(password)
    ensures Redact(p + (SCHEME + (mid + (Login(user) + (password + ("@" + post)))))) ==
            if Closed(mid) then p + (Redact(SCHEME + mid) + (LoginShown(user, password) + Redact(post)))
            else p + ((SCHEME + (mid + ":")) + (GluedLogin(user, password) + Redact(post)))
  {
    var tail := password + ("@" + post);
    LoginIsScheme(user, tail);
    CopiedBefore(p, mid + (Login(user) + tail));
    if Closed(mid) {
      ClosedReaches(mid, user + (":" + tail));
      LoginRedacted(user, password, post);
    } else {
      OpenRunsOn(mid, user + (":" + tail));
      GluedLoginShows(user, password, post);
    }
  }

  // --- Any number of schemes.

  /** What follows a scheme: texts with a scheme behind each, then `t`. */
  function Chained(mids: seq<string>, t: string): string {
    if mids == [] then t else mids[0] + (SCHEME + Chained(mids[1..], t))
  }

  /** A scheme, with or without its colon. */
  function Beginning(whole: bool): string {
    if whole then SCHEME else "//"
  }

  /** The last scheme keeps its colon: the one before lost its own, or its authority is closed. */
  predicate Reached(mids: seq<string>, whole: bool) {
    if mids == [] then whole else Reached(mids[1..], !whole || Closed(mids[0]))
  }

  /** What is shown in front of the last scheme. */
  function Shown(mids: seq<string>, whole: bool): string {
    if mids == [] then ""
    else if !whole then ("//" + mids[0]) + Shown(mids[1..], true)
    else if Closed(mids[0]) then Redact(SCHEME + mids[0]) + Shown(mids[1..], true)
    else (SCHEME + (mids[0] + ":")) + Shown(mids[1..], false)
  }

  lemma SlashesInFront(mid: string, t: string)
    requires !Contains(mid, SCHEME)
    ensures Redact("//" + (mid + (SCHEME + t))) == ("//" + mid) + Redact(SCHEME + t)
  {
    var x := "//" + mid;
    forall j | 0 <= j <= |x|
      ensures !At(x, j, SCHEME)
    {
      if j < 2 {
        NotAt(x, j, SCHEME, 0);
      } else {
        AtSuffix("//", mid, j, SCHEME);
        assert !At(mid, j - 2, SCHEME);
      }
    }
    Assoc("//", mid, SCHEME + t);
    CopiedBefore(x, t);
  }

  lemma {:induction false} ChainRedacted(mids: seq<string>, whole: bool, t: string)
    requires forall i | 0 <= i < |mids| :: !Contains(mids[i], SCHEME)
    ensures Redact(Beginning(whole) + Chained(mids, t)) ==
            Shown(mids, whole) + Redact(Beginning(Reached(mids, whole)) + t)
    decreases |mids|
  {
    if mids == [] {
      assert "" + Redact(Beginning(whole) + t) == Redact(Beginning(whole) + t);
    } else {
      var mid, rest := mids[0], Chained(mids[1..], t);
      var next := !whole || Closed(mid);
      ChainRedacted(mids[1..], next, t);
      var shown, last := Shown(mids[1..], next), Redact(Beginning(Reached(mids, whole)) + t);
      if !whole {
        SlashesInFront(mid, rest);
        Assoc("//" + mid, shown, last);
      } else if Closed(mid) {
        ClosedReaches(mid, rest);
        Assoc(Redact(SCHEME + mid), shown, last);
      } else {
        OpenRunsOn(mid, rest);
        Assoc(SCHEME + (mid + ":"), shown, last);
      }
    }
  }

  /** The last login of a chain of schemes is treated as if it stood alone exactly if its scheme keeps the colon. */
  lemma LastOfAChain(p: string, mids: seq<string>, user: string, password: string, post: string)
    requires !Contains(p, SCHEME) && forall i | 0 <= i < |mids| :: !Contains(mids[i], SCHEME)
    requires ':' !in user && CleanPassword(password)
    ensures Redact(p + (SCHEME + Chained(mids, user + (":" + (password + ("@" + post)))))) ==
            var last := if Reached(mids, true) then LoginShown(user, password) else GluedLogin(user, password);
            p + (Shown(mids, true) + (last + Redact(post)))
  {
    var tail := password + ("@" + post);
    CopiedBefore(p, Chained(mids, user + (":" + tail)));
    ChainRedacted(mids, true, user + (":" + tail));
    if Reached(mids, true) {
      LoginIsScheme(user, tail);
      LoginRedacted(user, password, post);
    } else {
      GluedLoginShows(user, password, post);
    }
  }

  /** Of schemes that are all glued together, every second one keeps its colon. */
  lemma {:induction false} EverySecondOfAChain(mids: seq<string>, whole: bool)
    requires forall i | 0 <= i < |mids| :: !Closed(mids[i])
    ensures Reached(mids, whole) <==> (|mids| % 2 == 0) == whole
    decreases |mids|
  {
    if mids == [] {
    } else {
      EverySecondOfAChain(mids[1..], !whole);
    }
  }

  // --- Where hiding fails.

  lemma BehindPlainText(p: string, b: string, shown: string)
    requires ':' !in p && Redact(SCHEME + b) == shown
    ensures Redact(p + (SCHEME + b)) == p + shown
  {
    NoColonNoScheme(p);
    CopiedBefore(p, b);
  }

  /** Nothing of such a login is hidden. */
  lemma NothingHidden(p: string, user: string, x: string, t: char, more: string)
    requires ':' !in p && CleanUser(user) && CleanPassword(x) && t in TERMINATORS && ':' !in [t] + more
    ensures Redact(p + (Login(user) + (x + ([t] + more)))) == p + (Login(user) + (x + ([t] + more)))
  {
    var tail := x + ([t] + more);
    LoginIsScheme(user, tail);
    ShownUpToTerminator(user, x, t, more);
    NoColonNoScheme([t] + more);
    Assoc(Login(user), x, [t] + more);
    BehindPlainText(p, user + (":" + tail), Login(user) + tail);
  }

  /** Of such a login only what is before the first `@` is hidden. */
  lemma TailNotHidden(p: string, user: string, x: string, more: string)
    requires ':' !in p && CleanUser(user) && CleanPassword(x) && ':' !in more
    ensures Redact(p + (Login(user) + (x + ("@" + more)))) == p + ((Login(user) + (REDACTED + "@")) + more)
  {
    var tail := x + ("@" + more);
    LoginIsScheme(user, tail);
    MaskedUpToAt(user, x, more);
    NoColonNoScheme(more);
    BehindPlainText(p, user + (":" + tail), (Login(user) + (REDACTED + "@")) + more);
  }

  /** A login glued to a scheme before it is not hidden. */
  lemma GluedNotHidden(p: string, mid: string, user: string, password: string, post: string)
    requires ':' !in p && ':' !in mid && !Closed(mid) && CleanUser(user) && CleanPassword(password) && ':' !in post
    ensures Redact(p + (SCHEME + (mid + (Login(user) + (password + ("@" + post)))))) ==
            p + ((SCHEME + (mid + ":")) + (("//" + (user + (":" + (password + "@")))) + post))
  {
    NoColonNoScheme(p);
    NoColonNoScheme(mid);
    NoColonNoScheme(post);
    SecondScheme(p, mid, user, password, post);
  }

  lemma SlashText()
    ensures "p://u:a/b@h" == "p" + (Login("u") + ("a" + (['/'] + "b@h")))
  {
  }

  /** A `/` in the password leaves all of it in clear. */
  lemma SlashInPassword(text: string)
    requires text == "p://u:a/b@h"
    ensures Redact(text) == text
  {
    SlashText();
    NothingHidden("p", "u", "a", '/', "b@h");
  }

  lemma AtText()
    ensures "p://u:a@b@h" == "p" + (Login("u") + ("a" + ("@" + "b@h")))
    ensures "p://u:***@b@h" == "p" + ((Login("u") + (REDACTED + "@")) + "b@h")
  {
  }

  /** An `@` in the password leaves its tail in clear. */
  lemma AtInPassword(text: string, shown: string)
    requires text == "p://u:a@b@h" && shown == "p://u:***@b@h"
    ensures Redact(text) == shown
  {
    AtText();
    TailNotHidden("p", "u", "a", "b@h");
  }

  lemma GluedText()
    ensures "a://b://u:pw@h" == "a" + (SCHEME + ("b" + (Login("u") + ("pw" + ("@" + "h")))))
    ensures "a://b://u:pw@h" == "a" + ((SCHEME + ("b" + ":")) + (("//" + ("u" + (":" + ("pw" + "@")))) + "h"))
  {
  }

  /** A scheme glued to the one before it is not come to. */
  lemma GluedScheme(text: string)
    requires text == "a://b://u:pw@h"
    ensures Redact(text) == text
  {
    GluedText();
    GluedNotHidden("a", "b", "u", "pw", "h");
  }

  lemma EmailText()
    ensures "p://a@b:pw@h" == "p" + (Login("a@b") + ("pw" + ("@" + "h")))
    ensures "p://a@b:pw@h" == "p" + ((Login("a@b") + ("pw" + "@")) + "h")
  {
  }

  /** An `@` in the user leaves the password in clear. */
  lemma EmailAsUser(text: string)
    requires text == "p://a@b:pw@h"
    ensures Redact(text) == text
  {
    EmailText();
    NoColonNoScheme("h");
    assert "a@b"[1] == '@';
    UncleanUserShows("a@b", "pw", "h");
    LoginIsScheme("a@b", "pw" + ("@" + "h"));
    BehindPlainText("p", "a@b" + (":" + ("pw" + ("@" + "h"))), (Login("a@b") + ("pw" + "@")) + "h");
  }
}
