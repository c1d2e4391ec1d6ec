/**
 `sanitize_json`. An object is the sequence of its entries in the order the
 source iterates over them.
 */
module SanitizeJson {
  import opened Text
  import opened Redaction
  import opened SecretKeys
  import SanitizeText

  datatype Json =
    | Null
    | Bool(flag: bool)
    | Number(digits: string)
    | Text(text: string)
    | Array(items: seq<Json>)
    | Object(entries: seq<Entry>)

  datatype Entry = Entry(key: string, value: Json)

  const MASK := Text(REDACTED)

  /** A bare command-line flag whose name reads as a secret. */
  predicate ArmsNext(u: CharClasses, item: Json) {
    item.Text? && item.text != "" && item.text[0] == '-' && '=' !in item.text && IsSecretKey(u, item.text)
  }

  function Sanitized(u: CharClasses, value: Json): Json
    decreases value
  {
    match value
    case Object(entries) => Object(Entries(u, entries))
    case Array(items) => Array(Items(u, items, false))
    case Text(text) => Text(SanitizeText.Sanitized(u, text))
    case _ => value
  }

  function Items(u: CharClasses, items: seq<Json>, redactNext: bool): seq<Json>
    decreases items
  {
    if items == [] then []
    else if redactNext then [MASK] + Items(u, items[1..], false)
    else [Sanitized(u, items[0])] + Items(u, items[1..], ArmsNext(u, items[0]))
  }

  function Entries(u: CharClasses, entries: seq<Entry>): seq<Entry>
    decreases entries
  {
    if entries == [] then []
    else
      var child := if IsSecretKey(u, entries[0].key) then MASK else Sanitized(u, entries[0].value);
      [Entry(entries[0].key, child)] + Entries(u, entries[1..])
  }

  // --- The recursion as the source runs it.

  method Sanitize(u: CharClasses, value: Json) returns (out: Json)
    ensures out == Sanitized(u, value)
    decreases value, 1
  {
    match value
    case Object(entries) =>
      var r := SanitizeEntries(u, value, entries);
      out := Object(r);
    case Array(items) =>
      var r := SanitizeItems(u, value, items);
      out := Array(r);
    case Text(text) =>
      var r := SanitizeText.Sanitize(u, text);
      out := Text(r);
    case _ =>
      out := value;
  }

  method SanitizeItems(u: CharClasses, value: Json, items: seq<Json>) returns (out: seq<Json>)
    requires value == Array(items)
    ensures out == Items(u, items, false)
    decreases value, 0
  {
    out := [];
    var redactNext := false;
    for i := 0 to |items|
      invariant out + Items(u, items[i..], redactNext) == Items(u, items, false)
    {
      ghost var rest := items[i..];
      assert rest[0] == items[i] && rest[1..] == items[i + 1..];
      if redactNext {
        redactNext := false;
        Assoc(out, [MASK], Items(u, rest[1..], false));
        out := out + [MASK];
      } else {
        redactNext := ArmsNext(u, items[i]);
        var item := Sanitize(u, items[i]);
        Assoc(out, [item], Items(u, rest[1..], redactNext));
        out := out + [item];
      }
    }
  }

  method SanitizeEntries(u: CharClasses, value: Json, entries: seq<Entry>) returns (out: seq<Entry>)
    requires value == Object(entries)
    ensures out == Entries(u, entries)
    decreases value, 0
  {
    out := [];
    for i := 0 to |entries|
      invariant out + Entries(u, entries[i..]) == Entries(u, entries)
    {
      ghost var rest := entries[i..];
      assert rest[0] == entries[i] && rest[1..] == entries[i + 1..];
      var child := MASK;
      if !IsSecretKey(u, entries[i].key) {
        child := Sanitize(u, entries[i].value);
      }
      var entry := Entry(entries[i].key, child);
      Assoc(out, [entry], Entries(u, rest[1..]));
      out := out + [entry];
    }
  }

  // --- Non-interference.

  /**
   Two values that differ only where nothing is shown: under secret keys, in
   the element behind an unredacted secret flag, and inside strings in ways
   the text passes hide.
   */
  predicate Alike(u: CharClasses, a: Json, b: Json)
    decreases a
  {
    match (a, b)
    case (Object(e), Object(f)) => EntriesAlike(u, e, f)
    case (Array(x), Array(y)) => ItemsAlike(u, x, y, false)
    case (Text(s), Text(t)) => SanitizeText.Sanitized(u, s) == SanitizeText.Sanitized(u, t)
    case _ => a == b
  }

  predicate ItemsAlike(u: CharClasses, x: seq<Json>, y: seq<Json>, hidden: bool)
    decreases x
  {
    |x| == |y| &&
    (x != [] ==>
       if hidden then ItemsAlike(u, x[1..], y[1..], false)
       else
         && Alike(u, x[0], y[0])
         && ArmsNext(u, x[0]) == ArmsNext(u, y[0])
         && ItemsAlike(u, x[1..], y[1..], ArmsNext(u, x[0])))
  }

  predicate EntriesAlike(u: CharClasses, e: seq<Entry>, f: seq<Entry>)
    decreases e
  {
    |e| == |f| &&
    (e != [] ==>
       && e[0].key == f[0].key
       && (IsSecretKey(u, e[0].key) || Alike(u, e[0].value, f[0].value))
       && EntriesAlike(u, e[1..], f[1..]))
  }

  lemma {:induction false} NonInterference(u: CharClasses, a: Json, b: Json)
    requires Alike(u, a, b)
    ensures Sanitized(u, a) == Sanitized(u, b)
    decreases a
  {
    match (a, b)
    case (Object(e), Object(f)) => EntriesNonInterference(u, e, f);
    case (Array(x), Array(y)) => ItemsNonInterference(u, x, y, false);
    case _ =>
  }

  lemma {:induction false} ItemsNonInterference(u: CharClasses, x: seq<Json>, y: seq<Json>, hidden: bool)
    requires ItemsAlike(u, x, y, hidden)
    ensures Items(u, x, hidden) == Items(u, y, hidden)
    decreases x
  {
    if x == [] {
    } else {
      if hidden {
        ItemsNonInterference(u, x[1..], y[1..], false);
      } else {
        NonInterference(u, x[0], y[0]);
        ItemsNonInterference(u, x[1..], y[1..], ArmsNext(u, x[0]));
      }
    }
  }

  lemma {:induction false} EntriesNonInterference(u: CharClasses, e: seq<Entry>, f: seq<Entry>)
    requires EntriesAlike(u, e, f)
    ensures Entries(u, e) == Entries(u, f)
    decreases e
  {
    if e == [] {
    } else {
      if !IsSecretKey(u, e[0].key) {
        NonInterference(u, e[0].value, f[0].value);
      }
      EntriesNonInterference(u, e[1..], f[1..]);
    }
  }

  // --- What is masked and what is kept, by position and by path.

  /** Element `i` is behind a secret flag that is itself shown. */
  predicate Masked(u: CharClasses, items: seq<Json>, i: nat)
    requires i < |items|
    decreases i
  {
    0 < i && ArmsNext(u, items[i - 1]) && !Masked(u, items, i - 1)
  }

  lemma {:induction false} ItemsLength(u: CharClasses, items: seq<Json>, redactNext: bool)
    ensures |Items(u, items, redactNext)| == |items|
  {
    if items == [] {
    } else {
      ItemsLength(u, items[1..], !redactNext && ArmsNext(u, items[0]));
    }
  }

  lemma {:induction false} ItemsFrom(u: CharClasses, items: seq<Json>, i: nat)
    requires i < |items|
    ensures |Items(u, items, false)| == |items|
    ensures Items(u, items, false)[i..] == Items(u, items[i..], Masked(u, items, i))
    decreases i
  {
    if i == 0 {
      assert items[0..] == items;
      ItemsLength(u, items, false);
      assert Items(u, items, false)[0..] == Items(u, items, false);
    } else {
      ItemsFrom(u, items, i - 1);
      var rest := items[i - 1..];
      assert rest[0] == items[i - 1] && rest[1..] == items[i..];
      var all, tail := Items(u, items, false), Items(u, rest, Masked(u, items, i - 1));
      assert all[i..] == tail[1..];
    }
  }

  /** An array keeps its length; each element is masked or sanitized by itself. */
  lemma ArrayKeepsItsPlaces(u: CharClasses, items: seq<Json>, i: nat)
    requires i < |items|
    ensures |Items(u, items, false)| == |items|
    ensures Items(u, items, false)[i] == if Masked(u, items, i) then MASK else Sanitized(u, items[i])
  {
    ItemsFrom(u, items, i);
    assert Items(u, items, false)[i] == Items(u, items, false)[i..][0];
    assert items[i..][0] == items[i];
  }

  /** An object keeps its keys; each value is masked or sanitized by itself. */
  lemma {:induction false} ObjectKeepsItsKeys(u: CharClasses, entries: seq<Entry>, i: nat)
    requires i < |entries|
    ensures |Entries(u, entries)| == |entries|
    ensures Entries(u, entries)[i].key == entries[i].key
    ensures Entries(u, entries)[i].value ==
            if IsSecretKey(u, entries[i].key) then MASK else Sanitized(u, entries[i].value)
    decreases entries
  {
    if |entries| == 1 {
    } else {
      ObjectKeepsItsKeys(u, entries[1..], if i == 0 then 0 else i - 1);
    }
  }

  /** The value at the end of a path of positions. */
  function Lookup(value: Json, path: seq<nat>): Option<Json>
    decreases |path|
  {
    if path == [] then Some(value)
    else if value.Array? && path[0] < |value.items| then Lookup(value.items[path[0]], path[1..])
    else if value.Object? && path[0] < |value.entries| then Lookup(value.entries[path[0]].value, path[1..])
    else None
  }

  /** No step of the path goes into something that is masked. */
  predicate Shown(u: CharClasses, value: Json, path: seq<nat>)
    decreases |path|
  {
    path != [] ==>
      var i := path[0];
      if value.Array? && i < |value.items| then
        !Masked(u, value.items, i) && Shown(u, value.items[i], path[1..])
      else if value.Object? && i < |value.entries| then
        !IsSecretKey(u, value.entries[i].key) && Shown(u, value.entries[i].value, path[1..])
      else true
  }

  /** Sanitizing commutes with every lookup along an unredacted path. */
  lemma {:induction false} SanitizedInPlace(u: CharClasses, value: Json, path: seq<nat>)
    requires Shown(u, value, path)
    ensures Lookup(Sanitized(u, value), path) ==
            match Lookup(value, path) case Some(v) => Some(Sanitized(u, v)) case None => None
    decreases |path|
  {
    if path == [] {
    } else {
      var i := path[0];
      if value.Array? {
        ItemsLength(u, value.items, false);
        if i < |value.items| {
          ArrayKeepsItsPlaces(u, value.items, i);
          SanitizedInPlace(u, value.items[i], path[1..]);
        }
      } else if value.Object? {
        if i < |value.entries| {
          ObjectKeepsItsKeys(u, value.entries, i);
          SanitizedInPlace(u, value.entries[i].value, path[1..]);
        } else if value.entries != [] {
          ObjectKeepsItsKeys(u, value.entries, 0);
        }
      }
    }
  }

  /** What a value says by itself: text goes through the text passes, other scalars stay. */
  lemma ScalarsInPlace(u: CharClasses, value: Json, path: seq<nat>)
    requires Shown(u, value, path) && Lookup(value, path).Some?
    ensures var was, left := Lookup(value, path).value, Lookup(Sanitized(u, value), path);
            && (was.Text? ==> left == Some(Text(SanitizeText.Sanitized(u, was.text))))
            && (was.Null? || was.Bool? || was.Number? ==> left == Some(was))
  {
    SanitizedInPlace(u, value, path);
  }

  lemma {:induction false} LookupAppend(value: Json, path: seq<nat>, more: seq<nat>)
    ensures Lookup(value, path + more) ==
            match Lookup(value, path) case Some(v) => Lookup(v, more) case None => None
    decreases |path|
  {
    if path == [] {
      assert path + more == more;
    } else {
      var i := path[0];
      assert (path + more)[1..] == path[1..] + more;
      if value.Array? && i < |value.items| {
        LookupAppend(value.items[i], path[1..], more);
      } else if value.Object? && i < |value.entries| {
        LookupAppend(value.entries[i].value, path[1..], more);
      }
    }
  }

  /** A string that starts with `-`, holds no `=` and reads as a secret hides whatever stands behind it. */
  lemma FlagHidesTheNext(u: CharClasses, value: Json, path: seq<nat>, i: nat, flag: string)
    requires Shown(u, value, path) && Lookup(value, path).Some? && Lookup(value, path).value.Array?
    requires var items := Lookup(value, path).value.items;
             && i + 1 < |items| && items[i] == Text("-" + flag) && '=' !in flag && IsSecretKey(u, "-" + flag)
             && !Masked(u, items, i)
    ensures Lookup(Sanitized(u, value), path + [i + 1]) == Some(Text("***"))
  {
    var items := Lookup(value, path).value.items;
    SanitizedInPlace(u, value, path);
    ArrayKeepsItsPlaces(u, items, i + 1);
    LookupAppend(Sanitized(u, value), path, [i + 1]);
  }

  /** Nothing else in an array hides anything. */
  lemma OthersHideNothing(u: CharClasses, value: Json, path: seq<nat>, i: nat)
    requires Shown(u, value, path) && Lookup(value, path).Some? && Lookup(value, path).value.Array?
    requires var items := Lookup(value, path).value.items;
             && i < |items|
             && (i > 0 && items[i - 1].Text? ==>
                   var t := items[i - 1].text;
                   t == "" || t[0] != '-' || '=' in t || !IsSecretKey(u, t))
    ensures Lookup(Sanitized(u, value), path + [i]) == Some(Sanitized(u, Lookup(value, path).value.items[i]))
  {
    var items := Lookup(value, path).value.items;
    SanitizedInPlace(u, value, path);
    ArrayKeepsItsPlaces(u, items, i);
    LookupAppend(Sanitized(u, value), path, [i]);
  }

  /** The value under a secret key is hidden, whatever it is, wherever the object stands. */
  lemma SecretKeyHides(u: CharClasses, value: Json, path: seq<nat>, i: nat)
    requires Shown(u, value, path) && Lookup(value, path).Some? && Lookup(value, path).value.Object?
    requires i < |Lookup(value, path).value.entries|
    requires IsSecretKey(u, Lookup(value, path).value.entries[i].key)
    ensures Lookup(Sanitized(u, value), path + [i]) == Some(Text("***"))
  {
    var entries := Lookup(value, path).value.entries;
    SanitizedInPlace(u, value, path);
    ObjectKeepsItsKeys(u, entries, i);
    LookupAppend(Sanitized(u, value), path, [i]);
  }
}
