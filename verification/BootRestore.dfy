/** A saved environment, taken apart and executed from the defaults, comes back. */
module BootRestore {
  import opened BootTokens
  import opened BootMonitor

  /** The tokens of a saved line. */
  function Commands(e: Entry): seq<string> {
    [e.name] +
    if e.kind.Function? then ["(" + e.arg + ")"] + Tokens(e.value)
    else if e.dev && !e.special then ["=", "d", e.value] else ["=", e.value]
  }

  function AllCommands(env: seq<Entry>): seq<string> {
    if env == [] then []
    else (if IsSaved(env[0]) then Commands(env[0]) + [";"] else []) + AllCommands(env[1..])
  }

  predicate AllWell(env: seq<Entry>) {
    forall i :: 0 <= i < |env| ==> IsSaved(env[i]) ==> WellEntry(env[i])
  }

  // ----- the sector comes apart -----

  lemma {:induction false} NewlineRun(n: nat)
    ensures Tokens("\n" + Newlines(n)) == [";"]
  {
    NewlineIsSeparator(Newlines(n));
    if n == 0 {
      assert Newlines(0) == "" && Tokens("") == [];
    } else {
      assert Newlines(n) == "\n" + Newlines(n - 1);
      NewlineRun(n - 1);
    }
  }

  /** A saved line comes apart into an entry's commands. */
  lemma LineComesApart(e: Entry, rest: string)
    requires WellEntry(e) && rest != "" && rest[0] == '\n'
    ensures Tokens(Line(e) + rest) == Commands(e) + Tokens(rest)
  {
    hide Tokens, Closes;
    match e.kind
    case Variable =>
      TokenComesOff(e.value, rest);
      if e.dev && !e.special {
        DeviceComesApart(e.name, e.value + rest);
        assert Line(e) + rest == e.name + ("=" + ("d" + (" " + (e.value + rest))));
      } else {
        EqualsComesOff(e.name, e.value + rest);
        assert Line(e) + rest == e.name + ("=" + (e.value + rest));
      }
    case Function => FunctionComesApart(e, rest);
  }

  lemma EqualsComesOff(name: string, rest: string)
    requires Word(name)
    ensures Tokens(name + ("=" + rest)) == [name, "="] + Tokens(rest)
  {
    hide Tokens;
    assert !WordChar("="[0]) && ("=" + rest)[0] == '=';
    TokenComesOff("=", rest);
    TokenComesOff(name, "=" + rest);
  }

  lemma DeviceComesApart(name: string, rest: string)
    requires Word(name)
    ensures Tokens(name + ("=" + ("d" + (" " + rest)))) == [name, "=", "d"] + Tokens(rest)
  {
    hide Tokens;
    var d := "d";
    assert WordChar(d[0]) && (" " + rest)[0] == ' ';
    SpaceSkipped(rest);
    TokenComesOff(d, " " + rest);
    EqualsComesOff(name, d + (" " + rest));
  }

  lemma FunctionComesApart(e: Entry, rest: string)
    requires WellEntry(e) && e.kind.Function? && rest != "" && rest[0] == '\n'
    ensures Tokens(Line(e) + rest) == Commands(e) + Tokens(rest)
  {
    hide Tokens, Closes, Printed;
    var p := "(" + e.arg + ")";
    assert !WordChar(p[0]) && (p + (e.value + rest))[0] == '(';
    PrintedComesApart(Tokens(e.value), rest);
    TokenComesOff(p, e.value + rest);
    TokenComesOff(e.name, p + (e.value + rest));
    assert Line(e) + rest == e.name + (p + (e.value + rest));
  }

  lemma {:induction false} LinesComeApart(env: seq<Entry>, n: nat)
    requires AllWell(env)
    ensures Tokens(Lines(env) + Newlines(n)) == if Lines(env) == "" then (if n == 0 then [] else [";"])
      else AllCommands(env)
    ensures Lines(env) == "" ==> AllCommands(env) == []
    ensures Lines(env) != "" ==> Lines(env)[0] != '\n'
  {
    hide Tokens, WellEntry, Commands;
    if env == [] {
      NoLines(n);
    } else {
      LinesComeApart(env[1..], n);
      if IsSaved(env[0]) {
        LineStarts(env[0]);
        OneLineMore(env[0], Lines(env[1..]), n, AllCommands(env[1..]));
        Joined(Line(env[0]), Lines(env[1..]), Newlines(n));
      } else {
        assert Lines(env) == Lines(env[1..]);
        assert [] + AllCommands(env[1..]) == AllCommands(env[1..]);
      }
    }
  }

  lemma Joined(line: string, lines: string, fill: string)
    ensures line + "\n" + lines + fill == line + ("\n" + (lines + fill))
  {
  }

  lemma OneLineMore(e: Entry, lines: string, n: nat, cmds: seq<string>)
    requires WellEntry(e) && (lines != "" ==> lines[0] != '\n')
    requires Tokens(lines + Newlines(n)) == if lines == "" then (if n == 0 then [] else [";"]) else cmds
    requires lines == "" ==> cmds == []
    ensures Tokens(Line(e) + ("\n" + (lines + Newlines(n)))) == Commands(e) + [";"] + cmds
  {
    hide Tokens, WellEntry, Commands, Line;
    var more := lines + Newlines(n);
    LineComesApart(e, "\n" + more);
    NewlineIsSeparator(more);
    if lines == "" {
      assert more == Newlines(n);
      NewlineRun(n);
      assert Commands(e) + [";"] + [] == Commands(e) + [";"];
    } else {
      assert more[0] == lines[0];
      assert Commands(e) + ([";"] + cmds) == Commands(e) + [";"] + cmds;
    }
  }

  lemma NoLines(n: nat)
    ensures Tokens(Lines([]) + Newlines(n)) == if n == 0 then [] else [";"]
  {
    assert Lines([]) + Newlines(n) == Newlines(n);
    if n > 0 {
      assert Newlines(n) == "\n" + Newlines(n - 1);
      NewlineRun(n - 1);
    } else {
      assert Newlines(0) == "";
    }
  }

  lemma LineStarts(e: Entry)
    requires WellEntry(e)
    ensures Line(e) != "" && Line(e)[0] != '\n'
  {
    assert WordChar(e.name[0]);
  }

  // ----- executing a saved line -----

  /** Executing an entry's commands sets it; the device mark is in the line only for a variable that is
      not special. */
  lemma CommandsSet(env: seq<Entry>, e: Entry, rest: seq<string>)
    requires WellEntry(e)
    requires SetEnv(env, e.kind.Variable? && e.dev && !e.special, e.kind, e.name, e.arg, e.value).Some?
    ensures ExecuteAll(env, Commands(e) + [";"] + rest)
         == ExecuteAll(SetEnv(env, e.kind.Variable? && e.dev && !e.special, e.kind, e.name, e.arg, e.value).value, rest)
  {
    var r := SetEnv(env, e.kind.Variable? && e.dev && !e.special, e.kind, e.name, e.arg, e.value).value;
    var cmds := Commands(e) + [";"] + rest;
    match e.kind
    case Variable => AssignmentRuns(env, e, rest);
    case Function => DefinitionRuns(env, e, rest);
    assert Execute(env, cmds) == Ran(r, [";"] + rest);
    assert ([";"] + rest)[1..] == rest;
    assert Execute(r, [";"] + rest) == Ran(r, rest);
  }

  lemma AssignmentRuns(env: seq<Entry>, e: Entry, rest: seq<string>)
    requires WellEntry(e) && e.kind.Variable?
    requires SetEnv(env, e.dev && !e.special, Variable, e.name, "", e.value).Some?
    ensures Execute(env, Commands(e) + [";"] + rest)
         == Ran(SetEnv(env, e.dev && !e.special, Variable, e.name, "", e.value).value, [";"] + rest)
  {
    hide SetEnv, Extent;
    var cmds, n := Commands(e) + [";"] + rest, |Commands(e)|;
    assert WordChar(e.name[0]) && WordChar(e.value[0]);
    SeparatorIs(Commands(e), [";"] + rest);
    assert cmds == Commands(e) + ([";"] + rest);
    assert IsAssignment(cmds, n) && cmds[n - 1] == e.value && cmds[n..] == [";"] + rest;
  }

  lemma {:induction false} SeparatorIs(toks: seq<string>, rest: seq<string>)
    requires (forall i :: 0 <= i < |toks| ==> !Starts(toks[i], ';')) && rest != [] && Starts(rest[0], ';')
    ensures Separator(toks + rest) == |toks|
  {
    if toks == [] {
      assert toks + rest == rest;
    } else {
      assert (toks + rest)[1..] == toks[1..] + rest;
      SeparatorIs(toks[1..], rest);
    }
  }

  lemma DefinitionRuns(env: seq<Entry>, e: Entry, rest: seq<string>)
    requires WellEntry(e) && e.kind.Function?
    requires SetEnv(env, false, Function, e.name, e.arg, e.value).Some?
    ensures Execute(env, Commands(e) + [";"] + rest)
         == Ran(SetEnv(env, false, Function, e.name, e.arg, e.value).value, [";"] + rest)
  {
    hide SetEnv, Extent, Tokens, Printed, Closes, AllWellFormed;
    var b, p := Tokens(e.value), "(" + e.arg + ")";
    var cmds := Commands(e) + [";"] + rest;
    assert WordChar(e.name[0]);
    assert cmds[0] == e.name && cmds[1] == p && cmds[2] == b[0];
    ThreeBeforeSeparator(cmds);
    assert cmds[2..] == b + ([";"] + rest);
    ExtentOfBody(b, 0, [";"] + rest);
    assert cmds[2..2 + |b|] == b && cmds[2 + |b|..] == [";"] + rest;
    assert p[1..][..|p[1..]| - 1] == e.arg;
  }

  lemma ThreeBeforeSeparator(cmds: seq<string>)
    requires |cmds| >= 3 && !Starts(cmds[0], ';') && !Starts(cmds[1], ';') && !Starts(cmds[2], ';')
    ensures Separator(cmds) >= 3
  {
    assert cmds[1..][1..] == cmds[2..];
    assert Separator(cmds[2..]) >= 1;
    assert Separator(cmds[1..]) >= 2;
  }

  // ----- environments that commands bring about -----

  /** The environment the monitor starts with: special entries, and reserved ones whose name no command
      can spell. */
  predicate Defaults(env: seq<Entry>) {
    && Distinct(env)
    && forall i :: 0 <= i < |env| ==>
         if env[i].reserved then !Word(env[i].name)
         else env[i].special && env[i].arg == "" && env[i].defval.None?
  }

  /** What a name can mean now, given what it meant at first. */
  predicate Related(name: string, first: Option<Entry>, now: Option<Entry>) {
    match first
    case None =>
      now.Some? ==>
        var e := now.value;
        e.name == name && !e.special && !e.reserved && e.defval.None? && !Reserved(name) && WellEntry(e)
    case Some(f) =>
      now.Some? &&
      if f.reserved then now == first && !Word(name)
      else
        var e := now.value;
        && f.special && f.arg == "" && f.defval.None? && e.special && !e.reserved && e.kind == f.kind
          && e.name == f.name == name
        && (f.dev ==> e.dev)
        && if e.defval.None? then e.value == f.value && e.arg == "" else e.defval.value == f.value && WellEntry(e)
  }

  ghost predicate Derived(first: seq<Entry>, env: seq<Entry>) {
    Distinct(env) && forall n :: Related(n, Lookup(first, n), Lookup(env, n))
  }

  lemma DefaultsDerived(env: seq<Entry>)
    requires Defaults(env)
    ensures Derived(env, env)
  {
  }

  lemma {:induction false} DistinctAfterAppend(env: seq<Entry>, e: Entry)
    requires Distinct(env) && Lookup(env, e.name).None?
    ensures Distinct(env + [e])
  {
    if env != [] {
      assert (env + [e])[1..] == env[1..] + [e];
      DistinctAfterAppend(env[1..], e);
      FindAfterAppend(env[1..], e, env[0].name);
    } else {
      assert (env + [e])[1..] == [];
    }
  }

  lemma {:induction false} DistinctAfterChange(env: seq<Entry>, i: nat, e: Entry)
    requires Distinct(env) && i < |env| && e.name == env[i].name
    ensures Distinct(env[i := e])
  {
    if i > 0 {
      assert env[i := e][1..] == env[1..][i - 1 := e];
      DistinctAfterChange(env[1..], i - 1, e);
      FindUnchanged(env[1..], i - 1, e, env[0].name);
    } else {
      assert env[i := e][1..] == env[1..];
    }
  }

  lemma {:induction false} RemovedDistinct(env: seq<Entry>, i: nat)
    requires Distinct(env) && i < |env|
    ensures Distinct(env[..i] + env[i + 1..])
    decreases i
  {
    var r := env[..i] + env[i + 1..];
    if i == 0 {
      assert r == env[1..];
    } else {
      assert r[0] == env[0] && r[1..] == env[1..][..i - 1] + env[1..][i..];
      RemovedDistinct(env[1..], i - 1);
      RemovedLookup(env[1..], i - 1, env[0].name);
    }
  }

  lemma SetKeeps(first: seq<Entry>, env: seq<Entry>, dev: bool, kind: Kind, name: string, arg: string, value: string)
    requires Derived(first, env) && WellEntry(NewEntry(name, dev, kind, arg, value))
    requires SetEnv(env, dev, kind, name, arg, value).Some?
    ensures Derived(first, SetEnv(env, dev, kind, name, arg, value).value)
  {
    hide Tokens, Word, Paren, Closes, Reserved, Find;
    var r := SetEnv(env, dev, kind, name, arg, value).value;
    assert Related(name, Lookup(first, name), Lookup(env, name));
    var i := Find(env, name);
    if i == |env| {
      DistinctAfterAppend(env, NewEntry(name, dev, kind, arg, value));
    } else {
      DistinctAfterChange(env, i, Changed(env[i], dev, kind, arg, value));
    }
    forall n ensures Related(n, Lookup(first, n), Lookup(r, n)) {
      SetEnvLookup(env, dev, kind, name, arg, value, n);
      assert Related(n, Lookup(first, n), Lookup(env, n));
    }
  }

  lemma UnsetKeeps(first: seq<Entry>, env: seq<Entry>, name: string)
    requires Derived(first, env) && Word(name)
    ensures Derived(first, Unset(env, name))
  {
    hide Tokens, Word, Paren, Closes, Reserved;
    var i := Find(env, name);
    assert Related(name, Lookup(first, name), Lookup(env, name));
    if i < |env| && env[i].special && env[i].defval.Some? {
      var e := env[i].(arg := "", value := env[i].defval.value, defval := None);
      DistinctAfterChange(env, i, e);
      forall n ensures Related(n, Lookup(first, n), Lookup(env[i := e], n)) {
        FindUnchanged(env, i, e, n);
        assert Related(n, Lookup(first, n), Lookup(env, n));
      }
    } else if i < |env| && !env[i].special {
      RemovedDistinct(env, i);
      forall n ensures Related(n, Lookup(first, n), Lookup(env[..i] + env[i + 1..], n)) {
        RemovedLookup(env, i, n);
        assert Related(n, Lookup(first, n), Lookup(env, n));
      }
    }
  }

  lemma {:induction false} ClosesWithParen(s: string, depth: nat)
    requires Closes(s, depth)
    ensures s[|s| - 1] == ')'
    decreases |s|
  {
    if |s| > 1 {
      if s[0] == '(' {
        ClosesWithParen(s[1..], depth + 1);
      } else if s[0] == ')' {
        ClosesWithParen(s[1..], depth - 1);
      } else {
        ClosesWithParen(s[1..], depth);
      }
    }
  }

  /** Assignments and definitions made of closed tokens keep the environment one that commands bring
      about. */
  lemma ExecuteKeeps(first: seq<Entry>, env: seq<Entry>, cmds: seq<string>)
    requires Derived(first, env) && AllWellFormed(cmds) && cmds != [] && Execute(env, cmds).Ran?
    ensures Derived(first, Execute(env, cmds).env) && AllWellFormed(Execute(env, cmds).cmds)
  {
    hide Derived, Tokens, SetEnv, Closes, Printed, Extent, WordChar;
    var n := Separator(cmds);
    if n > 0 {
      NonSugarIsWord(cmds[0]);
      if IsAssignment(cmds, n) {
        NonSugarIsWord(cmds[n - 1]);
        SetKeeps(first, env, n == 4, Variable, cmds[0], "", cmds[n - 1]);
      } else {
        var len := Extent(cmds[2..], 0).0;
        var b := cmds[2..2 + len];
        DefinitionIsWell(cmds, len);
        assert cmds[1][1..][..|cmds[1]| - 2] == cmds[1][1..|cmds[1]| - 1];
        SetKeeps(first, env, false, Function, cmds[0], cmds[1][1..|cmds[1]| - 1], Printed(b));
      }
    }
  }

  lemma NonSugarIsWord(t: string)
    requires WellFormed(t)
    ensures !Sugar(t) ==> Word(t)
    ensures Starts(t, '(') ==> Paren(t) && |t| >= 2
  {
    hide Closes;
    if Starts(t, '(') {
      assert !WordChar(t[0]);
      assert t != "=" && t != ")" && t != "{" && t != "}" && t != ";";
      ClosesNotEmpty(t[1..], 1);
    }
  }

  lemma ClosesNotEmpty(s: string, depth: nat)
    requires Closes(s, depth)
    ensures s != ""
  {
  }

  lemma DefinitionIsWell(cmds: seq<string>, len: nat)
    requires AllWellFormed(cmds) && |cmds| >= 3 && !Sugar(cmds[0]) && Starts(cmds[1], '(') && Separator(cmds) >= 3
    requires Extent(cmds[2..], 0) == (len, 0)
    ensures |cmds[1]| >= 2
    ensures WellEntry(NewEntry(cmds[0], false, Function, cmds[1][1..|cmds[1]| - 1], Printed(cmds[2..2 + len])))
  {
    hide Tokens, Closes, Printed, WordChar;
    var b, t := cmds[2..2 + len], cmds[1];
    NonSugarIsWord(cmds[0]);
    NonSugarIsWord(t);
    ClosesWithParen(t[1..], 1);
    assert "(" + t[1..|t| - 1] + ")" == t;
    BodyOfExtent(cmds[2..], 0);
    assert cmds[2..][..len] == b;
    PrintedComesApart(b, "");
    NoTokens();
    assert Printed(b) + "" == Printed(b) && b + [] == b;
    ThirdInBody(cmds);
  }

  lemma NoTokens()
    ensures Tokens("") == []
  {
  }

  lemma ThirdInBody(cmds: seq<string>)
    requires |cmds| >= 3 && Separator(cmds) >= 3
    ensures Extent(cmds[2..], 0).0 > 0
  {
    assert Separator(cmds[1..]) >= 2;
    assert cmds[1..][1..] == cmds[2..] && Separator(cmds[2..]) >= 1;
  }

  // ----- restoring -----

  /** What is restored of an entry: everything but the device mark. A special entry has its default's
      mark, any other a mark only if it is a variable. */
  function Restored(first: Option<Entry>, now: Option<Entry>): Option<Entry> {
    match now
    case None => None
    case Some(e) => Some(e.(dev := if first.Some? then first.value.dev else e.dev && e.kind.Variable?))
  }

  /** Midway: names still to come mean what they meant at first, the others are restored. */
  ghost predicate Halfway(first: seq<Entry>, env: seq<Entry>, left: seq<Entry>, cur: seq<Entry>) {
    forall n :: Lookup(cur, n) == if Lookup(left, n).Some? then Lookup(first, n)
      else Restored(Lookup(first, n), Lookup(env, n))
  }

  ghost predicate IsRestored(first: seq<Entry>, env: seq<Entry>, r: seq<Entry>) {
    forall n :: Lookup(r, n) == Restored(Lookup(first, n), Lookup(env, n))
  }

  lemma LookupNext(env: seq<Entry>, n: string)
    requires env != []
    ensures Lookup(env, n) == if env[0].name == n then Some(env[0]) else Lookup(env[1..], n)
  {
  }

  lemma SkipsDefault(first: seq<Entry>, env: seq<Entry>, left: seq<Entry>, cur: seq<Entry>)
    requires Derived(first, env) && Halfway(first, env, left, cur) && Distinct(left)
    requires left != [] && !IsSaved(left[0]) && Lookup(env, left[0].name) == Some(left[0])
    ensures Halfway(first, env, left[1..], cur)
  {
    hide Find, Word, WellEntry, Reserved;
    forall n ensures Lookup(cur, n) == if Lookup(left[1..], n).Some? then Lookup(first, n)
      else Restored(Lookup(first, n), Lookup(env, n)) {
      LookupNext(left, n);
      assert Related(n, Lookup(first, n), Lookup(env, n));
    }
  }

  lemma SetsSaved(first: seq<Entry>, env: seq<Entry>, left: seq<Entry>, cur: seq<Entry>) returns (r: seq<Entry>)
    requires Derived(first, env) && Halfway(first, env, left, cur) && Distinct(left)
    requires left != [] && IsSaved(left[0]) && Lookup(env, left[0].name) == Some(left[0])
    ensures WellEntry(left[0])
    ensures var e := left[0];
      SetEnv(cur, e.kind.Variable? && e.dev && !e.special, e.kind, e.name, e.arg, e.value) == Some(r)
    ensures Halfway(first, env, left[1..], r)
  {
    hide Word, WellEntry, Reserved;
    var e := left[0];
    var dev := e.kind.Variable? && e.dev && !e.special;
    LookupNext(left, e.name);
    assert Related(e.name, Lookup(first, e.name), Lookup(env, e.name));
    assert Lookup(cur, e.name) == Lookup(first, e.name);
    r := SetEnv(cur, dev, e.kind, e.name, e.arg, e.value).value;
    forall n ensures Lookup(r, n) == if Lookup(left[1..], n).Some? then Lookup(first, n)
      else Restored(Lookup(first, n), Lookup(env, n)) {
      LookupNext(left, n);
      SetEnvLookup(cur, dev, e.kind, e.name, e.arg, e.value, n);
      assert Lookup(cur, n) == if Lookup(left, n).Some? then Lookup(first, n)
        else Restored(Lookup(first, n), Lookup(env, n));
    }
  }

  ghost predicate PartOf(left: seq<Entry>, env: seq<Entry>) {
    forall i :: 0 <= i < |left| ==> Lookup(env, left[i].name) == Some(left[i])
  }

  lemma {:induction false} RestoresRest(first: seq<Entry>, env: seq<Entry>, left: seq<Entry>, cur: seq<Entry>)
    returns (r: seq<Entry>)
    requires Derived(first, env) && Halfway(first, env, left, cur) && Distinct(left) && PartOf(left, env)
    ensures AllWell(left) && ExecuteAll(cur, AllCommands(left)) == Some(r) && IsRestored(first, env, r)
    decreases |left|
  {
    hide Derived, WellEntry, SetEnv, IsSaved, Commands, Execute;
    if left == [] {
      r := cur;
    } else if IsSaved(left[0]) {
      var next := SetsSaved(first, env, left, cur);
      r := RestoresRest(first, env, left[1..], next);
      CommandsSet(cur, left[0], AllCommands(left[1..]));
    } else {
      SkipsDefault(first, env, left, cur);
      r := RestoresRest(first, env, left[1..], cur);
      assert [] + AllCommands(left[1..]) == AllCommands(left[1..]);
    }
  }

  lemma {:induction false} AllPartOf(env: seq<Entry>)
    requires Distinct(env)
    ensures PartOf(env, env)
  {
    if env != [] {
      AllPartOf(env[1..]);
      forall i | 0 <= i < |env| ensures Lookup(env, env[i].name) == Some(env[i]) {
        if i > 0 {
          DistinctAt(env, i);
          assert env[1..][i - 1] == env[i];
        }
      }
    }
  }

  /** Taking the saved sector apart and executing it from the defaults restores the environment. */
  lemma SavedIsRestored(first: seq<Entry>, env: seq<Entry>) returns (r: seq<Entry>)
    requires Defaults(first) && Derived(first, env) && Saved(env).Some?
    ensures ExecuteAll(first, Tokens(Saved(env).value)) == Some(r) && IsRestored(first, env, r)
  {
    hide Derived, Distinct, Tokens, AllCommands, Execute, Defaults;
    AllPartOf(env) by { DerivedIsDistinct(first, env); }
    DerivedIsDistinct(first, env);
    AtTheStart(first, env);
    r := RestoresRest(first, env, env, first);
    LinesComeApart(env, SECTOR_SIZE - |Lines(env)|);
    if Lines(env) == "" {
      NullCommand(first);
    }
  }

  // ----- sessions -----

  /** What the user can do to the environment: a command, of which the tokens from the first on are given,
      or the removal of a name. */
  datatype Action = Command(cmds: seq<string>) | Remove(name: string)

  predicate Spelled(a: Action) {
    match a
    case Command(cmds) => cmds != [] && AllWellFormed(cmds)
    case Remove(name) => Word(name)
  }

  /** A command that is refused, or is none of those that set names, leaves the environment as it is. */
  function Act(env: seq<Entry>, a: Action): seq<Entry>
    requires Spelled(a)
  {
    match a
    case Command(cmds) => if Execute(env, cmds).Ran? then Execute(env, cmds).env else env
    case Remove(name) => Unset(env, name)
  }

  function Session(env: seq<Entry>, actions: seq<Action>): seq<Entry>
    requires forall i :: 0 <= i < |actions| ==> Spelled(actions[i])
    decreases |actions|
  {
    if actions == [] then env else Session(Act(env, actions[0]), actions[1..])
  }

  lemma ActKeeps(first: seq<Entry>, env: seq<Entry>, a: Action)
    requires Derived(first, env) && Spelled(a)
    ensures Derived(first, Act(env, a))
  {
    hide Derived, AllWellFormed, Word, Execute, Unset;
    match a
    case Command(cmds) =>
      if Execute(env, cmds).Ran? {
        ExecuteKeeps(first, env, cmds);
      }
    case Remove(name) => UnsetKeeps(first, env, name);
  }

  lemma {:induction false} SessionKeeps(first: seq<Entry>, env: seq<Entry>, actions: seq<Action>)
    requires Derived(first, env) && forall i :: 0 <= i < |actions| ==> Spelled(actions[i])
    ensures Derived(first, Session(env, actions))
    decreases |actions|
  {
    hide Derived, Act, Spelled;
    if actions != [] {
      ActKeeps(first, env, actions[0]);
      SessionKeeps(first, Act(env, actions[0]), actions[1..]);
    }
  }

  /** Whatever is done from the defaults on, if the result can be saved it is restored from what is saved. */
  lemma SessionIsRestored(first: seq<Entry>, actions: seq<Action>) returns (r: seq<Entry>)
    requires Defaults(first) && forall i :: 0 <= i < |actions| ==> Spelled(actions[i])
    requires Saved(Session(first, actions)).Some?
    ensures ExecuteAll(first, Tokens(Saved(Session(first, actions)).value)) == Some(r)
    ensures IsRestored(first, Session(first, actions), r)
  {
    hide *;
    DefaultsDerived(first);
    SessionKeeps(first, first, actions);
    r := SavedIsRestored(first, Session(first, actions));
  }

  lemma NullCommand(env: seq<Entry>)
    ensures ExecuteAll(env, [";"]) == ExecuteAll(env, []) == Some(env)
  {
    assert Execute(env, [";"]) == Ran(env, []);
  }

  lemma DerivedIsDistinct(first: seq<Entry>, env: seq<Entry>)
    requires Derived(first, env)
    ensures Distinct(env)
  {
  }

  lemma AtTheStart(first: seq<Entry>, env: seq<Entry>)
    requires Derived(first, env)
    ensures Halfway(first, env, env, first)
  {
    hide Word, WellEntry, Reserved, Find;
    forall n ensures Lookup(first, n) == if Lookup(env, n).Some? then Lookup(first, n)
      else Restored(Lookup(first, n), Lookup(env, n)) {
      assert Related(n, Lookup(first, n), Lookup(env, n));
    }
  }

  /** The device mark comes back unless it was put on a special entry whose default has none, or is
      left on a function that was a variable before. */
  lemma DeviceMarkRestored(first: seq<Entry>, env: seq<Entry>, r: seq<Entry>, name: string)
    requires Derived(first, env) && IsRestored(first, env, r) && Lookup(env, name).Some?
    ensures Lookup(r, name).Some?
    ensures var e := Lookup(env, name).value;
      Lookup(r, name) == Some(e) <==>
        !(e.dev && if Lookup(first, name).Some? then !Lookup(first, name).value.dev else e.kind.Function?)
  {
    hide Word, WellEntry, Reserved, Find;
    assert Related(name, Lookup(first, name), Lookup(env, name));
    assert Lookup(r, name) == Restored(Lookup(first, name), Lookup(env, name));
  }
}
