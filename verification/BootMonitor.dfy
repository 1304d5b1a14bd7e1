/** The boot monitor's environment: setting it by commands, saving it to a sector, and restoring it. */
module BootMonitor {
  import opened BootTokens

  const SECTOR_SIZE := 512

  datatype Option<T> = None | Some(value: T)

  datatype Kind = Variable | Function

  /** A variable or function. Those known to the program are special: their default is kept aside while
      they are changed. `dev` marks the name of a device; it and the other two flags are never lost. */
  datatype Entry = Entry(name: string, special: bool, dev: bool, reserved: bool, kind: Kind, arg: string,
    value: string, defval: Option<string>)

  predicate IsDefault(e: Entry) {
    e.special && e.defval.None?
  }

  /** Names of commands, which may not be set. */
  predicate Reserved(name: string) {
    name in ["boot", "ctty", "delay", "echo", "exit", "help", "ls", "menu", "off", "save", "set", "trap", "unset"]
  }

  // ----- the environment -----

  /** The first entry with this name, or the end of the list. */
  function Find(env: seq<Entry>, name: string): (i: nat)
    ensures i <= |env|
    ensures i < |env| ==> env[i].name == name
  {
    if env == [] || env[0].name == name then 0 else 1 + Find(env[1..], name)
  }

  function Lookup(env: seq<Entry>, name: string): Option<Entry> {
    var i := Find(env, name);
    if i < |env| then Some(env[i]) else None
  }

  function Changed(e: Entry, dev: bool, kind: Kind, arg: string, value: string): Entry {
    e.(dev := e.dev || dev, kind := kind, arg := arg, value := value,
       defval := if IsDefault(e) then Some(e.value) else e.defval)
  }

  function NewEntry(name: string, dev: bool, kind: Kind, arg: string, value: string): Entry {
    Entry(name, false, dev, false, kind, arg, value, None)
  }

  /** None if the change is refused: a reserved word, or a special entry of the other kind. */
  function SetEnv(env: seq<Entry>, dev: bool, kind: Kind, name: string, arg: string,
      value: string): Option<seq<Entry>> {
    var i := Find(env, name);
    if i == |env| then
      if Reserved(name) then None else Some(env + [NewEntry(name, dev, kind, arg, value)])
    else if env[i].special && env[i].kind != kind then None
    else Some(env[i := Changed(env[i], dev, kind, arg, value)])
  }

  function Unset(env: seq<Entry>, name: string): seq<Entry> {
    var i := Find(env, name);
    if i == |env| then env
    else if env[i].special then
      if env[i].defval.None? then env
      else env[i := env[i].(arg := "", value := env[i].defval.value, defval := None)]
    else env[..i] + env[i + 1..]
  }

  predicate Distinct(env: seq<Entry>) {
    env == [] || (Lookup(env[1..], env[0].name).None? && Distinct(env[1..]))
  }

  lemma {:induction false} FindUnchanged(env: seq<Entry>, i: nat, e: Entry, name: string)
    requires i < |env| && e.name == env[i].name
    ensures Find(env[i := e], name) == Find(env, name)
  {
    if i > 0 {
      assert env[i := e][1..] == env[1..][i - 1 := e];
      FindUnchanged(env[1..], i - 1, e, name);
    } else {
      assert env[i := e][1..] == env[1..];
    }
  }

  lemma {:induction false} FindAfterAppend(env: seq<Entry>, e: Entry, name: string)
    ensures Find(env + [e], name) == if Find(env, name) < |env| || e.name == name then Find(env, name) else |env| + 1
  {
    if env != [] {
      assert (env + [e])[1..] == env[1..] + [e];
      FindAfterAppend(env[1..], e, name);
    }
  }

  /** The entry found is the first of its name. */
  lemma {:induction false} FindsFirst(env: seq<Entry>, name: string, k: nat)
    requires k < |env|
    ensures k < Find(env, name) ==> env[k].name != name
    ensures env[k].name == name ==> Find(env, name) <= k
    decreases k
  {
    if k > 0 {
      FindsFirst(env[1..], name, k - 1);
    }
  }

  /** Setting is refused for a reserved word that has no entry, and for a special entry of the other kind. Otherwise
      the name has the new meaning: the flags it had stay, a default is kept aside. No other name changes. */
  lemma SetEnvLookup(env: seq<Entry>, dev: bool, kind: Kind, name: string, arg: string, value: string, other: string)
    ensures SetEnv(env, dev, kind, name, arg, value).None? <==>
      match Lookup(env, name)
      case None => Reserved(name)
      case Some(e) => e.special && e.kind != kind
    ensures SetEnv(env, dev, kind, name, arg, value).Some? ==>
      var r := SetEnv(env, dev, kind, name, arg, value).value;
      && Lookup(r, name)
         == Some(match Lookup(env, name)
                 case None => Entry(name, false, dev, false, kind, arg, value, None)
                 case Some(e) =>
                   Entry(name, e.special, e.dev || dev, e.reserved, kind, arg, value,
                         if e.special && e.defval.None? then Some(e.value) else e.defval))
      && (other != name ==> Lookup(r, other) == Lookup(env, other))
  {
    if SetEnv(env, dev, kind, name, arg, value).Some? {
      var i := Find(env, name);
      if i == |env| {
        var e := NewEntry(name, dev, kind, arg, value);
        FindAfterAppend(env, e, name);
        FindAfterAppend(env, e, other);
      } else {
        var e := Changed(env[i], dev, kind, arg, value);
        FindUnchanged(env, i, e, name);
        FindUnchanged(env, i, e, other);
      }
    }
  }

  lemma {:induction false} RemovedLookup(env: seq<Entry>, i: nat, other: string)
    requires Distinct(env) && i < |env|
    ensures Lookup(env[..i] + env[i + 1..], other) == if other == env[i].name then None else Lookup(env, other)
    decreases i
  {
    var r := env[..i] + env[i + 1..];
    if i == 0 {
      assert r == env[1..];
    } else {
      RemovedLookup(env[1..], i - 1, other);
      assert r[0] == env[0] && r[1..] == env[1..][..i - 1] + env[1..][i..];
      DistinctAt(env, i);
    }
  }

  lemma {:induction false} DistinctAt(env: seq<Entry>, i: nat)
    requires Distinct(env) && 0 < i < |env|
    ensures env[0].name != env[i].name
  {
    FindNothing(env[1..], env[0].name, i - 1);
  }

  lemma {:induction false} FindNothing(env: seq<Entry>, name: string, i: nat)
    requires Find(env, name) == |env| && i < |env|
    ensures env[i].name != name
    decreases i
  {
    if i > 0 {
      FindNothing(env[1..], name, i - 1);
    }
  }

  /** Unsetting a name takes away what is not special and gives what is its default back; no other name changes. */
  lemma UnsetLookup(env: seq<Entry>, name: string, other: string)
    requires Distinct(env)
    ensures Lookup(Unset(env, name), name) ==
      match Lookup(env, name)
      case None => None
      case Some(e) =>
        if !e.special then None
        else if e.defval.None? then Some(e)
        else Some(Entry(name, true, e.dev, e.reserved, e.kind, "", e.defval.value, None))
    ensures other != name ==> Lookup(Unset(env, name), other) == Lookup(env, other)
  {
    var i := Find(env, name);
    if i < |env| {
      if env[i].special {
        if env[i].defval.Some? {
          var e := env[i].(arg := "", value := env[i].defval.value, defval := None);
          FindUnchanged(env, i, e, name);
          FindUnchanged(env, i, e, other);
        }
      } else {
        RemovedLookup(env, i, name);
        RemovedLookup(env, i, other);
      }
    }
  }

  // ----- executing definitions -----

  /** Tokens before the first ';'. */
  function Separator(cmds: seq<string>): (n: nat)
    ensures n <= |cmds|
  {
    if cmds == [] || Starts(cmds[0], ';') then 0 else 1 + Separator(cmds[1..])
  }

  predicate Starts(tok: string, c: char) {
    tok != "" && tok[0] == c
  }

  function Deeper(tok: string, depth: int): int {
    if Starts(tok, '{') then depth + 1 else if Starts(tok, '}') then depth - 1 else depth
  }

  /** How many tokens a body takes, and the depth of braces where it ends: at a ';' outside of braces
      or behind the '}' that brings the depth back to 0. */
  function Extent(toks: seq<string>, depth: int): (r: (nat, int))
    ensures r.0 <= |toks|
  {
    if toks == [] || (Starts(toks[0], ';') && depth == 0) then (0, depth)
    else
      var d := Deeper(toks[0], depth);
      if Starts(toks[0], '}') && d == 0 then (1, 0)
      else
        var r := Extent(toks[1..], d);
        (r.0 + 1, r.1)
  }

  datatype Outcome = Ran(env: seq<Entry>, cmds: seq<string>) | Refused | OtherCommand

  /** One step of the interpreter, for null commands, assignments and function definitions. */
  function Execute(env: seq<Entry>, cmds: seq<string>): (r: Outcome)
    requires cmds != []
    ensures r.Ran? ==> |r.cmds| < |cmds|
  {
    var n := Separator(cmds);
    if n == 0 then Ran(env, cmds[1..])
    else if IsAssignment(cmds, n) then
      match SetEnv(env, n == 4, Variable, cmds[0], "", cmds[n - 1])
      case None => Refused
      case Some(r) => Ran(r, cmds[n..])
    else if n >= 3 && !Sugar(cmds[0]) && Starts(cmds[1], '(') then
      var (len, depth) := Extent(cmds[2..], 0);
      var arg := cmds[1][1..];
      if depth != 0 then Refused
      else
        match SetEnv(env, false, Function, cmds[0], if arg == "" then "" else arg[..|arg| - 1],
          Printed(cmds[2..2 + len]))
        case None => Refused
        case Some(r) => Ran(r, cmds[2 + len..])
    else OtherCommand
  }

  predicate IsAssignment(cmds: seq<string>, n: nat)
    requires n <= |cmds|
  {
    && (n == 3 || n == 4) && !Sugar(cmds[0]) && Starts(cmds[1], '=') && !Sugar(cmds[2])
    && (n == 4 ==> Starts(cmds[2], 'd') && !Sugar(cmds[3]))
  }

  /** The environment once all commands are executed; None if one is refused or of another sort. */
  function ExecuteAll(env: seq<Entry>, cmds: seq<string>): Option<seq<Entry>>
    decreases |cmds|
  {
    if cmds == [] then Some(env)
    else
      match Execute(env, cmds)
      case Ran(e, c) => ExecuteAll(e, c)
      case _ => None
  }

  // ----- saving -----

  function Line(e: Entry): string {
    e.name
    + (if e.kind.Function? then "(" + e.arg + ")" else if e.dev && !e.special then "=d " else "=")
    + e.value
  }

  predicate IsSaved(e: Entry) {
    !e.reserved && !IsDefault(e)
  }

  function Lines(env: seq<Entry>): string {
    if env == [] then ""
    else (if IsSaved(env[0]) then Line(env[0]) + "\n" else "") + Lines(env[1..])
  }

  function Newlines(n: nat): (s: string)
    ensures |s| == n
  {
    seq(n, _ => '\n')
  }

  /** The sector, if all lines fit. */
  function Saved(env: seq<Entry>): Option<string> {
    if |Lines(env)| <= SECTOR_SIZE then Some(Lines(env) + Newlines(SECTOR_SIZE - |Lines(env)|)) else None
  }

  /** The sector that is saved is the one that the lines begin and newlines fill, if there is one. */
  lemma SavedExactly(env: seq<Entry>, s: string)
    ensures Saved(env) == Some(s) <==>
      |s| == 512 && Lines(env) <= s && forall k :: |Lines(env)| <= k < 512 ==> s[k] == '\n'
  {
    if |s| == 512 && Lines(env) <= s && forall k :: |Lines(env)| <= k < 512 ==> s[k] == '\n' {
      assert s == Lines(env) + Newlines(512 - |Lines(env)|);
    }
  }

  // ----- what commands can bring about -----

  /** Tokens that end a function's body just where they end. */
  predicate Body(toks: seq<string>, depth: int) {
    if toks == [] then depth == 0
    else if Starts(toks[0], ';') && depth == 0 then false
    else
      var d := Deeper(toks[0], depth);
      if Starts(toks[0], '}') && d == 0 then |toks| == 1 else Body(toks[1..], d)
  }

  /** An entry as an assignment or a definition makes it, out of closed tokens. */
  predicate WellEntry(e: Entry) {
    Word(e.name) &&
    match e.kind
    case Variable => Word(e.value) && e.arg == ""
    case Function =>
      Paren("(" + e.arg + ")") &&
      var b := Tokens(e.value);
      b != [] && AllWellFormed(b) && Body(b, 0) && e.value == Printed(b)
  }

  lemma {:induction false} ExtentOfBody(toks: seq<string>, depth: int, rest: seq<string>)
    requires Body(toks, depth) && (rest == [] || Starts(rest[0], ';'))
    ensures Extent(toks + rest, depth) == (|toks|, 0)
  {
    if toks == [] {
      assert toks + rest == rest;
    } else {
      assert (toks + rest)[0] == toks[0] && (toks + rest)[1..] == toks[1..] + rest;
      var d := Deeper(toks[0], depth);
      if !(Starts(toks[0], '}') && d == 0) {
        ExtentOfBody(toks[1..], d, rest);
      }
    }
  }

  lemma {:induction false} BodyOfExtent(toks: seq<string>, depth: int)
    requires Extent(toks, depth).1 == 0
    ensures Body(toks[..Extent(toks, depth).0], depth)
  {
    if !(toks == [] || (Starts(toks[0], ';') && depth == 0)) {
      var d := Deeper(toks[0], depth);
      var n := Extent(toks, depth).0;
      if !(Starts(toks[0], '}') && d == 0) {
        BodyOfExtent(toks[1..], d);
        assert toks[..n][1..] == toks[1..][..n - 1];
      }
    }
  }
}
