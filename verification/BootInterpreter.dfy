/** The boot monitor itself: its environment and the commands it has still to execute. */
module BootInterpreter {
  import opened BootTokens
  import opened BootMonitor

  class Monitor {
    var env: seq<Entry>
    var cmds: seq<string>

    constructor (env: seq<Entry>)
      ensures this.env == env && cmds == []
    {
      this.env, cmds := env, [];
    }

    // ----- tokens -----

    static method SkipBlanks(line: string) returns (rest: string)
      ensures rest == SkipBlank(line)
    {
      var i := 0;
      while i < |line| && (line[i] == ' ' || (line[i] == '\n' && i + 1 < |line| && line[i + 1] == '\n'))
        invariant i <= |line| && SkipBlank(line[i..]) == SkipBlank(line)
      {
        assert line[i..][1..] == line[i + 1..];
        i := i + 1;
      }
      rest := line[i..];
    }

    /** The first token of a line, and the rest of the line. */
    static method OneToken(line: string) returns (tok: Option<string>, rest: string)
      ensures tok.None? <==> AtEnd(SkipBlank(line))
      ensures tok.Some? ==>
        var l := SkipBlank(line);
        tok.value == Unlined(l[..TokenLength(l)]) && rest == l[TokenLength(l)..]
    {
      var l := SkipBlanks(line);
      if l == "" || (l[0] < ' ' && l[0] != '\n') {
        return None, l;
      }
      var n := 0;
      if l[0] == '(' {
        var depth := 0;
        while n < |l| && l[n] >= ' '
          invariant n <= |l| && (n == 0 ==> depth == 0) && (n > 0 ==> depth >= 1)
          invariant n > 0 ==> n + ParenLength(l[n..], depth) == TokenLength(l)
        {
          if l[n] == '(' {
            depth := depth + 1;
          }
          n := n + 1;
          assert n > 1 ==> l[n - 1..][1..] == l[n..];
          if l[n - 1] == ')' {
            depth := depth - 1;
            if depth == 0 {
              break;
            }
          }
        }
      } else if SugarChar(l[0]) {
        n := 1;
      } else {
        n := 1;
        while n < |l| && WordChar(l[n])
          invariant 1 <= n <= |l| && n + WordRun(l[n..]) == TokenLength(l)
        {
          assert l[n..][1..] == l[n + 1..];
          n := n + 1;
        }
      }
      assert n == TokenLength(l);
      var t := l[..n];
      if t[0] == '\n' {
        t := [';'] + t[1..];
      }
      return Some(t), l[n..];
    }

    static method Tokenize(line: string) returns (toks: seq<string>)
      ensures toks == Tokens(line)
    {
      toks := [];
      var rest := line;
      while true
        invariant Tokens(line) == toks + Tokens(rest)
        decreases |rest|
      {
        SkipBlankShortens(rest);
        var tok, more := OneToken(rest);
        if tok.None? {
          assert toks + [] == toks;
          return;
        }
        assert toks + ([tok.value] + Tokens(more)) == toks + [tok.value] + Tokens(more);
        toks, rest := toks + [tok.value], more;
      }
    }

    // ----- the environment -----

    method SearchEnv(name: string) returns (i: nat)
      ensures i == Find(env, name)
    {
      i := 0;
      while i < |env| && env[i].name != name
        invariant i <= |env| && Find(env, name) == i + Find(env[i..], name)
      {
        assert env[i..][1..] == env[i + 1..];
        i := i + 1;
      }
    }

    method BSetEnv(dev: bool, kind: Kind, name: string, arg: string, value: string) returns (ok: bool)
      modifies `env
      ensures ok == old(SetEnv(env, dev, kind, name, arg, value)).Some?
      ensures env == if ok then old(SetEnv(env, dev, kind, name, arg, value)).value else old(env)
    {
      var i := SearchEnv(name);
      if i == |env| {
        if Reserved(name) {
          return false;
        }
        env := env + [Entry(name, false, dev, false, kind, arg, value, None)];
      } else {
        var e := env[i];
        if e.special && e.kind != kind {
          return false;
        }
        e := e.(dev := e.dev || dev, kind := kind);
        if IsDefault(e) {
          e := e.(defval := Some(e.value));
        }
        env := env[i := e.(arg := arg, value := value)];
      }
      ok := true;
    }

    method BUnset(name: string)
      modifies `env
      ensures env == old(Unset(env, name))
    {
      var i := SearchEnv(name);
      if i == |env| {
        return;
      }
      var e := env[i];
      if e.special {
        if e.defval.Some? {
          env := env[i := e.(arg := "", value := e.defval.value, defval := None)];
        }
      } else {
        env := env[..i] + env[i + 1..];
      }
    }

    // ----- executing -----

    /** The number of tokens before the first ';'. */
    method FindSeparator() returns (n: nat)
      ensures n == Separator(cmds)
    {
      n := 0;
      while n < |cmds| && !Starts(cmds[n], ';')
        invariant n <= |cmds| && Separator(cmds) == n + Separator(cmds[n..])
      {
        assert cmds[n..][1..] == cmds[n + 1..];
        n := n + 1;
      }
    }

    /** Where a function's body ends in `toks`, and how deep in braces. */
    static method FindExtent(toks: seq<string>) returns (len: nat, depth: int)
      ensures (len, depth) == Extent(toks, 0)
    {
      len, depth := 0, 0;
      while len < |toks| && !(Starts(toks[len], ';') && depth == 0)
        invariant len <= |toks|
        invariant var r := Extent(toks[len..], depth); Extent(toks, 0) == (len + r.0, r.1)
      {
        assert toks[len..][1..] == toks[len + 1..];
        var tok := toks[len];
        len := len + 1;
        if Starts(tok, '{') {
          depth := depth + 1;
        }
        if Starts(tok, '}') {
          depth := depth - 1;
          if depth == 0 {
            break;
          }
        }
      }
    }

    static method PrintBody(toks: seq<string>) returns (body: string)
      ensures body == Printed(toks)
    {
      body := "";
      var i := 0;
      while i < |toks|
        invariant i <= |toks| && body + Printed(toks[i..]) == Printed(toks)
      {
        ghost var was, left := body, toks[i..];
        assert left[1..] == toks[i + 1..];
        var gap := if i + 1 < |toks| && !Sugar(toks[i]) && !Sugar(toks[i + 1]) then " " else "";
        assert Printed(left) == toks[i] + gap + Printed(left[1..]);
        body := body + toks[i] + gap;
        assert was + (toks[i] + gap + Printed(left[1..])) == was + toks[i] + gap + Printed(left[1..]);
        i := i + 1;
      }
      assert body + "" == body;
    }

    /** One step: a null command, an assignment or a function definition. */
    method ExecuteOne() returns (o: Outcome)
      requires cmds != []
      modifies this
      ensures o == old(Execute(env, cmds))
      ensures o.Ran? ==> env == o.env && cmds == o.cmds
      ensures !o.Ran? ==> env == old(env)
    {
      var n := FindSeparator();
      if n == 0 {
        cmds := cmds[1..];
        return Ran(env, cmds);
      }
      var name := cmds[0];
      if IsAssignment(cmds, n) {
        var ok := BSetEnv(n == 4, Variable, name, "", cmds[n - 1]);
        if !ok {
          return Refused;
        }
        cmds := cmds[n..];
        return Ran(env, cmds);
      }
      if n >= 3 && !Sugar(name) && Starts(cmds[1], '(') {
        var len, depth := FindExtent(cmds[2..]);
        var body := PrintBody(cmds[2..2 + len]);
        assert cmds[2..][..len] == cmds[2..2 + len];
        var arg := cmds[1][1..];
        arg := if arg == "" then "" else arg[..|arg| - 1];
        if depth != 0 {
          return Refused;
        }
        var ok := BSetEnv(false, Function, name, arg, body);
        if !ok {
          return Refused;
        }
        cmds := cmds[2 + len..];
        return Ran(env, cmds);
      }
      return OtherCommand;
    }

    /** Takes a saved sector apart and executes it. */
    method GetParameters(sector: string) returns (ok: bool)
      modifies this
      ensures ok == old(ExecuteAll(env, Tokens(sector))).Some?
      ensures ok ==> env == old(ExecuteAll(env, Tokens(sector))).value && cmds == []
    {
      cmds := Tokenize(sector);
      while cmds != []
        invariant ExecuteAll(env, cmds) == old(ExecuteAll(env, Tokens(sector)))
        decreases |cmds|
      {
        var o := ExecuteOne();
        if !o.Ran? {
          return false;
        }
      }
      ok := true;
    }

    // ----- saving -----

    /** Appends text to the parameters as far as there is room. */
    static method AddParm(params: array<char>, at: nat, n: string, ghost done: string) returns (at': nat)
      requires at == |done| <= params.Length && params[..] == done + Newlines(params.Length - at)
      modifies params
      ensures at' == if |done + n| < params.Length then |done + n| else params.Length
      ensures params[..] == (done + n)[..at'] + Newlines(params.Length - at')
    {
      at' := at;
      var i := 0;
      while i < |n| && at' < params.Length
        invariant i <= |n| && at' == at + i <= params.Length
        invariant params[..] == done + n[..i] + Newlines(params.Length - at')
      {
        params[at'] := n[i];
        at' := at' + 1;
        i := i + 1;
      }
      assert (done + n)[..at'] == done + n[..i];
    }

    /** The sector with every entry that is not as it was at first, or nothing if they do not fit. */
    method SaveParameters() returns (sector: Option<string>)
      ensures sector == Saved(env)
    {
      var params := new char[SECTOR_SIZE](_ => '\n');
      var at, i := 0, 0;
      assert params[..] == "" + Newlines(SECTOR_SIZE);
      while i < |env|
        invariant i <= |env| && at == |Lines(env[..i])| <= SECTOR_SIZE
        invariant params[..] == Lines(env[..i]) + Newlines(SECTOR_SIZE - at)
      {
        LinesOfMore(env, i);
        var e := env[i];
        if IsSaved(e) {
          ghost var done := Lines(env[..i]);
          at := AddParm(params, at, Line(e), done);
          if at == SECTOR_SIZE {
            return None;
          }
          params[at] := '\n';
          at := at + 1;
          assert done + Line(e) + "\n" == done + (Line(e) + "\n");
          assert (done + Line(e))[..at - 1] == done + Line(e);
        }
        i := i + 1;
      }
      assert env[..i] == env;
      sector := Some(params[..]);
    }
  }

  lemma {:induction false} LinesOfMore(env: seq<Entry>, i: nat)
    requires i < |env|
    ensures Lines(env[..i + 1]) == Lines(env[..i]) + if IsSaved(env[i]) then Line(env[i]) + "\n" else ""
    ensures |Lines(env)| >= |Lines(env[..i + 1])|
  {
    hide Line, IsSaved;
    if i > 0 {
      LinesOfMore(env[1..], i - 1);
      assert env[..i + 1][1..] == env[1..][..i] && env[..i][1..] == env[1..][..i - 1];
    } else {
      assert env[..1][1..] == [];
    }
  }
}
