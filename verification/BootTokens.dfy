/** The boot monitor's command language: taking lines apart, and printing tokens so that they come apart the
    same way. A line ends at its first control character other than a newline, or where the string ends. */
module BootTokens {

  predicate SugarChar(c: char) {
    c == '=' || c == '(' || c == ')' || c == '{' || c == '}' || c == ';' || c == '\n'
  }

  /** Special tokens are known by their first character. */
  predicate Sugar(tok: string) {
    tok == "" || SugarChar(tok[0])
  }

  // ----- one token -----

  /** Spaces do not count, and of a run of newlines only the last does. */
  function SkipBlank(line: string): string {
    if line != "" && (line[0] == ' ' || (line[0] == '\n' && |line| > 1 && line[1] == '\n'))
    then SkipBlank(line[1..]) else line
  }

  /** How many characters belong to the parenthesized token: to the ')' that matches, or to the end of
      the line if none does. */
  function ParenLength(s: string, depth: int): nat {
    if s == "" || s[0] < ' ' then 0
    else if s[0] == '(' then 1 + ParenLength(s[1..], depth + 1)
    else if s[0] == ')' then
      if depth == 1 then 1 else 1 + ParenLength(s[1..], depth - 1)
    else 1 + ParenLength(s[1..], depth)
  }

  predicate WordChar(c: char) {
    c > ' ' && !SugarChar(c)
  }

  function WordRun(s: string): (n: nat)
    ensures n <= |s|
  {
    if s != "" && WordChar(s[0]) then 1 + WordRun(s[1..]) else 0
  }

  lemma {:induction false} ParenLengthFits(s: string, depth: int)
    ensures ParenLength(s, depth) <= |s|
  {
    if s != "" {
      ParenLengthFits(s[1..], depth + 1);
      ParenLengthFits(s[1..], depth - 1);
      ParenLengthFits(s[1..], depth);
    }
  }

  /** The length of the token at the start of a line that is not blank. */
  function TokenLength(line: string): (n: nat)
    requires line != "" && (line[0] >= ' ' || line[0] == '\n')
    ensures 1 <= n <= |line|
  {
    if line[0] == '(' then
      ParenLengthFits(line[1..], 1);
      1 + ParenLength(line[1..], 1)
    else if Sugar(line) then 1
    else 1 + WordRun(line[1..])
  }

  /** No token starts here. */
  predicate AtEnd(line: string) {
    line == "" || (line[0] < ' ' && line[0] != '\n')
  }

  /** A newline token is the same as ';'. */
  function Unlined(tok: string): string {
    if tok != "" && tok[0] == '\n' then [';'] + tok[1..] else tok
  }

  lemma {:induction false} SkipBlankShortens(line: string)
    ensures |SkipBlank(line)| <= |line|
  {
    if line != "" {
      SkipBlankShortens(line[1..]);
    }
  }

  function Tokens(line: string): seq<string>
    decreases |line|
  {
    SkipBlankShortens(line);
    var l := SkipBlank(line);
    if AtEnd(l) then []
    else [Unlined(l[..TokenLength(l)])] + Tokens(l[TokenLength(l)..])
  }

  // ----- the tokens there are -----

  predicate Word(t: string) {
    t != "" && forall i :: 0 <= i < |t| ==> WordChar(t[i])
  }

  /** A parenthesis `depth` deep closes with the last character, and not before. */
  predicate Closes(s: string, depth: nat) {
    s != "" && s[0] >= ' ' &&
    if s[0] == '(' then Closes(s[1..], depth + 1)
    else if s[0] == ')' then depth > 0 && (if depth == 1 then |s| == 1 else Closes(s[1..], depth - 1))
    else Closes(s[1..], depth)
  }

  predicate Paren(t: string) {
    t != "" && t[0] == '(' && Closes(t[1..], 1)
  }

  /** A word, a parenthesized token that is closed, or a single special character. */
  predicate WellFormed(t: string) {
    Word(t) || Paren(t) || t == "=" || t == ")" || t == "{" || t == "}" || t == ";"
  }

  predicate AllWellFormed(toks: seq<string>) {
    forall i :: 0 <= i < |toks| ==> WellFormed(toks[i])
  }

  /** A function's body from its tokens: a space only where two words meet. */
  function Printed(toks: seq<string>): string {
    if toks == [] then ""
    else if |toks| == 1 then toks[0]
    else toks[0] + (if !Sugar(toks[0]) && !Sugar(toks[1]) then " " else "") + Printed(toks[1..])
  }

  /** A word does not run on into what follows. */
  predicate Separated(t: string, rest: string) {
    Word(t) ==> rest == "" || !WordChar(rest[0])
  }

  lemma {:induction false} WordStops(t: string, rest: string)
    requires (t != "" ==> Word(t)) && (rest == "" || !WordChar(rest[0]))
    ensures WordRun(t + rest) == |t|
  {
    if t == "" {
      assert t + rest == rest;
    } else {
      assert (t + rest)[1..] == t[1..] + rest;
      WordStops(t[1..], rest);
    }
  }

  lemma {:induction false} ParenStops(t: string, depth: nat, rest: string)
    requires Closes(t, depth) && depth > 0
    ensures ParenLength(t + rest, depth) == |t|
  {
    assert (t + rest)[0] == t[0] && (t + rest)[1..] == t[1..] + rest;
    if t[0] == '(' {
      ParenStops(t[1..], depth + 1, rest);
    } else if t[0] == ')' {
      if depth > 1 {
        ParenStops(t[1..], depth - 1, rest);
      }
    } else {
      ParenStops(t[1..], depth, rest);
    }
  }

  /** A token comes off the front of a line. */
  lemma TokenComesOff(t: string, rest: string)
    requires WellFormed(t) && Separated(t, rest)
    ensures Tokens(t + rest) == [t] + Tokens(rest)
  {
    var line := t + rest;
    assert t != "" && line[0] == t[0];
    assert SkipBlank(line) == line;
    assert line[1..] == t[1..] + rest;
    if Paren(t) {
      ParenStops(t[1..], 1, rest);
    } else if Word(t) {
      WordStops(t[1..], rest);
    }
    assert TokenLength(line) == |t|;
    assert line[..|t|] == t && line[|t|..] == rest;
  }

  lemma SpaceSkipped(rest: string)
    ensures Tokens(" " + rest) == Tokens(rest)
  {
    assert (" " + rest)[1..] == rest;
    assert SkipBlank(" " + rest) == SkipBlank(rest);
  }

  lemma NewlineIsSeparator(rest: string)
    ensures Tokens("\n" + rest) == if rest != "" && rest[0] == '\n' then Tokens(rest) else [";"] + Tokens(rest)
  {
    var line := "\n" + rest;
    assert line[1..] == rest;
    if rest != "" && rest[0] == '\n' {
      assert SkipBlank(line) == SkipBlank(rest);
    } else {
      assert SkipBlank(line) == line && TokenLength(line) == 1;
      assert line[..1] == "\n" && Unlined("\n") == ";";
    }
  }

  /** A line ends at a control character. */
  lemma EndsAtControl(c: char, rest: string)
    requires c < ' ' && c != '\n'
    ensures Tokens([c] + rest) == []
  {
    assert SkipBlank([c] + rest) == [c] + rest;
  }

  /** A parenthesized token takes no control character and ends where the parenthesis closes; if it does not
      close before the line ends it takes all of that. */
  lemma {:induction false} ParenTakes(s: string, depth: nat)
    requires depth > 0
    ensures var n := ParenLength(s, depth);
      && n <= |s| && (forall k :: 0 <= k < n ==> s[k] >= ' ')
      && (Closes(s[..n], depth) || ((n == |s| || s[n] < ' ') && forall k :: 0 <= k <= n ==> !Closes(s[..k], depth)))
  {
    ParenLengthFits(s, depth);
    if s != "" && s[0] >= ' ' {
      var d := if s[0] == '(' then depth + 1 else if s[0] == ')' then depth - 1 else depth;
      if d > 0 {
        ParenTakes(s[1..], d);
        var n := ParenLength(s, depth);
        assert s[..n][1..] == s[1..][..n - 1];
        assert forall k :: 0 < k <= n ==> s[..k][1..] == s[1..][..k - 1];
      }
    }
  }

  /** Printing tokens and taking the text apart gives the same tokens, whatever follows that is not part
      of a word. */
  lemma {:induction false} PrintedComesApart(toks: seq<string>, rest: string)
    requires AllWellFormed(toks) && (rest == "" || !WordChar(rest[0]))
    ensures Tokens(Printed(toks) + rest) == toks + Tokens(rest)
    decreases |toks|
  {
    hide WellFormed, Tokens, WordChar;
    if toks == [] {
      assert "" + rest == rest;
    } else {
      var t, more := toks[0], toks[1..];
      PrintedComesApart(more, rest);
      if more == [] {
        TokenComesOff(t, rest);
        assert [t] + Tokens(rest) == toks + Tokens(rest);
      } else {
        PrintedStarts(more);
        FirstComesOff(t, more[0], Printed(more), rest);
        assert [t] + (more + Tokens(rest)) == toks + Tokens(rest);
      }
    }
  }

  /** A token and the space behind it, if there is one, come off the front of what is printed. */
  lemma FirstComesOff(t: string, u: string, printed: string, rest: string)
    requires WellFormed(t) && WellFormed(u) && u != "" && printed != "" && printed[0] == u[0]
    ensures var gap := if !Sugar(t) && !Sugar(u) then " " else "";
      Tokens(t + gap + printed + rest) == [t] + Tokens(printed + rest)
  {
    hide WellFormed, Tokens, WordChar, Sugar;
    var gap := if !Sugar(t) && !Sugar(u) then " " else "";
    var after := printed + rest;
    assert t + gap + printed + rest == t + (gap + after);
    if gap == " " {
      SpaceSkipped(after);
    } else {
      assert gap + after == after;
    }
    KeptApart(t, u, gap, after);
    TokenComesOff(t, gap + after);
  }

  lemma PrintedStarts(toks: seq<string>)
    requires toks != [] && AllWellFormed(toks)
    ensures toks[0] != "" && Printed(toks) != "" && Printed(toks)[0] == toks[0][0]
  {
  }

  /** Where no space is put between two tokens, one of them is special. */
  lemma KeptApart(t: string, u: string, gap: string, after: string)
    requires WellFormed(t) && WellFormed(u) && after != "" && u != "" && after[0] == u[0]
    requires gap == if !Sugar(t) && !Sugar(u) then " " else ""
    ensures Separated(t, gap + after)
  {
  }
}
