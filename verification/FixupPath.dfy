/** The path of a fix-up entry: a module and a name, joined by a dot. */
module FixupPath {

  datatype Option<T> = None | Some(value: T)

  predicate NoDot(s: string) {
    '.' !in s
  }

  /** The pieces between the dots. */
  function Pieces(s: string): (r: seq<string>)
    ensures r != []
  {
    if s == "" then [""]
    else
      var rest := Pieces(s[1..]);
      if s[0] == '.' then [""] + rest else [[s[0]] + rest[0]] + rest[1..]
  }

  /** Splitting drops empty pieces at the end. */
  function DropEmpty(pieces: seq<string>): seq<string> {
    if pieces != [] && pieces[|pieces| - 1] == "" then DropEmpty(pieces[..|pieces| - 1]) else pieces
  }

  /** Module and name, if the path has just these two. */
  function SplitPath(path: string): Option<(string, string)> {
    var p := DropEmpty(Pieces(path));
    if |p| == 2 then Some((p[0], p[1])) else None
  }

  lemma {:induction false} OnePiece(s: string)
    requires NoDot(s)
    ensures Pieces(s) == [s]
  {
    if s != "" {
      assert s == [s[0]] + s[1..];
      OnePiece(s[1..]);
    }
  }

  lemma {:induction false} PiecesJoined(m: string, rest: string)
    requires NoDot(m)
    ensures Pieces(m + "." + rest) == [m] + Pieces(rest)
  {
    var s := m + "." + rest;
    if m == "" {
      assert s[1..] == rest;
    } else {
      assert m == [m[0]] + m[1..];
      assert s[0] == m[0] && s[1..] == m[1..] + "." + rest;
      PiecesJoined(m[1..], rest);
    }
  }

  /** A module and a name without dots come back, just if the name is not empty. */
  lemma PathComesBack(m: string, n: string)
    requires NoDot(m) && NoDot(n)
    ensures SplitPath(m + "." + n) == Some((m, n)) <==> n != ""
    ensures n == "" ==> SplitPath(m + "." + n) == None
  {
    PiecesJoined(m, n);
    OnePiece(n);
    DropsLast([m], n);
    assert [m] + [n] == [m, n];
    if n == "" {
      assert |DropEmpty([m])| <= 1;
    }
  }

  lemma DropsLast(pieces: seq<string>, last: string)
    ensures DropEmpty(pieces + [last]) == if last == "" then DropEmpty(pieces) else pieces + [last]
  {
    assert (pieces + [last])[..|pieces|] == pieces;
  }

  /** A name with a dot inside, as a third piece, is refused. */
  lemma ThirdPieceRefused(m: string, n: string, k: string)
    requires NoDot(m) && NoDot(n) && NoDot(k) && k != ""
    ensures SplitPath(m + "." + (n + "." + k)) == None
  {
    PiecesJoined(m, n + "." + k);
    PiecesJoined(n, k);
    OnePiece(k);
    assert [m] + ([n] + [k]) == [m, n, k];
  }

  // ----- a whole table -----

  /** A fix-up: what is named, and the word that names it. */
  datatype FixUp = FixUp(mod: string, name: string, offset: int)

  /** The rows of a table as they are written: path and offset. */
  function Joined(fixups: seq<FixUp>): (r: seq<(string, int)>)
    ensures |r| == |fixups|
  {
    seq(|fixups|, i requires 0 <= i < |fixups| => (fixups[i].mod + "." + fixups[i].name, fixups[i].offset))
  }

  /** Every path taken apart, unless one does not have two pieces. */
  function SplitAll(rows: seq<(string, int)>): Option<seq<FixUp>>
    decreases |rows|
  {
    if rows == [] then Some([])
    else
      match SplitPath(rows[0].0)
      case None => None
      case Some(p) =>
        match SplitAll(rows[1..])
        case None => None
        case Some(rest) => Some([FixUp(p.0, p.1, rows[0].1)] + rest)
  }

  predicate Dotless(fixups: seq<FixUp>) {
    forall i :: 0 <= i < |fixups| ==> NoDot(fixups[i].mod) && NoDot(fixups[i].name)
  }

  predicate Named(fixups: seq<FixUp>) {
    forall i :: 0 <= i < |fixups| ==> fixups[i].name != ""
  }

  /** A table of names without dots comes back exactly if no name is empty; otherwise it is refused. */
  lemma {:induction false} FixUpsComeBack(fixups: seq<FixUp>)
    requires Dotless(fixups)
    ensures SplitAll(Joined(fixups)) == if Named(fixups) then Some(fixups) else None
    decreases |fixups|
  {
    hide SplitPath, NoDot;
    if fixups != [] {
      var f := fixups[0];
      PathComesBack(f.mod, f.name);
      FixUpsComeBack(fixups[1..]);
      assert Joined(fixups)[1..] == Joined(fixups[1..]);
      assert [f] + fixups[1..] == fixups;
      assert Named(fixups) <==> f.name != "" && Named(fixups[1..]);
    }
  }
}
