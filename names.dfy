/** The names the program derives from the video path (the log file or table
    name) and the lookup of an already registered table in dbtables.txt. */
module Names {
  import opened Text

  /** std::string::find_last_of for a single character: the last position of
      c in s, or -1 where the library returns npos. */
  function LastIndexOf(s: string, c: char): (r: int)
    ensures -1 <= r < |s|
    ensures r >= 0 ==> s[r] == c
    ensures forall k :: r < k < |s| ==> s[k] != c
    decreases |s|
  {
    if |s| == 0 then -1
    else if s[|s| - 1] == c then |s| - 1
    else LastIndexOf(s[..|s| - 1], c)
  }

  /** The last occurrence is the one with no later occurrence. */
  lemma LastIndexOfAt(s: string, c: char, i: int)
    requires 0 <= i < |s| && s[i] == c
    requires forall k :: i < k < |s| ==> s[k] != c
    ensures LastIndexOf(s, c) == i
  {
  }

  /** The longest suffix of the path without '/': the whole path when it has
      no '/', otherwise what follows the last '/'. */
  function BaseName(path: string): (b: string)
    ensures '/' !in b
    ensures |b| <= |path| && b == path[|path| - |b|..]
    ensures |b| < |path| ==> path[|path| - |b| - 1] == '/'
  {
    var i := LastIndexOf(path, '/');
    if i == -1 then path else path[i + 1..]
  }

  /** `substr(0, find_last_of('.'))`: everything before the last '.', or the
      whole string when there is none (substr with npos). */
  function StripExtension(base: string): (name: string)
    ensures |name| <= |base| && name == base[..|name|]
    ensures '.' in base ==> |name| < |base| && base[|name|] == '.' && '.' !in base[|name| + 1..]
    ensures '.' !in base ==> name == base
  {
    var i := LastIndexOf(base, '.');
    if i == -1 then base else base[..i]
  }

  /** The menu's two results: `path`, which the slash branch overwrites with
      the base name, and `name`, the base name without its extension. */
  datatype Derived = Derived(path: string, name: string)

  function DeriveNames(path: string): (d: Derived)
    ensures d.path == BaseName(path)
    ensures d.name == StripExtension(BaseName(path))
  {
    if LastIndexOf(path, '/') == -1 then
      Derived(path, StripExtension(path))
    else
      var p := path[LastIndexOf(path, '/') + 1..];
      Derived(p, StripExtension(p))
  }

  /** A base name is its own base name. */
  lemma BaseNameIdempotent(path: string)
    ensures BaseName(BaseName(path)) == BaseName(path)
  {
    var b := BaseName(path);
    assert forall k :: 0 <= k < |b| ==> b[k] != '/';
  }

  /** Deriving the names again from the overwritten path changes nothing, and
      neither result holds a '/'. */
  lemma DeriveNamesStable(path: string)
    ensures DeriveNames(DeriveNames(path).path) == DeriveNames(path)
    ensures '/' !in DeriveNames(path).path && '/' !in DeriveNames(path).name
  {
    var d := DeriveNames(path);
    var e := DeriveNames(d.path);
    assert e.path == d.path by {
      BaseNameIdempotent(path);
    }
    assert e.name == d.name;
    assert '/' !in d.name by {
      PrefixKeepsAbsence(d.path, d.name, '/');
    }
  }

  /** A prefix holds no character its string does not. */
  lemma PrefixKeepsAbsence(s: string, t: string, c: char)
    requires c !in s
    requires |t| <= |s| && t == s[..|t|]
    ensures c !in t
  {
    assert forall k :: 0 <= k < |t| ==> t[k] == s[k];
  }

  /** A path with a directory and an extension. */
  lemma DeriveNamesWithDirectory()
    ensures DeriveNames("videos/cars.mp4") == Derived("cars.mp4", "cars")
  {
    LastIndexOfAt("videos/cars.mp4", '/', 6);
    assert "videos/cars.mp4"[7..] == "cars.mp4";
    LastIndexOfAt("cars.mp4", '.', 4);
    assert "cars.mp4"[..4] == "cars";
  }

  /** A bare file name keeps its path and loses its extension. */
  lemma DeriveNamesBare()
    ensures DeriveNames("highway.avi") == Derived("highway.avi", "highway")
  {
    assert LastIndexOf("highway.avi", '/') == -1;
    LastIndexOfAt("highway.avi", '.', 7);
    assert "highway.avi"[..7] == "highway";
  }

  /** A '.' in a directory name is not an extension. */
  lemma DeriveNamesDotInDirectory()
    ensures DeriveNames("dir.v1/clip") == Derived("clip", "clip")
  {
    LastIndexOfAt("dir.v1/clip", '/', 6);
    assert "dir.v1/clip"[7..] == "clip";
    assert LastIndexOf("clip", '.') == -1;
  }

  /** std::replace(..., ' ', '_'): every space becomes '_', nothing else moves. */
  function ReplaceSpaces(s: string): (r: string)
    ensures |r| == |s|
    ensures forall k :: 0 <= k < |s| ==> r[k] == (if s[k] == ' ' then '_' else s[k])
    decreases |s|
  {
    if |s| == 0 then [] else [if s[0] == ' ' then '_' else s[0]] + ReplaceSpaces(s[1..])
  }

  /** The table name: "TABLE_" and the name with its spaces replaced. */
  function TableName(name: string): (t: string)
    ensures |t| == |name| + 6 && t[..6] == "TABLE_"
    ensures t[6..] == ReplaceSpaces(name)
    ensures ' ' !in t
  {
    var t := "TABLE_" + ReplaceSpaces(name);
    assert forall k :: 6 <= k < |t| ==> t[k] == ReplaceSpaces(name)[k - 6];
    t
  }

  /** Names without spaces get distinct tables. */
  lemma TableNameInjectiveWithoutSpaces(a: string, b: string)
    requires ' ' !in a && ' ' !in b
    requires TableName(a) == TableName(b)
    ensures a == b
  {
    assert |a| == |b|;
    forall k | 0 <= k < |a|
      ensures a[k] == b[k]
    {
      assert TableName(a)[k + 6] == ReplaceSpaces(a)[k];
      assert TableName(b)[k + 6] == ReplaceSpaces(b)[k];
    }
  }

  /** A space and an underscore give the same table. */
  lemma TableNameCollision()
    ensures "a b" != "a_b" && TableName("a b") == TableName("a_b")
  {
    var t, u := TableName("a b"), TableName("a_b");
    assert |t| == |u| == 9;
    forall k | 0 <= k < 9
      ensures t[k] == u[k]
    {
      if k >= 6 {
        assert t[k] == ReplaceSpaces("a b")[k - 6];
        assert u[k] == ReplaceSpaces("a_b")[k - 6];
      } else {
        assert t[k] == t[..6][k] && u[k] == u[..6][k];
      }
    }
  }

  /** The strings s1 and s2 of loggedTableName, which live across lines. */
  datatype Scan = Scan(s1: string, s2: string)

  /** `ss >> s1 >> s2` on one line: a read that finds no token leaves its
      string as it was, and once one read fails the next is not attempted. */
  function ReadTwo(line: string, st: Scan): Scan {
    var t := Tokens(line);
    if |t| == 0 then st
    else if |t| == 1 then Scan(t[0], st.s2)
    else Scan(t[0], t[1])
  }

  /** The value returned from the first line after which s1 equals sp, if any. */
  function LookupFrom(lines: seq<string>, sp: string, st: Scan): Option<string>
    decreases |lines|
  {
    if |lines| == 0 then None
    else
      var u := ReadTwo(lines[0], st);
      if u.s1 == sp then Some(u.s2) else LookupFrom(lines[1..], sp, u)
  }

  /** What loggedTableName returns for the file with these lines. */
  function Lookup(lines: seq<string>, sp: string): string {
    match LookupFrom(lines, sp, Scan("", ""))
    case None => ""
    case Some(v) => v
  }

  /** loggedTableName, over the lines getline hands it. */
  method LoggedTableName(lines: seq<string>, sp: string) returns (r: string)
    ensures r == Lookup(lines, sp)
  {
    var s1, s2 := "", "";
    var i := 0;
    while i < |lines|
      invariant 0 <= i <= |lines|
      invariant LookupFrom(lines, sp, Scan("", "")) == LookupFrom(lines[i..], sp, Scan(s1, s2))
    {
      assert lines[i..][1..] == lines[i + 1..];
      var t := Tokens(lines[i]);
      if |t| >= 1 {
        s1 := t[0];
        if |t| >= 2 {
          s2 := t[1];
        }
      }
      if s1 == sp {
        return s2;
      }
      i := i + 1;
    }
    return "";
  }

  /** The state after reading every line without returning. */
  function ScanAll(lines: seq<string>, st: Scan): Scan
    decreases |lines|
  {
    if |lines| == 0 then st else ScanAll(lines[1..], ReadTwo(lines[0], st))
  }

  /** Line k is the first whose first token is sp (every line has a token). */
  ghost predicate FirstKeyAt(lines: seq<string>, sp: string, k: nat)
    requires k < |lines|
    requires forall i :: 0 <= i < |lines| ==> |Tokens(lines[i])| >= 1
  {
    Tokens(lines[k])[0] == sp && forall j :: 0 <= j < k ==> Tokens(lines[j])[0] != sp
  }

  /** On a file whose every line holds two tokens, the result is the second
      token of the first line whose first token is sp, and "" without one. */
  lemma {:induction false} LookupFromWellFormed(lines: seq<string>, sp: string, st: Scan)
    requires forall i :: 0 <= i < |lines| ==> |Tokens(lines[i])| >= 2
    ensures (forall i :: 0 <= i < |lines| ==> Tokens(lines[i])[0] != sp) ==> LookupFrom(lines, sp, st) == None
    ensures forall k :: 0 <= k < |lines| && FirstKeyAt(lines, sp, k) ==>
      LookupFrom(lines, sp, st) == Some(Tokens(lines[k])[1])
    decreases |lines|
  {
    if |lines| > 0 {
      var rest := lines[1..];
      assert forall i :: 0 <= i < |rest| ==> rest[i] == lines[i + 1];
      LookupFromWellFormed(rest, sp, ReadTwo(lines[0], st));
      forall k | 0 <= k < |lines| && FirstKeyAt(lines, sp, k)
        ensures LookupFrom(lines, sp, st) == Some(Tokens(lines[k])[1])
      {
        if k > 0 {
          assert FirstKeyAt(rest, sp, k - 1) by {
            forall j | 0 <= j < k - 1
              ensures Tokens(rest[j])[0] != sp
            {
              assert rest[j] == lines[j + 1];
            }
          }
        }
      }
    }
  }

  lemma LookupWellFormed(lines: seq<string>, sp: string)
    requires forall i :: 0 <= i < |lines| ==> |Tokens(lines[i])| >= 2
    ensures (forall i :: 0 <= i < |lines| ==> Tokens(lines[i])[0] != sp) ==> Lookup(lines, sp) == ""
    ensures forall k :: 0 <= k < |lines| && FirstKeyAt(lines, sp, k) ==>
      Lookup(lines, sp) == Tokens(lines[k])[1]
  {
    LookupFromWellFormed(lines, sp, Scan("", ""));
  }

  /** With s1 not yet sp and no line starting with the token sp, no line returns. */
  lemma {:induction false} LookupFromAbsent(lines: seq<string>, sp: string, st: Scan)
    requires st.s1 != sp
    requires forall i :: 0 <= i < |lines| && |Tokens(lines[i])| > 0 ==> Tokens(lines[i])[0] != sp
    ensures LookupFrom(lines, sp, st) == None
    decreases |lines|
  {
    if |lines| > 0 {
      var rest := lines[1..];
      assert forall i :: 0 <= i < |rest| ==> rest[i] == lines[i + 1];
      LookupFromAbsent(rest, sp, ReadTwo(lines[0], st));
    }
  }

  /** On any file, a non-empty path that starts no line is not found. */
  lemma LookupAbsent(lines: seq<string>, sp: string)
    requires sp != ""
    requires forall i :: 0 <= i < |lines| && |Tokens(lines[i])| > 0 ==> Tokens(lines[i])[0] != sp
    ensures Lookup(lines, sp) == ""
  {
    LookupFromAbsent(lines, sp, Scan("", ""));
  }

  /** A line with a single token keeps the second token of the line before. */
  lemma StaleSecondToken()
    ensures Lookup(["a b", "c"], "c") == "b"
  {
    assert IsWord("a") && IsWord("b") && IsWord("c");
    TokensOfTwoWords("a", "b");
    assert "a" + " " + "b" == "a b";
    TokensOfWord("c", []);
    assert "c" + [] == "c";
    assert ["a b", "c"][1..] == ["c"];
  }

  /** s1 is only ever "" or a token, so a key holding white space never matches. */
  lemma {:induction false} SpacedKeyNeverFoundFrom(lines: seq<string>, sp: string, st: Scan)
    requires exists k :: 0 <= k < |sp| && IsSpace(sp[k])
    requires st.s1 == "" || IsWord(st.s1)
    ensures LookupFrom(lines, sp, st) == None
    decreases |lines|
  {
    if |lines| > 0 {
      TokensAreWords(lines[0]);
      var u := ReadTwo(lines[0], st);
      assert u.s1 == "" || IsWord(u.s1);
      assert u.s1 != sp;
      SpacedKeyNeverFoundFrom(lines[1..], sp, u);
    }
  }

  lemma SpacedKeyNeverFound(lines: seq<string>, sp: string)
    requires exists k :: 0 <= k < |sp| && IsSpace(sp[k])
    ensures Lookup(lines, sp) == ""
  {
    SpacedKeyNeverFoundFrom(lines, sp, Scan("", ""));
  }

  /** Reading more lines after the first ones: the first answer stands, or the
      search goes on from the state the first lines left. */
  lemma {:induction false} LookupFromAppend(lines: seq<string>, more: seq<string>, sp: string, st: Scan)
    ensures LookupFrom(lines + more, sp, st) ==
      match LookupFrom(lines, sp, st)
      case Some(v) => Some(v)
      case None => LookupFrom(more, sp, ScanAll(lines, st))
    decreases |lines|
  {
    if |lines| == 0 {
      assert lines + more == more;
    } else {
      assert (lines + more)[0] == lines[0];
      assert (lines + more)[1..] == lines[1..] + more;
      LookupFromAppend(lines[1..], more, sp, ReadTwo(lines[0], st));
    }
  }

  /** The registration after a database log: the line "path table" is
      appended when the lookup returns "". */
  function Register(lines: seq<string>, path: string, table: string): (r: seq<string>)
    ensures lines <= r && |r| <= |lines| + 1
  {
    if Lookup(lines, path) == "" then lines + [path + " " + table] else lines
  }

  /** A path that no line matched is found, with its table, once registered,
      and registering it again appends nothing. */
  lemma RegisteredTableFound(lines: seq<string>, path: string, table: string)
    requires IsWord(path) && IsWord(table)
    requires LookupFrom(lines, path, Scan("", "")) == None
    ensures Lookup(Register(lines, path, table), path) == table
    ensures Register(Register(lines, path, table), path, table) == Register(lines, path, table)
  {
    var line := path + " " + table;
    assert Lookup(lines, path) == "";
    LookupFromAppend(lines, [line], path, Scan("", ""));
    TokensOfTwoWords(path, table);
    assert ReadTwo(line, ScanAll(lines, Scan("", ""))) == Scan(path, table);
    assert [line][1..] == [];
  }

  /** A path holding a space is never found, so every run appends its line again. */
  lemma SpacedPathRegisteredAgain(lines: seq<string>, path: string, table: string)
    requires exists k :: 0 <= k < |path| && IsSpace(path[k])
    ensures Register(lines, path, table) == lines + [path + " " + table]
    ensures Register(Register(lines, path, table), path, table) == lines + [path + " " + table, path + " " + table]
  {
    SpacedKeyNeverFound(lines, path);
    SpacedKeyNeverFound(lines + [path + " " + table], path);
    assert lines + [path + " " + table] + [path + " " + table] == lines + [path + " " + table, path + " " + table];
  }
}
