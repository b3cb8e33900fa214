/** The text handling of `LabInventoryApp.populateSampleData`: which lines of the seed script are
    kept, how the kept text is cut into statements, and which statements are run. */
module SeedScript {
  import opened JavaText

  // ---------------------------------------------------------------------------------------------
  // Reading the lines

  /** A line is skipped when it is blank or, once trimmed, starts with `--`. A `--` later in the
      line does not make it a comment. */
  predicate IsSkipped(line: string) {
    Trim(line) == [] || StartsWith(Trim(line), "--")
  }

  /** The text the `StringBuilder` holds after reading `lines`: every kept line, untrimmed, in
      order, each followed by a newline. */
  function KeptText(lines: seq<string>): string {
    if lines == [] then ""
    else
      var last := lines[|lines| - 1];
      KeptText(lines[..|lines| - 1]) + (if IsSkipped(last) then "" else last + "\n")
  }

  lemma {:induction false} KeptTextAppend(a: seq<string>, b: seq<string>)
    ensures KeptText(a + b) == KeptText(a) + KeptText(b)
  {
    if b != [] {
      var n := |b| - 1;
      assert (a + b)[..|a + b| - 1] == a + b[..n];
      KeptTextAppend(a, b[..n]);
    } else {
      assert a + b == a;
    }
  }

  // ---------------------------------------------------------------------------------------------
  // String.split(";")

  /** Every piece between two semicolons, from the start of `s` to its end: one more piece than
      `s` has semicolons, empty pieces included. */
  function Split(s: string): (r: seq<string>)
    ensures |r| >= 1
    ensures forall i :: 0 <= i < |r| ==> ';' !in r[i]
  {
    if s == [] then [""]
    else
      var rest := Split(s[1..]);
      if s[0] == ';' then [""] + rest else [[s[0]] + rest[0]] + rest[1..]
  }

  /** The pieces put back together with a `;` between each two. */
  function Join(pieces: seq<string>): string
    requires |pieces| >= 1
  {
    if |pieces| == 1 then pieces[0] else pieces[0] + ";" + Join(pieces[1..])
  }

  /** Text without a semicolon in front of `t` joins the first piece of `t`. */
  lemma {:induction false} SplitPrefix(w: string, t: string)
    requires ';' !in w
    ensures Split(w + t) == [w + Split(t)[0]] + Split(t)[1..]
  {
    if w != [] {
      assert (w + t)[1..] == w[1..] + t;
      SplitPrefix(w[1..], t);
      assert [w[0]] + (w[1..] + Split(t)[0]) == w + Split(t)[0];
    } else {
      assert w + t == t;
      assert w + Split(t)[0] == Split(t)[0];
      assert Split(t) == [Split(t)[0]] + Split(t)[1..];
    }
  }

  /** Text without a semicolon is a single piece. */
  lemma {:induction false} SplitWhole(s: string)
    requires ';' !in s
    ensures Split(s) == [s]
  {
    SplitPrefix(s, "");
    assert s + "" == s;
  }

  /** A char other than `;` in front of a text joins its first piece. */
  lemma SplitCons(c: char, s: string)
    requires c != ';'
    ensures Split([c] + s) == [[c] + Split(s)[0]] + Split(s)[1..]
  {
    assert ([c] + s)[1..] == s;
  }

  /** A `;` in front of a text starts an empty piece before its pieces. */
  lemma SplitSemicolon(s: string)
    ensures Split([';'] + s) == [""] + Split(s)
  {
    assert ([';'] + s)[1..] == s;
  }

  /** A `;` between two texts separates their pieces. */
  lemma {:induction false} SplitAppend(a: string, b: string)
    ensures Split(a + ";" + b) == Split(a) + Split(b)
  {
    if a == [] {
      assert a + ";" + b == [';'] + b;
      SplitSemicolon(b);
    } else {
      var c, rest := a[0], a[1..];
      assert a == [c] + rest;
      assert a + ";" + b == [c] + (rest + ";" + b);
      SplitAppend(rest, b);
      var head, tail := Split(rest), Split(b);
      if c == ';' {
        SplitSemicolon(rest);
        SplitSemicolon(rest + ";" + b);
        assert [""] + (head + tail) == ([""] + head) + tail;
      } else {
        SplitCons(c, rest);
        SplitCons(c, rest + ";" + b);
        FirstPieceOfAppend(c, head, tail);
      }
    }
  }

  /** Extending the first piece of `head + tail` extends the first piece of `head`. */
  lemma FirstPieceOfAppend(c: char, head: seq<string>, tail: seq<string>)
    requires |head| >= 1
    ensures [[c] + (head + tail)[0]] + (head + tail)[1..] == ([[c] + head[0]] + head[1..]) + tail
  {
    assert (head + tail)[1..] == head[1..] + tail;
  }

  /** Joining the pieces of `s` gives `s` back. */
  lemma {:induction false} JoinSplit(s: string)
    ensures Join(Split(s)) == s
  {
    if s != [] {
      JoinSplit(s[1..]);
      var rest := Split(s[1..]);
      if s[0] == ';' {
        assert s == [';'] + s[1..];
      } else {
        var r := Split(s);
        assert r[1..] == rest[1..];
        assert s == [s[0]] + s[1..];
      }
    }
  }

  /** Splitting the join of pieces without semicolons gives the pieces back. */
  lemma {:induction false} SplitJoin(pieces: seq<string>)
    requires |pieces| >= 1
    requires forall i :: 0 <= i < |pieces| ==> ';' !in pieces[i]
    ensures Split(Join(pieces)) == pieces
  {
    if |pieces| == 1 {
      SplitPrefix(pieces[0], "");
      assert pieces[0] + "" == pieces[0];
    } else {
      SplitJoin(pieces[1..]);
      SplitAppend(pieces[0], Join(pieces[1..]));
      SplitPrefix(pieces[0], "");
      assert pieces[0] + "" == pieces[0];
      assert pieces == [pieces[0]] + pieces[1..];
    }
  }

  /** `pieces` without its trailing empty strings. */
  function DropTrailingEmpty(pieces: seq<string>): (r: seq<string>)
    ensures |r| <= |pieces| && r == pieces[..|r|]
    ensures forall i :: |r| <= i < |pieces| ==> pieces[i] == []
    ensures r == [] || r[|r| - 1] != []
  {
    if pieces == [] || pieces[|pieces| - 1] != [] then pieces
    else DropTrailingEmpty(pieces[..|pieces| - 1])
  }

  /** `s.split(";")`: the text itself when it holds no `;`, otherwise its pieces without the
      trailing empty ones. */
  function JavaSplit(s: string): (r: seq<string>)
    ensures forall i :: 0 <= i < |r| ==> ';' !in r[i]
  {
    if ';' !in s then [s] else DropTrailingEmpty(Split(s))
  }

  // ---------------------------------------------------------------------------------------------
  // The statements that are run

  /** The trimmed pieces that are not empty, in order: what the `for` loop hands to `execute`. */
  function Statements(pieces: seq<string>): seq<string> {
    if pieces == [] then []
    else
      var last := Trim(pieces[|pieces| - 1]);
      Statements(pieces[..|pieces| - 1]) + (if last == [] then [] else [last])
  }

  lemma {:induction false} StatementsAppend(a: seq<string>, b: seq<string>)
    ensures Statements(a + b) == Statements(a) + Statements(b)
  {
    if b != [] {
      var n := |b| - 1;
      assert (a + b)[..|a + b| - 1] == a + b[..n];
      StatementsAppend(a, b[..n]);
    } else {
      assert a + b == a;
    }
  }

  /** The first piece is run first, when it is not blank. */
  lemma StatementsCons(x: string, rest: seq<string>)
    ensures Statements([x] + rest) == (if Trim(x) == [] then [] else [Trim(x)]) + Statements(rest)
  {
    StatementsAppend([x], rest);
    var single: seq<string> := [x];
    assert single[..0] == [];
  }

  /** Every statement run is non-empty, has no surrounding whitespace and holds no `;`. */
  lemma {:induction false} StatementsWellFormed(pieces: seq<string>)
    requires forall i :: 0 <= i < |pieces| ==> ';' !in pieces[i]
    ensures forall i :: 0 <= i < |Statements(pieces)| ==>
              var s := Statements(pieces)[i]; s != [] && IsTrimmed(s) && ';' !in s
  {
    if pieces != [] {
      var init, last := pieces[..|pieces| - 1], pieces[|pieces| - 1];
      StatementsWellFormed(init);
      TrimShape(last);
      if ';' in Trim(last) {
        TrimKeepsChars(last, ';');
      }
    }
  }

  /** The empty pieces `split` drops at the end are pieces the loop would skip anyway. */
  lemma {:induction false} DropTrailingEmptyKeepsStatements(pieces: seq<string>)
    ensures Statements(DropTrailingEmpty(pieces)) == Statements(pieces)
  {
    if pieces != [] && pieces[|pieces| - 1] == [] {
      DropTrailingEmptyKeepsStatements(pieces[..|pieces| - 1]);
    }
  }

  /** Java's `split` and the plain cut at every `;` run the same statements. */
  lemma JavaSplitKeepsStatements(s: string)
    ensures Statements(JavaSplit(s)) == Statements(Split(s))
  {
    if ';' in s {
      DropTrailingEmptyKeepsStatements(Split(s));
    } else {
      SplitJoin([s]);
    }
  }

  /** The `readLine` loop: every line that is not skipped, appended with its newline. */
  method ReadScript(lines: seq<string>) returns (content: string)
    ensures content == KeptText(lines)
  {
    content := "";
    var i := 0;
    while i < |lines|
      invariant 0 <= i <= |lines|
      invariant content == KeptText(lines[..i])
    {
      assert lines[..i + 1][..i] == lines[..i];
      if !IsSkipped(lines[i]) {
        content := content + (lines[i] + "\n");
      }
      i := i + 1;
    }
    assert lines[..|lines|] == lines;
  }

  /** The `for` loop over the pieces: each trimmed, and the non-empty ones run in order. */
  method RunPieces(pieces: seq<string>) returns (statements: seq<string>)
    ensures statements == Statements(pieces)
  {
    statements := [];
    var j := 0;
    while j < |pieces|
      invariant 0 <= j <= |pieces|
      invariant statements == Statements(pieces[..j])
    {
      assert pieces[..j + 1][..j] == pieces[..j];
      var sql := Trim(pieces[j]);
      assert Statements(pieces[..j + 1]) == statements + (if sql == [] then [] else [sql]);
      if sql != [] {
        statements := statements + [sql];
      }
      j := j + 1;
    }
    assert pieces[..|pieces|] == pieces;
  }

  /** Reads the script's lines into one text, splits it at `;` and lists, in file order, the
      statements the loader hands to the database. Each is run on its own: one that fails is
      reported and the rest still run. */
  method SplitScript(lines: seq<string>) returns (statements: seq<string>)
    ensures statements == Statements(Split(KeptText(lines)))
    ensures forall i :: 0 <= i < |statements| ==>
              statements[i] != [] && IsTrimmed(statements[i]) && ';' !in statements[i]
  {
    var content := ReadScript(lines);
    var pieces := JavaSplit(content);
    statements := RunPieces(pieces);
    JavaSplitKeepsStatements(content);
    StatementsWellFormed(pieces);
  }

  // ---------------------------------------------------------------------------------------------
  // A script of one statement per line

  /** Each statement written on a line of its own, ended by `;`. */
  function ScriptOf(statements: seq<string>): (lines: seq<string>)
    ensures |lines| == |statements|
    ensures forall i :: 0 <= i < |statements| ==> lines[i] == statements[i] + ";"
  {
    if statements == [] then [] else [statements[0] + ";"] + ScriptOf(statements[1..])
  }

  /** A statement the script format can carry: non-empty, trimmed, free of `;` and not starting
      with `--`. */
  predicate IsPlainStatement(s: string) {
    s != [] && IsTrimmed(s) && ';' !in s && !StartsWith(s, "--")
  }

  /** A plain statement ended by `;` is a line the loader keeps. */
  lemma ScriptLineKept(s: string)
    requires IsPlainStatement(s)
    ensures KeptText([s + ";"]) == s + ";" + "\n"
  {
    var line := s + ";";
    TrimOfTrimmed(line);
    if |s| >= 2 {
      assert line[..2] == s[..2];
    }
    var single: seq<string> := [line];
    assert single[..0] == [];
  }

  /** A plain statement, its `;` and a newline in front of `tail` run that statement, then the
      statements of `tail`. */
  lemma StatementThenText(s: string, tail: string)
    requires IsPlainStatement(s)
    ensures Statements(Split(s + ";" + ("\n" + tail))) == [s] + Statements(Split(tail))
  {
    var p := Split(tail);
    SplitAppend(s, "\n" + tail);
    SplitWhole(s);
    SplitPrefix("\n", tail);
    assert Split(s + ";" + ("\n" + tail)) == [s] + (["\n" + p[0]] + p[1..]);
    StatementsCons(s, ["\n" + p[0]] + p[1..]);
    TrimOfTrimmed(s);
    StatementsCons("\n" + p[0], p[1..]);
    StatementsCons(p[0], p[1..]);
    TrimSkipsLeading('\n', p[0]);
    assert "\n" + p[0] == ['\n'] + p[0];
    assert p == [p[0]] + p[1..];
  }

  /** The text of a script whose first statement is plain: that statement's line, its newline,
      then the text of the other lines. */
  lemma ScriptTextCons(statements: seq<string>)
    requires statements != [] && IsPlainStatement(statements[0])
    ensures KeptText(ScriptOf(statements))
            == statements[0] + ";" + ("\n" + KeptText(ScriptOf(statements[1..])))
  {
    var s := statements[0];
    var first, later := [s + ";"], ScriptOf(statements[1..]);
    var rest := KeptText(later);
    assert (s + ";" + "\n") + rest == s + ";" + ("\n" + rest);
    assert ScriptOf(statements) == first + later;
    KeptTextAppend(first, later);
    ScriptLineKept(s);
  }

  /** The text of the script holding `statements`, one per line, read back in. */
  lemma {:induction false} ScriptTextStatements(statements: seq<string>)
    requires forall i :: 0 <= i < |statements| ==> IsPlainStatement(statements[i])
    ensures Statements(Split(KeptText(ScriptOf(statements)))) == statements
  {
    if statements != [] {
      var rest := statements[1..];
      forall i | 0 <= i < |rest| ensures IsPlainStatement(rest[i]) {
        assert rest[i] == statements[i + 1];
      }
      ScriptTextStatements(rest);
      assert IsPlainStatement(statements[0]);
      ScriptTextCons(statements);
      StatementThenText(statements[0], KeptText(ScriptOf(rest)));
      assert statements == [statements[0]] + rest;
    } else {
      assert ScriptOf(statements) == [];
    }
  }

  /** A line holding a plain statement, its `;` and more text is a line the loader keeps. */
  lemma SemicolonLineKept(s: string, tail: string)
    requires IsPlainStatement(s)
    requires tail != [] && IsTrimmed(tail)
    ensures KeptText([s + "; " + tail]) == s + ";" + (" " + tail + "\n")
  {
    var line := s + "; " + tail;
    assert IsTrimmed(line);
    TrimOfTrimmed(line);
    if |s| >= 2 {
      assert line[..2] == s[..2];
    } else {
      assert line[1] == ';';
    }
    assert !IsSkipped(line);
    var single: seq<string> := [line];
    assert single[..0] == [];
    assert line + "\n" == s + ";" + (" " + tail + "\n");
  }

  /** Text after a statement's `;` on the same line, a `-- comment` included, is not dropped: the
      line is kept and that text reaches the database as a statement of its own. */
  lemma TextAfterSemicolonRuns(s: string, tail: string)
    requires IsPlainStatement(s)
    requires tail != [] && IsTrimmed(tail) && ';' !in tail
    ensures Statements(JavaSplit(KeptText([s + "; " + tail]))) == [s, tail]
  {
    var rest := " " + tail + "\n";
    SemicolonLineKept(s, tail);
    SplitAppend(s, rest);
    SplitWhole(s);
    SplitWhole(rest);
    JavaSplitKeepsStatements(s + ";" + rest);
    StatementsCons(s, [rest]);
    StatementsCons(rest, []);
    TrimOfTrimmed(s);
    TrimAroundWhitespace(" ", tail, "\n");
  }

  /** The loader runs exactly the statements of a script written one per line. */
  lemma ScriptRoundTrip(statements: seq<string>)
    requires forall i :: 0 <= i < |statements| ==> IsPlainStatement(statements[i])
    ensures Statements(JavaSplit(KeptText(ScriptOf(statements)))) == statements
  {
    ScriptTextStatements(statements);
    JavaSplitKeepsStatements(KeptText(ScriptOf(statements)));
  }
}
