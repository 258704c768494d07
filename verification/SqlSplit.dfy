/** The statement splitter of the SQL console (internal/api/dbconsole.go). */
module SqlSplit {
  import opened Text

  // ---- the reference: one character at a time, no lookahead ----

  /** Where the scan stands. Dash, Slash and Star remember a character that may
      open or close a comment; a doubled quote leaves a string and enters it again. */
  datatype Mode = Top | Dash | Slash | Single | Double | Line | Block | Star

  predicate Plain(m: Mode) { m.Top? || m.Dash? || m.Slash? }

  function Next(m: Mode, c: char): Mode {
    match m
    case Single => if c == '\'' then Top else Single
    case Double => if c == '"' then Top else Double
    case Line => if c == '\n' then Top else Line
    case Block => if c == '*' then Star else Block
    case Star => if c == '/' then Top else if c == '*' then Star else Block
    case _ =>
      if c == '\'' then Single
      else if c == '"' then Double
      else if c == '-' then (if m.Dash? then Line else Dash)
      else if c == '/' then Slash
      else if c == '*' && m.Slash? then Block
      else Top
  }

  /** The raw pieces between the semicolons seen outside strings and comments. */
  function Pieces(m: Mode, cur: string, s: string): (ps: seq<string>)
    ensures ps != []
    decreases s
  {
    if s == "" then [cur]
    else if Plain(m) && s[0] == ';' then [cur] + Pieces(Top, "", s[1..])
    else Pieces(Next(m, s[0]), cur + [s[0]], s[1..])
  }

  function TrimSpace(s: string): string { Trim(s, GoSpace) }

  /** Trims every piece and drops the empty ones. */
  function Statements(ps: seq<string>): seq<string> {
    if ps == [] then [] else
      (if TrimSpace(ps[0]) != "" then [TrimSpace(ps[0])] else []) + Statements(ps[1..])
  }

  function SplitScript(script: string): seq<string> {
    Statements(Pieces(Top, "", script))
  }

  // ---- the scanner as written: flags and lookahead ----

  /** What the four flags say about the mode of the reference. */
  ghost predicate Agrees(m: Mode, inSingle: bool, inDouble: bool, inLine: bool, inBlock: bool, script: string, i: nat) {
    && (inSingle <==> m.Single?) && (inDouble <==> m.Double?) && (inLine <==> m.Line?) && (inBlock <==> m.Block? || m.Star?)
    && (i < |script| ==>
         && (m.Dash? ==> script[i] != '-')
         && (m.Slash? ==> script[i] != '*')
         && (m.Star? ==> script[i] != '/'))
  }

  method SplitSqlStatements(script: string) returns (stmts: seq<string>)
    ensures stmts == SplitScript(script)
  {
    hide TrimSpace, Pieces, Statements, PiecesFrom;
    Begin(script);
    stmts := [];
    NoStatements();
    var b := "";
    var inSingle, inDouble, inLine, inBlock := false, false, false, false;
    ghost var m, done := Top, [];
    var i := 0;
    while i < |script|
      invariant 0 <= i <= |script|
      invariant Agrees(m, inSingle, inDouble, inLine, inBlock, script, i)
      invariant Pieces(Top, "", script) == done + PiecesFrom(m, b, script, i)
      invariant stmts == Statements(done)
    {
      var c := script[i];
      var next := i + 1 < |script|;
      Unfold(m, b, script, i);
      if inLine {
        if c == '\n' { inLine := false; }
        b := b + [c];
        m := Next(m, c);
      } else if inBlock {
        if c == '*' && next && script[i + 1] == '/' {
          Unfold(Star, b + [c], script, i + 1);
          b := b + ['*'] + ['/'];
          i := i + 1;
          inBlock := false;
          m := Top;
        } else {
          b := b + [c];
          m := Next(m, c);
        }
      } else if inSingle {
        b := b + [c];
        m := Next(m, c);
        if c == '\'' {
          if next && script[i + 1] == '\'' {
            Unfold(Top, b, script, i + 1);
            b := b + ['\''];
            i := i + 1;
            m := Single;
          } else {
            inSingle := false;
          }
        }
      } else if inDouble {
        b := b + [c];
        m := Next(m, c);
        if c == '"' && (!next || script[i + 1] != '"') {
          inDouble := false;
        } else if c == '"' {
          Unfold(Top, b, script, i + 1);
          b := b + ['"'];
          i := i + 1;
          m := Double;
        }
      } else if c == '\'' {
        inSingle := true;
        b := b + [c];
        m := Single;
      } else if c == '"' {
        inDouble := true;
        b := b + [c];
        m := Double;
      } else if c == '-' && next && script[i + 1] == '-' {
        Unfold(Dash, b + [c], script, i + 1);
        inLine := true;
        b := b + ['-'] + ['-'];
        i := i + 1;
        m := Line;
      } else if c == '/' && next && script[i + 1] == '*' {
        Unfold(Slash, b + [c], script, i + 1);
        inBlock := true;
        b := b + ['/'] + ['*'];
        i := i + 1;
        m := Block;
      } else if c == ';' {
        StatementsAppend(done, b);
        assert done + ([b] + PiecesFrom(Top, "", script, i + 1)) == done + [b] + PiecesFrom(Top, "", script, i + 1);
        done := done + [b];
        if TrimSpace(b) != "" {
          stmts := stmts + [TrimSpace(b)];
        }
        b := "";
        m := Top;
      } else {
        b := b + [c];
        m := Next(m, c);
      }
      i := i + 1;
    }
    LastPiece(m, b, script, i);
    StatementsAppend(done, b);
    if TrimSpace(b) != "" {
      stmts := stmts + [TrimSpace(b)];
    }
  }

  lemma NoStatements()
    ensures Statements([]) == []
  {
  }

  /** What the rest of the script, from position i on, has to add. */
  function PiecesFrom(m: Mode, cur: string, script: string, i: nat): seq<string>
    requires i <= |script|
  {
    Pieces(m, cur, script[i..])
  }

  lemma Begin(script: string)
    ensures [] + PiecesFrom(Top, "", script, 0) == Pieces(Top, "", script)
  {
    assert script[0..] == script;
  }

  lemma LastPiece(m: Mode, cur: string, script: string, i: nat)
    requires i == |script|
    ensures PiecesFrom(m, cur, script, i) == [cur]
  {
  }

  lemma Unfold(m: Mode, cur: string, script: string, i: nat)
    requires i < |script|
    ensures PiecesFrom(m, cur, script, i)
         == if Plain(m) && script[i] == ';' then [cur] + PiecesFrom(Top, "", script, i + 1)
            else PiecesFrom(Next(m, script[i]), cur + [script[i]], script, i + 1)
  {
    assert script[i..][0] == script[i] && script[i..][1..] == script[i + 1..];
  }

  lemma {:induction false} StatementsAppend(ps: seq<string>, p: string)
    ensures Statements(ps + [p]) == Statements(ps) + if TrimSpace(p) != "" then [TrimSpace(p)] else []
  {
    hide TrimSpace;
    if ps == [] {
      assert [] + [p] == [p] && [p][1..] == [];
    } else {
      assert (ps + [p])[0] == ps[0] && (ps + [p])[1..] == ps[1..] + [p];
      StatementsAppend(ps[1..], p);
    }
  }

  // ---- nothing is lost ----

  /** Put back between the raw pieces, the semicolons rebuild the script exactly. */
  lemma {:induction false} PiecesRebuild(m: Mode, cur: string, s: string)
    ensures Join(Pieces(m, cur, s), ';') == cur + s
    decreases |s|
  {
    if s != "" {
      assert s == [s[0]] + s[1..];
      if Plain(m) && s[0] == ';' {
        PiecesRebuild(Top, "", s[1..]);
        var ps := Pieces(Top, "", s[1..]);
        assert ([cur] + ps)[1..] == ps;
      } else {
        PiecesRebuild(Next(m, s[0]), cur + [s[0]], s[1..]);
      }
    }
  }

  // ---- the round trip ----

  function Scan(m: Mode, s: string): Mode
    decreases s
  {
    if s == "" then m else Scan(Next(m, s[0]), s[1..])
  }

  /** Scanning s from mode m meets no semicolon that splits. */
  predicate Whole(m: Mode, s: string)
    decreases s
  {
    s == "" || (!(Plain(m) && s[0] == ';') && Whole(Next(m, s[0]), s[1..]))
  }

  lemma {:induction false} ScanAppend(m: Mode, a: string, b: string)
    ensures Scan(m, a + b) == Scan(Scan(m, a), b)
    ensures Whole(m, a + b) <==> Whole(m, a) && Whole(Scan(m, a), b)
    decreases |a|
  {
    if a == "" {
      assert a + b == b;
    } else {
      assert (a + b)[1..] == a[1..] + b;
      ScanAppend(Next(m, a[0]), a[1..], b);
    }
  }

  /** White space never leaves the top level, and leaves a string or block comment never. */
  lemma {:induction false} ScanSpace(m: Mode, s: string)
    requires AllSpace(s, GoSpace)
    ensures Whole(m, s)
    ensures m.Top? ==> Scan(m, s).Top?
    ensures Plain(Scan(m, s)) ==> Plain(m) || m.Line?
    decreases s
  {
    if s != "" {
      ScanSpace(Next(m, s[0]), s[1..]);
    }
  }

  lemma {:induction false} WholeIsOnePiece(m: Mode, cur: string, s: string)
    requires Whole(m, s)
    ensures Pieces(m, cur, s) == [cur + s]
    decreases |s|
  {
    if s == "" {
      assert cur + s == cur;
    } else {
      assert cur + s == cur + [s[0]] + s[1..];
      WholeIsOnePiece(Next(m, s[0]), cur + [s[0]], s[1..]);
    }
  }

  lemma {:induction false} FirstPiece(m: Mode, cur: string, s: string, rest: string)
    requires Whole(m, s) && Plain(Scan(m, s))
    ensures Pieces(m, cur, s + ";" + rest) == [cur + s] + Pieces(Top, "", rest)
    decreases |s|
  {
    var t := s + ";" + rest;
    if s == "" {
      assert t == ";" + rest && t[1..] == rest && cur + s == cur;
    } else {
      assert t[0] == s[0] && t[1..] == s[1..] + ";" + rest;
      assert cur + s == cur + [s[0]] + s[1..];
      FirstPiece(Next(m, s[0]), cur + [s[0]], s[1..], rest);
    }
  }

  /** A statement that stands for itself, and, unless it comes last, one that a
      line break closes. */
  predicate Standing(stmt: string, last: bool) {
    && stmt != "" && Trimmed(stmt, GoSpace) && Whole(Top, stmt)
    && (last || Plain(Scan(Top, stmt)) || Scan(Top, stmt).Line?)
  }

  predicate AllStanding(stmts: seq<string>) {
    stmts == [] || (Standing(stmts[0], |stmts| == 1) && AllStanding(stmts[1..]))
  }

  predicate GoodPieces(ps: seq<string>) {
    ps == [] || (Whole(Top, ps[0]) && (|ps| > 1 ==> Plain(Scan(Top, ps[0]))) && GoodPieces(ps[1..]))
  }

  lemma {:induction false} PiecesAreGood(m: Mode, cur: string, s: string)
    requires Whole(Top, cur) && Scan(Top, cur) == m
    ensures GoodPieces(Pieces(m, cur, s))
    decreases |s|
  {
    if s == "" {
      assert Pieces(m, cur, s)[1..] == [];
    } else if Plain(m) && s[0] == ';' {
      PiecesAreGood(Top, "", s[1..]);
      assert Pieces(m, cur, s)[1..] == Pieces(Top, "", s[1..]);
    } else {
      ScanAppend(Top, cur, [s[0]]);
      assert [s[0]][1..] == "";
      PiecesAreGood(Next(m, s[0]), cur + [s[0]], s[1..]);
    }
  }

  /** Trimming keeps a piece whole, even when it takes off the line break that
      closed a comment. */
  lemma TrimStands(p: string, last: bool)
    requires Whole(Top, p) && (last || Plain(Scan(Top, p))) && TrimSpace(p) != ""
    ensures Standing(TrimSpace(p), last)
  {
    hide Whole, Scan, GoSpace, Trim;
    var lead, trail := TrimParts(p, GoSpace);
    CoreStands(lead, TrimSpace(p), trail, last);
  }

  lemma CoreStands(lead: string, s: string, trail: string, last: bool)
    requires AllSpace(lead, GoSpace) && AllSpace(trail, GoSpace)
    requires Whole(Top, lead + s + trail) && (last || Plain(Scan(Top, lead + s + trail)))
    ensures Whole(Top, s) && (last || Plain(Scan(Top, s)) || Scan(Top, s).Line?)
  {
    hide Whole, Scan, GoSpace, AllSpace;
    assert lead + s + trail == lead + (s + trail);
    ScanAppend(Top, lead, s + trail);
    ScanAppend(Top, s, trail);
    ScanSpace(Top, lead);
    ScanSpace(Scan(Top, s), trail);
  }

  lemma {:induction false} StatementsStand(ps: seq<string>)
    requires GoodPieces(ps)
    ensures AllStanding(Statements(ps))
  {
    hide TrimSpace, Standing;
    if ps != [] {
      StatementsStand(ps[1..]);
      var rest := Statements(ps[1..]);
      if TrimSpace(ps[0]) != "" {
        TrimStands(ps[0], |ps| == 1);
        StandingNotLast(TrimSpace(ps[0]));
        assert ([TrimSpace(ps[0])] + rest)[1..] == rest;
      } else {
        assert [] + rest == rest;
      }
    }
  }

  lemma StandingNotLast(stmt: string)
    ensures Standing(stmt, false) ==> Standing(stmt, true)
  {
  }

  lemma ScriptStands(script: string)
    ensures AllStanding(SplitScript(script))
  {
    PiecesAreGood(Top, "", script);
    StatementsStand(Pieces(Top, "", script));
  }

  /** Every statement the splitter emits is, on its own, exactly one statement. */
  lemma EachStatementAlone(script: string, k: nat)
    requires k < |SplitScript(script)|
    ensures SplitScript(SplitScript(script)[k]) == [SplitScript(script)[k]]
  {
    hide Pieces, Statements, AllStanding, GoodPieces, Standing;
    ScriptStands(script);
    StandingAt(SplitScript(script), k);
    OneStatement("", SplitScript(script)[k]);
    assert "" + SplitScript(script)[k] == SplitScript(script)[k];
  }

  lemma {:induction false} StandingAt(stmts: seq<string>, k: nat)
    requires AllStanding(stmts) && k < |stmts|
    ensures Standing(stmts[k], true)
  {
    if k > 0 {
      StandingAt(stmts[1..], k - 1);
    }
  }

  lemma OneStatement(pre: string, s: string)
    requires (pre == "" || pre == "\n") && Standing(s, true)
    ensures SplitScript(pre + s) == [s]
  {
    hide Trim;
    assert AllSpace(pre, GoSpace);
    ScanSpace(Top, pre);
    ScanAppend(Top, pre, s);
    WholeIsOnePiece(Top, "", pre + s);
    TrimPadded(pre, s, "", GoSpace);
    assert pre + s + "" == pre + s == "" + (pre + s);
    var ps := [pre + s];
    assert TrimSpace(ps[0]) == s;
    assert Statements(ps) == [s] + Statements(ps[1..]) && ps[1..] == [];
  }

  function JoinScript(stmts: seq<string>): string {
    if stmts == [] then "" else if |stmts| == 1 then stmts[0] else stmts[0] + "\n;\n" + JoinScript(stmts[1..])
  }

  lemma {:induction false} JoinedSplits(pre: string, stmts: seq<string>)
    requires (pre == "" || pre == "\n") && stmts != [] && AllStanding(stmts)
    ensures SplitScript(pre + JoinScript(stmts)) == stmts
    decreases |stmts|
  {
    hide Trim;
    if |stmts| == 1 {
      OneStatement(pre, stmts[0]);
    } else {
      hide Pieces, Statements, Standing, Whole, Scan;
      var s, tail := stmts[0], JoinScript(stmts[1..]);
      JoinedSplits("\n", stmts[1..]);
      FirstStatement(pre, s, "\n" + tail);
      assert pre + JoinScript(stmts) == pre + s + "\n;" + ("\n" + tail);
      assert stmts == [s] + stmts[1..];
    }
  }

  lemma FirstStatement(pre: string, s: string, rest: string)
    requires (pre == "" || pre == "\n") && Standing(s, false)
    ensures SplitScript(pre + s + "\n;" + rest) == [s] + SplitScript(rest)
  {
    hide Trim, Whole, Scan, Pieces;
    var p := pre + s + "\n";
    assert AllSpace(pre, GoSpace) && AllSpace("\n", GoSpace);
    ClosedPiece(pre, s);
    FirstPiece(Top, "", p, rest);
    assert pre + s + "\n;" + rest == p + ";" + rest;
    assert "" + p == p;
    TrimPadded(pre, s, "\n", GoSpace);
    var ps := Pieces(Top, "", rest);
    assert ([p] + ps)[1..] == ps;
    assert Statements([p] + ps) == [s] + Statements(ps);
  }

  lemma ClosedPiece(pre: string, s: string)
    requires AllSpace(pre, GoSpace) && Standing(s, false)
    ensures Whole(Top, pre + s + "\n") && Plain(Scan(Top, pre + s + "\n"))
  {
    hide Whole, Scan;
    assert pre + s + "\n" == pre + (s + "\n");
    ScanAppend(Top, pre, s + "\n");
    ScanAppend(Top, s, "\n");
    ScanSpace(Top, pre);
    NewlineCloses(Scan(Top, s));
  }

  lemma NewlineCloses(m: Mode)
    requires Plain(m) || m.Line?
    ensures Whole(m, "\n") && Scan(m, "\n") == Top
  {
    var s := "\n";
    assert s[0] == '\n' && s[1..] == "";
    assert Scan(m, s) == Scan(Next(m, '\n'), "") == Next(m, '\n');
    assert Whole(Next(m, '\n'), s[1..]);
  }

  /** Splitting, joining with a semicolon on a line of its own, and splitting
      again gives the same statements, for every script. */
  lemma SplitJoinSplit(script: string)
    ensures SplitScript(JoinScript(SplitScript(script))) == SplitScript(script)
  {
    hide Statements, AllStanding;
    var stmts := SplitScript(script);
    if stmts == [] {
      NothingSplits();
    } else {
      ScriptStands(script);
      JoinedSplits("", stmts);
      assert "" + JoinScript(stmts) == JoinScript(stmts);
    }
  }

  lemma NothingSplits()
    ensures SplitScript("") == []
  {
    var none: seq<string> := [""];
    assert Pieces(Top, "", "") == none;
    assert TrimSpace("") == TrimRight("", GoSpace) == "";
    assert Statements(none) == [] + Statements(none[1..]) && none[1..] == [];
  }
}
