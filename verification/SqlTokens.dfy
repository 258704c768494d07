/** What the statement splitter means, in terms of SQL tokens: which semicolons
    separate statements (internal/api/dbconsole.go). */
module SqlTokens {
  import opened SqlSplit

  /** Quoted text holds its own quote as it is meant, not doubled; comments are
      without their delimiters. */
  datatype Token =
    | Bare(text: string)
    | Quoted(quote: char, text: string)
    | LineComment(text: string)
    | BlockComment(text: string)
    | Semicolon

  /** How a script may end: properly, or inside a string or a comment. */
  datatype Ending = Closed | InQuotes(quote: char, text: string) | InLine(text: string) | InBlock(text: string)

  function Doubled(quote: char, text: string): string {
    if text == "" then "" else (if text[0] == quote then [quote, quote] else [text[0]]) + Doubled(quote, text[1..])
  }

  function PrintToken(t: Token): string {
    match t
    case Bare(text) => text
    case Quoted(quote, text) => [quote] + Doubled(quote, text) + [quote]
    case LineComment(text) => "--" + text + "\n"
    case BlockComment(text) => "/*" + text + "*/"
    case Semicolon => ";"
  }

  function PrintEnding(e: Ending): string {
    match e
    case Closed => ""
    case InQuotes(quote, text) => [quote] + Doubled(quote, text)
    case InLine(text) => "--" + text
    case InBlock(text) => "/*" + text
  }

  function PrintScript(ts: seq<Token>, e: Ending): string {
    if ts == [] then PrintEnding(e) else PrintToken(ts[0]) + PrintScript(ts[1..], e)
  }

  predicate Quote(c: char) { c == '\'' || c == '"' }

  /** Two neighbours that open a comment. */
  predicate Opens(a: char, b: char) { (a == '-' && b == '-') || (a == '/' && b == '*') }

  /** No quote, no semicolon and nothing that opens a comment. */
  predicate BareText(s: string) {
    s == "" || (
      && !Quote(s[0]) && s[0] != ';'
      && (|s| > 1 ==> !Opens(s[0], s[1]))
      && BareText(s[1..]))
  }

  predicate NoBlockEnd(s: string) {
    forall i | 0 <= i < |s| - 1 :: !(s[i] == '*' && s[i + 1] == '/')
  }

  predicate TokenOk(t: Token) {
    match t
    case Bare(text) => BareText(text)
    case Quoted(quote, _) => Quote(quote)
    case LineComment(text) => '\n' !in text
    case BlockComment(text) => NoBlockEnd(text)
    case Semicolon => true
  }

  predicate EndingOk(e: Ending) {
    match e
    case Closed => true
    case InQuotes(quote, _) => Quote(quote)
    case InLine(text) => '\n' !in text
    case InBlock(text) => NoBlockEnd(text)
  }

  /** Good tokens, with bare text never next to bare text. */
  predicate ScriptOk(ts: seq<Token>) {
    ts == [] || (
      && TokenOk(ts[0])
      && (ts[0].Bare? && |ts| > 1 ==> !ts[1].Bare?)
      && ScriptOk(ts[1..]))
  }

  /** The text between the semicolon tokens. */
  function Runs(cur: string, ts: seq<Token>, e: Ending): seq<string>
    decreases |ts|
  {
    if ts == [] then [cur + PrintEnding(e)]
    else if ts[0].Semicolon? then [cur] + Runs("", ts[1..], e)
    else Runs(cur + PrintToken(ts[0]), ts[1..], e)
  }

  // ---- the scan of one token ----

  /** From a top-level mode, the token is passed without a cut and leaves the top level no more. */
  ghost predicate Passes(m: Mode, s: string) {
    Whole(m, s) && Plain(Scan(m, s))
  }

  lemma {:induction false} BareScan(m: Mode, s: string)
    requires Plain(m) && BareText(s)
    requires s != "" ==> !(m.Dash? && s[0] == '-') && !(m.Slash? && s[0] == '*')
    ensures Passes(m, s)
    decreases s
  {
    if s != "" {
      BareScan(Next(m, s[0]), s[1..]);
    }
  }

  function Inside(quote: char): Mode
    requires Quote(quote)
  {
    if quote == '"' then Double else Single
  }

  /** The inside of a string never leaves it. */
  lemma {:induction false} DoubledScan(quote: char, text: string)
    requires Quote(quote)
    ensures Whole(Inside(quote), Doubled(quote, text)) && Scan(Inside(quote), Doubled(quote, text)) == Inside(quote)
    decreases text
  {
    if text != "" {
      var m := Inside(quote);
      var head := if text[0] == quote then [quote, quote] else [text[0]];
      DoubledScan(quote, text[1..]);
      if text[0] == quote {
        assert head[1..] == [quote] && head[1..][1..] == "";
        assert Scan(m, head) == Scan(Next(m, quote), [quote]) == Scan(Next(Next(m, quote), quote), "");
        assert Whole(Next(m, quote), [quote]);
      } else {
        assert head[1..] == "";
        assert Scan(m, head) == Scan(Next(m, text[0]), "");
      }
      ScanAppend(m, head, Doubled(quote, text[1..]));
    }
  }

  lemma OneChar(m: Mode, c: char)
    requires !(Plain(m) && c == ';')
    ensures Whole(m, [c]) && Scan(m, [c]) == Next(m, c)
  {
    assert [c][1..] == "";
    assert Scan(m, [c]) == Scan(Next(m, c), "");
    assert Whole(Next(m, c), "");
  }

  lemma OpenQuotedScan(m: Mode, quote: char, text: string)
    requires Plain(m) && Quote(quote)
    ensures Whole(m, [quote] + Doubled(quote, text)) && Scan(m, [quote] + Doubled(quote, text)) == Inside(quote)
  {
    OneChar(m, quote);
    DoubledScan(quote, text);
    ScanAppend(m, [quote], Doubled(quote, text));
  }

  lemma QuotedScan(m: Mode, quote: char, text: string)
    requires Plain(m) && Quote(quote)
    ensures Passes(m, [quote] + Doubled(quote, text) + [quote]) && Scan(m, [quote] + Doubled(quote, text) + [quote]).Top?
  {
    OpenQuotedScan(m, quote, text);
    OneChar(Inside(quote), quote);
    ScanAppend(m, [quote] + Doubled(quote, text), [quote]);
  }

  lemma {:induction false} LineScan(s: string)
    requires '\n' !in s
    ensures Whole(Line, s) && Scan(Line, s) == Line
    decreases s
  {
    if s != "" {
      LineScan(s[1..]);
    }
  }

  lemma OpenLineScan(m: Mode, text: string)
    requires Plain(m) && '\n' !in text
    ensures Whole(m, "--" + text) && Scan(m, "--" + text) == Line
  {
    OneChar(m, '-');
    OneChar(Next(m, '-'), '-');
    ScanAppend(m, "-", "-");
    assert "-" + "-" == "--";
    LineScan(text);
    ScanAppend(m, "--", text);
  }

  lemma LineCommentScan(m: Mode, text: string)
    requires Plain(m) && '\n' !in text
    ensures Passes(m, "--" + text + "\n") && Scan(m, "--" + text + "\n").Top?
  {
    OpenLineScan(m, text);
    OneChar(Line, '\n');
    ScanAppend(m, "--" + text, "\n");
  }

  lemma {:induction false} BlockScan(m: Mode, s: string)
    requires (m.Block? || m.Star?) && NoBlockEnd(s) && (m.Star? && s != "" ==> s[0] != '/')
    ensures Whole(m, s) && (Scan(m, s).Block? || Scan(m, s).Star?)
    decreases s
  {
    if s != "" {
      BlockScan(Next(m, s[0]), s[1..]);
    }
  }

  lemma OpenBlockScan(m: Mode, text: string)
    requires Plain(m) && NoBlockEnd(text)
    ensures Whole(m, "/*" + text) && (Scan(m, "/*" + text).Block? || Scan(m, "/*" + text).Star?)
  {
    OneChar(m, '/');
    OneChar(Slash, '*');
    ScanAppend(m, "/", "*");
    assert "/" + "*" == "/*";
    BlockScan(Block, text);
    ScanAppend(m, "/*", text);
  }

  lemma BlockCommentScan(m: Mode, text: string)
    requires Plain(m) && NoBlockEnd(text)
    ensures Passes(m, "/*" + text + "*/") && Scan(m, "/*" + text + "*/").Top?
  {
    OpenBlockScan(m, text);
    var b := Scan(m, "/*" + text);
    OneChar(b, '*');
    OneChar(Star, '/');
    ScanAppend(b, "*", "/");
    assert "*" + "/" == "*/";
    ScanAppend(m, "/*" + text, "*/");
  }

  lemma TokenScan(m: Mode, t: Token)
    requires Plain(m) && TokenOk(t) && !t.Semicolon? && (t.Bare? ==> m.Top?)
    ensures Passes(m, PrintToken(t))
    ensures !t.Bare? ==> Scan(m, PrintToken(t)).Top?
  {
    hide Whole, Scan, BareText, NoBlockEnd, Doubled;
    match t {
      case Bare(text) => BareScan(Top, text);
      case Quoted(quote, text) => QuotedScan(m, quote, text);
      case LineComment(text) => LineCommentScan(m, text);
      case BlockComment(text) => BlockCommentScan(m, text);
    }
  }

  lemma EndingScan(m: Mode, e: Ending)
    requires Plain(m) && EndingOk(e)
    ensures Whole(m, PrintEnding(e))
  {
    hide Scan, NoBlockEnd, Doubled;
    match e {
      case Closed =>
      case InQuotes(quote, text) => OpenQuotedScan(m, quote, text);
      case InLine(text) => OpenLineScan(m, text);
      case InBlock(text) => OpenBlockScan(m, text);
    }
  }

  // ---- the scan of a script ----

  lemma {:induction false} PiecesSkip(m: Mode, cur: string, s: string, rest: string)
    requires Whole(m, s)
    ensures Pieces(m, cur, s + rest) == Pieces(Scan(m, s), cur + s, rest)
    decreases |s|
  {
    if s == "" {
      assert s + rest == rest && cur + s == cur;
    } else {
      assert (s + rest)[0] == s[0] && (s + rest)[1..] == s[1..] + rest;
      assert cur + s == cur + [s[0]] + s[1..];
      PiecesSkip(Next(m, s[0]), cur + [s[0]], s[1..], rest);
    }
  }

  lemma {:induction false} RunsFrom(m: Mode, cur: string, ts: seq<Token>, e: Ending)
    requires Plain(m) && ScriptOk(ts) && EndingOk(e) && (ts != [] && ts[0].Bare? ==> m.Top?)
    ensures Pieces(m, cur, PrintScript(ts, e)) == Runs(cur, ts, e)
    decreases |ts|
  {
    hide Whole, Scan, Pieces, TokenOk, EndingOk, PrintToken, PrintEnding;
    if ts == [] {
      EndingScan(m, e);
      WholeIsOnePiece(m, cur, PrintEnding(e));
    } else if ts[0].Semicolon? {
      var rest := PrintScript(ts[1..], e);
      CutAt(m, cur, rest);
      RunsFrom(Top, "", ts[1..], e);
    } else {
      var s, rest := PrintToken(ts[0]), PrintScript(ts[1..], e);
      TokenScan(m, ts[0]);
      PiecesSkip(m, cur, s, rest);
      RunsFrom(Scan(m, s), cur + s, ts[1..], e);
    }
  }

  lemma CutAt(m: Mode, cur: string, rest: string)
    requires Plain(m)
    ensures Pieces(m, cur, PrintToken(Semicolon) + rest) == [cur] + Pieces(Top, "", rest)
  {
    assert (";" + rest)[1..] == rest;
  }

  /** The splitter cuts exactly at the semicolon tokens: never inside a string of
      either kind, however its quotes are doubled, or inside a comment of either kind,
      closed or not, and at every other semicolon. */
  lemma CutsAtSemicolons(ts: seq<Token>, e: Ending)
    requires ScriptOk(ts) && EndingOk(e)
    ensures Pieces(Top, "", PrintScript(ts, e)) == Runs("", ts, e)
    ensures SplitScript(PrintScript(ts, e)) == Statements(Runs("", ts, e))
  {
    RunsFrom(Top, "", ts, e);
  }

  // ---- and every script is made of tokens ----

  lemma {:induction false} LexQuoted(quote: char, s: string) returns (text: string, closed: bool, rest: string)
    ensures s == Doubled(quote, text) + if closed then [quote] + rest else ""
    ensures |rest| <= |s|
    decreases |s|
  {
    if s == "" {
      text, closed, rest := "", false, "";
    } else if s[0] != quote {
      text, closed, rest := LexQuoted(quote, s[1..]);
      text := [s[0]] + text;
      assert text[1..] + "" == text[1..];
      assert s == [s[0]] + s[1..];
    } else if |s| > 1 && s[1] == quote {
      text, closed, rest := LexQuoted(quote, s[2..]);
      text := [quote] + text;
      assert s == [quote, quote] + s[2..];
    } else {
      text, closed, rest := "", true, s[1..];
      assert s == "" + ([quote] + s[1..]);
    }
  }

  lemma {:induction false} LexLine(s: string) returns (text: string, closed: bool, rest: string)
    ensures s == text + (if closed then "\n" + rest else "") && '\n' !in text
    ensures |rest| <= |s|
    decreases |s|
  {
    if s == "" {
      text, closed, rest := "", false, "";
    } else if s[0] == '\n' {
      text, closed, rest := "", true, s[1..];
      assert s == "" + ("\n" + s[1..]);
    } else {
      text, closed, rest := LexLine(s[1..]);
      text := [s[0]] + text;
      assert s == [s[0]] + s[1..];
    }
  }

  lemma {:induction false} LexBlock(s: string) returns (text: string, closed: bool, rest: string)
    ensures s == text + (if closed then "*/" + rest else "") && NoBlockEnd(text)
    ensures |rest| <= |s|
    decreases |s|
  {
    if s == "" {
      text, closed, rest := "", false, "";
    } else if |s| > 1 && s[0] == '*' && s[1] == '/' {
      text, closed, rest := "", true, s[2..];
      assert s == "" + ("*/" + s[2..]);
    } else {
      var tail;
      tail, closed, rest := LexBlock(s[1..]);
      text := [s[0]] + tail;
      assert s == [s[0]] + s[1..];
      assert tail != "" ==> s[1] == tail[0];
    }
  }

  /** What a script opens with, if not a bare character: a token and the rest, or an
      ending and nothing more. */
  lemma FirstToken(s: string) returns (t: Token, closed: bool, e: Ending, rest: string)
    requires s != "" && (Quote(s[0]) || s[0] == ';' || (|s| > 1 && Opens(s[0], s[1])))
    ensures closed ==> TokenOk(t) && !t.Bare? && s == PrintToken(t) + rest && |rest| < |s|
    ensures !closed ==> EndingOk(e) && s == PrintEnding(e)
  {
    hide NoBlockEnd, Doubled;
    if s[0] == ';' {
      t, closed, e, rest := Semicolon, true, Closed, s[1..];
      assert s == ";" + rest;
    } else if Quote(s[0]) {
      t, closed, e, rest := FirstQuoted(s);
    } else if s[0] == '-' {
      t, closed, e, rest := FirstLine(s);
    } else {
      t, closed, e, rest := FirstBlock(s);
    }
  }

  lemma FirstQuoted(s: string) returns (t: Token, closed: bool, e: Ending, rest: string)
    requires s != "" && Quote(s[0])
    ensures if closed then t.Quoted? && TokenOk(t) && s == PrintToken(t) + rest && |rest| < |s| else EndingOk(e) && s == PrintEnding(e)
  {
    hide Doubled;
    var text;
    text, closed, rest := LexQuoted(s[0], s[1..]);
    t, e := Quoted(s[0], text), InQuotes(s[0], text);
    Glued([s[0]], Doubled(s[0], text), [s[0]], rest, s, closed);
  }

  lemma FirstLine(s: string) returns (t: Token, closed: bool, e: Ending, rest: string)
    requires |s| > 1 && s[0] == '-' && s[1] == '-'
    ensures if closed then t.LineComment? && TokenOk(t) && s == PrintToken(t) + rest && |rest| < |s| else EndingOk(e) && s == PrintEnding(e)
  {
    var text;
    text, closed, rest := LexLine(s[2..]);
    t, e := LineComment(text), InLine(text);
    Glued("--", text, "\n", rest, s, closed);
  }

  lemma FirstBlock(s: string) returns (t: Token, closed: bool, e: Ending, rest: string)
    requires |s| > 1 && s[0] == '/' && s[1] == '*'
    ensures if closed then t.BlockComment? && TokenOk(t) && s == PrintToken(t) + rest && |rest| < |s| else EndingOk(e) && s == PrintEnding(e)
  {
    hide NoBlockEnd;
    var text;
    text, closed, rest := LexBlock(s[2..]);
    t, e := BlockComment(text), InBlock(text);
    Glued("/*", text, "*/", rest, s, closed);
  }

  lemma Glued(start: string, text: string, stop: string, rest: string, s: string, closed: bool)
    requires |start| <= |s| && s[..|start|] == start && s[|start|..] == text + if closed then stop + rest else ""
    ensures s == if closed then start + text + stop + rest else start + text
  {
    assert s == start + s[|start|..];
  }

  /** For every script whatever there are tokens, and an ending, that print as it: so
      the law above says where the splitter cuts any script. */
  lemma {:induction false} EveryScriptHasTokens(s: string) returns (ts: seq<Token>, e: Ending)
    ensures ScriptOk(ts) && EndingOk(e) && PrintScript(ts, e) == s
    decreases |s|
  {
    hide PrintToken, TokenOk, ScriptOk, PrintScript;
    if s == "" {
      ts, e := [], Closed;
      NoTokens(e);
    } else if Quote(s[0]) || s[0] == ';' || (|s| > 1 && Opens(s[0], s[1])) {
      var t, closed, ending, rest := FirstToken(s);
      if closed {
        ts, e := EveryScriptHasTokens(rest);
        ts := Before(t, ts, e, s);
      } else {
        ts, e := [], ending;
        NoTokens(e);
      }
    } else {
      ts, e := EveryScriptHasTokens(s[1..]);
      assert s == [s[0]] + s[1..];
      ts := BareBefore(s[0], ts, e, s);
    }
  }

  lemma NoTokens(e: Ending)
    ensures ScriptOk([]) && PrintScript([], e) == PrintEnding(e)
  {
  }

  lemma Before(t: Token, ts: seq<Token>, e: Ending, s: string) returns (r: seq<Token>)
    requires TokenOk(t) && !t.Bare? && ScriptOk(ts) && s == PrintToken(t) + PrintScript(ts, e)
    ensures ScriptOk(r) && PrintScript(r, e) == s
  {
    r := [t] + ts;
    assert r[1..] == ts;
  }

  lemma BareBefore(c: char, ts: seq<Token>, e: Ending, s: string) returns (r: seq<Token>)
    requires !Quote(c) && c != ';' && ScriptOk(ts) && s == [c] + PrintScript(ts, e)
    requires |s| > 1 ==> !Opens(c, s[1])
    ensures ScriptOk(r) && PrintScript(r, e) == s
  {
    hide NoBlockEnd, Doubled;
    if ts != [] && ts[0].Bare? {
      var head, tail := ts[0].text, PrintScript(ts[1..], e);
      assert s == [c] + (head + tail);
      assert head != "" ==> s[1] == head[0];
      BareMore(c, head);
      r := [Bare([c] + head)] + ts[1..];
      assert r[1..] == ts[1..];
      assert s == [c] + head + tail;
    } else {
      BareMore(c, "");
      assert [c] + "" == [c];
      r := [Bare([c])] + ts;
      assert r[1..] == ts;
    }
  }

  lemma BareMore(c: char, text: string)
    requires !Quote(c) && c != ';' && BareText(text) && (text != "" ==> !Opens(c, text[0]))
    ensures BareText([c] + text)
  {
    assert ([c] + text)[1..] == text;
  }
}
