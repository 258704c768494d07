/** The grammar of short codes (internal/shortcode/shortcode.go). */
module ShortCode {
  import opened Text

  const MAX_SEGMENTS := 5
  const MAX_LENGTH := 64

  predicate CodeChar(c: char) {
    'a' <= c <= 'z' || 'A' <= c <= 'Z' || '0' <= c <= '9' || c == '-' || c == '_'
    || '\U{4E00}' <= c <= '\U{9FFF}'
  }

  /** Number of path separators in a code. */
  function Slashes(s: string): nat {
    if s == "" then 0 else (if s[0] == '/' then 1 else 0) + Slashes(s[1..])
  }

  /** What a valid code is, read off the code from left to right: which
      characters it holds, where its separators stand and how many there are. */
  predicate ValidCode(code: string) {
    || code == "/"
    || (0 < |code| <= MAX_LENGTH && Slashes(code) < MAX_SEGMENTS && code[0] != '/' && WellSeparated(code))
  }

  /** Only code characters and separators, and every separator is followed by a code character. */
  predicate WellSeparated(s: string) {
    s == "" || (
      && (CodeChar(s[0]) || (s[0] == '/' && |s| > 1 && s[1] != '/'))
      && WellSeparated(s[1..]))
  }

  datatype Verdict = Valid | Empty | TooLong | TooManySegments | EmptySegment | BadChar(c: char)

  /** The first fault met when the characters are read from left to right, with
      `start` true where a segment starts: a segment without a character, or a
      character that no code may hold. */
  function FirstFault(start: bool, s: string): Verdict
    decreases |s|
  {
    if s == "" then (if start then EmptySegment else Valid)
    else if s[0] == '/' then (if start then EmptySegment else FirstFault(true, s[1..]))
    else if !CodeChar(s[0]) then BadChar(s[0])
    else FirstFault(false, s[1..])
  }

  /** Short enough, not empty and not too deep: what is left to check are its characters. */
  predicate Sized(code: string) {
    code != "/" && 0 < |code| <= MAX_LENGTH && Slashes(code) < MAX_SEGMENTS
  }

  /** shortcode.Validate: split on '/', then look at every rune of every segment. */
  method Validate(code: string) returns (v: Verdict)
    ensures v.Valid? <==> ValidCode(code)
    ensures v.Empty? <==> code == ""
    ensures v.TooLong? <==> |code| > MAX_LENGTH
    ensures v.TooManySegments? <==> code != "/" && 0 < |code| <= MAX_LENGTH && Slashes(code) >= MAX_SEGMENTS
    ensures Sized(code) ==> v == FirstFault(true, code)
  {
    hide Slashes, Split, WellSeparated, FirstFault, ListFault, TextFault;
    if code == "/" { return Valid; }
    if code == "" { return Empty; }
    if |code| > MAX_LENGTH { return TooLong; }
    var segs := Split(code, '/');
    SplitCounts(code);
    if |segs| > MAX_SEGMENTS { return TooManySegments; }
    SplitFault(true, code);
    FaultIff(true, code);
    assert segs[0..] == segs;
    for i := 0 to |segs|
      invariant FirstFault(true, code) == if i == |segs| then Valid else ListFault(true, segs[i..])
    {
      assert segs[i..][0] == segs[i] && segs[i..][1..] == segs[i + 1..];
      ListStep(segs[i..]);
      if segs[i] == "" { return EmptySegment; }
      var seg := segs[i];
      assert seg[0..] == seg;
      for j := 0 to |seg|
        invariant TextFault(seg) == TextFault(seg[j..])
      {
        assert seg[j..][0] == seg[j] && seg[j..][1..] == seg[j + 1..];
        TextStep(seg[j..]);
        if !CodeChar(seg[j]) { return BadChar(seg[j]); }
      }
      assert seg[|seg|..] == "";
      TextStep("");
    }
    return Valid;
  }

  /** The first fault within one segment. */
  function TextFault(seg: string): Verdict {
    if seg == "" then Valid else if !CodeChar(seg[0]) then BadChar(seg[0]) else TextFault(seg[1..])
  }

  /** The first fault of a list of segments; the first of them may be the rest of one. */
  function ListFault(start: bool, segs: seq<string>): Verdict
    requires segs != []
    decreases |segs|
  {
    if start && segs[0] == "" then EmptySegment
    else if TextFault(segs[0]) != Valid then TextFault(segs[0])
    else if |segs| == 1 then Valid
    else ListFault(true, segs[1..])
  }

  lemma ListStep(segs: seq<string>)
    requires segs != []
    ensures ListFault(true, segs) ==
      if segs[0] == "" then EmptySegment
      else if TextFault(segs[0]) != Valid then TextFault(segs[0])
      else if |segs| == 1 then Valid
      else ListFault(true, segs[1..])
  {
  }

  lemma TextStep(seg: string)
    ensures TextFault(seg) == if seg == "" then Valid else if !CodeChar(seg[0]) then BadChar(seg[0]) else TextFault(seg[1..])
  {
  }

  /** Splitting first and looking at the segments in turn meets the fault that reading
      from left to right meets. */
  lemma {:induction false} SplitFault(start: bool, s: string)
    ensures FirstFault(start, s) == ListFault(start, Split(s, '/'))
    decreases |s|
  {
    if s != "" {
      var rest := Split(s[1..], '/');
      SplitStep(s, '/');
      if s[0] == '/' {
        SplitFault(true, s[1..]);
        assert Split(s, '/')[1..] == rest;
      } else {
        SplitFault(false, s[1..]);
        assert Split(s, '/')[0][1..] == rest[0] && Split(s, '/')[1..] == rest[1..];
      }
    }
  }

  /** There is no fault exactly in the codes of the grammar. */
  lemma {:induction false} FaultIff(start: bool, s: string)
    ensures FirstFault(start, s) == Valid <==> WellSeparated(s) && (start ==> s != "" && s[0] != '/')
    ensures !FirstFault(start, s).Empty? && !FirstFault(start, s).TooLong? && !FirstFault(start, s).TooManySegments?
    decreases |s|
  {
    if s != "" {
      FaultIff(s[0] == '/', s[1..]);
    }
  }

  lemma {:induction false} SplitCounts(code: string)
    ensures |Split(code, '/')| == Slashes(code) + 1
    decreases |code|
  {
    if code != "" {
      SplitCounts(code[1..]);
      SplitStep(code, '/');
    }
  }

  /** How splitting changes when one character is put in front. */
  lemma SplitStep(s: string, c: char)
    requires s != ""
    ensures s[0] == c ==> Split(s, c) == [""] + Split(s[1..], c)
    ensures s[0] != c ==> Split(s, c) == [[s[0]] + Split(s[1..], c)[0]] + Split(s[1..], c)[1..]
  {
    var t := s[1..];
    var i := IndexOf(t, c);
    if s[0] != c {
      if i < 0 {
        assert s == [s[0]] + t;
      } else {
        assert s[..i + 1] == [s[0]] + t[..i];
        assert s[i + 2..] == t[i + 1..];
      }
    }
  }

  predicate GoodSegment(seg: string) {
    seg != "" && forall c | c in seg :: CodeChar(c)
  }

  /** A code is valid if and only if it is the root, or short and made of one to five
      segments, none empty and none with a character that codes may not hold. */
  lemma ValidIffSegments(code: string)
    ensures ValidCode(code) <==>
      code == "/" || (|code| <= 64 && |Split(code, '/')| <= 5 && forall seg | seg in Split(code, '/') :: GoodSegment(seg))
  {
    hide Split, FirstFault, ListFault, WellSeparated, Slashes;
    SplitCounts(code);
    SplitFault(true, code);
    FaultIff(true, code);
    NoFaultIff(Split(code, '/'));
    if code == "" {
      EmptySplit();
    }
  }

  lemma EmptySplit()
    ensures Split("", '/') == [""]
  {
  }

  lemma {:induction false} NoFaultIff(segs: seq<string>)
    requires segs != []
    ensures ListFault(true, segs) == Valid <==> forall seg | seg in segs :: GoodSegment(seg)
    decreases |segs|
  {
    hide GoodSegment, TextFault;
    GoodIff(segs[0]);
    assert segs == [segs[0]] + segs[1..];
    if |segs| > 1 {
      NoFaultIff(segs[1..]);
    }
  }

  lemma {:induction false} GoodIff(seg: string)
    ensures GoodSegment(seg) <==> seg != "" && TextFault(seg) == Valid
  {
    if |seg| > 1 {
      GoodIff(seg[1..]);
      assert seg == [seg[0]] + seg[1..];
    } else if seg != "" {
      assert seg == [seg[0]] && seg[1..] == "";
    }
  }

  /** Digits and ASCII letters only: what shortcode.Random draws from. */
  predicate Base62(code: string) {
    forall i | 0 <= i < |code| :: '0' <= code[i] <= '9' || 'A' <= code[i] <= 'Z' || 'a' <= code[i] <= 'z'
  }

  /** The characters of codes: those of generated ones, dash and underscore, and the
      common Chinese characters. */
  lemma CodeCharIs(c: char)
    ensures CodeChar(c) <==> Base62([c]) || c in "-_" || 0x4E00 <= c as int <= 0x9FFF
  {
    if Base62([c]) {
      assert [c][0] == c;
    }
  }

  /** Generated codes need no validation: they satisfy the grammar of custom ones. */
  lemma {:induction false} RandomCodesAreValid(code: string)
    requires Base62(code) && 0 < |code| <= MAX_LENGTH
    ensures ValidCode(code)
  {
    PlainCodes(code);
  }

  lemma {:induction false} PlainCodes(s: string)
    requires Base62(s)
    ensures Slashes(s) == 0 && WellSeparated(s)
    ensures s != "" ==> s[0] != '/'
  {
    if s != "" {
      PlainCodes(s[1..]);
    }
  }

  /** Valid codes never hold the key separator and are never empty. */
  lemma ValidCodesAreClean(code: string)
    requires ValidCode(code)
    ensures code != "" && ':' !in code
  {
    if code != "/" {
      SeparatedHasNoColon(code);
    }
  }

  lemma {:induction false} SeparatedHasNoColon(s: string)
    requires WellSeparated(s)
    ensures ':' !in s
  {
    if s != "" {
      SeparatedHasNoColon(s[1..]);
      assert s == [s[0]] + s[1..];
    }
  }
}
