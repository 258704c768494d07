/** String helpers shared by the scanners, the key decoder and the token parser. */
module Text {

  function IndexOf(s: string, c: char): (i: int)
    ensures -1 <= i < |s|
    ensures i >= 0 ==> s[i] == c
    ensures forall j | 0 <= j < if i < 0 then |s| else i :: s[j] != c
  {
    if s == "" then -1
    else if s[0] == c then 0
    else
      var i := IndexOf(s[1..], c);
      if i < 0 then -1 else i + 1
  }

  function LastIndexOf(s: string, c: char): (i: int)
    ensures -1 <= i < |s|
    ensures i >= 0 ==> s[i] == c
    ensures forall j | i < j < |s| :: s[j] != c
  {
    if s == "" then -1
    else if s[|s| - 1] == c then |s| - 1
    else LastIndexOf(s[..|s| - 1], c)
  }

  /** strings.Split on one character: always at least one part. */
  function Split(s: string, c: char): (parts: seq<string>)
    ensures parts != []
    ensures forall p <- parts :: c !in p
    decreases |s|
  {
    var i := IndexOf(s, c);
    if i < 0 then [s] else [s[..i]] + Split(s[i + 1..], c)
  }

  function Join(parts: seq<string>, c: char): string
    requires parts != []
  {
    if |parts| == 1 then parts[0] else parts[0] + [c] + Join(parts[1..], c)
  }

  lemma {:induction false} SplitJoin(parts: seq<string>, c: char)
    requires parts != []
    requires forall p <- parts :: c !in p
    ensures Split(Join(parts, c), c) == parts
  {
    var s := Join(parts, c);
    if |parts| == 1 {
      assert c !in parts[0];
      assert parts == [parts[0]];
    } else {
      var tail := Join(parts[1..], c);
      FirstAt(parts[0], c, tail);
      var n := |parts[0]|;
      assert s == parts[0] + [c] + tail;
      assert s[..n] == parts[0] && s[n + 1..] == tail;
      SplitJoin(parts[1..], c);
      assert parts == [parts[0]] + parts[1..];
    }
  }

  lemma FirstAt(head: string, c: char, tail: string)
    requires c !in head
    ensures IndexOf(head + [c] + tail, c) == |head|
  {
    var s := head + [c] + tail;
    assert s[|head|] == c;
    assert s[..|head|] == head;
    assert forall j | 0 <= j < |head| :: s[j] == head[j] && head[j] in head;
  }

  /** unicode.IsSpace of Go, the white space of strings.TrimSpace. */
  predicate GoSpace(c: char) {
    || c in {' ', '\t', '\n', '\r', '\U{0B}', '\U{0C}', '\U{85}', '\U{A0}', '\U{1680}'}
    || '\U{2000}' <= c <= '\U{200A}'
    || c in {'\U{2028}', '\U{2029}', '\U{202F}', '\U{205F}', '\U{3000}'}
  }

  /** The white space and line terminators of String.prototype.trim. */
  predicate JsSpace(c: char) {
    c == '\U{FEFF}' || (c != '\U{85}' && GoSpace(c))
  }

  predicate AllSpace(s: string, space: char -> bool) {
    forall i | 0 <= i < |s| :: space(s[i])
  }

  function TrimLeft(s: string, space: char -> bool): (r: string)
    ensures r != "" ==> !space(r[0])
    ensures |r| <= |s| && s[|s| - |r|..] == r
    ensures AllSpace(s[..|s| - |r|], space)
  {
    if s != "" && space(s[0]) then TrimLeft(s[1..], space) else s
  }

  function TrimRight(s: string, space: char -> bool): (r: string)
    ensures r != "" ==> !space(r[|r| - 1])
    ensures |r| <= |s| && s[..|r|] == r
    ensures AllSpace(s[|r|..], space)
  {
    if s != "" && space(s[|s| - 1]) then TrimRight(s[..|s| - 1], space) else s
  }

  function Trim(s: string, space: char -> bool): string {
    TrimRight(TrimLeft(s, space), space)
  }

  predicate Trimmed(s: string, space: char -> bool) {
    s != "" ==> !space(s[0]) && !space(s[|s| - 1])
  }

  /** Trimming removes white space at both ends and nothing else. */
  lemma TrimParts(s: string, space: char -> bool) returns (lead: string, trail: string)
    ensures s == lead + Trim(s, space) + trail
    ensures Trimmed(Trim(s, space), space)
    ensures AllSpace(lead, space) && AllSpace(trail, space)
  {
    hide TrimLeft, TrimRight;
    var l := TrimLeft(s, space);
    var r := TrimRight(l, space);
    lead, trail := s[..|s| - |l|], l[|r|..];
    assert s == lead + l && l == r + trail;
    assert r != "" ==> r[0] == l[0];
  }

  /** White space around a trimmed text is exactly what trimming takes off. */
  lemma TrimPadded(lead: string, s: string, trail: string, space: char -> bool)
    requires Trimmed(s, space)
    requires AllSpace(lead, space) && AllSpace(trail, space)
    ensures Trim(lead + s + trail, space) == s
  {
    assert lead + s + trail == lead + (s + trail);
    TrimLeftPadded(lead, s + trail, space);
    if s == "" {
      assert s + trail == trail + "";
      TrimLeftPadded(trail, "", space);
    } else {
      assert TrimLeft(s + trail, space) == s + trail;
      TrimRightPadded(s, trail, space);
    }
  }

  lemma {:induction false} TrimLeftPadded(lead: string, s: string, space: char -> bool)
    requires AllSpace(lead, space)
    ensures TrimLeft(lead + s, space) == TrimLeft(s, space)
  {
    if lead == "" {
      assert lead + s == s;
    } else {
      assert (lead + s)[0] == lead[0] && (lead + s)[1..] == lead[1..] + s;
      TrimLeftPadded(lead[1..], s, space);
    }
  }

  lemma {:induction false} TrimRightPadded(s: string, trail: string, space: char -> bool)
    requires AllSpace(trail, space)
    ensures TrimRight(s + trail, space) == TrimRight(s, space)
  {
    if trail == "" {
      assert s + trail == s;
    } else {
      var n := |trail| - 1;
      assert (s + trail)[..|s| + n] == s + trail[..n];
      assert (s + trail)[|s| + n] == trail[n];
      TrimRightPadded(s, trail[..n], space);
    }
  }
}
