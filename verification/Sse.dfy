/** The live log stream: the server's frames (internal/api/logs.go) and the
    client that cuts them out of arbitrary chunks (frontend/src/lib/api.ts). */
module Sse {
  import opened Text

  datatype Found = Nowhere | At(payload: string)

  /** Where the first blank line starts, or -1. */
  function BlankLine(s: string): (i: int)
    ensures -1 <= i && (i >= 0 ==> i + 1 < |s|)
    ensures i >= 0 ==> s[i] == '\n' && s[i + 1] == '\n'
    ensures forall j | 0 <= j < (if i < 0 then |s| - 1 else i) :: !(s[j] == '\n' && s[j + 1] == '\n')
  {
    if |s| < 2 then -1
    else if s[0] == '\n' && s[1] == '\n' then 0
    else
      var i := BlankLine(s[1..]);
      if i < 0 then -1 else i + 1
  }

  /** All complete frames of a text, in order. */
  function Frames(s: string): seq<string>
    decreases |s|
  {
    var i := BlankLine(s);
    if i < 0 then [] else [s[..i]] + Frames(s[i + 2..])
  }

  /** What stays in the buffer after them. */
  function Rest(s: string): string
    decreases |s|
  {
    var i := BlankLine(s);
    if i < 0 then s else Rest(s[i + 2..])
  }

  predicate IsData(line: string) {
    |line| >= 5 && line[..5] == "data:"
  }

  /** The first data line of a frame, without its prefix and white space. */
  function DataOf(lines: seq<string>): Found {
    if lines == [] then Nowhere
    else if IsData(lines[0]) then At(Trim(lines[0][5..], JsSpace))
    else DataOf(lines[1..])
  }

  /** What is handed to JSON.parse, frame by frame. */
  function Payloads(frames: seq<string>): seq<string> {
    if frames == [] then [] else
      (match DataOf(Split(frames[0], '\n')) case Nowhere => [] case At(p) => [p]) + Payloads(frames[1..])
  }

  class Reader {
    var buf: string

    constructor ()
      ensures buf == ""
    {
      buf := "";
    }

    /** One chunk arrives; every complete frame is taken off the buffer. */
    method OnChunk(chunk: string) returns (payloads: seq<string>)
      modifies this
      ensures payloads == Payloads(Frames(old(buf) + chunk))
      ensures buf == Rest(old(buf) + chunk)
    {
      hide DataOf, Split, Frames, Rest, BlankLine, Payloads;
      buf := buf + chunk;
      ghost var all := buf;
      payloads := [];
      assert [] + Payloads(Frames(all)) == Payloads(Frames(all));
      var idx := BlankLine(buf);
      while idx >= 0
        invariant idx == BlankLine(buf)
        invariant Payloads(Frames(all)) == payloads + Payloads(Frames(buf))
        invariant Rest(all) == Rest(buf)
        decreases |buf|
      {
        var frame := buf[..idx];
        FrameStep(buf);
        OnePayload(frame, Frames(buf[idx + 2..]));
        match DataOf(Split(frame, '\n')) {
          case Nowhere =>
          case At(p) => payloads := payloads + [p];
        }
        buf := buf[idx + 2..];
        idx := BlankLine(buf);
      }
      FrameStep(buf);
      NoPayloads();
      assert payloads + [] == payloads;
    }
  }

  /** Taking one frame off, or finding that there is none. */
  lemma FrameStep(s: string)
    ensures var i := BlankLine(s);
      if i < 0 then Frames(s) == [] && Rest(s) == s
      else Frames(s) == [s[..i]] + Frames(s[i + 2..]) && Rest(s) == Rest(s[i + 2..])
  {
  }

  // ---- chunks do not matter ----

  lemma BlankLineAppend(a: string, b: string)
    requires BlankLine(a) >= 0
    ensures BlankLine(a + b) == BlankLine(a)
  {
    var i, j := BlankLine(a), BlankLine(a + b);
    assert (a + b)[i] == '\n' && (a + b)[i + 1] == '\n';
    assert 0 <= j <= i;
    assert (a + b)[j] == a[j] && (a + b)[j + 1] == a[j + 1];
  }

  /** Reading a and then b is reading a + b, wherever the cut falls, even inside a blank line. */
  lemma {:induction false} FramesAppend(a: string, b: string)
    ensures Frames(a + b) == Frames(a) + Frames(Rest(a) + b)
    ensures Rest(a + b) == Rest(Rest(a) + b)
    decreases |a|
  {
    hide BlankLine, Frames, Rest;
    var i := BlankLine(a);
    FrameStep(a);
    FrameStep(a + b);
    if i < 0 {
      assert [] + Frames(a + b) == Frames(a + b);
    } else {
      BlankLineAppend(a, b);
      assert (a + b)[..i] == a[..i] && (a + b)[i + 2..] == a[i + 2..] + b;
      FramesAppend(a[i + 2..], b);
      assert [a[..i]] + (Frames(a[i + 2..]) + Frames(Rest(a) + b)) == [a[..i]] + Frames(a[i + 2..]) + Frames(Rest(a) + b);
    }
  }

  lemma {:induction false} PayloadsAppend(xs: seq<string>, ys: seq<string>)
    ensures Payloads(xs + ys) == Payloads(xs) + Payloads(ys)
  {
    hide DataOf, Split;
    if xs == [] {
      assert xs + ys == ys;
    } else {
      assert (xs + ys)[1..] == xs[1..] + ys;
      PayloadsAppend(xs[1..], ys);
    }
  }

  function Concat(chunks: seq<string>): string {
    if chunks == [] then "" else chunks[0] + Concat(chunks[1..])
  }

  /** What a reader whose buffer is buf delivers over a list of chunks. */
  function Deliver(buf: string, chunks: seq<string>): seq<string>
    decreases |chunks|
  {
    if chunks == [] then [] else
      Payloads(Frames(buf + chunks[0])) + Deliver(Rest(buf + chunks[0]), chunks[1..])
  }

  /** Any way of cutting a text into chunks delivers what the whole text delivers. */
  lemma {:induction false} ChunksDoNotMatter(buf: string, chunks: seq<string>)
    requires Frames(buf) == []
    ensures Deliver(buf, chunks) == Payloads(Frames(buf + Concat(chunks)))
    decreases |chunks|
  {
    hide Payloads;
    if chunks == [] {
      assert buf + "" == buf;
      NoPayloads();
    } else {
      var a, b := buf + chunks[0], Concat(chunks[1..]);
      assert buf + Concat(chunks) == a + b;
      RestIsDone(a);
      ChunksDoNotMatter(Rest(a), chunks[1..]);
      FramesAppend(a, b);
      PayloadsAppend(Frames(a), Frames(Rest(a) + b));
    }
  }

  lemma NoFrames()
    ensures Frames("") == []
  {
  }

  lemma NoPayloads()
    ensures Payloads([]) == []
  {
  }

  lemma {:induction false} RestIsDone(s: string)
    ensures Frames(Rest(s)) == []
    decreases |s|
  {
    if BlankLine(s) >= 0 {
      RestIsDone(s[BlankLine(s) + 2..]);
    }
  }

  /** A connection that breaks anywhere has delivered a prefix of the full sequence. */
  lemma BrokenStreamDeliversPrefix(sent: string, unsent: string)
    ensures Payloads(Frames(sent)) <= Payloads(Frames(sent + unsent))
  {
    hide Payloads;
    FramesAppend(sent, unsent);
    PayloadsAppend(Frames(sent), Frames(Rest(sent) + unsent));
  }

  // ---- the client inverts the server ----

  datatype Sent = Log(json: string) | Ping

  function Write(x: Sent): string {
    match x
    case Log(json) => "event: log\ndata: " + json + "\n\n"
    case Ping => ": ping\n\n"
  }

  function Stream(xs: seq<Sent>): string {
    if xs == [] then "" else Write(xs[0]) + Stream(xs[1..])
  }

  function Logs(xs: seq<Sent>): seq<string> {
    if xs == [] then [] else (if xs[0].Log? then [xs[0].json] else []) + Logs(xs[1..])
  }

  /** One line, without white space around it: what json.Marshal writes. */
  predicate OneLine(p: string) {
    '\n' !in p && Trimmed(p, JsSpace)
  }

  lemma FrameOf(body: string, rest: string)
    requires body != "" && body[|body| - 1] != '\n' && BlankLine(body) < 0
    ensures Frames(body + "\n\n" + rest) == [body] + Frames(rest)
  {
    var s := body + "\n\n" + rest;
    var n := |body|;
    assert s[n] == '\n' && s[n + 1] == '\n' && s[n + 2..] == rest && s[..n] == body;
    var i := BlankLine(s);
    forall j | 0 <= j < n ensures !(s[j] == '\n' && s[j + 1] == '\n') {
      assert s[j] == body[j];
      assert j + 1 < n ==> s[j + 1] == body[j + 1];
    }
    assert i == n;
  }

  lemma LogBody(p: string)
    requires '\n' !in p
    ensures var body := "event: log\ndata: " + p;
      && BlankLine(body) < 0 && body[|body| - 1] != '\n'
      && Split(body, '\n') == ["event: log", "data: " + p]
  {
    var head, line := "event: log", "data: " + p;
    var body := "event: log\ndata: " + p;
    var lines := [head, line];
    assert body == head + ['\n'] + line;
    assert '\n' !in head && '\n' !in line;
    assert BlankLine(body) < 0 by {
      assert forall j | 0 <= j < |body| :: body[j] == '\n' ==> j == 10;
    }
    assert body[|body| - 1] == line[|line| - 1];
    hide BlankLine;
    assert lines[1..] == [line];
    assert Join(lines, '\n') == head + ['\n'] + line;
    SplitJoin(lines, '\n');
  }

  lemma LogData(p: string)
    requires OneLine(p)
    ensures DataOf(["event: log", "data: " + p]) == At(p)
  {
    hide Trim;
    var head, line := "event: log", "data: " + p;
    assert line[..5] == "data:" && line[5..] == " " + p;
    assert !IsData(head) by { assert head[0] == 'e'; }
    assert AllSpace(" ", JsSpace);
    TrimPadded(" ", p, "", JsSpace);
    assert " " + p + "" == " " + p;
    assert [head, line][1..] == [line];
    assert DataOf([head, line]) == DataOf([line]);
  }

  lemma LogFrame(p: string)
    requires OneLine(p)
    ensures var body := "event: log\ndata: " + p;
      && BlankLine(body) < 0 && body[|body| - 1] != '\n'
      && DataOf(Split(body, '\n')) == At(p)
  {
    hide DataOf, Split, BlankLine;
    LogBody(p);
    LogData(p);
  }

  lemma PingFrame()
    ensures BlankLine(": ping") < 0 && DataOf(Split(": ping", '\n')) == Nowhere
  {
    var line := ": ping";
    assert forall j | 0 <= j < |line| :: line[j] != '\n';
    assert BlankLine(line) < 0;
    assert IndexOf(line, '\n') < 0;
    assert Split(line, '\n') == [line];
    assert [line][1..] == [];
    assert !IsData(line) by { assert line[0] == ':'; }
  }

  lemma LogDelivers(p: string, rest: string)
    requires OneLine(p)
    ensures Payloads(Frames(Write(Log(p)) + rest)) == [p] + Payloads(Frames(rest))
  {
    hide DataOf, Split, OneLine, BlankLine, Frames, Payloads;
    var body := "event: log\ndata: " + p;
    LogFrame(p);
    FrameOf(body, rest);
    assert Write(Log(p)) + rest == body + "\n\n" + rest;
    OnePayload(body, Frames(rest));
  }

  lemma PingDelivers(rest: string)
    ensures Payloads(Frames(Write(Ping) + rest)) == Payloads(Frames(rest))
  {
    hide DataOf, Split, BlankLine, Frames, Payloads;
    PingFrame();
    FrameOf(": ping", rest);
    assert Write(Ping) + rest == ": ping" + "\n\n" + rest;
    OnePayload(": ping", Frames(rest));
    assert [] + Payloads(Frames(rest)) == Payloads(Frames(rest));
  }

  /** Log records sent as frames, with keep-alive comments anywhere between them,
      are delivered in order and nothing else is. */
  lemma {:induction false} StreamDelivers(xs: seq<Sent>)
    requires forall p | p in Logs(xs) :: OneLine(p)
    ensures Payloads(Frames(Stream(xs))) == Logs(xs)
    decreases |xs|
  {
    if xs == [] {
      assert BlankLine("") < 0;
    } else {
      hide OneLine, Frames, Payloads, Write;
      var rest := Stream(xs[1..]);
      assert forall p | p in Logs(xs[1..]) :: p in Logs(xs);
      StreamDelivers(xs[1..]);
      match xs[0] {
        case Log(p) =>
          assert p in Logs(xs) by { assert Logs(xs)[0] == p; }
          LogDelivers(p, rest);
        case Ping =>
          PingDelivers(rest);
      }
    }
  }

  lemma OnePayload(frame: string, rest: seq<string>)
    ensures Payloads([frame] + rest)
         == (match DataOf(Split(frame, '\n')) case Nowhere => [] case At(p) => [p]) + Payloads(rest)
  {
    assert ([frame] + rest)[1..] == rest;
  }

  /** Of a frame with several data lines the first is delivered; one without none. */
  lemma {:induction false} FirstDataLine(lines: seq<string>, i: nat)
    requires i <= |lines| && forall j | 0 <= j < i :: !(|lines[j]| >= 5 && lines[j][..5] == "data:")
    ensures i == |lines| ==> DataOf(lines) == Nowhere
    ensures i < |lines| && |lines[i]| >= 5 && lines[i][..5] == "data:" ==> DataOf(lines) == At(Trim(lines[i][5..], JsSpace))
  {
    hide Trim;
    if i > 0 {
      assert forall j | 0 <= j < i - 1 :: lines[1..][j] == lines[j + 1];
      FirstDataLine(lines[1..], i - 1);
    }
  }

  lemma {:induction false} DeliveredIsOneLine(lines: seq<string>)
    requires forall i | 0 <= i < |lines| :: '\n' !in lines[i]
    ensures DataOf(lines).At? ==> OneLine(DataOf(lines).payload)
  {
    if lines != [] {
      if IsData(lines[0]) {
        hide Trim, JsSpace;
        var line := lines[0];
        var lead, trail := TrimParts(line[5..], JsSpace);
        var p := Trim(line[5..], JsSpace);
        assert line[5..] == lead + p + trail;
        forall j | 0 <= j < |p| ensures p[j] != '\n' {
          assert p[j] == line[5..][|lead| + j] == line[5 + |lead| + j];
        }
      } else {
        DeliveredIsOneLine(lines[1..]);
      }
    }
  }

  lemma {:induction false} PayloadsAreOneLine(frames: seq<string>)
    ensures forall p | p in Payloads(frames) :: OneLine(p)
  {
    hide OneLine;
    if frames != [] {
      PayloadsAreOneLine(frames[1..]);
      DeliveredIsOneLine(Split(frames[0], '\n'));
    }
  }

  /** The framing is inverted exactly on payloads of one trimmed line: if any
      other is sent, what arrives differs from what was sent. */
  lemma StreamInvertsIff(xs: seq<Sent>)
    ensures Payloads(Frames(Stream(xs))) == Logs(xs) <==> forall p | p in Logs(xs) :: OneLine(p)
  {
    hide OneLine, Payloads, Logs, Stream, Frames;
    PayloadsAreOneLine(Frames(Stream(xs)));
    if forall p | p in Logs(xs) :: OneLine(p) {
      StreamDelivers(xs);
    }
  }

  /** End to end: however the network cuts the server's bytes, the records that
      were sent are delivered, in order. */
  lemma ReaderDeliversLogs(xs: seq<Sent>, chunks: seq<string>)
    requires Concat(chunks) == Stream(xs) && forall p | p in Logs(xs) :: OneLine(p)
    ensures Deliver("", chunks) == Logs(xs)
  {
    hide Payloads, Logs, OneLine, Stream, Frames;
    NoFrames();
    ChunksDoNotMatter("", chunks);
    assert "" + Concat(chunks) == Stream(xs);
    StreamDelivers(xs);
  }

  /** The pump loop: a fresh reader is fed chunk by chunk. Whatever the chunks are,
      what comes out is what the text they make up holds; if that is what a server
      wrote, it is the records that were sent. */
  method PumpAll(chunks: seq<string>) returns (payloads: seq<string>)
    ensures payloads == Payloads(Frames(Concat(chunks)))
    ensures forall xs | Stream(xs) == Concat(chunks) && (forall p | p in Logs(xs) :: OneLine(p)) :: payloads == Logs(xs)
  {
    hide Payloads, Frames, Rest, Logs, OneLine, Stream;
    NoFrames();
    ChunksDoNotMatter("", chunks);
    assert "" + Concat(chunks) == Concat(chunks);
    forall xs | Stream(xs) == Concat(chunks) && (forall p | p in Logs(xs) :: OneLine(p)) ensures Deliver("", chunks) == Logs(xs) {
      ReaderDeliversLogs(xs, chunks);
    }
    var reader := new Reader();
    payloads := [];
    assert chunks[0..] == chunks && [] + Deliver("", chunks) == Deliver("", chunks);
    for i := 0 to |chunks|
      invariant Deliver("", chunks) == payloads + Deliver(reader.buf, chunks[i..])
    {
      assert chunks[i..][1..] == chunks[i + 1..];
      var more := reader.OnChunk(chunks[i]);
      payloads := payloads + more;
    }
    assert chunks[|chunks|..] == [];
  }
}
