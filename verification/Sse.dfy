/** The event stream on the wire: framing on the router (code/api.go), line parsing in Home Assistant
    (custom_components/spr/api.py). Text is taken after UTF-8 decoding. */
module Sse {
  import opened Common
  import opened Text
  import Hub

  /** What the write loop of `handleEvents` can choose to send. */
  datatype Output = Keepalive | Data(msg: string)

  /** The one non-empty line of a frame. */
  function FrameLine(o: Output): string {
    match o
    case Keepalive => ": keepalive"
    case Data(msg) => "data: " + msg
  }

  function Frame(o: Output): string {
    FrameLine(o) + "\n" + "\n"
  }

  function Stream(outputs: seq<Output>): string {
    if outputs == [] then [] else Stream(outputs[..|outputs| - 1]) + Frame(outputs[|outputs| - 1])
  }

  /** What goes over the wire: a comment line for a keepalive, a data field for a message, a blank line after each, one
      after the other. */
  lemma {:induction false} StreamIsOnTheWire(a: seq<Output>, b: seq<Output>, msg: string)
    ensures Stream([]) == ""
    ensures Stream([Keepalive]) == ": keepalive\n\n" && Stream([Data(msg)]) == "data: " + msg + "\n\n"
    ensures Stream(a + b) == Stream(a) + Stream(b)
  {
    FrameIsOnTheWire(msg);
    OneFrame(Keepalive);
    OneFrame(Data(msg));
    hide Frame;
    if b == [] {
      assert a + b == a;
    } else {
      assert (a + b)[..|a + b| - 1] == a + b[..|b| - 1];
      StreamIsOnTheWire(a, b[..|b| - 1], msg);
    }
  }

  lemma OneFrame(o: Output)
    ensures Stream([o]) == Frame(o)
  {
    hide Frame;
    assert [o][..0] == [];
  }

  lemma FrameIsOnTheWire(msg: string)
    ensures Frame(Keepalive) == ": keepalive\n\n" && Frame(Data(msg)) == "data: " + msg + "\n\n"
  {
    assert ": keepalive" + "\n" + "\n" == ": keepalive\n\n";
    assert "data: " + msg + "\n" + "\n" == "data: " + msg + "\n\n";
  }

  method HandleEvents(chosen: seq<Output>) returns (written: string)
    ensures written == Stream(chosen)
  {
    written := "";
    for i := 0 to |chosen|
      invariant written == Stream(chosen[..i])
    {
      assert chosen[..i + 1][..i] == chosen[..i];
      match chosen[i] {
        case Keepalive =>
          assert ": keepalive\n\n" == Frame(Keepalive);
          written := written + ": keepalive\n\n";
        case Data(msg) =>
          assert "data: " + msg + "\n\n" == Frame(Data(msg));
          written := written + ("data: " + msg + "\n\n");
      }
    }
    assert chosen[..|chosen|] == chosen;
  }

  // ---- the client ----

  /** Position of the first newline, or the length. */
  function LineEnd(s: string): (n: nat)
    ensures n <= |s|
    ensures forall i | 0 <= i < n :: s[i] != '\n'
    ensures n < |s| ==> s[n] == '\n'
  {
    if s == [] || s[0] == '\n' then 0 else 1 + LineEnd(s[1..])
  }

  /** The lines of a stream, each with its newline; an unfinished last line is delivered as it is. */
  function Lines(s: string): seq<string>
    decreases |s|
  {
    var n := LineEnd(s);
    if s == [] then [] else if n == |s| then [s] else [s[..n + 1]] + Lines(s[n + 1..])
  }

  function Joined(lines: seq<string>): string {
    if lines == [] then [] else lines[0] + Joined(lines[1..])
  }

  /** A line ends with its only newline; the last one may have none. */
  ghost predicate IsLine(line: string, isLast: bool) {
    && line != [] && (forall k | 0 <= k < |line| - 1 :: line[k] != '\n')
    && (isLast || line[|line| - 1] == '\n')
  }

  /** The lines are the stream cut after each newline. */
  lemma {:induction false} LinesCutTheStream(s: string)
    ensures Joined(Lines(s)) == s
    ensures forall i | 0 <= i < |Lines(s)| :: IsLine(Lines(s)[i], i == |Lines(s)| - 1)
    decreases |s|
  {
    hide Joined;
    var n := LineEnd(s);
    if s == [] {
      JoinedCons("", []);
    } else if n == |s| {
      JoinedCons(s, []);
      assert s + "" == s && [s] + [] == [s];
    } else {
      var first, rest := s[..n + 1], s[n + 1..];
      LinesCutTheStream(rest);
      JoinedCons(first, Lines(rest));
      assert Lines(s) == [first] + Lines(rest);
      assert s == first + rest;
      assert IsLine(first, false);
      hide Lines, IsLine;
      forall i | 0 <= i < |Lines(s)| ensures IsLine(Lines(s)[i], i == |Lines(s)| - 1) {
        if i > 0 {
          assert Lines(s)[i] == Lines(rest)[i - 1];
        } else {
          FinishedLine(first);
        }
      }
    }
  }

  lemma FinishedLine(line: string)
    requires IsLine(line, false)
    ensures IsLine(line, true)
  {
  }

  lemma JoinedCons(first: string, rest: seq<string>)
    ensures Joined([]) == "" && Joined([first] + rest) == first + Joined(rest)
  {
    assert ([first] + rest)[1..] == rest;
  }

  /** The event one line carries, if any; `loads` stands for the JSON parser, which may reject. */
  function LineEvent<J>(line: string, loads: string -> Option<J>): Option<J> {
    var text := Trim(PySpace, line);
    if "data:" <= text then loads(Trim(PySpace, text[|"data:"|..])) else None
  }

  function Events<J>(lines: seq<string>, loads: string -> Option<J>): seq<J> {
    if lines == [] then []
    else
      var before := Events(lines[..|lines| - 1], loads);
      var event := LineEvent(lines[|lines| - 1], loads);
      if event.Some? then before + [event.value] else before
  }

  /** The loop of `listen_events`; the callback's calls are collected. */
  method ListenEvents<J>(stream: string, loads: string -> Option<J>) returns (delivered: seq<J>)
    ensures delivered == Events(Lines(stream), loads)
  {
    delivered := [];
    var lines := Lines(stream);
    for i := 0 to |lines|
      invariant delivered == Events(lines[..i], loads)
    {
      assert lines[..i + 1][..i] == lines[..i];
      var line := Trim(PySpace, lines[i]);
      if !("data:" <= line) {
        continue;
      }
      var event := loads(Trim(PySpace, line[|"data:"|..]));
      if event.None? {
        continue;
      }
      delivered := delivered + [event.value];
    }
    assert lines[..|lines|] == lines;
  }

  // ---- the round trip ----

  /** What JSON objects satisfy: no raw newline, and no white space at either end. */
  ghost predicate Framable(msg: string) {
    msg != [] && Tight(PySpace, msg) && forall i | 0 <= i < |msg| :: msg[i] != '\n'
  }

  ghost predicate AllFramable(outputs: seq<Output>) {
    forall o | o in outputs && o.Data? :: Framable(o.msg)
  }

  /** The messages of a stream that the JSON parser accepts, in order. */
  function Parsed<J>(outputs: seq<Output>, loads: string -> Option<J>): seq<J> {
    if outputs == [] then []
    else
      var before, last := Parsed(outputs[..|outputs| - 1], loads), outputs[|outputs| - 1];
      if last.Data? && loads(last.msg).Some? then before + [loads(last.msg).value] else before
  }

  /** They are those of each output in turn; a keepalive has none. */
  lemma {:induction false} ParsedIsOfEach<J>(a: seq<Output>, b: seq<Output>, msg: string, loads: string -> Option<J>)
    ensures Parsed([], loads) == [] && Parsed([Keepalive], loads) == []
    ensures Parsed([Data(msg)], loads) == match loads(msg) case None => [] case Some(event) => [event]
    ensures Parsed(a + b, loads) == Parsed(a, loads) + Parsed(b, loads)
  {
    assert [Keepalive][..0] == [] && [Data(msg)][..0] == [];
    if b == [] {
      assert a + b == a;
    } else {
      assert (a + b)[..|a + b| - 1] == a + b[..|b| - 1];
      ParsedIsOfEach(a, b[..|b| - 1], msg, loads);
    }
  }

  lemma {:induction false} EventsConcat<J>(a: seq<string>, b: seq<string>, loads: string -> Option<J>)
    ensures Events(a + b, loads) == Events(a, loads) + Events(b, loads)
  {
    hide LineEvent;
    if b == [] {
      assert a + b == a;
    } else {
      assert (a + b)[..|a + b| - 1] == a + b[..|b| - 1];
      EventsConcat(a, b[..|b| - 1], loads);
    }
  }

  lemma {:induction false} LineEndOf(line: string, rest: string)
    requires forall i | 0 <= i < |line| :: line[i] != '\n'
    ensures LineEnd(line + "\n" + rest) == |line|
  {
    if line != [] {
      LineEndOf(line[1..], rest);
      assert (line + "\n" + rest)[1..] == line[1..] + "\n" + rest;
    }
  }

  lemma NoLines()
    ensures Lines("") == []
  {
  }

  lemma FirstLine(line: string, rest: string)
    requires forall i | 0 <= i < |line| :: line[i] != '\n'
    ensures Lines(line + "\n" + rest) == [line + "\n"] + Lines(rest)
  {
    LineEndOf(line, rest);
    var s := line + "\n" + rest;
    assert s[..|line| + 1] == line + "\n" && s[|line| + 1..] == rest;
  }

  lemma BlankLine()
    ensures Lines("\n") == ["\n"]
  {
    assert "" + "\n" == "\n" && "\n" + "" == "\n";
    FirstLine("", "");
  }

  lemma SplitFirst(a: string) returns (line: string, rest: string)
    requires a != [] && a[|a| - 1] == '\n'
    ensures forall i | 0 <= i < |line| :: line[i] != '\n'
    ensures a == line + "\n" + rest
    ensures rest != [] ==> rest[|rest| - 1] == '\n'
  {
    var n := LineEnd(a);
    line, rest := a[..n], a[n + 1..];
  }

  /** Text ending in a newline splits into lines on its own. */
  lemma {:induction false} LinesConcat(a: string, b: string)
    requires a != [] ==> a[|a| - 1] == '\n'
    ensures Lines(a + b) == Lines(a) + Lines(b)
    decreases |a|
  {
    hide Lines;
    if a == [] {
      assert a + b == b;
      NoLines();
    } else {
      var line, rest := SplitFirst(a);
      assert a + b == line + "\n" + (rest + b);
      FirstLine(line, rest);
      FirstLine(line, rest + b);
      LinesConcat(rest, b);
    }
  }

  lemma {:induction false} StreamEndsLine(outputs: seq<Output>)
    ensures Stream(outputs) != [] ==> Stream(outputs)[|Stream(outputs)| - 1] == '\n'
  {
    if outputs != [] {
      assert Frame(outputs[|outputs| - 1])[|Frame(outputs[|outputs| - 1])| - 1] == '\n';
    }
  }

  /** The event of a line, from the white space around its parts. */
  lemma FieldEvent<J>(line: string, gap: string, core: string, after: string, loads: string -> Option<J>)
    requires line == "data:" + gap + core + after
    requires Blank(PySpace, gap) && Blank(PySpace, after) && Tight(PySpace, core) && core != []
    ensures LineEvent(line, loads) == loads(core)
  {
    hide Trim;
    var text := "data:" + gap + core;
    assert line == "" + text + after;
    assert text[0] == 'd' && text[|text| - 1] == core[|core| - 1];
    TrimCore(PySpace, "", text, after);
    assert text[|"data:"|..] == gap + core + "";
    TrimCore(PySpace, gap, core, "");
  }

  /** A line of the router's carries its message. */
  lemma DataLine<J>(msg: string, margin: string, loads: string -> Option<J>)
    requires Framable(msg) && Blank(PySpace, margin)
    ensures LineEvent("data: " + msg + margin, loads) == loads(msg)
  {
    assert "data: " + msg + margin == "data:" + " " + msg + margin;
    FieldEvent("data: " + msg + margin, " ", msg, margin, loads);
  }

  /** Empty lines and keepalives carry nothing. */
  lemma NoEvent<J>(line: string, loads: string -> Option<J>)
    requires line == "\n" || line == ": keepalive\n"
    ensures LineEvent(line, loads) == None
  {
    assert PySpace('\n');
    if line == "\n" {
      assert line == "\n" + "" + "";
      TrimCore(PySpace, "\n", "", "");
    } else {
      assert line == "" + ": keepalive" + "\n";
      TrimCore(PySpace, "", ": keepalive", "\n");
    }
  }

  /** A finished line delivers its frame's message, or nothing. */
  lemma LineDelivers<J>(o: Output, loads: string -> Option<J>)
    requires AllFramable([o])
    ensures LineEvent(FrameLine(o) + "\n", loads) == if o.Data? then loads(o.msg) else None
    ensures forall i | 0 <= i < |FrameLine(o)| :: FrameLine(o)[i] != '\n'
  {
    hide LineEvent;
    assert o in [o];
    assert PySpace('\n');
    if o.Data? {
      DataLine(o.msg, "\n", loads);
    } else {
      NoEvent(FrameLine(o) + "\n", loads);
    }
  }

  /** A line carries an event exactly when what is left of it without its margins starts with the field's name and the
      parser accepts the rest, its margins taken off too. */
  lemma LineEventExactly<J>(line: string, before: string, core: string, after: string, loads: string -> Option<J>)
    requires line == before + core + after
    requires Blank(PySpace, before) && Blank(PySpace, after) && Tight(PySpace, core)
    ensures if |core| >= 5 && core[..5] == "data:" then LineEvent(line, loads) == loads(Trim(PySpace, core[5..]))
            else LineEvent(line, loads) == None
  {
    hide Trim;
    TrimCore(PySpace, before, core, after);
  }

  lemma OneLine<J>(line: string, loads: string -> Option<J>)
    ensures var event := LineEvent(line, loads);
            Events([line], loads) == if event.Some? then [event.value] else []
  {
    hide LineEvent;
    assert [line][..0] == [];
  }

  lemma OneParsed<J>(o: Output, loads: string -> Option<J>)
    ensures Parsed([o], loads) == if o.Data? && loads(o.msg).Some? then [loads(o.msg).value] else []
  {
    assert [o][..0] == [];
  }

  /** One frame delivers its message, or nothing. */
  lemma FrameDelivers<J>(o: Output, loads: string -> Option<J>)
    requires AllFramable([o])
    ensures Events(Lines(Frame(o)), loads) == Parsed([o], loads)
  {
    var line := FrameLine(o);
    LineDelivers(o, loads);
    FirstLine(line, "\n");
    BlankLine();
    NoEvent("\n", loads);
    hide LineEvent, Lines, FrameLine, Parsed, Events;
    EventsConcat([line + "\n"], ["\n"], loads);
    OneLine(line + "\n", loads);
    OneLine("\n", loads);
    OneParsed(o, loads);
  }

  /** The client gets exactly the messages the router sent, in order, through any keepalives between. */
  lemma {:induction false} StreamRoundTrip<J>(outputs: seq<Output>, loads: string -> Option<J>)
    requires AllFramable(outputs)
    ensures Events(Lines(Stream(outputs)), loads) == Parsed(outputs, loads)
  {
    hide LineEnd, LineEvent, Frame;
    if outputs != [] {
      var before, last := outputs[..|outputs| - 1], outputs[|outputs| - 1];
      StreamRoundTrip(before, loads);
      StreamEndsLine(before);
      LinesConcat(Stream(before), Frame(last));
      EventsConcat(Lines(Stream(before)), Lines(Frame(last)), loads);
      FrameDelivers(last, loads);
      assert [last][..0] == [];
    }
  }

  // ---- a connection that drops ----

  /** No unfinished message parses; true of JSON objects, whose closing brace comes last. */
  ghost predicate RejectsUnfinished<J(!new)>(outputs: seq<Output>, loads: string -> Option<J>) {
    forall o, k | o in outputs && o.Data? && 0 <= k < |o.msg| :: loads(Trim(PySpace, o.msg[..k])) == None
  }

  lemma EmptyField<J>(line: string, gap: string, loads: string -> Option<J>)
    requires line == "data:" + gap && Blank(PySpace, gap)
    ensures LineEvent(line, loads) == loads("")
  {
    hide Trim;
    assert line == "" + "data:" + gap;
    TrimCore(PySpace, "", "data:", gap);
    assert "data:"[|"data:"|..] == "" + "" + "";
    TrimCore(PySpace, "", "", "");
  }

  /** A line cut short carries the trimmed part of its message. */
  lemma CutLine<J>(part: string, loads: string -> Option<J>)
    ensures LineEvent("data: " + part, loads) == loads(Trim(PySpace, part))
  {
    var line := "data: " + part;
    var before, after := TrimParts(PySpace, part);
    TrimIsTight(PySpace, part);
    var core := Trim(PySpace, part);
    hide Trim, LineEvent;
    if core == [] {
      assert line == "data:" + (" " + before + after);
      EmptyField(line, " " + before + after, loads);
    } else {
      assert line == "data:" + (" " + before) + core + after;
      FieldEvent(line, " " + before, core, after, loads);
    }
  }

  /** A line too short to name the field carries nothing. */
  lemma ShortLine<J>(line: string, loads: string -> Option<J>)
    requires line <= "data"
    ensures LineEvent(line, loads) == None
  {
    assert "" + line + "" == line;
    TrimCore(PySpace, "", line, "");
  }

  lemma CommentLine<J>(line: string, loads: string -> Option<J>)
    requires line <= ": keepalive"
    ensures LineEvent(line, loads) == None
  {
    if line == ": " {
      TrimCore(PySpace, "", ":", " ");
      assert "" + ":" + " " == line;
    } else {
      assert "" + line + "" == line;
      TrimCore(PySpace, "", line, "");
    }
  }

  lemma LoneLine(line: string)
    requires forall i | 0 <= i < |line| :: line[i] != '\n'
    ensures Lines(line) == if line == [] then [] else [line]
  {
  }

  /** A frame's line, cut before its newline, delivers its message or nothing. */
  lemma CutFrameLine<J(!new)>(o: Output, cut: nat, loads: string -> Option<J>)
    requires AllFramable([o]) && RejectsUnfinished([o], loads) && cut <= |FrameLine(o)|
    ensures LineEvent(FrameLine(o)[..cut], loads) in {None, if o.Data? then loads(o.msg) else None}
  {
    hide LineEvent;
    assert o in [o];
    var part := FrameLine(o)[..cut];
    if o.Keepalive? {
      CommentLine(part, loads);
    } else if cut < 5 {
      ShortLine(part, loads);
    } else if cut == 5 {
      assert part == "data:" + "";
      EmptyField(part, "", loads);
      assert o.msg[..0] == "";
      assert Trim(PySpace, o.msg[..0]) == "";
    } else {
      var k := cut - 6;
      assert part == "data: " + o.msg[..k];
      CutLine(o.msg[..k], loads);
      if k == |o.msg| {
        assert o.msg[..k] == o.msg == "" + o.msg + "";
        TrimCore(PySpace, "", o.msg, "");
      }
    }
  }

  /** The lines of a frame cut before its last newline. */
  lemma CutFrameLines(o: Output, cut: nat)
    requires cut < |Frame(o)|
    requires forall i | 0 <= i < |FrameLine(o)| :: FrameLine(o)[i] != '\n'
    ensures var line := FrameLine(o);
            Lines(Frame(o)[..cut]) == if cut == 0 then [] else if cut <= |line| then [line[..cut]] else [line + "\n"]
  {
    var line := FrameLine(o);
    hide FrameLine, Lines;
    if cut <= |line| {
      assert Frame(o)[..cut] == line[..cut];
      LoneLine(line[..cut]);
    } else {
      assert Frame(o)[..cut] == line + "\n" + "";
      FirstLine(line, "");
      NoLines();
    }
  }

  /** A frame cut anywhere delivers its message or nothing. */
  lemma CutFrame<J(!new)>(o: Output, cut: nat, loads: string -> Option<J>)
    requires AllFramable([o]) && RejectsUnfinished([o], loads) && cut <= |Frame(o)|
    ensures Events(Lines(Frame(o)[..cut]), loads) in {[], Parsed([o], loads)}
  {
    hide LineEvent, Lines, FrameLine, Parsed, RejectsUnfinished, AllFramable;
    if cut == |Frame(o)| {
      assert Frame(o)[..cut] == Frame(o);
      FrameDelivers(o, loads);
    } else {
      LineDelivers(o, loads);
      CutFrameLines(o, cut);
      OneParsed(o, loads);
      var line := FrameLine(o);
      if cut > |line| {
        OneLine(line + "\n", loads);
      } else if cut > 0 {
        OneLine(line[..cut], loads);
        CutFrameLine(o, cut, loads);
      }
    }
  }

  lemma CutLastFrame<J(!new)>(before: seq<Output>, last: Output, cut: nat, loads: string -> Option<J>) returns (n: nat)
    requires AllFramable(before) && AllFramable([last]) && RejectsUnfinished([last], loads) && cut <= |Frame(last)|
    ensures n <= |before| + 1
    ensures Events(Lines(Stream(before) + Frame(last)[..cut]), loads) == Parsed((before + [last])[..n], loads)
  {
    hide LineEnd, Lines, LineEvent, Frame;
    var whole, part := Stream(before), Frame(last)[..cut];
    StreamEndsLine(before);
    LinesConcat(whole, part);
    EventsConcat(Lines(whole), Lines(part), loads);
    StreamRoundTrip(before, loads);
    CutFrame(last, cut, loads);
    n := if Events(Lines(part), loads) == [] then |before| else |before| + 1;
    assert (before + [last])[..|before|] == before;
    assert (before + [last])[..|before| + 1] == before + [last];
    assert [last][..0] == [];
  }

  /** However a connection drops, the client has got the first few messages and nothing else. */
  lemma {:induction false} CutStream<J(!new)>(outputs: seq<Output>, cut: nat, loads: string -> Option<J>)
    returns (n: nat)
    requires AllFramable(outputs) && RejectsUnfinished(outputs, loads) && cut <= |Stream(outputs)|
    ensures n <= |outputs|
    ensures Events(Lines(Stream(outputs)[..cut]), loads) == Parsed(outputs[..n], loads)
  {
    hide LineEnd, LineEvent, Frame, Framable, Parsed, Events, Lines;
    if outputs == [] {
      n := 0;
      StreamRoundTrip(outputs, loads);
    } else {
      var k := |outputs| - 1;
      var before, last := outputs[..k], outputs[k];
      var whole := Stream(before);
      if cut <= |whole| {
        assert Stream(outputs)[..cut] == whole[..cut];
        n := CutStream(before, cut, loads);
        assert before[..n] == outputs[..n];
      } else {
        assert Stream(outputs)[..cut] == whole + Frame(last)[..cut - |whole|];
        n := CutLastFrame(before, last, cut - |whole|, loads);
        assert before + [last] == outputs;
      }
    }
  }

  // ---- from the hub to the client ----

  function Messages(outputs: seq<Output>): seq<string> {
    if outputs == [] then []
    else
      var before, last := Messages(outputs[..|outputs| - 1]), outputs[|outputs| - 1];
      if last.Data? then before + [last.msg] else before
  }

  lemma {:induction false} MessagesParse<J>(outputs: seq<Output>, loads: string -> Option<J>)
    requires forall m | m in Messages(outputs) :: Framable(m) && loads(m).Some?
    ensures AllFramable(outputs)
    ensures Parsed(outputs, loads) ==
            seq(|Messages(outputs)|, i requires 0 <= i < |Messages(outputs)| => loads(Messages(outputs)[i]).value)
  {
    hide Framable;
    if outputs != [] {
      var before, last := outputs[..|outputs| - 1], outputs[|outputs| - 1];
      MessagesParse(before, loads);
      assert outputs == before + [last];
      if last.Data? {
        assert last.msg in Messages(outputs);
      }
    }
  }

  /** Hub, framing and parsing together: what a client is given are the first of the broadcasts its
      subscription accepted, in the order they were made. */
  lemma ClientGetsBroadcasts<J>(ops: seq<Hub.Op<string>>, id: nat, outputs: seq<Output>, loads: string -> Option<J>)
    requires id in Hub.Run(ops) && Messages(outputs) == Hub.Run(ops)[id].received
    requires forall op | op in ops && op.Broadcast? :: Framable(op.msg) && loads(op.msg).Some?
    ensures var got, ks := Events(Lines(Stream(outputs)), loads), Hub.Accepted(ops, id, |ops|);
            && Hub.Increasing(ks, |ops|) && |got| == |Hub.Run(ops)[id].received| <= |ks|
            && forall i | 0 <= i < |got| :: ops[ks[i]].Broadcast? && loads(ops[ks[i]].msg) == Some(got[i])
  {
    Hub.Delivery(ops, id, |ops|);
    assert ops[..|ops|] == ops;
    hide Hub.Run, Hub.Accepted, Lines, Events, Parsed, Messages, Framable;
    var sub, ks := Hub.Run(ops)[id], Hub.Accepted(ops, id, |ops|);
    forall i | 0 <= i < |sub.received| ensures sub.received[i] == ops[ks[i]].msg {
      assert (sub.received + sub.queue)[i] == ops[ks[i]].msg;
    }
    forall m | m in sub.received ensures Framable(m) && loads(m).Some? {
      var i :| 0 <= i < |sub.received| && sub.received[i] == m;
      assert ops[ks[i]] in ops;
    }
    MessagesParse(outputs, loads);
    StreamRoundTrip(outputs, loads);
  }
}
