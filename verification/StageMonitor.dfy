/** The stage monitor: it tails the event log by size and waits for a set of agents to
    complete. The size is taken before the text is read, so the log may have grown between. */
module StageMonitor {
  import opened TextLines
  import opened EventLog

  // ----- Sizes are raw bytes, positions are characters read -----

  /** Bytes of a character in UTF-8. */
  function Width(c: char): (w: nat)
    ensures w >= 1
    ensures w == 1 <==> IsAscii(c)
  {
    if c < '\U{80}' then 1 else if c < '\U{800}' then 2 else if c < '\U{10000}' then 3 else 4
  }

  predicate IsAscii(c: char) {
    c < '\U{80}'
  }

  predicate AllAscii(s: string) {
    forall i :: 0 <= i < |s| ==> IsAscii(s[i])
  }

  /** What a file holds: the UTF-8 form of a character, or `1 + more` bytes that are none, which
      are read as one replacement character. */
  datatype Unit = Char(c: char) | Invalid(more: nat)

  function Size(u: Unit): (n: nat)
    ensures n >= 1
  {
    match u
    case Char(c) => Width(c)
    case Invalid(more) => 1 + more
  }

  /** `st_size` */
  function Bytes(raw: seq<Unit>): nat {
    if raw == [] then 0 else Size(raw[0]) + Bytes(raw[1..])
  }

  function Decoded(raw: seq<Unit>): string {
    seq(|raw|, i requires 0 <= i < |raw| => if raw[i].Char? then raw[i].c else '\U{FFFD}')
  }

  /** `read_text(encoding="utf-8", errors="replace")` */
  function ReadRaw(raw: seq<Unit>): string {
    ReadText(Decoded(raw))
  }

  predicate IsPair(raw: seq<Unit>, i: int) {
    0 < i < |raw| && raw[i - 1] == Char('\r') && raw[i] == Char('\n')
  }

  /** Each unit is one byte, and no carriage return is followed by a newline. */
  predicate OneByteEach(raw: seq<Unit>) {
    && (forall i :: 0 <= i < |raw| ==> Size(raw[i]) == 1)
    && (forall i :: 0 < i < |raw| ==> !IsPair(raw, i))
  }

  lemma OneByteEachStep(raw: seq<Unit>)
    requires raw != []
    ensures OneByteEach(raw) <==> Size(raw[0]) == 1 && !IsPair(raw, 1) && OneByteEach(raw[1..])
  {
    var rest := raw[1..];
    if OneByteEach(raw) {
      forall i | 0 <= i < |rest| ensures Size(rest[i]) == 1 && !IsPair(rest, i) {
        assert rest[i] == raw[i + 1] && !IsPair(raw, i + 1);
      }
    }
    if Size(raw[0]) == 1 && !IsPair(raw, 1) && OneByteEach(rest) {
      forall i | 0 <= i < |raw| ensures Size(raw[i]) == 1 && !IsPair(raw, i) {
        if i > 0 {
          assert raw[i] == rest[i - 1] && !IsPair(rest, i - 1);
        }
      }
    }
  }

  /** Reading never gives more characters than bytes, and as many exactly when each unit is one
      byte and no pair is read as one newline. */
  lemma {:induction false} BytesAndCharacters(raw: seq<Unit>)
    ensures Bytes(raw) >= |ReadRaw(raw)|
    ensures Bytes(raw) == |ReadRaw(raw)| <==> OneByteEach(raw)
    decreases |raw|
  {
    hide OneByteEach;
    if raw == [] {
      NothingOneByte();
    } else {
      OneByteEachStep(raw);
      BytesAndCharacters(raw[1..]);
      assert Decoded(raw)[1..] == Decoded(raw[1..]);
      if IsPair(raw, 1) {
        assert Decoded(raw)[2..] == Decoded(raw[2..]);
        assert raw[1..][1..] == raw[2..];
        BytesAndCharacters(raw[2..]);
      } else {
        assert Decoded(raw)[0] == '\r' ==> raw[0] == Char('\r');
        assert |raw| > 1 && Decoded(raw)[1] == '\n' ==> raw[1] == Char('\n');
      }
    }
  }

  lemma NothingOneByte()
    ensures OneByteEach([])
  {
  }

  /** `text[last:]` */
  function From(text: string, last: nat): string {
    if last <= |text| then text[last..] else ""
  }

  /** `_tail_new` on a file that is there: the new lines, and the offset for the next call. */
  function TailNew(size: nat, text: string, last: nat): (seq<string>, nat) {
    if size <= last then ([], last) else (PlainLines(From(text, last)), size)
  }

  /** The offset never falls: it is the largest size seen. A second look at a file that has not grown
      delivers nothing, whatever can be read of it by then. */
  lemma OffsetIsLargestSize(size: nat, text: string, last: nat, later: string)
    ensures var next := TailNew(size, text, last).1;
      && next == (if size <= last then last else size)
      && TailNew(size, later, next) == ([], next)
      && (size > last ==> TailNew(size, text, last).0 == PlainLines(From(text, last)))
  {
    hide PlainLines;
  }

  /** After a look at `seen`, the tail of the grown file is just what can newly be read of it,
      exactly when there is nothing new or all that was seen is one byte a character, line breaks
      included: the offset is a number of bytes, but is used as one of characters read. */
  lemma TailIsExactIff(seen: seq<Unit>, added: seq<Unit>)
    ensures ReadRaw(seen) <= ReadRaw(seen + added)
    ensures var text, old_ := ReadRaw(seen + added), ReadRaw(seen);
      From(text, Bytes(seen)) == text[|old_|..] <==> text == old_ || OneByteEach(seen)
  {
    hide Bytes, OneByteEach, ReadText;
    BytesAndCharacters(seen);
    assert Decoded(seen + added) == Decoded(seen) + Decoded(added);
    ReadTextGrows(Decoded(seen), Decoded(added));
    FromIsRest(ReadRaw(seen + added), |ReadRaw(seen)|, Bytes(seen));
    PrefixLength(ReadRaw(seen), ReadRaw(seen + added));
  }

  /** Taking from a later place gives the same only when the place is the same or nothing is left. */
  lemma FromIsRest(text: string, n: nat, m: nat)
    requires n <= |text| && n <= m
    ensures From(text, m) == text[n..] <==> n == m || n == |text|
  {
    assert |From(text, m)| == if m <= |text| then |text| - m else 0;
  }

  lemma PrefixLength(a: string, b: string)
    requires a <= b
    ensures a == b <==> |a| == |b|
  {
  }

  /** One accented letter in what was seen, and a character of what was added is lost. */
  lemma TailSkipsAfterNonAscii()
    ensures From(ReadRaw([Char('\U{E9}'), Char('a'), Char('b')]), Bytes([Char('\U{E9}')])) == "b"
  {
    var raw := [Char('\U{E9}'), Char('a'), Char('b')];
    assert Decoded(raw) == "\U{E9}ab";
    ReadTextPlain(Decoded(raw));
    assert [Char('\U{E9}')][1..] == [];
    assert Bytes([Char('\U{E9}')]) == Size(Char('\U{E9}')) + Bytes([]) == 2;
    assert "\U{E9}ab"[2..] == "b";
  }

  /** All is ASCII, but the lines end in "\r\n": the second line loses its first character. */
  lemma TailSkipsAfterReturn()
    ensures var seen := [Char('a'), Char('\r'), Char('\n')];
      From(ReadRaw(seen + [Char('b'), Char('c'), Char('\r'), Char('\n')]), Bytes(seen)) == "c\n"
  {
    hide ReadText;
    var seen, added := [Char('a'), Char('\r'), Char('\n')], [Char('b'), Char('c'), Char('\r'), Char('\n')];
    assert seen[1..] == [Char('\r'), Char('\n')] && seen[1..][1..] == [Char('\n')] && seen[1..][1..][1..] == [];
    assert Bytes(seen) == 1 + Bytes(seen[1..]) == 2 + Bytes(seen[1..][1..]) == 3 + Bytes([]) == 3;
    assert Decoded(seen + added) == "a\r\nbc\r\n";
    ReturnsAreRead();
    assert "a\nbc\n"[3..] == "c\n";
  }

  lemma ReturnsAreRead()
    ensures ReadText("a\r\nbc\r\n") == "a\nbc\n"
  {
    ReadTextAfter("a", "\r\nbc\r\n");
    assert "a\r\nbc\r\n" == "a" + "\r\nbc\r\n";
    assert "\r\nbc\r\n"[2..] == "bc" + "\r\n";
    ReadTextAfter("bc", "\r\n");
    assert "\r\n"[2..] == "";
    assert "a" + ("\n" + ("bc" + "\n")) == "a\nbc\n";
  }

  // ----- Waiting for agents -----

  datatype Event = Completed(agent: string) | Gate | Ignored

  datatype Monitor = Monitor(wait: map<string, bool>, printed: seq<string>, last: nat)

  /** One event: an agent that is waited for and not marked is marked and printed. */
  function Mark(m: Monitor, e: Event): Monitor {
    if e.Completed? && e.agent in m.wait && !m.wait[e.agent] then
      m.(wait := m.wait[e.agent := true], printed := m.printed + [e.agent])
    else m
  }

  function MarkAll(m: Monitor, lines: seq<string>, decode: string -> Event): Monitor {
    if lines == [] then m else Mark(MarkAll(m, lines[..|lines| - 1], decode), decode(lines[|lines| - 1]))
  }

  function Observe(m: Monitor, size: nat, text: string, decode: string -> Event): Monitor {
    var (lines, last) := TailNew(size, text, m.last);
    MarkAll(m, lines, decode).(last := last)
  }

  /** The agents printed are the agents marked, each once. */
  ghost predicate Consistent(m: Monitor) {
    (forall i, j :: 0 <= i < j < |m.printed| ==> m.printed[i] != m.printed[j]) &&
    (forall a :: a in m.printed <==> a in m.wait && m.wait[a])
  }

  ghost predicate Reports(lines: seq<string>, decode: string -> Event, a: string) {
    exists i :: 0 <= i < |lines| && decode(lines[i]) == Completed(a)
  }

  lemma ReportsPush(lines: seq<string>, line: string, decode: string -> Event, a: string)
    ensures Reports(lines + [line], decode, a) <==> Reports(lines, decode, a) || decode(line) == Completed(a)
  {
    var all := lines + [line];
    assert all[|lines|] == line;
    assert forall i :: 0 <= i < |lines| ==> all[i] == lines[i];
  }

  lemma {:induction false} MarkAllMarks(m: Monitor, lines: seq<string>, decode: string -> Event)
    requires Consistent(m)
    ensures var t := MarkAll(m, lines, decode);
      Consistent(t) && t.wait.Keys == m.wait.Keys && m.printed <= t.printed && t.last == m.last &&
      forall a :: a in m.wait ==> (t.wait[a] <==> m.wait[a] || Reports(lines, decode, a))
  {
    hide Reports;
    if lines == [] {
      assert forall a :: !Reports(lines, decode, a) by {
        NoReports(decode);
      }
    } else {
      var init, line := lines[..|lines| - 1], lines[|lines| - 1];
      MarkAllMarks(m, init, decode);
      assert lines == init + [line];
      forall a | a in m.wait
        ensures Reports(lines, decode, a) <==> Reports(init, decode, a) || decode(line) == Completed(a)
      {
        ReportsPush(init, line, decode, a);
      }
    }
  }

  lemma NoReports(decode: string -> Event)
    ensures forall a :: !Reports([], decode, a)
  {
  }

  lemma MarkNone(m: Monitor, decode: string -> Event)
    ensures MarkAll(m, [], decode) == m
  {
  }

  lemma MarkAllNext(m: Monitor, lines: seq<string>, i: nat, decode: string -> Event)
    requires i < |lines|
    ensures MarkAll(m, lines[..i + 1], decode) == Mark(MarkAll(m, lines[..i], decode), decode(lines[i]))
  {
    assert lines[..i + 1][..i] == lines[..i];
  }

  class StageWatcher {
    var state: Monitor

    constructor (agents: set<string>)
      ensures Consistent(state) && state.wait == (map a | a in agents :: false)
    {
      state := Monitor(map a | a in agents :: false, [], 0);
    }

    /** The stage part of one turn of the monitor's loop; true when every agent is done. */
    method Turn(size: nat, text: string, decode: string -> Event) returns (done: bool)
      requires Consistent(state)
      modifies this
      ensures state == Observe(old(state), size, text, decode) && Consistent(state)
      ensures done <==> forall a :: a in state.wait ==> state.wait[a]
    {
      hide TailNew, Reports, MarkAll;
      var (lines, last) := TailNew(size, text, state.last);
      assert lines[..0] == [];
      MarkNone(state, decode);
      for i := 0 to |lines|
        invariant state == MarkAll(old(state), lines[..i], decode)
      {
        MarkAllNext(old(state), lines, i, decode);
        var e := decode(lines[i]);
        if e.Completed? && e.agent in state.wait && !state.wait[e.agent] {
          state := state.(wait := state.wait[e.agent := true], printed := state.printed + [e.agent]);
        }
      }
      assert lines[..|lines|] == lines;
      MarkAllMarks(old(state), lines, decode);
      state := state.(last := last);
      done := forall a | a in state.wait :: state.wait[a];
    }
  }

  // ----- Whole runs -----

  /** One look at the log: `whole` lines were there when the size was taken, and `extra` had
      come after them when the text was read. */
  datatype Look = Look(whole: nat, extra: seq<Unit>)

  ghost predicate LooksAt(bodies: seq<string>, looks: seq<Look>) {
    (forall i :: 0 <= i < |looks| ==> looks[i].whole <= |bodies|) &&
    (forall i, j :: 0 <= i < j < |looks| ==> looks[i].whole <= looks[j].whole)
  }

  function Chars(s: string): seq<Unit> {
    seq(|s|, i requires 0 <= i < |s| => Char(s[i]))
  }

  ghost function Run(m: Monitor, bodies: seq<string>, looks: seq<Look>, decode: string -> Event): Monitor
    requires LooksAt(bodies, looks)
  {
    if looks == [] then m
    else
      var before := Run(m, bodies, looks[..|looks| - 1], decode);
      var look := looks[|looks| - 1];
      var log := Written(bodies[..look.whole]);
      Observe(before, Bytes(Chars(log)), ReadRaw(Chars(log) + look.extra), decode)
  }

  ghost function LastWhole(looks: seq<Look>): nat {
    if looks == [] then 0 else looks[|looks| - 1].whole
  }

  ghost predicate IsLog(bodies: seq<string>) {
    forall b :: b in bodies ==> Unbroken(b) && AllAscii(b)
  }

  lemma {:induction false} WrittenIsAscii(bodies: seq<string>)
    requires IsLog(bodies)
    ensures AllAscii(Written(bodies)) && '\r' !in Written(bodies)
  {
    hide IsBreak;
    if bodies != [] {
      var body, rest := bodies[0], Written(bodies[1..]);
      assert body in bodies;
      WrittenIsAscii(bodies[1..]);
      ReturnBreaks();
      assert '\r' !in body;
      AsciiAppend(body, "\n");
      AsciiAppend(body + "\n", rest);
    }
  }

  lemma AsciiAppend(a: string, b: string)
    requires AllAscii(a) && AllAscii(b) && '\r' !in a && '\r' !in b
    ensures AllAscii(a + b) && '\r' !in a + b
  {
  }

  /** A log is read as it was written, whatever was added to it. */
  lemma LogIsRead(bodies: seq<string>, n: nat, extra: seq<Unit>)
    requires IsLog(bodies) && n <= |bodies|
    ensures var log := Written(bodies[..n]);
      Bytes(Chars(log)) == |log| && ReadRaw(Chars(log) + extra) == log + ReadRaw(extra)
  {
    hide Written;
    var log := Written(bodies[..n]);
    WrittenIsAscii(bodies[..n]);
    assert Decoded(Chars(log) + extra) == log + Decoded(extra);
    ReadTextAfter(log, Decoded(extra));
    AsciiBytes(log);
  }

  lemma {:induction false} AsciiBytes(s: string)
    requires AllAscii(s)
    ensures Bytes(Chars(s)) == |s|
  {
    if s != "" {
      assert Chars(s)[1..] == Chars(s[1..]);
      AsciiBytes(s[1..]);
    }
  }

  /** A look finds every line completed since the last one, and possibly more. */
  lemma NewLinesFound(bodies: seq<string>, from: nat, whole: nat, extra: string)
    requires IsLog(bodies) && from <= whole <= |bodies|
    ensures var log := Written(bodies[..whole]);
      From(log + extra, |Written(bodies[..from])|) == Written(bodies[from..whole]) + extra
      && bodies[from..whole] <= PlainLines(From(log + extra, |Written(bodies[..from])|))
      && (from == whole <==> |log| == |Written(bodies[..from])|)
  {
    hide PlainLines;
    var old_, new_ := Written(bodies[..from]), Written(bodies[from..whole]);
    assert bodies[..whole] == bodies[..from] + bodies[from..whole];
    WrittenAppend(bodies[..from], bodies[from..whole]);
    assert (old_ + new_ + extra)[|old_|..] == new_ + extra;
    LinesOfWritten(bodies[from..whole], extra);
  }

  /** The monitor has counted `n` lines, and has marked the agents they report. */
  ghost predicate Counted(m: Monitor, bodies: seq<string>, n: nat, decode: string -> Event)
    requires n <= |bodies|
  {
    Consistent(m) && m.last == |Written(bodies[..n])| &&
    forall a :: a in m.wait && Reports(bodies[..n], decode, a) ==> m.wait[a]
  }

  lemma {:induction false} ReportsSplit(bodies: seq<string>, from: nat, to: nat, lines: seq<string>,
    decode: string -> Event, a: string)
    requires from <= to <= |bodies| && bodies[from..to] <= lines
    requires Reports(bodies[..to], decode, a)
    ensures Reports(bodies[..from], decode, a) || Reports(lines, decode, a)
  {
    var i :| 0 <= i < to && decode(bodies[..to][i]) == Completed(a);
    if i < from {
      assert bodies[..from][i] == bodies[..to][i];
    } else {
      assert lines[i - from] == bodies[from..to][i - from] == bodies[..to][i];
    }
  }

  lemma OneLook(m: Monitor, bodies: seq<string>, from: nat, look: Look, decode: string -> Event)
    requires IsLog(bodies) && from <= look.whole <= |bodies| && Counted(m, bodies, from, decode)
    ensures var log := Written(bodies[..look.whole]);
      var t := Observe(m, Bytes(Chars(log)), ReadRaw(Chars(log) + look.extra), decode);
      Counted(t, bodies, look.whole, decode) && t.wait.Keys == m.wait.Keys
  {
    hide PlainLines, Written, IsLog, Reports, MarkAll, Bytes, ReadRaw, From;
    NewLinesFound(bodies, from, look.whole, ReadRaw(look.extra));
    LogIsRead(bodies, look.whole, look.extra);
    WrittenGrows(bodies, from, look.whole);
    var log := Written(bodies[..look.whole]);
    var lines := TailNew(|log|, log + ReadRaw(look.extra), m.last).0;
    MarkAllMarks(m, lines, decode);
    if from == look.whole {
      MarkNone(m, decode);
    } else {
      assert bodies[from..look.whole] <= lines;
      forall a | a in m.wait && Reports(bodies[..look.whole], decode, a)
        ensures MarkAll(m, lines, decode).wait[a]
      {
        ReportsSplit(bodies, from, look.whole, lines, decode, a);
      }
    }
  }

  /** On a log whose lines end in "\n" alone, after any looks, each taken when no append was in
      flight, every agent that is waited for and whose completion is among the lines counted is
      marked, and each marked agent was printed exactly once, however many lines were read twice. */
  lemma {:induction false} EveryStageOnce(agents: set<string>, bodies: seq<string>, looks: seq<Look>,
    decode: string -> Event)
    requires IsLog(bodies) && LooksAt(bodies, looks)
    ensures var m := Run(Monitor(map a | a in agents :: false, [], 0), bodies, looks, decode);
      Consistent(m) && m.wait.Keys == agents &&
      forall a :: a in agents && Reports(bodies[..LastWhole(looks)], decode, a) ==> m.wait[a]
    ensures Counted(Run(Monitor(map a | a in agents :: false, [], 0), bodies, looks, decode), bodies, LastWhole(looks),
      decode)
  {
    hide PlainLines, Written, IsLog, Bytes, ReadRaw, From;
    if looks == [] {
      assert bodies[..0] == [];
      NothingWritten();
    } else {
      hide Observe, Counted;
      var init, look := looks[..|looks| - 1], looks[|looks| - 1];
      EveryStageOnce(agents, bodies, init, decode);
      OneLook(Run(Monitor(map a | a in agents :: false, [], 0), bodies, init, decode), bodies, LastWhole(init), look,
        decode);
      CountedMarks(Run(Monitor(map a | a in agents :: false, [], 0), bodies, looks, decode), bodies, look.whole,
        decode);
    }
  }

  lemma CountedMarks(m: Monitor, bodies: seq<string>, n: nat, decode: string -> Event)
    requires n <= |bodies| && Counted(m, bodies, n, decode)
    ensures Consistent(m) && forall a :: a in m.wait && Reports(bodies[..n], decode, a) ==> m.wait[a]
  {
  }

  lemma NothingWritten()
    ensures Written([]) == ""
  {
  }

  lemma WrittenGrows(bodies: seq<string>, from: nat, to: nat)
    requires from <= to <= |bodies|
    ensures |Written(bodies[..from])| <= |Written(bodies[..to])|
  {
    assert bodies[..to] == bodies[..from] + bodies[from..to];
    WrittenAppend(bodies[..from], bodies[from..to]);
  }
}
