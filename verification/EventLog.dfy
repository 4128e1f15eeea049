/** The dashboard event log: writers append whole lines under one lock, in pieces; a watcher
    polls the file and takes the lines it has not counted yet. */
module EventLog {
  import opened Wrappers
  import opened TextLines

  // ----- Text without line breaks -----

  /** `text.splitlines()` */
  function PlainLines(text: string): seq<string> {
    Plain(SplitLines(text))
  }

  function Plain(lines: seq<string>): seq<string> {
    if lines == [] then [] else [WithoutBreak(lines[0])] + Plain(lines[1..])
  }

  function WithoutBreak(line: string): string {
    if line != "" && line[|line| - 1] == '\n' then
      if |line| > 1 && line[|line| - 2] == '\r' then line[..|line| - 2] else line[..|line| - 1]
    else if line != "" && IsBreak(line[|line| - 1]) then line[..|line| - 1]
    else line
  }

  /** The text of complete events. */
  function Written(bodies: seq<string>): string {
    if bodies == [] then "" else bodies[0] + "\n" + Written(bodies[1..])
  }

  lemma {:induction false} WrittenAppend(a: seq<string>, b: seq<string>)
    ensures Written(a + b) == Written(a) + Written(b)
  {
    if a == [] {
      assert a + b == b;
    } else {
      assert (a + b)[1..] == a[1..] + b;
      WrittenAppend(a[1..], b);
    }
  }

  lemma {:induction false} PlainAppend(a: seq<string>, b: seq<string>)
    ensures Plain(a + b) == Plain(a) + Plain(b)
  {
    if a == [] {
      assert a + b == b;
    } else {
      assert (a + b)[1..] == a[1..] + b;
      PlainAppend(a[1..], b);
    }
  }

  lemma OneLine(body: string)
    requires Unbroken(body)
    ensures PlainLines(body + "\n") == [body]
  {
    hide LineLength;
    UnbrokenLine(body);
    var line := body + "\n";
    assert line[..|line|] == line && line[|line|..] == "";
    assert SplitLines(line) == [line] + SplitLines("") == [line];
    assert [line][1..] == [];
    if |line| > 1 {
      assert line[|line| - 2] == body[|body| - 1];
      assert IsBreak('\r');
    }
    assert WithoutBreak(line) == body;
    assert Plain([line]) == [body] + Plain([]);
  }

  /** An unfinished line is read as a line. */
  lemma PartialLine(part: string)
    requires Unbroken(part)
    ensures PlainLines(part) == if part == "" then [] else [part]
  {
    hide LineLength;
    if part != "" {
      UnbrokenAlone(part);
      assert part[..|part|] == part && part[|part|..] == "";
      assert SplitLines(part) == [part] + SplitLines("") == [part];
      assert [part][1..] == [];
      assert WithoutBreak(part) == part by {
        assert !IsBreak(part[|part| - 1]) && IsBreak('\n');
      }
      assert Plain([part]) == [part] + Plain([]);
    }
  }

  lemma {:induction false} LinesOfWritten(bodies: seq<string>, part: string)
    requires forall b :: b in bodies ==> Unbroken(b)
    ensures PlainLines(Written(bodies) + part) == bodies + PlainLines(part)
  {
    hide SplitLines, Unbroken;
    if bodies == [] {
      assert Written(bodies) + part == part;
    } else {
      var line, rest := bodies[0] + "\n", Written(bodies[1..]) + part;
      assert Written(bodies) + part == line + rest;
      SplitAppend(line, rest);
      PlainAppend(SplitLines(line), SplitLines(rest));
      assert bodies[0] in bodies;
      OneLine(bodies[0]);
      LinesOfWritten(bodies[1..], part);
      assert [bodies[0]] + (bodies[1..] + PlainLines(part)) == bodies + PlainLines(part);
    }
  }

  // ----- Writers, and one watcher -----

  /** The append in progress, if any: the holder of the lock has written the first `written`
      characters of its line. */
  datatype Append = Append(body: string, written: nat)

  datatype State = State(log: string, emitted: seq<string>, pending: Option<Append>, seen: nat, delivered: seq<string>)

  datatype Step =
    | Begin(body: string)      // a writer takes the lock
    | Piece(n: nat)            // the next characters of its line reach the file
    | End                      // flushed; the lock is given back
    | Poll                     // the watcher reads the file

  const INIT := State("", [], None, 0, [])

  predicate Enabled(s: State, step: Step) {
    match step
    case Begin(body) => s.pending.None? && Unbroken(body)
    case Piece(n) => s.pending.Some? && s.pending.value.written + n <= |s.pending.value.body| + 1
    case End => s.pending.Some? && s.pending.value.written == |s.pending.value.body| + 1
    case Poll => true
  }

  /** `_new_lines`: the lines after the first `seen`, and how many lines there are now. */
  function NewLines(text: string, seen: nat): (seq<string>, nat) {
    var lines := PlainLines(text);
    (if seen <= |lines| then lines[seen..] else [], |lines|)
  }

  function Next(s: State, step: Step): State
    requires Enabled(s, step)
  {
    match step
    case Begin(body) => s.(pending := Some(Append(body, 0)))
    case Piece(n) =>
      var Append(body, written) := s.pending.value;
      s.(log := s.log + (body + "\n")[written..written + n], pending := Some(Append(body, written + n)))
    case End => s.(emitted := s.emitted + [s.pending.value.body], pending := None)
    case Poll =>
      var (lines, count) := NewLines(s.log, s.seen);
      s.(seen := count, delivered := s.delivered + lines)
  }

  /** The lines of all appends, the one in progress included. */
  function Started(s: State): seq<string> {
    s.emitted + if s.pending.Some? then [s.pending.value.body] else []
  }

  /** What the append in progress has put into the file. */
  function Part(s: State): string
    requires s.pending.Some? ==> s.pending.value.written <= |s.pending.value.body| + 1
  {
    if s.pending.None? then "" else (s.pending.value.body + "\n")[..s.pending.value.written]
  }

  /** The log is whole lines, then a prefix of the lock holder's line. */
  ghost predicate LogOk(s: State) {
    && (s.pending.Some? ==> s.pending.value.written <= |s.pending.value.body| + 1)
    && (forall b :: b in Started(s) ==> Unbroken(b))
    && s.log == Written(s.emitted) + Part(s)
  }

  /** A poll now would count a line of which only a proper part is in the file. */
  ghost predicate Tears(s: State) {
    s.pending.Some? && 0 < s.pending.value.written < |s.pending.value.body| && s.seen <= |s.emitted|
  }

  ghost predicate WatchOk(s: State) {
    && |s.delivered| == s.seen <= |Started(s)|
    && (s.seen > |s.emitted| ==> s.pending.value.written > 0)
  }

  ghost predicate Exact(s: State) {
    s.seen <= |Started(s)| && s.delivered == Started(s)[..s.seen]
  }

  /** The lines a poll finds: all complete ones, and the part of the one in progress. */
  lemma LinesFound(s: State)
    requires LogOk(s)
    ensures var lines := PlainLines(s.log);
      lines == s.emitted + (if s.pending.None? || s.pending.value.written == 0 then []
        else if s.pending.value.written <= |s.pending.value.body| then [s.pending.value.body[..s.pending.value.written]]
        else [s.pending.value.body])
  {
    hide PlainLines;
    LinesOfWritten(s.emitted, Part(s));
    if s.pending.None? {
      PartialLine("");
    } else {
      var Append(body, written) := s.pending.value;
      assert body in Started(s);
      if written <= |body| {
        assert Part(s) == body[..written];
        PartialLine(body[..written]);
      } else {
        assert Part(s) == body + "\n";
        OneLine(body);
      }
    }
  }

  lemma PieceKeepsLog(s: State, n: nat)
    requires LogOk(s) && Enabled(s, Piece(n))
    ensures LogOk(Next(s, Piece(n)))
  {
    hide Unbroken, PlainLines, Written;
    var Append(body, written) := s.pending.value;
    var line := body + "\n";
    var t := Next(s, Piece(n));
    assert line[..written + n] == line[..written] + line[written..written + n];
    assert Started(t) == Started(s);
    assert t.log == Written(s.emitted) + (line[..written] + line[written..written + n]);
  }

  lemma EndKeepsLog(s: State)
    requires LogOk(s) && Enabled(s, End)
    ensures LogOk(Next(s, End))
  {
    hide Unbroken, PlainLines;
    var body := s.pending.value.body;
    assert (body + "\n")[..|body| + 1] == body + "\n";
    WrittenAppend(s.emitted, [body]);
    assert [body][1..] == [];
    assert Written([body]) == body + "\n" + Written([]) == body + "\n";
    assert Started(Next(s, End)) == Started(s);
  }

  lemma StepKeepsLog(s: State, step: Step)
    requires LogOk(s) && Enabled(s, step)
    ensures LogOk(Next(s, step))
  {
    hide Unbroken, PlainLines, Written;
    match step
    case Begin(body) =>
      assert (body + "\n")[..0] == "";
    case Piece(n) => PieceKeepsLog(s, n);
    case End => EndKeepsLog(s);
    case Poll =>
  }

  /** Taking what is new of `lines` onto a delivery. */
  lemma TakeNew(lines: seq<string>, whole: seq<string>, n: nat, delivered: seq<string>)
    requires n <= |lines| <= |whole| <= n + 1 && lines[..n] == whole[..n]
    requires |delivered| <= |lines|
    ensures delivered + lines[|delivered|..] == whole[..|lines|]
      <==> delivered == whole[..|delivered|] && !(|lines| > n && |delivered| <= n && lines[n] != whole[n])
  {
    var seen := |delivered|;
    var all, want := delivered + lines[seen..], whole[..|lines|];
    assert all[..seen] == delivered && want[..seen] == whole[..seen];
    assert forall i :: 0 <= i < n ==> lines[i] == lines[..n][i] == whole[..n][i] == whole[i];
    if delivered == whole[..seen] {
      if |lines| > n && seen <= n && lines[n] != whole[n] {
        assert all[n] == lines[n] && want[n] == whole[n];
      } else {
        assert forall i :: seen <= i < |lines| ==> all[i] == lines[i] == want[i];
        assert forall i :: 0 <= i < seen ==> all[i] == want[i];
      }
    }
  }

  /** A poll that does not tear keeps an exact delivery exact; one that tears spoils it for
      good. */
  lemma PollKeepsWatch(s: State)
    requires LogOk(s) && WatchOk(s)
    ensures WatchOk(Next(s, Poll))
    ensures Exact(Next(s, Poll)) <==> Exact(s) && !Tears(s)
  {
    LinesFound(s);
    hide Unbroken, PlainLines, LogOk;
    var lines, whole, n := PlainLines(s.log), Started(s), |s.emitted|;
    assert lines[..n] == s.emitted == whole[..n];
    if |lines| > n {
      var Append(body, written) := s.pending.value;
      assert whole[n] == body;
      assert lines[n] == if written <= |body| then body[..written] else body;
      assert body[..|body|] == body;
      assert lines[n] != whole[n] <==> written < |body|;
    }
    TakeNew(lines, whole, n, s.delivered);
  }

  lemma StepKeepsWatch(s: State, step: Step)
    requires LogOk(s) && WatchOk(s) && Enabled(s, step)
    ensures WatchOk(Next(s, step))
    ensures Exact(Next(s, step)) <==> Exact(s) && !(step == Poll && Tears(s))
  {
    hide Unbroken, PlainLines, LogOk;
    match step
    case Begin(body) =>
      assert Started(Next(s, step))[..s.seen] == Started(s)[..s.seen];
    case Piece(n) =>
    case End =>
      assert Started(Next(s, step)) == Started(s);
    case Poll => PollKeepsWatch(s);
  }

  // ----- Whole histories -----

  ghost predicate CanRun(s: State, steps: seq<Step>)
    decreases |steps|
  {
    steps == [] || (Enabled(s, steps[0]) && CanRun(Next(s, steps[0]), steps[1..]))
  }

  ghost function After(s: State, steps: seq<Step>): State
    requires CanRun(s, steps)
    decreases |steps|
  {
    if steps == [] then s else After(Next(s, steps[0]), steps[1..])
  }

  /** Some poll of the run reads a torn line that no earlier poll had counted. */
  ghost predicate SomePollTears(s: State, steps: seq<Step>)
    requires CanRun(s, steps)
    decreases |steps|
  {
    steps != [] && ((steps[0] == Poll && Tears(s)) || SomePollTears(Next(s, steps[0]), steps[1..]))
  }

  lemma {:induction false} RunKeeps(s: State, steps: seq<Step>)
    requires LogOk(s) && WatchOk(s) && CanRun(s, steps)
    ensures LogOk(After(s, steps)) && WatchOk(After(s, steps))
    ensures Exact(After(s, steps)) <==> Exact(s) && !SomePollTears(s, steps)
    decreases |steps|
  {
    hide LogOk, WatchOk, Exact, Tears, Enabled, Next;
    if steps != [] {
      StepKeepsLog(s, steps[0]);
      StepKeepsWatch(s, steps[0]);
      RunKeeps(Next(s, steps[0]), steps[1..]);
    }
  }

  /** In every history the log is whole lines and a prefix of the holder's line, and what the
      watcher was given is the first lines, each once and in order, exactly when no poll read
      a torn line. */
  lemma DeliveryIsExactIff(steps: seq<Step>)
    requires CanRun(INIT, steps)
    ensures var t := After(INIT, steps);
      LogOk(t) && |t.delivered| <= |Started(t)| &&
      (t.delivered == Started(t)[..|t.delivered|] <==> !SomePollTears(INIT, steps))
  {
    assert Written([]) == "";
    RunKeeps(INIT, steps);
  }

  /** Polls made while no append is in flight deliver, together, every emitted line. */
  lemma QuietPollsDeliverAll(steps: seq<Step>)
    requires CanRun(INIT, steps)
    requires !SomePollTears(INIT, steps) && After(INIT, steps).pending.None?
    ensures var t := Next(After(INIT, steps), Poll); t.delivered == t.emitted
  {
    assert Written([]) == "";
    RunKeeps(INIT, steps);
    var s := After(INIT, steps);
    StepKeepsWatch(s, Poll);
    LinesFound(s);
    assert s.emitted + [] == s.emitted;
  }

  /** A poll in the middle of an append: the watcher is given half a line, and never the rest. */
  lemma TornPoll()
    ensures var steps := [Begin("ab"), Piece(1), Poll, Piece(2), End, Poll];
      CanRun(INIT, steps) && SomePollTears(INIT, steps) &&
      After(INIT, steps).emitted == ["ab"] && After(INIT, steps).delivered == ["a"]
  {
    hide CanRun, After, SomePollTears, Next, Enabled, PlainLines;
    TornSteps();
    NoSteps(TORN[6]);
    assert [Poll] + [] == [Poll] && [End] + [Poll] == [End, Poll] && [Piece(2)] + [End, Poll] == [Piece(2), End, Poll];
    assert [Poll] + [Piece(2), End, Poll] == [Poll, Piece(2), End, Poll];
    assert [Piece(1)] + [Poll, Piece(2), End, Poll] == [Piece(1), Poll, Piece(2), End, Poll];
    assert [Begin("ab")] + [Piece(1), Poll, Piece(2), End, Poll] == [Begin("ab"), Piece(1), Poll, Piece(2), End, Poll];
    OneStep(TORN[5], Poll, []);
    OneStep(TORN[4], End, [Poll]);
    OneStep(TORN[3], Piece(2), [End, Poll]);
    OneStep(TORN[2], Poll, [Piece(2), End, Poll]);
    OneStep(TORN[1], Piece(1), [Poll, Piece(2), End, Poll]);
    OneStep(INIT, Begin("ab"), [Piece(1), Poll, Piece(2), End, Poll]);
  }

  const TORN := [INIT, State("", [], Some(Append("ab", 0)), 0, []), State("a", [], Some(Append("ab", 1)), 0, []),
                 State("a", [], Some(Append("ab", 1)), 1, ["a"]), State("ab\n", [], Some(Append("ab", 3)), 1, ["a"]),
                 State("ab\n", ["ab"], None, 1, ["a"]), State("ab\n", ["ab"], None, 1, ["a"])]

  lemma TornSteps()
    ensures Enabled(INIT, Begin("ab")) && Next(INIT, Begin("ab")) == TORN[1]
    ensures Enabled(TORN[1], Piece(1)) && Next(TORN[1], Piece(1)) == TORN[2]
    ensures Enabled(TORN[2], Poll) && Tears(TORN[2]) && Next(TORN[2], Poll) == TORN[3]
    ensures Enabled(TORN[3], Piece(2)) && Next(TORN[3], Piece(2)) == TORN[4]
    ensures Enabled(TORN[4], End) && Next(TORN[4], End) == TORN[5]
    ensures Enabled(TORN[5], Poll) && Next(TORN[5], Poll) == TORN[6]
  {
    hide PlainLines;
    TornPieces();
    TornLines();
  }

  lemma TornPieces()
    ensures "ab" + "\n" == "ab\n" && "ab\n"[0..1] == "a" && "ab\n"[1..3] == "b\n"
    ensures "" + "a" == "a" && "a" + "b\n" == "ab\n"
    ensures Unbroken("ab") && [] + ["ab"] == ["ab"]
  {
  }

  lemma TornLines()
    ensures NewLines("a", 0) == (["a"], 1) && NewLines("ab\n", 1) == ([], 1)
    ensures [] + ["a"] == ["a"] && ["a"] + [] == ["a"]
  {
    hide PlainLines;
    TornPieces();
    PartialLine("a");
    OneLine("ab");
    assert ["a"][0..] == ["a"] && ["ab"][1..] == [];
  }

  lemma OneStep(s: State, step: Step, rest: seq<Step>)
    requires Enabled(s, step) && CanRun(Next(s, step), rest)
    ensures CanRun(s, [step] + rest) && After(s, [step] + rest) == After(Next(s, step), rest)
    ensures SomePollTears(s, [step] + rest) <==> (step == Poll && Tears(s)) || SomePollTears(Next(s, step), rest)
  {
    assert ([step] + rest)[1..] == rest;
  }

  // ----- One append -----

  /** The pieces in which one line reaches the file. */
  function Pieces(sizes: seq<nat>): seq<Step> {
    if sizes == [] then [] else [Piece(sizes[0])] + Pieces(sizes[1..])
  }

  function TotalSize(sizes: seq<nat>): nat {
    if sizes == [] then 0 else sizes[0] + TotalSize(sizes[1..])
  }

  /** The steps of one append, its line reaching the file in pieces of these sizes. */
  function OneAppend(body: string, sizes: seq<nat>): seq<Step> {
    [Begin(body)] + (Pieces(sizes) + [End])
  }

  lemma {:induction false} PiecesThenEnd(s: State, sizes: seq<nat>)
    requires s.pending.Some? && s.pending.value.written + TotalSize(sizes) == |s.pending.value.body| + 1
    ensures CanRun(s, Pieces(sizes) + [End])
    ensures var line := s.pending.value.body + "\n";
      After(s, Pieces(sizes) + [End]) ==
        s.(log := s.log + line[s.pending.value.written..], emitted := s.emitted + [s.pending.value.body],
          pending := None)
    decreases |sizes|
  {
    hide CanRun, After;
    var Append(body, written) := s.pending.value;
    var line := body + "\n";
    if sizes == [] {
      assert [] + [End] == [End] + [];
      NoSteps(Next(s, End));
      OneStep(s, End, []);
      assert s.log + line[written..] == s.log;
    } else {
      hide Pieces;
      var n, rest := sizes[0], sizes[1..];
      PiecesStep(sizes);
      PiecesThenEnd(Next(s, Piece(n)), rest);
      OneStep(s, Piece(n), Pieces(rest) + [End]);
      CutLine(s.log, line, written, n);
    }
  }

  lemma PiecesStep(sizes: seq<nat>)
    requires sizes != []
    ensures Pieces(sizes) + [End] == [Piece(sizes[0])] + (Pieces(sizes[1..]) + [End])
  {
  }

  lemma CutLine(log: string, line: string, from: nat, n: nat)
    requires from + n <= |line|
    ensures log + line[from..] == (log + line[from..from + n]) + line[from + n..]
  {
  }

  lemma NoSteps(s: State)
    ensures CanRun(s, []) && After(s, []) == s
  {
  }

  /** However the line is cut into pieces, the steps of an append put it into the file, whole. */
  lemma AppendInPieces(s: State, body: string, sizes: seq<nat>)
    requires s.pending.None? && Unbroken(body) && TotalSize(sizes) == |body| + 1
    ensures CanRun(s, OneAppend(body, sizes))
    ensures After(s, OneAppend(body, sizes)) == s.(log := s.log + body + "\n", emitted := s.emitted + [body])
  {
    hide CanRun, After, Unbroken;
    var t := Next(s, Begin(body));
    PiecesThenEnd(t, sizes);
    OneStep(s, Begin(body), Pieces(sizes) + [End]);
    assert (body + "\n")[0..] == body + "\n";
    assert s.log + (body + "\n") == s.log + body + "\n";
  }

  // ----- The code's objects -----

  class DashboardEmitter {
    var file: string

    constructor ()
      ensures file == ""
    {
      file := "";
    }

    /** `_emit`, once the lock is held: what the steps of one append do to the log, whatever the
        pieces, and to a log of whole lines one line more. */
    method Emit(json: string)
      modifies this
      ensures Unbroken(json) ==> forall s: State, sizes: seq<nat> ::
        s.log == old(file) && s.pending.None? && TotalSize(sizes) == |json| + 1 ==>
          CanRun(s, OneAppend(json, sizes)) && After(s, OneAppend(json, sizes)).log == file
      ensures forall bodies :: old(file) == Written(bodies) ==> file == Written(bodies + [json])
    {
      hide CanRun, After, Unbroken;
      var line := json + "\n";
      forall s: State, sizes: seq<nat> |
          Unbroken(json) && s.log == file && s.pending.None? && TotalSize(sizes) == |json| + 1
        ensures CanRun(s, OneAppend(json, sizes)) && After(s, OneAppend(json, sizes)).log == file + line
      {
        AppendInPieces(s, json, sizes);
        assert file + json + "\n" == file + line;
      }
      forall bodies | file == Written(bodies)
        ensures file + line == Written(bodies + [json])
      {
        WrittenAppend(bodies, [json]);
        assert [json][1..] == [];
        assert Written([json]) == line + Written([]) == line;
      }
      file := file + line;
    }
  }

  /** The counters of the watch loop. An experiment entry is bad JSON, a crash, or neither. */
  datatype Entry = Unreadable | Crash | Fine

  class Watcher {
    var seen: nat
    var crashes: nat

    constructor ()
      ensures seen == 0 && crashes == 0
    {
      seen, crashes := 0, 0;
    }

    /** One look at the experiment log; stops at the first crash if asked to. */
    method PollExperiments(text: string, decode: string -> Entry, exitOnCrash: bool) returns (stop: bool)
      modifies this
      ensures seen == |PlainLines(text)|
      ensures var lines := NewLines(text, old(seen)).0;
        if exitOnCrash && CrashesIn(lines, decode) > 0 then stop && crashes == old(crashes) + 1
        else !stop && crashes == old(crashes) + CrashesIn(lines, decode)
    {
      var (lines, count) := NewLines(text, seen);
      seen := count;
      for i := 0 to |lines|
        invariant crashes == old(crashes) + CrashesIn(lines[..i], decode)
        invariant exitOnCrash ==> CrashesIn(lines[..i], decode) == 0
        invariant seen == count
      {
        assert lines[..i + 1][..i] == lines[..i];
        if decode(lines[i]).Crash? {
          crashes := crashes + 1;
          if exitOnCrash {
            MoreCrashes(lines, i + 1, decode);
            return true;
          }
        }
      }
      assert lines[..|lines|] == lines;
      stop := false;
    }
  }

  function CrashesIn(lines: seq<string>, decode: string -> Entry): nat {
    if lines == [] then 0
    else CrashesIn(lines[..|lines| - 1], decode) + if decode(lines[|lines| - 1]).Crash? then 1 else 0
  }

  lemma {:induction false} MoreCrashes(lines: seq<string>, i: nat, decode: string -> Entry)
    requires i <= |lines|
    ensures CrashesIn(lines[..i], decode) <= CrashesIn(lines, decode)
  {
    if i < |lines| {
      assert lines[..|lines| - 1][..i] == lines[..i];
      MoreCrashes(lines[..|lines| - 1], i, decode);
    } else {
      assert lines[..i] == lines;
    }
  }

  function CrashesAt(lines: seq<string>, decode: string -> Entry): set<nat> {
    set i | 0 <= i < |lines| && decode(lines[i]).Crash?
  }

  lemma CrashesPush(lines: seq<string>, line: string, decode: string -> Entry)
    ensures CrashesAt(lines + [line], decode)
      == CrashesAt(lines, decode) + if decode(line).Crash? then {|lines|} else {}
  {
    assert forall i :: 0 <= i < |lines| ==> (lines + [line])[i] == lines[i];
    assert (lines + [line])[|lines|] == line;
  }

  /** The crashes counted are the lines that decode to one. */
  lemma {:induction false} CrashesExact(lines: seq<string>, decode: string -> Entry)
    ensures CrashesIn(lines, decode) == |CrashesAt(lines, decode)|
  {
    if lines != [] {
      var n := |lines| - 1;
      CrashesExact(lines[..n], decode);
      CrashesPush(lines[..n], lines[n], decode);
      assert lines == lines[..n] + [lines[n]];
    }
  }
}
