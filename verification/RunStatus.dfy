/** The markers that record how a run ended in `demo_status.json`: stopped, failed, killed.
    Each writes a temporary file and renames it; the process may die between two writes. */
module RunStatus {
  import opened Wrappers

  datatype Json = Text(s: string) | Opaque(raw: string)

  type Doc = map<string, Json>

  /** A JSON file as read back: unreadable, JSON but no object, or an object. */
  datatype Content = Corrupt | NoObject | Object(doc: Doc)

  datatype Marker = MarkStopped | MarkFailed | MarkKilled

  /** A call of a marker, cut off after `stop` writes; three are enough for any. */
  datatype Call = Call(marker: Marker, now: string, reason: string, stop: nat)

  datatype Report = Existing(raw: string) | Synthesized(reason: string)

  datatype Files = Files(status: Option<Content>, temp: Option<Content>, report: Option<Report>)

  function StatusOf(d: Doc): Json {
    if "status" in d then d["status"] else Opaque("null")
  }

  predicate IsOneOf(d: Doc, names: set<string>) {
    StatusOf(d).Text? && StatusOf(d).s in names
  }

  /** The document a marker starts from; `None` when it gives up without writing. */
  function StartingPoint(m: Marker, status: Option<Content>): Option<Doc> {
    match m
    case MarkStopped =>
      (match status
       case None => Some(map[])
       case Some(Corrupt) => Some(map[])
       case Some(NoObject) => None
       case Some(Object(d)) => Some(d))
    case MarkFailed =>
      (match status
       case None => None
       case Some(Object(d)) => Some(d)
       case Some(_) => Some(map[]))
    case MarkKilled =>
      (match status
       case Some(Object(d)) => Some(d)
       case _ => Some(map[]))
  }

  /** The statuses a marker leaves alone. */
  function Settled(m: Marker): set<string> {
    if m.MarkFailed? then {"completed", "failed", "stopped", "killed"} else {"completed", "failed", "killed"}
  }

  function Changes(c: Call): Doc {
    match c.marker
    case MarkStopped =>
      map["status" := Text("stopped"), "updatedAt" := Text(c.now), "completedAt" := Text(c.now),
        "error" := Text(c.reason)]
    case MarkFailed =>
      map["status" := Text("failed"), "updatedAt" := Text(c.now), "completedAt" := Text(c.now),
        "error" := Text(c.reason)]
    case MarkKilled =>
      map["status" := Text("killed"), "killReason" := Text(c.reason), "updatedAt" := Text(c.now),
          "completedAt" := Text(c.now), "error" := Text(c.reason)]
  }

  /** The document a marker writes, if it writes one. */
  function NewStatus(c: Call, status: Option<Content>): Option<Doc> {
    var existing :- StartingPoint(c.marker, status);
    if IsOneOf(existing, Settled(c.marker)) then None else Some(existing + Changes(c))
  }

  /** The files after a call: the temporary file, the rename, and for a failure the report,
      unless there is one. */
  function After(fs: Files, c: Call): Files {
    var written := NewStatus(c, fs.status);
    if written.None? || c.stop == 0 then fs
    else if c.stop == 1 then fs.(temp := Some(Object(written.value)))
    else
      var report := if c.marker.MarkFailed? && c.stop >= 3 && fs.report.None? then Some(Synthesized(c.reason))
        else fs.report;
      Files(Some(Object(written.value)), None, report)
  }

  class RunFiles {
    var files: Files

    constructor (fs: Files)
      ensures files == fs
    {
      files := fs;
    }

    /** `_atomic_write_json`, cut off after `stop` writes. */
    method AtomicWrite(d: Doc, stop: nat)
      modifies this
      ensures files == if stop == 0 then old(files)
        else if stop == 1 then old(files).(temp := Some(Object(d)))
        else old(files).(status := Some(Object(d)), temp := None)
    {
      if stop == 0 {
        return;
      }
      files := files.(temp := Some(Object(d)));
      if stop == 1 {
        return;
      }
      files := files.(status := files.temp, temp := None);
    }

    method MarkStopped(c: Call)
      requires c.marker.MarkStopped?
      modifies this
      ensures files == After(old(files), c)
    {
      var existing: Doc := map[];
      if files.status.Some? {
        match files.status.value {
          case Corrupt =>
          case NoObject => return;
          case Object(d) => existing := d;
        }
      }
      if IsOneOf(existing, {"completed", "failed", "killed"}) {
        return;
      }
      AtomicWrite(existing + Changes(c), c.stop);
    }

    method MarkFailed(c: Call)
      requires c.marker.MarkFailed?
      modifies this
      ensures files == After(old(files), c)
    {
      if files.status.None? {
        return;
      }
      var existing := if files.status.value.Object? then files.status.value.doc else map[];
      if IsOneOf(existing, {"completed", "failed", "stopped", "killed"}) {
        return;
      }
      AtomicWrite(existing + Changes(c), c.stop);
      if c.stop >= 3 && files.report.None? {
        files := files.(report := Some(Synthesized(c.reason)));
      }
    }

    method MarkKilled(c: Call)
      requires c.marker.MarkKilled?
      modifies this
      ensures files == After(old(files), c)
    {
      var existing := if files.status.Some? && files.status.value.Object? then files.status.value.doc else map[];
      if IsOneOf(existing, {"completed", "failed", "killed"}) {
        return;
      }
      AtomicWrite(existing + Changes(c), c.stop);
    }
  }

  // ----- Precedence -----

  /** Running or unknown, then stopped, then completed, failed or killed. */
  function Rank(d: Doc): nat {
    if IsOneOf(d, {"completed", "failed", "killed"}) then 2
    else if IsOneOf(d, {"stopped"}) then 1
    else 0
  }

  /** The status file, if any, holds an object. */
  predicate Readable(fs: Files) {
    fs.status.Some? ==> fs.status.value.Object?
  }

  const WRITTEN := {"status", "killReason", "updatedAt", "completedAt", "error"}

  /** What one call may do to the files. */
  ghost predicate Allowed(a: Files, b: Files) {
    && Readable(b)
    && (a.report.Some? ==> b.report == a.report)
    && (a.status.Some? && a.status.value.Object? ==>
      b.status.Some? && b.status.value.Object? && MayBecome(a.status.value.doc, b.status.value.doc))
  }

  ghost predicate MayBecome(x: Doc, y: Doc) {
    && Rank(x) <= Rank(y)
    && (Rank(x) == 2 ==> y == x)
    && (Rank(x) == 1 ==> StatusOf(y) == Text("stopped") || StatusOf(y) == Text("killed"))
    && (forall k :: k !in WRITTEN ==> (k in x <==> k in y) && (k in x && k in y ==> x[k] == y[k]))
  }

  lemma OneCall(fs: Files, c: Call)
    requires Readable(fs)
    ensures Allowed(fs, After(fs, c))
  {
    var written := NewStatus(c, fs.status);
    if written.Some? && fs.status.Some? {
      var x, y := fs.status.value.doc, written.value;
      assert y == x + Changes(c);
      assert StatusOf(y) == Changes(c)["status"];
      assert Changes(c).Keys <= WRITTEN;
    }
  }

  function AfterAll(fs: Files, calls: seq<Call>): Files
    decreases |calls|
  {
    if calls == [] then fs else AfterAll(After(fs, calls[0]), calls[1..])
  }

  lemma AllowedTransitive(a: Files, b: Files, c: Files)
    requires Allowed(a, b) && Allowed(b, c)
    ensures Allowed(a, c)
  {
  }

  /** Over any sequence of marker calls, each cut off after any of its writes, on a status file
      that is readable at first: the status never loses rank; completed, failed and killed are
      final, down to the last field; stopped becomes only killed; fields no marker writes are
      kept; an existing report is never overwritten; and the file stays a whole document. */
  lemma {:induction false} StatusPrecedence(fs: Files, calls: seq<Call>)
    requires Readable(fs)
    ensures Allowed(fs, AfterAll(fs, calls))
    decreases |calls|
  {
    hide Allowed, After;
    if calls == [] {
      AllowedSame(fs);
    } else {
      OneCall(fs, calls[0]);
      StaysReadable(fs, After(fs, calls[0]));
      StatusPrecedence(After(fs, calls[0]), calls[1..]);
      AllowedTransitive(fs, After(fs, calls[0]), AfterAll(After(fs, calls[0]), calls[1..]));
    }
  }

  lemma AllowedSame(fs: Files)
    requires Readable(fs)
    ensures Allowed(fs, fs)
  {
  }

  lemma StaysReadable(a: Files, b: Files)
    requires Allowed(a, b)
    ensures Readable(b)
  {
  }

  /** Wherever a call is cut off, the status file is the old document or the whole new one. */
  lemma OldOrNew(fs: Files, c: Call)
    ensures var s := After(fs, c).status;
      s == fs.status || (NewStatus(c, fs.status).Some? && s == Some(Object(NewStatus(c, fs.status).value)))
    ensures c.stop <= 1 ==> After(fs, c).status == fs.status
    ensures c.stop >= 2 && NewStatus(c, fs.status).Some? ==> After(fs, c) == After(fs.(temp := None), c)
  {
  }

  /** A status file that cannot be read has no rank to keep: a settled run can be marked again. */
  lemma CorruptLosesRank(c: Call)
    requires c.stop >= 2
    ensures After(Files(Some(Corrupt), None, None), c).status == Some(Object(Changes(c)))
  {
    assert map[] + Changes(c) == Changes(c);
  }

  /** The documentation has the failed marker leave a status alone that is completed, failed or
      stopped. It does so exactly when the status is not killed, which it leaves alone as well. */
  lemma FailedMarkerAsDocumentedIff(d: Doc, c: Call)
    requires c.marker.MarkFailed?
    ensures (NewStatus(c, Some(Object(d))).None? <==> IsOneOf(d, {"completed", "failed", "stopped"}))
      <==> StatusOf(d) != Text("killed")
  {
  }

  /** A killed run stays killed. */
  lemma KilledIsLeftAlone(c: Call)
    requires c.marker.MarkFailed?
    ensures NewStatus(c, Some(Object(map["status" := Text("killed")]))) == None
  {
  }

  // ----- What each marker writes -----

  /** The file holds an object with one of these statuses. */
  predicate HasStatus(status: Option<Content>, names: set<string>) {
    status.Some? && status.value.Object? && "status" in status.value.doc &&
    status.value.doc["status"].Text? && status.value.doc["status"].s in names
  }

  /** When a marker writes nothing. Only the failed marker needs a file, and only the stopped one gives up
      on JSON that is no object. */
  predicate LeavesAlone(m: Marker, status: Option<Content>) {
    match m
    case MarkStopped => status == Some(NoObject) || HasStatus(status, {"completed", "failed", "killed"})
    case MarkFailed => status == None || HasStatus(status, {"completed", "failed", "stopped", "killed"})
    case MarkKilled => HasStatus(status, {"completed", "failed", "killed"})
  }

  /** The document names how the run ended, when, and why, and keeps every other field of the old one. */
  ghost predicate IsMarked(c: Call, old_: Doc, d: Doc) {
    && "status" in d && d["status"] ==
         Text(match c.marker case MarkStopped => "stopped" case MarkFailed => "failed" case MarkKilled => "killed")
    && "updatedAt" in d && d["updatedAt"] == Text(c.now) && "completedAt" in d && d["completedAt"] == Text(c.now)
    && "error" in d && d["error"] == Text(c.reason)
    && (c.marker.MarkKilled? ==> "killReason" in d && d["killReason"] == Text(c.reason))
    && forall k :: k !in {"status", "updatedAt", "completedAt", "error"} && (c.marker.MarkKilled? ==> k != "killReason")
         ==> (k in d <==> k in old_) && (k in d && k in old_ ==> d[k] == old_[k])
  }

  lemma ChangesMark(c: Call, old_: Doc)
    ensures IsMarked(c, old_, old_ + Changes(c))
  {
    assert "status" != "updatedAt" && |"updatedAt"| == 9 && |"completedAt"| == 11 && |"error"| == 5;
  }

  /** A call that is not cut off: nothing changes, or the status becomes the marked document; a failure
      without a report gets one with its reason. */
  lemma CompleteCall(fs: Files, c: Call) returns (d: Doc)
    requires c.stop >= 3
    ensures if LeavesAlone(c.marker, fs.status) then After(fs, c) == fs else
      && After(fs, c) == Files(Some(Object(d)), None,
           if c.marker.MarkFailed? && fs.report == None then Some(Synthesized(c.reason)) else fs.report)
      && IsMarked(c, if fs.status.Some? && fs.status.value.Object? then fs.status.value.doc else map[], d)
  {
    hide IsMarked, Changes;
    d := map[];
    var written := NewStatus(c, fs.status);
    if written.Some? {
      d := written.value;
      ChangesMark(c, StartingPoint(c.marker, fs.status).value);
    }
  }
}
