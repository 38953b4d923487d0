/** The session table of the pi adapter, backend/internal/agent/adapter_pi.go: several keys
    may lead to one session state, and runs fill it in. */
module PiSessions {
  import opened Json
  import opened Whitespace
  import opened Wrappers
  import opened PiLines

  class PiSessionState {
    var ID: string
    var PendingID: string
    var CWD: string
    var Title: string

    constructor (pendingID: string, cwd: string, title: string)
      ensures ID == "" && PendingID == pendingID && CWD == cwd && Title == title
    {
      ID, PendingID, CWD, Title := "", pendingID, cwd, title;
    }
  }

  datatype CtxError = Canceled | DeadlineExceeded

  /** How the process ended: well, by the adapter's own cancellation, with an exit code, or
      without one. */
  datatype Exit = Clean | Killed | Code | Other

  datatype Run = Run(lines: seq<Option<Fields>>, ctxError: Option<CtxError>, exit: Exit)

  datatype Outcome =
    | Done(stopReason: string)
    | EmptyPrompt
    | Unreachable
    | Cancelled
    | TimedOut
    | ExitedWithCode
    | ProviderError(message: string)
    | NoSessionHeader

  /** `piMapStopReason`. */
  function MapStopReason(s: string): string {
    if s == "stop" then "end_turn" else if s == "length" then "max_tokens"
    else if s == "aborted" then "cancelled" else s
  }

  /** The four reasons that are renamed or empty, and all others as they are. */
  lemma StopReasonsAre(s: string)
    ensures MapStopReason("stop") == "end_turn" && MapStopReason("length") == "max_tokens"
    ensures MapStopReason("aborted") == "cancelled" && MapStopReason("") == ""
    ensures s !in {"stop", "length", "aborted"} ==> MapStopReason(s) == s
  {
  }

  /** The classification at the end of `SendPrompt`; its order matters. */
  function Verdict(run: Run, p: Progress): Outcome {
    if run.ctxError.Some? then (if run.ctxError.value.Canceled? then Cancelled else TimedOut)
    else if run.exit.Killed? then Cancelled
    else if run.exit.Code? then ExitedWithCode
    else if run.exit.Other? then Unreachable
    else if p.final.errMsg != "" then ProviderError(p.final.errMsg)
    else if p.sessionID == "" then NoSessionHeader
    else Done(MapStopReason(p.final.stopReason))
  }

  /** With a clean exit, no cancellation and a known session, a run fails exactly if its
      last decisive line is an error, and then with that error. */
  lemma FailsIffLastDecisiveFails(run: Run, start: string)
    requires run.ctxError.None? && run.exit.Clean?
    requires LastSessionID(run.lines, start) != ""
    ensures var last := LastDecisive(run.lines);
            Verdict(run, Progressed(Progress(START, start), run.lines))
            == if last.Some? && ErrorIn(last.value) != "" then ProviderError(ErrorIn(last.value))
               else match LastAssistantEnd(run.lines)
                    case None => Done("")
                    case Some(obj) => Done(MapStopReason(AsText(Get(FieldsOf(Get(obj, "message")), "stopReason"))))
  {
    LastDecisiveWins(run.lines, start);
  }

  /** A run succeeds exactly if nothing cancelled it, the process ended well, the last
      decisive line is no error and the session is known; and it counts as cancelled exactly
      if its context was cancelled or, while that still ran, the adapter killed it. */
  lemma SucceedsIff(run: Run, start: string)
    ensures var last, v := LastDecisive(run.lines), Verdict(run, Progressed(Progress(START, start), run.lines));
            && (v.Done? <==>
                && run.ctxError.None? && run.exit.Clean?
                && (last.Some? ==> ErrorIn(last.value) == "")
                && LastSessionID(run.lines, start) != "")
            && (v.Cancelled? <==> run.ctxError == Some(Canceled) || (run.ctxError.None? && run.exit.Killed?))
            && (v.TimedOut? <==> run.ctxError == Some(DeadlineExceeded))
            && (v.ExitedWithCode? <==> run.ctxError.None? && run.exit.Code?)
            && (v.Unreachable? <==> run.ctxError.None? && run.exit.Other?)
            && (v.ProviderError? <==> run.ctxError.None? && run.exit.Clean? && last.Some? && ErrorIn(last.value) != "")
            && (v.NoSessionHeader? <==>
                && run.ctxError.None? && run.exit.Clean? && (last.Some? ==> ErrorIn(last.value) == "")
                && LastSessionID(run.lines, start) == "")
  {
    LastDecisiveWins(run.lines, start);
  }

  class PiAdapter {
    const workDir: string
    var sessions: map<string, PiSessionState>
    /** Every state the table ever held. */
    ghost var states: set<PiSessionState>

    ghost predicate Valid()
      reads this
    {
      sessions.Values <= states && "" !in sessions
    }

    /** What every operation keeps: no key vanishes, and no state changes an id or a working
        directory once it has one, nor its pending id or title ever. */
    twostate predicate Evolves()
      reads this, states
    {
      && old(sessions).Keys <= sessions.Keys
      && old(states) <= states
      && forall st :: st in old(states) ==>
           && (old(st.ID) != "" ==> st.ID == old(st.ID))
           && (old(st.CWD) != "" ==> st.CWD == old(st.CWD))
           && st.PendingID == old(st.PendingID) && st.Title == old(st.Title)
    }

    constructor (workDir: string)
      ensures Valid() && sessions == map[] && states == {} && this.workDir == workDir
    {
      this.workDir, sessions, states := workDir, map[], {};
    }

    /** `CreateSession`; the pending id is made from the clock. */
    method CreateSession(pendingID: string, cwd: string, title: string) returns (st: PiSessionState)
      requires Valid() && pendingID != ""
      modifies this
      ensures Valid() && Evolves()
      ensures fresh(st) && st.ID == "" && st.PendingID == pendingID && st.CWD == cwd && st.Title == title
      ensures sessions == old(sessions)[pendingID := st] && states == old(states) + {st}
    {
      st := new PiSessionState(pendingID, cwd, title);
      sessions := sessions[pendingID := st];
      states := states + {st};
    }

    /** The working directory of a run: a given one, else the session's, else the adapter's. */
    function WorkingDir(sessionID: string, given: string): string
      reads this, sessions.Values
    {
      if given != "" then given
      else if sessionID in sessions && sessions[sessionID].CWD != "" then sessions[sessionID].CWD
      else workDir
    }

    /** The key is the placeholder of a session that is asked for under it. */
    predicate IsPending(sessionID: string)
      reads this, sessions.Values
    {
      sessionID in sessions && sessions[sessionID].PendingID == sessionID
    }

    /** `SendPrompt` without the process: what it passes on, and what the run's output does
        to the table. */
    method SendPrompt(sessionID: string, prompt: string, given: string, started: bool, run: Run)
        returns (outcome: Outcome, resume: Option<string>, dir: string, sessID: string)
      requires Valid()
      modifies this, states
      ensures Valid() && Evolves() && fresh(states - old(states))
      ensures TrimSpace(prompt) == "" ==> outcome == EmptyPrompt
      ensures TrimSpace(prompt) != "" && !started ==> outcome == Unreachable
      ensures var pending := sessionID in old(sessions) && old(sessions[sessionID].PendingID) == sessionID;
              resume == if TrimSpace(prompt) != "" && sessionID != "" && !pending then Some(sessionID) else None
      ensures TrimSpace(prompt) != "" ==>
                && (given != "" ==> dir == given)
                && (given == "" && sessionID in old(sessions) && old(sessions[sessionID].CWD) != "" ==>
                      dir == old(sessions[sessionID].CWD))
                && (given == "" && (sessionID !in old(sessions) || old(sessions[sessionID].CWD) == "") ==>
                      dir == workDir)
      ensures TrimSpace(prompt) == "" || !started ==> sessID == "" && sessions == old(sessions)
      ensures TrimSpace(prompt) != "" && started ==>
                var begin := if old(IsPending(sessionID)) then "" else sessionID;
                && outcome == Verdict(run, Progressed(Progress(START, begin), run.lines))
                && sessID == LastSessionID(run.lines, begin)
      ensures sessID == "" ==> sessions == old(sessions)
      ensures sessID != "" ==>
                && sessID in sessions
                && (sessionID != "" ==> sessionID in sessions && sessions[sessionID] == sessions[sessID])
                && sessions[sessID].ID == (if sessionID in old(sessions) && old(sessions[sessionID].ID) != "" then
                                             old(sessions[sessionID].ID) else sessID)
                && sessions[sessID].CWD == (if sessionID in old(sessions) && old(sessions[sessionID].CWD) != "" then
                                              old(sessions[sessionID].CWD) else dir)
                && (sessionID !in old(sessions) ==> sessions[sessID].PendingID == "" && sessions[sessID].Title == "")
      ensures forall key :: key in sessions ==> key in old(sessions) || key == sessID || key == sessionID
      ensures forall key :: key in old(sessions) && key != sessID ==> sessions[key] == old(sessions[key])
      ensures sessID != "" && sessID in old(sessions) ==>
                (sessions[sessID] == old(sessions[sessID]) <==>
                 sessionID in old(sessions) && old(sessions[sessionID]) == old(sessions[sessID]))
    {
      resume, dir, sessID := None, "", "";
      if TrimSpace(prompt) == "" {
        outcome := EmptyPrompt;
        return;
      }
      dir := WorkingDir(sessionID, given);
      var pending := IsPending(sessionID);
      if sessionID != "" && !pending {
        resume := Some(sessionID);
      }
      if !started {
        outcome := Unreachable;
        return;
      }
      var begin := if pending then "" else sessionID;
      var p := ReadLines(run.lines, begin);
      LastDecisiveWins(run.lines, begin);
      sessID := p.sessionID;
      if sessID != "" {
        Register(sessionID, sessID, dir);
      }
      outcome := Verdict(run, p);
    }

    /** The scanner loop of `SendPrompt`. */
    method ReadLines(lines: seq<Option<Fields>>, begin: string) returns (p: Progress)
      ensures p == Progressed(Progress(START, begin), lines)
    {
      var final, sessID := START, begin;
      for k := 0 to |lines|
        invariant Progress(final, sessID) == Progressed(Progress(START, begin), lines[..k])
      {
        assert lines[..k + 1][..k] == lines[..k];
        var info := ParseLine(lines[k]).info;
        if info.Some? {
          if info.value.sessionID != "" {
            sessID := info.value.sessionID;
          }
          final := Applied(info.value, final);
        }
      }
      assert lines[..|lines|] == lines;
      p := Progress(final, sessID);
    }

    /** The end of `SendPrompt` for a run that reported a session id. */
    method Register(sessionID: string, sessID: string, cwd: string)
      requires Valid() && sessID != ""
      modifies this, states
      ensures Valid() && Evolves() && fresh(states - old(states))
      ensures sessID in sessions
      ensures sessionID != "" ==> sessionID in sessions && sessions[sessionID] == sessions[sessID]
      ensures sessionID in old(sessions) ==> sessions[sessID] == old(sessions[sessionID])
      ensures sessionID !in old(sessions) ==>
                fresh(sessions[sessID]) && sessions[sessID].PendingID == "" && sessions[sessID].Title == ""
      ensures sessions[sessID].ID == if sessionID in old(sessions) && old(sessions[sessionID].ID) != "" then
                                       old(sessions[sessionID].ID) else sessID
      ensures sessions[sessID].CWD == if sessionID in old(sessions) && old(sessions[sessionID].CWD) != "" then
                                        old(sessions[sessionID].CWD) else cwd
      ensures forall key :: key in sessions ==> key in old(sessions) || key == sessID || key == sessionID
      ensures forall key :: key in old(sessions) && key != sessID ==> sessions[key] == old(sessions[key])
    {
      var st := StateFor(sessionID, sessID);
      FillIn(st, sessID, cwd);
      if sessionID != "" && sessID != sessionID {
        sessions := sessions[sessID := st];
      }
    }

    /** The state of the key, or a new one under the key and the reported id. */
    method StateFor(sessionID: string, sessID: string) returns (st: PiSessionState)
      requires Valid() && sessID != ""
      modifies this
      ensures Valid() && st in states && old(states) <= states <= old(states) + {st}
      ensures sessionID in old(sessions) ==>
                st == old(sessions[sessionID]) && sessions == old(sessions) && states == old(states)
      ensures sessionID !in old(sessions) ==>
                && fresh(st) && st.ID == "" && st.PendingID == "" && st.CWD == "" && st.Title == ""
                && sessions == if sessionID != "" then old(sessions)[sessID := st][sessionID := st]
                               else old(sessions)[sessID := st]
    {
      if sessionID !in sessions {
        st := new PiSessionState("", "", "");
        states := states + {st};
        sessions := sessions[sessID := st];
        if sessionID != "" {
          sessions := sessions[sessionID := st];
        }
      } else {
        st := sessions[sessionID];
      }
    }

    /** A state gets the id and the directory it does not have yet. */
    method FillIn(st: PiSessionState, sessID: string, cwd: string)
      modifies st`ID, st`CWD
      ensures st.ID == (if old(st.ID) != "" then old(st.ID) else sessID)
      ensures st.CWD == (if old(st.CWD) != "" then old(st.CWD) else cwd)
    {
      if st.ID == "" {
        st.ID := sessID;
      }
      if st.CWD == "" && cwd != "" {
        st.CWD := cwd;
      }
    }
  }

  /** A run under an unknown key that reports the id `u`, for which the table has a state: that
      state is gone from the table. */
  method UnknownKeyReplaces(adapter: PiAdapter)
    requires adapter.Valid() && "u" in adapter.sessions && "x" !in adapter.sessions
    modifies adapter, adapter.states
    ensures "u" in adapter.sessions && adapter.sessions["u"] != old(adapter.sessions["u"])
  {
    var line: Fields := map["type" := Str("session"), "id" := Str("u")];
    var run := Run([Some(line)], None, Clean);
    assert AsText(Get(line, "type")) == "session" && AsText(Get(line, "id")) == "u";
    assert LastSessionID(run.lines, "x") == "u";
    TrimmedIff("hello");
    var outcome, resume, dir, sessID := adapter.SendPrompt("x", "hello", "", true, run);
  }

  /** The same under a known key with another state. */
  method KnownKeyReplaces(adapter: PiAdapter)
    requires adapter.Valid() && "u" in adapter.sessions && "x" in adapter.sessions
    requires adapter.sessions["u"] != adapter.sessions["x"]
    modifies adapter, adapter.states
    ensures "u" in adapter.sessions && adapter.sessions["u"] == old(adapter.sessions["x"])
    ensures adapter.sessions["u"] != old(adapter.sessions["u"])
  {
    var line: Fields := map["type" := Str("session"), "id" := Str("u")];
    var run := Run([Some(line)], None, Clean);
    assert AsText(Get(line, "type")) == "session" && AsText(Get(line, "id")) == "u";
    assert LastSessionID(run.lines, "x") == LastSessionID(run.lines, "") == "u";
    TrimmedIff("hello");
    var outcome, resume, dir, sessID := adapter.SendPrompt("x", "hello", "", true, run);
  }

  // ----- Whole histories -----

  datatype Op =
    | Create(pendingID: string, cwd: string, title: string)
    | Prompt(sessionID: string, prompt: string, given: string, started: bool, run: Run)

  /** Any sequence of operations, one after the other, keeps what each of them keeps. */
  method RunAll(adapter: PiAdapter, ops: seq<Op>)
    requires adapter.Valid()
    requires forall op :: op in ops && op.Create? ==> op.pendingID != ""
    modifies adapter, adapter.states
    ensures adapter.Valid() && adapter.Evolves()
  {
    for k := 0 to |ops|
      invariant adapter.Valid() && adapter.Evolves()
      invariant fresh(adapter.states - old(adapter.states))
    {
      var op := ops[k];
      assert op in ops;
      match op {
        case Create(pendingID, cwd, title) =>
          var st := adapter.CreateSession(pendingID, cwd, title);
        case Prompt(sessionID, prompt, given, started, run) =>
          var outcome, resume, dir, sessID := adapter.SendPrompt(sessionID, prompt, given, started, run);
      }
    }
  }
}
