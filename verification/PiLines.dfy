/** The line protocol of the pi agent and the verdict on a run,
    backend/internal/agent/adapter_pi.go. */
module PiLines {
  import opened Json
  import opened Wrappers

  /** What a line tells `SendPrompt`. */
  datatype Info = Info(sessionID: string, hasFinal: bool, stopReason: string, errMsg: string)

  /** A line as `piParseLine` sees it: the type of the event it causes, if any, and its info. */
  datatype Parsed = Parsed(event: Option<string>, info: Option<Info>)

  const NOTHING := Parsed(None, None)

  const FAILED := "pi assistant message failed (stopReason=error)"

  function FieldsOf(v: Json): Fields {
    if v.Obj? then v.fields else map[]
  }

  /** `piErrorMessage`. */
  function ErrorMessage(obj: Fields): (r: string)
    ensures r != ""
  {
    var a, b, c := AsText(Get(obj, "errorMessage")), AsText(Get(obj, "message")),
                   AsText(Get(FieldsOf(Get(obj, "error")), "message"));
    if a != "" then a else if b != "" then b else if c != "" then c else "unknown pi error"
  }

  predicate IsAssistantEnd(obj: Fields) {
    AsText(Get(obj, "type")) == "message_end" && AsText(Get(FieldsOf(Get(obj, "message")), "role")) == "assistant"
  }

  predicate IsTopLevelError(obj: Fields) {
    AsText(Get(obj, "type")) == "error"
  }

  /** `piParseLine` on a decoded object; `None` is a line that holds none. */
  function ParseLine(line: Option<Fields>): Parsed {
    match line
    case None => NOTHING
    case Some(obj) =>
      var kind := AsText(Get(obj, "type"));
      if kind == "session" then Parsed(Some("session"), Some(Info(AsText(Get(obj, "id")), false, "", "")))
      else if kind == "message_update" then
        var update := FieldsOf(Get(obj, "assistantMessageEvent"));
        var form := AsText(Get(update, "type"));
        if AsText(Get(update, "delta")) == "" then NOTHING
        else if form == "text_delta" then Parsed(Some("message_chunk"), None)
        else if form == "thinking_delta" then Parsed(Some("thought_chunk"), None)
        else NOTHING
      else if kind == "tool_execution_start" then Parsed(Some("tool_call"), None)
      else if kind == "tool_execution_end" then Parsed(Some("tool_call_update"), None)
      else if kind == "message_end" then
        if !IsAssistantEnd(obj) then NOTHING
        else
          var msg := FieldsOf(Get(obj, "message"));
          var stop := AsText(Get(msg, "stopReason"));
          if stop == "error" then
            Parsed(Some("error"), Some(Info("", true, stop, TextOr(AsText(Get(msg, "errorMessage")), FAILED))))
          else Parsed(Some("message_end"), Some(Info("", true, stop, "")))
      else if kind == "agent_end" then Parsed(Some("done"), None)
      else if kind == "error" then Parsed(Some("error"), Some(Info("", false, "", ErrorMessage(obj))))
      else NOTHING
  }

  /** `piFinal`, as far as the result of the run depends on it. */
  datatype Final = Final(stopReason: string, errMsg: string)

  /** `applyTo`. */
  function Applied(i: Info, f: Final): Final {
    if i.hasFinal then Final(i.stopReason, i.errMsg)
    else if i.errMsg != "" then f.(errMsg := i.errMsg)
    else f
  }

  /** The run so far: the verdict and the session id reported last. */
  datatype Progress = Progress(final: Final, sessionID: string)

  function Next(p: Progress, line: Option<Fields>): Progress {
    match ParseLine(line).info
    case None => p
    case Some(i) => Progress(Applied(i, p.final), TextOr(i.sessionID, p.sessionID))
  }

  function Progressed(p: Progress, lines: seq<Option<Fields>>): Progress {
    if lines == [] then p else Next(Progressed(p, lines[..|lines| - 1]), lines[|lines| - 1])
  }

  // ----- The verdict -----

  /** The lines that decide about success: ends of assistant messages and top-level errors. */
  predicate IsDecisive(line: Option<Fields>) {
    line.Some? && (IsAssistantEnd(line.value) || IsTopLevelError(line.value))
  }

  /** The error a decisive line reports, and nothing for a message that ended well. */
  function ErrorIn(obj: Fields): string {
    if IsTopLevelError(obj) then ErrorMessage(obj)
    else
      var msg := FieldsOf(Get(obj, "message"));
      if AsText(Get(msg, "stopReason")) == "error" then TextOr(AsText(Get(msg, "errorMessage")), FAILED) else ""
  }

  function LastDecisive(lines: seq<Option<Fields>>): Option<Fields> {
    if lines == [] then None
    else if IsDecisive(lines[|lines| - 1]) then lines[|lines| - 1]
    else LastDecisive(lines[..|lines| - 1])
  }

  function LastAssistantEnd(lines: seq<Option<Fields>>): Option<Fields> {
    if lines == [] then None
    else if lines[|lines| - 1].Some? && IsAssistantEnd(lines[|lines| - 1].value) then lines[|lines| - 1]
    else LastAssistantEnd(lines[..|lines| - 1])
  }

  function LastSessionID(lines: seq<Option<Fields>>, start: string): string {
    if lines == [] then start
    else
      var line := lines[|lines| - 1];
      var id := if line.Some? && AsText(Get(line.value, "type")) == "session" then AsText(Get(line.value, "id"))
                else "";
      TextOr(id, LastSessionID(lines[..|lines| - 1], start))
  }

  const START := Final("", "")

  /** The last decisive line wins: a message that ends well clears earlier errors, a later
      error brings one back. */
  lemma {:induction false} LastDecisiveWins(lines: seq<Option<Fields>>, start: string)
    ensures var p := Progressed(Progress(START, start), lines);
            && p.final.errMsg == (match LastDecisive(lines) case None => "" case Some(obj) => ErrorIn(obj))
            && p.final.stopReason == (match LastAssistantEnd(lines)
                                      case None => ""
                                      case Some(obj) => AsText(Get(FieldsOf(Get(obj, "message")), "stopReason")))
            && p.sessionID == LastSessionID(lines, start)
  {
    if lines != [] {
      LastDecisiveWins(lines[..|lines| - 1], start);
      OneLine(Progressed(Progress(START, start), lines[..|lines| - 1]), lines[|lines| - 1]);
    }
  }

  lemma OneLine(p: Progress, line: Option<Fields>)
    ensures var q := Next(p, line);
            && q.final.errMsg == (if IsDecisive(line) then ErrorIn(line.value) else p.final.errMsg)
            && q.final.stopReason == (if line.Some? && IsAssistantEnd(line.value)
                                      then AsText(Get(FieldsOf(Get(line.value, "message")), "stopReason"))
                                      else p.final.stopReason)
            && q.sessionID == TextOr(if line.Some? && AsText(Get(line.value, "type")) == "session"
                                     then AsText(Get(line.value, "id")) else "", p.sessionID)
  {
  }

  /** Where the text of a top-level error is looked for, in this order. */
  lemma ErrorTextIs(obj: Fields)
    ensures var own, message := AsText(Get(obj, "errorMessage")), AsText(Get(obj, "message"));
            var nested := Get(obj, "error");
            && (own != "" ==> ErrorMessage(obj) == own)
            && (own == "" && message != "" ==> ErrorMessage(obj) == message)
            && (own == "" && message == "" && nested.Obj? && AsText(Get(nested.fields, "message")) != "" ==>
                  ErrorMessage(obj) == AsText(Get(nested.fields, "message")))
            && (own == "" && message == "" && (!nested.Obj? || AsText(Get(nested.fields, "message")) == "") ==>
                  ErrorMessage(obj) == "unknown pi error")
  {
    assert Get(map[], "message") == Null;
  }

  const TYPES := {"session", "message_update", "tool_execution_start", "tool_execution_end", "message_end", "agent_end",
                  "error"}

  /** Which event each type of line causes, if any. */
  lemma EventOf(obj: Fields)
    ensures var kind, event := AsText(Get(obj, "type")), ParseLine(Some(obj)).event;
            && (kind == "session" ==> event == Some("session"))
            && (kind == "tool_execution_start" ==> event == Some("tool_call"))
            && (kind == "tool_execution_end" ==> event == Some("tool_call_update"))
            && (kind == "agent_end" ==> event == Some("done"))
            && (kind == "error" ==> event == Some("error"))
            && (kind !in TYPES ==> event == None && ParseLine(Some(obj)).info == None)
    ensures ParseLine(None) == Parsed(None, None)
  {
  }

  lemma MessageEventOf(obj: Fields)
    ensures var kind, event := AsText(Get(obj, "type")), ParseLine(Some(obj)).event;
            && (kind == "message_update" ==>
                  var update := FieldsOf(Get(obj, "assistantMessageEvent"));
                  var form, delta := AsText(Get(update, "type")), AsText(Get(update, "delta"));
                  && ParseLine(Some(obj)).info == None
                  && (event == Some("message_chunk") <==> form == "text_delta" && delta != "")
                  && (event == Some("thought_chunk") <==> form == "thinking_delta" && delta != "")
                  && (event == None <==> delta == "" || form !in {"text_delta", "thinking_delta"}))
            && (kind == "message_end" ==>
                  var msg := FieldsOf(Get(obj, "message"));
                  var ours := AsText(Get(msg, "role")) == "assistant";
                  var failed := AsText(Get(msg, "stopReason")) == "error";
                  event == if !ours then None else if failed then Some("error") else Some("message_end"))
  {
  }

  /** The text of a failed assistant message, and its default. */
  lemma FailedMessageText(obj: Fields)
    requires IsAssistantEnd(obj)
    ensures var msg := FieldsOf(Get(obj, "message"));
            ErrorIn(obj) == if AsText(Get(msg, "stopReason")) != "error" then ""
                            else if AsText(Get(msg, "errorMessage")) != "" then AsText(Get(msg, "errorMessage"))
                            else "pi assistant message failed (stopReason=error)"
  {
  }

  /** A decisive line that reports an error is also announced as one to the subscribers. */
  lemma ErrorsAreAnnounced(line: Option<Fields>)
    requires IsDecisive(line)
    ensures ParseLine(line).event == Some("error") <==> ErrorIn(line.value) != ""
  {
  }
}
