/** The mapping of three upstream message shapes to one mobile view,
    backend/internal/adapter/opencode_message_mobile.go. */
module MobileMessages {
  import opened Json
  import opened Search
  import opened Wrappers

  /** `Null` output and `None` duration stand for absent fields. */
  datatype Part = Part(kind: string, text: string, id: string, name: string, state: string,
                       input: Fields, output: Json, error: string, durationMs: Option<int64>)

  function TextPart(kind: string, text: string): Part {
    Part(kind, text, "", "", "", map[], Null, "", None)
  }

  datatype MobileMessage = MobileMessage(id: string, role: string, text: string, content: seq<Part>,
                                         created: int64, completed: int64)

  // ----- Tool calls -----

  /** `durationFromTimes`. */
  function DurationFromTimes(raw: Json, startKey: string, endKey: string): Option<int64> {
    if !raw.Obj? then None
    else
      var start, end := AsNumber(Get(raw.fields, startKey)), AsNumber(Get(raw.fields, endKey));
      if start.None? || end.None? || end.value < start.value then None
      else Some(Wrap(end.value as int - start.value as int))
  }

  /** A duration is the difference of its times, and not negative, exactly if the
      difference fits into 64 bits. */
  lemma DurationIsDifferenceIff(raw: Json, startKey: string, endKey: string)
    requires DurationFromTimes(raw, startKey, endKey).Some?
    ensures var d := DurationFromTimes(raw, startKey, endKey).value;
            var start: int := AsNumber(Get(raw.fields, startKey)).value;
            var end: int := AsNumber(Get(raw.fields, endKey)).value;
            && (d >= 0 <==> end - start < 0x8000_0000_0000_0000)
            && (d == end - start <==> end - start < 0x8000_0000_0000_0000)
            && (d == end - start || d == end - start - 0x1_0000_0000_0000_0000)
            && (start >= 0 ==> d >= 0)
  {
  }

  /** Times further apart than 64 bits can say have a negative duration. */
  lemma NegativeDuration()
    ensures var raw := Obj(map["start" := Num(-9223372036854775808.0), "end" := Num(0.0)]);
            DurationFromTimes(raw, "start", "end").Some? && DurationFromTimes(raw, "start", "end").value < 0
  {
    var raw := Obj(map["start" := Num(-9223372036854775808.0), "end" := Num(0.0)]);
    assert Get(raw.fields, "start") == Num(-9223372036854775808.0);
    assert Get(raw.fields, "end") == Num(0.0);
    assert ToInt64(-9223372036854775808.0) == -TWO_63;
    assert ToInt64(0.0) == 0;
  }

  /** There is a duration exactly if both times are numbers and the second is no earlier. */
  lemma DurationIff(raw: Json, startKey: string, endKey: string)
    ensures DurationFromTimes(raw, startKey, endKey).Some? <==>
            && raw.Obj? && Get(raw.fields, startKey).Num? && Get(raw.fields, endKey).Num?
            && ToInt64(Get(raw.fields, startKey).n) <= ToInt64(Get(raw.fields, endKey).n)
  {
  }

  function FirstNonNull(a: Json, b: Json, c: Json): Json {
    if !a.Null? then a else if !b.Null? then b else c
  }

  /** `mobileToolPart`. */
  function ToolPart(part: Fields): Part {
    var id := TextOr(AsText(Get(part, "callID")), AsText(Get(part, "id")));
    var name := TextOr(TextOr(AsText(Get(part, "tool")), AsText(Get(part, "name"))), "tool");
    var state := Get(part, "state");
    if !state.Obj? then Part("tool", "", id, name, "pending", map[], Null, "", None)
    else
      var st := state.fields;
      var status := TextOr(AsText(Get(st, "status")), "pending");
      var input := if Get(st, "input").Obj? then Get(st, "input").fields else map[];
      var output := if status == "completed" then FirstNonNull(Get(st, "output"), Get(st, "result"), Get(st, "content"))
                    else Null;
      var error := if status == "error" then AsText(Get(st, "error")) else "";
      var duration := DurationFromTimes(Get(st, "time"), "start", "end");
      Part("tool", "", id, name, status, input, output, error,
           if duration.Some? then duration else DurationFromTimes(Get(part, "time"), "ran", "completed"))
  }

  /** A finished, failed or running tool call as the released version writes it. */
  function ToolV1(id: string, name: string, status: Json, input: Json, output: Json, error: Json,
                  start: Json, end: Json): Fields {
    map["type" := Str("tool"), "callID" := Str(id), "tool" := Str(name),
        "state" := Obj(map["status" := status, "input" := input, "output" := output, "error" := error,
                           "time" := Obj(map["start" := start, "end" := end])])]
  }

  /** The same call as the development version writes it. */
  function ToolV2(id: string, name: string, status: Json, input: Json, output: Json, error: Json,
                  start: Json, end: Json): Fields {
    map["type" := Str("tool"), "id" := Str(id), "name" := Str(name),
        "state" := Obj(map["status" := status, "input" := input, "result" := output, "error" := error]),
        "time" := Obj(map["ran" := start, "completed" := end])]
  }

  /** Two parts that say the same under different keys have the same view. */
  lemma SameTool(v1: Fields, s1: Fields, t1: Fields, v2: Fields, s2: Fields, t2: Fields)
    requires Get(v1, "state") == Obj(s1) && Get(v2, "state") == Obj(s2)
    requires Get(v1, "id").Null? && Get(v1, "name").Null? && Get(v2, "callID").Null? && Get(v2, "tool").Null?
    requires Get(v1, "callID") == Get(v2, "id") && Get(v1, "tool") == Get(v2, "name")
    requires Get(s1, "status") == Get(s2, "status") && Get(s1, "input") == Get(s2, "input")
    requires Get(s1, "error") == Get(s2, "error") && Get(s1, "output") == Get(s2, "result")
    requires Get(s2, "output").Null? && Get(s1, "result").Null? && Get(s1, "content").Null? && Get(s2, "content").Null?
    requires Get(v1, "time").Null? && Get(s1, "time") == Obj(t1) && Get(s2, "time").Null? && Get(v2, "time") == Obj(t2)
    requires DurationFromTimes(Obj(t1), "start", "end") == DurationFromTimes(Obj(t2), "ran", "completed")
    ensures ToolPart(v1) == ToolPart(v2)
  {
  }

  /** The keys of a tool call in the two writings. */
  lemma KeysV1(id: string, name: string, state: Fields)
    ensures var v := map["type" := Str("tool"), "callID" := Str(id), "tool" := Str(name), "state" := Obj(state)];
            && Get(v, "type") == Str("tool") && Get(v, "state") == Obj(state)
            && Get(v, "callID") == Str(id) && Get(v, "tool") == Str(name)
            && Get(v, "id").Null? && Get(v, "name").Null? && Get(v, "time").Null?
  {
  }

  lemma KeysV2(id: string, name: string, state: Fields, times: Fields)
    ensures var v := map["type" := Str("tool"), "id" := Str(id), "name" := Str(name), "state" := Obj(state),
                         "time" := Obj(times)];
            && Get(v, "type") == Str("tool") && Get(v, "state") == Obj(state)
            && Get(v, "id") == Str(id) && Get(v, "name") == Str(name)
            && Get(v, "time") == Obj(times) && Get(v, "callID").Null? && Get(v, "tool").Null?
  {
  }

  lemma StateV1(status: Json, input: Json, output: Json, error: Json, times: Fields)
    ensures var s := map["status" := status, "input" := input, "output" := output, "error" := error,
                         "time" := Obj(times)];
            && Get(s, "status") == status && Get(s, "input") == input && Get(s, "output") == output
            && Get(s, "error") == error && Get(s, "time") == Obj(times)
            && Get(s, "result").Null? && Get(s, "content").Null?
  {
  }

  lemma StateV2(status: Json, input: Json, output: Json, error: Json)
    ensures var s := map["status" := status, "input" := input, "result" := output, "error" := error];
            && Get(s, "status") == status && Get(s, "input") == input && Get(s, "result") == output
            && Get(s, "error") == error && Get(s, "time").Null? && Get(s, "output").Null? && Get(s, "content").Null?
  {
  }

  lemma SameDuration(start: Json, end: Json)
    ensures DurationFromTimes(Obj(map["start" := start, "end" := end]), "start", "end")
         == DurationFromTimes(Obj(map["ran" := start, "completed" := end]), "ran", "completed")
  {
  }

  /** Both writings of a tool call have the same mobile view. */
  lemma ToolShapesAgree(id: string, name: string, status: Json, input: Json, output: Json, error: Json,
                        start: Json, end: Json)
    ensures ToolPart(ToolV1(id, name, status, input, output, error, start, end))
         == ToolPart(ToolV2(id, name, status, input, output, error, start, end))
    ensures var v1 := ToolV1(id, name, status, input, output, error, start, end);
            var v2 := ToolV2(id, name, status, input, output, error, start, end);
            PartOf(Obj(v1)) == Some(ToolPart(v1)) == PartOf(Obj(v2))
  {
    var t1, t2 := map["start" := start, "end" := end], map["ran" := start, "completed" := end];
    var s1 := map["status" := status, "input" := input, "output" := output, "error" := error, "time" := Obj(t1)];
    var s2 := map["status" := status, "input" := input, "result" := output, "error" := error];
    StateV1(status, input, output, error, t1);
    StateV2(status, input, output, error);
    SameDuration(start, end);
    KeysV1(id, name, s1);
    KeysV2(id, name, s2, t2);
    SameTool(ToolV1(id, name, status, input, output, error, start, end), s1, t1,
             ToolV2(id, name, status, input, output, error, start, end), s2, t2);
  }

  // ----- Parts -----

  const CLIP := "\U{1F4CE} "

  /** What one part contributes; most kinds contribute nothing. */
  function PartOf(raw: Json): Option<Part> {
    if !raw.Obj? then None
    else
      var part := raw.fields;
      var kind := AsText(Get(part, "type"));
      var text := AsText(Get(part, "text"));
      if kind == "text" || kind == "reasoning" then (if text == "" then None else Some(TextPart(kind, text)))
      else if kind == "tool" then Some(ToolPart(part))
      else if kind == "file" then
        var caption := TextOr(AsText(Get(part, "filename")), AsText(Get(part, "url")));
        if caption == "" then None else Some(TextPart("text", CLIP + caption))
      else None
  }

  function Content(parts: seq<Json>): seq<Part> {
    if parts == [] then []
    else
      var n := |parts| - 1;
      match PartOf(parts[n])
      case None => Content(parts[..n])
      case Some(p) => Content(parts[..n]) + [p]
  }

  /** The texts of a content list, separated by blank lines. */
  function Joined(content: seq<Part>): string {
    if content == [] then ""
    else
      var n := |content| - 1;
      Appended(Joined(content[..n]), content[n])
  }

  function Appended(text: string, p: Part): string {
    if p.kind != "text" then text else if text == "" then p.text else text + "\n\n" + p.text
  }

  /** `mobileParts`: the text collected on the way is the joined text of the content. */
  method MobileParts(parts: seq<Json>) returns (text: string, content: seq<Part>)
    ensures content == Content(parts)
    ensures text == Joined(content)
  {
    text, content := "", [];
    for k := 0 to |parts|
      invariant content == Content(parts[..k]) && text == Joined(content)
    {
      assert parts[..k + 1][..k] == parts[..k];
      if !parts[k].Obj? {
        continue;
      }
      var part := parts[k].fields;
      var kind := AsText(Get(part, "type"));
      var p: Part;
      if kind == "text" {
        var t := AsText(Get(part, "text"));
        if t == "" {
          continue;
        }
        if |text| > 0 {
          text := text + "\n\n";
        }
        text := text + t;
        p := TextPart("text", t);
      } else if kind == "reasoning" {
        var t := AsText(Get(part, "text"));
        if t == "" {
          continue;
        }
        p := TextPart("reasoning", t);
      } else if kind == "tool" {
        p := ToolPart(part);
      } else if kind == "file" {
        var caption := TextOr(AsText(Get(part, "filename")), AsText(Get(part, "url")));
        if caption == "" {
          continue;
        }
        if |text| > 0 {
          text := text + "\n\n";
        }
        text := text + (CLIP + caption);
        p := TextPart("text", CLIP + caption);
      } else {
        continue;
      }
      assert (content + [p])[..|content|] == content;
      content := content + [p];
    }
    assert parts[..|parts|] == parts;
  }

  // ----- Messages -----

  /** `opencodeMessage` as decoding fills it: the whole object, and its id and type. */
  datatype Message = Message(ID: string, Type: string, Data: Option<Fields>)

  function Decoded(data: Fields): Message {
    Message(AsText(Get(data, "id")), AsText(Get(data, "type")), Some(data))
  }

  function TimesOf(v: Json): (int64, int64) {
    if v.Obj? then (NumberOr(Get(v.fields, "created"), 0), NumberOr(Get(v.fields, "completed"), 0)) else (0, 0)
  }

  function View(id: string, role: string, text: string, content: seq<Part>, time: Json): Option<MobileMessage> {
    if id == "" then None else Some(MobileMessage(id, role, text, content, TimesOf(time).0, TimesOf(time).1))
  }

  /** The envelope with `info`. */
  function FromEnvelope(m: Message, info: Fields, data: Fields): Option<MobileMessage> {
    var content := if Get(data, "parts").Arr? then Content(Get(data, "parts").items) else [];
    View(TextOr(AsText(Get(info, "id")), m.ID), TextOr(AsText(Get(info, "role")), "system"),
         Joined(content), content, Get(info, "time"))
  }

  /** The flat form with `role`. */
  function FromFlat(m: Message, data: Fields): Option<MobileMessage> {
    var id := TextOr(m.ID, AsText(Get(data, "id")));
    var role, parts := AsText(Get(data, "role")), Get(data, "parts");
    if parts.Arr? then View(id, role, Joined(Content(parts.items)), Content(parts.items), Get(data, "time"))
    else View(id, role, AsText(Get(data, "text")), [], Get(data, "time"))
  }

  function RoleOf(kind: string): Option<string> {
    if kind == "user" || kind == "assistant" then Some(kind)
    else if kind == "synthetic" || kind == "system" || kind == "compaction" || kind == "shell" then Some("system")
    else None
  }

  /** The tagged form with `type`. */
  function FromTagged(m: Message, data: Fields): Option<MobileMessage> {
    match RoleOf(TextOr(m.Type, AsText(Get(data, "type"))))
    case None => None
    case Some(role) =>
      var content := if Get(data, "content").Arr? then Content(Get(data, "content").items) else [];
      View(TextOr(m.ID, AsText(Get(data, "id"))), role, TextOr(AsText(Get(data, "text")), Joined(content)), content,
           Get(data, "time"))
  }

  function Mapped(m: Message): Option<MobileMessage> {
    match m.Data
    case None => None
    case Some(data) =>
      if Get(data, "info").Obj? then FromEnvelope(m, Get(data, "info").fields, data)
      else if AsText(Get(data, "role")) != "" then FromFlat(m, data)
      else FromTagged(m, data)
  }

  /** `ToMobile`. */
  method ToMobile(m: Message) returns (msg: Option<MobileMessage>)
    ensures msg == Mapped(m)
  {
    if m.Data.None? {
      return None;
    }
    var data := m.Data.value;
    var text, content := "", [];
    var info := Get(data, "info");
    if info.Obj? {
      var id := TextOr(AsText(Get(info.fields, "id")), m.ID);
      var role := TextOr(AsText(Get(info.fields, "role")), "system");
      var times := TimesOf(Get(info.fields, "time"));
      if id == "" {
        return None;
      }
      if Get(data, "parts").Arr? {
        text, content := MobileParts(Get(data, "parts").items);
      }
      return Some(MobileMessage(id, role, text, content, times.0, times.1));
    }
    var role := AsText(Get(data, "role"));
    var id := TextOr(m.ID, AsText(Get(data, "id")));
    var times := TimesOf(Get(data, "time"));
    if role != "" {
      if id == "" {
        return None;
      }
      if Get(data, "parts").Arr? {
        text, content := MobileParts(Get(data, "parts").items);
      } else {
        text := AsText(Get(data, "text"));
      }
      return Some(MobileMessage(id, role, text, content, times.0, times.1));
    }
    var kind := TextOr(m.Type, AsText(Get(data, "type")));
    var tagged := RoleOf(kind);
    if tagged.None? || id == "" {
      return None;
    }
    text := AsText(Get(data, "text"));
    if Get(data, "content").Arr? {
      var unused;
      unused, content := MobileParts(Get(data, "content").items);
      if text == "" {
        text := Rebuild(content);
      }
    }
    msg := Some(MobileMessage(id, tagged.value, text, content, times.0, times.1));
  }

  /** The loop of `ToMobile` that rebuilds the text of a tagged message from its content. */
  method Rebuild(content: seq<Part>) returns (text: string)
    ensures text == Joined(content)
  {
    text := "";
    for k := 0 to |content|
      invariant text == Joined(content[..k])
    {
      assert content[..k + 1][..k] == content[..k];
      if content[k].kind == "text" {
        if text != "" {
          text := text + "\n\n";
        }
        text := text + content[k].text;
      }
    }
    assert content[..|content|] == content;
  }

  // ----- The three shapes -----

  predicate IsEnvelope(data: Fields, id: string, role: string, time: Json, parts: seq<Json>) {
    && Get(data, "info").Obj? && Get(data, "parts") == Arr(parts)
    && Get(Get(data, "info").fields, "id") == Str(id)
    && Get(Get(data, "info").fields, "role") == Str(role)
    && Get(Get(data, "info").fields, "time") == time
  }

  predicate IsFlat(data: Fields, id: string, role: string, time: Json, parts: seq<Json>) {
    && !Get(data, "info").Obj?
    && Get(data, "id") == Str(id) && Get(data, "role") == Str(role) && Get(data, "time") == time
    && Get(data, "parts") == Arr(parts)
  }

  predicate IsTagged(data: Fields, id: string, role: string, time: Json, parts: seq<Json>) {
    && !Get(data, "info").Obj? && AsText(Get(data, "role")) == ""
    && Get(data, "id") == Str(id) && Get(data, "type") == Str(role) && Get(data, "time") == time
    && Get(data, "content") == Arr(parts)
  }

  /** The same message in the three shapes, whatever other fields they carry: the first two
      have one view, and the third has it exactly if its own text is missing or the same. */
  lemma ShapesAgree(v1: Fields, flat: Fields, v2: Fields, id: string, role: string, time: Json, parts: seq<Json>)
    requires id != "" && (role == "user" || role == "assistant")
    requires IsEnvelope(v1, id, role, time, parts)
    requires IsFlat(flat, id, role, time, parts)
    requires IsTagged(v2, id, role, time, parts)
    ensures Mapped(Decoded(v1)) == Mapped(Decoded(flat))
         == Some(MobileMessage(id, role, Joined(Content(parts)), Content(parts), TimesOf(time).0, TimesOf(time).1))
    ensures Mapped(Decoded(v2)) == Mapped(Decoded(v1)) <==>
            AsText(Get(v2, "text")) == "" || AsText(Get(v2, "text")) == Joined(Content(parts))
  {
  }

  /** A message is dropped exactly if no shape fits or it has no id. */
  lemma DroppedIff(data: Fields)
    ensures Mapped(Decoded(data)).None? <==>
            var info := Get(data, "info");
            if info.Obj? then AsText(Get(info.fields, "id")) == "" && AsText(Get(data, "id")) == ""
            else AsText(Get(data, "id")) == "" ||
                 (AsText(Get(data, "role")) == "" && RoleOf(AsText(Get(data, "type"))).None?)
  {
  }

  // ----- What a view shows -----

  /** The time object that counts: the one inside `info`, or else the message's own. */
  function TimeOf(data: Fields): Json {
    if Get(data, "info").Obj? then Get(Get(data, "info").fields, "time") else Get(data, "time")
  }

  /** A number under a key of an object, and zero for anything else. */
  predicate IsNumberUnder(n: int64, v: Json, key: string) {
    if v.Obj? && key in v.fields && v.fields[key].Num? then n == ToInt64(v.fields[key].n) else n == 0
  }

  /** Both times of every view are the numbers under their own keys, in all three forms. */
  lemma TimesAreKept(data: Fields)
    requires Mapped(Decoded(data)).Some?
    ensures var msg := Mapped(Decoded(data)).value;
            && IsNumberUnder(msg.created, TimeOf(data), "created")
            && IsNumberUnder(msg.completed, TimeOf(data), "completed")
  {
  }

  /** Whose id and role a view shows: the envelope's, unless they are missing; else the message's
      own, where a tagged message speaks of its role by its type. */
  lemma IdentityIsKept(data: Fields)
    requires Mapped(Decoded(data)).Some?
    ensures var msg, info := Mapped(Decoded(data)).value, Get(data, "info");
            && msg.id != ""
            && (info.Obj? && AsText(Get(info.fields, "id")) != "" ==> msg.id == AsText(Get(info.fields, "id")))
            && (!info.Obj? || AsText(Get(info.fields, "id")) == "" ==> msg.id == AsText(Get(data, "id")))
            && (info.Obj? ==>
                  var role := AsText(Get(info.fields, "role"));
                  msg.role == if role != "" then role else "system")
            && (!info.Obj? && AsText(Get(data, "role")) != "" ==> msg.role == AsText(Get(data, "role")))
            && (!info.Obj? && AsText(Get(data, "role")) == "" ==>
                  var kind := AsText(Get(data, "type"));
                  || (kind in {"user", "assistant"} && msg.role == kind)
                  || (kind in {"synthetic", "system", "compaction", "shell"} && msg.role == "system"))
  {
  }

  /** What each kind of part adds to the content. */
  lemma PartIsShown(parts: seq<Json>, part: Fields)
    ensures var before, after := Content(parts), Content(parts + [Obj(part)]);
            var kind, text := AsText(Get(part, "type")), AsText(Get(part, "text"));
            var name, url := AsText(Get(part, "filename")), AsText(Get(part, "url"));
            && (kind == "text" && text != "" ==> after == before + [TextPart("text", text)])
            && (kind == "reasoning" && text != "" ==> after == before + [TextPart("reasoning", text)])
            && (kind in {"text", "reasoning"} && text == "" ==> after == before)
            && (kind == "tool" ==>
                  |after| == |before| + 1 && after[..|before|] == before && after[|before|].kind == "tool")
            && (kind == "file" && name != "" ==> after == before + [TextPart("text", "\U{1F4CE} " + name)])
            && (kind == "file" && name == "" && url != "" ==> after == before + [TextPart("text", "\U{1F4CE} " + url)])
            && (kind == "file" && name == "" && url == "" ==> after == before)
            && (kind !in {"text", "reasoning", "tool", "file"} ==> after == before)
  {
    var all := parts + [Obj(part)];
    assert all[..|parts|] == parts && all[|parts|] == Obj(part);
  }

  /** A text part has nothing but its kind and its text. */
  lemma TextPartIs(kind: string, text: string)
    ensures TextPart(kind, text) == Part(kind, text, "", "", "", map[], Null, "", None)
  {
  }

  /** What is no object adds nothing. */
  lemma NoObjectIsShown(parts: seq<Json>, raw: Json)
    requires !raw.Obj?
    ensures Content(parts + [raw]) == Content(parts)
  {
    var all := parts + [raw];
    assert all[..|parts|] == parts && all[|parts|] == raw;
  }

  /** The texts of the text parts, in order. */
  function TextsOf(content: seq<Part>): seq<string> {
    if content == [] then []
    else TextsOf(content[..|content| - 1]) +
         if content[|content| - 1].kind == "text" then [content[|content| - 1].text] else []
  }

  predicate HasTexts(content: seq<Part>) {
    forall i :: 0 <= i < |content| && content[i].kind == "text" ==> content[i].text != ""
  }

  /** No text part of a content list is empty. */
  lemma {:induction false} ContentHasTexts(parts: seq<Json>)
    ensures HasTexts(Content(parts))
  {
    if parts != [] {
      ContentHasTexts(parts[..|parts| - 1]);
      OnePartHasText(parts[|parts| - 1]);
    }
  }

  lemma OnePartHasText(raw: Json)
    ensures PartOf(raw).Some? && PartOf(raw).value.kind == "text" ==> PartOf(raw).value.text != ""
  {
  }

  /** The text of such a list is its text parts joined by one blank line. */
  lemma {:induction false} JoinedIsJoin(content: seq<Part>)
    requires HasTexts(content)
    ensures Joined(content) == if TextsOf(content) == [] then "" else Join(TextsOf(content), "\n\n")
    ensures Joined(content) == "" <==> TextsOf(content) == []
  {
    if content != [] {
      var front, p := content[..|content| - 1], content[|content| - 1];
      JoinedIsJoin(front);
      assert Joined(content) == Appended(Joined(front), p);
      if p.kind == "text" {
        JoinOneMore(TextsOf(front), p.text);
        assert TextsOf(content) == TextsOf(front) + [p.text];
      } else {
        assert TextsOf(content) == TextsOf(front);
      }
    }
  }

  lemma {:induction false} JoinOneMore(texts: seq<string>, t: string)
    ensures Join(texts + [t], "\n\n") == if texts == [] then t else Join(texts, "\n\n") + "\n\n" + t
    ensures t != "" ==> Join(texts + [t], "\n\n") != ""
  {
    if texts == [] {
      assert texts + [t] == [t];
    } else if |texts| == 1 {
      assert texts + [t] == [texts[0], t] && [texts[0], t][1..] == [t];
    } else {
      assert (texts + [t])[1..] == texts[1..] + [t];
      JoinOneMore(texts[1..], t);
    }
  }

  /** What a tool call keeps: its own id and name before the other form's, its status, its input,
      its result only when completed and its error only when failed. */
  lemma ToolIsShown(part: Fields)
    ensures var p, state := ToolPart(part), Get(part, "state");
            var tool, name := AsText(Get(part, "tool")), AsText(Get(part, "name"));
            && p.kind == "tool" && p.text == ""
            && (AsText(Get(part, "callID")) != "" ==> p.id == AsText(Get(part, "callID")))
            && (AsText(Get(part, "callID")) == "" ==> p.id == AsText(Get(part, "id")))
            && (tool != "" ==> p.name == tool)
            && (tool == "" && name != "" ==> p.name == name)
            && (tool == "" && name == "" ==> p.name == "tool")
            && (!state.Obj? ==> p.state == "pending" && p.input == map[] && p.output == Null && p.error == ""
                                && p.durationMs == None)
  {
  }

  lemma ToolStateIsShown(part: Fields, state: Fields)
    requires Get(part, "state") == Obj(state)
    ensures var p, status := ToolPart(part), AsText(Get(state, "status"));
            && p.state == (if status != "" then status else "pending")
            && (Get(state, "input").Obj? ==> p.input == Get(state, "input").fields)
            && (!Get(state, "input").Obj? ==> p.input == map[])
            && (status != "completed" ==> p.output == Null)
            && (status == "completed" && Get(state, "output") != Null ==> p.output == Get(state, "output"))
            && (status == "completed" && Get(state, "output") == Null ==>
                  p.output == if Get(state, "result") != Null then Get(state, "result") else Get(state, "content"))
            && p.error == (if status == "error" then AsText(Get(state, "error")) else "")
            && (var own := DurationFromTimes(Get(state, "time"), "start", "end");
                p.durationMs == if own != None then own else DurationFromTimes(Get(part, "time"), "ran", "completed"))
  {
  }

  /** What text a message shows, in the forms that may carry their own. */
  lemma OwnTextIsShown(data: Fields)
    requires Mapped(Decoded(data)).Some? && !Get(data, "info").Obj?
    ensures var msg, own := Mapped(Decoded(data)).value, AsText(Get(data, "text"));
            && (AsText(Get(data, "role")) != "" && !Get(data, "parts").Arr? ==> msg.text == own && msg.content == [])
            && (AsText(Get(data, "role")) == "" && own != "" ==> msg.text == own)
            && (AsText(Get(data, "role")) == "" && own == "" && !Get(data, "content").Arr? ==> msg.text == "")
  {
  }
}
