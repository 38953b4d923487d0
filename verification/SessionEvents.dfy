/** The session monitor of opencode-plugin/src/index.ts: it polls a list of sessions and
    reports what changed since the last poll. */
module SessionEvents {
  import opened Sequences
  import opened Wrappers

  /** A JavaScript value as far as titles, statuses and time stamps go. */
  datatype Value = Undefined | Null | Text(text: string) {
    predicate Truthy() {
      Text? && text != ""
    }

    function Or(fallback: string): Value {
      if Truthy() then this else Text(fallback)
    }
  }

  /** `timeUpdated` is `time?.updated`. */
  datatype Session = Session(id: string, status: Value, title: Value, timeUpdated: Value, updatedAt: Value)

  datatype Change = Change(from: Value, to: Value)

  datatype Changes = Changes(status: Option<Change>, title: Option<Change>)

  datatype Event =
    | Created(id: string, title: Value, status: Value)
    | Updated(id: string, changes: Changes)
    | Completed(id: string, title: Value, status: Value)

  // ----- The map of known sessions, in insertion order -----

  type Entries = seq<Session>

  ghost predicate UniqueIds(entries: Entries) {
    forall i, j :: 0 <= i < j < |entries| ==> entries[i].id != entries[j].id
  }

  /** `map.get(id)`. */
  function Get(entries: Entries, id: string): Option<Session> {
    if entries == [] then None
    else if entries[0].id == id then Some(entries[0])
    else Get(entries[1..], id)
  }

  /** `map.set(s.id, s)`: an existing key keeps its place. */
  function Set(entries: Entries, s: Session): (r: Entries)
    ensures forall id :: Get(r, id) == if id == s.id then Some(s) else Get(entries, id)
  {
    if entries == [] then [s]
    else if entries[0].id == s.id then [s] + entries[1..]
    else [entries[0]] + Set(entries[1..], s)
  }

  function IndexFrom(entries: Entries, sessions: seq<Session>): Entries
    decreases |sessions|
  {
    if sessions == [] then entries else IndexFrom(Set(entries, sessions[0]), sessions[1..])
  }

  /** The snapshot as a map: the last session of each id counts. */
  function Index(sessions: seq<Session>): Entries {
    IndexFrom([], sessions)
  }

  lemma {:induction false} GetNoneIff(entries: Entries, id: string)
    ensures Get(entries, id).None? <==> forall i :: 0 <= i < |entries| ==> entries[i].id != id
    ensures Get(entries, id).Some? ==> Get(entries, id).value.id == id
  {
    if entries != [] {
      GetNoneIff(entries[1..], id);
      assert entries[0].id != id ==>
               forall i :: 0 <= i < |entries| ==> entries[i] == if i == 0 then entries[0] else entries[1..][i - 1];
    }
  }

  lemma {:induction false} SetKeepsUnique(entries: Entries, s: Session)
    requires UniqueIds(entries)
    ensures UniqueIds(Set(entries, s))
  {
    if entries != [] && entries[0].id != s.id {
      var rest := Set(entries[1..], s);
      SetKeepsUnique(entries[1..], s);
      GetNoneIff(entries[1..], entries[0].id);
      GetNoneIff(rest, entries[0].id);
    }
  }

  lemma {:induction false} IndexIsUnique(entries: Entries, sessions: seq<Session>)
    requires UniqueIds(entries)
    ensures UniqueIds(IndexFrom(entries, sessions))
    decreases |sessions|
  {
    if sessions != [] {
      SetKeepsUnique(entries, sessions[0]);
      IndexIsUnique(Set(entries, sessions[0]), sessions[1..]);
    }
  }

  // ----- The difference of two snapshots -----

  function Serialized(s: Session): (Value, Value) {
    (s.title.Or("Untitled Session"), s.status.Or("active"))
  }

  /** `sessionChanged`: a time stamp alone counts only if both forms of it changed. */
  predicate Changed(prev: Session, cur: Session) {
    || prev.status != cur.status
    || prev.title != cur.title
    || (prev.timeUpdated != cur.timeUpdated && prev.updatedAt != cur.updatedAt)
  }

  /** `diffChanges`. */
  function DiffChanges(prev: Session, cur: Session): Changes {
    Changes(if prev.status != cur.status then Some(Change(prev.status, cur.status)) else None,
            if prev.title != cur.title then Some(Change(prev.title, cur.title)) else None)
  }

  function Report(prev: Option<Session>, s: Session): seq<Event> {
    match prev
    case None => [Created(s.id, Serialized(s).0, Serialized(s).1)]
    case Some(p) => if Changed(p, s) then [Updated(s.id, DiffChanges(p, s))] else []
  }

  function Closing(now: Option<Session>, s: Session): seq<Event> {
    if now.None? then [Completed(s.id, Serialized(s).0, Serialized(s).1)] else []
  }

  function Reports(prev: Entries, entries: Entries): seq<Event> {
    if entries == [] then [] else Report(Get(prev, entries[0].id), entries[0]) + Reports(prev, entries[1..])
  }

  function Closings(now: Entries, entries: Entries): seq<Event> {
    if entries == [] then [] else Closing(Get(now, entries[0].id), entries[0]) + Closings(now, entries[1..])
  }

  /** What one successful poll reports: created and updated sessions, then completed ones. */
  function Difference(prev: Entries, now: Entries): seq<Event> {
    Reports(prev, now) + Closings(now, prev)
  }

  // ----- The plugin -----

  class Plugin {
    var sessionWatchers: Entries
    var connected: bool
    /** Messages handed to the open socket. */
    var sent: seq<Event>
    /** Messages handed to `sendMessage`, delivered or not. */
    ghost var emitted: seq<Event>

    constructor ()
      ensures sessionWatchers == [] && sent == [] && emitted == []
    {
      sessionWatchers, connected, sent, emitted := [], false, [], [];
    }

    /** `sendMessage`: without an open socket the message is dropped. */
    method SendMessage(e: Event)
      modifies this`sent, this`emitted
      ensures emitted == old(emitted) + [e]
      ensures sent == if connected then old(sent) + [e] else old(sent)
    {
      emitted := emitted + [e];
      if !connected {
        return;
      }
      sent := sent + [e];
    }

    /** The first loop of `pollSessions`: created and updated sessions. */
    method ReportPresent(now: Entries)
      modifies this`sent, this`emitted
      ensures var events := Reports(sessionWatchers, now);
              emitted == old(emitted) + events && sent == if connected then old(sent) + events else old(sent)
    {
      ghost var events: seq<Event> := [];
      for k := 0 to |now|
        invariant Reports(sessionWatchers, now) == events + Reports(sessionWatchers, now[k..])
        invariant emitted == old(emitted) + events
        invariant sent == if connected then old(sent) + events else old(sent)
      {
        var s := now[k];
        assert now[k..][0] == s && now[k..][1..] == now[k + 1..];
        var prev := Get(sessionWatchers, s.id);
        ghost var more := Report(prev, s);
        if prev.None? {
          SendMessage(Created(s.id, Serialized(s).0, Serialized(s).1));
        } else if Changed(prev.value, s) {
          SendMessage(Updated(s.id, DiffChanges(prev.value, s)));
        }
        Regroup(events, more, Reports(sessionWatchers, now[k + 1..]));
        Regroup(old(emitted), events, more);
        Regroup(old(sent), events, more);
        events := events + more;
      }
      assert now[|now|..] == [];
      assert events == Reports(sessionWatchers, now);
    }

    /** The second loop of `pollSessions`: sessions that are gone. */
    method ReportGone(now: Entries)
      modifies this`sent, this`emitted
      ensures var events := Closings(now, sessionWatchers);
              emitted == old(emitted) + events && sent == if connected then old(sent) + events else old(sent)
    {
      ghost var events: seq<Event> := [];
      for k := 0 to |sessionWatchers|
        invariant Closings(now, sessionWatchers) == events + Closings(now, sessionWatchers[k..])
        invariant emitted == old(emitted) + events
        invariant sent == if connected then old(sent) + events else old(sent)
      {
        var s := sessionWatchers[k];
        assert sessionWatchers[k..][0] == s && sessionWatchers[k..][1..] == sessionWatchers[k + 1..];
        ghost var more := Closing(Get(now, s.id), s);
        if Get(now, s.id).None? {
          SendMessage(Completed(s.id, Serialized(s).0, Serialized(s).1));
        }
        Regroup(events, more, Closings(now, sessionWatchers[k + 1..]));
        Regroup(old(emitted), events, more);
        Regroup(old(sent), events, more);
        events := events + more;
      }
      assert sessionWatchers[|sessionWatchers|..] == [];
      assert events == Closings(now, sessionWatchers);
    }

    /** `pollSessions`; `None` stands for a request that failed or was refused. The new
        snapshot becomes the baseline whether or not the messages were delivered. */
    method PollSessions(response: Option<seq<Session>>) returns (ok: bool)
      modifies this`sessionWatchers, this`sent, this`emitted
      ensures ok <==> response.Some?
      ensures response.None? ==>
                sessionWatchers == old(sessionWatchers) && sent == old(sent) && emitted == old(emitted)
      ensures response.Some? ==>
                && sessionWatchers == Index(response.value) && UniqueIds(sessionWatchers)
                && var events := Difference(old(sessionWatchers), sessionWatchers);
                   emitted == old(emitted) + events && sent == if connected then old(sent) + events else old(sent)
    {
      if response.None? {
        return false;
      }
      var sessions := response.value;
      var now: Entries := [];
      for k := 0 to |sessions|
        invariant IndexFrom(now, sessions[k..]) == Index(sessions)
      {
        assert sessions[k..][0] == sessions[k] && sessions[k..][1..] == sessions[k + 1..];
        now := Set(now, sessions[k]);
      }
      assert sessions[|sessions|..] == [];
      IndexIsUnique([], sessions);
      ReportPresent(now);
      ReportGone(now);
      Regroup(old(emitted), Reports(sessionWatchers, now), Closings(now, sessionWatchers));
      Regroup(old(sent), Reports(sessionWatchers, now), Closings(now, sessionWatchers));
      sessionWatchers := now;
      ok := true;
    }
  }
}
