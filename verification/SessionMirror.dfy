/** What a receiver of the session events can rely on, over whole runs of polls. */
module SessionMirror {
  import opened Sequences
  import opened Wrappers
  import opened SessionEvents
  import opened Subsequences

  // ----- Replaying events -----

  datatype View = View(title: Value, status: Value)

  type Mirror = map<string, View>

  function Patched(view: View, changes: Changes): View {
    View(if changes.title.Some? then changes.title.value.to else view.title,
         if changes.status.Some? then changes.status.value.to else view.status)
  }

  /** The receiver's copy after one event. */
  function Apply(mirror: Mirror, e: Event): Mirror {
    match e
    case Created(id, title, status) => mirror[id := View(title, status)]
    case Updated(id, changes) => if id in mirror then mirror[id := Patched(mirror[id], changes)] else mirror
    case Completed(id, _, _) => mirror - {id}
  }

  function Replay(mirror: Mirror, events: seq<Event>): Mirror
    decreases |events|
  {
    if events == [] then mirror else Replay(Apply(mirror, events[0]), events[1..])
  }

  function ViewOf(s: Session): View {
    View(Serialized(s).0, Serialized(s).1)
  }

  function Look(mirror: Mirror, id: string): Option<View> {
    if id in mirror then Some(mirror[id]) else None
  }

  /** What a mirror should show of a session. */
  function Shown(entries: Entries, id: string): Option<View> {
    match Get(entries, id)
    case None => None
    case Some(s) => Some(ViewOf(s))
  }

  ghost predicate Mirrors(mirror: Mirror, entries: Entries) {
    forall id: string :: Look(mirror, id) == Shown(entries, id)
  }

  // ----- One session at a time -----

  function OfId(events: seq<Event>, id: string): seq<Event> {
    if events == [] then []
    else (if events[0].id == id then [events[0]] else []) + OfId(events[1..], id)
  }

  lemma {:induction false} OfIdConcat(a: seq<Event>, b: seq<Event>, id: string)
    ensures OfId(a + b, id) == OfId(a, id) + OfId(b, id)
  {
    if a == [] {
      assert a + b == b;
    } else {
      OfIdConcat(a[1..], b, id);
      assert (a + b)[1..] == a[1..] + b;
      var first := if a[0].id == id then [a[0]] else [];
      assert OfId(a + b, id) == first + OfId(a[1..] + b, id);
      assert first + (OfId(a[1..], id) + OfId(b, id)) == first + OfId(a[1..], id) + OfId(b, id);
    }
  }

  lemma {:induction false} OfIdReports(prev: Entries, entries: Entries, id: string)
    requires UniqueIds(entries)
    ensures OfId(Reports(prev, entries), id)
         == match Get(entries, id) case None => [] case Some(s) => Report(Get(prev, id), s)
  {
    if entries != [] {
      var s, rest := entries[0], entries[1..];
      OfIdReports(prev, rest, id);
      OfIdConcat(Report(Get(prev, s.id), s), Reports(prev, rest), id);
      OfIdReport(Get(prev, s.id), s, id);
      if s.id == id {
        GetNoneIff(rest, id);
      }
    }
  }

  lemma OfIdReport(prev: Option<Session>, s: Session, id: string)
    ensures OfId(Report(prev, s), id) == if s.id == id then Report(prev, s) else []
  {
    var r := Report(prev, s);
    assert r != [] ==> r == [r[0]] && r[1..] == [];
  }

  lemma {:induction false} OfIdClosings(now: Entries, entries: Entries, id: string)
    requires UniqueIds(entries)
    ensures OfId(Closings(now, entries), id)
         == match Get(entries, id) case None => [] case Some(s) => Closing(Get(now, id), s)
  {
    if entries != [] {
      var s, rest := entries[0], entries[1..];
      OfIdClosings(now, rest, id);
      var r := Closing(Get(now, s.id), s);
      OfIdConcat(r, Closings(now, rest), id);
      assert r != [] ==> r == [r[0]] && r[1..] == [];
      if s.id == id {
        GetNoneIff(rest, id);
      }
    }
  }

  /** Each poll says at most one thing about each session. */
  lemma OfIdDifference(prev: Entries, now: Entries, id: string)
    requires UniqueIds(prev) && UniqueIds(now)
    ensures OfId(Difference(prev, now), id)
         == match Get(now, id)
            case Some(s) => Report(Get(prev, id), s)
            case None => match Get(prev, id) case None => [] case Some(s) => Closing(None, s)
  {
    OfIdConcat(Reports(prev, now), Closings(now, prev), id);
    OfIdReports(prev, now, id);
    OfIdClosings(now, prev, id);
    if Get(now, id).Some? && Get(prev, id).Some? {
      assert Report(Get(prev, id), Get(now, id).value) + [] == Report(Get(prev, id), Get(now, id).value);
    }
  }

  /** About a session in both snapshots a poll is silent exactly if status, title and one of
      the two time stamps are the same, and else names exactly what changed, from what to what. */
  lemma UpdatesTellWhatChanged(prev: Entries, now: Entries, id: string)
    requires UniqueIds(prev) && UniqueIds(now)
    requires Get(prev, id).Some? && Get(now, id).Some?
    ensures var p, s, events := Get(prev, id).value, Get(now, id).value, OfId(Difference(prev, now), id);
            && (events == [] <==>
                && p.status == s.status && p.title == s.title
                && (p.timeUpdated == s.timeUpdated || p.updatedAt == s.updatedAt))
            && (events != [] ==>
                && |events| == 1 && events[0].Updated? && events[0].id == id
                && var changes := events[0].changes;
                   && (changes.title == None <==> p.title == s.title)
                   && (changes.status == None <==> p.status == s.status)
                   && (changes.title.Some? ==> changes.title.value == Change(p.title, s.title))
                   && (changes.status.Some? ==> changes.status.value == Change(p.status, s.status)))
  {
    OfIdDifference(prev, now, id);
    GetNoneIff(now, id);
  }

  function OrDefault(v: Value, fallback: string): Value {
    match v
    case Text(text) => if text == "" then Text(fallback) else v
    case _ => Text(fallback)
  }

  /** What a poll says about a session that is new or gone: its title and status, with the
      defaults for what is missing or empty. */
  lemma ComingsAndGoingsTell(prev: Entries, now: Entries, id: string)
    requires UniqueIds(prev) && UniqueIds(now)
    ensures Get(prev, id).None? && Get(now, id).Some? ==>
              var s := Get(now, id).value;
              OfId(Difference(prev, now), id)
              == [Created(id, OrDefault(s.title, "Untitled Session"), OrDefault(s.status, "active"))]
    ensures Get(prev, id).Some? && Get(now, id).None? ==>
              var s := Get(prev, id).value;
              OfId(Difference(prev, now), id)
              == [Completed(id, OrDefault(s.title, "Untitled Session"), OrDefault(s.status, "active"))]
    ensures Get(prev, id).None? && Get(now, id).None? ==> OfId(Difference(prev, now), id) == []
  {
    OfIdDifference(prev, now, id);
    GetNoneIff(prev, id);
    GetNoneIff(now, id);
  }

  function IdsOf(entries: Entries): seq<string> {
    if entries == [] then [] else [entries[0].id] + IdsOf(entries[1..])
  }

  function EventIds(events: seq<Event>): seq<string> {
    if events == [] then [] else [events[0].id] + EventIds(events[1..])
  }

  /** Events come in the order of the snapshots: first what is there, in the order of the new
      one, and then what is gone, in the order of the old one. */
  lemma EventsAreOrdered(prev: Entries, now: Entries)
    ensures exists n :: 0 <= n <= |Difference(prev, now)| && IsOrderedAt(prev, now, n)
  {
    var first, second := Reports(prev, now), Closings(now, prev);
    ReportsInOrder(prev, now);
    ClosingsInOrder(now, prev);
    assert Difference(prev, now)[..|first|] == first && Difference(prev, now)[|first|..] == second;
    assert IsOrderedAt(prev, now, |first|);
  }

  ghost predicate IsOrderedAt(prev: Entries, now: Entries, n: nat)
    requires n <= |Difference(prev, now)|
  {
    var events := Difference(prev, now);
    && (forall e :: e in events[..n] ==> !e.Completed?) && IsSubsequence(EventIds(events[..n]), IdsOf(now))
    && (forall e :: e in events[n..] ==> e.Completed?) && IsSubsequence(EventIds(events[n..]), IdsOf(prev))
  }

  lemma OneMoreEvent(r: seq<Event>, rest: seq<Event>, x: string, ids: seq<string>)
    requires r == [] || (|r| == 1 && r[0].id == x)
    requires IsSubsequence(EventIds(rest), ids)
    ensures IsSubsequence(EventIds(r + rest), [x] + ids)
  {
    if r == [] {
      assert r + rest == rest;
      PrependRight(EventIds(rest), ids, x);
    } else {
      assert (r + rest)[1..] == rest;
      PrependBoth(EventIds(rest), ids, x);
    }
  }

  lemma {:induction false} ReportsInOrder(prev: Entries, entries: Entries)
    ensures IsSubsequence(EventIds(Reports(prev, entries)), IdsOf(entries))
    ensures forall e :: e in Reports(prev, entries) ==> !e.Completed?
  {
    if entries == [] {
      EmptyIsSubsequence(IdsOf(entries));
    } else {
      ReportsInOrder(prev, entries[1..]);
      OneMoreEvent(Report(Get(prev, entries[0].id), entries[0]), Reports(prev, entries[1..]), entries[0].id,
                   IdsOf(entries[1..]));
    }
  }

  lemma {:induction false} ClosingsInOrder(now: Entries, entries: Entries)
    ensures IsSubsequence(EventIds(Closings(now, entries)), IdsOf(entries))
    ensures forall e :: e in Closings(now, entries) ==> e.Completed?
  {
    if entries == [] {
      EmptyIsSubsequence(IdsOf(entries));
    } else {
      ClosingsInOrder(now, entries[1..]);
      OneMoreEvent(Closing(Get(now, entries[0].id), entries[0]), Closings(now, entries[1..]), entries[0].id,
                   IdsOf(entries[1..]));
    }
  }

  // ----- The grammar of a session's events -----

  datatype Phase = Absent | Open | Broken

  function After(phase: Phase, e: Event): Phase {
    match e
    case Created(_, _, _) => if phase == Absent then Open else Broken
    case Updated(_, _) => if phase == Open then Open else Broken
    case Completed(_, _, _) => if phase == Open then Absent else Broken
  }

  /** The automaton of (created updated* completed)*, possibly still open. */
  function Phases(phase: Phase, events: seq<Event>): Phase
    decreases |events|
  {
    if events == [] then phase else Phases(After(phase, events[0]), events[1..])
  }

  lemma {:induction false} PhasesConcat(phase: Phase, a: seq<Event>, b: seq<Event>)
    ensures Phases(phase, a + b) == Phases(Phases(phase, a), b)
    decreases |a|
  {
    if a == [] {
      assert a + b == b;
    } else {
      PhasesConcat(After(phase, a[0]), a[1..], b);
      assert (a + b)[1..] == a[1..] + b;
    }
  }

  function PhaseOf(entries: Entries, id: string): Phase {
    if Get(entries, id).Some? then Open else Absent
  }

  lemma PollKeepsGrammar(prev: Entries, now: Entries, id: string)
    requires UniqueIds(prev) && UniqueIds(now)
    ensures Phases(PhaseOf(prev, id), OfId(Difference(prev, now), id)) == PhaseOf(now, id)
  {
    OfIdDifference(prev, now, id);
    var events := OfId(Difference(prev, now), id);
    assert events != [] ==> events == [events[0]] && events[1..] == [];
  }

  // ----- The mirror -----

  function ApplyOne(view: Option<View>, e: Event): Option<View> {
    match e
    case Created(_, title, status) => Some(View(title, status))
    case Updated(_, changes) => if view.Some? then Some(Patched(view.value, changes)) else None
    case Completed(_, _, _) => None
  }

  function ReplayOne(view: Option<View>, events: seq<Event>): Option<View>
    decreases |events|
  {
    if events == [] then view else ReplayOne(ApplyOne(view, events[0]), events[1..])
  }

  /** Events of other sessions do not touch a session. */
  lemma {:induction false} ReplayIsLocal(mirror: Mirror, events: seq<Event>, id: string)
    ensures Look(Replay(mirror, events), id) == ReplayOne(Look(mirror, id), OfId(events, id))
    decreases |events|
  {
    if events != [] {
      ReplayIsLocal(Apply(mirror, events[0]), events[1..], id);
      if events[0].id == id {
        assert OfId(events, id)[1..] == OfId(events[1..], id);
      } else {
        assert OfId(events, id) == OfId(events[1..], id);
      }
    }
  }

  /** The title or the status may change, but not to nothing. */
  predicate NotBlanked(prev: Option<Session>, now: Option<Session>) {
    prev.Some? && now.Some? ==>
      && (prev.value.title != now.value.title ==> now.value.title.Truthy())
      && (prev.value.status != now.value.status ==> now.value.status.Truthy())
  }

  ghost predicate NothingBlanked(prev: Entries, now: Entries) {
    forall id: string :: NotBlanked(Get(prev, id), Get(now, id))
  }

  lemma PollKeepsViewIff(prev: Entries, now: Entries, id: string)
    requires UniqueIds(prev) && UniqueIds(now)
    ensures ReplayOne(Shown(prev, id), OfId(Difference(prev, now), id)) == Shown(now, id) <==>
            NotBlanked(Get(prev, id), Get(now, id))
  {
    OfIdDifference(prev, now, id);
    var events := OfId(Difference(prev, now), id);
    assert events != [] ==> events == [events[0]] && events[1..] == [];
  }

  /** Replaying what a poll reports takes a mirror of the old snapshot to a mirror of the
      new one, exactly if nothing was blanked. */
  lemma PollKeepsMirrorIff(mirror: Mirror, prev: Entries, now: Entries)
    requires UniqueIds(prev) && UniqueIds(now) && Mirrors(mirror, prev)
    ensures Mirrors(Replay(mirror, Difference(prev, now)), now) <==> NothingBlanked(prev, now)
  {
    var after := Replay(mirror, Difference(prev, now));
    forall id: string
      ensures Look(after, id) == Shown(now, id) <==> NotBlanked(Get(prev, id), Get(now, id))
    {
      ReplayIsLocal(mirror, Difference(prev, now), id);
      PollKeepsViewIff(prev, now, id);
    }
  }

  // ----- Whole runs -----

  /** What a poll met: its response, if any, and whether the socket was open. */
  datatype Poll = Poll(response: Option<seq<Session>>, connected: bool)

  function Baseline(entries: Entries, polls: seq<Poll>): Entries
    decreases |polls|
  {
    if polls == [] then entries
    else Baseline(if polls[0].response.Some? then Index(polls[0].response.value) else entries, polls[1..])
  }

  function EventsOf(entries: Entries, poll: Poll): seq<Event> {
    if poll.response.Some? then Difference(entries, Index(poll.response.value)) else []
  }

  function Emitted(entries: Entries, polls: seq<Poll>): seq<Event>
    decreases |polls|
  {
    if polls == [] then []
    else EventsOf(entries, polls[0]) + Emitted(Baseline(entries, polls[..1]), polls[1..])
  }

  function CarriedBy(entries: Entries, poll: Poll): seq<Event> {
    if poll.connected then EventsOf(entries, poll) else []
  }

  /** What the open socket carried. */
  function Delivered(entries: Entries, polls: seq<Poll>): seq<Event>
    decreases |polls|
  {
    if polls == [] then []
    else CarriedBy(entries, polls[0]) + Delivered(Baseline(entries, polls[..1]), polls[1..])
  }

  /** The socket is open whenever there is something to report. */
  predicate NothingDropped(entries: Entries, polls: seq<Poll>)
    decreases |polls|
  {
    polls != [] ==>
      && (polls[0].connected || EventsOf(entries, polls[0]) == [])
      && NothingDropped(Baseline(entries, polls[..1]), polls[1..])
  }

  ghost predicate NeverBlanked(entries: Entries, polls: seq<Poll>)
    decreases |polls|
  {
    polls != [] ==>
      && (polls[0].response.Some? ==> NothingBlanked(entries, Index(polls[0].response.value)))
      && NeverBlanked(Baseline(entries, polls[..1]), polls[1..])
  }

  lemma BaselineStep(entries: Entries, polls: seq<Poll>)
    requires polls != [] && UniqueIds(entries)
    ensures Baseline(entries, polls[..1])
         == if polls[0].response.Some? then Index(polls[0].response.value) else entries
    ensures Baseline(entries, polls) == Baseline(Baseline(entries, polls[..1]), polls[1..])
    ensures UniqueIds(Baseline(entries, polls[..1]))
  {
    assert polls[..1][1..] == [];
    if polls[0].response.Some? {
      IndexIsUnique([], polls[0].response.value);
    }
  }

  /** Over every run the emitted events of every session are well formed, and the session
      is still open exactly if the last snapshot has it. */
  lemma {:induction false} RunsAreWellFormed(entries: Entries, polls: seq<Poll>, id: string)
    requires UniqueIds(entries)
    ensures Phases(PhaseOf(entries, id), OfId(Emitted(entries, polls), id)) == PhaseOf(Baseline(entries, polls), id)
    decreases |polls|
  {
    if polls != [] {
      BaselineStep(entries, polls);
      var next := Baseline(entries, polls[..1]);
      var first, rest := EventsOf(entries, polls[0]), Emitted(next, polls[1..]);
      OfIdConcat(first, rest, id);
      PhasesConcat(PhaseOf(entries, id), OfId(first, id), OfId(rest, id));
      if polls[0].response.Some? {
        PollKeepsGrammar(entries, next, id);
      }
      RunsAreWellFormed(next, polls[1..], id);
    }
  }

  lemma {:induction false} ReplayConcat(mirror: Mirror, a: seq<Event>, b: seq<Event>)
    ensures Replay(mirror, a + b) == Replay(Replay(mirror, a), b)
    decreases |a|
  {
    if a == [] {
      assert a + b == b;
    } else {
      ReplayConcat(Apply(mirror, a[0]), a[1..], b);
      assert (a + b)[1..] == a[1..] + b;
    }
  }

  /** Over every run in which no known session is blanked, replaying the emitted events
      yields the last snapshot. */
  lemma {:induction false} RunsAreMirrored(mirror: Mirror, entries: Entries, polls: seq<Poll>)
    requires UniqueIds(entries) && Mirrors(mirror, entries)
    requires NeverBlanked(entries, polls)
    ensures Mirrors(Replay(mirror, Emitted(entries, polls)), Baseline(entries, polls))
    decreases |polls|
  {
    if polls != [] {
      BaselineStep(entries, polls);
      var next := Baseline(entries, polls[..1]);
      var first, rest := EventsOf(entries, polls[0]), Emitted(next, polls[1..]);
      ReplayConcat(mirror, first, rest);
      if polls[0].response.Some? {
        PollKeepsMirrorIff(mirror, entries, next);
      }
      RunsAreMirrored(Replay(mirror, first), next, polls[1..]);
    }
  }

  method RunPoll(plugin: Plugin, poll: Poll)
    modifies plugin
    ensures plugin.sessionWatchers == Baseline(old(plugin.sessionWatchers), [poll])
    ensures plugin.emitted == old(plugin.emitted) + EventsOf(old(plugin.sessionWatchers), poll)
    ensures plugin.sent == old(plugin.sent) + CarriedBy(old(plugin.sessionWatchers), poll)
  {
    plugin.connected := poll.connected;
    var ok := plugin.PollSessions(poll.response);
    assert [poll][1..] == [];
  }

  /** The plugin, polled over and over, keeps the baseline and sends the events of the run. */
  method RunPolls(plugin: Plugin, polls: seq<Poll>)
    modifies plugin
    ensures plugin.sessionWatchers == Baseline(old(plugin.sessionWatchers), polls)
    ensures plugin.emitted == old(plugin.emitted) + Emitted(old(plugin.sessionWatchers), polls)
    ensures plugin.sent == old(plugin.sent) + Delivered(old(plugin.sessionWatchers), polls)
  {
    ghost var emitted: seq<Event>, sent: seq<Event> := [], [];
    for k := 0 to |polls|
      invariant plugin.emitted == old(plugin.emitted) + emitted && plugin.sent == old(plugin.sent) + sent
      invariant Baseline(old(plugin.sessionWatchers), polls) == Baseline(plugin.sessionWatchers, polls[k..])
      invariant Emitted(old(plugin.sessionWatchers), polls) == emitted + Emitted(plugin.sessionWatchers, polls[k..])
      invariant Delivered(old(plugin.sessionWatchers), polls) == sent + Delivered(plugin.sessionWatchers, polls[k..])
    {
      ghost var entries := plugin.sessionWatchers;
      RunPoll(plugin, polls[k]);
      RunStep(entries, polls[k..], emitted, sent);
      assert polls[k..][1..] == polls[k + 1..];
      Regroup(old(plugin.emitted), emitted, EventsOf(entries, polls[k]));
      Regroup(old(plugin.sent), sent, CarriedBy(entries, polls[k]));
      emitted, sent := emitted + EventsOf(entries, polls[k]), sent + CarriedBy(entries, polls[k]);
    }
    assert polls[|polls|..] == [];
  }

  lemma RunStep(entries: Entries, polls: seq<Poll>, emitted: seq<Event>, sent: seq<Event>)
    requires polls != []
    ensures var next := Baseline(entries, [polls[0]]);
            && Baseline(entries, polls) == Baseline(next, polls[1..])
            && emitted + Emitted(entries, polls) == emitted + EventsOf(entries, polls[0]) + Emitted(next, polls[1..])
            && sent + Delivered(entries, polls) == sent + CarriedBy(entries, polls[0]) + Delivered(next, polls[1..])
  {
    assert polls[..1] == [polls[0]] && [polls[0]][1..] == [];
    var next := Baseline(entries, [polls[0]]);
    Regroup(emitted, EventsOf(entries, polls[0]), Emitted(next, polls[1..]));
    Regroup(sent, CarriedBy(entries, polls[0]), Delivered(next, polls[1..]));
  }

  // ----- Delivered events and the grammar -----

  /** What a poll says about a session. */
  function Said(entries: Entries, poll: Poll, id: string): seq<Event> {
    OfId(EventsOf(entries, poll), id)
  }

  /** A poll with the socket closed at which the session comes or goes: the receiver misses
      the event that says so. */
  predicate Misses(entries: Entries, poll: Poll, id: string) {
    !poll.connected && PhaseOf(Baseline(entries, [poll]), id) != PhaseOf(entries, id)
  }

  /** After a missed created or completed event nothing about the session is delivered until
      the opposite one is missed as well. */
  predicate SilentWhileAstray(entries: Entries, polls: seq<Poll>, id: string, astray: bool)
    decreases |polls|
  {
    polls != [] ==>
      && (polls[0].connected && Said(entries, polls[0], id) != [] ==> !astray)
      && SilentWhileAstray(Baseline(entries, [polls[0]]), polls[1..], id, astray != Misses(entries, polls[0], id))
  }

  lemma {:induction false} BrokenStays(events: seq<Event>)
    ensures Phases(Broken, events) == Broken
    decreases |events|
  {
    if events != [] {
      BrokenStays(events[1..]);
    }
  }

  /** The phase a receiver is in that has missed an odd number of comings and goings. */
  function Believed(entries: Entries, id: string, astray: bool): Phase {
    if !astray then PhaseOf(entries, id) else if PhaseOf(entries, id) == Open then Absent else Open
  }

  /** One delivered poll, heard by a receiver in step or astray. */
  lemma HeardPoll(entries: Entries, poll: Poll, id: string, astray: bool)
    requires UniqueIds(entries)
    ensures var said, next := Said(entries, poll, id), Baseline(entries, [poll]);
            && (said == [] ==> PhaseOf(next, id) == PhaseOf(entries, id))
            && (said != [] && !astray ==> Phases(PhaseOf(entries, id), said) == PhaseOf(next, id))
            && (said != [] && astray ==> Phases(Believed(entries, id, true), said) == Broken)
    ensures UniqueIds(Baseline(entries, [poll]))
  {
    BaselineStep(entries, [poll]);
    assert [poll][..1] == [poll];
    if poll.response.Some? {
      PollKeepsGrammar(entries, Index(poll.response.value), id);
      OfIdDifference(entries, Index(poll.response.value), id);
      var said := Said(entries, poll, id);
      assert said != [] ==> said == [said[0]] && said[1..] == [];
    }
  }

  lemma DeliveredStep(entries: Entries, polls: seq<Poll>, id: string)
    requires polls != []
    ensures var later := Delivered(Baseline(entries, [polls[0]]), polls[1..]);
            OfId(Delivered(entries, polls), id)
            == (if polls[0].connected then Said(entries, polls[0], id) else []) + OfId(later, id)
  {
    assert polls[..1] == [polls[0]];
    OfIdConcat(CarriedBy(entries, polls[0]), Delivered(Baseline(entries, [polls[0]]), polls[1..]), id);
  }

  /** Over every run, what the receiver hears about a session is well formed exactly if it
      hears nothing while it is astray. */
  lemma {:induction false} DeliveredIsWellFormedIff(entries: Entries, polls: seq<Poll>, id: string, astray: bool)
    requires UniqueIds(entries)
    ensures Phases(Believed(entries, id, astray), OfId(Delivered(entries, polls), id)) != Broken <==>
            SilentWhileAstray(entries, polls, id, astray)
    decreases |polls|
  {
    if polls != [] {
      var poll, next := polls[0], Baseline(entries, [polls[0]]);
      var heard := if poll.connected then Said(entries, poll, id) else [];
      var later := OfId(Delivered(next, polls[1..]), id);
      HeardPoll(entries, poll, id, astray);
      DeliveredStep(entries, polls, id);
      PhasesConcat(Believed(entries, id, astray), heard, later);
      if heard != [] && astray {
        BrokenStays(later);
      } else {
        DeliveredIsWellFormedIff(next, polls[1..], id, astray != Misses(entries, poll, id));
      }
    }
  }

  // ----- Delivered events and the mirror -----

  ghost predicate SameShown(prev: Entries, now: Entries) {
    forall id: string :: Shown(prev, id) == Shown(now, id)
  }

  /** The poll keeps a mirror: through an open socket, if nothing becomes empty; through a
      closed one, if there is nothing to see. */
  ghost predicate KeepsStep(entries: Entries, poll: Poll) {
    poll.response.Some? ==>
      var now := Index(poll.response.value);
      if poll.connected then NothingBlanked(entries, now) else SameShown(entries, now)
  }

  ghost predicate AllKeepStep(entries: Entries, polls: seq<Poll>)
    decreases |polls|
  {
    polls != [] ==> KeepsStep(entries, polls[0]) && AllKeepStep(Baseline(entries, [polls[0]]), polls[1..])
  }

  lemma PollKeepsStepIff(mirror: Mirror, entries: Entries, poll: Poll)
    requires UniqueIds(entries) && Mirrors(mirror, entries)
    ensures Mirrors(Replay(mirror, CarriedBy(entries, poll)), Baseline(entries, [poll])) <==> KeepsStep(entries, poll)
    ensures UniqueIds(Baseline(entries, [poll]))
  {
    BaselineStep(entries, [poll]);
    assert [poll][..1] == [poll];
    if poll.response.Some? && poll.connected {
      PollKeepsMirrorIff(mirror, entries, Index(poll.response.value));
    }
  }

  /** The receiver's copy after the first `n` polls shows the snapshot of that moment. */
  ghost predicate InStep(mirror: Mirror, entries: Entries, polls: seq<Poll>, n: nat)
    requires n <= |polls|
  {
    Mirrors(Replay(mirror, Delivered(entries, polls[..n])), Baseline(entries, polls[..n]))
  }

  lemma InStepLater(mirror: Mirror, entries: Entries, polls: seq<Poll>, n: nat)
    requires 0 < n <= |polls|
    ensures InStep(mirror, entries, polls, n) <==>
            InStep(Replay(mirror, CarriedBy(entries, polls[0])), Baseline(entries, [polls[0]]), polls[1..], n - 1)
  {
    var first := polls[..n];
    assert first[0] == polls[0] && first[..1] == [polls[0]] && first[1..] == polls[1..][..n - 1];
    assert [polls[0]][1..] == [];
    ReplayConcat(mirror, CarriedBy(entries, polls[0]), Delivered(Baseline(entries, [polls[0]]), first[1..]));
  }

  lemma InStepFirst(mirror: Mirror, entries: Entries, polls: seq<Poll>)
    ensures InStep(mirror, entries, polls, 0) <==> Mirrors(mirror, entries)
  {
    assert polls[..0] == [];
  }

  /** Over every run, the receiver is in step after every poll exactly if every poll keeps it
      in step: nothing is blanked while the socket is open, and nothing to see changes while
      it is closed. */
  lemma {:induction false} AlwaysInStepIff(mirror: Mirror, entries: Entries, polls: seq<Poll>)
    requires UniqueIds(entries) && Mirrors(mirror, entries)
    ensures (forall n: nat :: n <= |polls| ==> InStep(mirror, entries, polls, n)) <==> AllKeepStep(entries, polls)
    decreases |polls|
  {
    InStepFirst(mirror, entries, polls);
    if polls != [] {
      var after, next := Replay(mirror, CarriedBy(entries, polls[0])), Baseline(entries, [polls[0]]);
      PollKeepsStepIff(mirror, entries, polls[0]);
      forall n: nat | 0 < n <= |polls|
        ensures InStep(mirror, entries, polls, n) <==> InStep(after, next, polls[1..], n - 1)
      {
        InStepLater(mirror, entries, polls, n);
      }
      InStepFirst(after, next, polls[1..]);
      if KeepsStep(entries, polls[0]) {
        AlwaysInStepIff(after, next, polls[1..]);
        var always := forall n: nat :: n <= |polls| ==> InStep(mirror, entries, polls, n);
        forall n: nat | always && n <= |polls[1..]|
          ensures InStep(after, next, polls[1..], n)
        {
          assert InStep(mirror, entries, polls, n + 1);
        }
      } else {
        assert !InStep(mirror, entries, polls, 1);
      }
    }
  }

  /** The same run with the socket always open. */
  function Online(polls: seq<Poll>): seq<Poll> {
    seq(|polls|, i requires 0 <= i < |polls| => polls[i].(connected := true))
  }

  lemma {:induction false} OnlineDelivers(entries: Entries, polls: seq<Poll>)
    ensures Delivered(entries, Online(polls)) == Emitted(entries, polls)
    ensures Baseline(entries, Online(polls)) == Baseline(entries, polls)
    ensures AllKeepStep(entries, Online(polls)) <==> NeverBlanked(entries, polls)
    decreases |polls|
  {
    if polls != [] {
      var all := Online(polls);
      assert all[..1] == [all[0]] && polls[..1] == [polls[0]] && all[1..] == Online(polls[1..]);
      assert [all[0]][1..] == [] && [polls[0]][1..] == [];
      var next := Baseline(entries, [polls[0]]);
      assert Baseline(entries, [all[0]]) == next;
      assert CarriedBy(entries, all[0]) == EventsOf(entries, polls[0]);
      assert Delivered(entries, all) == CarriedBy(entries, all[0]) + Delivered(next, Online(polls[1..]));
      assert Baseline(entries, all) == Baseline(next, Online(polls[1..]));
      assert Baseline(entries, polls) == Baseline(next, polls[1..]);
      OnlineDelivers(next, polls[1..]);
    }
  }

  /** For the emitted events: their replay shows the snapshot after every poll exactly if no
      known title or status ever becomes empty. */
  lemma EmittedIsMirroredIff(mirror: Mirror, entries: Entries, polls: seq<Poll>)
    requires UniqueIds(entries) && Mirrors(mirror, entries)
    ensures (forall n: nat :: n <= |polls| ==>
               Mirrors(Replay(mirror, Emitted(entries, polls[..n])), Baseline(entries, polls[..n]))) <==>
            NeverBlanked(entries, polls)
  {
    var all := Online(polls);
    AlwaysInStepIff(mirror, entries, all);
    OnlineDelivers(entries, polls);
    forall n: nat | n <= |polls|
      ensures InStep(mirror, entries, all, n) <==>
              Mirrors(Replay(mirror, Emitted(entries, polls[..n])), Baseline(entries, polls[..n]))
    {
      assert all[..n] == Online(polls[..n]);
      OnlineDelivers(entries, polls[..n]);
    }
  }

  /** Titles and statuses that are never empty are never blanked. */
  ghost predicate AllTruthy(sessions: seq<Session>) {
    forall s :: s in sessions ==> s.title.Truthy() && s.status.Truthy()
  }

  lemma {:induction false} IndexComesFrom(entries: Entries, sessions: seq<Session>, id: string)
    ensures var r := Get(IndexFrom(entries, sessions), id);
            r.Some? ==> r.value in sessions || r == Get(entries, id)
    decreases |sessions|
  {
    if sessions != [] {
      IndexComesFrom(Set(entries, sessions[0]), sessions[1..], id);
    }
  }

  lemma {:induction false} TruthyIsNeverBlanked(entries: Entries, polls: seq<Poll>)
    requires forall p :: p in polls && p.response.Some? ==> AllTruthy(p.response.value)
    ensures NeverBlanked(entries, polls)
    decreases |polls|
  {
    if polls != [] {
      assert polls[0] in polls;
      if polls[0].response.Some? {
        var sessions := polls[0].response.value;
        forall id: string | Get(Index(sessions), id).Some?
          ensures Get(Index(sessions), id).value in sessions
        {
          IndexComesFrom([], sessions, id);
        }
      }
      TruthyIsNeverBlanked(Baseline(entries, polls[..1]), polls[1..]);
    }
  }

  /** From an empty start, with titles and statuses never empty and the socket open whenever
      there is something to say, the receiver's copy equals the last snapshot after any
      number of polls, failed ones included. */
  lemma DeliveredRunsAreMirrored(polls: seq<Poll>)
    requires forall p :: p in polls && p.response.Some? ==> AllTruthy(p.response.value)
    requires NothingDropped([], polls)
    ensures Mirrors(Replay(map[], Delivered([], polls)), Baseline([], polls))
  {
    NothingDroppedDelivers([], polls);
    TruthyIsNeverBlanked([], polls);
    RunsAreMirrored(map[], [], polls);
  }

  lemma {:induction false} NothingDroppedDelivers(entries: Entries, polls: seq<Poll>)
    requires NothingDropped(entries, polls)
    ensures Delivered(entries, polls) == Emitted(entries, polls)
    decreases |polls|
  {
    if polls != [] {
      NothingDroppedDelivers(Baseline(entries, polls[..1]), polls[1..]);
    }
  }

  lemma IndexOfOne(s: Session)
    ensures Index([s]) == [s]
  {
    assert [s][1..] == [];
    assert IndexFrom([], [s]) == IndexFrom(Set([], s), []);
  }

  lemma OneChange(s: Session, t: Session)
    requires s.id == t.id && Changed(s, t)
    ensures Difference([s], [t]) == [Updated(t.id, DiffChanges(s, t))]
  {
    assert [t][1..] == [] && [s][1..] == [];
    assert Get([s], t.id) == Some(s) && Get([t], s.id) == Some(t);
    assert Reports([s], [t]) == Report(Some(s), t) + Reports([s], []);
    assert Closings([t], [s]) == Closing(Some(t), s) + Closings([t], []);
  }

  /** A run in which the first poll finds the socket closed: the session's first delivered
      event is an update, which no well-formed trace begins with. */
  lemma ClosedSocketBreaksTrace(s: Session, t: Session)
    requires s.id == t.id && s.title != t.title
    ensures var polls := [Poll(Some([s]), false), Poll(Some([t]), true)];
            Phases(Absent, OfId(Delivered([], polls), s.id)) == Broken
  {
    var polls := [Poll(Some([s]), false), Poll(Some([t]), true)];
    var second := [Poll(Some([t]), true)];
    assert polls[1..] == second && second[1..] == [];
    IndexOfOne(s);
    IndexOfOne(t);
    BaselineStep([], polls);
    var events := EventsOf([s], second[0]);
    OneChange(s, t);
    assert events == [Updated(t.id, DiffChanges(s, t))];
    assert Delivered([s], second) == events;
    assert Delivered([], polls) == events;
    assert events[1..] == [];
  }
}
