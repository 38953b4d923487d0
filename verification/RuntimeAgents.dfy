/** The agent list of backend/internal/accruntime/ecosystem.go: two faces of every agent,
    merged by fixed rules. */
module RuntimeAgents {
  import opened Sequences
  import opened Wrappers

  datatype Agent = Agent(
    ID: string, Name: string, Type: string, Status: string, LastSeenAt: string,
    Capabilities: seq<string>,
    AgentID: string, Kind: string, CommunicationMode: string, PID: int, Command: string,
    LastActiveAt: string, State: string)

  const NONE := Agent("", "", "", "", "", [], "", "", "", 0, "", "", "")

  const DENIED := "denied_by_policy"

  function Or(s: string, fallback: string): string {
    if s == "" then fallback else s
  }

  /** `normalize`: the fields of the runtime shape folded into those of the registry shape. */
  function Normalized(a: Agent): Agent {
    a.(ID := Or(a.ID, a.AgentID), Name := Or(a.Name, a.AgentID), Type := Or(a.Type, a.Kind),
       LastSeenAt := Or(a.LastSeenAt, a.LastActiveAt), Status := Or(a.Status, a.State))
  }

  /** `agentKey`. */
  function AgentKey(a: Agent): string {
    Or(a.AgentID, a.ID)
  }

  datatype Faces = Faces(push: Option<Agent>, read: Option<Agent>)

  /** `fillEmpty`. */
  function Filled(dst: Agent, src: Agent): Agent {
    Agent(Or(dst.ID, src.ID), Or(dst.Name, src.Name), Or(dst.Type, src.Type), Or(dst.Status, src.Status),
          Or(dst.LastSeenAt, src.LastSeenAt),
          if dst.Capabilities == [] then src.Capabilities else dst.Capabilities,
          Or(dst.AgentID, src.AgentID), Or(dst.Kind, src.Kind),
          Or(dst.CommunicationMode, src.CommunicationMode),
          if dst.PID == 0 then src.PID else dst.PID,
          Or(dst.Command, src.Command), Or(dst.LastActiveAt, src.LastActiveAt), Or(dst.State, src.State))
  }

  /** `resolveAgent`. */
  function Resolved(f: Faces): Agent {
    var out := if f.push.Some? then f.push.value else NONE;
    var merged :=
      if f.read.Some? then
        var filled := Filled(out, f.read.value);
        if f.read.value.Status != "" then filled.(Status := f.read.value.Status) else filled
      else out;
    if f.push.Some? && f.push.value.State == DENIED then merged.(Status := DENIED) else merged
  }

  // ----- What the runtimes report -----

  datatype Runtime = Runtime(id: string, inventory: seq<Agent>)

  /** One record under its key, on the push face or on the read face. */
  datatype Sighting = Sighting(pushed: bool, agent: Agent) {
    function Key(): string {
      AgentKey(agent)
    }
  }

  /** A record without a key does not count. */
  function SightingOf(a: Agent, pushed: bool): seq<Sighting> {
    var s := Sighting(pushed, Normalized(a));
    if s.Key() == "" then [] else [s]
  }

  /** The records of one list that have a key. */
  function SightingsIn(agents: seq<Agent>, pushed: bool): seq<Sighting> {
    if agents == [] then [] else SightingOf(agents[0], pushed) + SightingsIn(agents[1..], pushed)
  }

  /** What one runtime shows; `None` is a read face that cannot be reached. */
  function SightingsOf(rt: Runtime, read: Option<seq<Agent>>): seq<Sighting> {
    SightingsIn(rt.inventory, true) + if read.None? then [] else SightingsIn(read.value, false)
  }

  function Sightings(runtimes: seq<Runtime>, answers: seq<Option<seq<Agent>>>): seq<Sighting>
    requires |runtimes| == |answers|
  {
    if runtimes == [] then [] else SightingsOf(runtimes[0], answers[0]) + Sightings(runtimes[1..], answers[1..])
  }

  // ----- What should come out -----

  /** The keys in the order in which they were first seen. */
  function FirstSeen(sightings: seq<Sighting>): seq<string> {
    if sightings == [] then []
    else
      var before, s := FirstSeen(sightings[..|sightings| - 1]), sightings[|sightings| - 1];
      if s.Key() in before then before else before + [s.Key()]
  }

  /** The last record of a key on a face. */
  function LastSeen(sightings: seq<Sighting>, key: string, pushed: bool): Option<Agent> {
    if sightings == [] then None
    else
      var s := sightings[|sightings| - 1];
      if s.pushed == pushed && s.Key() == key then Some(s.agent)
      else LastSeen(sightings[..|sightings| - 1], key, pushed)
  }

  function FacesOf(sightings: seq<Sighting>, key: string): Faces {
    Faces(LastSeen(sightings, key, true), LastSeen(sightings, key, false))
  }

  function Merged(sightings: seq<Sighting>): seq<Agent> {
    var keys := FirstSeen(sightings);
    seq(|keys|, i requires 0 <= i < |keys| => Resolved(FacesOf(sightings, keys[i])))
  }

  // ----- The loops -----

  /** The table and the key order after the sightings so far. */
  ghost predicate Holds(byID: map<string, Faces>, order: seq<string>, sightings: seq<Sighting>) {
    && order == FirstSeen(sightings)
    && (forall key :: key in byID <==> key in order)
    && (forall key :: key in byID ==> byID[key] == FacesOf(sightings, key))
  }

  lemma {:induction false} NotSeen(sightings: seq<Sighting>, key: string)
    ensures key in FirstSeen(sightings) <==> exists i :: 0 <= i < |sightings| && sightings[i].Key() == key
    ensures key !in FirstSeen(sightings) ==>
              LastSeen(sightings, key, true) == None && LastSeen(sightings, key, false) == None
  {
    if sightings != [] {
      var n := |sightings| - 1;
      NotSeen(sightings[..n], key);
      if key in FirstSeen(sightings[..n]) {
        var i :| 0 <= i < n && sightings[..n][i].Key() == key;
        assert sightings[i].Key() == key;
      } else if sightings[n].Key() != key {
        assert forall i :: 0 <= i < n ==> sightings[i] == sightings[..n][i];
      }
    }
  }

  /** `slot(key)` and the assignment to one of its faces. */
  method Put(byID: map<string, Faces>, order: seq<string>, s: Sighting, ghost sightings: seq<Sighting>)
      returns (byID': map<string, Faces>, order': seq<string>)
    requires Holds(byID, order, sightings)
    ensures Holds(byID', order', sightings + [s])
  {
    byID', order' := byID, order;
    var key := s.Key();
    ghost var all := sightings + [s];
    assert all[..|all| - 1] == sightings;
    if key !in byID' {
      NotSeen(sightings, key);
      byID' := byID'[key := Faces(None, None)];
      order' := order' + [key];
    }
    var f := byID'[key];
    byID' := byID'[key := if s.pushed then f.(push := Some(s.agent)) else f.(read := Some(s.agent))];
  }

  /** The loop over one list of agents. */
  method PutAll(byID: map<string, Faces>, order: seq<string>, agents: seq<Agent>, pushed: bool,
                ghost sightings: seq<Sighting>)
      returns (byID': map<string, Faces>, order': seq<string>)
    requires Holds(byID, order, sightings)
    ensures Holds(byID', order', sightings + SightingsIn(agents, pushed))
  {
    byID', order' := byID, order;
    ghost var seen := sightings;
    for k := 0 to |agents|
      invariant Holds(byID', order', seen)
      invariant sightings + SightingsIn(agents, pushed) == seen + SightingsIn(agents[k..], pushed)
    {
      assert agents[k..][0] == agents[k] && agents[k..][1..] == agents[k + 1..];
      ghost var more := SightingOf(agents[k], pushed);
      Regroup(seen, more, SightingsIn(agents[k + 1..], pushed));
      var a := Normalized(agents[k]);
      if AgentKey(a) == "" {
        assert seen + more == seen;
        continue;
      }
      byID', order' := Put(byID', order', Sighting(pushed, a), seen);
      seen := seen + more;
    }
    assert agents[|agents|..] == [];
    assert seen == sightings + SightingsIn(agents, pushed);
  }

  /** Both faces of one runtime; a read face that cannot be reached is skipped. */
  method PutRuntime(byID: map<string, Faces>, order: seq<string>, rt: Runtime, answer: Option<seq<Agent>>,
                    ghost seen: seq<Sighting>)
      returns (byID': map<string, Faces>, order': seq<string>)
    requires Holds(byID, order, seen)
    ensures Holds(byID', order', seen + SightingsOf(rt, answer))
  {
    ghost var pushed := SightingsIn(rt.inventory, true);
    byID', order' := PutAll(byID, order, rt.inventory, true, seen);
    if answer.None? {
      assert pushed + [] == pushed;
      return;
    }
    Regroup(seen, pushed, SightingsIn(answer.value, false));
    byID', order' := PutAll(byID', order', answer.value, false, seen + pushed);
  }

  /** The last loop of `ListRuntimeAgents`. */
  method ResolveAll(byID: map<string, Faces>, order: seq<string>, ghost seen: seq<Sighting>) returns (out: seq<Agent>)
    requires Holds(byID, order, seen)
    ensures out == Merged(seen)
  {
    out := [];
    for i := 0 to |order|
      invariant |out| == i && forall k :: 0 <= k < i ==> out[k] == Merged(seen)[k]
    {
      assert order[i] in byID;
      out := out + [Resolved(byID[order[i]])];
    }
  }

  lemma NextRuntime(seen: seq<Sighting>, runtimes: seq<Runtime>, answers: seq<Option<seq<Agent>>>)
    requires |runtimes| == |answers| && runtimes != []
    ensures seen + Sightings(runtimes, answers)
         == seen + SightingsOf(runtimes[0], answers[0]) + Sightings(runtimes[1..], answers[1..])
  {
    Regroup(seen, SightingsOf(runtimes[0], answers[0]), Sightings(runtimes[1..], answers[1..]));
  }

  /** `ListRuntimeAgents`, given what each read face answers. */
  method ListRuntimeAgents(runtimes: seq<Runtime>, answers: seq<Option<seq<Agent>>>) returns (out: seq<Agent>)
    requires |runtimes| == |answers|
    ensures out == Merged(Sightings(runtimes, answers))
  {
    var byID: map<string, Faces>, order: seq<string> := map[], [];
    ghost var seen: seq<Sighting> := [];
    for k := 0 to |runtimes|
      invariant Holds(byID, order, seen)
      invariant Sightings(runtimes, answers) == seen + Sightings(runtimes[k..], answers[k..])
    {
      assert runtimes[k..][1..] == runtimes[k + 1..] && answers[k..][1..] == answers[k + 1..];
      NextRuntime(seen, runtimes[k..], answers[k..]);
      byID, order := PutRuntime(byID, order, runtimes[k], answers[k], seen);
      seen := seen + SightingsOf(runtimes[k], answers[k]);
    }
    assert runtimes[|runtimes|..] == [] && seen == Sightings(runtimes, answers);
    out := ResolveAll(byID, order, seen);
  }
}
