/** What the merged agent list guarantees, and the choice of a dispatch target next to it. */
module AgentDispatch {
  import opened Whitespace
  import opened Wrappers
  import opened RuntimeAgents
  import opened Sequences

  // ----- The keys of the list -----

  ghost predicate Distinct<T>(s: seq<T>) {
    forall i, j :: 0 <= i < j < |s| ==> s[i] != s[j]
  }

  lemma {:induction false} FirstSeenIsDistinct(sightings: seq<Sighting>)
    ensures Distinct(FirstSeen(sightings))
  {
    if sightings != [] {
      FirstSeenIsDistinct(sightings[..|sightings| - 1]);
    }
  }

  /** Where a key was first seen. */
  ghost predicate FirstAt(sightings: seq<Sighting>, key: string, i: nat) {
    i < |sightings| && sightings[i].Key() == key && forall j :: 0 <= j < i ==> sightings[j].Key() != key
  }

  /** The keys come in the order of their first sightings. */
  lemma {:induction false} FirstSeenIsOrdered(sightings: seq<Sighting>, a: nat, b: nat, i: nat, j: nat)
    requires a < b < |FirstSeen(sightings)|
    requires FirstAt(sightings, FirstSeen(sightings)[a], i) && FirstAt(sightings, FirstSeen(sightings)[b], j)
    ensures i < j
  {
    var n := |sightings| - 1;
    var front := sightings[..n];
    var keys := FirstSeen(front);
    FirstSeenIsDistinct(sightings);
    NotSeen(front, FirstSeen(sightings)[a]);
    NotSeen(front, FirstSeen(sightings)[b]);
    if b < |keys| {
      var k :| 0 <= k < n && front[k].Key() == keys[a];
      var l :| 0 <= l < n && front[l].Key() == keys[b];
      assert sightings[k].Key() == keys[a] && sightings[l].Key() == keys[b];
      assert forall m :: 0 <= m < n ==> front[m] == sightings[m];
      FirstSeenIsOrdered(front, a, b, i, j);
    } else {
      var k :| 0 <= k < n && front[k].Key() == keys[a];
      assert sightings[k].Key() == keys[a];
      assert forall m :: 0 <= m < n ==> front[m] == sightings[m];
    }
  }

  lemma {:induction false} LastSeenHasKey(sightings: seq<Sighting>, key: string, pushed: bool)
    ensures var a := LastSeen(sightings, key, pushed);
            a.Some? ==> AgentKey(a.value) == key && Sighting(pushed, a.value) in sightings
    ensures LastSeen(sightings, key, pushed).None? <==>
            forall s :: s in sightings ==> s.pushed != pushed || s.Key() != key
  {
    if sightings != [] {
      LastSeenHasKey(sightings[..|sightings| - 1], key, pushed);
      var s := sightings[|sightings| - 1];
      assert forall t :: t in sightings <==> t in sightings[..|sightings| - 1] || t == s;
    }
  }

  /** Merging the two faces keeps the key they share. */
  lemma MergingKeepsKey(f: Faces, key: string)
    requires f.push.Some? || f.read.Some?
    requires f.push.Some? ==> AgentKey(f.push.value) == key
    requires f.read.Some? ==> AgentKey(f.read.value) == key
    ensures AgentKey(Resolved(f)) == key
  {
  }

  lemma SightingsHaveKeys(agents: seq<Agent>, pushed: bool)
    ensures forall s :: s in SightingsIn(agents, pushed) ==> s.Key() != "" && s.pushed == pushed
  {
  }

  lemma {:induction false} AllHaveKeys(runtimes: seq<Runtime>, answers: seq<Option<seq<Agent>>>)
    requires |runtimes| == |answers|
    ensures forall s :: s in Sightings(runtimes, answers) ==> s.Key() != ""
  {
    if runtimes != [] {
      AllHaveKeys(runtimes[1..], answers[1..]);
      SightingsHaveKeys(runtimes[0].inventory, true);
      if answers[0].Some? {
        SightingsHaveKeys(answers[0].value, false);
      }
    }
  }

  /** Every key that was seen is listed exactly once, in the order of first sightings, and
      nothing else is. */
  lemma EachKeyOnce(sightings: seq<Sighting>)
    ensures var out := Merged(sightings);
            && |out| == |FirstSeen(sightings)|
            && (forall i :: 0 <= i < |out| ==> AgentKey(out[i]) == FirstSeen(sightings)[i])
            && (forall i, j :: 0 <= i < j < |out| ==> AgentKey(out[i]) != AgentKey(out[j]))
  {
    var keys, out := FirstSeen(sightings), Merged(sightings);
    FirstSeenIsDistinct(sightings);
    forall i | 0 <= i < |out|
      ensures AgentKey(out[i]) == keys[i]
    {
      NotSeen(sightings, keys[i]);
      var k :| 0 <= k < |sightings| && sightings[k].Key() == keys[i];
      var s := sightings[k];
      assert s in sightings;
      LastSeenHasKey(sightings, keys[i], true);
      LastSeenHasKey(sightings, keys[i], false);
      MergingKeepsKey(FacesOf(sightings, keys[i]), keys[i]);
    }
  }

  /** No listed agent has an empty key: one without any id is not listed at all. */
  lemma NoEmptyKeyListed(runtimes: seq<Runtime>, answers: seq<Option<seq<Agent>>>)
    requires |runtimes| == |answers|
    ensures forall out :: out in Merged(Sightings(runtimes, answers)) ==> AgentKey(out) != ""
  {
    var all := Sightings(runtimes, answers);
    AllHaveKeys(runtimes, answers);
    EachKeyOnce(all);
    NotSeen(all, "");
  }

  // ----- Read faces that fail -----

  lemma {:induction false} PushedIsSeen(runtimes: seq<Runtime>, answers: seq<Option<seq<Agent>>>, s: Sighting)
    requires |runtimes| == |answers|
    ensures s.pushed ==> (s in Sightings(runtimes, answers) <==>
                          exists i :: 0 <= i < |runtimes| && s in SightingsIn(runtimes[i].inventory, true))
  {
    if s.pushed && runtimes != [] {
      PushedIsSeen(runtimes[1..], answers[1..], s);
      if answers[0].Some? {
        SightingsHaveKeys(answers[0].value, false);
      }
      if s in Sightings(runtimes[1..], answers[1..]) {
        var i :| 0 <= i < |runtimes[1..]| && s in SightingsIn(runtimes[1..][i].inventory, true);
        assert s in SightingsIn(runtimes[i + 1].inventory, true);
      }
      forall i | 0 <= i < |runtimes| && s in SightingsIn(runtimes[i].inventory, true)
        ensures s in Sightings(runtimes, answers)
      {
        assert i > 0 ==> runtimes[1..][i - 1] == runtimes[i];
      }
    }
  }

  /** Whatever read faces fail, every agent that was pushed with a key is listed. */
  lemma FailuresRemoveNoPushedAgent(runtimes: seq<Runtime>, answers: seq<Option<seq<Agent>>>, i: nat, s: Sighting)
    requires |runtimes| == |answers|
    requires i < |runtimes| && s in SightingsIn(runtimes[i].inventory, true)
    ensures exists j :: 0 <= j < |Merged(Sightings(runtimes, answers))| &&
                        AgentKey(Merged(Sightings(runtimes, answers))[j]) == s.Key()
  {
    var all := Sightings(runtimes, answers);
    SightingsHaveKeys(runtimes[i].inventory, true);
    PushedIsSeen(runtimes, answers, s);
    assert s in all;
    var k :| 0 <= k < |all| && all[k] == s;
    NotSeen(all, s.Key());
    assert all[k].Key() == s.Key();
    var j :| 0 <= j < |FirstSeen(all)| && FirstSeen(all)[j] == s.Key();
    EachKeyOnce(all);
    assert AgentKey(Merged(all)[j]) == s.Key();
  }

  /** The sightings of one key alone decide what is listed for it. */
  function OfKey(sightings: seq<Sighting>, key: string): seq<Sighting> {
    if sightings == [] then []
    else
      var n := |sightings| - 1;
      OfKey(sightings[..n], key) + if sightings[n].Key() == key then [sightings[n]] else []
  }

  lemma {:induction false} LastSeenIsLocal(sightings: seq<Sighting>, key: string, pushed: bool)
    ensures LastSeen(sightings, key, pushed) == LastSeen(OfKey(sightings, key), key, pushed)
  {
    if sightings != [] {
      var n := |sightings| - 1;
      LastSeenIsLocal(sightings[..n], key, pushed);
      if sightings[n].Key() == key {
        var own := OfKey(sightings, key);
        assert own[..|own| - 1] == OfKey(sightings[..n], key);
      } else {
        assert OfKey(sightings, key) == OfKey(sightings[..n], key);
      }
    }
  }

  lemma {:induction false} OfKeyConcat(a: seq<Sighting>, b: seq<Sighting>, key: string)
    ensures OfKey(a + b, key) == OfKey(a, key) + OfKey(b, key)
  {
    if b == [] {
      assert a + b == a;
    } else {
      var n := |b| - 1;
      OfKeyConcat(a, b[..n], key);
      assert (a + b)[..|a + b| - 1] == a + b[..n];
    }
  }

  lemma {:induction false} OfKeyEmpty(sightings: seq<Sighting>, key: string)
    requires forall s :: s in sightings ==> s.Key() != key
    ensures OfKey(sightings, key) == []
  {
    if sightings != [] {
      var n := |sightings| - 1;
      assert sightings[n] in sightings;
      OfKeyEmpty(sightings[..n], key);
    }
  }

  /** A read face that fails changes nothing for the agents it would not have reported. */
  lemma {:induction false} FailureIsLocal(runtimes: seq<Runtime>, answers: seq<Option<seq<Agent>>>, i: nat, key: string)
    requires |runtimes| == |answers| && i < |answers|
    requires answers[i].Some? ==> forall s :: s in SightingsIn(answers[i].value, false) ==> s.Key() != key
    ensures OfKey(Sightings(runtimes, answers[i := None]), key) == OfKey(Sightings(runtimes, answers), key)
    ensures FacesOf(Sightings(runtimes, answers[i := None]), key) == FacesOf(Sightings(runtimes, answers), key)
  {
    var failed := answers[i := None];
    var here, later := SightingsOf(runtimes[0], answers[0]), Sightings(runtimes[1..], answers[1..]);
    var here', later' := SightingsOf(runtimes[0], failed[0]), Sightings(runtimes[1..], failed[1..]);
    OfKeyConcat(here, later, key);
    OfKeyConcat(here', later', key);
    if i > 0 {
      assert failed[1..] == answers[1..][i - 1 := None];
      FailureIsLocal(runtimes[1..], answers[1..], i - 1, key);
    } else {
      assert failed[1..] == answers[1..];
      if answers[0].Some? {
        var pushed, answered := SightingsIn(runtimes[0].inventory, true), SightingsIn(answers[0].value, false);
        OfKeyConcat(pushed, answered, key);
        OfKeyEmpty(answered, key);
        assert pushed + [] == pushed;
        assert OfKey(pushed, key) + [] == OfKey(pushed, key);
      }
    }
    forall pushed: bool
      ensures LastSeen(Sightings(runtimes, failed), key, pushed) == LastSeen(Sightings(runtimes, answers), key, pushed)
    {
      LastSeenIsLocal(Sightings(runtimes, failed), key, pushed);
      LastSeenIsLocal(Sightings(runtimes, answers), key, pushed);
    }
  }

  // ----- The status of a listed agent -----

  /** The status is the policy's refusal if the last push says so, else what the read face
      says, else what the push says. */
  lemma StatusOf(f: Faces)
    requires f.push.Some? || f.read.Some?
    ensures Resolved(f).Status ==
            if f.push.Some? && f.push.value.State == DENIED then DENIED
            else if f.read.Some? && f.read.value.Status != "" then f.read.value.Status
            else if f.push.Some? then f.push.value.Status
            else ""
  {
  }

  /** `x` is one of `a` and `b`: `a` if that is filled, and empty only if both are. */
  predicate Complements(x: string, a: string, b: string) {
    (x == a || x == b) && (a != "" ==> x == a) && (x == "" ==> a == "" && b == "")
  }

  /** The two faces complement each other outside the status: what the push says stays, the
      read face fills the rest, and a field is empty only if both faces leave it empty. */
  lemma FacesComplement(push: Agent, read: Agent)
    ensures var out := Resolved(Faces(Some(push), Some(read)));
            && Complements(out.ID, push.ID, read.ID) && Complements(out.Name, push.Name, read.Name)
            && Complements(out.Type, push.Type, read.Type) && Complements(out.Kind, push.Kind, read.Kind)
            && Complements(out.LastSeenAt, push.LastSeenAt, read.LastSeenAt)
            && Complements(out.LastActiveAt, push.LastActiveAt, read.LastActiveAt)
            && Complements(out.AgentID, push.AgentID, read.AgentID)
            && Complements(out.CommunicationMode, push.CommunicationMode, read.CommunicationMode)
            && Complements(out.Command, push.Command, read.Command)
            && Complements(out.State, push.State, read.State)
            && (out.Capabilities == push.Capabilities != [] ||
                (push.Capabilities == [] && out.Capabilities == read.Capabilities))
            && (out.PID == push.PID != 0 || (push.PID == 0 && out.PID == read.PID))
    ensures Resolved(Faces(None, Some(read))) == read
  {
  }

  /** A record in the runtime's form and the same in the registry's form show the same once
      normalised; normalising twice is normalising once, and the key stays. */
  lemma FormsNormaliseAlike(a: Agent, id: string, kind: string, state: string, active: string)
    requires id != ""
    ensures var runtime := NONE.(AgentID := id, Kind := kind, State := state, LastActiveAt := active);
            var registry := NONE.(ID := id, Name := id, Type := kind, Status := state, LastSeenAt := active);
            var r := Normalized(runtime);
            && r.(AgentID := "", Kind := "", State := "", LastActiveAt := "") == registry == Normalized(registry)
            && AgentKey(r) == AgentKey(registry) == id
    ensures Normalized(Normalized(a)) == Normalized(a) && AgentKey(Normalized(a)) == AgentKey(a)
  {
  }

  /** Normalising a record that fills both forms keeps what the registry's form says. */
  lemma NormalisingKeepsOwn(a: Agent)
    ensures var out := Normalized(a);
            && Complements(out.ID, a.ID, a.AgentID) && Complements(out.Name, a.Name, a.AgentID)
            && Complements(out.Type, a.Type, a.Kind) && Complements(out.Status, a.Status, a.State)
            && Complements(out.LastSeenAt, a.LastSeenAt, a.LastActiveAt)
            && out.(ID := a.ID, Name := a.Name, Type := a.Type, Status := a.Status, LastSeenAt := a.LastSeenAt) == a
    ensures AgentKey(a) == if a.AgentID != "" then a.AgentID else a.ID
  {
  }

  // ----- The order of the records -----

  /** Both faces of a runtime: what it pushed, in its order, and then what its read face says. */
  lemma PushComesFirst(rt: Runtime, read: seq<Agent>)
    requires forall a :: a in rt.inventory ==> AgentKey(a) != ""
    requires forall a :: a in read ==> AgentKey(a) != ""
    ensures var all := Sightings([rt], [Some(read)]);
            && |all| == |rt.inventory| + |read|
            && (forall i :: 0 <= i < |rt.inventory| ==> all[i] == Sighting(true, Normalized(rt.inventory[i])))
            && (forall i :: |rt.inventory| <= i < |all| ==>
                  all[i] == Sighting(false, Normalized(read[i - |rt.inventory|])))
  {
    var answer := Some(read);
    assert [rt][1..] == [] && [answer][1..] == [];
    SightingsByIndex(rt.inventory, true);
    SightingsByIndex(read, false);
    assert Sightings([rt], [answer]) == SightingsOf(rt, answer) + [] == SightingsOf(rt, answer);
  }

  lemma {:induction false} SightingsByIndex(agents: seq<Agent>, pushed: bool)
    requires forall a :: a in agents ==> AgentKey(a) != ""
    ensures |SightingsIn(agents, pushed)| == |agents|
    ensures forall i :: 0 <= i < |agents| ==> SightingsIn(agents, pushed)[i] == Sighting(pushed, Normalized(agents[i]))
  {
    if agents != [] {
      assert agents[0] in agents;
      SightingsByIndex(agents[1..], pushed);
      var first := Sighting(pushed, Normalized(agents[0]));
      assert SightingsIn(agents, pushed) == [first] + SightingsIn(agents[1..], pushed);
    }
  }

  /** Runtime by runtime, and a record without a key or on a failing face does not count. */
  lemma {:induction false} SightingsInParts(a: seq<Runtime>, x: seq<Option<seq<Agent>>>,
                                            b: seq<Runtime>, y: seq<Option<seq<Agent>>>)
    requires |a| == |x| && |b| == |y|
    ensures Sightings(a + b, x + y) == Sightings(a, x) + Sightings(b, y)
  {
    if a == [] {
      assert a + b == b && x + y == y;
    } else {
      assert (a + b)[1..] == a[1..] + b && (x + y)[1..] == x[1..] + y;
      SightingsInParts(a[1..], x[1..], b, y);
      Regroup(SightingsOf(a[0], x[0]), Sightings(a[1..], x[1..]), Sightings(b, y));
    }
  }

  lemma {:induction false} RecordsWithoutKey(agents: seq<Agent>, pushed: bool)
    requires forall a :: a in agents ==> AgentKey(a) == ""
    ensures SightingsIn(agents, pushed) == []
  {
    if agents != [] {
      assert agents[0] in agents;
      RecordsWithoutKey(agents[1..], pushed);
    }
  }

  /** On each face the last record of a key counts. */
  lemma {:induction false} LastRecordCounts(a: seq<Sighting>, s: Sighting, b: seq<Sighting>)
    requires forall t :: t in b ==> t.pushed != s.pushed || t.Key() != s.Key()
    ensures LastSeen(a + [s] + b, s.Key(), s.pushed) == Some(s.agent)
    decreases |b|
  {
    var all := a + [s] + b;
    if b == [] {
      assert all[|all| - 1] == s;
    } else {
      var n := |b| - 1;
      assert all[|all| - 1] == b[n] && all[..|all| - 1] == a + [s] + b[..n];
      assert b[n] in b;
      LastRecordCounts(a, s, b[..n]);
    }
  }

  // ----- Dispatching -----

  function LowerAscii(c: char): char {
    if 'A' <= c <= 'Z' then (c as int + 32) as char else c
  }

  /** `strings.EqualFold` with a text of ASCII letters that no other letter folds to. */
  predicate EqualFold(s: string, t: string) {
    |s| == |t| && forall i :: 0 <= i < |s| ==> LowerAscii(s[i]) == LowerAscii(t[i])
  }

  /** The id under which an agent is dispatched to. */
  function DispatchID(a: Agent): string {
    Or(TrimSpace(a.AgentID), TrimSpace(Normalized(a).ID))
  }

  predicate Refused(a: Agent) {
    EqualFold(TrimSpace(a.State), DENIED)
  }

  /** The agent can be picked for this request; blank wishes allow everything. */
  predicate Eligible(rt: Runtime, a: Agent, wantAgent: string, wantRuntime: string) {
    && (wantRuntime != "" ==> rt.id == wantRuntime)
    && DispatchID(a) != ""
    && (wantAgent != "" ==> DispatchID(a) == wantAgent)
    && !Refused(a)
  }

  /** `(i, j)` is the first eligible pair in the order of runtimes and inventories. */
  ghost predicate IsFirst(runtimes: seq<Runtime>, wantAgent: string, wantRuntime: string, i: nat, j: nat) {
    && i < |runtimes| && j < |runtimes[i].inventory|
    && Eligible(runtimes[i], runtimes[i].inventory[j], wantAgent, wantRuntime)
    && NoneBefore(runtimes, wantAgent, wantRuntime, i)
    && NoneIn(runtimes[i], wantAgent, wantRuntime, j)
  }

  ghost predicate NoneIn(rt: Runtime, wantAgent: string, wantRuntime: string, n: nat) {
    forall l :: 0 <= l < n && l < |rt.inventory| ==> !Eligible(rt, rt.inventory[l], wantAgent, wantRuntime)
  }

  ghost predicate NoneBefore(runtimes: seq<Runtime>, wantAgent: string, wantRuntime: string, n: nat) {
    forall k :: 0 <= k < n && k < |runtimes| ==>
      NoneIn(runtimes[k], wantAgent, wantRuntime, |runtimes[k].inventory|)
  }

  /** Which records a request may be sent to. */
  lemma EligibleIff(rt: Runtime, a: Agent, wantAgent: string, wantRuntime: string)
    ensures Eligible(rt, a, wantAgent, wantRuntime) <==>
            && (wantRuntime == "" || wantRuntime == rt.id)
            && (wantAgent == "" || wantAgent == DispatchID(a))
            && DispatchID(a) != "" && !Refused(a)
    ensures TrimSpace(a.AgentID) != "" ==> DispatchID(a) == TrimSpace(a.AgentID)
    ensures TrimSpace(a.AgentID) == "" && a.ID != "" ==> DispatchID(a) == TrimSpace(a.ID)
    ensures TrimSpace(a.AgentID) == "" && a.ID == "" ==> DispatchID(a) == ""
  {
  }

  /** A refusal counts in any mixture of cases, and nothing of another length does. */
  lemma RefusedInAnyCase(a: Agent)
    ensures a.State == "DENIED_BY_POLICY" || a.State == "denied_by_policy" ==> Refused(a)
    ensures |TrimSpace(a.State)| != 16 ==> !Refused(a)
  {
    CapitalsFold();
    if a.State == "DENIED_BY_POLICY" {
      TrimmedIff(a.State);
    } else if a.State == "denied_by_policy" {
      TrimmedIff(a.State);
    }
  }

  /** And it is spelled like this, letter by letter. */
  lemma RefusedMeans(a: Agent)
    ensures Refused(a) <==>
            var state := TrimSpace(a.State);
            |state| == 16 && forall i :: 0 <= i < 16 ==> LowerAscii(state[i]) == "denied_by_policy"[i]
  {
    assert forall i :: 0 <= i < 16 ==> LowerAscii(DENIED[i]) == DENIED[i];
  }

  lemma CapitalsFold()
    ensures EqualFold("DENIED_BY_POLICY", DENIED) && EqualFold("denied_by_policy", DENIED)
  {
  }

  /** Letters fold to each other and nothing else does. */
  lemma FoldIff(c: char, d: char)
    ensures LowerAscii(c) == LowerAscii(d) <==>
            c == d || ('A' <= c <= 'Z' && d as int == c as int + 32) || ('A' <= d <= 'Z' && c as int == d as int + 32)
  {
  }

  /** The pair that is the first eligible one. */
  ghost predicate IsTarget(runtimes: seq<Runtime>, wantAgent: string, wantRuntime: string,
                           target: (string, string), i: nat, j: nat) {
    && IsFirst(runtimes, wantAgent, wantRuntime, i, j)
    && target == (runtimes[i].id, DispatchID(runtimes[i].inventory[j]))
  }

  ghost predicate IsFirstTarget(runtimes: seq<Runtime>, wantAgent: string, wantRuntime: string,
                                target: (string, string)) {
    exists i, j :: IsTarget(runtimes, wantAgent, wantRuntime, target, i, j)
  }

  lemma Found(runtimes: seq<Runtime>, wantAgent: string, wantRuntime: string, k: nat, l: nat)
    requires IsFirst(runtimes, wantAgent, wantRuntime, k, l)
    ensures IsFirstTarget(runtimes, wantAgent, wantRuntime, (runtimes[k].id, DispatchID(runtimes[k].inventory[l])))
    ensures !NoneBefore(runtimes, wantAgent, wantRuntime, |runtimes|)
  {
    assert IsTarget(runtimes, wantAgent, wantRuntime, (runtimes[k].id, DispatchID(runtimes[k].inventory[l])), k, l);
    assert !NoneIn(runtimes[k], wantAgent, wantRuntime, |runtimes[k].inventory|);
  }

  lemma NotThisOne(rt: Runtime, wantAgent: string, wantRuntime: string, l: nat)
    requires l < |rt.inventory| && NoneIn(rt, wantAgent, wantRuntime, l)
    requires !Eligible(rt, rt.inventory[l], wantAgent, wantRuntime)
    ensures NoneIn(rt, wantAgent, wantRuntime, l + 1)
  {
  }

  /** The inner loop of `ResolveDispatchTarget`. */
  method PickIn(rt: Runtime, wantAgent: string, wantRuntime: string) returns (pick: Option<nat>)
    requires wantRuntime != "" ==> rt.id == wantRuntime
    ensures pick.None? ==> NoneIn(rt, wantAgent, wantRuntime, |rt.inventory|)
    ensures pick.Some? ==>
              && pick.value < |rt.inventory|
              && Eligible(rt, rt.inventory[pick.value], wantAgent, wantRuntime)
              && NoneIn(rt, wantAgent, wantRuntime, pick.value)
  {
    for l := 0 to |rt.inventory|
      invariant NoneIn(rt, wantAgent, wantRuntime, l)
    {
      var a := rt.inventory[l];
      var id := DispatchID(a);
      if id == "" {
        NotThisOne(rt, wantAgent, wantRuntime, l);
        continue;
      }
      if wantAgent != "" && id != wantAgent {
        NotThisOne(rt, wantAgent, wantRuntime, l);
        continue;
      }
      if Refused(a) {
        NotThisOne(rt, wantAgent, wantRuntime, l);
        continue;
      }
      return Some(l);
    }
    pick := None;
  }

  lemma OneMore(runtimes: seq<Runtime>, wantAgent: string, wantRuntime: string, k: nat)
    requires k < |runtimes| && NoneBefore(runtimes, wantAgent, wantRuntime, k)
    requires NoneIn(runtimes[k], wantAgent, wantRuntime, |runtimes[k].inventory|)
    ensures NoneBefore(runtimes, wantAgent, wantRuntime, k + 1)
  {
  }

  lemma OtherRuntime(rt: Runtime, wantAgent: string, wantRuntime: string)
    requires wantRuntime != "" && rt.id != wantRuntime
    ensures NoneIn(rt, wantAgent, wantRuntime, |rt.inventory|)
  {
  }

  /** `ResolveDispatchTarget`: the first eligible pair, or an error exactly if there is none. */
  method ResolveDispatchTarget(runtimes: seq<Runtime>, agentID: string, runtimeID: string)
      returns (target: Option<(string, string)>)
    ensures target.Some? ==> IsFirstTarget(runtimes, TrimSpace(agentID), TrimSpace(runtimeID), target.value)
    ensures target.None? <==> NoneBefore(runtimes, TrimSpace(agentID), TrimSpace(runtimeID), |runtimes|)
  {
    target := FirstTarget(runtimes, TrimSpace(agentID), TrimSpace(runtimeID));
  }

  /** The outer loop of `ResolveDispatchTarget`, once the wishes are trimmed. */
  method FirstTarget(runtimes: seq<Runtime>, wantAgent: string, wantRuntime: string)
      returns (target: Option<(string, string)>)
    ensures target.Some? ==> IsFirstTarget(runtimes, wantAgent, wantRuntime, target.value)
    ensures target.None? <==> NoneBefore(runtimes, wantAgent, wantRuntime, |runtimes|)
  {
    for k := 0 to |runtimes|
      invariant NoneBefore(runtimes, wantAgent, wantRuntime, k)
    {
      var rt := runtimes[k];
      if wantRuntime != "" && rt.id != wantRuntime {
        OtherRuntime(rt, wantAgent, wantRuntime);
        OneMore(runtimes, wantAgent, wantRuntime, k);
        continue;
      }
      var pick := PickIn(rt, wantAgent, wantRuntime);
      if pick.Some? {
        Found(runtimes, wantAgent, wantRuntime, k, pick.value);
        return Some((rt.id, DispatchID(rt.inventory[pick.value])));
      }
      OneMore(runtimes, wantAgent, wantRuntime, k);
    }
    target := None;
  }

  // ----- The list and the dispatcher together -----

  /** Some record of the inventories has the id and is not refused. */
  ghost predicate HasRunnable(runtimes: seq<Runtime>, id: string) {
    exists k: nat, l: nat :: IsRunnable(runtimes, id, k, l)
  }

  ghost predicate IsRunnable(runtimes: seq<Runtime>, id: string, k: nat, l: nat) {
    && k < |runtimes| && l < |runtimes[k].inventory|
    && DispatchID(runtimes[k].inventory[l]) == id && !Refused(runtimes[k].inventory[l])
  }

  /** The request is dispatched to the id. */
  ghost predicate IsPickedFor(runtimes: seq<Runtime>, wantAgent: string, wantRuntime: string, id: string) {
    exists i: nat, j: nat ::
      IsFirst(runtimes, wantAgent, wantRuntime, i, j) && DispatchID(runtimes[i].inventory[j]) == id
  }

  /** The first eligible agent of one runtime, if there is any. */
  lemma {:induction false} FirstIn(rt: Runtime, wantAgent: string, wantRuntime: string, l: nat) returns (j: nat)
    requires l < |rt.inventory| && Eligible(rt, rt.inventory[l], wantAgent, wantRuntime)
    ensures j < |rt.inventory| && Eligible(rt, rt.inventory[j], wantAgent, wantRuntime)
    ensures NoneIn(rt, wantAgent, wantRuntime, j)
  {
    if NoneIn(rt, wantAgent, wantRuntime, l) {
      j := l;
    } else {
      var m: nat :| m < l && Eligible(rt, rt.inventory[m], wantAgent, wantRuntime);
      j := FirstIn(rt, wantAgent, wantRuntime, m);
    }
  }

  /** Where one pair is eligible, there is a first one. */
  lemma {:induction false} FirstOf(runtimes: seq<Runtime>, wantAgent: string, wantRuntime: string, k: nat, l: nat)
      returns (i: nat, j: nat)
    requires k < |runtimes| && l < |runtimes[k].inventory|
    requires Eligible(runtimes[k], runtimes[k].inventory[l], wantAgent, wantRuntime)
    ensures IsFirst(runtimes, wantAgent, wantRuntime, i, j)
    decreases k
  {
    if NoneBefore(runtimes, wantAgent, wantRuntime, k) {
      i := k;
      j := FirstIn(runtimes[k], wantAgent, wantRuntime, l);
    } else {
      var m: nat :| m < k && !NoneIn(runtimes[m], wantAgent, wantRuntime, |runtimes[m].inventory|);
      var rt := runtimes[m];
      var n: nat :| n < |rt.inventory| && Eligible(rt, rt.inventory[n], wantAgent, wantRuntime);
      i, j := FirstOf(runtimes, wantAgent, wantRuntime, m, n);
    }
  }

  lemma DispatchIDIsTrimmed(a: Agent)
    ensures TrimSpace(DispatchID(a)) == DispatchID(a)
  {
    TrimmedIff(DispatchID(a));
  }

  /** Some request is dispatched to an id exactly if the id is not empty and some record with
      it is not refused; the request for that id alone is then one of them. */
  lemma PickedForSomeRequestIff(runtimes: seq<Runtime>, id: string)
    ensures (exists wantAgent, wantRuntime :: IsPickedFor(runtimes, wantAgent, wantRuntime, id)) <==>
            id != "" && HasRunnable(runtimes, id)
    ensures id != "" && HasRunnable(runtimes, id) ==> IsPickedFor(runtimes, TrimSpace(id), TrimSpace(""), id)
  {
    if id != "" && HasRunnable(runtimes, id) {
      var k: nat, l: nat :| IsRunnable(runtimes, id, k, l);
      DispatchIDIsTrimmed(runtimes[k].inventory[l]);
      var i, j := FirstOf(runtimes, id, "", k, l);
      assert IsPickedFor(runtimes, TrimSpace(id), TrimSpace(""), id);
    }
    forall wantAgent: string, wantRuntime: string | IsPickedFor(runtimes, wantAgent, wantRuntime, id)
      ensures id != "" && HasRunnable(runtimes, id)
    {
      var i: nat, j: nat :|
        IsFirst(runtimes, wantAgent, wantRuntime, i, j) && DispatchID(runtimes[i].inventory[j]) == id;
      assert IsRunnable(runtimes, id, i, j);
    }
  }

  /** No two records of the inventories share a dispatch id, unless they have none. */
  ghost predicate UniqueIDs(runtimes: seq<Runtime>) {
    forall i, j, k, l |
      0 <= i < |runtimes| && 0 <= j < |runtimes[i].inventory| &&
      0 <= k < |runtimes| && 0 <= l < |runtimes[k].inventory| &&
      DispatchID(runtimes[i].inventory[j]) == DispatchID(runtimes[k].inventory[l]) != "" ::
      i == k && j == l
  }

  lemma {:induction false} InventoryEntry(agents: seq<Agent>, s: Sighting) returns (j: nat)
    requires s in SightingsIn(agents, true)
    ensures j < |agents| && s == Sighting(true, Normalized(agents[j]))
  {
    if s in SightingOf(agents[0], true) {
      j := 0;
    } else {
      var k := InventoryEntry(agents[1..], s);
      j := k + 1;
    }
  }

  lemma DeniedIsRefused(a: Agent)
    requires a.State == DENIED
    ensures Refused(a)
  {
    TrimmedIff(DENIED);
  }

  /** Where the last push of a key stands in the inventories. */
  lemma LastPushIsInInventory(runtimes: seq<Runtime>, answers: seq<Option<seq<Agent>>>, key: string)
      returns (k: nat, l: nat)
    requires |runtimes| == |answers| && LastSeen(Sightings(runtimes, answers), key, true).Some?
    ensures k < |runtimes| && l < |runtimes[k].inventory|
    ensures LastSeen(Sightings(runtimes, answers), key, true) == Some(Normalized(runtimes[k].inventory[l]))
  {
    var s := Sighting(true, LastSeen(Sightings(runtimes, answers), key, true).value);
    LastSeenHasKey(Sightings(runtimes, answers), key, true);
    PushedIsSeen(runtimes, answers, s);
    k :| 0 <= k < |runtimes| && s in SightingsIn(runtimes[k].inventory, true);
    l := InventoryEntry(runtimes[k].inventory, s);
  }

  /** Some request is dispatched to the id of a key's last push exactly if the id is not empty
      and some record with it is not refused; with unique ids, exactly if the push itself is
      not refused. So what the list shows, by whatever face, decides nothing: for every
      pattern of read faces. */
  lemma PushedIsPickedIff(runtimes: seq<Runtime>, answers: seq<Option<seq<Agent>>>, key: string)
    requires |runtimes| == |answers| && LastSeen(Sightings(runtimes, answers), key, true).Some?
    ensures var push := LastSeen(Sightings(runtimes, answers), key, true).value;
            var id := DispatchID(push);
            && ((exists wantAgent, wantRuntime :: IsPickedFor(runtimes, wantAgent, wantRuntime, id)) <==>
                id != "" && HasRunnable(runtimes, id))
            && (UniqueIDs(runtimes) ==> (HasRunnable(runtimes, id) && id != "" <==> !Refused(push) && id != ""))
  {
    var push := LastSeen(Sightings(runtimes, answers), key, true).value;
    PickedForSomeRequestIff(runtimes, DispatchID(push));
    var k, l := LastPushIsInInventory(runtimes, answers, key);
    if Refused(push) {
      if UniqueIDs(runtimes) {
        NoOtherIsRunnable(runtimes, DispatchID(push), k, l);
      }
    } else {
      assert IsRunnable(runtimes, DispatchID(push), k, l);
    }
  }

  /** An agent that the list shows as refused, by whichever face, is with unique ids
      dispatched to for some request exactly if it has an id and its last push is not refused. */
  lemma ListedAsRefusedIsPickedIff(runtimes: seq<Runtime>, answers: seq<Option<seq<Agent>>>, key: string)
    requires |runtimes| == |answers| && UniqueIDs(runtimes)
    requires LastSeen(Sightings(runtimes, answers), key, true).Some?
    requires Resolved(FacesOf(Sightings(runtimes, answers), key)).Status == DENIED
    ensures var push := LastSeen(Sightings(runtimes, answers), key, true).value;
            && ((exists wantAgent, wantRuntime :: IsPickedFor(runtimes, wantAgent, wantRuntime, DispatchID(push))) <==>
                DispatchID(push) != "" && !Refused(push))
            && (!Refused(push) ==>
                  var read := LastSeen(Sightings(runtimes, answers), key, false);
                  (if read.Some? && read.value.Status != "" then read.value.Status else push.Status) == DENIED)
  {
    var faces := FacesOf(Sightings(runtimes, answers), key);
    PushedIsPickedIff(runtimes, answers, key);
    StatusOf(faces);
    if faces.push.value.State == DENIED {
      DeniedIsRefused(faces.push.value);
    }
  }

  /** One record that runs, and a read face that calls it refused: the list shows it as
      refused, its id is unique, and it is dispatched to. */
  lemma RefusedByReadFaceIsPicked()
    ensures var push := NONE.(AgentID := "a", State := "running", Status := "running");
            var read := NONE.(AgentID := "a", Status := DENIED);
            var runtimes, answers := [Runtime("r", [push])], [Some([read])];
            && UniqueIDs(runtimes)
            && Resolved(FacesOf(Sightings(runtimes, answers), "a")).Status == DENIED
            && IsPickedFor(runtimes, "a", "", "a")
  {
    var push := NONE.(AgentID := "a", State := "running", Status := "running");
    var read := NONE.(AgentID := "a", Status := DENIED);
    TwoSightings(push, read);
    StatusOf(Faces(Some(Normalized(push)), Some(Normalized(read))));
    TrimmedIff("a");
    TrimmedIff("running");
    assert DispatchID(push) == "a";
    OnlyRecordIsPicked(push);
  }

  lemma OnlyRecordIsPicked(push: Agent)
    requires DispatchID(push) != "" && !Refused(push)
    ensures var runtimes := [Runtime("r", [push])];
            UniqueIDs(runtimes) && IsPickedFor(runtimes, DispatchID(push), "", DispatchID(push))
  {
    assert IsFirst([Runtime("r", [push])], DispatchID(push), "", 0, 0);
  }

  /** What one record on each face of one runtime amounts to. */
  lemma TwoSightings(push: Agent, read: Agent)
    requires AgentKey(push) == AgentKey(read) != ""
    ensures FacesOf(Sightings([Runtime("r", [push])], [Some([read])]), AgentKey(push))
         == Faces(Some(Normalized(push)), Some(Normalized(read)))
  {
    var rt, answer := Runtime("r", [push]), Some([read]);
    var p, r := Sighting(true, Normalized(push)), Sighting(false, Normalized(read));
    OneSighting(push, true);
    OneSighting(read, false);
    assert [rt][1..] == [] && [answer][1..] == [];
    assert Sightings([rt], [answer]) == SightingsOf(rt, answer) + [] == [p] + [r];
    LastOfTwo(p, r);
  }

  lemma OneSighting(a: Agent, pushed: bool)
    requires AgentKey(a) != ""
    ensures SightingsIn([a], pushed) == [Sighting(pushed, Normalized(a))]
  {
    assert [a][1..] == [];
  }

  lemma LastOfTwo(p: Sighting, r: Sighting)
    requires p.pushed && !r.pushed && p.Key() == r.Key()
    ensures FacesOf([p] + [r], p.Key()) == Faces(Some(p.agent), Some(r.agent))
  {
    assert ([p] + [r])[..1] == [p];
    assert [p][0] == p;
    assert LastSeen([p], p.Key(), true) == Some(p.agent);
  }

  /** A key whose last push is a refusal is listed as refused, and still some request is
      dispatched to its id exactly if another record with this id is not refused: for every
      pattern of read faces. */
  lemma ListedAsDeniedIsPickedIff(runtimes: seq<Runtime>, answers: seq<Option<seq<Agent>>>, key: string)
    requires |runtimes| == |answers|
    requires var push := LastSeen(Sightings(runtimes, answers), key, true); push.Some? && push.value.State == DENIED
    ensures Resolved(FacesOf(Sightings(runtimes, answers), key)).Status == DENIED
    ensures var id := DispatchID(LastSeen(Sightings(runtimes, answers), key, true).value);
            (exists wantAgent, wantRuntime :: IsPickedFor(runtimes, wantAgent, wantRuntime, id)) <==>
            id != "" && HasRunnable(runtimes, id)
  {
    StatusOf(FacesOf(Sightings(runtimes, answers), key));
    PushedIsPickedIff(runtimes, answers, key);
  }

  /** So with unique ids an agent that the list shows as refused by the push face is never
      dispatched to: for every pattern of read faces and every request. */
  lemma ListedAsDeniedIsNeverPicked(runtimes: seq<Runtime>, answers: seq<Option<seq<Agent>>>, key: string,
                                    wantAgent: string, wantRuntime: string, i: nat, j: nat)
    requires |runtimes| == |answers| && UniqueIDs(runtimes)
    requires var push := LastSeen(Sightings(runtimes, answers), key, true); push.Some? && push.value.State == DENIED
    requires IsFirst(runtimes, wantAgent, wantRuntime, i, j)
    ensures Resolved(FacesOf(Sightings(runtimes, answers), key)).Status == DENIED
    ensures DispatchID(runtimes[i].inventory[j])
         != DispatchID(LastSeen(Sightings(runtimes, answers), key, true).value)
  {
    var id := DispatchID(LastSeen(Sightings(runtimes, answers), key, true).value);
    ListedAsDeniedIsPickedIff(runtimes, answers, key);
    var k, l := LastPushIsInInventory(runtimes, answers, key);
    DeniedIsRefused(runtimes[k].inventory[l]);
    NoOtherIsRunnable(runtimes, id, k, l);
    assert DispatchID(runtimes[i].inventory[j]) == id ==> IsPickedFor(runtimes, wantAgent, wantRuntime, id);
  }

  lemma NoOtherIsRunnable(runtimes: seq<Runtime>, id: string, k: nat, l: nat)
    requires UniqueIDs(runtimes) && k < |runtimes| && l < |runtimes[k].inventory|
    requires DispatchID(runtimes[k].inventory[l]) == id && Refused(runtimes[k].inventory[l])
    ensures id != "" ==> !HasRunnable(runtimes, id)
  {
  }

  /** What the dispatcher refuses, the list shows as refused exactly if the push spells it
      exactly or else the status that counts does. */
  lemma RefusalIsListedIff(push: Agent, read: Option<Agent>)
    requires Refused(push)
    ensures Resolved(Faces(Some(push), read)).Status == DENIED <==>
            || push.State == DENIED
            || (if read.Some? && read.value.Status != "" then read.value.Status else push.Status) == DENIED
  {
    StatusOf(Faces(Some(push), read));
  }

  /** A refusal with a space in front: the dispatcher honours it, the list shows what the
      read face says. */
  lemma RefusalSpelledDifferently(push: Agent, read: Agent)
    requires push.State == " " + DENIED
    requires read.Status != "" && read.Status != DENIED
    ensures Refused(push) && Resolved(Faces(Some(push), Some(read))).Status == read.Status != DENIED
  {
    PadIsTrimmed(" ", DENIED);
    TrimmedIff(DENIED);
    assert |push.State| == |DENIED| + 1;
  }

  /** Without unique ids a refused agent's id is picked through another record. */
  lemma SharedIdIsPicked(refused: Agent, running: Agent)
    requires Refused(refused) && !Refused(running)
    requires DispatchID(refused) == DispatchID(running) != ""
    ensures var runtimes := [Runtime("r", [refused, running])];
            IsTarget(runtimes, DispatchID(refused), "", ("r", DispatchID(refused)), 0, 1)
  {
    var rt := Runtime("r", [refused, running]);
    assert !Eligible(rt, refused, DispatchID(refused), "");
    assert Eligible(rt, running, DispatchID(refused), "");
  }
}
