/** The mutation harness scripts/mutations/_harness.py: it changes files, runs a judge on
    the changed files and puts the files back, whatever happens in between. */
module MutationHarness {
  import opened Search
  import opened TextReplacement
  import opened Wrappers

  type Path = string

  /** The files of the work tree and their contents. */
  type Disk = map<Path, string>

  /** How a judge ends: with an exit code and output, or with an exception. */
  datatype RunResult = Ended(code: int, output: string) | Raised

  /** A judge looks at the files. Some can be run again with a fresh cache, each time anew. */
  datatype Runner = Runner(run: Disk -> RunResult, retry: Option<(nat, Disk) -> RunResult>)

  /** What a mutation does: checked replacements, plain writes, removing files, or failing. */
  datatype Step =
    | Replace(path: Path, anchor: string, text: string, count: nat)
    | Write(path: Path, content: string)
    | Remove(path: Path)
    | Fail

  datatype Case = Case(name: string, expectRed: bool, mustContain: seq<string>, mustNotContain: seq<string>,
                       steps: seq<Step>, runner: Runner)

  // ----- What should happen -----

  /** A checked replacement succeeds exactly if it is allowed, its anchor occurs as often as
      it should, at least once, and the text is another one. */
  predicate Succeeds(disk: Disk, targets: seq<Path>, step: Step) {
    match step
    case Replace(path, anchor, text, count) =>
      path in targets && path in disk && Count(disk[path], anchor) == count && count > 0 && anchor != text
    case Write(_, _) => true
    case Remove(path) => path in disk
    case Fail => false
  }

  /** The files after a step; a replacement that changes nothing has been written all the same. */
  function AfterStep(disk: Disk, targets: seq<Path>, step: Step): Disk {
    match step
    case Replace(path, anchor, text, count) =>
      if path in targets && path in disk && Count(disk[path], anchor) == count then
        disk[path := ReplaceAll(disk[path], anchor, text)]
      else disk
    case Write(path, content) => disk[path := content]
    case Remove(path) => disk - {path}
    case Fail => disk
  }

  /** The files after a mutation, and whether it got to its end. */
  function Mutated(disk: Disk, targets: seq<Path>, steps: seq<Step>): (Disk, bool)
    decreases |steps|
  {
    if steps == [] then (disk, true)
    else if !Succeeds(disk, targets, steps[0]) then (AfterStep(disk, targets, steps[0]), false)
    else Mutated(AfterStep(disk, targets, steps[0]), targets, steps[1..])
  }

  /** The result that counts: a broken build environment and an unexpected green are run
      again with a fresh cache. */
  function Judged(runner: Runner, disk: Disk, expectRed: bool): RunResult {
    match runner.run(disk)
    case Raised => Raised
    case Ended(c0, o0) =>
      if runner.retry.None? then Ended(c0, o0)
      else
        var again := runner.retry.value;
        var first := if c0 == 5 then again(0, disk) else Ended(c0, o0);
        var used := if c0 == 5 then 1 else 0;
        match first
        case Raised => Raised
        case Ended(c1, o1) =>
          var (code, output) := if c1 == 5 then (c0, o0) else (c1, o1);
          if expectRed && code == 0 then
            match again(used, disk)
            case Raised => Raised
            case Ended(c2, o2) => if c2 != 0 then Ended(c2, o2) else Ended(code, output)
          else Ended(code, output)
  }

  /** What the code of a judge that can be run afresh means when a red result is expected. Green:
      a fresh cache gave green as well. Five, a broken build environment, which then counts
      as red: it was broken twice, or the fresh run after a green one was broken. */
  lemma CodesAfterRetry(runner: Runner, disk: Disk)
    requires runner.retry.Some? && Judged(runner, disk, true).Ended?
    ensures var again, code := runner.retry.value, Judged(runner, disk, true).code;
            var broken := runner.run(disk).code == 5;
            var green := if broken then again(0, disk).code == 0 else runner.run(disk).code == 0;
            var last := again(if broken then 1 else 0, disk);
            && (code == 0 <==> green && last.Ended? && last.code == 0)
            && (code == 5 <==> (broken && again(0, disk).code == 5) || (green && last.Ended? && last.code == 5))
  {
  }

  /** Does the judge's result show what the case expects? */
  predicate Passes(c: Case, code: int, output: string) {
    && (code != 0) == c.expectRed
    && (c.expectRed ==> forall m :: m in c.mustContain ==> Find(m, output).Some?)
    && (!c.expectRed ==> forall m :: m in c.mustNotContain ==> Find(m, output).None?)
  }

  /** What a case comes to on clean files: an exception or a recorded verdict. */
  function VerdictOf(c: Case, disk: Disk, targets: seq<Path>): Option<bool> {
    var (mutated, done) := Mutated(disk, targets, c.steps);
    if !done then None
    else
      match Judged(c.runner, mutated, c.expectRed)
      case Raised => None
      case Ended(code, output) => Some(Passes(c, code, output))
  }

  /** Exactly when a case is recorded as passed. */
  lemma PassedIff(c: Case, disk: Disk, targets: seq<Path>)
    ensures var (mutated, done) := Mutated(disk, targets, c.steps);
            var r := Judged(c.runner, mutated, c.expectRed);
            VerdictOf(c, disk, targets) == Some(true) <==>
            && done && r.Ended?
            && (if c.expectRed then
                  r.code != 0 && forall m :: m in c.mustContain ==> exists i :: At(m, r.output, i)
                else
                  r.code == 0 && forall m :: m in c.mustNotContain ==> forall i :: !At(m, r.output, i))
  {
    var (mutated, done) := Mutated(disk, targets, c.steps);
    var r := Judged(c.runner, mutated, c.expectRed);
    if r.Ended? {
      forall m
        ensures Find(m, r.output).Some? <==> exists i :: At(m, r.output, i)
      {
        assert Occurs(m, r.output) <==> exists i :: At(m, r.output, i);
      }
    }
  }

  /** And when it is recorded as failed, or not at all. */
  lemma RecordedIff(c: Case, disk: Disk, targets: seq<Path>)
    ensures var (mutated, done) := Mutated(disk, targets, c.steps);
            VerdictOf(c, disk, targets).Some? <==> done && Judged(c.runner, mutated, c.expectRed).Ended?
  {
  }

  /** Red for another reason: the text that is wanted is not in the output. */
  lemma WrongRedFails(disk: Disk, targets: seq<Path>)
    ensures var judge := Runner(_ => Ended(1, "syntax error"), None);
            VerdictOf(Case("", true, ["must be equal"], [], [], judge), disk, targets) == Some(false)
  {
    var judge := Runner(_ => Ended(1, "syntax error"), None);
    var c := Case("", true, ["must be equal"], [], [], judge);
    assert Judged(judge, disk, true) == Ended(1, "syntax error");
    assert "must be equal" in c.mustContain;
    forall i
      ensures !At("must be equal", "syntax error", i)
    {
    }
    PassedIff(c, disk, targets);
    RecordedIff(c, disk, targets);
  }

  /** Which of the runs counts: the first one, unless it could be run again and had a reason
      to; a broken environment twice leaves the first result, and so does a green that stays. */
  lemma RunThatCounts(runner: Runner, disk: Disk, expectRed: bool)
    ensures var first := runner.run(disk);
            var r := Judged(runner, disk, expectRed);
            && (first.Raised? || runner.retry.None? ==> r == first)
            && (first.Ended? && first.code != 5 && (first.code != 0 || !expectRed) ==> r == first)
            && (runner.retry.Some? && first.Ended? ==>
                  var again, second := runner.retry.value(0, disk), runner.retry.value(1, disk);
                  && (first.code == 0 && expectRed ==> r == if again.Ended? && again.code == 0 then first else again)
                  && (first.code == 5 && again.Ended? && again.code == 5 ==> r == first)
                  && (first.code == 5 && (again.Raised? || (again.code != 5 && (again.code != 0 || !expectRed))) ==>
                        r == again)
                  && (first.code == 5 && again.Ended? && again.code == 0 && expectRed ==>
                        r == if second.Ended? && second.code == 0 then again else second))
  {
  }

  /** What a sequence of steps amounts to: it stops at the first that fails, and what that one
      wrote stays. */
  lemma {:induction false} MutatedInParts(disk: Disk, targets: seq<Path>, a: seq<Step>, b: seq<Step>)
    ensures var (between, done) := Mutated(disk, targets, a);
            Mutated(disk, targets, a + b) == if done then Mutated(between, targets, b) else (between, false)
    decreases |a|
  {
    if a == [] {
      assert a + b == b;
    } else {
      assert (a + b)[0] == a[0] && (a + b)[1..] == a[1..] + b;
      MutatedInParts(AfterStep(disk, targets, a[0]), targets, a[1..], b);
    }
  }

  /** What a single step does: a replacement needs a target with as many anchors as announced,
      at least one, and another text; then the file changes and holds the new text. */
  lemma OneStep(disk: Disk, targets: seq<Path>, step: Step)
    ensures var r := Mutated(disk, targets, [step]);
            && (step.Fail? ==> r == (disk, false))
            && (step.Write? ==> r == (disk[step.path := step.content], true))
            && (step.Remove? ==> r == (disk - {step.path}, step.path in disk))
            && (step.Replace? ==>
                  && (r.1 <==> && step.path in targets && step.path in disk && step.anchor != step.text
                               && Count(disk[step.path], step.anchor) == step.count > 0)
                  && (r.1 ==> && step.path in r.0 && r.0[step.path] != disk[step.path]
                              && Occurs(step.text, r.0[step.path]))
                  && (!r.1 ==> r.0 == disk)
                  && r.0 - {step.path} == disk - {step.path})
  {
    var after := AfterStep(disk, targets, step);
    assert [step][1..] == [];
    assert Mutated(disk, targets, [step]) == (after, Succeeds(disk, targets, step));
    if step.Replace? && step.path in targets && step.path in disk && Count(disk[step.path], step.anchor) == step.count {
      var before := disk[step.path];
      if step.count > 0 {
        ChangesIff(before, step.anchor, step.text);
        NewIsPresent(before, step.anchor, step.text);
      } else {
        NothingToReplace(before, step.anchor, step.text);
      }
    }
  }

  /** A build environment that is broken every time: the case that expects red passes. */
  lemma BrokenBuildPasses(disk: Disk, targets: seq<Path>)
    ensures var broken := Runner(_ => Ended(5, ""), Some((_, _) => Ended(5, "")));
            VerdictOf(Case("", true, [], [], [], broken), disk, targets) == Some(true)
  {
    var broken := Runner(_ => Ended(5, ""), Some((_, _) => Ended(5, "")));
    assert Judged(broken, disk, true) == Ended(5, "");
  }

  // ----- The batch -----

  class WorkTree {
    const head: Disk
    var disk: Disk

    constructor (head: Disk, disk: Disk)
      ensures this.head == head && this.disk == disk
    {
      this.head, this.disk := head, disk;
    }

    /** The file is there, and `git diff --quiet HEAD` finds no difference; a file that is
        not committed has nothing to differ from. */
    predicate Clean(path: Path)
      reads this
    {
      path in disk && (path in head ==> disk[path] == head[path])
    }

    /** `git status --porcelain`: the paths that are not as committed. */
    function Status(): (r: set<Path>)
      reads this
      ensures forall p :: p in r <==>
                if p in disk && p in head then disk[p] != head[p] else p in disk || p in head
    {
      set p | p in disk.Keys + head.Keys && !(p in disk && p in head && disk[p] == head[p])
    }
  }

  class Batch {
    const tree: WorkTree
    const targets: seq<Path>
    const runner: Runner
    var results: seq<(string, bool)>

    constructor (tree: WorkTree, targets: seq<Path>, runner: Runner)
      ensures this.tree == tree && this.targets == targets && this.runner == runner && results == []
    {
      this.tree, this.targets, this.runner, results := tree, targets, runner, [];
    }

    /** All target files are there and none differs from the commit. */
    predicate TargetsReady()
      reads tree
    {
      forall t :: t in targets ==> tree.Clean(t)
    }

    /** `mutate`. */
    method Mutate(step: Step) returns (ok: bool)
      requires step.Replace?
      modifies tree`disk
      ensures ok <==> Succeeds(old(tree.disk), targets, step)
      ensures tree.disk == AfterStep(old(tree.disk), targets, step)
    {
      if step.path !in targets || step.path !in tree.disk {
        return false;
      }
      var before := tree.disk[step.path];
      if Count(before, step.anchor) != step.count {
        return false;
      }
      var onDisk := ReplaceAll(before, step.anchor, step.text);
      tree.disk := tree.disk[step.path := onDisk];
      if step.count > 0 {
        ChangesIff(before, step.anchor, step.text);
        NewIsPresent(before, step.anchor, step.text);
      } else {
        NothingToReplace(before, step.anchor, step.text);
      }
      if onDisk == before {
        return false;
      }
      if step.text != "" && Find(step.text, onDisk).None? {
        assert false;
        return false;
      }
      ok := true;
    }

    /** A mutation function: its steps until one raises. */
    method Apply(steps: seq<Step>) returns (done: bool)
      modifies tree`disk
      ensures (tree.disk, done) == Mutated(old(tree.disk), targets, steps)
    {
      for k := 0 to |steps|
        invariant Mutated(old(tree.disk), targets, steps) == Mutated(tree.disk, targets, steps[k..])
      {
        assert steps[k..][0] == steps[k] && steps[k..][1..] == steps[k + 1..];
        match steps[k] {
          case Replace(_, _, _, _) =>
            var ok := Mutate(steps[k]);
            if !ok {
              return false;
            }
          case Write(path, content) =>
            tree.disk := tree.disk[path := content];
          case Remove(path) =>
            if path !in tree.disk {
              assert tree.disk - {path} == tree.disk;
              return false;
            }
            tree.disk := tree.disk - {path};
          case Fail =>
            return false;
        }
      }
      assert steps[|steps|..] == [];
      done := true;
    }

    /** The `finally` block of `case`: every target gets its bytes back. */
    method Restore(before: Disk)
      requires forall t :: t in targets ==> t in before
      modifies tree`disk
      ensures forall t :: t in targets ==> t in tree.disk && tree.disk[t] == before[t]
      ensures forall p :: p !in targets ==> (p in tree.disk <==> p in old(tree.disk))
      ensures forall p :: p !in targets && p in tree.disk ==> tree.disk[p] == old(tree.disk)[p]
    {
      for k := 0 to |targets|
        invariant forall i :: 0 <= i < k ==> targets[i] in tree.disk && tree.disk[targets[i]] == before[targets[i]]
        invariant forall p :: p !in targets ==> (p in tree.disk <==> p in old(tree.disk))
        invariant forall p :: p !in targets && p in tree.disk ==> tree.disk[p] == old(tree.disk)[p]
      {
        tree.disk := tree.disk[targets[k] := before[targets[k]]];
      }
    }

    /** The judge inside `case`, with its two reasons for another run. */
    method Judge(runner: Runner, expectRed: bool) returns (r: RunResult)
      ensures r == Judged(runner, tree.disk, expectRed)
    {
      r := runner.run(tree.disk);
      if r.Raised? {
        return;
      }
      var used := 0;
      if r.code == 5 && runner.retry.Some? {
        var again := runner.retry.value(used, tree.disk);
        used := used + 1;
        if again.Raised? {
          return Raised;
        }
        if again.code != 5 {
          r := again;
        }
      }
      if expectRed && r.code == 0 && runner.retry.Some? {
        var again := runner.retry.value(used, tree.disk);
        if again.Raised? {
          return Raised;
        }
        if again.code != 0 {
          r := again;
        }
      }
    }

    /** `case`: on clean targets it records the verdict on the mutated files, or raises; in
        every case the targets are back to what they were, and other files are left as the
        mutation left them. On unclean targets it raises before touching anything. */
    method RunCase(c: Case) returns (raised: bool)
      modifies tree`disk, this`results
      ensures TargetsReady() == old(TargetsReady())
      ensures forall t :: t in targets && old(TargetsReady()) ==> tree.disk[t] == old(tree.disk)[t]
      ensures old(TargetsReady()) ==>
                forall p :: p !in targets ==>
                  var after := Mutated(old(tree.disk), targets, c.steps).0;
                  (p in tree.disk <==> p in after) && (p in after ==> tree.disk[p] == after[p])
      ensures !old(TargetsReady()) ==> raised && tree.disk == old(tree.disk)
      ensures (exists t :: t in targets &&
                           (t !in old(tree.disk) || (t in tree.head && old(tree.disk)[t] != tree.head[t]))) ==>
                raised && tree.disk == old(tree.disk)
      ensures old(TargetsReady()) ==> (raised <==> VerdictOf(c, old(tree.disk), targets).None?)
      ensures raised ==> results == old(results)
      ensures !raised ==> results == old(results) + [(c.name, VerdictOf(c, old(tree.disk), targets).value)]
    {
      if !TargetsReady() {
        return true;
      }
      var before := tree.disk;
      var done := Apply(c.steps);
      var r := Raised;
      if done {
        r := Judge(c.runner, c.expectRed);
      }
      Restore(before);
      if r.Raised? {
        return true;
      }
      results := results + [(c.name, Passes(c, r.code, r.output))];
      raised := false;
    }

    /** Two of the loops of `finish`: the judge once more, and the extra judges. */
    method FinalRuns(runners: seq<Runner>) returns (raised: bool)
      modifies this`results
      ensures raised <==> exists r :: r in runners && r.run(tree.disk).Raised?
      ensures !raised ==> AllOk(results) == (AllOk(old(results)) && forall r :: r in runners ==> Green(r, tree.disk))
    {
      for k := 0 to |runners|
        invariant forall i :: 0 <= i < k ==> runners[i].run(tree.disk).Ended?
        invariant AllOk(results) == (AllOk(old(results)) && forall i :: 0 <= i < k ==> Green(runners[i], tree.disk))
      {
        var r := runners[k].run(tree.disk);
        assert runners[k] in runners;
        if r.Raised? {
          return true;
        }
        AllOkSnoc(results, ("judge must be green again", r.code == 0));
        results := results + [("judge must be green again", r.code == 0)];
      }
      raised := false;
    }

    /** `finish`: the judges are green again, the targets have their bytes, and nothing else
        differs from the commit that did not before. */
    method Finish(extra: seq<Runner>, bytesBefore: Disk, statusBefore: set<Path>) returns (raised: bool)
      requires forall t :: t in targets ==> t in tree.disk && t in bytesBefore
      modifies this`results
      ensures raised <==> exists r :: r in [runner] + extra && r.run(tree.disk).Raised?
      ensures !raised ==>
                AllOk(results) == (AllOk(old(results)) && (forall r :: r in [runner] + extra ==> Green(r, tree.disk))
                                   && (forall t :: t in targets ==> tree.disk[t] == bytesBefore[t])
                                   && tree.Status() == statusBefore)
    {
      raised := FinalRuns([runner] + extra);
      if raised {
        return;
      }
      var same := forall t :: t in targets ==> tree.disk[t] == bytesBefore[t];
      AllOkSnoc(results, ("targets must have their bytes again", same));
      results := results + [("targets must have their bytes again", same)];
      AllOkSnoc(results, ("work tree must be as before", tree.Status() == statusBefore));
      results := results + [("work tree must be as before", tree.Status() == statusBefore)];
    }

    /** `summary`: the exit code. */
    method Summary() returns (code: int)
      ensures code == if AllOk(results) then 0 else 1
    {
      code := if AllOk(results) then 0 else 1;
    }

    /** `run`: preflight, the cases until one raises, the final checks and the exit code;
        `None` is an exception. Whatever happens, every file is as it was in the end, and
        the exit code is zero exactly if the targets were clean, every case passed, and the
        judges are green on the files. */
    method Run(cases: seq<Case>, extra: seq<Runner>) returns (exit: Option<int>)
      requires forall c :: c in cases ==> WritesOnly(c.steps, targets)
      modifies tree`disk, this`results
      ensures tree.disk == old(tree.disk)
      ensures exit == Some(0) <==>
                && old(AllOk(results)) && old(TargetsReady())
                && (forall t :: t in targets ==>
                      t in old(tree.disk) && (t in tree.head ==> old(tree.disk)[t] == tree.head[t]))
                && (forall c :: c in cases ==> VerdictOf(c, tree.disk, targets) == Some(true))
                && (forall r :: r in [runner] + extra ==> Green(r, tree.disk))
      ensures exit.None? <==>
                || !old(TargetsReady())
                || (exists c :: c in cases && VerdictOf(c, tree.disk, targets).None?)
                || (exists r :: r in [runner] + extra && r.run(tree.disk).Raised?)
    {
      if !TargetsReady() {
        return None;
      }
      var disk, status := tree.disk, tree.Status();
      var raised := RunCases(cases);
      if raised {
        return None;
      }
      raised := Finish(extra, disk, status);
      if raised {
        return None;
      }
      var code := Summary();
      exit := Some(code);
    }

    /** The body of a batch. At every case boundary all files are as they were. */
    method RunCases(cases: seq<Case>) returns (raised: bool)
      requires TargetsReady()
      requires forall c :: c in cases ==> WritesOnly(c.steps, targets)
      modifies tree`disk, this`results
      ensures tree.disk == old(tree.disk)
      ensures raised <==> exists c :: c in cases && VerdictOf(c, tree.disk, targets).None?
      ensures !raised ==>
                AllOk(results) == (old(AllOk(results)) &&
                                   forall c :: c in cases ==> VerdictOf(c, tree.disk, targets) == Some(true))
    {
      for k := 0 to |cases|
        invariant tree.disk == old(tree.disk)
        invariant forall i :: 0 <= i < k ==> VerdictOf(cases[i], tree.disk, targets).Some?
        invariant AllOk(results) == (old(AllOk(results)) &&
                                     forall i :: 0 <= i < k ==> VerdictOf(cases[i], tree.disk, targets).value)
      {
        var c := cases[k];
        assert c in cases;
        MutatedElsewhere(tree.disk, targets, c.steps);
        ghost var before := results;
        raised := RunCase(c);
        assert tree.disk == old(tree.disk);
        if raised {
          return;
        }
        AllOkSnoc(before, (c.name, VerdictOf(c, tree.disk, targets).value));
      }
      raised := false;
    }
  }

  predicate AllOk(results: seq<(string, bool)>) {
    forall i :: 0 <= i < |results| ==> results[i].1
  }

  lemma AllOkSnoc(results: seq<(string, bool)>, r: (string, bool))
    ensures AllOk(results + [r]) <==> AllOk(results) && r.1
  {
    var all := results + [r];
    assert all[|results|] == r;
    assert forall i :: 0 <= i < |results| ==> all[i] == results[i];
  }

  predicate Green(r: Runner, disk: Disk) {
    r.run(disk).Ended? && r.run(disk).code == 0
  }

  /** The plain writes and removals of a mutation go to targets only. */
  predicate WritesOnly(steps: seq<Step>, targets: seq<Path>) {
    forall i :: 0 <= i < |steps| && (steps[i].Write? || steps[i].Remove?) ==> steps[i].path in targets
  }

  /** Then nothing but targets changes. */
  lemma {:induction false} MutatedElsewhere(disk: Disk, targets: seq<Path>, steps: seq<Step>)
    requires WritesOnly(steps, targets)
    ensures var after := Mutated(disk, targets, steps).0;
            forall p :: p !in targets ==> (p in after <==> p in disk) && (p in after ==> after[p] == disk[p])
    decreases |steps|
  {
    if steps != [] && Succeeds(disk, targets, steps[0]) {
      assert WritesOnly(steps[1..], targets);
      MutatedElsewhere(AfterStep(disk, targets, steps[0]), targets, steps[1..]);
    }
  }
}
