/** The directory navigator: shortest ways between directories, and the object that issues
  * them and remembers where the server is. */
module FtpNavigators {
  import opened Wrappers
  import opened Sequences
  import opened FtpReplies
  import opened FtpCommands
  import opened FtpPaths
  import opened FtpServers
  import opened FtpLinks

  // ---- Steps between directories ----

  function CommonLength(a: seq<string>, b: seq<string>): (n: nat)
    ensures n <= |a| && n <= |b| && a[..n] == b[..n]
    ensures n < |a| && n < |b| ==> a[n] != b[n]
  {
    if a == [] || b == [] || a[0] != b[0] then 0 else 1 + CommonLength(a[1..], b[1..])
  }

  function Ups(n: nat): (s: seq<string>)
    ensures |s| == n && forall i :: 0 <= i < n ==> s[i] == DOTDOT
  {
    seq(n, _ => DOTDOT)
  }

  /** Up to the common ancestor, then down. */
  function Steps(from: seq<string>, to: seq<string>): seq<string> {
    var common := CommonLength(from, to);
    Ups(|from| - common) + to[common..]
  }

  function Distance(a: seq<string>, b: seq<string>): nat {
    |a| + |b| - 2 * CommonLength(a, b)
  }

  lemma {:induction false} WalkUp(dir: seq<string>, n: nat)
    requires n <= |dir|
    ensures Walk(dir, Ups(n)) == dir[..|dir| - n]
  {
    if n > 0 {
      WalkUp(dir[..|dir| - 1], n - 1);
      assert Ups(n)[1..] == Ups(n - 1);
      assert dir[..|dir| - 1][..|dir| - n] == dir[..|dir| - n];
    }
  }

  lemma StepsReach(from: seq<string>, to: seq<string>)
    requires NoDotNames(to)
    ensures Walk(from, Steps(from, to)) == to && |Steps(from, to)| == Distance(from, to)
  {
    hide Walk;
    var common := CommonLength(from, to);
    WalkAppend(from, Ups(|from| - common), to[common..]);
    WalkUp(from, |from| - common);
    WalkRegular(from[..common], to[common..]);
    assert to == to[..common] + to[common..];
  }

  lemma CommonIs(a: seq<string>, b: seq<string>, n: nat)
    requires n <= |a| && n <= |b| && a[..n] == b[..n]
    requires n < |a| && n < |b| ==> a[n] != b[n]
    ensures CommonLength(a, b) == n
  {
  }

  /** One step gets at most one nearer. */
  lemma StepNearer(a: seq<string>, step: string, b: seq<string>)
    ensures Distance(a, b) <= 1 + Distance(StepInto(a, step), b)
  {
  }

  /** No sequence of steps that reaches the target is shorter. */
  lemma {:induction false} StepsAreShortest(from: seq<string>, to: seq<string>, others: seq<string>)
    requires Walk(from, others) == to
    ensures |Steps(from, to)| <= |others|
    decreases |others|
  {
    if others == [] {
      CommonIs(from, to, |from|);
    } else {
      StepsAreShortest(StepInto(from, others[0]), to, others[1..]);
      StepNearer(from, others[0], to);
    }
  }

  // ---- What changeDirectory issues ----

  predicate HasDrive(p: Path) {
    !p.root && p.names != [] && |p.names[0]| >= 2 && IsAlpha(p.names[0][0]) && p.names[0][1] == ':'
  }

  predicate IsAlpha(c: char) {
    'a' <= c <= 'z' || 'A' <= c <= 'Z'
  }

  predicate PassedOver(element: string) {
    element == "\\" || element == ""
  }

  /** descendFromRoot passes over empty and backslash components. */
  function Descent(elements: seq<string>): seq<string> {
    if elements == [] then []
    else (if PassedOver(elements[0]) then [] else [elements[0]]) + Descent(elements[1..])
  }

  predicate RootJump(current: Path, target: Path) {
    target.root && !current.root
  }

  function Plan(current: Path, target: Path): seq<string> {
    if RootJump(current, target) then Descent(target.RelativeElements())
    else Steps(Components(current), Components(target))
  }

  predicate CanStep(t: Tree, allows: Policy, cwd: seq<string>, dir: string) {
    dir == DOTDOT || dir == DOT || (IsDir(t, cwd + [dir]) && allows(CWD, cwd + [dir]))
  }

  /** Step k of the plan can be taken, once those before it are. */
  predicate TakeAt(s: ServerState, allows: Policy, plan: seq<string>, k: nat)
    requires k < |plan|
  {
    CanStep(s.tree, allows, Walk(s.cwd, plan[..k]), plan[k])
  }

  /** When a successful change leaves navigator and server in the same place: a root jump
    * descends from where the server is, not from the root. */
  predicate StaysInStep(current: Path, target: Path) {
    RootJump(current, target) ==>
      Components(current) + Descent(target.RelativeElements()) == Components(target)
  }

  lemma ComponentsHaveNoDots(p: ValidPath)
    ensures NoDotNames(Components(p))
  {
    SubsetOfElements(p.RelativeElements());
    assert forall i :: 0 <= i < |Components(p)| ==> Components(p)[i] in Components(p);
  }

  lemma OneMoreToDescend(elements: seq<string>)
    requires elements != []
    ensures Descent(elements) == (if PassedOver(elements[0]) then [] else [elements[0]]) + Descent(elements[1..])
  {
  }

  lemma {:induction false} DescentAppend(a: seq<string>, b: seq<string>)
    ensures Descent(a + b) == Descent(a) + Descent(b)
  {
    if a == [] {
      assert a + b == b;
    } else {
      hide Descent, PassedOver;
      assert (a + b)[0] == a[0] && (a + b)[1..] == a[1..] + b;
      OneMoreToDescend(a + b);
      OneMoreToDescend(a);
      DescentAppend(a[1..], b);
      Associates(if PassedOver(a[0]) then [] else [a[0]], Descent(a[1..]), Descent(b));
    }
  }

  predicate AllPassed(elements: seq<string>) {
    forall e <- elements :: PassedOver(e)
  }

  predicate NonePassed(elements: seq<string>) {
    forall e <- elements :: !PassedOver(e)
  }

  lemma {:induction false} DescentExactly(elements: seq<string>)
    ensures NonePassed(Descent(elements))
    ensures Descent(elements) == elements <==> NonePassed(elements)
    ensures Descent(elements) == [] <==> AllPassed(elements)
  {
    if elements != [] {
      DescentExactly(elements[1..]);
      assert elements == [elements[0]] + elements[1..];
    }
  }

  lemma DescentTakesTheRest(here: seq<string>, to: seq<string>)
    ensures here + Descent(to) == to <==> here <= to && AllPassed(here) && NonePassed(to[|here|..])
  {
    hide AllPassed, NonePassed, Descent;
    if here <= to {
      var rest := to[|here|..];
      assert to == here + rest;
      DescentAppend(here, rest);
      DescentExactly(here);
      DescentExactly(rest);
      DescentExactly(to);
      if here + Descent(to) == to {
        CancelPrefix(here, Descent(to), rest);
      }
    }
  }

  /** In step exactly unless the target is absolute and the remembered path relative; and then
    * still if descending passes over just those components of the target that the remembered
    * path has already. */
  lemma DriftExactly(current: ValidPath, p: ValidPath)
    ensures var here, to := Components(current), Components(Normalize(p));
            StaysInStep(current, Normalize(p)) <==>
              !RootJump(current, Normalize(p)) || (here <= to && AllPassed(here) && NonePassed(to[|here|..]))
  {
    hide AllPassed, NonePassed, Normalize, Components;
    if Normalize(p).root {
      AbsoluteComponents(p);
      DescentTakesTheRest(Components(current), Components(Normalize(p)));
    }
  }

  lemma AbsoluteComponents(p: ValidPath)
    requires p.root
    ensures var target := Normalize(p);
            Components(target) == target.RelativeElements() == target.names + if LeavesSeparator(p) then [""] else []
    ensures LeavesSeparator(p) ==> Normalize(p).names != []
  {
    NormalNames(p);
    AbsoluteNormalIsRegular(p);
    RegularOnesAll(Normalize(p).RelativeElements());
  }

  /** For targets without a component named backslash, the remembered path must be at the root
    * and the target be left without a separator. */
  lemma DriftWithoutBackslash(current: ValidPath, p: ValidPath)
    requires forall n <- Normalize(p).names :: n != "\\"
    ensures StaysInStep(current, Normalize(p)) <==>
              !RootJump(current, Normalize(p)) || (Components(current) == [] && !LeavesSeparator(p))
  {
    hide LeavesSeparator, Components, Normalize;
    DriftExactly(current, p);
    if Normalize(p).root {
      AbsoluteComponents(p);
      var here, names, to := Components(current), Normalize(p).names, Components(Normalize(p));
      assert NonePassed(names);
      if here == [] {
        assert to[0..] == to;
        assert LeavesSeparator(p) ==> to[|to| - 1] == "" && PassedOver("");
      } else if here <= to {
        assert here[0] == names[0] && here[0] in here && names[0] in names;
      }
    }
  }

  /** Without its condition the statement fails: from the path dot a change to the entry
    * backslash of the root issues no step at all. */
  lemma BackslashDrifts()
    ensures var current, p := Path(false, [DOT], false), Path(true, ["\\"], false);
            && RootJump(current, Normalize(p)) && Components(current) == [] && !LeavesSeparator(p)
            && Plan(current, Normalize(p)) == [] && !StaysInStep(current, Normalize(p))
  {
    var current, p := Path(false, [DOT], false), Path(true, ["\\"], false);
    assert RegularOnes([DOT]) == [] by { assert [DOT][1..] == []; }
    assert current.RelativeElements() == [DOT];
    AbsoluteComponents(p);
    DescentExactly(p.names);
  }

  /** From the relative path foo, a change to /bar steps into foo/bar. */
  lemma DriftExample()
    ensures var current, target := Path(false, ["foo"], false), Path(true, ["bar"], false);
            && Normalize(target) == target && !StaysInStep(current, target)
            && Walk(Components(current), Plan(current, target)) == ["foo", "bar"]
  {
  }

  /** Where the issued steps lead from the remembered directory. */
  lemma PlanLeads(current: ValidPath, p: ValidPath)
    ensures var target := Normalize(p);
            Walk(Components(current), Plan(current, target))
            == if RootJump(current, target) then Components(current) + Descent(target.RelativeElements())
               else Components(target)
  {
    var target := Normalize(p);
    if RootJump(current, target) {
      DescentHasNoDots(p);
      WalkRegular(Components(current), Descent(target.RelativeElements()));
    } else {
      ComponentsHaveNoDots(target);
      StepsReach(Components(current), Components(target));
    }
  }

  lemma DescentHasNoDots(p: ValidPath)
    requires p.root
    ensures NoDotNames(Descent(Normalize(p).RelativeElements()))
  {
    var elements := Normalize(p).RelativeElements();
    AbsoluteNormalIsRegular(p);
    SubsetOfElements(elements);
    assert forall i :: 0 <= i < |Descent(elements)| ==> Descent(elements)[i] in elements;
  }

  /** No part of the way comes back to where it began. */
  lemma PlanNeverReturns(current: ValidPath, p: ValidPath, k: nat)
    requires k <= |Plan(current, Normalize(p))|
    ensures Walk(Components(current), Plan(current, Normalize(p))[..k]) == Components(current) <==> k == 0
  {
    var here, target := Components(current), Normalize(p);
    var plan := Plan(current, target);
    if RootJump(current, target) {
      DescentHasNoDots(p);
      WalkRegular(here, plan[..k]);
    } else if Walk(here, plan[..k]) == here {
      PlanLeads(current, p);
      assert plan == plan[..k] + plan[k..];
      WalkAppend(here, plan[..k], plan[k..]);
      StepsAreShortest(here, Components(target), plan[k..]);
    }
  }

  lemma PlanOfInStep(current: ValidPath, p: ValidPath)
    requires StaysInStep(current, Normalize(p)) && !LeavesSeparator(p)
    requires RootJump(current, Normalize(p)) ==> Components(current) == []
    ensures Plan(current, Normalize(p)) == Steps(Components(current), Meaning(p))
  {
    NormalisationKeepsMeaningExactly(p);
    if RootJump(current, Normalize(p)) {
      assert Components(current) + Descent(Normalize(p).RelativeElements()) == Descent(Normalize(p).RelativeElements());
      assert Steps([], Meaning(p)) == Meaning(p);
    }
  }

  /** A plan that stays in step is the shortest way there is. */
  lemma PlanIsShortest(current: ValidPath, p: ValidPath, others: seq<string>)
    requires StaysInStep(current, Normalize(p)) && !LeavesSeparator(p)
    requires RootJump(current, Normalize(p)) ==> Components(current) == []
    requires Walk(Components(current), others) == Meaning(p)
    ensures |Plan(current, Normalize(p))| <= |others|
    ensures |Plan(current, Normalize(p))| == Distance(Components(current), Meaning(p))
  {
    PlanOfInStep(current, p);
    StepsAreShortest(Components(current), Meaning(p), others);
  }

  lemma {:induction false} ElementsAreClean(p: ValidPath)
    ensures forall e <- p.RelativeElements() :: CleanText(e)
    ensures forall e <- Components(p) :: CleanText(e)
    ensures forall e <- Descent(p.RelativeElements()) :: CleanText(e)
  {
    SubsetOfElements(p.RelativeElements());
  }

  lemma {:induction false} SubsetOfElements(elements: seq<string>)
    ensures forall e <- RegularOnes(elements) :: e in elements && e != DOT && e != DOTDOT
    ensures forall e <- Descent(elements) :: e in elements
  {
    if elements != [] {
      SubsetOfElements(elements[1..]);
    }
  }

  lemma {:induction false} TreePathsAreRegular(t: Tree, p: seq<string>)
    requires ValidTree(t) && p in t
    ensures AllRegular(p)
    decreases |p|
  {
    if p != [] {
      TreePathsAreRegular(t, p[..|p| - 1]);
      assert p == p[..|p| - 1] + [p[|p| - 1]];
    }
  }

  lemma {:induction false} PrefixesAreDirs(t: Tree, p: seq<string>, n: nat)
    requires ValidTree(t) && IsDir(t, p) && n <= |p|
    ensures IsDir(t, p[..n])
    decreases |p|
  {
    if n < |p| {
      PrefixesAreDirs(t, p[..|p| - 1], n);
      assert p[..|p| - 1][..n] == p[..n];
    } else {
      assert p[..n] == p;
    }
  }

  /** Once past the common ancestor, the way passes through the target's own prefixes. */
  lemma OnTheWayDown(from: seq<string>, to: seq<string>, n: nat)
    requires AllRegular(to)
    requires CommonLength(from, to) + n <= |to|
    ensures var up := |from| - CommonLength(from, to);
            up + n <= |Steps(from, to)| && Walk(from, Steps(from, to)[..up + n]) == to[..CommonLength(from, to) + n]
  {
    hide Walk;
    var common := CommonLength(from, to);
    var up := |from| - common;
    assert Steps(from, to)[..up + n] == Ups(up) + to[common..][..n];
    WalkAppend(from, Ups(up), to[common..][..n]);
    WalkUp(from, up);
    WalkRegular(from[..common], to[common..][..n]);
    assert to[..common] + to[common..][..n] == to[..common + n];
  }

  /** Every step of the way to an existing directory can be taken. */
  lemma StepsArePossible(t: Tree, allows: Policy, from: seq<string>, to: seq<string>, k: nat)
    requires ValidTree(t) && IsDir(t, to) && GrantsEntry(allows)
    requires k < |Steps(from, to)|
    ensures CanStep(t, allows, Walk(from, Steps(from, to)[..k]), Steps(from, to)[k])
  {
    hide Walk, ValidTree;
    var common := CommonLength(from, to);
    var up := |from| - common;
    if k >= up {
      var n := k - up;
      TreePathsAreRegular(t, to);
      OnTheWayDown(from, to, n);
      assert to[..common + n] + [to[common + n]] == to[..common + n + 1];
      PrefixesAreDirs(t, to, common + n + 1);
    }
  }

  /** Where every directory may be entered, no step towards an existing one is refused. */
  lemma RefusedOnlyIfMissing(s: ServerState, allows: Policy, current: ValidPath, p: ValidPath, k: nat)
    requires ValidState(s) && s.cwd == Components(current)
    requires k < |Plan(current, Normalize(p))|
    requires var plan := Plan(current, Normalize(p));
             !TakeAt(s, allows, plan, k)
    requires StaysInStep(current, Normalize(p)) && !LeavesSeparator(p)
    requires RootJump(current, Normalize(p)) ==> Components(current) == []
    ensures !(GrantsEntry(allows) && IsDir(s.tree, Meaning(p)))
  {
    hide CanStep, Walk, ValidTree, IsDir, GrantsEntry, RootJump, Plan, LeavesSeparator, StaysInStep;
    if GrantsEntry(allows) && IsDir(s.tree, Meaning(p)) {
      PlanOfInStep(current, p);
      StepsArePossible(s.tree, allows, s.cwd, Meaning(p), k);
      assert false;
    }
  }

  function Cds(steps: seq<string>): seq<Command> {
    seq(|steps|, i requires 0 <= i < |steps| => Command(CWD, steps[i]))
  }

  lemma NoCds()
    ensures Cds([]) == []
    ensures forall dir :: Walk(dir, []) == dir
  {
  }

  lemma OneMoreCd(steps: seq<string>, step: string)
    ensures Cds(steps + [step]) == Cds(steps) + [Command(CWD, step)]
  {
  }

  class DirectoryNavigator {
    const link: ControlLink
    var current: ValidPath

    constructor (link: ControlLink)
      ensures this.link == link && current == Path(true, [], false)
    {
      this.link := link;
      current := Path(true, [], false);
    }

    /** No reply is waiting, so the next answer will be that of the next command. */
    ghost predicate Ready()
      reads this, link, link.socket, link.server, link.server.toClient, link.server.fromClient
    {
      link.InStep() && !HasDrive(current)
    }

    /** And the server is where the navigator believes it to be. */
    ghost predicate InStep()
      reads this, link, link.socket, link.server, link.server.toClient, link.server.fromClient
    {
      Ready() && link.server.state.cwd == Components(current)
    }

    method FtpCd(dir: string) returns (r: Expected<()>)
      requires link.InStep() && CleanText(dir)
      modifies link`log, link.socket, link.server, link.server.toClient, link.server.fromClient
      modifies link.server.dataOut`inFlight, link.server.dataOut`closed
      ensures link.InStep() && link.log == old(link.log) + [Command(CWD, dir)]
      ensures var s := old(link.server.state);
              && (r.Success? <==> CanStep(s.tree, link.server.allows, s.cwd, dir))
              && (r.Failure? ==> r == Failure(ProtocolError))
              && link.server.state == if r.Success? then s.(cwd := StepInto(s.cwd, dir)) else s
    {
      var answer := link.Exchange(Command(CWD, dir));
      assert answer.Success?;
      if answer.value.code != 250 {
        return Failure(ProtocolError);
      }
      r := Success(());
    }

    /** One loop of cd's; it ends at the first refusal, after `done` steps. */
    method IssueEach(dirs: seq<string>) returns (r: Expected<()>, ghost done: nat)
      requires link.InStep() && forall d <- dirs :: CleanText(d)
      modifies link`log, link.socket, link.server, link.server.toClient, link.server.fromClient
      modifies link.server.dataOut`inFlight, link.server.dataOut`closed
      ensures link.InStep() && done <= |dirs|
      ensures link.server.state == old(link.server.state).(cwd := Walk(old(link.server.state.cwd), dirs[..done]))
      ensures r.Success? ==> done == |dirs| && link.log == old(link.log) + Cds(dirs)
      ensures r.Failure? ==>
                && r == Failure(ProtocolError) && done < |dirs| && link.log == old(link.log) + Cds(dirs[..done + 1])
                && !TakeAt(old(link.server.state), link.server.allows, dirs, done)
      ensures forall k :: 0 <= k < done ==> TakeAt(old(link.server.state), link.server.allows, dirs, k)
    {
      hide CanStep, Walk, Cds, StepInto, ControlLink.Linked;
      NoCds();
      done := 0;
      for i := 0 to |dirs|
        invariant link.InStep() && done == i
        invariant link.log == old(link.log) + Cds(dirs[..i])
        invariant link.server.state == old(link.server.state).(cwd := Walk(old(link.server.state.cwd), dirs[..i]))
        invariant forall k :: 0 <= k < i ==> TakeAt(old(link.server.state), link.server.allows, dirs, k)
      {
        assert dirs[..i + 1] == dirs[..i] + [dirs[i]];
        WalkOne(old(link.server.state.cwd), dirs[..i], dirs[i]);
        OneMoreCd(dirs[..i], dirs[i]);
        var result := FtpCd(dirs[i]);
        if result.Failure? {
          return result, done;
        }
        done := i + 1;
      }
      assert dirs[..|dirs|] == dirs;
      r := Success(());
    }

    /** The loop that measures the common prefix. */
    method CountCommon(currentParts: seq<string>, targetParts: seq<string>) returns (common: nat)
      ensures common == CommonLength(currentParts, targetParts)
    {
      common := 0;
      while common < |currentParts| && common < |targetParts| && currentParts[common] == targetParts[common]
        invariant common <= |currentParts| && common <= |targetParts|
        invariant currentParts[..common] == targetParts[..common]
      {
        common := common + 1;
      }
      CommonIs(currentParts, targetParts, common);
    }

    /** Descend from wherever the server is. */
    method DescendFromRoot(target: ValidPath) returns (r: Expected<()>, ghost done: nat)
      requires link.InStep()
      modifies link`log, link.socket, link.server, link.server.toClient, link.server.fromClient
      modifies link.server.dataOut`inFlight, link.server.dataOut`closed
      ensures link.InStep() && done <= |Descent(target.RelativeElements())|
      ensures var plan := Descent(target.RelativeElements());
              && link.server.state == old(link.server.state).(cwd := Walk(old(link.server.state.cwd), plan[..done]))
              && (r.Success? ==> done == |plan| && link.log == old(link.log) + Cds(plan))
              && (r.Failure? ==>
                    && r == Failure(ProtocolError) && done < |plan| && link.log == old(link.log) + Cds(plan[..done + 1])
                    && !TakeAt(old(link.server.state), link.server.allows, plan, done))
              && forall k :: 0 <= k < done ==> TakeAt(old(link.server.state), link.server.allows, plan, k)
    {
      ElementsAreClean(target);
      r, done := IssueEach(Descent(target.RelativeElements()));
    }

    /** The loops of changeDirectory: from the root if the target alone is absolute, otherwise
      * up to the common ancestor and down. */
    method IssuePlan(target: ValidPath) returns (r: Expected<()>, ghost done: nat)
      requires link.InStep()
      modifies link`log, link.socket, link.server, link.server.toClient, link.server.fromClient
      modifies link.server.dataOut`inFlight, link.server.dataOut`closed
      ensures link.InStep() && done <= |Plan(current, target)|
      ensures var plan := Plan(current, target);
              && link.server.state == old(link.server.state).(cwd := Walk(old(link.server.state.cwd), plan[..done]))
              && (r.Success? ==> done == |plan| && link.log == old(link.log) + Cds(plan))
              && (r.Failure? ==>
                    && r == Failure(ProtocolError) && done < |plan| && link.log == old(link.log) + Cds(plan[..done + 1])
                    && !TakeAt(old(link.server.state), link.server.allows, plan, done))
              && forall k :: 0 <= k < done ==> TakeAt(old(link.server.state), link.server.allows, plan, k)
    {
      hide CanStep, Walk, Components, Steps, Cds, ControlLink.Linked;
      if target.root && !current.root {
        r, done := DescendFromRoot(target);
      } else {
        var currentParts := Split(current);
        var targetParts := Split(target);
        var common := CountCommon(currentParts, targetParts);
        ElementsAreClean(target);
        // The two loops, up and then down, one after the other.
        var ways := Ups(|currentParts| - common) + targetParts[common..];
        StepsAre(currentParts, targetParts, common);
        r, done := IssueEach(ways);
      }
    }

    /** The steps of the plan up to the first that cannot be taken, `done` of them. It succeeds
      * exactly when each can be taken where the ones before it lead. A failure does not undo
      * those steps and leaves the remembered path, so the two are then in step exactly when
      * the very first step cannot be taken. */
    method ChangeDirectory(targetPath: ValidPath) returns (r: Expected<()>, ghost done: nat)
      requires Ready() && !HasDrive(Normalize(targetPath))
      modifies this`current, link`log, link.socket, link.server, link.server.toClient, link.server.fromClient
      modifies link.server.dataOut`inFlight, link.server.dataOut`closed
      ensures Ready()
      ensures var plan := Plan(old(current), Normalize(targetPath));
              && done <= |plan|
              && (forall k :: 0 <= k < done ==> TakeAt(old(link.server.state), link.server.allows, plan, k))
              && (done < |plan| ==> !TakeAt(old(link.server.state), link.server.allows, plan, done))
              && (r.Success? <==>
                    forall k :: 0 <= k < |plan| ==> TakeAt(old(link.server.state), link.server.allows, plan, k))
              && link.server.state == old(link.server.state).(cwd := Walk(old(link.server.state.cwd), plan[..done]))
              && link.log == old(link.log) + Cds(plan[..if r.Success? then done else done + 1])
              && (r.Failure? ==>
                    && r == Failure(ProtocolError) && current == old(current)
                    && (old(InStep()) ==>
                          (InStep() <==> !TakeAt(old(link.server.state), link.server.allows, plan, 0))))
      ensures r.Success? ==>
                && current == Normalize(targetPath)
                && (old(InStep()) ==> (InStep() <==> StaysInStep(old(current), current)))
      ensures && old(InStep()) && StaysInStep(old(current), Normalize(targetPath)) && !LeavesSeparator(targetPath)
              && (RootJump(old(current), Normalize(targetPath)) ==> Components(old(current)) == [])
              && GrantsEntry(link.server.allows) && IsDir(old(link.server.state.tree), Meaning(targetPath)) ==>
                r.Success?
    {
      hide CanStep, ValidTree, IsDir, Walk, Components, HasDrive, GrantsEntry, LeavesSeparator, Plan, Cds;
      var target := Normalize(targetPath);
      ghost var before, plan := link.server.state, Plan(current, target);
      PlanLeads(current, targetPath);
      r, done := IssuePlan(target);
      PlanNeverReturns(current, targetPath, done);
      if r.Failure? {
        if before.cwd == Components(current) && StaysInStep(current, target) && !LeavesSeparator(targetPath)
           && (RootJump(current, target) ==> Components(current) == []) {
          RefusedOnlyIfMissing(before, link.server.allows, current, targetPath, done);
        }
        assert !TakeAt(before, link.server.allows, plan, done);
        return;
      }
      assert plan[..done] == plan;
      current := target;
    }
  }

  lemma StepsAre(from: seq<string>, to: seq<string>, common: nat)
    requires common == CommonLength(from, to)
    ensures Steps(from, to) == Ups(|from| - common) + to[common..]
  {
  }

  lemma WalkOne(dir: seq<string>, names: seq<string>, name: string)
    ensures Walk(dir, names + [name]) == StepInto(Walk(dir, names), name)
  {
    var none: seq<string> := [];
    WalkAppend(dir, names, [name]);
    assert [name][1..] == none;
  }
}
