/** Whole runs of file operations on one session. */
module FtpRuns {
  import opened Wrappers
  import opened Sequences
  import opened FtpReplies
  import opened FtpPaths
  import opened FtpServers
  import opened FtpLinks
  import opened FtpNavigators
  import opened FtpSessions

  datatype Call =
    | List(path: ValidPath)
    | CreateDir(path: ValidPath)
    | Exists(path: ValidPath)
    | IsDirectory(path: ValidPath)
    | Remove(path: ValidPath)
    | Read(path: ValidPath)
    | ReadStreaming(path: ValidPath, callback: ReadCallback)
    | Write(path: ValidPath, data: string)
    | WriteStreaming(path: ValidPath, chunks: seq<Expected<string>>)
  {
    /** The directory the operation works in. */
    function Directory(): ValidPath {
      if List? then path else path.ParentPath()
    }

    /** A POSIX path that, except for listing, ends in a proper name. */
    predicate Proper() {
      !HasDrive(Normalize(Directory())) && (List? || IsRegular(path.Filename()))
    }
  }

  /** What a successful call does to the server's tree. */
  ghost predicate Changed(t: Tree, call: Call, t': Tree) {
    match call
    case CreateDir(p) =>
      Target(p) in t' && (t' == t || (Target(p) !in t && t' == t[Target(p) := Node.Directory]))
    case Remove(p) => Target(p) in t && t' == t - {Target(p)}
    case Write(p, data) => t' == t[Target(p) := File(data)]
    case WriteStreaming(p, chunks) => t' == t[Target(p) := File(Produced(chunks))]
    case _ => t' == t
  }

  /** What a successful call returns. */
  datatype Returned =
    | Nothing
    | Lines(lines: seq<string>)
    | Found(found: bool)
    | Kind(directory: bool)
    | Content(content: string)
    | Spans(spans: seq<string>, total: nat)
    | Entry(entry: FileEntry)
  {
    /** The bytes of the file that was read. */
    function Bytes(): string {
      if Content? then content else if Spans? then Flatten(spans) else ""
    }
  }

  /** It is what the server's tree holds. */
  ghost predicate Returns(s: FtpFileTransfer, t: Tree, call: Call, value: Returned) {
    match call
    case List(p) => IsDir(t, Meaning(p)) && value == Lines(SplitLines(s.link.server.listing(t, Meaning(p))))
    case Exists(p) =>
      && value.Found? && (value.found ==> Target(p) in t)
      && (GrantsAll(s.link.server.allows) ==> value.found == Detectable(t, Target(p), s.caps))
    case IsDirectory(p) => Target(p) in t && value == Kind(IsDir(t, Target(p)))
    case Read(p) => IsFile(t, Target(p)) && value == Content(t[Target(p)].content)
    case ReadStreaming(p, callback) =>
      && IsFile(t, Target(p)) && value.Spans? && Accepted(callback, value.spans)
      && Flatten(value.spans) == t[Target(p)].content && value.total == |t[Target(p)].content|
    case Write(p, data) => value == Entry(FileEntry(p.Filename(), |data|, p))
    case WriteStreaming(p, chunks) => value == Entry(FileEntry(p.Filename(), |Produced(chunks)|, p))
    case _ => value == Nothing
  }

  /** A call succeeds, or is refused, or its consumer or producer fails in the middle and leaves
    * the final reply unread. */
  datatype Outcome = Done(value: Returned) | Refused | Broken

  ghost predicate Reported(s: FtpFileTransfer, t: Tree, call: Call, outcome: Outcome, t': Tree) {
    match outcome
    case Done(value) => Returns(s, t, call, value) && Changed(t, call, t')
    case Refused => t' == t
    case Broken =>
      || (call.ReadStreaming? && t' == t)
      || (call.WriteStreaming? && (t' == t || t' == t[Target(call.path) := File(Produced(call.chunks))]))
  }

  /** The way to the directory of the call is open. */
  ghost predicate Open(allows: Policy, t: Tree, call: Call) {
    GrantsEntry(allows) && IsDir(t, Meaning(call.Directory())) && !LeavesSeparator(call.Directory())
  }

  /** What a call needs of the tree, once nothing is forbidden, to succeed; streams must be taken
    * whole or produced to their end. */
  ghost predicate Feasible(s: FtpFileTransfer, t: Tree, call: Call) {
    match call
    case List(_) | Exists(_) => true
    case CreateDir(p) => Target(p) !in t || Detectable(t, Target(p), s.caps)
    case IsDirectory(p) => Detectable(t, Target(p), s.caps)
    case Remove(p) => Detectable(t, Target(p), s.caps) && (IsDir(t, Target(p)) ==> IsEmptyDir(t, Target(p)))
    case Read(p) => IsFile(t, Target(p))
    case ReadStreaming(p, callback) => IsFile(t, Target(p)) && TakesEverything(callback)
    case Write(p, _) => IsEntryName(p.Filename()) && !IsDir(t, Target(p))
    case WriteStreaming(p, chunks) => IsEntryName(p.Filename()) && !IsDir(t, Target(p)) && !Fails(chunks)
  }

  /** One call. If no root jump separates the session from its directory, its outcome is what
    * happened to the tree; and the session is in step again after a success, and after a
    * refusal by a server that lets the directory be entered. */
  method Perform(s: FtpFileTransfer, call: Call) returns (outcome: Outcome)
    requires s.Ready() && call.Proper()
    modifies s.navigator, s.link, s.link.socket, s.link.server, s.link.server.toClient, s.link.server.fromClient
    modifies s.link.server.dataOut, s.link.server.dataIn
    ensures !outcome.Broken? ==> s.Ready()
    ensures s.navigator.current == old(s.navigator.current) || s.navigator.current == Normalize(call.Directory())
    ensures old(s.Beside(call.Directory())) ==>
              Reported(s, old(s.link.server.state.tree), call, outcome, s.link.server.state.tree)
    ensures outcome.Done? && old(s.Beside(call.Directory())) ==> s.InStep()
    ensures outcome.Refused? && old(s.Enterable(call.Directory())) ==> s.InStep()
    ensures old(s.Enterable(call.Directory()) && Feasible(s, s.link.server.state.tree, call))
            && GrantsAll(s.link.server.allows) ==>
              outcome.Done?
  {
    hide HasDrive, Components, ValidState, Meaning, Flatten, Produced, Accepted, Fails, GrantsAll, GrantsEntry;
    hide LeavesSeparator;
    hide WellFormed, ControlLink.Linked, StaysInStep, IsEmptyDir, IsEntryName, Detectable, RootJump, TakesEverything;
    hide FailsAt, IsDir, Normalize;
    outcome := Refused;
    match call {
      case List(p) =>
        var r := s.List(p);
        if r.Success? { outcome := Done(Lines(r.value)); }
      case CreateDir(p) =>
        var r := s.CreateDir(p);
        if r.Success? { outcome := Done(Nothing); }
      case Exists(p) =>
        var r := s.Exists(p);
        if r.Success? { outcome := Done(Found(r.value)); }
      case IsDirectory(p) =>
        var r := s.IsDirectory(p);
        if r.Success? { outcome := Done(Kind(r.value)); }
      case Remove(p) =>
        var r := s.Remove(p);
        if r.Success? { outcome := Done(Nothing); }
      case Read(p) =>
        var r := s.Read(p);
        if r.Success? { outcome := Done(Content(r.value)); }
      case ReadStreaming(p, callback) =>
        var r, spans := s.ReadStreaming(p, callback);
        AcceptsAllExactly(callback);
        if r.Success? { outcome := Done(Spans(spans, r.value)); }
        else if !Accepted(callback, spans) { outcome := Broken; }
      case Write(p, data) =>
        var r := s.Write(p, data);
        if r.Success? { outcome := Done(Entry(r.value)); }
      case WriteStreaming(p, chunks) =>
        var r := s.WriteStreaming(p, chunks);
        if r.Success? { outcome := Done(Entry(r.value)); }
        else if Fails(chunks) { outcome := Broken; }
    }
  }

  /** The first n calls succeeded, or were refused although the way was open. */
  ghost predicate Orderly(allows: Policy, trees: seq<Tree>, calls: seq<Call>, outcomes: seq<Outcome>, n: nat)
    requires n <= |outcomes| <= |calls| && n <= |trees|
  {
    forall k :: 0 <= k < n ==> outcomes[k].Done? || (outcomes[k].Refused? && Open(allows, trees[k], calls[k]))
  }

  /** The outcome says what happened to the tree, and the call has succeeded if the tree
    * allowed it and nothing was forbidden. */
  ghost predicate Fulfilled(s: FtpFileTransfer, t: Tree, call: Call, outcome: Outcome, t': Tree) {
    && Reported(s, t, call, outcome, t')
    && (Open(s.link.server.allows, t, call) && GrantsAll(s.link.server.allows) && Feasible(s, t, call) ==>
          outcome.Done?)
  }

  /** So it was for each of the first n calls that followed an orderly run. */
  ghost predicate AllFulfilled(s: FtpFileTransfer, trees: seq<Tree>, calls: seq<Call>, outcomes: seq<Outcome>, n: nat)
    requires n <= |outcomes| <= |calls| && n < |trees|
  {
    forall k :: 0 <= k < n && Orderly(s.link.server.allows, trees, calls, outcomes, k) ==>
      Fulfilled(s, trees[k], calls[k], outcomes[k], trees[k + 1])
  }

  lemma OneMoreCall(s: FtpFileTransfer, trees: seq<Tree>, calls: seq<Call>, outcomes: seq<Outcome>, t: Tree, o: Outcome)
    requires |outcomes| < |calls| && |trees| == |outcomes| + 1
    requires AllFulfilled(s, trees, calls, outcomes, |outcomes|)
    requires var n := |outcomes|;
             Orderly(s.link.server.allows, trees, calls, outcomes, n) ==> Fulfilled(s, trees[n], calls[n], o, t)
    ensures var n, allows := |outcomes|, s.link.server.allows;
            && AllFulfilled(s, trees + [t], calls, outcomes + [o], n + 1)
            && (Orderly(allows, trees + [t], calls, outcomes + [o], n + 1) <==>
                  && Orderly(allows, trees, calls, outcomes, n)
                  && (o.Done? || (o.Refused? && Open(allows, trees[n], calls[n]))))
  {
    hide Fulfilled, Open;
    var n, allows := |outcomes|, s.link.server.allows;
    var trees', outcomes' := trees + [t], outcomes + [o];
    assert forall k :: 0 <= k <= n ==> trees'[k] == trees[k];
    assert forall k :: 0 <= k < n ==> outcomes'[k] == outcomes[k];
    assert forall k :: 0 <= k <= n ==>
                         (Orderly(allows, trees', calls, outcomes', k) <==> Orderly(allows, trees, calls, outcomes, k));
  }

  lemma NoCallYet(s: FtpFileTransfer, calls: seq<Call>, t: Tree)
    ensures AllFulfilled(s, [t], calls, [], 0) && Orderly(s.link.server.allows, [t], calls, [], 0)
  {
  }

  /** One call of such a run: no root jump separates the session from its directory. */
  method PerformNext(s: FtpFileTransfer, call: Call) returns (outcome: Outcome)
    requires s.Ready() && call.Proper() && (call.path.root ==> s.navigator.current.root)
    modifies s.navigator, s.link, s.link.socket, s.link.server, s.link.server.toClient, s.link.server.fromClient
    modifies s.link.server.dataOut, s.link.server.dataIn
    ensures !outcome.Broken? ==> s.Ready() && (call.path.root ==> s.navigator.current.root)
    ensures old(s.InStep()) ==>
              && Fulfilled(s, old(s.link.server.state.tree), call, outcome, s.link.server.state.tree)
              && (outcome.Done?
                  || (outcome.Refused? && Open(s.link.server.allows, old(s.link.server.state.tree), call)) ==>
                    s.InStep())
  {
    hide Reported, Feasible, GrantsAll, HasDrive, Components, Meaning, LeavesSeparator, GrantsEntry, ControlLink.Linked;
    hide IsDir, ValidState;
    outcome := Perform(s, call);
  }

  /** A run of calls on absolute paths, or on relative ones, going on through refusals. As long
    * as it is orderly each outcome says what happened to the tree, and the session stays in
    * step: no reply is unread, the server is in the directory the navigator remembers, and
    * that directory exists. */
  method Run(s: FtpFileTransfer, calls: seq<Call>, absolute: bool)
    returns (outcomes: seq<Outcome>, ghost trees: seq<Tree>)
    requires s.InStep() && (absolute ==> s.navigator.current.root)
    requires forall call <- calls :: call.Proper() && call.path.root == absolute
    modifies s.navigator, s.link, s.link.socket, s.link.server, s.link.server.toClient, s.link.server.fromClient
    modifies s.link.server.dataOut, s.link.server.dataIn
    ensures |outcomes| <= |calls| && |trees| == |outcomes| + 1
    ensures trees[0] == old(s.link.server.state.tree) && trees[|outcomes|] == s.link.server.state.tree
    ensures |outcomes| < |calls| ==> outcomes != [] && outcomes[|outcomes| - 1].Broken?
    ensures AllFulfilled(s, trees, calls, outcomes, |outcomes|)
    ensures Orderly(s.link.server.allows, trees, calls, outcomes, |outcomes|) ==> s.InStep() && |outcomes| == |calls|
  {
    hide Fulfilled, AllFulfilled, Orderly, Open, Call.Proper, HasDrive, ControlLink.Linked;
    NoCallYet(s, calls, s.link.server.state.tree);
    outcomes, trees := [], [s.link.server.state.tree];
    for i := 0 to |calls|
      invariant |outcomes| == i && |trees| == i + 1
      invariant trees[0] == old(s.link.server.state.tree) && trees[i] == s.link.server.state.tree
      invariant s.Ready() && (absolute ==> s.navigator.current.root)
      invariant AllFulfilled(s, trees, calls, outcomes, i)
      invariant Orderly(s.link.server.allows, trees, calls, outcomes, i) ==> s.InStep()
    {
      var outcome := PerformNext(s, calls[i]);
      OneMoreCall(s, trees, calls, outcomes, s.link.server.state.tree, outcome);
      trees, outcomes := trees + [s.link.server.state.tree], outcomes + [outcome];
      if outcome.Broken? {
        return;
      }
    }
  }

  /** What was written is what is read; with the way open a successful write makes the read
    * succeed. */
  method WriteThenRead(s: FtpFileTransfer, path: ValidPath, data: string)
    returns (written: Expected<FileEntry>, r: Expected<string>)
    requires s.InStep() && Call.Write(path, data).Proper() && (path.root ==> s.navigator.current.root)
    modifies s.navigator, s.link, s.link.socket, s.link.server, s.link.server.toClient, s.link.server.fromClient
    modifies s.link.server.dataOut, s.link.server.dataIn
    ensures r.Success? ==> written.Success? && s.InStep() && r.value == data
    ensures old(s.Reachable(path)) ==>
              (written.Success? <==>
                 IsEntryName(path.Filename()) && !IsDir(old(s.link.server.state.tree), Target(path)))
    ensures written.Success? && old(s.Reachable(path)) ==> r == Success(data)
  {
    hide HasDrive, Components, ValidState, Meaning, GrantsAll, GrantsEntry, LeavesSeparator, WellFormed;
    hide ControlLink.Linked;
    written := s.Write(path, data);
    if written.Failure? {
      return written, Failure(written.error);
    }
    r := s.Read(path);
  }

  /** The spans of a streaming read are the bytes of a whole-file read, and the returned
    * count is their number. */
  method ReadBothWays(s: FtpFileTransfer, path: ValidPath, callback: ReadCallback)
    returns (whole: Expected<string>, streamed: Expected<nat>, spans: seq<string>)
    requires s.InStep() && Call.Read(path).Proper() && (path.root ==> s.navigator.current.root)
    modifies s.navigator, s.link, s.link.socket, s.link.server, s.link.server.toClient, s.link.server.fromClient
    modifies s.link.server.dataOut, s.link.server.dataIn
    ensures whole.Success? && streamed.Success? ==>
              && s.InStep() && Flatten(spans) == whole.value && streamed.value == |whole.value|
    ensures old(s.Reachable(path)) ==> (whole.Success? <==> IsFile(old(s.link.server.state.tree), Target(path)))
    ensures whole.Success? && old(s.Reachable(path)) && TakesEverything(callback) ==> streamed.Success?
  {
    hide HasDrive, Components, ValidState, Meaning, GrantsAll, LeavesSeparator, WellFormed, Flatten, Accepted;
    whole := s.Read(path);
    if whole.Failure? {
      return whole, Failure(whole.error), [];
    }
    streamed, spans := s.ReadStreaming(path, callback);
    AcceptsAllExactly(callback);
  }
}
