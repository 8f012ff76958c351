/** The file operations of the FTP client, over one control connection and one data
  * connection at a time. */
module FtpSessions {
  import opened Wrappers
  import opened Sequences
  import opened Sockets
  import opened FtpReplies
  import opened FtpCommands
  import opened FtpPaths
  import opened Pasv
  import opened FtpServers
  import opened FtpLinks
  import opened FtpNavigators

  /** What FEAT advertised. */
  datatype Capabilities = Capabilities(mlst: bool, size: bool)

  /** The entry an operation on a path is about. */
  function Target(p: Path): seq<string> {
    Meaning(p.ParentPath()) + [p.Filename()]
  }

  /** For a path that ends in a name, it is the entry the path means. */
  lemma TargetIsMeaning(p: ValidPath)
    requires IsRegular(p.Filename())
    ensures Target(p) == Meaning(p)
  {
    var parent := p.ParentPath().names;
    assert p.names == parent + [p.Filename()];
    WalkOne([], parent, p.Filename());
  }

  /** Where the navigator ends up in step, the directory is the meaning of its path: no
    * directory has an empty component. */
  lemma DirectoryIsMeaning(t: Tree, p: ValidPath)
    requires ValidTree(t) && IsDir(t, Components(Normalize(p)))
    ensures Components(Normalize(p)) == Meaning(p)
  {
    TreePathsAreRegular(t, Components(Normalize(p)));
    NormalisationKeepsMeaningExactly(p);
    var c := Components(Normalize(p));
    assert c != [] ==> IsRegular(c[|c| - 1]);
  }

  /** A second change to the same path takes no step. */
  lemma SamePlaceNeedsNoStep(p: Path)
    ensures Plan(p, p) == [] && StaysInStep(p, p)
    ensures forall dir :: Walk(dir, []) == dir
  {
    CommonIs(Components(p), Components(p), |Components(p)|);
  }

  /** No entry of a tree is called dot, dot-dot or nothing. */
  lemma EntriesAreRegular(t: Tree, dir: seq<string>, name: string)
    requires ValidTree(t) && dir + [name] in t
    ensures IsRegular(name)
  {
    var p := dir + [name];
    assert p[|p| - 1] == name;
  }

  /** Only proper names are those of entries; dot and dot-dot name directories all the same. */
  lemma NamesOfEntries(s: ServerState, name: string)
    requires ValidState(s)
    ensures s.cwd + [name] in s.tree ==> IsRegular(name)
    ensures name == DOT || name == DOTDOT ==> IsDir(s.tree, StepInto(s.cwd, name))
  {
    if s.cwd + [name] in s.tree {
      EntriesAreRegular(s.tree, s.cwd, name);
    }
    ParentsAreDirs(s.tree, s.cwd);
  }

  lemma LastComponentIsFilename(path: ValidPath)
    ensures path.Filename() != "" ==> path.LastComponent() == path.Filename()
    ensures CleanText(path.LastComponent()) && CleanText(path.Filename())
  {
  }

  lemma NothingForbidden(allows: Policy)
    ensures GrantsAll(allows) ==> forall v, p :: allows(v, p)
  {
  }

  lemma MkdEffect(s: ServerState, name: string, allows: Policy)
    ensures var e := EffectOf(s, Command(MKD, name), allows);
            var p := s.cwd + [name];
            && (e.code == 257 ==> p !in s.tree && e.state == s.(tree := s.tree[p := Directory]))
            && (e.code != 257 ==> e.state == s)
            && (e.code == 257 <==> p !in s.tree && IsEntryName(name) && allows(MKD, p))
  {
  }

  lemma RemoveEffect(s: ServerState, name: string, directory: bool, allows: Policy)
    ensures var e := EffectOf(s, Command(if directory then RMD else DELE, name), allows);
            var p := s.cwd + [name];
            && (e.code == 250 ==> p in s.tree && e.state == s.(tree := s.tree - {p}))
            && (e.code != 250 ==> e.state == s)
            && (e.code == 250 <==>
                  && (if directory then IsEmptyDir(s.tree, p) else IsFile(s.tree, p))
                  && allows(if directory then RMD else DELE, p))
  {
  }

  lemma SendingEffect(s: ServerState, c: Command, allows: Policy)
    requires c.verb == LIST || c.verb == RETR
    ensures EffectOf(s, c, allows).state == s
    ensures c.verb == RETR && EffectOf(s, c, allows).code == 150 ==> IsFile(s.tree, s.cwd + [c.arg])
    ensures c.verb == LIST ==> (EffectOf(s, c, allows).code == 150 <==> allows(LIST, s.cwd))
    ensures c.verb == RETR ==>
              (EffectOf(s, c, allows).code == 150 <==>
                 IsFile(s.tree, s.cwd + [c.arg]) && allows(RETR, s.cwd + [c.arg]))
  {
  }

  lemma StorEffect(s: ServerState, name: string, allows: Policy)
    requires ValidState(s)
    ensures var e := EffectOf(s, Command(STOR, name), allows);
            var p := s.cwd + [name];
            && (e.code == 150 ==> e.state == s.(uploading := Some(p)) && IsEntryName(name) && !IsDir(s.tree, p))
            && (e.code != 150 ==> e.state == s)
            && (e.code == 150 <==> IsEntryName(name) && !IsDir(s.tree, p) && allows(STOR, p))
  {
  }

  /** Storing a file in the current directory keeps the server's state valid. */
  lemma StoringKeepsState(s: ServerState, name: string, content: string)
    requires ValidState(s) && IsEntryName(name) && !IsDir(s.tree, s.cwd + [name])
    ensures ValidState(s.(tree := s.tree[s.cwd + [name] := File(content)], uploading := None))
  {
    var p := s.cwd + [name];
    assert p[|p| - 1] == name && p[..|p| - 1] == s.cwd;
    AddingKeepsTree(s.tree, p, File(content));
  }

  lemma OneReplyWire(queue: seq<seq<string>>)
    requires |queue| == 1
    ensures ConcatMap(queue, Wire) == Wire(queue[0])
  {
  }

  /** Stepping into an entry and up again: the probe of existsCwd and isDirectoryCwd. */
  function Probe(dir: seq<string>, name: string): seq<string> {
    StepInto(StepInto(dir, name), DOTDOT)
  }

  /** The probe comes back exactly for proper names, or at the root. */
  lemma ProbeReturnsExactly(dir: seq<string>, name: string)
    ensures Probe(dir, name) == dir <==> (name != DOT && name != DOTDOT) || dir == []
  {
  }

  /** Whether the probe for the path's last name comes back to its parent directory. */
  predicate ProbeReturns(path: Path) {
    IsRegular(path.Filename()) || Meaning(path.ParentPath()) == []
  }

  /** `exists` told apart from the tree, with everything granted. */
  predicate Detectable(t: Tree, p: seq<string>, caps: Capabilities) {
    IsDir(t, p) || (IsFile(t, p) && (caps.mlst || caps.size))
  }

  /** One readSome into the loop's buffer, as the span it filled. */
  method NextSpan(sock: Socket<char>, buffer: array<char>) returns (r: Expected<string>)
    requires sock.Conserved() && buffer.Length > 0
    modifies sock`readBuffer, sock`received, sock`delivered, sock`intact, sock.inbound`inFlight, buffer
    ensures sock.Conserved()
    ensures r.Success? ==> 0 < |r.value| <= buffer.Length && r.value + sock.Pending() == old(sock.Pending())
    ensures sock.connected && sock.inbound.reliable && sock.inbound.closed ==>
              if old(sock.Pending()) == "" then r == Failure(Eof) else r.Success?
  {
    var got := sock.ReadSome(buffer);
    if got.Failure? {
      return Failure(got.error);
    }
    r := Success(buffer[..got.value]);
  }

  /** Everything the peer sends until it closes the connection. */
  method ReceiveRawResponse(sock: Socket<char>) returns (r: Expected<string>)
    requires sock.Conserved()
    modifies sock`readBuffer, sock`received, sock`delivered, sock`intact, sock.inbound`inFlight
    ensures sock.connected && sock.inbound.reliable && sock.inbound.closed ==> r == Success(old(sock.Pending()))
    ensures r.Success? ==> r.value <= old(sock.Pending())
  {
    var buf := "";
    var tmp := new char[1024];
    while true
      invariant sock.Conserved()
      invariant buf + sock.Pending() == old(sock.Pending())
      decreases |sock.Pending()|
    {
      assert sock.Pending() == "" ==> buf == old(sock.Pending());
      var span := NextSpan(sock, tmp);
      if span.Failure? {
        if span.error == Eof {
          break;
        }
        return Failure(span.error);
      }
      buf := buf + span.value;
    }
    r := Success(buf);
  }

  /** What `write` reports of the file it stored. */
  datatype FileEntry = FileEntry(fileName: string, size: nat, fullPath: Path)

  /** A consumer of streamed data: it sees the spans so far and the next one. */
  type ReadCallback = (seq<string>, string) -> Expected<nat>

  /** The consumer took the whole of every span, in order. */
  predicate Accepted(callback: ReadCallback, spans: seq<string>) {
    if spans == [] then true
    else
      var before, last := spans[..|spans| - 1], spans[|spans| - 1];
      Accepted(callback, before) && callback(before, last) == Success(|last|)
  }

  /** Each span was offered behind those before it, and taken whole. */
  lemma {:induction false} AcceptedExactly(callback: ReadCallback, spans: seq<string>)
    ensures Accepted(callback, spans) <==>
              forall i :: 0 <= i < |spans| ==> callback(spans[..i], spans[i]) == Success(|spans[i]|)
  {
    if spans != [] {
      var n := |spans| - 1;
      AcceptedExactly(callback, spans[..n]);
      assert forall i :: 0 <= i < n ==> spans[..n][..i] == spans[..i] && spans[..n][i] == spans[i];
      assert spans[..n][..n] == spans[..n];
    }
  }

  predicate TakesSpan(callback: ReadCallback, before: seq<string>, last: string) {
    callback(before, last) == Success(|last|)
  }

  ghost predicate TakesEverything(callback: ReadCallback) {
    forall before: seq<string>, last: string :: TakesSpan(callback, before, last)
  }

  ghost predicate AlwaysAccepted(callback: ReadCallback) {
    forall spans: seq<string> :: Accepted(callback, spans)
  }

  /** Which consumers never leave a streaming read unfinished: those that take the whole of
    * every span. */
  lemma AcceptsAllExactly(callback: ReadCallback)
    ensures AlwaysAccepted(callback) <==> TakesEverything(callback)
  {
    if AlwaysAccepted(callback) {
      forall before: seq<string>, last: string
        ensures TakesSpan(callback, before, last)
      {
        assert Accepted(callback, before + [last]);
        OneMoreSpan(callback, before, last, "");
      }
    }
    if TakesEverything(callback) {
      forall spans: seq<string>
        ensures Accepted(callback, spans)
      {
        AcceptsAll(callback, spans);
      }
    }
  }

  lemma {:induction false} AcceptsAll(callback: ReadCallback, spans: seq<string>)
    requires TakesEverything(callback)
    ensures Accepted(callback, spans)
  {
    if spans != [] {
      AcceptsAll(callback, spans[..|spans| - 1]);
      assert TakesSpan(callback, spans[..|spans| - 1], spans[|spans| - 1]);
    }
  }

  lemma OneMoreSpan(callback: ReadCallback, spans: seq<string>, span: string, rest: string)
    ensures Flatten(spans) + (span + rest) == Flatten(spans + [span]) + rest
    ensures |Flatten(spans + [span])| == |Flatten(spans)| + |span|
    ensures Accepted(callback, spans + [span])
       <==> Accepted(callback, spans) && callback(spans, span) == Success(|span|)
    ensures (spans + [span])[..|spans + [span]| - 1] == spans
  {
  }

  /** The streaming loop of `read`: the spans, in order, are the data; it goes on until the
    * data ends or the consumer does not take a span. */
  method StreamInto(sock: Socket<char>, callback: ReadCallback) returns (r: Expected<nat>, spans: seq<string>)
    requires sock.Conserved()
    modifies sock`readBuffer, sock`received, sock`delivered, sock`intact, sock.inbound`inFlight
    ensures r.Success? ==> Accepted(callback, spans)
    ensures Flatten(spans) <= old(sock.Pending())
    ensures forall span <- spans :: 0 < |span| <= 16384
    ensures r.Failure? && !Accepted(callback, spans) ==>
              var answer := callback(spans[..|spans| - 1], spans[|spans| - 1]);
              r.error == if answer.Failure? then answer.error else ProtocolError
    ensures sock.connected && sock.inbound.reliable && sock.inbound.closed ==>
              && (r.Success? <==> Accepted(callback, spans))
              && (r.Success? ==> Flatten(spans) == old(sock.Pending()) && r.value == |Flatten(spans)|)
              && (r.Failure? ==> spans != [] && Accepted(callback, spans[..|spans| - 1]))
  {
    assert Flatten([]) == "" && Accepted(callback, []);
    hide Flatten, Accepted;
    spans := [];
    var total := 0;
    var buffer := new char[16384];
    while true
      invariant sock.Conserved()
      invariant Flatten(spans) + sock.Pending() == old(sock.Pending()) && total == |Flatten(spans)|
      invariant Accepted(callback, spans) && forall span <- spans :: 0 < |span| <= 16384
      decreases |sock.Pending()|
    {
      assert sock.Pending() == "" ==> Flatten(spans) == old(sock.Pending());
      var span := NextSpan(sock, buffer);
      if span.Failure? {
        if span.error == Eof {
          break;
        }
        return Failure(span.error), spans;
      }
      var taken := callback(spans, span.value);
      OneMoreSpan(callback, spans, span.value, sock.Pending());
      spans := spans + [span.value];
      if taken.Failure? {
        return Failure(taken.error), spans;
      }
      if taken.value != |span.value| {
        return Failure(ProtocolError), spans;
      }
      total := total + |span.value|;
    }
    r := Success(total);
  }

  /** What a producer of chunks delivers: up to its first empty chunk, or to its error. */
  function Produced(chunks: seq<Expected<string>>): string {
    if chunks == [] || chunks[0].Failure? || chunks[0].value == "" then ""
    else chunks[0].value + Produced(chunks[1..])
  }

  /** The producer fails before it yields an empty chunk. */
  predicate Fails(chunks: seq<Expected<string>>) {
    chunks != [] && (chunks[0].Failure? || (chunks[0].value != "" && Fails(chunks[1..])))
  }

  /** The producer's i-th chunk is an error, and it was asked that far. */
  predicate FailsAt(chunks: seq<Expected<string>>, i: nat) {
    && i < |chunks| && chunks[i].Failure?
    && forall j :: 0 <= j < i ==> chunks[j].Success? && chunks[j].value != ""
  }

  lemma {:induction false} FailsExactly(chunks: seq<Expected<string>>)
    ensures Fails(chunks) <==> exists i: nat :: FailsAt(chunks, i)
  {
    if Fails(chunks) && chunks[0].Success? {
      FailsExactly(chunks[1..]);
      var i: nat :| FailsAt(chunks[1..], i);
      assert forall j :: 0 < j < i + 1 ==> chunks[j] == chunks[1..][j - 1];
      assert FailsAt(chunks, i + 1);
    } else if Fails(chunks) {
      assert FailsAt(chunks, 0);
    } else if exists i: nat :: FailsAt(chunks, i) {
      var i: nat :| FailsAt(chunks, i);
      assert FailsAt(chunks[1..], i - 1);
      FailsExactly(chunks[1..]);
    }
  }

  /** The producer was asked for n chunks that hold data, and the next one, if any, does not. */
  predicate GivesFirst(chunks: seq<Expected<string>>, n: nat) {
    && n <= |chunks| && (forall j :: 0 <= j < n ==> chunks[j].Success? && chunks[j].value != "")
    && (n < |chunks| ==> chunks[n].Failure? || chunks[n].value == "")
  }

  /** What is produced are those n chunks, one after the other. */
  lemma {:induction false} ProducedExactly(chunks: seq<Expected<string>>, n: nat)
    requires GivesFirst(chunks, n)
    ensures Produced(chunks) == Flatten(seq(n, i requires 0 <= i < n => chunks[i].value))
    decreases n
  {
    var texts := seq(n, i requires 0 <= i < n => chunks[i].value);
    if n > 0 {
      var tail := seq(n - 1, i requires 0 <= i < n - 1 => chunks[1..][i].value);
      ProducedExactly(chunks[1..], n - 1);
      assert texts == [chunks[0].value] + tail;
      FlattenFront(chunks[0].value, tail);
    }
  }

  lemma {:induction false} FlattenFront(first: string, rest: seq<string>)
    ensures Flatten([first] + rest) == first + Flatten(rest)
  {
    if rest != [] {
      FlattenFront(first, rest[..|rest| - 1]);
      assert ([first] + rest)[..|rest|] == [first] + rest[..|rest| - 1];
    }
  }

  /** The streaming loop of `write`: the data connection carries what was produced. */
  method StreamOut(sock: Socket<char>, chunks: seq<Expected<string>>) returns (r: Expected<nat>)
    requires sock.connected && sock.outbound.reliable
    modifies sock.outbound`inFlight
    ensures sock.outbound.inFlight == old(sock.outbound.inFlight) + Produced(chunks)
    ensures r.Success? <==> !Fails(chunks)
    ensures r.Success? ==> r.value == |Produced(chunks)|
    ensures r.Failure? ==> exists i: nat :: FailsAt(chunks, i) && chunks[i].error == r.error
  {
    var total := 0;
    var i := 0;
    while i < |chunks|  // a producer that has no more chunks yields an empty one
      invariant i <= |chunks|
      invariant sock.outbound.inFlight + Produced(chunks[i..]) == old(sock.outbound.inFlight) + Produced(chunks)
      invariant total + |Produced(chunks[i..])| == |Produced(chunks)|
      invariant Fails(chunks[i..]) <==> Fails(chunks)
      invariant forall j :: 0 <= j < i ==> chunks[j].Success? && chunks[j].value != ""
    {
      var chunk := chunks[i];
      assert chunks[i..][0] == chunk && chunks[i..][1..] == chunks[i + 1..];
      if chunk.Failure? {
        assert FailsAt(chunks, i);
        return Failure(chunk.error);
      }
      if chunk.value == "" {
        break;
      }
      var sent := sock.WriteAll(chunk.value);
      total := total + sent.value;
      i := i + 1;
    }
    r := Success(total);
  }

  function Chunks(texts: seq<string>): seq<Expected<string>> {
    seq(|texts|, i requires 0 <= i < |texts| => Success(texts[i]))
  }

  /** However a text is cut into non-empty chunks, producing them delivers the text. */
  lemma {:induction false} ChunkingIsIrrelevant(texts: seq<string>)
    requires forall t <- texts :: t != ""
    ensures Produced(Chunks(texts)) == ConcatMap(texts, (t: string) => t) && !Fails(Chunks(texts))
    decreases |texts|
  {
    if texts != [] {
      assert texts[0] in texts && forall t <- texts[1..] :: t in texts;
      ChunkingIsIrrelevant(texts[1..]);
      assert Chunks(texts)[1..] == Chunks(texts[1..]);
    }
  }

  class FtpFileTransfer {
    const link: ControlLink
    const navigator: DirectoryNavigator
    const caps: Capabilities

    constructor (link: ControlLink, caps: Capabilities)
      requires link.InStep() && link.server.state.cwd == []
      ensures InStep() && this.link == link && this.caps == caps && fresh(navigator)
      ensures navigator.current == Path(true, [], false)
    {
      this.link, this.caps := link, caps;
      navigator := new DirectoryNavigator(link);
    }

    ghost predicate Ready()
      reads navigator, link, link.socket, link.server, link.server.toClient, link.server.fromClient
    {
      navigator.link == link && navigator.Ready()
    }

    /** The session invariant: no reply is unread, and the server is in the directory the
      * navigator remembers, which exists. */
    ghost predicate InStep()
      reads navigator, link, link.socket, link.server, link.server.toClient, link.server.fromClient
    {
      navigator.link == link && navigator.InStep()
    }

    /** A successful change to the directory keeps the session in step. */
    ghost predicate Beside(dir: ValidPath)
      reads navigator, link, link.socket, link.server, link.server.toClient, link.server.fromClient
    {
      InStep() && StaysInStep(navigator.current, Normalize(dir))
    }

    /** And the way to the directory is open. */
    ghost predicate Enterable(dir: ValidPath)
      reads navigator, link, link.socket, link.server, link.server.toClient, link.server.fromClient
    {
      && Beside(dir)
      && (RootJump(navigator.current, Normalize(dir)) ==> Components(navigator.current) == [])
      && GrantsEntry(link.server.allows)
      && IsDir(link.server.state.tree, Meaning(dir)) && !LeavesSeparator(dir)
    }

    /** The operation on the path keeps the session in step if it succeeds. */
    ghost predicate Located(path: ValidPath)
      reads navigator, link, link.socket, link.server, link.server.toClient, link.server.fromClient
    {
      Beside(path.ParentPath()) && IsRegular(path.Filename())
    }

    /** And nothing it asks for is forbidden. */
    ghost predicate Reachable(path: ValidPath)
      reads navigator, link, link.socket, link.server, link.server.toClient, link.server.fromClient
    {
      Enterable(path.ParentPath()) && IsRegular(path.Filename()) && GrantsAll(link.server.allows)
    }

    /** After a probe for the path's last name the server is where it was: the probe by CWD
      * comes back, or MLST has answered and there is none. */
    predicate ComesBack(path: ValidPath) {
      || ProbeReturns(path)
      || (caps.mlst && link.server.allows(MLST, StepInto(Meaning(path.ParentPath()), path.Filename())))
    }

    /** Under any policy: one of the three questions about the name is answered yes. */
    predicate Visible(t: Tree, dir: seq<string>, name: string) {
      var named, p := StepInto(dir, name), dir + [name];
      || (caps.mlst && named in t && link.server.allows(MLST, named))
      || (caps.size && IsFile(t, p) && link.server.allows(SIZE, p))
      || CanStep(t, link.server.allows, dir, name)
    }

    /** Under any policy: the first of the three questions about the name that is answered. */
    function KindTold(t: Tree, dir: seq<string>, name: string): Expected<bool> {
      var named, p := StepInto(dir, name), dir + [name];
      if caps.mlst && named in t && link.server.allows(MLST, named) then Success(IsDir(t, named))
      else if CanStep(t, link.server.allows, dir, name) then Success(true)
      else if caps.size && IsFile(t, p) && link.server.allows(SIZE, p) then Success(false)
      else Failure(ProtocolError)
    }

    /** changeDirectory to the parent path, as every operation begins. */
    method EnterParent(path: ValidPath) returns (r: Expected<()>)
      requires Ready() && !HasDrive(Normalize(path.ParentPath()))
      modifies navigator, link, link.socket, link.server, link.server.toClient, link.server.fromClient
      modifies link.server.dataOut
      ensures Ready() && link.server.state == old(link.server.state).(cwd := link.server.state.cwd)
      ensures r.Failure? ==> r == Failure(ProtocolError) && navigator.current == old(navigator.current)
      ensures r.Success? ==> navigator.current == Normalize(path.ParentPath())
      ensures r.Success? && old(Beside(path.ParentPath())) ==>
                InStep() && link.server.state.cwd == Meaning(path.ParentPath())
      ensures old(Enterable(path.ParentPath())) ==> r.Success?
      ensures old(navigator.current) == Normalize(path.ParentPath()) ==>
                r.Success? && link.server.state == old(link.server.state)
    {
      hide Components, LeavesSeparator, Meaning, IsDir, GrantsEntry, Walk, Plan, Cds, CanStep, RootJump, HasDrive;
      hide ControlLink.Linked;
      SamePlaceNeedsNoStep(Normalize(path.ParentPath()));
      ghost var done;
      r, done := navigator.ChangeDirectory(path.ParentPath());
      if r.Success? && InStep() {
        link.WiringAndState();
        DirectoryIsMeaning(link.server.state.tree, path.ParentPath());
      }
    }

    method ExistsMlst(name: string) returns (r: Expected<bool>)
      requires Ready() && CleanText(name)
      modifies link, link.socket, link.server, link.server.toClient, link.server.fromClient, link.server.dataOut
      ensures Ready() && link.server.state == old(link.server.state)
      ensures var s := link.server.state;
              var p := StepInto(s.cwd, name);
              r == Success(caps.mlst && p in s.tree && link.server.allows(MLST, p))
    {
      hide TypeFact, PasvEndpoint, ReplyCode, WellFormed, ValidState, Wire;
      if !caps.mlst {
        return Success(false);
      }
      var answer := link.Exchange(Command(MLST, name));
      var code := answer.value.code;
      if code == 250 {
        return Success(true);
      }
      if code == 550 {
        return Success(false);
      }
      r := Failure(ProtocolError);
    }

    method ExistsSize(name: string) returns (r: Expected<bool>)
      requires Ready() && CleanText(name)
      modifies link, link.socket, link.server, link.server.toClient, link.server.fromClient, link.server.dataOut
      ensures Ready() && link.server.state == old(link.server.state)
      ensures var s := link.server.state;
              r == Success(IsFile(s.tree, s.cwd + [name]) && link.server.allows(SIZE, s.cwd + [name]))
    {
      hide TypeFact, PasvEndpoint, ReplyCode, WellFormed, ValidState, Wire;
      var answer := link.Exchange(Command(SIZE, name));
      var code := answer.value.code;
      if code == 213 {
        return Success(true);
      }
      if code == 550 || code == 500 {
        return Success(false);
      }
      r := Failure(ProtocolError);
    }

    /** The probe by CWD; failing to come back is only logged. */
    method ExistsCwd(name: string) returns (r: Expected<bool>)
      requires Ready() && CleanText(name)
      modifies link, link.socket, link.server, link.server.toClient, link.server.fromClient, link.server.dataOut
      ensures Ready()
      ensures var s := old(link.server.state);
              && r == Success(CanStep(s.tree, link.server.allows, s.cwd, name))
              && link.server.state == if r.value then s.(cwd := Probe(s.cwd, name)) else s
    {
      hide TypeFact, PasvEndpoint, ReplyCode, WellFormed, ValidState, Wire;
      var answer := link.Exchange(Command(CWD, name));
      var code := answer.value.code;
      if code == 250 {
        var restored := navigator.FtpCd(DOTDOT);
        return Success(true);
      }
      if code == 550 {
        return Success(false);
      }
      r := Failure(ProtocolError);
    }

    /** With the parent reachable and everything granted, the answer is the tree's, except that
      * files go unseen when neither MLST nor SIZE is advertised. A path with no file name
      * is taken to exist without asking. */
    method Exists(path: ValidPath) returns (r: Expected<bool>)
      requires Ready() && !HasDrive(Normalize(path.ParentPath()))
      modifies navigator, link, link.socket, link.server, link.server.toClient, link.server.fromClient
      modifies link.server.dataOut
      ensures Ready() && link.server.state == old(link.server.state).(cwd := link.server.state.cwd)
      ensures path.Filename() == "" ==>
                && r == Success(true) && link.log == old(link.log) && link.server.state == old(link.server.state)
                && navigator.current == old(navigator.current)
      ensures path.Filename() != "" && r.Success? ==> navigator.current == Normalize(path.ParentPath())
      ensures r.Failure? ==> r == Failure(ProtocolError) && navigator.current == old(navigator.current)
      ensures path.Filename() != "" && r.Success? && old(Beside(path.ParentPath())) ==>
                (InStep() <==> ComesBack(path))
      ensures r.Success? && old(Located(path)) ==> InStep() && link.server.state.cwd == Meaning(path.ParentPath())
      ensures r.Success? && path.Filename() != "" && old(Beside(path.ParentPath())) ==>
                r.value == Visible(link.server.state.tree, Meaning(path.ParentPath()), path.Filename())
      ensures r == Success(true) && old(Located(path)) ==> Target(path) in link.server.state.tree
      ensures r == Success(false) ==> IsRegular(path.Filename())
      ensures r.Success? && old(Located(path)) && GrantsAll(link.server.allows) ==>
                r.value == Detectable(link.server.state.tree, Target(path), caps)
      ensures old(Enterable(path.ParentPath())) ==> r.Success?
    {
      hide Components, LeavesSeparator, Meaning, ValidState, Probe, GrantsEntry, HasDrive, StaysInStep;
      hide ControlLink.Linked;
      var name := path.Filename();
      if name == "" {
        return Success(true);
      }
      var entered := EnterParent(path);
      if entered.Failure? {
        return Failure(entered.error);
      }
      ghost var s := link.server.state;
      link.WiringAndState();
      NamesOfEntries(s, name);
      if caps.mlst {
        var listed := ExistsMlst(name);
        if listed == Success(true) {
          return listed;
        }
      }
      if caps.size {
        var sized := ExistsSize(name);
        if sized == Success(true) {
          return sized;
        }
      }
      r := ExistsCwd(name);
      ProbeReturnsExactly(s.cwd, name);
      if r.Failure? {
        return Success(false);
      }
    }

    method IsDirectoryMlst(name: string) returns (r: Expected<bool>)
      requires Ready() && CleanText(name)
      modifies link, link.socket, link.server, link.server.toClient, link.server.fromClient, link.server.dataOut
      ensures Ready() && link.server.state == old(link.server.state)
      ensures var s := link.server.state;
              var p := StepInto(s.cwd, name);
              if !caps.mlst then r == Success(false)
              else if p in s.tree && link.server.allows(MLST, p) then r == Success(IsDir(s.tree, p))
              else r == Failure(ProtocolError)
    {
      hide TypeFact, PasvEndpoint, ReplyCode, WellFormed, ValidState, Wire;
      if !caps.mlst {
        return Success(false);
      }
      var answer := link.Exchange(Command(MLST, name));
      var code, msg := answer.value.code, answer.value.fullMsg;
      if code == 250 {
        var fact := TypeFact(msg);
        if fact.None? {
          return Failure(ProtocolError);
        }
        return Success(fact == Some(true));
      }
      r := Failure(ProtocolError);
    }

    method IsDirectoryCwd(name: string) returns (r: Expected<bool>)
      requires Ready() && CleanText(name)
      modifies link, link.socket, link.server, link.server.toClient, link.server.fromClient, link.server.dataOut
      ensures Ready()
      ensures var s := old(link.server.state);
              var p := s.cwd + [name];
              if CanStep(s.tree, link.server.allows, s.cwd, name) then
                r == Success(true) && link.server.state == s.(cwd := Probe(s.cwd, name))
              else
                && link.server.state == s
                && r == if caps.size && IsFile(s.tree, p) && link.server.allows(SIZE, p) then Success(false)
                        else Failure(ProtocolError)
    {
      hide TypeFact, PasvEndpoint, ReplyCode, WellFormed, ValidState, Wire;
      var answer := link.Exchange(Command(CWD, name));
      var code := answer.value.code;
      if code == 250 {
        var restored := navigator.FtpCd(DOTDOT);
        if restored.Failure? {
          return Failure(ProtocolError);
        }
        return Success(true);
      }
      if code == 550 && caps.size {
        var sized := ExistsSize(name);
        if sized == Success(true) {
          return Success(false);
        }
      }
      r := Failure(ProtocolError);
    }

    /** True for directories, false for the files it can see, an error for what is missing. */
    method IsDirectory(path: ValidPath) returns (r: Expected<bool>)
      requires Ready() && !HasDrive(Normalize(path.ParentPath()))
      modifies navigator, link, link.socket, link.server, link.server.toClient, link.server.fromClient
      modifies link.server.dataOut
      ensures Ready() && link.server.state == old(link.server.state).(cwd := link.server.state.cwd)
      ensures path.Filename() == "" ==>
                && r == Success(true) && link.log == old(link.log) && link.server.state == old(link.server.state)
                && navigator.current == old(navigator.current)
      ensures path.Filename() != "" && (r.Success? || old(Enterable(path.ParentPath()))) ==>
                navigator.current == Normalize(path.ParentPath())
      ensures navigator.current == old(navigator.current) || navigator.current == Normalize(path.ParentPath())
      ensures r.Failure? ==> r == Failure(ProtocolError)
      ensures path.Filename() != "" && old(Beside(path.ParentPath())) && r.Success? ==>
                (InStep() <==> ComesBack(path))
      ensures path.Filename() != "" && old(Enterable(path.ParentPath())) ==> (InStep() <==> ComesBack(path))
      ensures path.Filename() != "" && old(Beside(path.ParentPath()))
              && (r.Success? || old(Enterable(path.ParentPath()))) ==>
                r == KindTold(link.server.state.tree, Meaning(path.ParentPath()), path.Filename())
      ensures r.Success? && old(Located(path)) ==>
                && InStep() && link.server.state.cwd == Meaning(path.ParentPath())
                && Target(path) in link.server.state.tree && r.value == IsDir(link.server.state.tree, Target(path))
      ensures old(Reachable(path)) ==>
                (r.Success? <==> Detectable(link.server.state.tree, Target(path), caps))
    {
      hide Components, LeavesSeparator, Meaning, ValidState, Probe, GrantsEntry, HasDrive, StaysInStep;
      hide ControlLink.Linked;
      var name := path.Filename();
      if name == "" {
        return Success(true);
      }
      var entered := EnterParent(path);
      if entered.Failure? {
        return Failure(entered.error);
      }
      ghost var s := link.server.state;
      link.WiringAndState();
      NamesOfEntries(s, name);
      if caps.mlst {
        var told := IsDirectoryMlst(name);
        if told.Success? {
          return told;
        }
      }
      r := IsDirectoryCwd(name);
      ProbeReturnsExactly(s.cwd, name);
    }

    /** Success means the entry is there; it is a new directory unless it was there before.
      * A path that ends in a separator is reported as created with nothing done. */
    method CreateDir(path: ValidPath) returns (r: Expected<()>)
      requires Ready() && !HasDrive(Normalize(path.ParentPath()))
      modifies navigator, link, link.socket, link.server, link.server.toClient, link.server.fromClient
      modifies link.server.dataOut
      ensures r.Failure? ==> r == Failure(ProtocolError)
      ensures Ready()
      ensures path.Filename() == "" ==>
                && r == Success(()) && link.log == old(link.log) && link.server.state == old(link.server.state)
                && navigator.current == old(navigator.current)
      ensures r.Failure? ==> link.server.state.tree == old(link.server.state.tree)
      ensures path.Filename() != "" && (r.Success? || old(Enterable(path.ParentPath()))) ==>
                navigator.current == Normalize(path.ParentPath())
      ensures navigator.current == old(navigator.current) || navigator.current == Normalize(path.ParentPath())
      ensures path.Filename() != "" && old(Beside(path.ParentPath())) && r.Success? ==>
                (InStep() <==> ComesBack(path))
      ensures path.Filename() != "" && old(Enterable(path.ParentPath())) ==> (InStep() <==> ComesBack(path))
      ensures r.Success? && old(Located(path)) ==>
                && InStep()
                && Target(path) in link.server.state.tree
                && (link.server.state.tree == old(link.server.state.tree)
                    || (Target(path) !in old(link.server.state.tree)
                        && link.server.state.tree == old(link.server.state.tree)[Target(path) := Directory]))
      ensures path.Filename() != "" && old(Enterable(path.ParentPath())) ==>
                (r.Success? <==>
                   || Visible(old(link.server.state.tree), Meaning(path.ParentPath()), path.Filename())
                   || (Target(path) !in old(link.server.state.tree) && IsEntryName(path.Filename())
                       && link.server.allows(MKD, Target(path))))
      ensures old(Reachable(path)) ==>
                (r.Success? <==> Target(path) !in old(link.server.state.tree)
                                 || Detectable(old(link.server.state.tree), Target(path), caps))
    {
      hide Components, LeavesSeparator, Meaning, ValidState, StaysInStep, HasDrive, EffectOf, GrantsAll;
      hide GrantsEntry, Wire;
      hide TypeFact, PasvEndpoint, ReplyCode, WellFormed, ControlLink.Linked;
      var found := Exists(path);
      if found.Failure? {
        return Failure(found.error);
      }
      if found.value {
        return Success(());
      }
      var entered := EnterParent(path);
      if entered.Failure? {
        return Failure(ProtocolError);  // not reached: no step is needed
      }
      LastComponentIsFilename(path);
      NothingForbidden(link.server.allows);
      MkdEffect(link.server.state, path.Filename(), link.server.allows);
      var answer := link.Exchange(Command(MKD, path.LastComponent()));
      var code := answer.value.code;
      if code != 257 {
        return Failure(ProtocolError);
      }
      r := Success(());
    }

    /** Success means the entry was there and is gone, and nothing else has changed. */
    method Remove(path: ValidPath) returns (r: Expected<()>)
      requires Ready() && !HasDrive(Normalize(path.ParentPath()))
      modifies navigator, link, link.socket, link.server, link.server.toClient, link.server.fromClient
      modifies link.server.dataOut
      ensures r.Failure? ==> r == Failure(ProtocolError)
      ensures Ready()
      ensures r.Failure? ==> link.server.state.tree == old(link.server.state.tree)
      ensures r.Success? ==> IsRegular(path.Filename())
      ensures r.Success? || old(Enterable(path.ParentPath())) ==> navigator.current == Normalize(path.ParentPath())
      ensures navigator.current == old(navigator.current) || navigator.current == Normalize(path.ParentPath())
      ensures old(Enterable(path.ParentPath())) ==> (InStep() <==> path.Filename() == "" || ComesBack(path))
      ensures r.Success? && old(Located(path)) ==>
                && InStep()
                && Target(path) in old(link.server.state.tree)
                && link.server.state.tree == old(link.server.state.tree) - {Target(path)}
      ensures IsRegular(path.Filename()) && old(Enterable(path.ParentPath())) ==>
                var t, kind := old(link.server.state.tree),
                               KindTold(old(link.server.state.tree), Meaning(path.ParentPath()), path.Filename());
                (r.Success? <==>
                   && kind.Success?
                   && (if kind.value then IsEmptyDir(t, Target(path)) else IsFile(t, Target(path)))
                   && link.server.allows(if kind.value then RMD else DELE, Target(path)))
      ensures old(Reachable(path)) ==>
                (r.Success? <==> && Detectable(old(link.server.state.tree), Target(path), caps)
                                 && (IsDir(old(link.server.state.tree), Target(path)) ==>
                                       IsEmptyDir(old(link.server.state.tree), Target(path))))
    {
      hide Components, LeavesSeparator, Meaning, ValidState, StaysInStep, HasDrive, EffectOf, GrantsAll;
      hide GrantsEntry, Wire;
      hide IsEmptyDir, Detectable, TypeFact, PasvEndpoint, ReplyCode, WellFormed, ControlLink.Linked, CleanText;
      hide FtpFileTransfer.KindTold, FtpFileTransfer.ComesBack;
      var directory := IsDirectory(path);
      if directory.Failure? {
        return Failure(directory.error);
      }
      var verb := if directory.value then RMD else DELE;
      var entered := EnterParent(path);
      if entered.Failure? {
        return Failure(entered.error);
      }
      LastComponentIsFilename(path);
      link.WiringAndState();
      NamesOfEntries(link.server.state, path.Filename());
      NothingForbidden(link.server.allows);
      RemoveEffect(link.server.state, path.Filename(), directory.value, link.server.allows);
      var answer := link.Exchange(Command(verb, path.Filename()));
      var code := answer.value.code;
      if code != 250 {
        return Failure(ProtocolError);
      }
      r := Success(());
    }

    /** PASV, the address out of its reply, and a connection there. The original uses the
      * parsed address without testing it; this server's 227 replies always hold one. */
    method OpenDataConnection() returns (r: Expected<Socket<char>>)
      requires Ready()
      modifies link, link.socket, link.server, link.server.toClient, link.server.fromClient, link.server.dataOut
      modifies link.server.dataIn
      ensures Ready() && link.server.state == old(link.server.state)
      ensures r.Success? <==> link.server.allows(PASV, link.server.state.cwd)
      ensures GrantsAll(link.server.allows) ==> r.Success?
      ensures r.Failure? ==> r == Failure(ProtocolError)
      ensures r.Success? ==>
                && fresh(r.value) && r.value.inbound == link.server.dataOut && r.value.outbound == link.server.dataIn
                && r.value.connected && r.value.Conserved() && r.value.readBuffer == ""
                && link.server.dataOut.reliable && link.server.dataIn.reliable
                && link.server.dataOut.inFlight == "" && !link.server.dataOut.closed
                && link.server.dataIn.inFlight == ""
    {
      hide TypeFact, PasvEndpoint, ReplyCode, WellFormed, Wire, ValidState, Components, HasDrive;
      var answer := link.Exchange(Command(PASV, ""));
      var code, msg := answer.value.code, answer.value.fullMsg;
      if code != 227 {
        return Failure(ProtocolError);
      }
      var endpoint := ParsePasvResponse(msg);
      var accepted := link.server.Accept(endpoint.value);
      var data := new Socket<char>(link.server.dataOut, link.server.dataIn, '\0');
      r := Success(data);
    }

    /** What every transfer of a file begins with: the way to the parent, and a data connection. */
    method EnterAndConnect(path: ValidPath) returns (r: Expected<Socket<char>>)
      requires Ready() && !HasDrive(Normalize(path.ParentPath()))
      modifies navigator, link, link.socket, link.server, link.server.toClient, link.server.fromClient
      modifies link.server.dataOut, link.server.dataIn
      ensures r.Failure? ==> r == Failure(ProtocolError)
      ensures Ready() && link.server.state == old(link.server.state).(cwd := link.server.state.cwd)
      ensures r.Success? || old(Enterable(path.ParentPath())) ==> navigator.current == Normalize(path.ParentPath())
      ensures navigator.current == old(navigator.current) || navigator.current == Normalize(path.ParentPath())
      ensures old(Enterable(path.ParentPath())) ==> InStep()
      ensures old(Enterable(path.ParentPath())) ==>
                (r.Success? <==> link.server.allows(PASV, Meaning(path.ParentPath())))
      ensures r.Success? && old(Beside(path.ParentPath())) ==>
                InStep() && link.server.state.cwd == Meaning(path.ParentPath())
      ensures r.Success? ==>
                && fresh(r.value) && r.value.inbound == link.server.dataOut && r.value.outbound == link.server.dataIn
                && r.value.connected && r.value.Conserved() && r.value.readBuffer == ""
                && link.server.dataOut.reliable && link.server.dataIn.reliable
                && link.server.dataOut.inFlight == "" && !link.server.dataOut.closed
                && link.server.dataIn.inFlight == ""
    {
      hide Components, LeavesSeparator, Meaning, StaysInStep, HasDrive, GrantsAll, GrantsEntry, RootJump;
      hide ControlLink.Linked;
      var entered := EnterParent(path);
      if entered.Failure? {
        return Failure(entered.error);
      }
      r := OpenDataConnection();
    }

    /** RETR up to its preliminary reply: the data connection then holds the whole file. */
    method StartRetrieval(path: ValidPath) returns (r: Expected<Socket<char>>)
      requires Ready() && !HasDrive(Normalize(path.ParentPath()))
      modifies navigator, link, link.socket, link.server, link.server.toClient, link.server.fromClient
      modifies link.server.dataOut, link.server.dataIn
      ensures r.Failure? ==> r == Failure(ProtocolError)
      ensures link.server.state == old(link.server.state).(cwd := link.server.state.cwd)
      ensures r.Failure? ==> Ready()
      ensures r.Success? || old(Enterable(path.ParentPath())) ==> navigator.current == Normalize(path.ParentPath())
      ensures navigator.current == old(navigator.current) || navigator.current == Normalize(path.ParentPath())
      ensures r.Failure? && old(Enterable(path.ParentPath())) ==> InStep()
      ensures r.Success? ==> navigator.link == link && !HasDrive(navigator.current) && link.Linked()
                             && |link.server.queue| == 1 && ReplyCode(link.server.queue[0]) == 226
      ensures r.Success? ==>
                && fresh(r.value) && r.value.inbound == link.server.dataOut
                && link.server.dataOut.closed && link.server.dataOut.reliable
                && r.value.connected && r.value.Conserved()
      ensures r.Success? && old(Beside(path.ParentPath())) ==>
                && link.server.state.cwd == Meaning(path.ParentPath()) == Components(navigator.current)
                && IsFile(link.server.state.tree, Target(path))
                && r.value.Pending() == link.server.state.tree[Target(path)].content
      ensures old(Enterable(path.ParentPath())) ==>
                (r.Success? <==> && IsFile(link.server.state.tree, Target(path))
                                 && link.server.allows(PASV, Meaning(path.ParentPath()))
                                 && link.server.allows(RETR, Target(path)))
      ensures old(Reachable(path)) ==> (r.Success? <==> IsFile(link.server.state.tree, Target(path)))
    {
      hide Components, LeavesSeparator, Meaning, ValidState, StaysInStep, HasDrive, Wire, TypeFact, PasvEndpoint;
      hide WellFormed;
      hide EffectOf, GrantsAll, GrantsEntry, RootJump;
      NothingForbidden(link.server.allows);
      r := EnterAndConnect(path);
      if r.Failure? {
        return;
      }
      LastComponentIsFilename(path);
      SendingEffect(link.server.state, Command(RETR, path.Filename()), link.server.allows);
      var answer := link.Exchange(Command(RETR, path.Filename()));
      var code := answer.value.code;
      if code != 150 {
        return Failure(ProtocolError);
      }
    }

    /** The final reply of a transfer. */
    method FinishTransfer() returns (r: Expected<()>)
      requires link.Linked() && |link.server.queue| == 1 && ReplyCode(link.server.queue[0]) == 226
      modifies link.socket, link.server.toClient`inFlight, link.server`queue
      ensures r.Success? && link.InStep() && link.server.state == old(link.server.state)
    {
      hide Wire, WellFormed, ReplyCode, ValidState;
      var answer := link.ReceiveReply();
      var code := answer.value.code;
      if code != 226 {
        return Failure(ProtocolError);
      }
      r := Success(());
    }

    /** The whole file in one buffer. */
    method Read(path: ValidPath) returns (r: Expected<string>)
      requires Ready() && !HasDrive(Normalize(path.ParentPath()))
      modifies navigator, link, link.socket, link.server, link.server.toClient, link.server.fromClient
      modifies link.server.dataOut, link.server.dataIn
      ensures r.Failure? ==> r == Failure(ProtocolError)
      ensures Ready() && link.server.state == old(link.server.state).(cwd := link.server.state.cwd)
      ensures r.Success? || old(Enterable(path.ParentPath())) ==> navigator.current == Normalize(path.ParentPath())
      ensures navigator.current == old(navigator.current) || navigator.current == Normalize(path.ParentPath())
      ensures old(Enterable(path.ParentPath())) ==> InStep()
      ensures r.Success? && old(Beside(path.ParentPath())) ==>
                && InStep()
                && IsFile(link.server.state.tree, Target(path))
                && r.value == link.server.state.tree[Target(path)].content
      ensures old(Enterable(path.ParentPath())) ==>
                (r.Success? <==> && IsFile(link.server.state.tree, Target(path))
                                 && link.server.allows(PASV, Meaning(path.ParentPath()))
                                 && link.server.allows(RETR, Target(path)))
      ensures old(Reachable(path)) ==> (r.Success? <==> IsFile(link.server.state.tree, Target(path)))
    {
      hide Components, LeavesSeparator, Meaning, ValidState, StaysInStep, HasDrive, Wire, WellFormed, ReplyCode;
      var started := StartRetrieval(path);
      if started.Failure? {
        return Failure(started.error);
      }
      var data := started.value;
      r := ReceiveRawResponse(data);
      var done := FinishTransfer();
    }

    /** The file in spans of at most 16384. If the consumer does not take one of them, the
      * final reply stays unread and the control channel is one reply behind. */
    method ReadStreaming(path: ValidPath, callback: ReadCallback) returns (r: Expected<nat>, spans: seq<string>)
      requires Ready() && !HasDrive(Normalize(path.ParentPath()))
      modifies navigator, link, link.socket, link.server, link.server.toClient, link.server.fromClient
      modifies link.server.dataOut, link.server.dataIn
      ensures r.Failure? && Accepted(callback, spans) ==> r == Failure(ProtocolError)
      ensures link.Linked() && link.server.state == old(link.server.state).(cwd := link.server.state.cwd)
      ensures Ready() <==> Accepted(callback, spans)
      ensures !Accepted(callback, spans) ==> r.Failure? && |link.server.queue| == 1
      ensures !Accepted(callback, spans) ==>
                var answer := callback(spans[..|spans| - 1], spans[|spans| - 1]);
                r.Failure? && r.error == if answer.Failure? then answer.error else ProtocolError
      ensures forall span <- spans :: 0 < |span| <= 16384
      ensures r.Success? || old(Enterable(path.ParentPath())) ==> navigator.current == Normalize(path.ParentPath())
      ensures navigator.current == old(navigator.current) || navigator.current == Normalize(path.ParentPath())
      ensures old(Enterable(path.ParentPath())) && Accepted(callback, spans) ==> InStep()
      ensures r.Success? && old(Beside(path.ParentPath())) ==>
                && InStep()
                && IsFile(link.server.state.tree, Target(path))
                && Flatten(spans) == link.server.state.tree[Target(path)].content && r.value == |Flatten(spans)|
      ensures old(Reachable(path)) ==>
                (r.Success? <==> IsFile(link.server.state.tree, Target(path)) && Accepted(callback, spans))
    {
      hide Components, LeavesSeparator, Meaning, ValidState, StaysInStep, HasDrive, Wire, WellFormed, ReplyCode;
      spans := [];
      assert Accepted(callback, spans);
      hide GrantsAll, GrantsEntry, IsDir, RootJump, Accepted, Flatten, ControlLink.Linked;
      var started := StartRetrieval(path);
      if started.Failure? {
        return Failure(started.error), spans;
      }
      link.WiringAndState();
      r, spans := StreamInto(started.value, callback);
      if r.Failure? {
        return;
      }
      var done := FinishTransfer();
    }

    /** STOR up to its preliminary reply. */
    method StartUpload(path: ValidPath) returns (r: Expected<Socket<char>>)
      requires Ready() && !HasDrive(Normalize(path.ParentPath()))
      modifies navigator, link, link.socket, link.server, link.server.toClient, link.server.fromClient
      modifies link.server.dataOut, link.server.dataIn
      ensures r.Failure? ==> r == Failure(ProtocolError)
      ensures Ready() && link.server.state.tree == old(link.server.state.tree)
      ensures r.Success? || old(Enterable(path.ParentPath())) ==> navigator.current == Normalize(path.ParentPath())
      ensures navigator.current == old(navigator.current) || navigator.current == Normalize(path.ParentPath())
      ensures old(Enterable(path.ParentPath())) ==> InStep()
      ensures r.Success? ==>
                && link.server.state.uploading == Some(link.server.state.cwd + [path.Filename()])
                && IsEntryName(path.Filename())
                && !IsDir(link.server.state.tree, link.server.state.cwd + [path.Filename()])
      ensures r.Success? ==>
                && fresh(r.value) && r.value.outbound == link.server.dataIn && r.value.connected
                && link.server.dataIn.reliable && link.server.dataIn.inFlight == ""
      ensures r.Success? && old(Beside(path.ParentPath())) ==>
                InStep() && link.server.state.cwd == Meaning(path.ParentPath())
      ensures old(Enterable(path.ParentPath())) ==>
                (r.Success? <==> && IsEntryName(path.Filename()) && !IsDir(link.server.state.tree, Target(path))
                                 && link.server.allows(PASV, Meaning(path.ParentPath()))
                                 && link.server.allows(STOR, Target(path)))
      ensures old(Reachable(path)) ==>
                (r.Success? <==> IsEntryName(path.Filename()) && !IsDir(link.server.state.tree, Target(path)))
    {
      hide Components, LeavesSeparator, Meaning, ValidState, StaysInStep, HasDrive, Wire, TypeFact, PasvEndpoint;
      hide WellFormed, EffectOf, IsEntryName, GrantsAll, GrantsEntry, ReplyCode, ControlLink.Linked, IsDir, RootJump;
      NothingForbidden(link.server.allows);
      r := EnterAndConnect(path);
      if r.Failure? {
        return;
      }
      LastComponentIsFilename(path);
      link.WiringAndState();
      StorEffect(link.server.state, path.Filename(), link.server.allows);
      var answer := link.Exchange(Command(STOR, path.Filename()));
      var code := answer.value.code;
      if code != 150 {
        return Failure(ProtocolError);
      }
    }

    /** The data connection closes: the server stores what arrived and reports it. */
    method CloseUpload()
      requires Ready() && link.server.state.uploading.Some?
      requires exists name :: IsEntryName(name) && link.server.state.uploading == Some(link.server.state.cwd + [name])
                              && !IsDir(link.server.state.tree, link.server.state.cwd + [name])
      modifies link.server, link.server.toClient
      ensures navigator.link == link && !HasDrive(navigator.current) && link.Linked()
      ensures |link.server.queue| == 1 && ReplyCode(link.server.queue[0]) == 226
      ensures var s := old(link.server.state);
              link.server.state == s.(tree := s.tree[s.uploading.value := File(link.server.dataIn.inFlight)],
                                      uploading := None)
    {
      hide Wire, WellFormed, ReplyCode, ValidState, HasDrive;
      ghost var name :| IsEntryName(name) && link.server.state.uploading == Some(link.server.state.cwd + [name])
                        && !IsDir(link.server.state.tree, link.server.state.cwd + [name]);
      StoringKeepsState(link.server.state, name, link.server.dataIn.inFlight);
      link.server.FinishUpload();
      OneReplyWire(link.server.queue);
    }

    /** The whole data at once. */
    method Write(path: ValidPath, data: string) returns (r: Expected<FileEntry>)
      requires Ready() && !HasDrive(Normalize(path.ParentPath()))
      modifies navigator, link, link.socket, link.server, link.server.toClient, link.server.fromClient
      modifies link.server.dataOut, link.server.dataIn
      ensures r.Failure? ==> r == Failure(ProtocolError)
      ensures Ready()
      ensures r.Failure? ==> link.server.state.tree == old(link.server.state.tree)
      ensures r.Success? || old(Enterable(path.ParentPath())) ==> navigator.current == Normalize(path.ParentPath())
      ensures navigator.current == old(navigator.current) || navigator.current == Normalize(path.ParentPath())
      ensures old(Enterable(path.ParentPath())) ==> InStep()
      ensures r.Success? && old(Beside(path.ParentPath())) ==>
                && InStep()
                && link.server.state.tree == old(link.server.state.tree)[Target(path) := File(data)]
                && r.value == FileEntry(path.Filename(), |data|, path)
      ensures old(Enterable(path.ParentPath())) ==>
                (r.Success? <==> && IsEntryName(path.Filename()) && !IsDir(old(link.server.state.tree), Target(path))
                                 && link.server.allows(PASV, Meaning(path.ParentPath()))
                                 && link.server.allows(STOR, Target(path)))
      ensures old(Reachable(path)) ==>
                (r.Success? <==> IsEntryName(path.Filename()) && !IsDir(old(link.server.state.tree), Target(path)))
    {
      hide Components, LeavesSeparator, Meaning, ValidState, StaysInStep, HasDrive, Wire, WellFormed, ReplyCode;
      hide IsEntryName;
      var started := StartUpload(path);
      if started.Failure? {
        return Failure(started.error);
      }
      var sent := started.value.WriteAll(data);
      assert link.server.dataIn.inFlight == data;
      CloseUpload();
      var done := FinishTransfer();
      r := Success(FileEntry(path.Filename(), |data|, path));
    }

    /** The data in chunks. If the producer fails, what it had produced is stored all the same
      * and the final reply stays unread. */
    method WriteStreaming(path: ValidPath, chunks: seq<Expected<string>>) returns (r: Expected<FileEntry>)
      requires Ready() && !HasDrive(Normalize(path.ParentPath()))
      modifies navigator, link, link.socket, link.server, link.server.toClient, link.server.fromClient
      modifies link.server.dataOut, link.server.dataIn
      ensures r.Failure? && Ready() ==> r == Failure(ProtocolError)
      ensures link.Linked()
      ensures r.Success? ==> Ready() && !Fails(chunks)
      ensures r.Success? || old(Enterable(path.ParentPath())) ==> navigator.current == Normalize(path.ParentPath())
      ensures navigator.current == old(navigator.current) || navigator.current == Normalize(path.ParentPath())
      ensures old(Enterable(path.ParentPath())) && Ready() ==> InStep()
      ensures !Ready() ==> Fails(chunks) && |link.server.queue| == 1
      ensures !Ready() ==> r.Failure? && exists i: nat :: FailsAt(chunks, i) && chunks[i].error == r.error
      ensures Ready() && r.Failure? ==> link.server.state.tree == old(link.server.state.tree)
      ensures (r.Success? || !Ready()) && old(Beside(path.ParentPath())) ==>
                link.server.state.tree == old(link.server.state.tree)[Target(path) := File(Produced(chunks))]
      ensures r.Success? && old(Beside(path.ParentPath())) ==>
                InStep() && r.value == FileEntry(path.Filename(), |Produced(chunks)|, path)
      ensures old(Reachable(path)) && IsEntryName(path.Filename())
              && !IsDir(old(link.server.state.tree), Target(path)) ==>
                (r.Success? <==> !Fails(chunks)) && (Ready() <==> !Fails(chunks))
    {
      hide Components, LeavesSeparator, Meaning, ValidState, StaysInStep, HasDrive, Wire, WellFormed, ReplyCode;
      hide IsEntryName;
      hide Produced, Fails;
      var started := StartUpload(path);
      if started.Failure? {
        return Failure(started.error);
      }
      var sent := StreamOut(started.value, chunks);
      assert link.server.dataIn.inFlight == Produced(chunks);
      CloseUpload();  // also when the producer failed: the data socket goes out of scope
      if sent.Failure? {
        return Failure(sent.error);
      }
      var done := FinishTransfer();
      r := Success(FileEntry(path.Filename(), sent.value, path));
    }

    /** LIST up to its preliminary reply: the data connection then holds the listing. */
    method StartListing(path: ValidPath) returns (r: Expected<Socket<char>>)
      requires Ready() && !HasDrive(Normalize(path))
      modifies navigator, link, link.socket, link.server, link.server.toClient, link.server.fromClient
      modifies link.server.dataOut, link.server.dataIn
      ensures r.Failure? ==> r == Failure(ProtocolError)
      ensures link.server.state == old(link.server.state).(cwd := link.server.state.cwd)
      ensures r.Failure? ==> Ready()
      ensures r.Success? || old(Enterable(path)) ==> navigator.current == Normalize(path)
      ensures navigator.current == old(navigator.current) || navigator.current == Normalize(path)
      ensures r.Failure? && old(Enterable(path)) ==> InStep()
      ensures old(Enterable(path)) && GrantsAll(link.server.allows) ==> r.Success?
      ensures r.Success? ==>
                navigator.link == link && !HasDrive(navigator.current) && link.Linked() && |link.server.queue| == 1
      ensures r.Success? ==>
                && fresh(r.value) && r.value.inbound == link.server.dataOut
                && link.server.dataOut.closed && link.server.dataOut.reliable
                && r.value.connected && r.value.Conserved()
                && r.value.Pending() == link.server.listing(link.server.state.tree, link.server.state.cwd)
      ensures r.Success? && old(Beside(path)) ==>
                link.server.state.cwd == Components(navigator.current)
    {
      hide Components, LeavesSeparator, Meaning, ValidState, StaysInStep, HasDrive, Wire, TypeFact, PasvEndpoint;
      hide WellFormed;
      hide ReplyCode, GrantsAll, GrantsEntry, IsDir, EffectOf, Walk, Plan, Cds, Steps, RootJump;
      NothingForbidden(link.server.allows);
      var entered, _ := navigator.ChangeDirectory(path);
      if entered.Failure? {
        return Failure(entered.error);
      }
      r := OpenDataConnection();
      if r.Failure? {
        return;
      }
      SendingEffect(link.server.state, Command(LIST, ""), link.server.allows);
      var answer := link.Exchange(Command(LIST, ""));
      var code := answer.value.code;
      if code != 150 {
        return Failure(ProtocolError);
      }
    }

    /** LIST of a directory, as lines; the final reply is read whatever its code. */
    method List(path: ValidPath) returns (r: Expected<seq<string>>)
      requires Ready() && !HasDrive(Normalize(path))
      modifies navigator, link, link.socket, link.server, link.server.toClient, link.server.fromClient
      modifies link.server.dataOut, link.server.dataIn
      ensures r.Failure? ==> r == Failure(ProtocolError)
      ensures Ready() && link.server.state == old(link.server.state).(cwd := link.server.state.cwd)
      ensures r.Success? || old(Enterable(path)) ==> navigator.current == Normalize(path)
      ensures navigator.current == old(navigator.current) || navigator.current == Normalize(path)
      ensures old(Enterable(path)) ==> InStep()
      ensures old(Enterable(path)) && GrantsAll(link.server.allows) ==> r.Success?
      ensures r.Success? && old(Beside(path)) ==>
                && InStep()
                && IsDir(link.server.state.tree, Meaning(path))
                && r.value == SplitLines(link.server.listing(link.server.state.tree, Meaning(path)))
    {
      hide Components, LeavesSeparator, Meaning, ValidTree, StaysInStep, HasDrive, Wire, WellFormed, ReplyCode;
      hide SplitLines;
      var started := StartListing(path);
      if started.Failure? {
        return Failure(started.error);
      }
      var listed := ReceiveRawResponse(started.value);
      var end := link.ReceiveReply();
      if InStep() {
        DirectoryIsMeaning(link.server.state.tree, path);
      }
      r := Success(SplitLines(listed.value));
    }
  }

  /** `exists` is the tree's own answer exactly when the server advertises MLST or SIZE, or the
    * path is not a file. */
  lemma ExistsAgreesExactly(t: Tree, p: seq<string>, caps: Capabilities)
    ensures (Detectable(t, p, caps) <==> p in t) <==> caps.mlst || caps.size || !IsFile(t, p)
  {
  }
}
