/** An FTP server: a directory tree, a current directory, an access policy, and replies
  * queued on the control channel. It answers with the codes the client accepts. */
module FtpServers {
  import opened Wrappers
  import opened Sequences
  import opened Decimals
  import opened FtpReplies
  import opened FtpCommands
  import opened FtpPaths

  datatype Node = Directory | File(content: string)

  type Tree = map<seq<string>, Node>

  predicate IsDir(t: Tree, p: seq<string>) {
    p in t && t[p].Directory?
  }

  predicate IsFile(t: Tree, p: seq<string>) {
    p in t && t[p].File?
  }

  predicate IsEntryName(s: string) {
    IsName(s) && IsRegular(s)
  }

  /** The root is a directory, and every other entry has a proper name in a directory. */
  ghost predicate ValidTree(t: Tree) {
    && IsDir(t, [])
    && forall p :: p in t && p != [] ==> IsEntryName(p[|p| - 1]) && IsDir(t, p[..|p| - 1])
  }

  /** Whether a command may do what it asks to the entry it names; only a step to dot-dot or dot
    * is never refused. */
  type Policy = (Verb, seq<string>) -> bool

  ghost predicate GrantsAll(allows: Policy) {
    forall v, p :: allows(v, p)
  }

  /** Every directory may be entered; what else is allowed is left open. */
  ghost predicate GrantsEntry(allows: Policy) {
    forall p :: allows(CWD, p)
  }

  datatype ServerState = ServerState(tree: Tree, cwd: seq<string>, uploading: Option<seq<string>>)

  ghost predicate ValidState(s: ServerState) {
    ValidTree(s.tree) && IsDir(s.tree, s.cwd)
  }

  datatype Effect = Effect(code: nat, state: ServerState)

  predicate IsEmptyDir(t: Tree, p: seq<string>) {
    IsDir(t, p) && forall q <- t :: q != [] ==> q[..|q| - 1] != p
  }

  function EffectOf(s: ServerState, c: Command, allows: Policy): Effect {
    var p := s.cwd + [c.arg];
    var t := s.tree;
    match c.verb
    case CWD =>
      if c.arg == DOTDOT then Effect(250, s.(cwd := StepInto(s.cwd, DOTDOT)))
      else if c.arg == DOT then Effect(250, s)
      else if IsDir(t, p) && allows(CWD, p) then Effect(250, s.(cwd := p))
      else Effect(550, s)
    case MKD =>
      if IsEntryName(c.arg) && p !in t && allows(MKD, p) then Effect(257, s.(tree := t[p := Directory]))
      else Effect(550, s)
    case RMD =>
      if IsEmptyDir(t, p) && allows(RMD, p) then Effect(250, s.(tree := t - {p})) else Effect(550, s)
    case DELE =>
      if IsFile(t, p) && allows(DELE, p) then Effect(250, s.(tree := t - {p})) else Effect(550, s)
    case SIZE =>
      if IsFile(t, p) && allows(SIZE, p) then Effect(213, s) else Effect(550, s)
    case MLST =>
      var named := StepInto(s.cwd, c.arg);
      if named in t && allows(MLST, named) then Effect(250, s) else Effect(550, s)
    case PASV =>
      if allows(PASV, s.cwd) then Effect(227, s) else Effect(550, s)
    case LIST =>
      if allows(LIST, s.cwd) then Effect(150, s) else Effect(550, s)
    case RETR =>
      if IsFile(t, p) && allows(RETR, p) then Effect(150, s) else Effect(550, s)
    case STOR =>
      if IsEntryName(c.arg) && !IsDir(t, p) && allows(STOR, p) then Effect(150, s.(uploading := Some(p)))
      else Effect(550, s)
    case Unknown => Effect(500, s)
  }

  /** An entry with a proper name in a directory may be added, or a file replaced. */
  lemma AddingKeepsTree(t: Tree, p: seq<string>, node: Node)
    requires ValidTree(t) && p != [] && IsEntryName(p[|p| - 1]) && IsDir(t, p[..|p| - 1])
    requires p !in t || (IsFile(t, p) && node.File?)
    ensures ValidTree(t[p := node])
    ensures forall d :: IsDir(t, d) ==> IsDir(t[p := node], d)
  {
  }

  /** A file or an empty directory may be removed. */
  lemma RemovingKeepsTree(t: Tree, p: seq<string>)
    requires ValidTree(t) && p != [] && (IsFile(t, p) || IsEmptyDir(t, p))
    ensures ValidTree(t - {p})
    ensures forall d :: IsDir(t, d) && d != p ==> IsDir(t - {p}, d)
  {
  }

  /** What a command can change at all. */
  lemma EffectCases(s: ServerState, c: Command, allows: Policy)
    ensures var p, s' := s.cwd + [c.arg], EffectOf(s, c, allows).state;
            || s' == s
            || s' == s.(cwd := StepInto(s.cwd, DOTDOT))
            || (IsDir(s.tree, p) && s' == s.(cwd := p))
            || (IsEntryName(c.arg) && p !in s.tree && s' == s.(tree := s.tree[p := Directory]))
            || ((IsEmptyDir(s.tree, p) || IsFile(s.tree, p)) && s' == s.(tree := s.tree - {p}))
            || (IsEntryName(c.arg) && !IsDir(s.tree, p) && s' == s.(uploading := Some(p)))
  {
    hide IsEmptyDir, IsEntryName, IsDir, IsFile, StepInto;
  }

  /** No command leaves the tree broken or the current directory gone. */
  lemma EffectKeepsState(s: ServerState, c: Command, allows: Policy)
    requires ValidState(s)
    ensures ValidState(EffectOf(s, c, allows).state)
  {
    EffectCases(s, c, allows);
    var p := s.cwd + [c.arg];
    assert p[..|p| - 1] == s.cwd && p[|p| - 1] == c.arg && p != s.cwd;
    hide ValidTree, IsEntryName, IsEmptyDir, EffectOf;
    ParentsAreDirs(s.tree, s.cwd);
    if IsEntryName(c.arg) && p !in s.tree {
      AddingKeepsTree(s.tree, p, Directory);
    }
    if IsEmptyDir(s.tree, p) || IsFile(s.tree, p) {
      RemovingKeepsTree(s.tree, p);
    }
  }

  lemma ParentsAreDirs(t: Tree, d: seq<string>)
    requires ValidTree(t) && IsDir(t, d)
    ensures IsDir(t, StepInto(d, DOTDOT))
  {
  }

  // ---- The text of replies ----

  function CodeText(code: nat): string
    requires 100 <= code < 1000
  {
    [Digit(code / 100), Digit(code / 10 % 10), Digit(code % 10)]
  }

  lemma CodeTextValue(code: nat)
    requires 100 <= code < 1000
    ensures AllDigits(CodeText(code)) && Value(CodeText(code)) == code
  {
    var s := CodeText(code);
    assert s[..2][..1] == s[..1] && s[..1][..0] == [];
    assert Value(s[..1]) == code / 100;
    assert Value(s[..2]) == code / 10;
  }

  /** One reply line for a code, with any text. */
  lemma OneLineReply(code: nat, text: string)
    requires 100 <= code < 1000 && CleanText(text) && |text| <= 1000
    ensures var lines := [CodeText(code) + " " + text];
            WellFormed(lines) && ReplyCode(lines) == code && Wire(lines) == CodeText(code) + " " + text + CRLF
  {
    var line := CodeText(code) + " " + text;
    CodeTextValue(code);
    assert line[..3] == CodeText(code);
    var none: seq<string> := [];
    assert [line][1..] == none;
    assert Wire([line]) == WithCrLf(line) + Wire(none);
  }

  /** A multi-line reply with a type fact in its middle line, as MLST gives it. */
  function MlstLines(first: string, before: string, isDirectory: bool, after: string, last: string): seq<string> {
    ["250-" + first, " " + before + TYPE_FACT + KindText(isDirectory) + ";" + after, "250 " + last]
  }

  predicate MlstTexts(first: string, before: string, after: string, last: string) {
    && CleanText(first) && CleanText(before) && CleanText(after) && CleanText(last)
    && |first| <= 400 && |before| <= 400 && |after| <= 400 && |last| <= 400
    && Find("250-" + first + CRLF + " " + before, TYPE_FACT).None?
  }

  lemma WireOfThree(a: string, b: string, c: string)
    ensures Wire([a, b, c]) == a + CRLF + (b + CRLF + (c + CRLF))
  {
    var none: seq<string> := [];
    assert [a, b, c][1..] == [b, c] && [b, c][1..] == [c] && [c][1..] == none;
    assert Wire(none) == "";
    assert Wire([c]) == WithCrLf(c);
    assert Wire([b, c]) == WithCrLf(b) + Wire([c]);
  }

  lemma MlstWellFormed(first: string, before: string, isDirectory: bool, after: string, last: string)
    requires MlstTexts(first, before, after, last)
    ensures var lines := MlstLines(first, before, isDirectory, after, last);
            WellFormed(lines) && ReplyCode(lines) == 250
  {
    hide Find, Value;
    var lines := MlstLines(first, before, isDirectory, after, last);
    assert lines[0][..3] == "250" && lines[2][..3] == "250" && lines[1][0] == ' ';
    assert !EndsReply("250", lines[1]);
    CodeTextValue(250);
    assert CodeText(250) == "250";
  }

  lemma MlstReply(first: string, before: string, isDirectory: bool, after: string, last: string)
    requires MlstTexts(first, before, after, last)
    ensures var lines := MlstLines(first, before, isDirectory, after, last);
            WellFormed(lines) && ReplyCode(lines) == 250 && TypeFact(Wire(lines)) == Some(isDirectory)
  {
    hide WellFormed, TypeFact, Wire, Find;
    MlstWellFormed(first, before, isDirectory, after, last);
    var lines := MlstLines(first, before, isDirectory, after, last);
    var kind := KindText(isDirectory);
    var lead := "250-" + first + CRLF + " " + before;
    var ending := CRLF + (lines[2] + CRLF);
    WireOfThree(lines[0], lines[1], lines[2]);
    assert lines == [lines[0], lines[1], lines[2]];
    assert lines[0] + CRLF + (lines[1] + CRLF + (lines[2] + CRLF)) == lead + TYPE_FACT + kind + ";" + (after + ending);
    TypeFactIsRead(lead, isDirectory, after + ending);
  }
}
