/** The FTP reply reader: lines up to CRLF are collected until they form a complete reply of
  * section 4.2 of RFC 959. */
module FtpReplies {
  import opened Wrappers
  import opened Sequences
  import opened Sockets
  import opened Decimals

  const CRLF := "\r\n"
  const LINE_BUFFER: nat := 1024

  datatype Answer = Answer(fullMsg: string, code: int)

  // ---- What the client does with the text received so far ----

  function StripEnd(line: string): string {
    if line != "" && (line[|line| - 1] == '\r' || line[|line| - 1] == '\n')
    then StripEnd(line[..|line| - 1])
    else line
  }

  function Keep(line: string): seq<string> {
    if line == "" then [] else [line]
  }

  /** Split at line feeds, strip CR and LF from the ends, drop what is empty. */
  function SplitLines(text: string): seq<string>
    decreases |text|
  {
    match Find(text, "\n")
    case None => Keep(StripEnd(text))
    case Some(p) => Keep(StripEnd(text[..p])) + SplitLines(text[p + 1..])
  }

  /** A line that starts with the three characters of the code and a space. */
  predicate EndsReply(code: string, line: string) {
    |line| >= 4 && line[..3] == code && line[3] == ' '
  }

  predicate StartsReply(line: string) {
    |line| >= 4 && IsDigit(line[0]) && IsDigit(line[1]) && IsDigit(line[2])
  }

  function LineCode(line: string): nat
    requires StartsReply(line)
  {
    assert AllDigits(line[..3]);
    Value(line[..3])
  }

  predicate IsComplete(lines: seq<string>) {
    && lines != []
    && StartsReply(lines[0])
    && (lines[0][3] == ' ' || (lines[0][3] == '-' && exists l <- lines :: EndsReply(lines[0][..3], l)))
  }

  predicate IsSpace(c: char) {
    c in " \t\n\r" || c as int == 11 || c as int == 12
  }

  function DigitsPrefix(s: string): (d: string)
    ensures AllDigits(d)
  {
    if s != "" && IsDigit(s[0]) then [s[0]] + DigitsPrefix(s[1..]) else ""
  }

  /** std::stoi on a short text; None where it throws. */
  function StoI(s: string): Option<int> {
    if s == "" then None
    else if IsSpace(s[0]) then StoI(s[1..])
    else
      var unsigned := if s[0] == '+' || s[0] == '-' then s[1..] else s;
      if DigitsPrefix(unsigned) == "" then None
      else
        var magnitude: int := Value(DigitsPrefix(unsigned));
        Some(if s[0] == '-' then -magnitude else magnitude)
  }

  function AnswerOf(msg: string): Expected<Answer> {
    if |msg| < 3 then Failure(ProtocolError)
    else
      match StoI(msg[..3])
      case None => Failure(UncaughtException)
      case Some(code) => Success(Answer(msg, code))
  }

  datatype Reading = Complete(msg: string, rest: string) | Overlong | Stalled

  /** What a reader that holds `buf` makes of the stream s. */
  function ReadReply(buf: string, s: string): Reading
    decreases |s|
  {
    match Find(s, CRLF)
    case None => Stalled
    case Some(p) =>
      if p >= LINE_BUFFER then Overlong
      else
        var n := Min(p + 2, LINE_BUFFER);
        if IsComplete(SplitLines(buf + s[..n])) then Complete(buf + s[..n], s[n..])
        else ReadReply(buf + s[..n], s[n..])
  }

  /** No line can be read any more: whatever arrives behind the buffer, the first CRLF lies past
    * what readUntil may hand out. */
  ghost predicate Clogged(buffer: string) {
    && |buffer| >= LINE_BUFFER
    && forall p :: 0 <= p < LINE_BUFFER ==> !CrLfMayStart(buffer, p)
  }

  predicate CrLfMayStart(buffer: string, p: nat)
    requires p < |buffer|
  {
    buffer[p] == '\r' && (p + 1 < |buffer| ==> buffer[p + 1] == '\n')
  }

  lemma CrLfStarts(buffer: string, p: nat)
    requires p + 1 < |buffer|
    ensures CrLfMayStart(buffer, p) <==> OccursAt(buffer, CRLF, p)
  {
    assert buffer[p..p + 2] == [buffer[p], buffer[p + 1]];
  }

  lemma CloggedForGood(buffer: string, more: string)
    requires Clogged(buffer)
    ensures Clogged(buffer + more)
    ensures Find(buffer + more, CRLF).Some? ==> Find(buffer + more, CRLF).value >= LINE_BUFFER
  {
    var s := buffer + more;
    forall p: nat | p < LINE_BUFFER
      ensures !CrLfMayStart(s, p)
    {
      assert !CrLfMayStart(buffer, p);
    }
    if Find(s, CRLF).Some? {
      var p := Find(s, CRLF).value;
      assert OccursAt(s, CRLF, p) && p + 2 <= |s|;
      CrLfStarts(s, p);
    }
  }

  /** The filler of a read that gave up clogs the buffer. */
  lemma FillerClogs(kept: string, zero: char)
    requires Find(kept, CRLF).None? && zero == '\0'
    ensures Clogged(kept + Zeros(zero, LINE_BUFFER))
  {
    var s := kept + Zeros(zero, LINE_BUFFER);
    forall p: nat | p < LINE_BUFFER
      ensures !CrLfMayStart(s, p)
    {
      if p + 1 < |kept| {
        assert !OccursAt(kept, CRLF, p);
        CrLfStarts(kept, p);
      }
    }
  }

  /** And so does a line too long for readUntil. */
  lemma LongLineClogs(buffer: string)
    requires Find(buffer, CRLF).Some? && Find(buffer, CRLF).value >= LINE_BUFFER
    ensures Clogged(buffer)
  {
    forall p: nat | p < LINE_BUFFER
      ensures !CrLfMayStart(buffer, p)
    {
      assert !OccursAt(buffer, CRLF, p);
      CrLfStarts(buffer, p);
    }
  }

  predicate EndsInFiller(buffer: string, zero: char) {
    && |buffer| >= LINE_BUFFER && buffer[|buffer| - LINE_BUFFER..] == Zeros(zero, LINE_BUFFER)
    && Find(buffer[..|buffer| - LINE_BUFFER], CRLF).None?
  }

  lemma FailureClogs(before: string, buffer: string, zero: char)
    requires before <= buffer
    requires || Clogged(before) || EndsInFiller(buffer, zero)
             || (Find(buffer, CRLF).Some? && Find(buffer, CRLF).value >= LINE_BUFFER)
    ensures Clogged(before) || zero == '\0' ==> Clogged(buffer)
  {
    hide Find, Clogged, Zeros;
    if Clogged(before) {
      assert buffer == before + buffer[|before|..];
      CloggedForGood(before, buffer[|before|..]);
    } else if Find(buffer, CRLF).Some? && Find(buffer, CRLF).value >= LINE_BUFFER {
      LongLineClogs(buffer);
    } else if zero == '\0' {
      var kept := buffer[..|buffer| - LINE_BUFFER];
      assert buffer == kept + Zeros(zero, LINE_BUFFER);
      FillerClogs(kept, zero);
    }
  }

  /** One line for the reader: there is none on a clogged buffer, and a failure clogs it. */
  method ReadLine(sock: Socket<char>, tmp: array<char>) returns (r: Expected<string>)
    requires sock.Conserved() && tmp.Length == LINE_BUFFER
    modifies sock`readBuffer, sock`received, sock`delivered, sock`intact, sock.inbound`inFlight, tmp
    ensures sock.Conserved()
    ensures r.Success? ==>
              var stream := old(sock.Pending());
              && Find(stream, CRLF).Some? && Find(stream, CRLF).value < LINE_BUFFER
              && r.value + sock.Pending() == stream
              && |r.value| == Min(Find(stream, CRLF).value + 2, LINE_BUFFER)
    ensures sock.connected && sock.inbound.reliable ==>
              match Find(old(sock.Pending()), CRLF)
              case None => r == Failure(if sock.inbound.closed then Eof else Timeout)
              case Some(p) => if p < LINE_BUFFER then r.Success? else r == Failure(ProtocolError)
    ensures r.Failure? ==> r.error != UncaughtException
    ensures old(Clogged(sock.readBuffer)) ==> r.Failure? && Clogged(sock.readBuffer)
    ensures r.Failure? && sock.connected && sock.zero == '\0' ==> Clogged(sock.readBuffer)
  {
    hide Find, FirstAt, OccursAt, Clogged, Zeros;
    if Clogged(sock.readBuffer) {
      CloggedForGood(sock.readBuffer, sock.inbound.inFlight);
    }
    ghost var before := sock.readBuffer;
    var got := sock.ReadUntil(tmp, CRLF);
    if got.Failure? {
      if sock.connected {
        FailureClogs(before, sock.readBuffer, sock.zero);
      } else if Clogged(before) {
        FailureClogs(before, sock.readBuffer, sock.zero);
      }
      return Failure(got.error);
    }
    assert got.value >= 2;  // so the connection-lost branch for an empty line cannot be taken
    r := Success(tmp[..got.value]);
  }

  /** On a reliable connection the outcome depends on the stream alone; in any case a
    * success is what the stream says. The code returned is the reply's own exactly when the
    * first pending character is a digit, or all digits of the code are zero and at most two
    * line breaks precede them. */
  method ReceiveResponse(sock: Socket<char>) returns (r: Expected<Answer>)
    requires sock.Conserved()
    modifies sock`readBuffer, sock`received, sock`delivered, sock`intact, sock.inbound`inFlight
    ensures sock.Conserved()
    ensures r.Success? ==>
              ReadReply("", old(sock.Pending())) == Complete(r.value.fullMsg, sock.Pending())
              && r == AnswerOf(r.value.fullMsg)
    ensures sock.connected && sock.inbound.reliable ==>
              match ReadReply("", old(sock.Pending()))
              case Complete(msg, rest) =>
                && r == AnswerOf(msg) && sock.Pending() == rest
                && old(sock.Pending()) != "" && IsComplete(SplitLines(msg))
                && (r == Success(Answer(msg, LineCode(SplitLines(msg)[0]))) <==>
                      || IsDigit(old(sock.Pending())[0])
                      || (LineCode(SplitLines(msg)[0]) == 0 && LeadingBreaks(old(sock.Pending())) < 3))
              case Overlong => r == Failure(ProtocolError)
              case Stalled => r == Failure(if sock.inbound.closed then Eof else Timeout)
    ensures old(Clogged(sock.readBuffer)) ==> r.Failure? && r.error != UncaughtException && Clogged(sock.readBuffer)
    ensures r == Failure(UncaughtException) ==> ReadReply("", old(sock.Pending())).Complete?
    ensures r.Failure? && r.error != UncaughtException && sock.connected && sock.zero == '\0' ==>
              Clogged(sock.readBuffer)
  {
    hide Find, Clogged, SplitLines, IsComplete;
    var buf := "";
    var tmp := new char[LINE_BUFFER];
    while true
      invariant sock.Conserved()
      invariant ReadReply(buf, sock.Pending()) == ReadReply("", old(sock.Pending()))
      invariant old(Clogged(sock.readBuffer)) ==> Clogged(sock.readBuffer)
      decreases |sock.Pending()|
    {
      var line := ReadLine(sock, tmp);
      if line.Failure? {
        return Failure(line.error);
      }
      buf := buf + line.value;
      var lines := SplitLines(buf);
      if IsComplete(lines) {
        break;
      }
    }
    AnswerExactly(buf);
    CodeIsRightExactly(old(sock.Pending()));
    if |buf| < 3 {
      return Failure(ProtocolError);
    }
    match StoI(buf[..3]) {
      case None => return Failure(UncaughtException);
      case Some(code) => return Success(Answer(buf, code));
    }
  }

  // ---- Well-formed replies ----

  predicate CleanText(s: string) {
    '\r' !in s && '\n' !in s
  }

  predicate CleanLine(line: string) {
    CleanText(line) && |line| <= 1022
  }

  /** Three digits and one more character. */
  predicate HasCode(line: string) {
    |line| >= 4 && forall i :: 0 <= i < 3 ==> '0' <= line[i] <= '9'
  }

  /** A one-line reply, or a multi-line one whose last line repeats the code before a space
    * and whose other lines do not. */
  predicate WellFormed(lines: seq<string>) {
    && lines != []
    && (forall l <- lines :: CleanLine(l))
    && HasCode(lines[0])
    && ((lines[0][3] == ' ' && |lines| == 1)
        || (lines[0][3] == '-' && |lines| >= 2
            && lines[0][..3] + " " <= lines[|lines| - 1]
            && forall i :: 0 < i < |lines| - 1 ==> !(lines[0][..3] + " " <= lines[i])))
  }

  /** What makes lines look like a complete reply, of whatever shape: the first begins with a
    * code and a space, or with a code and a hyphen and some line with that code and a space. */
  lemma CompleteExactly(lines: seq<string>)
    ensures IsComplete(lines) <==>
              && lines != [] && HasCode(lines[0])
              && (lines[0][3] == ' '
                  || (lines[0][3] == '-' && exists l <- lines :: lines[0][..3] + " " <= l))
  {
    if lines != [] && HasCode(lines[0]) {
      forall l
        ensures EndsReply(lines[0][..3], l) <==> lines[0][..3] + " " <= l
      {
        CodeAndSpace(lines[0][..3], l);
      }
    }
  }

  lemma CodeAndSpace(code: string, line: string)
    requires |code| == 3
    ensures EndsReply(code, line) <==> code + " " <= line
  {
    if |line| >= 4 {
      assert line[..4] == line[..3] + [line[3]];
    }
  }

  function ReplyCode(lines: seq<string>): nat
    requires WellFormed(lines)
  {
    LineCode(lines[0])
  }

  function WithCrLf(line: string): string {
    line + CRLF
  }

  function Wire(lines: seq<string>): string {
    ConcatMap(lines, WithCrLf)
  }

  function NonEmpty(lines: seq<string>): seq<string> {
    if lines == [] then [] else Keep(lines[0]) + NonEmpty(lines[1..])
  }

  lemma FindLineEnd(line: string, rest: string)
    requires CleanText(line)
    ensures Find(line + CRLF + rest, CRLF) == Some(|line|)
    ensures Find(line + CRLF + rest, "\n") == Some(|line| + 1)
  {
    var s := line + CRLF + rest;
    assert s[|line|..|line| + 2] == CRLF && s[|line| + 1..|line| + 2] == "\n";
    forall q: nat | q < |line|
      ensures !OccursAt(s, CRLF, q) && !OccursAt(s, "\n", q)
    {
      assert s[q] == line[q] && line[q] in line;
      assert s[q..q + 2][0] == s[q] && s[q..q + 1][0] == s[q];
    }
    assert s[|line|..|line| + 1][0] == '\r';
    FindIs(s, CRLF, |line|);
    FindIs(s, "\n", |line| + 1);
  }

  lemma StripCarriageReturn(line: string)
    requires CleanText(line)
    ensures StripEnd(line + "\r") == line
  {
  }

  /** Stripping takes all the line breaks at the end and nothing else. */
  lemma {:induction false} StripExactly(core: string, breaks: string)
    requires core == "" || (core[|core| - 1] != '\r' && core[|core| - 1] != '\n')
    requires forall c <- breaks :: c == '\r' || c == '\n'
    ensures StripEnd(core + breaks) == core
  {
    if breaks == "" {
      assert core + breaks == core;
    } else {
      var s, n := core + breaks, |breaks| - 1;
      assert breaks[n] in breaks && forall c <- breaks[..n] :: c in breaks;
      assert s[|s| - 1] == breaks[n] && s[..|s| - 1] == core + breaks[..n];
      StripExactly(core, breaks[..n]);
    }
  }

  /** The lines of any text: its parts between line feeds, the last one too if nothing follows
    * it, stripped, without the empty ones. */
  lemma {:induction false} SplitExactly(parts: seq<string>)
    requires parts != [] && forall p <- parts :: '\n' !in p
    ensures SplitLines(Join(parts, '\n'))
         == ConcatMap(parts, (p: string) => if StripEnd(p) == "" then [] else [StripEnd(p)])
    decreases |parts|
  {
    var head := parts[0];
    assert head in parts;
    if |parts| == 1 {
      FindNoMark(head, '\n');
      assert parts[1..] == [];
    } else {
      var tail := Join(parts[1..], '\n');
      FindMark(head, '\n', tail);
      var s := head + "\n" + tail;
      assert s[..|head|] == head && s[|head| + 1..] == tail;
      assert forall p <- parts[1..] :: p in parts;
      SplitExactly(parts[1..]);
    }
  }

  lemma {:induction false} SplitWire(lines: seq<string>)
    requires forall l <- lines :: CleanText(l)
    ensures SplitLines(Wire(lines)) == NonEmpty(lines)
  {
    if lines == [] {
      assert Find("", "\n") == None;
    } else {
      var line, tail := lines[0], Wire(lines[1..]);
      var s := line + CRLF + tail;
      FindLineEnd(line, tail);
      assert s[..|line| + 1] == line + "\r" && s[|line| + 2..] == tail;
      StripCarriageReturn(line);
      SplitWire(lines[1..]);
    }
  }

  lemma {:induction false} NonEmptyMembers(lines: seq<string>, l: string)
    ensures l in NonEmpty(lines) <==> l != "" && l in lines
  {
    if lines != [] {
      NonEmptyMembers(lines[1..], l);
      assert lines == [lines[0]] + lines[1..];
    }
  }

  /** The first k lines of a well-formed reply look complete only when they are all there. */
  lemma CompleteOnlyAtEnd(lines: seq<string>, k: nat)
    requires WellFormed(lines) && 0 < k <= |lines|
    ensures IsComplete(NonEmpty(lines[..k])) <==> k == |lines|
  {
    var first, kept := lines[0], NonEmpty(lines[..k]);
    var code := first[..3];
    assert lines[..k][0] == first && kept[0] == first;
    if k == |lines| {
      NonEmptyMembers(lines[..k], lines[k - 1]);
      assert lines[..k][k - 1] in lines[..k];
      assert |lines| >= 2 ==> lines[k - 1] in kept && EndsReply(code, lines[k - 1]);
    } else {
      forall l | l in kept
        ensures !EndsReply(code, l)
      {
        NonEmptyMembers(lines[..k], l);
      }
    }
  }

  /** One more line of the reply is taken from the stream, exactly up to its CRLF. */
  lemma LineStep(lines: seq<string>, k: nat, rest: string)
    requires k < |lines| && CleanLine(lines[k])
    ensures var s := Wire(lines[k..]) + rest;
            && Find(s, CRLF) == Some(|lines[k]|)
            && |lines[k]| + 2 <= |s|
            && Wire(lines[..k]) + s[..|lines[k]| + 2] == Wire(lines[..k + 1])
            && s[|lines[k]| + 2..] == Wire(lines[k + 1..]) + rest
  {
    var line, tail := lines[k], Wire(lines[k + 1..]) + rest;
    assert lines[k..][1..] == lines[k + 1..];
    var s := Wire(lines[k..]) + rest;
    assert s == line + CRLF + tail;
    FindLineEnd(line, tail);
    assert s[..|line| + 2] == WithCrLf(line);
    ConcatMapAppend(lines[..k], line, WithCrLf);
    assert lines[..k] + [line] == lines[..k + 1];
  }

  /** Clean lines that look like a complete reply once they are all there, and not before. */
  ghost predicate CompletesAtEnd(lines: seq<string>) {
    && (forall l <- lines :: CleanLine(l))
    && forall k :: 0 < k <= |lines| ==> (IsComplete(NonEmpty(lines[..k])) <==> k == |lines|)
  }

  lemma WellFormedCompletes(lines: seq<string>)
    requires WellFormed(lines)
    ensures CompletesAtEnd(lines)
  {
    assert forall l <- lines :: CleanLine(l);
    hide IsComplete, NonEmpty, WellFormed;
    forall k | 0 < k <= |lines|
      ensures IsComplete(NonEmpty(lines[..k])) <==> k == |lines|
    {
      CompleteOnlyAtEnd(lines, k);
    }
  }

  lemma LineCompletes(lines: seq<string>, k: nat)
    requires CompletesAtEnd(lines) && k < |lines|
    ensures IsComplete(SplitLines(Wire(lines[..k + 1]))) <==> k + 1 == |lines|
    ensures CleanLine(lines[k])
  {
    hide IsComplete, SplitLines, NonEmpty, Wire;
    assert lines[k] in lines;
    forall l | l in lines[..k + 1]
      ensures CleanText(l)
    {
      assert CleanLine(l);
    }
    SplitWire(lines[..k + 1]);
  }

  lemma ReadStep(buf: string, s: string, p: nat, joined: string, rest: string)
    requires Find(s, CRLF) == Some(p) && p + 2 <= LINE_BUFFER && p + 2 <= |s|
    requires joined == buf + s[..p + 2] && rest == s[p + 2..]
    ensures ReadReply(buf, s)
         == if IsComplete(SplitLines(joined)) then Complete(joined, rest) else ReadReply(joined, rest)
  {
    hide SplitLines, IsComplete;
  }

  lemma {:induction false} ReadFrom(lines: seq<string>, k: nat, rest: string)
    requires CompletesAtEnd(lines) && k < |lines|
    ensures ReadReply(Wire(lines[..k]), Wire(lines[k..]) + rest) == Complete(Wire(lines), rest)
    decreases |lines| - k
  {
    hide CompletesAtEnd, WellFormed, IsComplete, SplitLines;
    LineCompletes(lines, k);
    LineStep(lines, k, rest);
    ReadStep(Wire(lines[..k]), Wire(lines[k..]) + rest, |lines[k]|, Wire(lines[..k + 1]), Wire(lines[k + 1..]) + rest);
    if k + 1 == |lines| {
      assert lines[..k + 1] == lines && Wire(lines[k + 1..]) + rest == rest;
    } else {
      ReadFrom(lines, k + 1, rest);
    }
  }

  lemma ReadWhole(lines: seq<string>, rest: string)
    requires lines != [] && CompletesAtEnd(lines)
    ensures ReadReply("", Wire(lines) + rest) == Complete(Wire(lines), rest)
  {
    assert Wire(lines[..0]) == "" && lines[0..] == lines;
    ReadFrom(lines, 0, rest);
  }

  lemma {:induction false} DigitsAreTaken(d: string)
    requires AllDigits(d)
    ensures DigitsPrefix(d) == d
  {
    if d != "" {
      DigitsAreTaken(d[1..]);
    }
  }

  lemma DigitsAreRead(d: string)
    requires AllDigits(d) && d != ""
    ensures StoI(d) == Some(Value(d))
  {
    DigitsAreTaken(d);
  }

  lemma ReplyCodeIsRead(lines: seq<string>)
    requires WellFormed(lines)
    ensures AnswerOf(Wire(lines)) == Success(Answer(Wire(lines), ReplyCode(lines)))
  {
    hide StoI;
    var code := lines[0][..3];
    assert Wire(lines) == lines[0] + (CRLF + Wire(lines[1..]));
    assert Wire(lines)[..3] == code;
    DigitsAreRead(code);
  }

  /** A well-formed reply at the front of the stream is read whole, with its code, and
    * nothing after it is touched. */
  lemma ReplyIsRead(lines: seq<string>, rest: string)
    requires WellFormed(lines)
    ensures ReadReply("", Wire(lines) + rest) == Complete(Wire(lines), rest)
    ensures AnswerOf(Wire(lines)) == Success(Answer(Wire(lines), ReplyCode(lines)))
  {
    ReplyCodeIsRead(lines);
    WellFormedCompletes(lines);
    ReadWhole(lines, rest);
  }

  // ---- When the code is right ----

  predicate IsBreak(c: char) {
    c == '\r' || c == '\n'
  }

  function LeadingBreaks(s: string): (n: nat)
    ensures n <= |s| && (n < |s| ==> !IsBreak(s[n]))
    ensures forall i :: 0 <= i < n ==> IsBreak(s[i])
  {
    if s != "" && IsBreak(s[0]) then 1 + LeadingBreaks(s[1..]) else 0
  }

  /** Past n line breaks the others follow. */
  lemma {:induction false} BreaksBefore(s: string, n: nat)
    requires n <= |s| && forall i :: 0 <= i < n ==> IsBreak(s[i])
    ensures LeadingBreaks(s) == n + LeadingBreaks(s[n..])
    ensures s[LeadingBreaks(s)..] == s[n..][LeadingBreaks(s[n..])..]
  {
    if n == 0 {
      assert s[0..] == s;
    } else {
      BreaksBefore(s[1..], n - 1);
      assert s[1..][n - 1..] == s[n..];
    }
  }

  lemma {:induction false} StripsBreaks(line: string)
    ensures StripEnd(line) <= line
    ensures forall i :: |StripEnd(line)| <= i < |line| ==> IsBreak(line[i])
  {
    if line != "" && IsBreak(line[|line| - 1]) {
      StripsBreaks(line[..|line| - 1]);
    }
  }

  /** The first line of a text is cut out of what precedes the first line feed, or that is
    * dropped and it is the first line of the rest. */
  lemma FirstLineOf(text: string) returns (end: nat)
    requires SplitLines(text) != []
    ensures end <= |text|
    ensures StripEnd(text[..end]) != "" ==> SplitLines(text)[0] == StripEnd(text[..end])
    ensures StripEnd(text[..end]) == "" ==>
              end < |text| && text[end] == '\n' && SplitLines(text) == SplitLines(text[end + 1..])
  {
    var found := Find(text, "\n");
    end := if found.Some? then found.value else |text|;
    assert text[..|text|] == text;
    if found.Some? {
      assert text[end..end + 1][0] == text[end];
    }
  }

  lemma AllBreaks(text: string, end: nat)
    requires end < |text| && text[end] == '\n'
    requires forall i :: 0 <= i < end ==> IsBreak(text[..end][i])
    ensures forall i :: 0 <= i < end + 1 ==> IsBreak(text[i])
  {
    forall i | 0 <= i < end
      ensures IsBreak(text[i])
    {
      assert text[..end][i] == text[i];
    }
  }

  /** The first line of a text stands right after the line breaks the text begins with. */
  lemma {:induction false} FirstLineStands(text: string)
    requires SplitLines(text) != [] && SplitLines(text)[0] != "" && !IsBreak(SplitLines(text)[0][0])
    ensures SplitLines(text)[0] <= text[LeadingBreaks(text)..]
    decreases |text|
  {
    var end := FirstLineOf(text);
    hide SplitLines, StripEnd;
    StripsBreaks(text[..end]);
    if StripEnd(text[..end]) == "" {
      FirstLineStands(text[end + 1..]);
      AllBreaks(text, end);
      BreaksBefore(text, end + 1);
    } else {
      CutInFront(text, end, SplitLines(text)[0]);
    }
  }

  lemma CutInFront(text: string, end: nat, line: string)
    requires end <= |text| && line != "" && line <= text[..end] && !IsBreak(line[0])
    ensures line <= text[LeadingBreaks(text)..]
  {
    assert text[0] == line[0] && text[0..] == text;
  }

  lemma {:induction false} BreaksAreSkipped(s: string)
    ensures StoI(s) == StoI(s[LeadingBreaks(s)..])
  {
    if s != "" && IsBreak(s[0]) {
      BreaksAreSkipped(s[1..]);
      assert s[1..][LeadingBreaks(s[1..])..] == s[LeadingBreaks(s)..];
    }
  }

  /** What the three characters looked at hold besides line breaks. */
  lemma DigitsLookedAt(msg: string, code: string)
    requires |code| == 3 && AllDigits(code) && code <= msg[LeadingBreaks(msg)..]
    ensures var k, looked := LeadingBreaks(msg), msg[..3];
            looked[LeadingBreaks(looked)..] == if k < 3 then code[..3 - k] else ""
  {
    hide LeadingBreaks;
    var k, looked := LeadingBreaks(msg), msg[..3];
    if k < 3 {
      var seen := code[..3 - k];
      assert looked[k..] == seen;
      BreaksBefore(looked, k);
      assert IsDigit(seen[0]);
      BeginsPlainly(seen);
    } else {
      BreaksBefore(looked, 3);
    }
  }

  lemma BeginsPlainly(s: string)
    requires s != "" && !IsBreak(s[0])
    ensures LeadingBreaks(s) == 0
  {
  }

  /** The answer made of a complete reply: the line breaks in front of it push that many digits
    * of the code out of the three characters looked at, and three of them all. */
  lemma AnswerExactly(msg: string)
    requires IsComplete(SplitLines(msg))
    ensures var code, k := SplitLines(msg)[0][..3], LeadingBreaks(msg);
            AnswerOf(msg) == if k < 3 then Success(Answer(msg, Value(code[..3 - k]))) else Failure(UncaughtException)
  {
    var first := SplitLines(msg)[0];
    assert StartsReply(first);
    hide SplitLines, StoI, LeadingBreaks, Value, IsComplete;
    FirstLineStands(msg);
    CodeIsInFront(msg[LeadingBreaks(msg)..], first);
    CodeLookedAt(msg, first[..3]);
  }

  lemma CodeIsInFront(text: string, line: string)
    requires StartsReply(line) && line <= text
    ensures |line[..3]| == 3 <= |text| && AllDigits(line[..3]) && line[..3] <= text
  {
  }

  lemma CodeLookedAt(msg: string, code: string)
    requires |code| == 3 && AllDigits(code) && code <= msg[LeadingBreaks(msg)..]
    ensures var k := LeadingBreaks(msg);
            StoI(msg[..3]) == if k < 3 then Some(Value(code[..3 - k])) else None
  {
    hide StoI, LeadingBreaks, Value;
    var k := LeadingBreaks(msg);
    DigitsLookedAt(msg, code);
    BreaksAreSkipped(msg[..3]);
    if k < 3 {
      DigitsAreRead(code[..3 - k]);
    } else {
      NoNumber();
    }
  }

  lemma NoNumber()
    ensures StoI("") == None
  {
  }

  lemma {:induction false} ReadingIsPrefix(buf: string, s: string)
    requires ReadReply(buf, s).Complete?
    ensures var reading := ReadReply(buf, s);
            reading.msg + reading.rest == buf + s && IsComplete(SplitLines(reading.msg))
    decreases |s|
  {
    hide IsComplete, SplitLines;
    var n := Min(Find(s, CRLF).value + 2, LINE_BUFFER);
    assert buf + s == (buf + s[..n]) + s[n..];
    if !IsComplete(SplitLines(buf + s[..n])) {
      ReadingIsPrefix(buf + s[..n], s[n..]);
    }
  }

  /** Leaving out the last one or two of three digits changes their value unless it is zero. */
  lemma CodeOfThreeDigits(code: string)
    requires |code| == 3 && AllDigits(code)
    ensures Value(code[..2]) == Value(code) <==> Value(code) == 0
    ensures Value(code[..1]) == Value(code) <==> Value(code) == 0
    ensures code[..3] == code
  {
    assert code[..2][..1] == code[..1] && code[..1][..0] == "";
    assert Value(code[..1]) == code[0] as int - '0' as int;
    assert Value(code[..2]) == Value(code[..1]) * 10 + (code[1] as int - '0' as int);
    assert Value(code) == Value(code[..2]) * 10 + (code[2] as int - '0' as int);
  }

  lemma SameBreaks(msg: string, rest: string)
    requires LeadingBreaks(msg) < |msg|
    ensures LeadingBreaks(msg + rest) == LeadingBreaks(msg)
  {
    var k := LeadingBreaks(msg);
    assert (msg + rest)[k..][0] == msg[k];
    BreaksBefore(msg + rest, k);
    BeginsPlainly((msg + rest)[k..]);
  }

  lemma RightCode(msg: string)
    requires IsComplete(SplitLines(msg))
    ensures var code, k := LineCode(SplitLines(msg)[0]), LeadingBreaks(msg);
            AnswerOf(msg) == Success(Answer(msg, code)) <==> k == 0 || (code == 0 && k < 3)
  {
    AnswerExactly(msg);
    var first := SplitLines(msg)[0];
    assert StartsReply(first);
    hide AnswerOf, SplitLines, LeadingBreaks, Value, IsComplete;
    CodeOfThreeDigits(first[..3]);
  }

  lemma DigitBehindBreaks(text: string, line: string)
    requires line != "" && IsDigit(line[0]) && line <= text[LeadingBreaks(text)..]
    ensures LeadingBreaks(text) < |text| && (LeadingBreaks(text) == 0 <==> IsDigit(text[0]))
  {
    hide LeadingBreaks;
    var k := LeadingBreaks(text);
    assert |text[k..]| > 0 && text[k..][0] == text[k];
    if k > 0 {
      assert IsBreak(text[0]);
    }
  }

  lemma BeginsWithDigit(msg: string)
    requires IsComplete(SplitLines(msg))
    ensures LeadingBreaks(msg) < |msg| && (LeadingBreaks(msg) == 0 <==> IsDigit(msg[0]))
  {
    var first := SplitLines(msg)[0];
    assert first != "" && IsDigit(first[0]);
    hide SplitLines, LeadingBreaks, IsComplete;
    FirstLineStands(msg);
    DigitBehindBreaks(msg, first);
  }

  /** Whatever reply is read off the stream s, the code returned is that of its first line
    * exactly when s begins with a digit, or all three digits are zero and not all of them are
    * pushed out. */
  lemma CodeIsRightExactly(s: string)
    requires ReadReply("", s).Complete?
    ensures var msg := ReadReply("", s).msg;
            && s != "" && IsComplete(SplitLines(msg))
            && (AnswerOf(msg) == Success(Answer(msg, LineCode(SplitLines(msg)[0]))) <==>
                  IsDigit(s[0]) || (LineCode(SplitLines(msg)[0]) == 0 && LeadingBreaks(s) < 3))
  {
    ReadingIsPrefix("", s);
    var msg, rest := ReadReply("", s).msg, ReadReply("", s).rest;
    RightCode(msg);
    BeginsWithDigit(msg);
    hide ReadReply, AnswerOf, SplitLines, LeadingBreaks, LineCode, IsComplete;
    SameBreaks(msg, rest);
    assert s == msg + rest && s[0] == msg[0];
  }

  lemma LongLineIsRefused(buf: string, s: string)
    requires Find(s, "\r\n").Some? && Find(s, "\r\n").value >= 1024
    ensures ReadReply(buf, s) == Overlong
  {
  }

  /** The reply line of 1023 characters just fits, but its line feed does not: that is left in
    * front of the next reply, whose code then is not read right. */
  lemma LineFeedIsLeft(line: string, rest: string)
    requires CleanText(line) && |line| == 1023 && HasCode(line) && line[3] == ' '
    ensures ReadReply("", line + CRLF + rest) == Complete(line + "\r", "\n" + rest)
    ensures ReadReply("", "\n" + rest).Complete? ==>
              var msg := ReadReply("", "\n" + rest).msg;
              && IsComplete(SplitLines(msg))
              && (LineCode(SplitLines(msg)[0]) > 0 ==>
                    AnswerOf(msg) != Success(Answer(msg, LineCode(SplitLines(msg)[0]))))
  {
    var s := line + CRLF + rest;
    FindLineEnd(line, rest);
    assert s[..1024] == line + "\r" && s[1024..] == "\n" + rest;
    FindNoMark(line + "\r", '\n');
    StripCarriageReturn(line);
    assert SplitLines(line + "\r") == [line] && IsComplete([line]);
    hide SplitLines, IsComplete, AnswerOf;
    assert "" + s[..1024] == s[..1024];
    if ReadReply("", "\n" + rest).Complete? {
      CodeIsRightExactly("\n" + rest);
    }
  }

  function Blanks(n: nat): (s: seq<string>)
    ensures |s| == n && forall i :: 0 <= i < n ==> s[i] == ""
  {
    seq(n, _ => "")
  }

  lemma OneBlankLess(n: nat, lines: seq<string>)
    requires n > 0
    ensures NonEmpty(Blanks(n) + lines) == NonEmpty(Blanks(n - 1) + lines)
    ensures Wire(Blanks(n) + lines) == CRLF + Wire(Blanks(n - 1) + lines)
  {
    var all := Blanks(n) + lines;
    assert all[0] == "" && all[1..] == Blanks(n - 1) + lines;
    assert Keep("") == [] && WithCrLf("") == CRLF;
  }

  lemma {:induction false} BlanksVanish(n: nat, lines: seq<string>)
    ensures NonEmpty(Blanks(n) + lines) == NonEmpty(lines)
  {
    hide NonEmpty;
    if n == 0 {
      assert Blanks(0) + lines == lines;
    } else {
      OneBlankLess(n, lines);
      BlanksVanish(n - 1, lines);
    }
  }

  lemma BlanksKeepCompletion(n: nat, lines: seq<string>)
    requires CompletesAtEnd(lines) && lines != []
    ensures CompletesAtEnd(Blanks(n) + lines)
  {
    hide IsComplete, NonEmpty;
    var all := Blanks(n) + lines;
    forall k | 0 < k <= |all|
      ensures IsComplete(NonEmpty(all[..k])) <==> k == |all|
    {
      if k <= n {
        assert all[..k] == Blanks(k) + [];
        BlanksVanish(k, []);
        NothingIsIncomplete();
      } else {
        assert all[..k] == Blanks(n) + lines[..k - n];
        BlanksVanish(n, lines[..k - n]);
      }
    }
  }

  lemma NothingIsIncomplete()
    ensures !IsComplete(NonEmpty([]))
  {
  }

  lemma {:induction false} BlanksAreBreaks(n: nat, lines: seq<string>)
    requires WellFormed(lines)
    ensures LeadingBreaks(Wire(Blanks(n) + lines)) == 2 * n
  {
    hide LeadingBreaks, Wire, WellFormed;
    var text := Wire(Blanks(n) + lines);
    if n == 0 {
      assert Blanks(0) + lines == lines;
      BeginsWithCode(lines);
      BeginsPlainly(text);
    } else {
      OneBlankLess(n, lines);
      BlanksAreBreaks(n - 1, lines);
      var tail := Wire(Blanks(n - 1) + lines);
      assert text == CRLF + tail && text[2..] == tail;
      BreaksBefore(text, 2);
    }
  }

  lemma BeginsWithCode(lines: seq<string>)
    requires WellFormed(lines)
    ensures Wire(lines) != "" && !IsBreak(Wire(lines)[0])
  {
    assert Wire(lines) == lines[0] + (CRLF + Wire(lines[1..]));
  }

  lemma BlanksLeaveFirst(n: nat, lines: seq<string>)
    requires WellFormed(lines)
    ensures var kept := SplitLines(Wire(Blanks(n) + lines));
            IsComplete(kept) && kept[0] == lines[0]
  {
    hide IsComplete, Wire, SplitLines;
    BlanksVanish(n, lines);
    SplitWire(Blanks(n) + lines);
    CompleteOnlyAtEnd(lines, |lines|);
    assert lines[..|lines|] == lines;
  }

  lemma BlanksAreRead(n: nat, lines: seq<string>, rest: string)
    requires WellFormed(lines)
    ensures var msg := Wire(Blanks(n) + lines); ReadReply("", msg + rest) == Complete(msg, rest)
  {
    WellFormedCompletes(lines);
    hide CompletesAtEnd, ReadReply, Wire;
    BlanksKeepCompletion(n, lines);
    ReadWhole(Blanks(n) + lines, rest);
  }

  /** Blank lines in front of a reply are taken for part of it: after one of them only the first
    * digit of the code is read, after two or more none is, and std::stoi throws. */
  lemma BlankLinesBreakCode(n: nat, lines: seq<string>, rest: string)
    requires WellFormed(lines)
    ensures var msg := Wire(Blanks(n) + lines);
            && ReadReply("", msg + rest) == Complete(msg, rest)
            && AnswerOf(msg) == if n == 0 then Success(Answer(msg, ReplyCode(lines)))
                                else if n == 1 then Success(Answer(msg, lines[0][0] as int - '0' as int))
                                else Failure(UncaughtException)
  {
    DigitsOfCode(lines[0]);
    hide WellFormed, ReadReply, Wire, SplitLines, IsComplete, LeadingBreaks, AnswerOf, Value, Blanks, LineCode;
    BlanksAreRead(n, lines, rest);
    AnswerAfterBlanks(n, lines);
  }

  lemma AnswerAfterBlanks(n: nat, lines: seq<string>)
    requires WellFormed(lines)
    ensures var msg, code := Wire(Blanks(n) + lines), lines[0][..3];
            AnswerOf(msg) == if 2 * n < 3 then Success(Answer(msg, Value(code[..3 - 2 * n])))
                             else Failure(UncaughtException)
  {
    hide WellFormed, Wire, SplitLines, IsComplete, LeadingBreaks, AnswerOf, Value, Blanks;
    BlanksAreBreaks(n, lines);
    BlanksLeaveFirst(n, lines);
    AnswerExactly(Wire(Blanks(n) + lines));
  }

  lemma DigitsOfCode(line: string)
    requires StartsReply(line)
    ensures var code := line[..3];
            Value(code[..3]) == LineCode(line) && Value(code[..1]) == line[0] as int - '0' as int
  {
    assert line[..3][..3] == line[..3] && line[..3][..1] == [line[0]];
    assert [line[0]][..0] == "";
  }

  lemma FirstReplyIsRead(replies: seq<seq<string>>, rest: string)
    requires replies != [] && WellFormed(replies[0])
    ensures var tail := ConcatMap(replies[1..], Wire) + rest;
            ReadReply("", ConcatMap(replies, Wire) + rest) == Complete(Wire(replies[0]), tail)
    ensures AnswerOf(Wire(replies[0])) == Success(Answer(Wire(replies[0]), ReplyCode(replies[0])))
  {
    var tail := ConcatMap(replies[1..], Wire) + rest;
    assert ConcatMap(replies, Wire) + rest == Wire(replies[0]) + tail;
    ReplyIsRead(replies[0], tail);
  }

  /** Once the reader has failed no later call succeeds, whatever arrives in between: only a
    * complete reply whose code cannot be read leaves it able to go on. */
  method ReceiveAgain(sock: Socket<char>, arrivals: seq<string>)
    returns (first: Expected<Answer>, later: seq<Expected<Answer>>)
    requires sock.Conserved()
    modifies sock`readBuffer, sock`received, sock`delivered, sock`intact, sock.inbound`inFlight
    ensures |later| == |arrivals|
    ensures first == Failure(UncaughtException) ==> ReadReply("", old(sock.Pending())).Complete?
    ensures first.Failure? && first.error != UncaughtException && sock.connected && sock.zero == '\0' ==>
              forall answer <- later :: answer.Failure?
  {
    hide Clogged, ReadReply, AnswerOf, SplitLines, IsComplete, LineCode, LeadingBreaks;
    first := ReceiveResponse(sock);
    ghost var over := first.Failure? && first.error != UncaughtException && sock.connected && sock.zero == '\0';
    later := [];
    for i := 0 to |arrivals|
      invariant sock.Conserved() && |later| == i
      invariant over ==> Clogged(sock.readBuffer) && forall answer <- later :: answer.Failure?
    {
      sock.inbound.inFlight := sock.inbound.inFlight + arrivals[i];
      var answer := ReceiveResponse(sock);
      later := later + [answer];
    }
  }

  /** A stream of well-formed replies: the i-th call returns the i-th reply, under any
    * chunking, and the rest of the stream stays unread. */
  method ReceiveAll(sock: Socket<char>, ghost replies: seq<seq<string>>, ghost rest: string, count: nat)
    returns (answers: seq<Answer>)
    requires sock.connected && sock.inbound.reliable && sock.Conserved()
    requires count == |replies| && forall lines <- replies :: WellFormed(lines)
    requires sock.Pending() == ConcatMap(replies, Wire) + rest
    modifies sock`readBuffer, sock`received, sock`delivered, sock`intact, sock.inbound`inFlight
    ensures |answers| == |replies| && sock.Pending() == rest
    ensures forall i :: 0 <= i < |replies| ==> answers[i] == Answer(Wire(replies[i]), ReplyCode(replies[i]))
  {
    hide WellFormed, ReadReply, AnswerOf, Wire, IsComplete, SplitLines, LineCode, ReplyCode, LeadingBreaks;
    answers := [];
    for i := 0 to count
      invariant sock.Conserved() && |answers| == i
      invariant sock.Pending() == ConcatMap(replies[i..], Wire) + rest
      invariant forall k :: 0 <= k < i ==> answers[k] == Answer(Wire(replies[k]), ReplyCode(replies[k]))
    {
      FirstReplyIsRead(replies[i..], rest);
      assert replies[i..][1..] == replies[i + 1..];
      var answer := ReceiveResponse(sock);
      answers := answers + [answer.value];
    }
    assert replies[|replies|..] == [];
  }
}
