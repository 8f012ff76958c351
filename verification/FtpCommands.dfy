/** The commands of the FTP client as lines of text, and the facts it reads in answers. */
module FtpCommands {
  import opened Wrappers
  import opened Sequences
  import opened FtpReplies

  datatype Verb = CWD | MKD | RMD | DELE | SIZE | MLST | PASV | LIST | RETR | STOR | Unknown

  datatype Command = Command(verb: Verb, arg: string)

  function VerbText(v: Verb): string {
    match v
    case CWD => "CWD"
    case MKD => "MKD"
    case RMD => "RMD"
    case DELE => "DELE"
    case SIZE => "SIZE"
    case MLST => "MLST"
    case PASV => "PASV"
    case LIST => "LIST"
    case RETR => "RETR"
    case STOR => "STOR"
    case Unknown => "NOOP"
  }

  predicate TakesName(v: Verb) {
    v != PASV && v != LIST
  }

  function CommandText(c: Command): string {
    if TakesName(c.verb) then VerbText(c.verb) + " " + c.arg else VerbText(c.verb)
  }

  function VerbOf(s: string): Verb {
    if s == "CWD" then CWD
    else if s == "MKD" then MKD
    else if s == "RMD" then RMD
    else if s == "DELE" then DELE
    else if s == "SIZE" then SIZE
    else if s == "MLST" then MLST
    else if s == "PASV" then PASV
    else if s == "LIST" then LIST
    else if s == "RETR" then RETR
    else if s == "STOR" then STOR
    else Unknown
  }

  function ParseCommand(line: string): Command {
    match Find(line, " ")
    case None => Command(VerbOf(line), "")
    case Some(p) => Command(VerbOf(line[..p]), line[p + 1..])
  }

  /** The lines on the wire. */
  lemma CommandTexts(name: string)
    ensures CommandText(Command(CWD, name)) == "CWD " + name && CommandText(Command(MKD, name)) == "MKD " + name
    ensures CommandText(Command(RMD, name)) == "RMD " + name && CommandText(Command(DELE, name)) == "DELE " + name
    ensures CommandText(Command(SIZE, name)) == "SIZE " + name && CommandText(Command(MLST, name)) == "MLST " + name
    ensures CommandText(Command(RETR, name)) == "RETR " + name && CommandText(Command(STOR, name)) == "STOR " + name
    ensures CommandText(Command(PASV, "")) == "PASV" && CommandText(Command(LIST, "")) == "LIST"
  {
  }

  lemma VerbTextsDiffer(v: Verb)
    requires v != Unknown
    ensures VerbOf(VerbText(v)) == v
    ensures CleanText(VerbText(v)) && ' ' !in VerbText(v) && |VerbText(v)| <= 4
  {
  }

  /** The server reads the command the client wrote. */
  lemma CommandIsRead(c: Command)
    requires c.verb != Unknown && (TakesName(c.verb) || c.arg == "")
    ensures ParseCommand(CommandText(c)) == c
  {
    var verb := VerbText(c.verb);
    VerbTextsDiffer(c.verb);
    if TakesName(c.verb) {
      FindMark(verb, ' ', c.arg);
      assert (verb + " " + c.arg)[..|verb|] == verb && (verb + " " + c.arg)[|verb| + 1..] == c.arg;
    } else {
      FindNoMark(verb, ' ');
    }
  }

  // ---- The type fact of an MLST answer ----

  const TYPE_FACT := "type="
  const TYPE_DIR := "type=dir"

  /** None when the answer has no type fact. */
  function TypeFact(msg: string): Option<bool> {
    match Find(msg, TYPE_FACT)
    case None => None
    case Some(start) =>
      var tail := msg[start..];
      var field := match Find(tail, ";") { case None => tail case Some(end) => tail[..end] };
      Some(Find(field, TYPE_DIR).Some?)
  }

  function KindText(isDirectory: bool): string {
    if isDirectory then "dir" else "file"
  }

  /** The first type fact after text without one is found where it stands: a match cannot
    * straddle its start, since no proper suffix of the pattern begins it. */
  lemma FindTypeFact(before: string, rest: string)
    requires Find(before, TYPE_FACT) == None
    ensures Find(before + TYPE_FACT + rest, TYPE_FACT) == Some(|before|)
  {
    var s := before + TYPE_FACT + rest;
    assert s[|before|..|before| + 5] == TYPE_FACT;
    forall q: nat | q < |before|
      ensures !OccursAt(s, TYPE_FACT, q)
    {
      var part := s[q..q + 5];
      if q + 5 <= |before| {
        OccursInPrefix(before, TYPE_FACT + rest, TYPE_FACT, q);
        assert s == before + (TYPE_FACT + rest);
        assert !OccursAt(before, TYPE_FACT, q);
      } else {
        var overlap := |before| - q;
        assert part[overlap] == s[|before|] == 't';
        assert TYPE_FACT[overlap] != 't';
      }
    }
    FindIs(s, TYPE_FACT, |before|);
  }

  /** A kind is a directory's just when it begins with dir: cdir and pdir do not. */
  lemma DirFactExactly(kind: string)
    requires '=' !in kind
    ensures Find("type=" + kind, TYPE_DIR).Some? <==> "dir" <= kind
  {
    var field := "type=" + kind;
    if "dir" <= kind {
      assert field[0..8] == "type=dir";
      assert OccursAt(field, TYPE_DIR, 0);
    } else {
      forall q: nat | q < |field|
        ensures !OccursAt(field, TYPE_DIR, q)
      {
        if q + 8 <= |field| {
          if q == 0 {
            assert field[5..8] == kind[..3] != "dir";
            assert field[0..8][5..8] == field[5..8] && TYPE_DIR[5..8] == "dir";
          } else {
            assert field[q..q + 8][4] == field[q + 4] == kind[q - 1];
            assert kind[q - 1] in kind;
          }
        }
      }
    }
  }

  /** The field that begins with the fact ends before the first semicolon after it, or at the
    * end of the answer. */
  lemma FactField(before: string, field: string, rest: string)
    requires Find(before, TYPE_FACT) == None && ';' !in field && TYPE_FACT <= field
    ensures TypeFact(before + field + ";" + rest) == TypeFact(before + field) == Some(Find(field, TYPE_DIR).Some?)
  {
    hide Find, OccursAt;
    var kind := field[5..];
    assert field == TYPE_FACT + kind;
    assert before + field + ";" + rest == before + TYPE_FACT + (kind + ";" + rest);
    assert before + field == before + TYPE_FACT + kind;
    FindTypeFact(before, kind + ";" + rest);
    FindTypeFact(before, kind);
    assert (before + field + ";" + rest)[|before|..] == field + ";" + rest && (before + field)[|before|..] == field;
    FindMark(field, ';', rest);
    FindNoMark(field, ';');
    assert (field + ";" + rest)[..|field|] == field;
  }

  /** The first type fact decides, whatever its kind and wherever it stands, and an answer
    * without one says nothing. */
  lemma TypeFactExactly(before: string, kind: string, rest: string)
    requires Find(before, "type=") == None && ';' !in kind && '=' !in kind
    ensures TypeFact(before + "type=" + kind + ";" + rest) == TypeFact(before + "type=" + kind) == Some("dir" <= kind)
    ensures TypeFact(before) == None
  {
    hide Find;
    assert before + "type=" + kind + ";" + rest == before + ("type=" + kind) + ";" + rest;
    assert before + "type=" + kind == before + ("type=" + kind);
    FactField(before, "type=" + kind, rest);
    DirFactExactly(kind);
  }

  lemma TypeFactIsRead(before: string, isDirectory: bool, rest: string)
    requires Find(before, TYPE_FACT) == None
    ensures TypeFact(before + TYPE_FACT + KindText(isDirectory) + ";" + rest) == Some(isDirectory)
  {
    hide Find, TypeFact;
    TypeFactExactly(before, KindText(isDirectory), rest);
    assert "file"[0] == 'f' && "dir"[0] == 'd';
  }
}
