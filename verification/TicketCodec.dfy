/** Tickets as JSON value trees, and those as the bytes of a frame. */
module TicketCodec {
  import opened Wrappers
  import opened Frames
  import opened Tickets

  /** A number is an int64 or a uint64; floating-point numbers are not modelled. */
  type JsonInt = x: int | -0x8000_0000_0000_0000 <= x < 0x1_0000_0000_0000_0000

  datatype Json =
    | JNull
    | JBool(flag: bool)
    | JNumber(number: JsonInt)
    | JString(text: string)
    | JArray(items: seq<Json>)
    | JObject(fields: map<string, Json>)

  const TICKET_ID := "ticket_id"
  const TYPE := "type"
  const STATUS := "status"
  const COMMAND := "command"
  const METADATA := "metadata"
  const TIMEOUT_MS := "timeout_ms"
  const PROGRESS_PERCENT := "progress_percent"
  const PROGRESS_MSG := "progress_msg"
  const PAYLOAD := "payload"
  const RESULT := "result"
  const ERROR := "error"

  // ---- Encoding ----

  function Put(fields: map<string, Json>, key: string, value: Option<Json>): map<string, Json> {
    if value.Some? then fields[key := value.value] else fields
  }

  function TextOf(s: Option<string>): Option<Json> {
    if s.Some? then Some(JString(s.value)) else None
  }

  function NumberOf(n: Option<int32>): Option<Json> {
    if n.Some? then Some(JNumber(n.value)) else None
  }

  function TextMap(data: map<string, string>): Json {
    JObject(map k | k in data :: JString(data[k]))
  }

  function Mandatory(t: TicketInfo): map<string, Json> {
    map[TICKET_ID := JString(t.ticketId),
        TYPE := JString(TypeToString(t.kind)),
        STATUS := JString(StatusToString(t.status)),
        COMMAND := JString(t.command),
        METADATA := TextMap(t.metadata),
        TIMEOUT_MS := JNumber(Wrap32(t.timeout))]
  }

  function EncodedFields(t: TicketInfo): map<string, Json> {
    var m1 := Put(Mandatory(t), PROGRESS_PERCENT, NumberOf(t.progressPercent));
    var m2 := Put(m1, PROGRESS_MSG, TextOf(t.progressMsg));
    var m3 := Put(m2, PAYLOAD, TextOf(t.payload));
    var m4 := Put(m3, RESULT, TextOf(t.result));
    Put(m4, ERROR, TextOf(t.error))
  }

  function EncodeTicket(t: TicketInfo): Json {
    JObject(EncodedFields(t))
  }

  method ToJson(t: TicketInfo) returns (j: Json)
    ensures j == EncodeTicket(t)
  {
    var fields := Mandatory(t);
    if t.progressPercent.Some? {
      fields := fields[PROGRESS_PERCENT := JNumber(t.progressPercent.value)];
    }
    if t.progressMsg.Some? {
      fields := fields[PROGRESS_MSG := JString(t.progressMsg.value)];
    }
    if t.payload.Some? {
      fields := fields[PAYLOAD := JString(t.payload.value)];
    }
    if t.result.Some? {
      fields := fields[RESULT := JString(t.result.value)];
    }
    if t.error.Some? {
      fields := fields[ERROR := JString(t.error.value)];
    }
    j := JObject(fields);
  }

  // ---- Decoding; None where the JSON library throws ----

  function GetString(j: Json): Option<string> {
    if j.JString? then Some(j.text) else None
  }

  /** get<int>() also takes booleans, and narrows wider integers. */
  function GetInt(j: Json): Option<int32> {
    match j
    case JNumber(n) => Some(Wrap32(n))
    case JBool(b) => Some(if b then 1 else 0)
    case _ => None
  }

  function GetTextMap(j: Json): Option<map<string, string>> {
    if j.JObject? && forall k <- j.fields :: j.fields[k].JString?
    then Some(map k | k in j.fields :: j.fields[k].text)
    else None
  }

  function StringOr(fields: map<string, Json>, key: string, default: string): Option<string> {
    if key in fields then GetString(fields[key]) else Some(default)
  }

  /** contains(key) followed by get; the outer None is the exception. */
  function OptionalString(fields: map<string, Json>, key: string): Option<Option<string>> {
    if key !in fields then Some(None)
    else if fields[key].JString? then Some(Some(fields[key].text))
    else None
  }

  function OptionalInt(fields: map<string, Json>, key: string): Option<Option<int32>> {
    if key !in fields then Some(None)
    else if GetInt(fields[key]).Some? then Some(Some(GetInt(fields[key]).value))
    else None
  }

  function TypeFromString(s: string): TicketType {
    if s == "long" then LONG else SHORT
  }

  function StatusFromString(s: string): TicketStatus {
    if s == "running" then RUNNING
    else if s == "completed" then COMPLETED
    else if s == "failed" then FAILED
    else if s == "cancelled" then CANCELLED
    else PENDING
  }

  function DecodeTicket(j: Json): (r: Expected<TicketInfo>)
    ensures r.Success? ==> j.JObject?
    ensures r.Failure? ==> r == Failure(InvalidArgument)
  {
    if !j.JObject? then Failure(InvalidArgument)
    else
      var f := j.fields;
      var id := StringOr(f, TICKET_ID, "");
      var command := StringOr(f, COMMAND, "");
      var metadata := if METADATA in f then GetTextMap(f[METADATA]) else Some(map[]);
      var timeout := if TIMEOUT_MS in f then GetInt(f[TIMEOUT_MS]) else Some(0);
      var kind := StringOr(f, TYPE, "short");
      var status := StringOr(f, STATUS, "pending");
      var percent := OptionalInt(f, PROGRESS_PERCENT);
      var msg := OptionalString(f, PROGRESS_MSG);
      var payload := OptionalString(f, PAYLOAD);
      var result := OptionalString(f, RESULT);
      var error := OptionalString(f, ERROR);
      if id.None? || command.None? || metadata.None? || timeout.None? || kind.None? || status.None?
         || percent.None? || msg.None? || payload.None? || result.None? || error.None?
      then Failure(InvalidArgument)
      else
        Success(TicketInfo(id.value, TypeFromString(kind.value), StatusFromString(status.value), command.value,
                           metadata.value, timeout.value, percent.value, msg.value, payload.value, result.value,
                           error.value))
  }

  /** from_json: field by field into a fresh ticket; the first field of the wrong type
    * ends it. */
  method FromJson(j: Json) returns (r: Expected<TicketInfo>)
    ensures r == DecodeTicket(j)
  {
    hide GetTextMap, GetInt, StatusFromString;
    if !j.JObject? {
      return Failure(InvalidArgument);
    }
    var f := j.fields;
    var ticket := BlankTicket("", SHORT, PENDING, "", 0);
    var text := StringOr(f, TICKET_ID, "");
    if text.None? { return Failure(InvalidArgument); }
    ticket := ticket.(ticketId := text.value);
    text := StringOr(f, COMMAND, "");
    if text.None? { return Failure(InvalidArgument); }
    ticket := ticket.(command := text.value);
    if METADATA in f {
      var data := GetTextMap(f[METADATA]);
      if data.None? { return Failure(InvalidArgument); }
      ticket := ticket.(metadata := data.value);
    }
    if TIMEOUT_MS in f {
      var timeout := GetInt(f[TIMEOUT_MS]);
      if timeout.None? { return Failure(InvalidArgument); }
      ticket := ticket.(timeout := timeout.value);
    }
    text := StringOr(f, TYPE, "short");
    if text.None? { return Failure(InvalidArgument); }
    ticket := ticket.(kind := if text.value == "long" then LONG else SHORT);
    text := StringOr(f, STATUS, "pending");
    if text.None? { return Failure(InvalidArgument); }
    ticket := ticket.(status := StatusFromString(text.value));
    if PROGRESS_PERCENT in f {
      var percent := GetInt(f[PROGRESS_PERCENT]);
      if percent.None? { return Failure(InvalidArgument); }
      ticket := ticket.(progressPercent := percent);
    }
    if PROGRESS_MSG in f {
      text := GetString(f[PROGRESS_MSG]);
      if text.None? { return Failure(InvalidArgument); }
      ticket := ticket.(progressMsg := text);
    }
    if PAYLOAD in f {
      text := GetString(f[PAYLOAD]);
      if text.None? { return Failure(InvalidArgument); }
      ticket := ticket.(payload := text);
    }
    if RESULT in f {
      text := GetString(f[RESULT]);
      if text.None? { return Failure(InvalidArgument); }
      ticket := ticket.(result := text);
    }
    if ERROR in f {
      text := GetString(f[ERROR]);
      if text.None? { return Failure(InvalidArgument); }
      ticket := ticket.(error := text);
    }
    r := Success(ticket);
  }

  // ---- The format, field by field ----

  ghost predicate IsStatusOf(text: string, status: TicketStatus) {
    match status
    case RUNNING => text == "running"
    case COMPLETED => text == "completed"
    case FAILED => text == "failed"
    case CANCELLED => text == "cancelled"
    case PENDING => text !in {"running", "completed", "failed", "cancelled"}
  }

  ghost predicate HoldsText(f: map<string, Json>, key: string, text: Option<string>) {
    if key in f then text.Some? && f[key] == JString(text.value) else text.None?
  }

  ghost predicate HoldsMap(j: Json, data: map<string, string>) {
    j.JObject? && j.fields.Keys == data.Keys && forall k <- data :: j.fields[k] == JString(data[k])
  }

  ghost predicate HoldsTextOr(f: map<string, Json>, key: string, default: string, text: string) {
    if key in f then f[key] == JString(text) else text == default
  }

  /** An int32 congruent to the number modulo 2^32; a boolean counts as 0 or 1. */
  ghost predicate IsIntOf(j: Json, n: int) {
    || (j.JNumber? && InInt32(n) && (n - j.number) % 0x1_0000_0000 == 0)
    || (j.JBool? && n == if j.flag then 1 else 0)
  }

  /** The object describes the ticket: absent keys stand for defaults, an unknown type for a
    * short ticket and an unknown status for a pending one. */
  ghost predicate Describes(f: map<string, Json>, t: TicketInfo) {
    && HoldsTextOr(f, "ticket_id", "", t.ticketId) && HoldsTextOr(f, "command", "", t.command)
    && (if "metadata" in f then HoldsMap(f["metadata"], t.metadata) else t.metadata == map[])
    && (if "timeout_ms" in f then IsIntOf(f["timeout_ms"], t.timeout) else t.timeout == 0)
    && (exists text :: HoldsTextOr(f, "type", "short", text) && (t.kind == LONG <==> text == "long"))
    && (exists text :: HoldsTextOr(f, "status", "pending", text) && IsStatusOf(text, t.status))
    && (if "progress_percent" in f
        then t.progressPercent.Some? && IsIntOf(f["progress_percent"], t.progressPercent.value)
        else t.progressPercent.None?)
    && HoldsText(f, "progress_msg", t.progressMsg) && HoldsText(f, "payload", t.payload)
    && HoldsText(f, "result", t.result) && HoldsText(f, "error", t.error)
  }

  lemma StatusExactly(text: string, status: TicketStatus)
    ensures StatusFromString(text) == status <==> IsStatusOf(text, status)
  {
  }

  lemma IntExactly(j: Json, n: int)
    ensures GetInt(j).Some? && GetInt(j).value == n <==> IsIntOf(j, n)
  {
    if j.JNumber? && IsIntOf(j, n) {
      assert (n - Wrap32(j.number)) % 0x1_0000_0000 == 0;
    }
  }

  lemma MapExactly(j: Json, data: map<string, string>)
    ensures GetTextMap(j) == Some(data) <==> HoldsMap(j, data)
  {
    if HoldsMap(j, data) {
      assert (map k | k in j.fields :: j.fields[k].text) == data;
    }
  }

  lemma KindField(f: map<string, Json>, kind: TicketType)
    ensures StringOr(f, TYPE, "short").Some? && TypeFromString(StringOr(f, TYPE, "short").value) == kind <==>
              exists text :: HoldsTextOr(f, "type", "short", text) && (kind == LONG <==> text == "long")
  {
    var read := StringOr(f, TYPE, "short");
    assert forall text :: HoldsTextOr(f, "type", "short", text) <==> read == Some(text);
  }

  lemma StatusField(f: map<string, Json>, status: TicketStatus)
    ensures var read := StringOr(f, STATUS, "pending");
            read.Some? && StatusFromString(read.value) == status <==>
              exists text :: HoldsTextOr(f, "status", "pending", text) && IsStatusOf(text, status)
  {
    var read := StringOr(f, STATUS, "pending");
    assert forall text :: HoldsTextOr(f, "status", "pending", text) <==> read == Some(text);
    if read.Some? {
      StatusExactly(read.value, status);
    }
  }

  lemma TextField(f: map<string, Json>, key: string, default: string, text: string)
    ensures StringOr(f, key, default) == Some(text) <==> HoldsTextOr(f, key, default, text)
  {
  }

  lemma OptionalTextField(f: map<string, Json>, key: string, text: Option<string>)
    ensures OptionalString(f, key) == Some(text) <==> HoldsText(f, key, text)
  {
  }

  lemma PercentField(f: map<string, Json>, percent: Option<int32>)
    ensures OptionalInt(f, PROGRESS_PERCENT) == Some(percent) <==>
              if "progress_percent" in f then percent.Some? && IsIntOf(f["progress_percent"], percent.value)
              else percent.None?
  {
    if "progress_percent" in f && percent.Some? {
      IntExactly(f["progress_percent"], percent.value);
    }
  }

  /** Decoding accepts just the objects that describe a ticket, and yields that ticket. */
  lemma DecodedExactly(f: map<string, Json>, t: TicketInfo)
    ensures DecodeTicket(JObject(f)) == Success(t) <==> Describes(f, t)
  {
    TextField(f, "ticket_id", "", t.ticketId);
    TextField(f, "command", "", t.command);
    if "metadata" in f {
      MapExactly(f["metadata"], t.metadata);
    }
    if "timeout_ms" in f {
      IntExactly(f["timeout_ms"], t.timeout);
    }
    PercentField(f, t.progressPercent);
    KindField(f, t.kind);
    StatusField(f, t.status);
    OptionalTextField(f, "progress_msg", t.progressMsg);
    OptionalTextField(f, "payload", t.payload);
    OptionalTextField(f, "result", t.result);
    OptionalTextField(f, "error", t.error);
    hide GetTextMap, GetInt, StatusFromString, TypeFromString, HoldsMap, IsIntOf, IsStatusOf;
    hide StringOr, OptionalString, OptionalInt, HoldsText, HoldsTextOr;
  }

  // ---- Round trips ----

  lemma TypeStringsInvert(t: TicketType)
    ensures TypeFromString(TypeToString(t)) == t
  {
  }

  lemma StatusStringsInvert(s: TicketStatus)
    ensures StatusFromString(StatusToString(s)) == s
  {
  }

  lemma TextMapInverts(data: map<string, string>)
    ensures GetTextMap(TextMap(data)) == Some(data)
  {
    var j := TextMap(data);
    assert (map k | k in j.fields :: j.fields[k].text) == data;
  }

  /** Put decides the one key it is given and no other. */
  lemma PutLookups(fields: map<string, Json>, key: string, value: Option<Json>)
    requires key !in fields
    ensures var f := Put(fields, key, value);
            && (key in f <==> value.Some?) && (value.Some? ==> f[key] == value.value)
            && forall k :: k != key ==> (k in f <==> k in fields) && (k in f ==> f[k] == fields[k])
  {
  }

  ghost predicate Agrees(f: map<string, Json>, g: map<string, Json>, keys: set<string>) {
    forall k <- keys :: (k in f <==> k in g) && (k in f ==> f[k] == g[k])
  }

  ghost const FIXED: set<string> := {TICKET_ID, TYPE, STATUS, COMMAND, METADATA, TIMEOUT_MS}

  lemma OptionalKeysDiffer()
    ensures {PROGRESS_PERCENT, PROGRESS_MSG, PAYLOAD, RESULT, ERROR} !! FIXED
  {
  }

  /** Every key of an encoded ticket holds its own field, and absent fields have no key. */
  lemma EncodedLookups(t: TicketInfo)
    ensures var f := EncodedFields(t);
            && Agrees(f, Mandatory(t), FIXED)
            && (PROGRESS_PERCENT in f <==> t.progressPercent.Some?)
            && (t.progressPercent.Some? ==> f[PROGRESS_PERCENT] == JNumber(t.progressPercent.value))
            && (PROGRESS_MSG in f <==> t.progressMsg.Some?)
            && (t.progressMsg.Some? ==> f[PROGRESS_MSG] == JString(t.progressMsg.value))
            && (PAYLOAD in f <==> t.payload.Some?)
            && (t.payload.Some? ==> f[PAYLOAD] == JString(t.payload.value))
            && (RESULT in f <==> t.result.Some?)
            && (t.result.Some? ==> f[RESULT] == JString(t.result.value))
            && (ERROR in f <==> t.error.Some?)
            && (t.error.Some? ==> f[ERROR] == JString(t.error.value))
  {
    OptionalKeysDiffer();
    var m0 := Mandatory(t);
    var m1 := Put(m0, PROGRESS_PERCENT, NumberOf(t.progressPercent));
    var m2 := Put(m1, PROGRESS_MSG, TextOf(t.progressMsg));
    var m3 := Put(m2, PAYLOAD, TextOf(t.payload));
    var m4 := Put(m3, RESULT, TextOf(t.result));
    assert m0.Keys == FIXED;
    PutLookups(m0, PROGRESS_PERCENT, NumberOf(t.progressPercent));
    PutLookups(m1, PROGRESS_MSG, TextOf(t.progressMsg));
    PutLookups(m2, PAYLOAD, TextOf(t.payload));
    PutLookups(m3, RESULT, TextOf(t.result));
    PutLookups(m4, ERROR, TextOf(t.error));
  }

  lemma MandatoryLookups(t: TicketInfo)
    ensures var m := Mandatory(t);
            && FIXED == m.Keys
            && m[TICKET_ID] == JString(t.ticketId) && m[TYPE] == JString(TypeToString(t.kind))
            && m[STATUS] == JString(StatusToString(t.status)) && m[COMMAND] == JString(t.command)
            && m[METADATA] == TextMap(t.metadata) && m[TIMEOUT_MS] == JNumber(Wrap32(t.timeout))
  {
  }

  // ---- What is encoded, key by key ----

  function KeyIf(present: bool, key: string): set<string> {
    if present then {key} else {}
  }

  lemma PutKeys(fields: map<string, Json>, key: string, value: Option<Json>)
    ensures Put(fields, key, value).Keys == fields.Keys + KeyIf(value.Some?, key)
  {
  }

  lemma EncodedKeys(t: TicketInfo)
    ensures EncodedFields(t).Keys
         == {"ticket_id", "type", "status", "command", "metadata", "timeout_ms"}
            + KeyIf(t.progressPercent.Some?, "progress_percent") + KeyIf(t.progressMsg.Some?, "progress_msg")
            + KeyIf(t.payload.Some?, "payload") + KeyIf(t.result.Some?, "result") + KeyIf(t.error.Some?, "error")
  {
    assert Mandatory(t).Keys == {"ticket_id", "type", "status", "command", "metadata", "timeout_ms"};
    var m1 := Put(Mandatory(t), PROGRESS_PERCENT, NumberOf(t.progressPercent));
    var m2 := Put(m1, PROGRESS_MSG, TextOf(t.progressMsg));
    var m3 := Put(m2, PAYLOAD, TextOf(t.payload));
    var m4 := Put(m3, RESULT, TextOf(t.result));
    PutKeys(Mandatory(t), PROGRESS_PERCENT, NumberOf(t.progressPercent));
    PutKeys(m1, PROGRESS_MSG, TextOf(t.progressMsg));
    PutKeys(m2, PAYLOAD, TextOf(t.payload));
    PutKeys(m3, RESULT, TextOf(t.result));
    PutKeys(m4, ERROR, TextOf(t.error));
    SomeIfThere(t);
    hide Mandatory, Put, NumberOf, TextOf, KeyIf;
  }

  lemma SomeIfThere(t: TicketInfo)
    ensures NumberOf(t.progressPercent).Some? == t.progressPercent.Some?
    ensures TextOf(t.progressMsg).Some? == t.progressMsg.Some?
    ensures TextOf(t.payload).Some? == t.payload.Some? && TextOf(t.result).Some? == t.result.Some?
    ensures TextOf(t.error).Some? == t.error.Some?
  {
  }

  /** The object of a ticket: its keys and what stands under each. */
  lemma EncodedExactly(t: TicketInfo)
    ensures EncodeTicket(t).JObject?
    ensures var f := EncodeTicket(t).fields;
            && f.Keys == {"ticket_id", "type", "status", "command", "metadata", "timeout_ms"}
                         + KeyIf(t.progressPercent.Some?, "progress_percent")
                         + KeyIf(t.progressMsg.Some?, "progress_msg") + KeyIf(t.payload.Some?, "payload")
                         + KeyIf(t.result.Some?, "result")
                         + KeyIf(t.error.Some?, "error")
            && f["ticket_id"] == JString(t.ticketId) && f["command"] == JString(t.command)
            && f["type"] == JString(if t.kind == LONG then "long" else "short")
            && f["status"].JString? && IsStatusOf(f["status"].text, t.status)
            && (t.status == PENDING ==> f["status"] == JString("pending"))
            && HoldsMap(f["metadata"], t.metadata) && f["timeout_ms"] == JNumber(Wrap32(t.timeout))
            && (t.progressPercent.Some? ==> f["progress_percent"] == JNumber(t.progressPercent.value))
            && HoldsText(f, "progress_msg", t.progressMsg) && HoldsText(f, "payload", t.payload)
            && HoldsText(f, "result", t.result) && HoldsText(f, "error", t.error)
  {
    EncodedKeys(t);
    EncodedLookups(t);
    MandatoryLookups(t);
    hide EncodedFields, Mandatory, KeyIf;
  }

  /** The ticket at the far end of the wire. */
  function Transported(t: TicketInfo): TicketInfo {
    t.(timeout := Wrap32(t.timeout))
  }

  /** Decoding undoes encoding, except that the timeout comes back narrowed to an int. */
  lemma DecodeEncoded(t: TicketInfo)
    ensures DecodeTicket(EncodeTicket(t)) == Success(Transported(t))
  {
    EncodedLookups(t);
    MandatoryLookups(t);
    TypeStringsInvert(t.kind);
    StatusStringsInvert(t.status);
    TextMapInverts(t.metadata);
  }

  /** A ticket survives the wire exactly when its timeout fits in an int. */
  lemma TicketRoundTripExactly(t: TicketInfo)
    ensures DecodeTicket(EncodeTicket(t)) == Success(t) <==> InInt32(t.timeout)
  {
    DecodeEncoded(t);
    if DecodeTicket(EncodeTicket(t)) == Success(t) {
      assert t.timeout == Wrap32(t.timeout);
    }
  }

  /** Whatever JSON a ticket was decoded from, sending it on changes nothing more. */
  lemma DecodingIsStable(j: Json)
    requires DecodeTicket(j).Success?
    ensures DecodeTicket(EncodeTicket(DecodeTicket(j).value)) == DecodeTicket(j)
  {
    var t := DecodeTicket(j).value;
    assert InInt32(t.timeout);
    TicketRoundTripExactly(t);
  }

  // ---- Bytes ----

  /** The JSON library's printer and parser. */
  datatype JsonText = JsonText(dump: Json -> seq<byte>, parse: seq<byte> -> Option<Json>) {

    /** Parsing undoes printing, and nothing prints as the empty text. */
    ghost predicate Faithful() {
      forall j :: dump(j) != [] && parse(dump(j)) == Some(j)
    }

    function Bytes(t: TicketInfo): seq<byte> {
      dump(EncodeTicket(t))
    }

    function Framed(t: TicketInfo): seq<byte> {
      EncodeFrame(Bytes(t))
    }

    function Ticket(data: seq<byte>): (r: Expected<TicketInfo>)
      ensures r.Success? ==> parse(data).Some?
      ensures r.Failure? ==> r == Failure(InvalidArgument)
    {
      var j := parse(data);
      if j.None? then Failure(InvalidArgument) else DecodeTicket(j.value)
    }

    method Serialize(t: TicketInfo) returns (bytes: seq<byte>)
      ensures bytes == Bytes(t)
    {
      var j := ToJson(t);
      var str := dump(j);
      var copy := new byte[|str|];
      for i := 0 to |str|
        invariant copy[..i] == str[..i]
      {
        copy[i] := str[i];
      }
      bytes := copy[..];
    }

    method Deserialize(data: seq<byte>) returns (r: Expected<TicketInfo>)
      ensures r == Ticket(data)
    {
      var str := new byte[|data|];
      for i := 0 to |data|
        invariant str[..i] == data[..i]
      {
        str[i] := data[i];
      }
      assert str[..] == data;
      var j := parse(str[..]);
      if j.None? {
        return Failure(InvalidArgument);
      }
      r := FromJson(j.value);
    }
  }

  /** A ticket's frame with nothing after it is read back as the ticket as transported. */
  lemma FrameAlone(serializer: JsonText, t: TicketInfo)
    requires serializer.Faithful() && |serializer.Bytes(t)| < UINT32_COUNT
    ensures ParseFrame(serializer.Framed(t)) == Some((serializer.Bytes(t), []))
    ensures serializer.Ticket(serializer.Bytes(t)) == Success(Transported(t))
  {
    FrameRoundTripExactly(serializer.Bytes(t), []);
    assert EncodeFrame(serializer.Bytes(t)) + [] == EncodeFrame(serializer.Bytes(t));
    DecodeEncoded(t);
  }
}
