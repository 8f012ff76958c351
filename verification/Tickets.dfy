/** The ticket record both ends exchange, and its enumerations' string forms. */
module Tickets {
  import opened Wrappers

  datatype TicketType = SHORT | LONG
  datatype TicketStatus = PENDING | RUNNING | COMPLETED | FAILED | CANCELLED

  type int32 = x: int | InInt32(x)

  predicate InInt32(x: int) {
    -0x8000_0000 <= x < 0x8000_0000
  }

  /** static_cast<int> of a wider integer. */
  function Wrap32(x: int): (r: int32)
    ensures r == x <==> InInt32(x)
    ensures (r - x) % 0x1_0000_0000 == 0
  {
    (x + 0x8000_0000) % 0x1_0000_0000 - 0x8000_0000
  }

  function TypeToString(t: TicketType): string {
    match t
    case SHORT => "short"
    case LONG => "long"
  }

  function StatusToString(s: TicketStatus): string {
    match s
    case PENDING => "pending"
    case RUNNING => "running"
    case COMPLETED => "completed"
    case FAILED => "failed"
    case CANCELLED => "cancelled"
  }

  datatype TicketInfo = TicketInfo(
    ticketId: string,
    kind: TicketType,
    status: TicketStatus,
    command: string,
    metadata: map<string, string>,
    timeout: int,
    progressPercent: Option<int32>,
    progressMsg: Option<string>,
    payload: Option<string>,
    result: Option<string>,
    error: Option<string>)

  /** A ticket with no optional field set. */
  function BlankTicket(ticketId: string, kind: TicketType, status: TicketStatus, command: string, timeout: int)
    : TicketInfo
  {
    TicketInfo(ticketId, kind, status, command, map[], timeout, None, None, None, None, None)
  }
}
