/** model/Ticket. The ticket row refers to its owner and its match by id;
    the Java object's user and match references are those ids resolved
    against the store (see module Store). */
module TicketModel {
  import opened Wrappers
  import MatchModel

  datatype TicketStatus = VALID | USED | CANCELLED | EXPIRED

  datatype Ticket = Ticket(
    id: int,
    ticketCode: string,
    userId: int,
    matchEventId: int,
    seatNumber: string,
    qrCodeData: Option<string>,
    purchaseDate: int,
    status: TicketStatus)

  /** The four-argument constructor: a fresh ticket is VALID, has no QR
      payload yet and carries Java's default id 0. */
  function NewTicket(ticketCode: string, userId: int, matchEventId: int,
                     seatNumber: string, purchaseDate: int): (t: Ticket)
    ensures t.status == VALID && IsValid(t)
    ensures t.ticketCode == ticketCode && t.userId == userId
    ensures t.matchEventId == matchEventId && t.seatNumber == seatNumber
    ensures t.qrCodeData.None?
  {
    Ticket(0, ticketCode, userId, matchEventId, seatNumber, None, purchaseDate, VALID)
  }

  /** isValid: a used, cancelled or expired ticket is never valid. */
  predicate IsValid(t: Ticket)
    ensures IsValid(t) <==> t.status !in {USED, CANCELLED, EXPIRED}
  {
    t.status == VALID
  }

  /** setStatus changes the status field and nothing else. */
  function SetStatus(t: Ticket, status: TicketStatus): (r: Ticket)
    ensures r.status == status
    ensures r.(status := t.status) == t
    ensures IsValid(r) <==> status == VALID
  {
    t.(status := status)
  }

  /** toString: the code, " - ", then the match display, or "N/A" for a
      ticket whose match could not be loaded. */
  function TicketToString(t: Ticket, matchEvent: Option<MatchModel.MatchEvent>): (r: string)
    ensures |t.ticketCode| <= |r| && r[..|t.ticketCode|] == t.ticketCode
    ensures matchEvent.None? ==> r[|t.ticketCode|..] == " - N/A"
    ensures matchEvent.Some? ==> r[|t.ticketCode|..] == " - " + MatchModel.MatchDisplay(matchEvent.value)
  {
    t.ticketCode + " - " + (if matchEvent.Some? then MatchModel.MatchDisplay(matchEvent.value) else "N/A")
  }
}
