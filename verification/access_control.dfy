/** service/AccessControlService: the gate decision engine. One call reads
    the presented text, runs the ordered rule chain (empty input, unknown
    ticket, ticket not VALID, wrong match, grant), appends exactly one audit
    entry, and on the grant path alone marks the ticket USED. */
module AccessControl {
  import opened Wrappers
  import opened JavaText
  import opened TicketModel
  import L = AccessLogModel
  import UserModel
  import QRCode
  import opened Persistence
  import TicketService

  /** AccessControlService.AccessResult. */
  datatype AccessResult = AccessResult(granted: bool, message: string)

  /** The answer the caller sees and the store after the call. */
  datatype Step = Step(result: AccessResult, store: Store)

  const MSG_EMPTY: string := "QR Code vide"
  const MSG_NOT_FOUND: string := "Ticket non trouvé"
  const REASON_NOT_FOUND: string := "Ticket non trouvé: "
  const MSG_NOT_VALID: string := "Ticket invalide ou déjà utilisé"
  const MSG_WRONG_MATCH: string := "Ticket ne correspond pas au match"
  const MSG_GRANTED: string := "Accès autorisé"

  /** `qrCodeData == null || qrCodeData.trim().isEmpty()`. */
  predicate IsBlank(qrCodeData: Option<string>) {
    qrCodeData.None? || |Trim(qrCodeData.value)| == 0
  }

  /** What the engine looks for: a ticket code, and the match the payload
      says the ticket is for, when the payload said one. */
  datatype Credential = Credential(ticketCode: string, expectedMatchEventId: Option<int>)

  /** Lines 41-56 of processQRCodeAccess. The parser sees the text as given;
      when it fails, the trimmed text is the code, and the "TKT-" test
      chooses between two branches that assign the same code. */
  function ResolveCredential(raw: string): (c: Credential)
    ensures c.expectedMatchEventId.None? <==> QRCode.ParseTicketQRData(Some(raw)).None?
    ensures c.expectedMatchEventId.None? ==> c.ticketCode == Trim(raw)
    ensures c.expectedMatchEventId.Some? ==>
              QRCode.ParseTicketQRData(Some(raw))
              == Some(QRCode.TicketQRData(c.ticketCode, QRCode.ParseTicketQRData(Some(raw)).value.userId,
                                          c.expectedMatchEventId.value))
  {
    match QRCode.ParseTicketQRData(Some(raw))
    case Some(qrData) => Credential(qrData.ticketCode, Some(qrData.matchEventId))
    case None =>
      var trimmed := Trim(raw);
      if StartsWith(trimmed, "TKT-") then Credential(trimmed, None) else Credential(trimmed, None)
  }

  /** The gate device the entry names: looked up only for a positive id, and
      left out (NULL) when the lookup finds nothing. */
  function GateDeviceRef(s: Store, gateDeviceId: int): (r: Option<int>)
    ensures r.Some? <==> gateDeviceId > 0 && gateDeviceId in s.devices
    ensures r.Some? && KeysWellFormed(s) ==> r.value == gateDeviceId
  {
    if gateDeviceId > 0 then
      match Lookup(s.devices, gateDeviceId)
      case Some(device) => Some(device.id)
      case None => None
    else None
  }

  /** The id AccessLogDAO writes for a reference that may be null. */
  function UserRef(user: Option<UserModel.User>): Option<int> {
    if user.Some? then Some(user.value.id) else None
  }

  function TicketRef(ticket: Option<Ticket>): Option<int> {
    if ticket.Some? then Some(ticket.value.id) else None
  }

  /** logAccess: builds the entry and appends it; nothing else in the store
      changes. */
  function LogAccess(s: Store, user: Option<UserModel.User>, ticket: Option<Ticket>, gateDeviceId: int,
                     accessType: L.AccessType, result: L.AccessResult,
                     denialReason: Option<string>, ipAddress: Option<string>): (r: Store)
    ensures r == s.(log := r.log)
    ensures |r.log| == |s.log| + 1 && r.log[..|s.log|] == s.log
    ensures r.log[|s.log|].userId.Some? <==> user.Some?
    ensures user.Some? ==> r.log[|s.log|].userId == Some(user.value.id)
    ensures r.log[|s.log|].ticketId.Some? <==> ticket.Some?
    ensures ticket.Some? ==> r.log[|s.log|].ticketId == Some(ticket.value.id)
    ensures r.log[|s.log|].gateDeviceId.Some? <==> gateDeviceId > 0 && gateDeviceId in s.devices
    ensures r.log[|s.log|].gateDeviceId.Some? ==> r.log[|s.log|].gateDeviceId == Some(s.devices[gateDeviceId].id)
    ensures r.log[|s.log|].accessType == accessType && r.log[|s.log|].accessResult == result
    ensures r.log[|s.log|].denialReason == denialReason && r.log[|s.log|].ipAddress == ipAddress
  {
    AppendLog(s, L.AccessLog(UserRef(user), TicketRef(ticket), GateDeviceRef(s, gateDeviceId),
                             accessType, result, denialReason, ipAddress))
  }

  /** The id the entry carries for a ticket's owner: the owner as loaded by
      id, so None when no such user row exists. */
  function OwnerRef(s: Store, t: Ticket): Option<int> {
    UserRef(TicketUser(s, t))
  }

  /** Rule 4's condition: the payload named a match, the ticket's match could
      be loaded, and the two ids differ. */
  predicate WrongMatch(s: Store, t: Ticket, expected: Option<int>) {
    expected.Some? && t.matchEventId in s.matches && s.matches[t.matchEventId].id != expected.value
  }

  /** What every call does to the log and the store: exactly one TICKET
      entry appended, nothing removed, the entry agreeing with the answer (a
      denial always with a reason, a grant never), the gate named only when
      it exists and then by its id, and nothing but tickets changed, and those only on a grant. */
  predicate AppendsOneEntry(s: Store, r: Step, gateDeviceId: int) {
    && |r.store.log| == |s.log| + 1 && r.store.log[..|s.log|] == s.log
    && var entry := r.store.log[|s.log|];
       && entry.accessType == L.TICKET
       && entry.ipAddress.None?
       && (entry.gateDeviceId.Some? <==> gateDeviceId > 0 && gateDeviceId in s.devices)
       && entry.gateDeviceId == GateDeviceRef(s, gateDeviceId)
       && (entry.accessResult == L.GRANTED <==> r.result.granted)
       && (entry.denialReason.None? <==> r.result.granted)
       && r.store == s.(tickets := r.store.tickets, log := r.store.log)
       && (!r.result.granted ==> r.store.tickets == s.tickets)
  }

  /** Rules 3 to 5, for the ticket findByCode loaded under `code`. */
  function DecideTicket(s: Store, code: string, expected: Option<int>, gateDeviceId: int): (r: Step)
    requires code in s.tickets
    ensures AppendsOneEntry(s, r, gateDeviceId)
    ensures var ticket := s.tickets[code];
            && r.store.log[|s.log|].ticketId == Some(ticket.id)
            && r.store.log[|s.log|].userId == OwnerRef(s, ticket)
            && (ticket.status != VALID ==>
                  && r.result == AccessResult(false, MSG_NOT_VALID)
                  && r.store.log[|s.log|].denialReason == Some(MSG_NOT_VALID))
            && (ticket.status == VALID && WrongMatch(s, ticket, expected) ==>
                  && r.result == AccessResult(false, MSG_WRONG_MATCH)
                  && r.store.log[|s.log|].denialReason == Some(MSG_WRONG_MATCH))
            && (ticket.status == VALID && !WrongMatch(s, ticket, expected) ==>
                  && r.result == AccessResult(true, MSG_GRANTED)
                  && (TicketsWellFormed(s) ==> r.store.tickets == s.tickets[code := SetStatus(ticket, USED)]))
  {
    var ticket := s.tickets[code];
    var owner := TicketUser(s, ticket);
    if !IsValid(ticket) then
      Step(AccessResult(false, MSG_NOT_VALID),
           LogAccess(s, owner, Some(ticket), gateDeviceId, L.TICKET, L.DENIED, Some(MSG_NOT_VALID), None))
    else if expected.Some? && TicketMatch(s, ticket).Some? && TicketMatch(s, ticket).value.id != expected.value then
      Step(AccessResult(false, MSG_WRONG_MATCH),
           LogAccess(s, owner, Some(ticket), gateDeviceId, L.TICKET, L.DENIED, Some(MSG_WRONG_MATCH), None))
    else
      // the result of validateTicket is ignored by the source
      var validated := TicketService.ValidateTicket(s, ticket.ticketCode);
      Step(AccessResult(true, MSG_GRANTED),
           LogAccess(validated.1, owner, Some(ticket), gateDeviceId, L.TICKET, L.GRANTED, None, None))
  }

  /** processQRCodeAccess(qrCodeData, gateDeviceId). */
  function ProcessQRCodeAccess(s: Store, qrCodeData: Option<string>, gateDeviceId: int): (r: Step)
    ensures AppendsOneEntry(s, r, gateDeviceId)
    // rule 1: empty input
    ensures IsBlank(qrCodeData) ==>
              && r.result == AccessResult(false, MSG_EMPTY)
              && r.store.log[|s.log|].userId.None? && r.store.log[|s.log|].ticketId.None?
              && r.store.log[|s.log|].denialReason == Some(MSG_EMPTY)
    // rule 2: unknown code; the caller's message and the logged reason differ
    ensures !IsBlank(qrCodeData) && ResolveCredential(qrCodeData.value).ticketCode !in s.tickets ==>
              && r.result == AccessResult(false, MSG_NOT_FOUND)
              && r.store.log[|s.log|].userId.None? && r.store.log[|s.log|].ticketId.None?
              && r.store.log[|s.log|].denialReason
                 == Some(REASON_NOT_FOUND + ResolveCredential(qrCodeData.value).ticketCode)
    // rules 3 to 5 concern the ticket found under the resolved code
    ensures !IsBlank(qrCodeData) && ResolveCredential(qrCodeData.value).ticketCode in s.tickets ==>
              var cred := ResolveCredential(qrCodeData.value);
              var t := s.tickets[cred.ticketCode];
              && r.store.log[|s.log|].ticketId == Some(t.id)
              && r.store.log[|s.log|].userId == OwnerRef(s, t)
              && (t.status != VALID ==>
                    && r.result == AccessResult(false, MSG_NOT_VALID)
                    && r.store.log[|s.log|].denialReason == Some(MSG_NOT_VALID))
              && (t.status == VALID && WrongMatch(s, t, cred.expectedMatchEventId) ==>
                    && r.result == AccessResult(false, MSG_WRONG_MATCH)
                    && r.store.log[|s.log|].denialReason == Some(MSG_WRONG_MATCH))
              && (t.status == VALID && !WrongMatch(s, t, cred.expectedMatchEventId) ==>
                    && r.result == AccessResult(true, MSG_GRANTED)
                    && (TicketsWellFormed(s) ==>
                          r.store.tickets == s.tickets[cred.ticketCode := SetStatus(t, USED)]))
  {
    if IsBlank(qrCodeData) then
      Step(AccessResult(false, MSG_EMPTY),
           LogAccess(s, None, None, gateDeviceId, L.TICKET, L.DENIED, Some(MSG_EMPTY), None))
    else
      var cred := ResolveCredential(qrCodeData.value);
      match FindTicketByCode(s, cred.ticketCode)
      case None =>
        Step(AccessResult(false, MSG_NOT_FOUND),
             LogAccess(s, None, None, gateDeviceId, L.TICKET, L.DENIED, Some(REASON_NOT_FOUND + cred.ticketCode), None))
      case Some(_) => DecideTicket(s, cred.ticketCode, cred.expectedMatchEventId, gateDeviceId)
  }
}
