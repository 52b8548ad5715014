/** Properties of the gate decision engine that relate several calls, or a
    call and the QR payload format: replay is refused, each ticket is
    admitted at most once over any run of attempts, well-formedness of the
    store is kept, and the payload written at purchase is what the gate
    reads. */
module AccessControlProperties {
  import opened Wrappers
  import opened JavaText
  import opened TicketModel
  import L = AccessLogModel
  import QRCode
  import opened Persistence
  import TicketService
  import opened AccessControl

  /** The decision is a function of the store and the text only; the gate id
      changes the log entry, never the answer. */
  lemma GateDoesNotDecide(s: Store, qrCodeData: Option<string>, gate1: int, gate2: int)
    ensures ProcessQRCodeAccess(s, qrCodeData, gate1).result == ProcessQRCodeAccess(s, qrCodeData, gate2).result
    ensures ProcessQRCodeAccess(s, qrCodeData, gate1).store.tickets == ProcessQRCodeAccess(s, qrCodeData, gate2).store.tickets
  {
  }

  /** At the grant step the ticket is VALID, so the validateTicket call
      whose result the source ignores always succeeds. */
  lemma GrantedValidationSucceeds(s: Store, raw: string)
    requires TicketsWellFormed(s)
    requires ProcessQRCodeAccess(s, Some(raw), 0).result.granted
    ensures TicketService.ValidateTicket(s, ResolveCredential(raw).ticketCode).0
  {
  }

  /** The engine keeps the store well formed. */
  lemma ProcessPreservesWellFormed(s: Store, qrCodeData: Option<string>, gateDeviceId: int)
    requires WellFormed(s)
    ensures WellFormed(ProcessQRCodeAccess(s, qrCodeData, gateDeviceId).store)
  {
    var r := ProcessQRCodeAccess(s, qrCodeData, gateDeviceId);
    if r.result.granted {
      var code := ResolveCredential(qrCodeData.value).ticketCode;
      var s1 := r.store;
      assert s1.tickets == s.tickets[code := SetStatus(s.tickets[code], USED)];
      assert forall c :: c in s1.tickets ==> s1.tickets[c].(status := s.tickets[c].status) == s.tickets[c];
      forall c1, c2 | c1 in s1.tickets && c2 in s1.tickets && s1.tickets[c1].id == s1.tickets[c2].id
        ensures c1 == c2
      {
        assert s.tickets[c1].id == s1.tickets[c1].id;
        assert s.tickets[c2].id == s1.tickets[c2].id;
      }
    }
  }

  /** Presenting the same text again after a grant is refused at the
      validity rule, whatever gate it is presented at, and changes no ticket. */
  lemma ReplayAfterGrantDenied(s: Store, qrCodeData: Option<string>, gate1: int, gate2: int)
    requires TicketsWellFormed(s)
    requires ProcessQRCodeAccess(s, qrCodeData, gate1).result.granted
    ensures var s1 := ProcessQRCodeAccess(s, qrCodeData, gate1).store;
            && ProcessQRCodeAccess(s1, qrCodeData, gate2).result == AccessResult(false, MSG_NOT_VALID)
            && ProcessQRCodeAccess(s1, qrCodeData, gate2).store.tickets == s1.tickets
  {
    var s1 := ProcessQRCodeAccess(s, qrCodeData, gate1).store;
    var code := ResolveCredential(qrCodeData.value).ticketCode;
    assert s1.tickets[code].status == USED;
  }

  // ---------------------------------------------------------------------
  // at most one admission per ticket, over any run of attempts

  /** One presentation at the gate. */
  datatype Attempt = Attempt(qrCodeData: Option<string>, gateDeviceId: int)

  /** The store after processing the attempts in order. */
  function Run(s: Store, attempts: seq<Attempt>): (r: Store)
    ensures |r.log| == |s.log| + |attempts| && r.log[..|s.log|] == s.log
    decreases |attempts|
  {
    if |attempts| == 0 then s
    else
      var s1 := ProcessQRCodeAccess(s, attempts[0].qrCodeData, attempts[0].gateDeviceId).store;
      Run(s1, attempts[1..])
  }

  /** Number of GRANTED entries in `log` that name ticket id `ticketId`. */
  function GrantsFor(log: seq<L.AccessLog>, ticketId: int): nat {
    if |log| == 0 then 0
    else
      var last := log[|log| - 1];
      GrantsFor(log[..|log| - 1], ticketId)
        + (if last.accessResult == L.GRANTED && last.ticketId == Some(ticketId) then 1 else 0)
  }

  /** 1 while the ticket under `code` can still be admitted, else 0. */
  function Admissible(s: Store, code: string): nat {
    if code in s.tickets && s.tickets[code].status == VALID then 1 else 0
  }

  /** One call either admits the ticket under `code` (one more grant naming
      it, and it stops being VALID) or leaves both counts as they were: the
      sum of the two is conserved. */
  lemma {:induction false} StepConservesAdmissions(s: Store, a: Attempt, code: string)
    requires WellFormed(s) && code in s.tickets
    ensures var s1 := ProcessQRCodeAccess(s, a.qrCodeData, a.gateDeviceId).store;
            && WellFormed(s1) && code in s1.tickets && s1.tickets[code].id == s.tickets[code].id
            && GrantsFor(s1.log, s.tickets[code].id) + Admissible(s1, code)
               == GrantsFor(s.log, s.tickets[code].id) + Admissible(s, code)
  {
    var r := ProcessQRCodeAccess(s, a.qrCodeData, a.gateDeviceId);
    var s1 := r.store;
    var id := s.tickets[code].id;
    ProcessPreservesWellFormed(s, a.qrCodeData, a.gateDeviceId);
    assert s1.log[..|s1.log| - 1] == s.log;
    var entry := s1.log[|s1.log| - 1];
    if r.result.granted {
      var granted := ResolveCredential(a.qrCodeData.value).ticketCode;
      assert entry.ticketId == Some(s.tickets[granted].id);
      if granted == code {
        assert Admissible(s, code) == 1 && Admissible(s1, code) == 0;
      } else {
        assert s.tickets[granted].id != id;
        assert s1.tickets[code] == s.tickets[code];
      }
    } else {
      assert entry.accessResult == L.DENIED;
    }
  }

  /** Over any run of attempts, the ticket under `code` is admitted at most
      once, and only if it was VALID when the run began: the VALID to USED
      transition happens at most once. */
  lemma {:induction false} AtMostOneAdmission(s: Store, attempts: seq<Attempt>, code: string)
    requires WellFormed(s) && code in s.tickets
    ensures GrantsFor(Run(s, attempts).log, s.tickets[code].id)
            <= GrantsFor(s.log, s.tickets[code].id) + Admissible(s, code)
    ensures Admissible(s, code) == 0 ==>
              GrantsFor(Run(s, attempts).log, s.tickets[code].id) == GrantsFor(s.log, s.tickets[code].id)
    decreases |attempts|
  {
    if |attempts| > 0 {
      var s1 := ProcessQRCodeAccess(s, attempts[0].qrCodeData, attempts[0].gateDeviceId).store;
      StepConservesAdmissions(s, attempts[0], code);
      AtMostOneAdmission(s1, attempts[1..], code);
    }
  }

  // ---------------------------------------------------------------------
  // the payload written at purchase, presented at the gate

  /** A purchased ticket's payload, presented while the ticket is VALID and
      bound to the match the payload names, is admitted and the ticket
      becomes USED. */
  lemma GeneratedPayloadAdmitted(s: Store, code: string, userId: int, matchEventId: int, gateDeviceId: int)
    requires TicketsWellFormed(s) && KeysWellFormed(s)
    requires ':' !in code && InInt32(userId) && InInt32(matchEventId)
    requires code in s.tickets && s.tickets[code].status == VALID
    requires s.tickets[code].matchEventId == matchEventId
    ensures var r := ProcessQRCodeAccess(s, Some(QRCode.GenerateTicketQRData(code, userId, matchEventId)), gateDeviceId);
            && r.result == AccessResult(true, MSG_GRANTED)
            && code in r.store.tickets && r.store.tickets[code].status == USED
            && |r.store.log| == |s.log| + 1
            && r.store.log[|s.log|].accessResult == L.GRANTED
            && r.store.log[|s.log|].ticketId == Some(s.tickets[code].id)
  {
    var raw := QRCode.GenerateTicketQRData(code, userId, matchEventId);
    QRCode.ParseGenerated(code, userId, matchEventId);
    assert ResolveCredential(raw) == Credential(code, Some(matchEventId));
    assert |Trim(raw)| > 0 by {
      assert raw[0] == 'T';
      TrimEmptyIffBlank(raw);
    }
  }

  /** The same payload for a ticket bound to another (existing) match is
      refused at the match rule, and the ticket stays VALID. */
  lemma GeneratedPayloadWrongMatch(s: Store, code: string, userId: int, matchEventId: int, gateDeviceId: int)
    requires TicketsWellFormed(s) && KeysWellFormed(s)
    requires ':' !in code && InInt32(userId) && InInt32(matchEventId)
    requires code in s.tickets && s.tickets[code].status == VALID
    requires s.tickets[code].matchEventId in s.matches && s.tickets[code].matchEventId != matchEventId
    ensures var r := ProcessQRCodeAccess(s, Some(QRCode.GenerateTicketQRData(code, userId, matchEventId)), gateDeviceId);
            && r.result == AccessResult(false, MSG_WRONG_MATCH)
            && r.store.tickets == s.tickets
            && |r.store.log| == |s.log| + 1
  {
    var raw := QRCode.GenerateTicketQRData(code, userId, matchEventId);
    QRCode.ParseGenerated(code, userId, matchEventId);
    assert ResolveCredential(raw) == Credential(code, Some(matchEventId));
    assert |Trim(raw)| > 0 by {
      assert raw[0] == 'T';
      TrimEmptyIffBlank(raw);
    }
  }

  /** A bare ticket code carries no match, so the match rule never applies
      to it: a VALID ticket presented by its code alone is admitted whatever
      match it is bound to. */
  lemma BareCodeSkipsMatchCheck(s: Store, code: string, gateDeviceId: int)
    requires TicketsWellFormed(s)
    requires |code| > 0 && !IsTrimmable(code[0]) && !IsTrimmable(code[|code| - 1])
    requires !StartsWith(code, QRCode.TICKET_PREFIX)
    requires code in s.tickets && s.tickets[code].status == VALID
    ensures ProcessQRCodeAccess(s, Some(code), gateDeviceId).result == AccessResult(true, MSG_GRANTED)
  {
    assert Trim(code) == code;
    assert ResolveCredential(code) == Credential(code, None);
  }
}
