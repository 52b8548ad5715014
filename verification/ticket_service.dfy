/** service/TicketService: ticket purchase, validation at the gate, and the
    ticket-code generator. The clock, the random UUID and the database's
    answer to the insert are parameters. */
module TicketService {
  import opened Wrappers
  import opened JavaText
  import opened TicketModel
  import MatchModel
  import UserModel
  import QRCode
  import opened Persistence

  // ---------------------------------------------------------------------
  // generateTicketCode

  /** A LocalDateTime, field by field. */
  datatype DateTime = DateTime(year: int, month: int, day: int, hour: int, minute: int, second: int)

  /** The clock values the pattern "yyyyMMddHHmmss" prints as fourteen
      digits: a year of at most four digits and in-range time fields. */
  predicate Printable(t: DateTime) {
    && 1 <= t.year <= 9999 && 1 <= t.month <= 12 && 1 <= t.day <= 31
    && 0 <= t.hour < 24 && 0 <= t.minute < 60 && 0 <= t.second < 60
  }

  function Pow10(n: nat): (r: nat)
    ensures r >= 1
  {
    if n == 0 then 1 else 10 * Pow10(n - 1)
  }

  /** `n` in exactly `width` decimal digits, zero-padded on the left. */
  function FixedDigits(n: nat, width: nat): (r: string)
    ensures |r| == width && AllDigits(r)
  {
    if width == 0 then "" else FixedDigits(n / 10, width - 1) + [DigitChar(n % 10)]
  }

  /** The padded rendering reads back as the number it renders, whenever
      the number fits in the width. */
  lemma {:induction false} FixedDigitsValue(n: nat, width: nat)
    requires n < Pow10(width)
    ensures DigitsValue(FixedDigits(n, width)) == n
  {
    if width > 0 {
      var r := FixedDigits(n, width);
      assert r[..|r| - 1] == FixedDigits(n / 10, width - 1);
      FixedDigitsValue(n / 10, width - 1);
    }
  }

  /** DateTimeFormatter.ofPattern("yyyyMMddHHmmss").format(t). */
  function FormatTimestamp(t: DateTime): (r: string)
    requires Printable(t)
    ensures |r| == 14 && AllDigits(r)
  {
    FixedDigits(t.year, 4) + FixedDigits(t.month, 2) + FixedDigits(t.day, 2)
      + FixedDigits(t.hour, 2) + FixedDigits(t.minute, 2) + FixedDigits(t.second, 2)
  }

  predicate IsUpperHex(c: char) {
    '0' <= c <= '9' || 'A' <= c <= 'F'
  }

  predicate IsLowerHex(c: char) {
    '0' <= c <= '9' || 'a' <= c <= 'f'
  }

  /** `n` in exactly `width` lowercase hexadecimal digits, as UUID.toString
      writes each group. */
  function FixedHex(n: nat, width: nat): (r: string)
    ensures |r| == width && forall i :: 0 <= i < |r| ==> IsLowerHex(r[i])
  {
    if width == 0 then "" else FixedHex(n / 16, width - 1) + ["0123456789abcdef"[n % 16]]
  }

  /** String.toUpperCase on ASCII text. */
  function ToUpperAscii(s: string): (r: string)
    ensures |r| == |s|
    ensures forall i :: 0 <= i < |s| ==> (IsLowerHex(s[i]) ==> IsUpperHex(r[i]))
  {
    if |s| == 0 then ""
    else
      var c := s[0];
      [if 'a' <= c <= 'z' then (c as int - 'a' as int + 'A' as int) as char else c] + ToUpperAscii(s[1..])
  }

  /** generateTicketCode: "TKT-", the fourteen-digit timestamp, "-", then the
      first eight characters of a random UUID in upper case. Those eight
      characters are the top 32 bits of the UUID, `uuidHigh`. */
  function GenerateTicketCode(now: DateTime, uuidHigh: nat): (code: string)
    requires Printable(now) && uuidHigh < 0x1_0000_0000
    ensures |code| == 27 && code[..4] == "TKT-" && code[18] == '-'
    ensures AllDigits(code[4..18])
    ensures forall i :: 19 <= i < 27 ==> IsUpperHex(code[i])
    ensures ':' !in code
    ensures code[4..18] == FormatTimestamp(now)
  {
    var stamp := FormatTimestamp(now);
    var uuid := ToUpperAscii(FixedHex(uuidHigh, 8));
    var code := "TKT-" + stamp + "-" + uuid;
    assert code[4..18] == stamp;
    assert forall i :: 19 <= i < 27 ==> code[i] == uuid[i - 19];
    code
  }

  /** The timestamp in a ticket code reads back field by field: digits 4-7
      are the year, then two digits each for month, day, hour, minute and
      second. */
  lemma TicketCodeTimestamp(now: DateTime, uuidHigh: nat)
    requires Printable(now) && uuidHigh < 0x1_0000_0000
    ensures var code := GenerateTicketCode(now, uuidHigh);
            && AllDigits(code[4..18])
            && DigitsValue(code[4..8]) == now.year && DigitsValue(code[8..10]) == now.month
            && DigitsValue(code[10..12]) == now.day && DigitsValue(code[12..14]) == now.hour
            && DigitsValue(code[14..16]) == now.minute && DigitsValue(code[16..18]) == now.second
  {
    var code := GenerateTicketCode(now, uuidHigh);
    var stamp := FormatTimestamp(now);
    assert code[4..18] == stamp;
    assert Pow10(2) == 100 && Pow10(4) == 10000;
    assert code[4..8] == stamp[0..4] == FixedDigits(now.year, 4);
    assert code[8..10] == stamp[4..6] == FixedDigits(now.month, 2);
    assert code[10..12] == stamp[6..8] == FixedDigits(now.day, 2);
    assert code[12..14] == stamp[8..10] == FixedDigits(now.hour, 2);
    assert code[14..16] == stamp[10..12] == FixedDigits(now.minute, 2);
    assert code[16..18] == stamp[12..14] == FixedDigits(now.second, 2);
    FixedDigitsValue(now.year, 4);
    FixedDigitsValue(now.month, 2);
    FixedDigitsValue(now.day, 2);
    FixedDigitsValue(now.hour, 2);
    FixedDigitsValue(now.minute, 2);
    FixedDigitsValue(now.second, 2);
  }

  // ---------------------------------------------------------------------
  // purchaseTicket

  /** What purchaseTicket returns (the new ticket, or null) and the store
      after it. */
  datatype Purchase = Purchase(ticket: Option<Ticket>, store: Store)

  /** purchaseTicket(user, matchEventId, seatNumber). In order: an unknown
      match or a match with no seat left returns null and writes nothing; the
      ticket is built VALID with its QR payload and inserted; only if the
      insert succeeds is the match's counter overwritten with the value read
      at the start minus one. */
  function PurchaseTicket(s: Store, user: UserModel.User, matchEventId: int, seatNumber: string,
                          now: DateTime, uuidHigh: nat, purchaseDate: int, insertAccepted: bool): (r: Purchase)
    requires Printable(now) && uuidHigh < 0x1_0000_0000
    ensures matchEventId !in s.matches ==> r == Purchase(None, s)
    ensures matchEventId in s.matches && s.matches[matchEventId].availableTickets <= 0 ==> r == Purchase(None, s)
    ensures !insertAccepted ==> r == Purchase(None, s)
    ensures r.ticket.None? ==> r.store == s
    ensures (matchEventId in s.matches && s.matches[matchEventId].availableTickets > 0 && insertAccepted
             && GenerateTicketCode(now, uuidHigh) !in s.tickets) ==> r.ticket.Some?
    ensures r.ticket.Some? ==>
              && matchEventId in s.matches && s.matches[matchEventId].availableTickets > 0
              && r.ticket.value.ticketCode == GenerateTicketCode(now, uuidHigh)
              && r.ticket.value.id == s.nextTicketId && r.store.nextTicketId == s.nextTicketId + 1
              && r.ticket.value.purchaseDate == purchaseDate
              && r.ticket.value.status == VALID
              && r.ticket.value.userId == user.id
              && r.ticket.value.matchEventId == s.matches[matchEventId].id
              && r.ticket.value.seatNumber == seatNumber
              && r.ticket.value.qrCodeData
                   == Some(QRCode.GenerateTicketQRData(r.ticket.value.ticketCode, user.id, matchEventId))
              && r.ticket.value.ticketCode !in s.tickets
              && r.store.tickets == s.tickets[r.ticket.value.ticketCode := r.ticket.value]
              && r.store.matches.Keys == s.matches.Keys
              && r.store.matches[matchEventId]
                   == MatchModel.SetAvailableTickets(s.matches[matchEventId], s.matches[matchEventId].availableTickets - 1)
              && (forall k :: k in s.matches && k != matchEventId ==> r.store.matches[k] == s.matches[k])
              && r.store.log == s.log && r.store.users == s.users && r.store.devices == s.devices
              && r.store.roles == s.roles && r.store.nextUserId == s.nextUserId
  {
    match Lookup(s.matches, matchEventId)
    case None => Purchase(None, s)
    case Some(matchEvent) =>
      if matchEvent.availableTickets <= 0 then Purchase(None, s)
      else
        var code := GenerateTicketCode(now, uuidHigh);
        var qrData := QRCode.GenerateTicketQRData(code, user.id, matchEventId);
        var ticket := Ticket(0, code, user.id, matchEvent.id, seatNumber, Some(qrData), purchaseDate, VALID);
        var (created, s1) := InsertTicket(s, ticket, insertAccepted);
        if created.None? then Purchase(None, s)
        else Purchase(created, UpdateAvailableTickets(s1, matchEventId, matchEvent.availableTickets - 1))
  }

  /** A purchase keeps the store well formed and, for every match, the seat
      invariant 0 <= available <= total: a sale only happens while a seat is
      left and takes exactly one. */
  lemma PurchasePreservesInvariants(s: Store, user: UserModel.User, matchEventId: int, seatNumber: string,
                                    now: DateTime, uuidHigh: nat, purchaseDate: int, insertAccepted: bool)
    requires Printable(now) && uuidHigh < 0x1_0000_0000
    requires WellFormed(s)
    requires forall k :: k in s.matches ==> MatchModel.SeatsConsistent(s.matches[k])
    ensures WellFormed(PurchaseTicket(s, user, matchEventId, seatNumber, now, uuidHigh, purchaseDate, insertAccepted).store)
    ensures forall k :: k in PurchaseTicket(s, user, matchEventId, seatNumber, now, uuidHigh, purchaseDate, insertAccepted).store.matches
              ==> MatchModel.SeatsConsistent(
                    PurchaseTicket(s, user, matchEventId, seatNumber, now, uuidHigh, purchaseDate, insertAccepted).store.matches[k])
  {
    var r := PurchaseTicket(s, user, matchEventId, seatNumber, now, uuidHigh, purchaseDate, insertAccepted);
    if r.ticket.Some? {
      var code := GenerateTicketCode(now, uuidHigh);
      var qrData := QRCode.GenerateTicketQRData(code, user.id, matchEventId);
      var m := s.matches[matchEventId];
      var ticket := Ticket(0, code, user.id, m.id, seatNumber, Some(qrData), purchaseDate, VALID);
      InsertTicketWellFormed(s, ticket, insertAccepted);
    }
  }

  /** The QR payload stored with a purchased ticket reads back, through the
      gate's parser, as that ticket's code, its owner and the match bought. */
  lemma PurchasedPayloadParses(s: Store, user: UserModel.User, matchEventId: int, seatNumber: string,
                               now: DateTime, uuidHigh: nat, purchaseDate: int, insertAccepted: bool)
    requires Printable(now) && uuidHigh < 0x1_0000_0000
    requires InInt32(user.id) && InInt32(matchEventId)
    requires PurchaseTicket(s, user, matchEventId, seatNumber, now, uuidHigh, purchaseDate, insertAccepted).ticket.Some?
    ensures var t := PurchaseTicket(s, user, matchEventId, seatNumber, now, uuidHigh, purchaseDate, insertAccepted).ticket.value;
            QRCode.ParseTicketQRData(t.qrCodeData) == Some(QRCode.TicketQRData(t.ticketCode, user.id, matchEventId))
  {
    var t := PurchaseTicket(s, user, matchEventId, seatNumber, now, uuidHigh, purchaseDate, insertAccepted).ticket.value;
    QRCode.ParseGenerated(t.ticketCode, user.id, matchEventId);
  }

  /** A sold-out match stays sold out: buying from it, however often, never
      creates a ticket and never moves the counter. */
  lemma SoldOutStaysSoldOut(s: Store, user: UserModel.User, matchEventId: int, seatNumber: string,
                            now: DateTime, uuidHigh: nat, purchaseDate: int, insertAccepted: bool)
    requires Printable(now) && uuidHigh < 0x1_0000_0000
    requires matchEventId in s.matches && s.matches[matchEventId].availableTickets == 0
    ensures var r := PurchaseTicket(s, user, matchEventId, seatNumber, now, uuidHigh, purchaseDate, insertAccepted);
            r.ticket.None? && r.store.matches[matchEventId].availableTickets == 0 && r.store.tickets == s.tickets
  {
  }

  // ---------------------------------------------------------------------
  // validateTicket

  /** validateTicket(code): an unknown code or a ticket that is not VALID
      returns false and writes nothing; a VALID ticket is marked USED (by
      its id) and true is returned. */
  function ValidateTicket(s: Store, ticketCode: string): (r: (bool, Store))
    ensures r.0 <==> ticketCode in s.tickets && s.tickets[ticketCode].status == VALID
    ensures !r.0 ==> r.1 == s
    ensures r.1 == s.(tickets := r.1.tickets) && r.1.tickets.Keys == s.tickets.Keys
    ensures r.0 && TicketsWellFormed(s) ==>
              r.1 == s.(tickets := s.tickets[ticketCode := SetStatus(s.tickets[ticketCode], USED)])
  {
    match FindTicketByCode(s, ticketCode)
    case None => (false, s)
    case Some(ticket) =>
      if ticket.status != VALID then (false, s)
      else
        UpdateStatusOfOneTicket(s, ticketCode, USED);
        (true, UpdateTicketStatus(s, ticket.id, USED))
  }

  /** Validation keeps the store well formed: ids and codes do not move. */
  lemma ValidatePreservesWellFormed(s: Store, ticketCode: string)
    requires WellFormed(s)
    ensures WellFormed(ValidateTicket(s, ticketCode).1)
  {
    var r := ValidateTicket(s, ticketCode);
    if r.0 {
      var s1 := r.1;
      forall c1, c2 | c1 in s1.tickets && c2 in s1.tickets && s1.tickets[c1].id == s1.tickets[c2].id
        ensures c1 == c2
      {
        assert s.tickets[c1].id == s1.tickets[c1].id;
        assert s.tickets[c2].id == s1.tickets[c2].id;
      }
    }
  }

  /** A ticket validates at most once: a second validation of the same code,
      right after one that succeeded, returns false and writes nothing. */
  lemma ValidateTwice(s: Store, ticketCode: string)
    requires TicketsWellFormed(s)
    ensures ValidateTicket(s, ticketCode).0 ==>
              var s1 := ValidateTicket(s, ticketCode).1;
              TicketsWellFormed(s1) && ValidateTicket(s1, ticketCode) == (false, s1)
  {
    var r := ValidateTicket(s, ticketCode);
    if r.0 {
      var s1 := r.1;
      forall c1, c2 | c1 in s1.tickets && c2 in s1.tickets && s1.tickets[c1].id == s1.tickets[c2].id
        ensures c1 == c2
      {
        assert s.tickets[c1].id == s1.tickets[c1].id;
        assert s.tickets[c2].id == s1.tickets[c2].id;
      }
    }
  }
}
