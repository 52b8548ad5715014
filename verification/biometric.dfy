/** The supporter self-check: service/BiometricService (hasValidTicket,
    generateUserQRCode) and the two decisions of
    controller/BiometricController this model keeps (handleVerifyAccess and
    the first-valid-ticket pick of showTicketDialog). Biometric enrolment is
    a boolean supplied by the caller; the simulated face embeddings, the
    dialogs and the images are not part of this model. */
module Biometric {
  import opened Wrappers
  import opened JavaText
  import opened TicketModel
  import UserModel
  import QRCode
  import opened Persistence

  /** hasValidTicket over the list TicketDAO.findByUserId returned:
      `tickets.stream().anyMatch(Ticket::isValid)`. */
  function HasValidTicket(listing: seq<Ticket>): (r: bool)
    ensures r <==> exists i :: 0 <= i < |listing| && listing[i].status == VALID
  {
    if |listing| == 0 then false
    else IsValid(listing[0]) || HasValidTicket(listing[1..])
  }

  /** Read against the store, hasValidTicket(u) holds exactly when some ticket
      of u is VALID; a user without tickets has none. */
  lemma HasValidTicketInStore(s: Store, userId: int, listing: seq<Ticket>)
    requires IsUserListing(s, userId, listing)
    ensures HasValidTicket(listing) <==>
              exists c :: c in s.tickets && s.tickets[c].userId == userId && s.tickets[c].status == VALID
  {
    if exists c :: c in s.tickets && s.tickets[c].userId == userId && s.tickets[c].status == VALID {
      var c :| c in s.tickets && s.tickets[c].userId == userId && s.tickets[c].status == VALID;
      var i :| 0 <= i < |listing| && listing[i].ticketCode == c;
      assert listing[i] == s.tickets[c];
    }
    if HasValidTicket(listing) {
      var i :| 0 <= i < |listing| && listing[i].status == VALID;
      assert s.tickets[listing[i].ticketCode] == listing[i];
    }
  }

  /** generateUserQRCode(userId), with System.currentTimeMillis() as
      `millis`. It names the user in its second field, and it is never a
      ticket payload: it starts "USER:", not "TICKET:", so the ticket parser
      rejects it. */
  function GenerateUserQRCode(userId: int, millis: int): (r: string)
    ensures StartsWith(r, "USER:" + IntToString(userId) + ":")
    ensures QRCode.ParseTicketQRData(Some(r)) == None
  {
    var head := "USER:" + IntToString(userId) + ":";
    var r := head + "BIOMETRIC:ENABLED:TIMESTAMP:" + IntToString(millis);
    assert r[..|head|] == head;
    assert r[..|QRCode.TICKET_PREFIX|][1] == 'S' != QRCode.TICKET_PREFIX[1];
    r
  }

  /** The format string of generateUserQRCode is the six ':'-joined fields. */
  lemma UserQRCodeIsSixFields(userId: int, millis: int)
    ensures GenerateUserQRCode(userId, millis)
         == QRCode.SixFields("USER", IntToString(userId), "BIOMETRIC", "ENABLED", "TIMESTAMP", IntToString(millis))
  {
    var id := IntToString(userId);
    var ms := IntToString(millis);
    var tail := QRCode.Field("BIOMETRIC", QRCode.Field("ENABLED", QRCode.Field("TIMESTAMP", ms)));
    LabelsAreFields(ms);
    UserHeadIsFields(id, tail);
    assert GenerateUserQRCode(userId, millis) == ("USER:" + id + ":") + ("BIOMETRIC:ENABLED:TIMESTAMP:" + ms);
  }

  /** The fixed middle of the format string is three ':'-terminated labels. */
  lemma LabelsAreFields(ms: string)
    ensures "BIOMETRIC:ENABLED:TIMESTAMP:" + ms
         == QRCode.Field("BIOMETRIC", QRCode.Field("ENABLED", QRCode.Field("TIMESTAMP", ms)))
  {
    assert "BIOMETRIC:ENABLED:TIMESTAMP:" == "BIOMETRIC" + [':'] + ("ENABLED" + [':'] + ("TIMESTAMP" + [':']));
  }

  /** The head of the format string is the label USER and the id, each
      followed by ':'. */
  lemma UserHeadIsFields(id: string, tail: string)
    ensures ("USER:" + id + ":") + tail == QRCode.Field("USER", QRCode.Field(id, tail))
  {
    assert "USER:" == "USER" + [':'];
  }

  /** A decimal rendering never contains ':'. */
  lemma NoColonInNumber(n: int)
    ensures ':' !in IntToString(n)
  {
    var d := IntToString(n);
    forall i | 0 <= i < |d| ensures d[i] != ':' {
      assert IsDigit(d[i]) || d[i] == '-';
    }
  }

  /** The user QR text is exactly the six fields USER, the user id,
      BIOMETRIC, ENABLED, TIMESTAMP and the clock reading, and its second
      field reads back as the user id. */
  lemma UserQRCodeNamesUser(userId: int, millis: int)
    requires InInt32(userId)
    ensures var fields := Split(GenerateUserQRCode(userId, millis), ':');
            && fields == ["USER", IntToString(userId), "BIOMETRIC", "ENABLED", "TIMESTAMP", IntToString(millis)]
            && ParseInt(fields[1]) == Some(userId)
  {
    var id := IntToString(userId);
    var ms := IntToString(millis);
    NoColonInNumber(userId);
    NoColonInNumber(millis);
    UserQRCodeIsSixFields(userId, millis);
    assert ':' !in "USER" && ':' !in "BIOMETRIC" && ':' !in "ENABLED" && ':' !in "TIMESTAMP";
    QRCode.SixFieldsSplit("USER", id, "BIOMETRIC", "ENABLED", "TIMESTAMP", ms);
    ParseIntToString(userId);
  }

  /** The first VALID ticket of the list: `filter(Ticket::isValid).findFirst()`. */
  function FirstValidTicket(listing: seq<Ticket>): (r: Option<Ticket>)
    ensures r.None? <==> !HasValidTicket(listing)
    ensures r.Some? ==> exists i :: 0 <= i < |listing| && listing[i] == r.value
                          && r.value.status == VALID
                          && forall j :: 0 <= j < i ==> listing[j].status != VALID
  {
    if |listing| == 0 then None
    else if IsValid(listing[0]) then Some(listing[0])
    else
      var rest := FirstValidTicket(listing[1..]);
      if rest.Some? then
        var i :| 0 <= i < |listing[1..]| && listing[1..][i] == rest.value
                 && rest.value.status == VALID
                 && forall j :: 0 <= j < i ==> listing[1..][j].status != VALID;
        assert listing[i + 1] == rest.value;
        rest
      else rest
  }

  /** Since the list is newest purchase first, the ticket shown is a VALID
      ticket of the user bought no earlier than any other VALID one. */
  lemma FirstValidIsNewest(s: Store, userId: int, listing: seq<Ticket>)
    requires IsUserListing(s, userId, listing)
    requires FirstValidTicket(listing).Some?
    ensures var t := FirstValidTicket(listing).value;
            && t.ticketCode in s.tickets && s.tickets[t.ticketCode] == t && t.userId == userId
            && forall c :: c in s.tickets && s.tickets[c].userId == userId && s.tickets[c].status == VALID
                 ==> s.tickets[c].purchaseDate <= t.purchaseDate
  {
    var t := FirstValidTicket(listing).value;
    var i :| 0 <= i < |listing| && listing[i] == t && t.status == VALID
             && forall j :: 0 <= j < i ==> listing[j].status != VALID;
    forall c | c in s.tickets && s.tickets[c].userId == userId && s.tickets[c].status == VALID
      ensures s.tickets[c].purchaseDate <= t.purchaseDate
    {
      var k :| 0 <= k < |listing| && listing[k].ticketCode == c;
      assert listing[k] == s.tickets[c];
      assert listing[k].status == VALID;
      assert i <= k;
      if i < k {
        assert listing[i].purchaseDate >= listing[k].purchaseDate;
      }
    }
  }

  // ---------------------------------------------------------------------
  // the controller's state and its two decisions

  /** The fields of BiometricController the decisions read: the user shown
      and the QR text handleGenerateQR stored (null until then). */
  datatype ControllerState = ControllerState(currentUser: Option<UserModel.User>, qrCodeData: Option<string>)

  const INITIAL: ControllerState := ControllerState(None, None)

  /** handleGenerateQR: without a user nothing happens; otherwise the user's
      QR text is stored in the controller. */
  function HandleGenerateQR(c: ControllerState, millis: int): (r: ControllerState)
    ensures r.currentUser == c.currentUser
    ensures c.currentUser.None? ==> r.qrCodeData == c.qrCodeData
    ensures c.currentUser.Some? ==>
              && r.qrCodeData.Some?
              && StartsWith(r.qrCodeData.value, "USER:" + IntToString(c.currentUser.value.id) + ":")
              && QRCode.ParseTicketQRData(r.qrCodeData) == None
  {
    if c.currentUser.None? then c
    else c.(qrCodeData := Some(GenerateUserQRCode(c.currentUser.value.id, millis)))
  }

  /** The outcome of handleVerifyAccess: nothing at all without a user; a
      refusal listing the three checks; or access granted with the ticket
      the dialog shows (None is the "Aucun ticket valide trouvé" warning). */
  datatype Verification =
    | NoUser
    | Refused(hasTicket: bool, hasQRCode: bool, hasBiometric: bool)
    | Granted(shown: Option<Ticket>)

  /** handleVerifyAccess, with `listing` the user's tickets as the DAO lists
      them and `hasBiometric` the enrolment flag. The same query feeds
      showTicketDialog, which in a sequential run sees the same rows. The
      check reads tickets and writes none: no store is returned. */
  function HandleVerifyAccess(c: ControllerState, listing: seq<Ticket>, hasBiometric: bool): (r: Verification)
    ensures c.currentUser.None? <==> r.NoUser?
    ensures r.Granted? <==> c.currentUser.Some? && HasValidTicket(listing) && c.qrCodeData.Some? && hasBiometric
    ensures r.Refused? ==> r == Refused(HasValidTicket(listing), c.qrCodeData.Some?, hasBiometric)
    ensures r.Granted? ==> r.shown == FirstValidTicket(listing) && r.shown.Some? && r.shown.value.status == VALID
  {
    if c.currentUser.None? then NoUser
    else
      var hasTicket := HasValidTicket(listing);
      var hasQRCode := c.qrCodeData.Some?;
      if hasTicket && hasQRCode && hasBiometric then Granted(FirstValidTicket(listing))
      else Refused(hasTicket, hasQRCode, hasBiometric)
  }

  /** The controller events that touch the two fields. */
  datatype ControllerEvent = SetUser(user: Option<UserModel.User>) | GenerateQR(millis: int)

  function Apply(c: ControllerState, e: ControllerEvent): ControllerState {
    match e
    case SetUser(u) => c.(currentUser := u)
    case GenerateQR(millis) => HandleGenerateQR(c, millis)
  }

  /** The controller state after the events, oldest first. */
  function ApplyAll(c: ControllerState, events: seq<ControllerEvent>): ControllerState {
    if |events| == 0 then c else Apply(ApplyAll(c, events[..|events| - 1]), events[|events| - 1])
  }

  /** Some GenerateQR event happened while a user was set. */
  predicate GeneratedWithUser(c: ControllerState, events: seq<ControllerEvent>) {
    exists i :: 0 <= i < |events| && events[i].GenerateQR? && ApplyAll(c, events[..i]).currentUser.Some?
  }

  /** A QR text was generated with a user set during the events exactly
      when it happened during all but the last one, or the last one is such
      a generation. */
  lemma GeneratedWithUserSnoc(events: seq<ControllerEvent>)
    requires |events| > 0
    ensures var n := |events| - 1;
            GeneratedWithUser(INITIAL, events) <==>
              || GeneratedWithUser(INITIAL, events[..n])
              || (events[n].GenerateQR? && ApplyAll(INITIAL, events[..n]).currentUser.Some?)
  {
    var n := |events| - 1;
    var prefix := events[..n];
    assert forall i :: 0 <= i < n ==> events[..i] == prefix[..i];
    if GeneratedWithUser(INITIAL, prefix) {
      var i :| 0 <= i < n && prefix[i].GenerateQR? && ApplyAll(INITIAL, prefix[..i]).currentUser.Some?;
      assert events[i].GenerateQR? && ApplyAll(INITIAL, events[..i]).currentUser.Some?;
    }
    if GeneratedWithUser(INITIAL, events) {
      var i :| 0 <= i < |events| && events[i].GenerateQR? && ApplyAll(INITIAL, events[..i]).currentUser.Some?;
      if i < n {
        assert prefix[i].GenerateQR? && ApplyAll(INITIAL, prefix[..i]).currentUser.Some?;
      }
    }
  }

  /** hasQRCode is true exactly when handleGenerateQR, run earlier on this
      controller while a user was set, stored a QR text. */
  lemma {:induction false} QRCodeFlagMeansGenerated(events: seq<ControllerEvent>)
    ensures ApplyAll(INITIAL, events).qrCodeData.Some? <==> GeneratedWithUser(INITIAL, events)
    decreases |events|
  {
    if |events| > 0 {
      QRCodeFlagMeansGenerated(events[..|events| - 1]);
      GeneratedWithUserSnoc(events);
    }
  }
}
