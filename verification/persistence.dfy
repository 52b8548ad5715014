/** The in-memory store standing in for the database the DAOs talk to:
    tickets keyed by their unique code, matches, gate devices and users keyed
    by id, roles keyed by name, the append-only access log, and the
    auto-increment counters that hand out fresh ticket and user ids.
    Each DAO operation the core uses is one pure function here; SQL, the
    connection singleton and the swallowed SQLExceptions are not part of
    this model. */
module Persistence {
  import opened Wrappers
  import opened TicketModel
  import MatchModel
  import AccessLogModel
  import GateDeviceModel
  import UserModel

  datatype Store = Store(
    users: map<int, UserModel.User>,
    roles: map<string, UserModel.Role>,
    tickets: map<string, Ticket>,
    matches: map<int, MatchModel.MatchEvent>,
    devices: map<int, GateDeviceModel.GateDevice>,
    log: seq<AccessLogModel.AccessLog>,
    nextTicketId: int,
    nextUserId: int)

  /** Tickets are stored under their own code, and ticket ids are positive,
      below the auto-increment counter and pairwise distinct. */
  predicate TicketsWellFormed(s: Store) {
    && s.nextTicketId > 0
    && (forall c :: c in s.tickets ==> s.tickets[c].ticketCode == c && 0 < s.tickets[c].id < s.nextTicketId)
    && (forall c1, c2 :: c1 in s.tickets && c2 in s.tickets && s.tickets[c1].id == s.tickets[c2].id ==> c1 == c2)
  }

  /** Matches, devices, users and roles are stored under their own key. */
  predicate KeysWellFormed(s: Store) {
    && s.nextUserId > 0
    && (forall k :: k in s.matches ==> s.matches[k].id == k)
    && (forall k :: k in s.devices ==> s.devices[k].id == k)
    && (forall k :: k in s.users ==> s.users[k].id == k && 0 < k < s.nextUserId)
    && (forall n :: n in s.roles ==> s.roles[n].name == n)
  }

  /** No two users share a username, and no two share an email. */
  predicate UsersUnique(s: Store) {
    forall i, j :: i in s.users && j in s.users && i != j ==>
      s.users[i].username != s.users[j].username && s.users[i].email != s.users[j].email
  }

  predicate WellFormed(s: Store) {
    TicketsWellFormed(s) && KeysWellFormed(s) && UsersUnique(s)
  }

  /** A store with nothing in it. */
  function EmptyStore(): (s: Store)
    ensures WellFormed(s)
  {
    Store(map[], map[], map[], map[], map[], [], 1, 1)
  }

  /** A primary-key lookup: None is the DAO's null for a missing row. */
  function Lookup<K, V>(m: map<K, V>, k: K): (r: Option<V>)
    ensures r.Some? <==> k in m
    ensures r.Some? ==> r.value == m[k]
  {
    if k in m then Some(m[k]) else None
  }

  /** TicketDAO.findByCode: the ticket stored under that code, if any. */
  function FindTicketByCode(s: Store, code: string): (r: Option<Ticket>)
    ensures r.Some? <==> code in s.tickets
    ensures r.Some? ==> r.value in s.tickets.Values
    ensures r.Some? && TicketsWellFormed(s) ==> r.value.ticketCode == code
  {
    Lookup(s.tickets, code)
  }

  /** The owner a loaded ticket carries: UserDAO.findById of its user id. */
  function TicketUser(s: Store, t: Ticket): Option<UserModel.User> {
    Lookup(s.users, t.userId)
  }

  /** The match a loaded ticket carries: MatchEventDAO.findById of its match id. */
  function TicketMatch(s: Store, t: Ticket): Option<MatchModel.MatchEvent> {
    Lookup(s.matches, t.matchEventId)
  }

  /** TicketDAO.updateStatus: overwrites the status of the row with that id
      (a row, not a code, is addressed); every other field and row is kept. */
  function UpdateTicketStatus(s: Store, ticketId: int, status: TicketStatus): (r: Store)
    ensures r.tickets.Keys == s.tickets.Keys
    ensures r == s.(tickets := r.tickets)
    ensures forall c :: c in s.tickets && s.tickets[c].id != ticketId ==> r.tickets[c] == s.tickets[c]
    ensures forall c :: c in s.tickets && s.tickets[c].id == ticketId ==> r.tickets[c] == SetStatus(s.tickets[c], status)
  {
    s.(tickets := map c | c in s.tickets :: if s.tickets[c].id == ticketId then SetStatus(s.tickets[c], status) else s.tickets[c])
  }

  /** With distinct ticket ids, updating by the id of the ticket stored
      under `code` changes that ticket's status and nothing else. */
  lemma UpdateStatusOfOneTicket(s: Store, code: string, status: TicketStatus)
    requires code in s.tickets
    ensures TicketsWellFormed(s) ==>
              UpdateTicketStatus(s, s.tickets[code].id, status)
              == s.(tickets := s.tickets[code := SetStatus(s.tickets[code], status)])
  {
    if TicketsWellFormed(s) {
      var r := UpdateTicketStatus(s, s.tickets[code].id, status);
      var expected := s.tickets[code := SetStatus(s.tickets[code], status)];
      forall c | c in s.tickets ensures r.tickets[c] == expected[c] {
        if c != code {
          assert s.tickets[c].id != s.tickets[code].id;
        }
      }
      assert r.tickets == expected;
    }
  }

  /** MatchEventDAO.updateAvailableTickets: a plain overwrite of the counter;
      a missing match means no row is updated. */
  function UpdateAvailableTickets(s: Store, matchEventId: int, availableTickets: int): (r: Store)
    ensures r == s.(matches := r.matches)
    ensures r.matches.Keys == s.matches.Keys
    ensures forall k :: k in s.matches && k != matchEventId ==> r.matches[k] == s.matches[k]
    ensures matchEventId in s.matches ==>
              r.matches[matchEventId] == MatchModel.SetAvailableTickets(s.matches[matchEventId], availableTickets)
  {
    if matchEventId in s.matches then
      s.(matches := s.matches[matchEventId := MatchModel.SetAvailableTickets(s.matches[matchEventId], availableTickets)])
    else s
  }

  /** TicketDAO.create: the row gets the next auto-increment id. The insert
      fails, leaving the store as it was, when the database refuses it
      (`accepted` is false) or the code is already taken. */
  function InsertTicket(s: Store, t: Ticket, accepted: bool): (r: (Option<Ticket>, Store))
    ensures r.0.None? <==> !accepted || t.ticketCode in s.tickets
    ensures r.0.None? ==> r.1 == s
    ensures r.0.Some? ==>
              && r.0.value == t.(id := s.nextTicketId)
              && r.1 == s.(tickets := s.tickets[t.ticketCode := r.0.value], nextTicketId := s.nextTicketId + 1)
  {
    if !accepted || t.ticketCode in s.tickets then (None, s)
    else
      var stored := t.(id := s.nextTicketId);
      (Some(stored), s.(tickets := s.tickets[t.ticketCode := stored], nextTicketId := s.nextTicketId + 1))
  }

  /** A successful insert keeps ticket codes as keys and ids distinct. */
  lemma InsertTicketWellFormed(s: Store, t: Ticket, accepted: bool)
    requires TicketsWellFormed(s)
    ensures TicketsWellFormed(InsertTicket(s, t, accepted).1)
  {
    var r := InsertTicket(s, t, accepted);
    if r.0.Some? {
      var s1 := r.1;
      forall c1, c2 | c1 in s1.tickets && c2 in s1.tickets && s1.tickets[c1].id == s1.tickets[c2].id
        ensures c1 == c2
      {
        if c1 != t.ticketCode && c2 != t.ticketCode {
          assert s.tickets[c1].id == s.tickets[c2].id;
        }
      }
    }
  }

  /** AccessLogDAO.create: one entry appended, nothing removed. */
  function AppendLog(s: Store, entry: AccessLogModel.AccessLog): (r: Store)
    ensures r == s.(log := r.log)
    ensures |r.log| == |s.log| + 1 && r.log[..|s.log|] == s.log && r.log[|s.log|] == entry
  {
    s.(log := s.log + [entry])
  }

  /** What TicketDAO.findByUserId returns for `userId`: every ticket of that
      user, each once, as stored, newest purchase first. */
  predicate IsUserListing(s: Store, userId: int, listing: seq<Ticket>) {
    && (forall i :: 0 <= i < |listing| ==>
          listing[i].ticketCode in s.tickets && s.tickets[listing[i].ticketCode] == listing[i]
          && listing[i].userId == userId)
    && (forall c :: c in s.tickets && s.tickets[c].userId == userId ==>
          exists i :: 0 <= i < |listing| && listing[i].ticketCode == c)
    && (forall i, j :: 0 <= i < j < |listing| ==>
          listing[i].ticketCode != listing[j].ticketCode && listing[i].purchaseDate >= listing[j].purchaseDate)
  }
}
