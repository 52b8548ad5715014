/** model/MatchEvent: a match with its seat counters. The ticket price
    (a BigDecimal that takes part in no decision) and the audit timestamps
    are not part of this model; dates are instants as integers. */
module MatchModel {

  datatype MatchStatus = UPCOMING | ONGOING | COMPLETED | CANCELLED

  datatype MatchEvent = MatchEvent(
    id: int,
    matchName: string,
    matchDate: int,
    venue: string,
    teamA: string,
    teamB: string,
    totalCapacity: int,
    availableTickets: int,
    status: MatchStatus)

  /** The seat-counter invariant every match keeps:
      0 <= availableTickets <= totalCapacity. */
  predicate SeatsConsistent(m: MatchEvent) {
    0 <= m.availableTickets <= m.totalCapacity
  }

  /** The seven-argument constructor: every seat is free, the match is
      upcoming, and the id is Java's default 0 until the row is stored. */
  function NewMatchEvent(matchName: string, matchDate: int, venue: string,
                         teamA: string, teamB: string, totalCapacity: int): (m: MatchEvent)
    ensures m.availableTickets == m.totalCapacity == totalCapacity
    ensures m.status == UPCOMING
    ensures m.matchName == matchName && m.teamA == teamA && m.teamB == teamB && m.venue == venue
    ensures 0 <= totalCapacity ==> SeatsConsistent(m)
  {
    MatchEvent(0, matchName, matchDate, venue, teamA, teamB, totalCapacity, totalCapacity, UPCOMING)
  }

  /** getMatchDisplay: the two team names joined by " vs ". */
  function MatchDisplay(m: MatchEvent): (r: string)
    ensures |r| == |m.teamA| + 4 + |m.teamB|
    ensures r[..|m.teamA|] == m.teamA && r[|r| - |m.teamB|..] == m.teamB
    ensures r[|m.teamA|..|m.teamA| + 4] == " vs "
  {
    m.teamA + " vs " + m.teamB
  }

  /** toString: the match name, " - ", then the display. */
  function MatchToString(m: MatchEvent): (r: string)
    ensures |m.matchName| <= |r| && r[..|m.matchName|] == m.matchName
    ensures r[|m.matchName|..] == " - " + MatchDisplay(m)
  {
    m.matchName + " - " + MatchDisplay(m)
  }

  /** setAvailableTickets stores its argument without any range check and
      leaves every other field as it was. */
  function SetAvailableTickets(m: MatchEvent, availableTickets: int): (r: MatchEvent)
    ensures r.availableTickets == availableTickets
    ensures r.(availableTickets := m.availableTickets) == m
  {
    m.(availableTickets := availableTickets)
  }
}
