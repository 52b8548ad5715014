/** model/Accreditation: a media, staff, VIP or security pass, valid while
    ACTIVE and within its date window. Dates are day numbers (any epoch),
    and the `LocalDate.now()` the source reads is the parameter `today`. */
module AccreditationModel {

  datatype AccreditationType = MEDIA | STAFF | VIP | SECURITY

  datatype Status = ACTIVE | EXPIRED | REVOKED

  datatype Accreditation = Accreditation(
    id: int,
    userId: int,
    accreditationType: AccreditationType,
    validFrom: int,
    validUntil: int,
    accessLevels: string,
    status: Status)

  /** isValid: `now.isAfter(validFrom.minusDays(1)) &&
      now.isBefore(validUntil.plusDays(1))` on an ACTIVE pass. The two
      strict comparisons one day out make both ends of the window
      inclusive: the window is the closed interval [validFrom, validUntil]. */
  predicate IsValid(a: Accreditation, today: int)
    ensures IsValid(a, today) <==> a.status == ACTIVE && a.validFrom <= today <= a.validUntil
  {
    a.status == ACTIVE && today > a.validFrom - 1 && today < a.validUntil + 1
  }

  /** Never valid unless ACTIVE, whatever the day. */
  lemma OnlyActiveIsValid(a: Accreditation, today: int)
    requires a.status != ACTIVE
    ensures !IsValid(a, today)
  {
  }

  /** Both ends of the window are valid days of an ACTIVE pass whose window
      is not inverted. */
  lemma ValidOnBothEnds(a: Accreditation)
    requires a.status == ACTIVE && a.validFrom <= a.validUntil
    ensures IsValid(a, a.validFrom) && IsValid(a, a.validUntil)
  {
  }

  /** The day before the window and the day after it are not valid. */
  lemma InvalidJustOutside(a: Accreditation)
    ensures !IsValid(a, a.validFrom - 1) && !IsValid(a, a.validUntil + 1)
  {
  }

  /** A window that ends before it starts admits no day. */
  lemma InvertedWindowNeverValid(a: Accreditation, today: int)
    requires a.validFrom > a.validUntil
    ensures !IsValid(a, today)
  {
  }
}
