# Gate access decisions of the Mondial 2030 ticketing app, in Dafny

This project models the gate access-decision engine of the JavaFX World Cup
2030 ticketing application (`ma.mondial2030`) and the pieces it depends on,
and proves properties of the model. It also covers four smaller
self-contained cores that live beside the engine.

The engine is `AccessControlService.processQRCodeAccess`, an ordered rule
chain over the presented QR text:

1. empty input;
2. unknown ticket;
3. ticket not VALID;
4. match mismatch;
5. grant.

Every path appends exactly one entry to the access log. Only the grant path
moves a ticket from VALID to USED.

The engine depends on:
- the QR payload format (`QRCodeGenerator.generateTicketQRData`) and its
  parser (`QRCodeReader.parseTicketQRData`);
- ticket purchase and validation in `TicketService`;
- the `Ticket` and `MatchEvent` records;
- the DAO semantics it relies on.

The database is an immutable `Store` value (`persistence.dfy`). It holds:
- tickets keyed by their unique code;
- matches, gate devices and users keyed by id, and roles keyed by name;
- the append-only access log, as a sequence;
- the auto-increment counters that hand out ticket and user ids.

Every operation is a pure function from a store to a result and a new store.

The four smaller cores are:
- the supporter self-check (`BiometricService`, and the decisions of
  `BiometricController.handleVerifyAccess` and `showTicketDialog`);
- login and registration (`AuthenticationService`, `UserService`), with the
  static session user made an explicit `Session` value;
- the date window of `Accreditation.isValid`;
- the integer luminance arithmetic of `BufferedImageLuminanceSource`.

Java semantics are written out where they matter:
- `String.trim` strips every char `<= ' '`.
- `String.split(":")` drops trailing empty fields. `JavaText.JavaSplit` models
  this, and `QRCode.JavaSplitIrrelevant` proves that the drop never changes
  the parse.
- `Integer.parseInt` accepts an optional sign, ASCII digits and the int32
  range.
- `%d` prints decimal ASCII digits.
- `(byte)` narrowing is two's complement.
- Java `int` pixels are `bv32`.
- A Java `null` is `Option.None`, and a thrown exception is `Result.Err`.

Nondeterministic inputs are parameters:
- the clock (`now`, `millis`, `today`);
- the top 32 bits of the random UUID (`uuidHigh`);
- whether the database accepts an insert;
- BCrypt's `hashPassword` and `verifyPassword`.

Files:
- `wrappers.dfy`: the `Option` and `Result` types.
- `java_text.dfy`: Java string helpers.
- `qr_code.dfy`: the QR payload, generated and parsed.
- `match_event.dfy`: the `MatchEvent` record.
- `ticket.dfy`: the `Ticket` record.
- `access_log.dfy`: the `AccessLog`, `GateDevice`, `User` and `Role` records.
- `persistence.dfy`: the store and the DAO operations.
- `ticket_service.dfy`: `TicketService`.
- `access_control.dfy`: the engine.
- `access_properties.dfy`: properties that relate several engine calls.
- `biometric.dfy`: the supporter self-check.
- `auth.dfy`: login and registration.
- `accreditation.dfy`: accreditation validity.
- `luminance.dfy`: the luminance source.

## Model

Paths in the source column are relative to the repository root.

| member | source | states |
|---|---|---|
| JavaText.Trim | src/main/java/ma/mondial2030/service/AccessControlService.java:31 | `trim()` leaves no char <= ' ' at either end and returns a text unchanged when both its ends are kept chars |
| JavaText.TrimEmptyIffBlank | src/main/java/ma/mondial2030/service/AccessControlService.java:31 | `trim().isEmpty()` holds iff every char of the text is at most ' ' |
| JavaText.TrimIsInfix | src/main/java/ma/mondial2030/service/AccessControlService.java:49 | the trimmed text is a contiguous piece of the original, and every char cut off before or after it is <= ' ' |
| JavaText.Split | src/main/java/ma/mondial2030/util/QRCodeReader.java:51 | the full field list of `split(":")` before trailing empty fields are dropped: at least one field, and no field contains ':' |
| JavaText.SplitLength | src/main/java/ma/mondial2030/util/QRCodeReader.java:51-52 | before trailing empty fields are dropped, a text splits into one more field than it has ':' |
| JavaText.SplitAppend | src/main/java/ma/mondial2030/util/QRCodeReader.java:51 | splitting a ++ ':' ++ b gives the fields of a followed by the fields of b |
| JavaText.JavaSplit | src/main/java/ma/mondial2030/util/QRCodeReader.java:51 | `split(":")` is the full field list with only its trailing empty fields removed; a text without ':' is its one field |
| JavaText.ParseInt | src/main/java/ma/mondial2030/util/QRCodeReader.java:54-55 | parseInt accepts exactly an optional '+' or '-' followed by at least one digit whose signed value is an int32 (leading zeros allowed), and then yields that value |
| JavaText.IntToString | src/main/java/ma/mondial2030/util/QRCodeGenerator.java:65 | `%d` prints a leading '-' iff the number is negative, then the digits of its magnitude without leading zeros ("0" for zero) |
| JavaText.ParseIntToString | src/main/java/ma/mondial2030/util/QRCodeReader.java:54-55 | parseInt reads back every int32 that `%d` printed |
| QRCode.GenerateTicketQRData | src/main/java/ma/mondial2030/util/QRCodeGenerator.java:64-66 | the generated payload always starts with "TICKET:", so the reader's prefix test passes |
| QRCode.GeneratedIsSixFields | src/main/java/ma/mondial2030/util/QRCodeGenerator.java:65 | the format string is the six ':'-joined fields TICKET, code, USER, decimal user id, MATCH, decimal match id |
| QRCode.GeneratedFields | src/main/java/ma/mondial2030/util/QRCodeGenerator.java:65 | for a code without ':', splitting the payload at ':' gives exactly those six fields |
| QRCode.FromFields | src/main/java/ma/mondial2030/util/QRCodeReader.java:51-57 | a result exists iff there are at least six fields and fields 3 and 5 parse as ints; it is then (field 1, int of field 3, int of field 5) |
| QRCode.ParseTicketQRData | src/main/java/ma/mondial2030/util/QRCodeReader.java:45-62 | a result needs a non-null payload that starts with "TICKET:"; its ids are int32 values; fewer than six fields give null; for any "TICKET:" payload the result is field 1 with parseInt of fields 3 and 5, null when either is rejected |
| QRCode.JavaSplitIrrelevant | src/main/java/ma/mondial2030/util/QRCodeReader.java:51-52 | Java's dropping of trailing empty fields never changes the parse result |
| QRCode.SixFieldsSplit | src/main/java/ma/mondial2030/util/QRCodeReader.java:51 | six ':'-free fields joined by ':' split back into exactly those six fields |
| QRCode.ParseGenerated | src/main/java/ma/mondial2030/util/QRCodeReader.java:51-56 | round trip: parsing the generated payload of a ':'-free code and two int32 ids returns exactly (code, user id, match id) |
| QRCode.LabelsAndTailIgnored | src/main/java/ma/mondial2030/util/QRCodeReader.java:52-56 | fields 2 and 4 may hold any label and anything after a sixth field is ignored; the parse result is the same |
| QRCode.BadNumberRejected | src/main/java/ma/mondial2030/util/QRCodeReader.java:50-61 | a field 3 or 5 that parseInt rejects makes the whole payload unreadable (null, no exception) |
| QRCode.SpacedNumberRejected | src/main/java/ma/mondial2030/util/QRCodeReader.java:54-55 | a number with a space before or after it is not an int to parseInt |
| TicketModel.NewTicket | src/main/java/ma/mondial2030/model/Ticket.java:24-31 | the four-argument constructor yields a VALID ticket with the given code, user, match and seat, and no QR payload |
| TicketModel.IsValid | src/main/java/ma/mondial2030/model/Ticket.java:98-100 | a ticket is valid iff its status is none of USED, CANCELLED and EXPIRED |
| TicketModel.SetStatus | src/main/java/ma/mondial2030/model/Ticket.java:94-96 | setStatus changes the status field and nothing else; the result is valid iff the new status is VALID |
| TicketModel.TicketToString | src/main/java/ma/mondial2030/model/Ticket.java:103-105 | toString is the code, then " - ", then the match display or "N/A" when the match is null |
| MatchModel.NewMatchEvent | src/main/java/ma/mondial2030/model/MatchEvent.java:29-40 | the full constructor sets every seat free (available == total capacity) and status UPCOMING, so the seat invariant holds for a non-negative capacity |
| MatchModel.MatchDisplay | src/main/java/ma/mondial2030/model/MatchEvent.java:139-141 | the display is team A, then " vs ", then team B |
| MatchModel.MatchToString | src/main/java/ma/mondial2030/model/MatchEvent.java:144-146 | toString is the match name, " - ", then the display |
| MatchModel.SetAvailableTickets | src/main/java/ma/mondial2030/model/MatchEvent.java:103-105 | the counter is stored without a range check and no other field changes |
| Persistence.FindTicketByCode | src/main/java/ma/mondial2030/dao/TicketDAO.java:46-61 | findByCode finds a ticket iff one is stored under that code, and in a well-formed store it carries that code |
| Persistence.UpdateTicketStatus | src/main/java/ma/mondial2030/dao/TicketDAO.java:181-194 | updateStatus overwrites the status of the rows with that id and leaves every other row, field and table alone |
| Persistence.UpdateStatusOfOneTicket | src/main/java/ma/mondial2030/dao/TicketDAO.java:181-194 | with distinct ids, updating by a ticket's id changes exactly that ticket's status |
| Persistence.UpdateAvailableTickets | src/main/java/ma/mondial2030/dao/MatchEventDAO.java:116-129 | updateAvailableTickets overwrites one match's counter; an unknown id updates nothing |
| Persistence.InsertTicket | src/main/java/ma/mondial2030/dao/TicketDAO.java:151-176 | create fails, changing nothing, iff the database refuses the insert or the code is taken; otherwise the row gets the next auto-increment id |
| Persistence.InsertTicketWellFormed | src/main/java/ma/mondial2030/dao/TicketDAO.java:151-176 | an insert keeps ticket codes as keys and ticket ids distinct |
| Persistence.AppendLog | src/main/java/ma/mondial2030/dao/AccessLogDAO.java:27-68 | create appends exactly the given entry and changes nothing else |
| TicketService.GenerateTicketCode | src/main/java/ma/mondial2030/service/TicketService.java:98-102 | the code is "TKT-", the 14-digit timestamp of the clock, "-", then 8 upper-case hex chars (27 chars), so it contains no ':' |
| TicketService.TicketCodeTimestamp | src/main/java/ma/mondial2030/service/TicketService.java:99-101 | the fourteen digits after "TKT-" read back as the year, month, day, hour, minute and second of the purchase clock |
| TicketService.FixedDigitsValue | src/main/java/ma/mondial2030/service/TicketService.java:99 | a zero-padded timestamp field reads back as the number it prints |
| TicketService.PurchaseTicket | src/main/java/ma/mondial2030/service/TicketService.java:28-65 | an unknown match, no seat left or a failed insert returns null and writes nothing; a found match with a seat left, an accepted insert and a free code always yields a ticket; that ticket has the generated code and the next auto-increment id, is VALID, carries the user, match, seat, purchase date and the generated payload, that match's counter becomes the value read minus one with its other columns kept, and users, roles, devices, the log and the user-id counter are unchanged |
| TicketService.PurchasePreservesInvariants | src/main/java/ma/mondial2030/service/TicketService.java:35-59 | a purchase keeps the store well formed and 0 <= available <= total for every match |
| TicketService.PurchasedPayloadParses | src/main/java/ma/mondial2030/service/TicketService.java:53-54 | the QR payload stored with a purchased ticket parses back to that ticket's code, its owner and its match |
| TicketService.SoldOutStaysSoldOut | src/main/java/ma/mondial2030/service/TicketService.java:35-38 | buying for a match with no seat left creates nothing and leaves its counter at zero |
| TicketService.ValidateTicket | src/main/java/ma/mondial2030/service/TicketService.java:77-93 | returns true iff a ticket with that code exists and is VALID; false writes nothing; true marks exactly that ticket USED |
| TicketService.ValidatePreservesWellFormed | src/main/java/ma/mondial2030/service/TicketService.java:77-93 | validation keeps the store well formed |
| TicketService.ValidateTwice | src/main/java/ma/mondial2030/service/TicketService.java:84-90 | a second validation of the same code always returns false |
| AccessControl.ResolveCredential | src/main/java/ma/mondial2030/service/AccessControlService.java:41-56 | a match id is expected iff the untrimmed text parses; the code is then the parsed field 1, else the trimmed text, whichever "TKT-" branch runs |
| AccessControl.GateDeviceRef | src/main/java/ma/mondial2030/service/AccessControlService.java:100-103 | a gate is named iff its id is positive and the device lookup finds it |
| AccessControl.LogAccess | src/main/java/ma/mondial2030/service/AccessControlService.java:93-111 | exactly one entry is appended, holding the given type, result and reason; it stores the user's, the ticket's and the looked-up device's ids, and a NULL exactly when that reference is absent |
| AccessControl.DecideTicket | src/main/java/ma/mondial2030/service/AccessControlService.java:66-87 | for a found ticket: not VALID is denied and logged as "Ticket invalide ou déjà utilisé", a differing loaded match is denied and logged as "Ticket ne correspond pas au match", otherwise it is granted and, in a well-formed store, becomes USED; the entry names the ticket and its owner |
| AccessControl.ProcessQRCodeAccess | src/main/java/ma/mondial2030/service/AccessControlService.java:30-88 | one TICKET entry per call; answer and entry agree; a denial always has a reason and changes no ticket; the logged gate is the requested device id when that device exists and NULL otherwise; the messages, logged reasons and logged references of each of the five rules, in order |
| AccessControlProperties.GateDoesNotDecide | src/main/java/ma/mondial2030/service/AccessControlService.java:30-88 | the answer and the tickets after the call do not depend on the gate id |
| AccessControlProperties.GrantedValidationSucceeds | src/main/java/ma/mondial2030/service/AccessControlService.java:83 | at the grant step the ignored validateTicket call always returns true |
| AccessControlProperties.ProcessPreservesWellFormed | src/main/java/ma/mondial2030/service/AccessControlService.java:30-88 | the engine keeps the store well formed |
| AccessControlProperties.ReplayAfterGrantDenied | src/main/java/ma/mondial2030/service/AccessControlService.java:67-71 | presenting the same text again after a grant, at any gate, is denied as "Ticket invalide ou déjà utilisé" and changes no ticket |
| AccessControlProperties.Run | src/main/java/ma/mondial2030/service/AccessControlService.java:30-88 | a run of attempts appends one entry per attempt and keeps the earlier log |
| AccessControlProperties.StepConservesAdmissions | src/main/java/ma/mondial2030/service/AccessControlService.java:66-87 | one call either adds a GRANTED entry for a ticket and stops it being VALID, or changes neither |
| AccessControlProperties.AtMostOneAdmission | src/main/java/ma/mondial2030/service/AccessControlService.java:66-87 | over any run of attempts a ticket is admitted at most once, and never if it was not VALID when the run began |
| AccessControlProperties.GeneratedPayloadAdmitted | src/main/java/ma/mondial2030/service/AccessControlService.java:41-87 | the payload of a VALID ticket bound to the match it names is granted, the ticket becomes USED and a GRANTED entry names it |
| AccessControlProperties.GeneratedPayloadWrongMatch | src/main/java/ma/mondial2030/service/AccessControlService.java:74-80 | the payload of a VALID ticket bound to another existing match is denied at the match rule and the ticket stays VALID |
| AccessControlProperties.BareCodeSkipsMatchCheck | src/main/java/ma/mondial2030/service/AccessControlService.java:46-56 | a bare code carries no match id, so a VALID ticket presented by its code is granted whatever match it belongs to |
| Biometric.HasValidTicket | src/main/java/ma/mondial2030/service/BiometricService.java:68-71 | hasValidTicket holds iff some ticket in the list is VALID (false for an empty list) |
| Biometric.HasValidTicketInStore | src/main/java/ma/mondial2030/service/BiometricService.java:68-71 | read through findByUserId, hasValidTicket holds iff the store has a VALID ticket of that user |
| Biometric.GenerateUserQRCode | src/main/java/ma/mondial2030/service/BiometricService.java:58-63 | the user QR text starts "USER:" followed by the user id and never parses as a ticket payload |
| Biometric.UserQRCodeNamesUser | src/main/java/ma/mondial2030/service/BiometricService.java:60-61 | the user QR text splits into exactly USER, the user id, BIOMETRIC, ENABLED, TIMESTAMP and the clock reading, and its second field reads back as the user id |
| Biometric.UserQRCodeIsSixFields | src/main/java/ma/mondial2030/service/BiometricService.java:60-61 | the format string is the six ':'-joined fields USER, decimal user id, BIOMETRIC, ENABLED, TIMESTAMP, decimal millis |
| Biometric.FirstValidTicket | src/main/java/ma/mondial2030/controller/BiometricController.java:238-242 | the pick is the first VALID ticket of the list, and null iff the list has none |
| Biometric.FirstValidIsNewest | src/main/java/ma/mondial2030/controller/BiometricController.java:238-248 | on a newest-first listing, the shown ticket is a stored VALID ticket of the user bought no earlier than any other VALID one |
| Biometric.HandleGenerateQR | src/main/java/ma/mondial2030/controller/BiometricController.java:177-196 | the current user never changes; without a user the stored QR text stays as it was; with one, a QR text naming that user is stored, and it is never a ticket payload |
| Biometric.HandleVerifyAccess | src/main/java/ma/mondial2030/controller/BiometricController.java:198-248 | nothing happens without a user; access is granted iff ticket, QR code and biometric flag all hold; a grant always shows a VALID ticket, so the "no ticket" warning cannot follow a grant |
| Biometric.QRCodeFlagMeansGenerated | src/main/java/ma/mondial2030/controller/BiometricController.java:185-207 | hasQRCode is true exactly when handleGenerateQR ran earlier on this controller while a user was set |
| Authentication.UsernameLookupFinds | src/main/java/ma/mondial2030/dao/UserDAO.java:44-59 | findByUsername finds a user iff the username is taken |
| Authentication.UsernameLookupDetermined | src/main/java/ma/mondial2030/dao/UserDAO.java:44-59 | with unique usernames, findByUsername has one possible answer |
| Authentication.Login | src/main/java/ma/mondial2030/service/AuthenticationService.java:21-48 | in order: blank username, empty password, unknown user, inactive account, wrong password, each with its message; a failure leaves the session alone; success sets it to the returned user |
| Authentication.UnknownUserLooksLikeWrongPassword | src/main/java/ma/mondial2030/service/AuthenticationService.java:30-43 | an unknown username and a wrong password produce the identical message |
| Authentication.InactiveRefusedBeforePassword | src/main/java/ma/mondial2030/service/AuthenticationService.java:35-43 | an inactive account is refused with "Ce compte est désactivé" whatever the password check would say |
| Authentication.IsLoggedIn | src/main/java/ma/mondial2030/service/AuthenticationService.java:70-72 | logged in exactly when the session is not the empty one |
| Authentication.HasRole | src/main/java/ma/mondial2030/service/AuthenticationService.java:77-82 | a role test succeeds only for a logged-in user who has a role |
| Authentication.IsStaff | src/main/java/ma/mondial2030/service/AuthenticationService.java:88-90 | a staff session is logged in and is never a supporter session; LoginGrantsOwnRole gives the converse for a user whose role is STAFF |
| Authentication.IsSupporter | src/main/java/ma/mondial2030/service/AuthenticationService.java:95-97 | a supporter session is logged in and is never a staff session; LoginGrantsOwnRole gives the converse for a user whose role is SUPPORTER |
| Authentication.Logout | src/main/java/ma/mondial2030/service/AuthenticationService.java:53-58 | after logout nobody is logged in |
| Authentication.LogoutClearsRoles | src/main/java/ma/mondial2030/service/AuthenticationService.java:53-82 | after logout isLoggedIn is false and hasRole is false for every role |
| Authentication.StaffAndSupporterExclusive | src/main/java/ma/mondial2030/service/AuthenticationService.java:88-97 | isStaff and isSupporter are never both true |
| Authentication.HasRoleImpliesLoggedIn | src/main/java/ma/mondial2030/service/AuthenticationService.java:77-82 | hasRole is false without a logged-in user |
| Authentication.LoginGrantsOwnRole | src/main/java/ma/mondial2030/service/AuthenticationService.java:45-82 | after a successful login, hasRole(r) holds iff the returned user's role is named r, isStaff iff it is STAFF and isSupporter iff it is SUPPORTER |
| Authentication.RegisterUser | src/main/java/ma/mondial2030/service/UserService.java:24-60 | a taken username, then a taken email, then an unknown role each return false and add nothing; an empty password then throws from the hasher and adds nothing; success adds one active user with the found role and the hashed password under the next id |
| Authentication.RegisterPreservesWellFormed | src/main/java/ma/mondial2030/service/UserService.java:27-55 | registration keeps usernames and emails unique and the store well formed |
| Authentication.RegisteredUserCanLogIn | src/main/java/ma/mondial2030/service/UserService.java:45-55 | a user just registered logs in with that username and password when the hash check accepts the password |
| AccreditationModel.IsValid | src/main/java/ma/mondial2030/model/Accreditation.java:112-117 | the two strict comparisons one day out mean: valid iff ACTIVE and validFrom <= today <= validUntil, both ends included |
| AccreditationModel.OnlyActiveIsValid | src/main/java/ma/mondial2030/model/Accreditation.java:114 | never valid unless the status is ACTIVE |
| AccreditationModel.ValidOnBothEnds | src/main/java/ma/mondial2030/model/Accreditation.java:115-116 | an ACTIVE pass is valid on its first and on its last day |
| AccreditationModel.InvalidJustOutside | src/main/java/ma/mondial2030/model/Accreditation.java:115-116 | it is invalid on the day before validFrom and the day after validUntil |
| AccreditationModel.InvertedWindowNeverValid | src/main/java/ma/mondial2030/model/Accreditation.java:112-117 | when validFrom > validUntil it is never valid |
| Luminance.PixelLuminance | src/main/java/ma/mondial2030/util/BufferedImageLuminanceSource.java:33-35 | the luminance lies in 0..255 and is the weighted channel sum divided by 1024, rounded down |
| Luminance.ToByte | src/main/java/ma/mondial2030/util/BufferedImageLuminanceSource.java:36 | the byte cast keeps the value modulo 256 |
| Luminance.ToByteUnsigned | src/main/java/ma/mondial2030/util/BufferedImageLuminanceSource.java:36 | for a luminance 0..255 the byte read as unsigned is the luminance again |
| Luminance.GreyPixel | src/main/java/ma/mondial2030/util/BufferedImageLuminanceSource.java:33-35 | a grey pixel r = g = b = v has luminance exactly v, whatever its alpha |
| Luminance.AlphaIgnored | src/main/java/ma/mondial2030/util/BufferedImageLuminanceSource.java:33-35 | replacing the alpha byte never changes the luminance |
| Luminance.NewSource | src/main/java/ma/mondial2030/util/BufferedImageLuminanceSource.java:14-19 | the pixel buffer has width * height entries and row y of it is row y of the image |
| Luminance.GetRow | src/main/java/ma/mondial2030/util/BufferedImageLuminanceSource.java:22-39 | an error iff y is outside 0..height-1, its message ending in y; a buffer at least width long is reused with its bytes from width on kept, otherwise exactly width bytes are allocated; bytes 0..width-1 are row y's luminance |
| Luminance.GetMatrix | src/main/java/ma/mondial2030/util/BufferedImageLuminanceSource.java:42-57 | the matrix has width * height bytes, holds every pixel's luminance byte, and its slice for row y equals what getRow(y) writes |
| Luminance.LuminanceRows | src/main/java/ma/mondial2030/util/BufferedImageLuminanceSource.java:45-56 | the row-y slice of the whole luminance buffer is the luminance of row y |

## Left out

- JavaFX UI: the controllers and `MainApp` are not modelled. The only
  exceptions are the two `BiometricController` decisions above. Their
  guards are not needed as preconditions:
  - `ScanController` trims the input and rejects empty input; the engine
    handles both cases itself.
  - `RegisterController` requires a password of at least 6 characters.
    `Authentication.RegisterUser` models the service without that guard,
    so an empty password reaches the hasher and fails there.
  - `TicketsController` filters out cancelled and sold-out matches.
- JDBC and SQL:
  - The DAOs are functions over the `Store`.
  - `DatabaseConnection` is not part of this model.
  - A swallowed `SQLException` appears only as the `accepted` or
    `insertAccepted` flag of an insert.
  - A failing read, update or log insert is not modelled: those
    operations are total.
- Concurrency: the model is sequential. The non-atomic read-then-update of
  the ticket status and of the seat counter is therefore not modelled.
- ZXing image work is not modelled: QR image rendering and scanning, and
  `BufferedImageLuminanceSource.crop`, which delegates to a base class that
  is not part of this model.
- BCrypt is not modelled. `PasswordHasher`, `SimpleHashGenerator`,
  `GeneratePasswordHash` and `FixAllPasswords` are replaced by the
  `hashPassword` and `verify` parameters.
- The simulated biometric embeddings and the biometric DAO are not
  modelled. Enrolment is the boolean `hasBiometric`.
- slf4j logging, the exception classes and the BigDecimal ticket price are
  left out; none of them takes part in a decision.
- The log entry's own id and timestamp, which the database fills in, are
  left out. The other timestamps (`createdAt`, `updatedAt`) are left out
  too.
- `model/User.java` and `model/Role.java` are not part of this model. Their
  fields are taken from `UserDAO` and `RoleDAO`.
- `TicketDAO.findByUserId` is not computed. Its result is a caller-supplied
  sequence that `Persistence.IsUserListing` characterises: every ticket of
  the user, each once, newest purchase first. `Biometric.HasValidTicket` and
  `Biometric.FirstValidTicket` take that sequence.
- `Authentication.Login` takes the result of `findByUsername` as the
  `found` parameter. `Authentication.IsUsernameLookup` characterises it.
- `AccreditationModel.IsValid`: dates are plain day numbers. The
  `LocalDate` range limits are not modelled, and neither is a null date or
  null status.
- `TicketService.PurchaseTicket`:
  - It requires a clock reading with a year from 1 to 9999 and in-range
    time fields.
  - It requires a UUID prefix below 2^32.
  - With those limits the timestamp prints as 14 digits; years outside them
    are not modelled.
- `TicketService.GenerateTicketCode` has the same clock and UUID limits as
  `PurchaseTicket`.
- Authentication.RegisterUser: takes non-null strings, so a null username,
  email, password or role name is not modelled. The exception that
  `PasswordHasher.hashPassword` throws on an empty password
  (`security/PasswordHasher.java:18-19`) is the `Err` result, which leaves
  the store unchanged.
- `Luminance.NewSource`: the 32-bit overflow of `width * height` in the
  constructor is not modelled. Neither is the overflow of `y * width` in
  `getRow` and `getMatrix`. The model's integers are unbounded.
- `JavaText.ParseInt` accepts ASCII digits only. Java's `parseInt` also
  accepts other Unicode decimal digits.
- `%d` is assumed to print ASCII digits, as in a Latin-digit locale.
