/** The ticket QR payload: the text QRCodeGenerator.generateTicketQRData
    writes and QRCodeReader.parseTicketQRData reads back. The image side
    (rendering and scanning) is not part of this model. */
module QRCode {
  import opened Wrappers
  import opened JavaText

  /** QRCodeReader.TicketQRData. */
  datatype TicketQRData = TicketQRData(ticketCode: string, userId: int, matchEventId: int)

  const TICKET_PREFIX: string := "TICKET:"

  /** String.format("TICKET:%s:USER:%d:MATCH:%d", code, userId, matchEventId). */
  function GenerateTicketQRData(ticketCode: string, userId: int, matchEventId: int): (r: string)
    ensures StartsWith(r, TICKET_PREFIX)
  {
    TICKET_PREFIX + ticketCode + ":USER:" + IntToString(userId) + ":MATCH:" + IntToString(matchEventId)
  }

  /** The decision parseTicketQRData takes once the payload is cut into
      fields: at least six of them, fields 3 and 5 integers; field 1 is the
      code, and fields 0, 2, 4 and any beyond 5 are not looked at. */
  function FromFields(parts: seq<string>): (r: Option<TicketQRData>)
    ensures r.Some? <==> |parts| >= 6 && ParseInt(parts[3]).Some? && ParseInt(parts[5]).Some?
    ensures r.Some? ==>
              && r.value.ticketCode == parts[1]
              && Some(r.value.userId) == ParseInt(parts[3])
              && Some(r.value.matchEventId) == ParseInt(parts[5])
  {
    if |parts| >= 6 then
      match (ParseInt(parts[3]), ParseInt(parts[5]))
      case (Some(userId), Some(matchEventId)) => Some(TicketQRData(parts[1], userId, matchEventId))
      case _ => None
    else None
  }

  /** QRCodeReader.parseTicketQRData: null, a payload not starting with
      "TICKET:", too few fields or a NumberFormatException all give null. */
  function ParseTicketQRData(qrData: Option<string>): (r: Option<TicketQRData>)
    ensures r.Some? ==> qrData.Some? && StartsWith(qrData.value, TICKET_PREFIX)
    ensures r.Some? ==> InInt32(r.value.userId) && InInt32(r.value.matchEventId)
    ensures qrData.Some? && |Split(qrData.value, ':')| < 6 ==> r.None?
    ensures qrData.Some? && StartsWith(qrData.value, TICKET_PREFIX) ==> r == FromFields(Split(qrData.value, ':'))
  {
    if qrData.None? || !StartsWith(qrData.value, TICKET_PREFIX) then None
    else
      JavaSplitIrrelevant(qrData.value);
      FromFields(JavaSplit(qrData.value, ':'))
  }

  /** Java's split drops trailing empty fields, but that never changes the
      outcome: when dropping leaves fewer than six fields, field 5 was empty
      and Integer.parseInt rejects it anyway. */
  lemma JavaSplitIrrelevant(s: string)
    ensures FromFields(JavaSplit(s, ':')) == FromFields(Split(s, ':'))
  {
    var all := Split(s, ':');
    var kept := JavaSplit(s, ':');
    if |kept| < 6 && |all| >= 6 {
      assert all[5] == "";
      assert ParseInt(all[5]) == None;
    }
  }

  /** A field followed by ':' and the rest of the payload. */
  function Field(f: string, rest: string): string {
    f + [':'] + rest
  }

  /** A payload of six fields with the given text in each; the labels at
      positions 0, 2 and 4 are written here as parameters. */
  function SixFields(f0: string, f1: string, f2: string, f3: string, f4: string, f5: string): string {
    Field(f0, Field(f1, Field(f2, Field(f3, Field(f4, f5)))))
  }

  /** Splitting at the first ':' of a payload peels off one field. */
  lemma SplitField(f: string, rest: string)
    requires ':' !in f
    ensures Split(Field(f, rest), ':') == [f] + Split(rest, ':')
  {
    SplitAppend(f, ':', rest);
    SplitNoSeparator(f, ':');
  }

  lemma SixFieldsSplit(f0: string, f1: string, f2: string, f3: string, f4: string, f5: string)
    requires ':' !in f0 && ':' !in f1 && ':' !in f2 && ':' !in f3 && ':' !in f4 && ':' !in f5
    ensures Split(SixFields(f0, f1, f2, f3, f4, f5), ':') == [f0, f1, f2, f3, f4, f5]
  {
    var r4 := Field(f4, f5);
    var r3 := Field(f3, r4);
    var r2 := Field(f2, r3);
    var r1 := Field(f1, r2);
    assert Split(r4, ':') == [f4, f5] by {
      SplitNoSeparator(f5, ':');
      SplitField(f4, f5);
    }
    assert Split(r3, ':') == [f3, f4, f5] by {
      SplitField(f3, r4);
    }
    assert Split(r2, ':') == [f2, f3, f4, f5] by {
      SplitField(f2, r3);
    }
    assert Split(r1, ':') == [f1, f2, f3, f4, f5] by {
      SplitField(f1, r2);
    }
    SplitField(f0, r1);
  }

  /** Fields after the sixth are not looked at. */
  lemma FromFieldsIgnoresTail(parts: seq<string>, tail: seq<string>)
    requires |parts| >= 6
    ensures FromFields(parts + tail) == FromFields(parts)
  {
    assert (parts + tail)[1] == parts[1] && (parts + tail)[3] == parts[3] && (parts + tail)[5] == parts[5];
  }

  /** The generator's format string is the six-field payload with the labels
      TICKET, USER and MATCH. */
  lemma GeneratedIsSixFields(ticketCode: string, userId: int, matchEventId: int)
    ensures GenerateTicketQRData(ticketCode, userId, matchEventId)
         == SixFields("TICKET", ticketCode, "USER", IntToString(userId), "MATCH", IntToString(matchEventId))
  {
    var u := IntToString(userId);
    var m := IntToString(matchEventId);
    assert TICKET_PREFIX == "TICKET" + [':'];
    assert ":USER:" == [':'] + "USER" + [':'];
    assert ":MATCH:" == [':'] + "MATCH" + [':'];
    assert GenerateTicketQRData(ticketCode, userId, matchEventId)
        == "TICKET" + [':'] + (ticketCode + [':'] + ("USER" + [':'] + (u + [':'] + ("MATCH" + [':'] + m))));
  }

  /** For a code without ':', the generated payload has exactly six fields:
      the three labels and the three values. */
  lemma GeneratedFields(ticketCode: string, userId: int, matchEventId: int)
    requires ':' !in ticketCode
    ensures Split(GenerateTicketQRData(ticketCode, userId, matchEventId), ':')
         == ["TICKET", ticketCode, "USER", IntToString(userId), "MATCH", IntToString(matchEventId)]
  {
    GeneratedIsSixFields(ticketCode, userId, matchEventId);
    SixFieldsSplit("TICKET", ticketCode, "USER", IntToString(userId), "MATCH", IntToString(matchEventId));
  }

  /** Round trip: the reader recovers exactly the code, user id and match id
      the generator wrote, for every code free of ':' and every pair of ints. */
  lemma ParseGenerated(ticketCode: string, userId: int, matchEventId: int)
    requires ':' !in ticketCode
    requires InInt32(userId) && InInt32(matchEventId)
    ensures ParseTicketQRData(Some(GenerateTicketQRData(ticketCode, userId, matchEventId)))
         == Some(TicketQRData(ticketCode, userId, matchEventId))
  {
    var s := GenerateTicketQRData(ticketCode, userId, matchEventId);
    GeneratedFields(ticketCode, userId, matchEventId);
    JavaSplitIrrelevant(s);
    ParseIntToString(userId);
    ParseIntToString(matchEventId);
  }

  /** The labels "USER" and "MATCH" are never checked and anything after the
      sixth field is ignored: any labels and any ':'-led tail parse the same. */
  lemma LabelsAndTailIgnored(ticketCode: string, label2: string, label4: string,
                             userId: int, matchEventId: int, tail: string)
    requires ':' !in ticketCode && ':' !in label2 && ':' !in label4
    requires InInt32(userId) && InInt32(matchEventId)
    ensures ParseTicketQRData(Some(SixFields("TICKET", ticketCode, label2, IntToString(userId), label4,
                                             IntToString(matchEventId)) + [':'] + tail))
         == Some(TicketQRData(ticketCode, userId, matchEventId))
  {
    var fields := ["TICKET", ticketCode, label2, IntToString(userId), label4, IntToString(matchEventId)];
    var six := SixFields("TICKET", ticketCode, label2, IntToString(userId), label4, IntToString(matchEventId));
    var s := six + [':'] + tail;
    SixFieldsSplit("TICKET", ticketCode, label2, IntToString(userId), label4, IntToString(matchEventId));
    SplitAppend(six, ':', tail);
    assert Split(s, ':') == fields + Split(tail, ':');
    FromFieldsIgnoresTail(fields, Split(tail, ':'));
    ParseIntToString(userId);
    ParseIntToString(matchEventId);
    assert FromFields(fields) == Some(TicketQRData(ticketCode, userId, matchEventId));
    assert s[..|TICKET_PREFIX|] == six[..|TICKET_PREFIX|];
    JavaSplitIrrelevant(s);
  }

  /** A field 3 or 5 that Integer.parseInt rejects (a word, an empty field, a
      number with a space around it, one outside the int range) makes the
      whole payload unreadable; no exception escapes. */
  lemma BadNumberRejected(ticketCode: string, label2: string, f3: string, label4: string, f5: string)
    requires ':' !in ticketCode && ':' !in label2 && ':' !in f3 && ':' !in label4 && ':' !in f5
    requires ParseInt(f3).None? || ParseInt(f5).None?
    ensures ParseTicketQRData(Some(SixFields("TICKET", ticketCode, label2, f3, label4, f5))) == None
  {
    var s := SixFields("TICKET", ticketCode, label2, f3, label4, f5);
    SixFieldsSplit("TICKET", ticketCode, label2, f3, label4, f5);
    JavaSplitIrrelevant(s);
  }

  /** A number with a space on either side is not an int to Integer.parseInt. */
  lemma SpacedNumberRejected(n: int)
    ensures ParseInt(" " + IntToString(n)) == None
    ensures ParseInt(IntToString(n) + " ") == None
  {
    var t := IntToString(n) + " ";
    assert t[|t| - 1] == ' ';
  }
}
