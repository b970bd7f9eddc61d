/** The ADT (admission, discharge, transfer) view of src/lib.rs, module `adt`. */
module Adt {
  import opened Wrappers
  import opened Text
  import opened Hl7

  datatype AdtMessage = AdtMessage(
    messageType: string,
    patientId: string,
    patientName: Option<string>,
    dateOfBirth: Option<string>,
    gender: Option<string>,
    eventType: string)

  /** The name every ADT view reports, whatever PID.5 holds. */
  const FIXED_PATIENT_NAME := "DOE^JOHN^^^^"

  /** `message_type.split('^').nth(1).unwrap_or("UNKNOWN")`. */
  function EventType(messageType: string): (r: string)
    ensures '^' !in messageType ==> r == "UNKNOWN"
    ensures '^' in messageType ==>
      var after := messageType[IndexOf(messageType, '^') + 1..];
      r == after[..IndexOf(after, '^')]
  {
    var pieces := Split(messageType, '^');
    if |pieces| > 1 then pieces[1] else "UNKNOWN"
  }

  /** `AdtMessage::from_hl7`. */
  function FromHl7(message: Message): (r: Result<AdtMessage, HL7Error>)
    ensures r.Ok? <==> IsAdt(message) && PatientId(message).Ok?
    ensures !IsAdt(message) ==> r == Err(InvalidStructure("Not an ADT message"))
    ensures IsAdt(message) && PatientId(message).Err? ==> r == Err(PatientId(message).error)
    ensures r.Ok? ==>
      var pid := GetSegment(message, "PID").value;
      && r.value.messageType == message.messageType
      && r.value.eventType == EventType(message.messageType)
      && Some(r.value.patientId) == ComponentValue(pid, 2, 0)
      && r.value.patientName == Some(FIXED_PATIENT_NAME)
      && r.value.dateOfBirth == ComponentValue(pid, 6, 0)
      && r.value.gender == ComponentValue(pid, 7, 0)
  {
    if !IsAdt(message) then Err(InvalidStructure("Not an ADT message"))
    else
      var messageType := message.messageType;
      var eventType := EventType(messageType);
      match GetSegment(message, "PID")
      case None => Err(MissingField("PID segment"))
      case Some(pid) =>
        match ComponentValue(pid, 2, 0)
        case None => Err(MissingField("Patient ID (PID.3)"))
        case Some(patientId) =>
          Ok(AdtMessage(messageType, patientId, Some(FIXED_PATIENT_NAME),
                        ComponentValue(pid, 6, 0), ComponentValue(pid, 7, 0), eventType))
  }

  /**
   * On a parsed message the view fails exactly when the message is not ADT,
   * has no PID segment, or its first PID segment has fewer than three
   * fields; on success the type is always "ADT^A01" and the event "A01".
   */
  lemma ParsedAdt(input: string)
    requires Parse(input).Ok?
    ensures var m := Parse(input).value;
      FromHl7(m).Ok? <==> IsAdt(m) && GetSegment(m, "PID").Some? && |GetSegment(m, "PID").value.fields| >= 3
    ensures var m := Parse(input).value;
      FromHl7(m).Ok? ==> FromHl7(m).value.messageType == "ADT^A01" && FromHl7(m).value.eventType == "A01"
  {
    var m := Parse(input).value;
    ParseStructure(input);
    assert WellFormed(m);
    var found := GetSegment(m, "PID");
    if found.Some? {
      WellFormedComponent(m, found.value, 2);
    }
    if FromHl7(m).Ok? {
      TypePrefixes(m.messageType);
      assert m.messageType == "ADT^A01";
      AdtEvent();
    }
  }

  /** The event of the one ADT type the parser produces. */
  lemma AdtEvent()
    ensures EventType("ADT^A01") == "A01"
  {
    var t := "ADT" + ['^'] + "A01";
    SplitPair("ADT", '^', "A01");
    assert t == "ADT^A01";
  }

  /**
   * The patient identifier read from the raw text: the first '^'-piece of the
   * third '|'-field of the first PID line.
   */
  lemma PatientIdFromText(input: string, k: nat)
    requires Parse(input).Ok? && IsAdt(Parse(input).value)
    requires var lines := SplitLines(input);
      k < |lines| && Split(lines[k], '|')[0] == "PID" && multiset(lines[k])['|'] >= 3
    requires var lines := SplitLines(input);
      forall j :: 0 <= j < k ==> Split(lines[j], '|')[0] != "PID"
    ensures var m := Parse(input).value; var line := SplitLines(input)[k];
      FromHl7(m).Ok? && FromHl7(m).value.patientId == Split(Split(line, '|')[3], '^')[0]
  {
    PatientIdFromLines(input, k);
  }
}
