/** The ORU (observation result) view of src/lib.rs, module `oru`. */
module Oru {
  import opened Wrappers
  import opened Hl7

  datatype Observation = Observation(
    testId: string,
    testName: Option<string>,
    value: Option<string>,
    units: Option<string>,
    referenceRange: Option<string>,
    abnormalFlags: Option<string>)

  datatype OruMessage = OruMessage(messageType: string, patientId: string, observations: seq<Observation>)

  /** `o` holds the OBX.3.1, OBX.3.2, OBX.5, OBX.6, OBX.7 and OBX.8 values of `obx`. */
  predicate Describes(o: Observation, obx: Segment) {
    && Some(o.testId) == ComponentValue(obx, 2, 0)
    && o.testName == ComponentValue(obx, 2, 1)
    && o.value == ComponentValue(obx, 4, 0)
    && o.units == ComponentValue(obx, 5, 0)
    && o.referenceRange == ComponentValue(obx, 6, 0)
    && o.abnormalFlags == ComponentValue(obx, 7, 0)
  }

  /** Every OBX segment has a test identifier (OBX.3, first component). */
  predicate AllHaveTestId(obxSegments: seq<Segment>) {
    forall k :: 0 <= k < |obxSegments| ==> ComponentValue(obxSegments[k], 2, 0).Some?
  }

  /**
   * `OruMessage::from_hl7`: one observation per OBX segment, in message order;
   * the first OBX without a test identifier aborts the view.
   */
  method FromHl7(message: Message) returns (r: Result<OruMessage, HL7Error>)
    ensures !IsOru(message) ==> r == Err(InvalidStructure("Not an ORU message"))
    ensures IsOru(message) && PatientId(message).Err? ==> r == Err(PatientId(message).error)
    ensures IsOru(message) && PatientId(message).Ok? && !AllHaveTestId(GetSegments(message, "OBX")) ==>
      r == Err(MissingField("Test ID (OBX.3)"))
    ensures r.Ok? <==> IsOru(message) && PatientId(message).Ok? && AllHaveTestId(GetSegments(message, "OBX"))
    ensures r.Ok? ==>
      var obx := GetSegments(message, "OBX");
      && r.value.messageType == message.messageType
      && r.value.patientId == PatientId(message).value
      && |r.value.observations| == |obx|
      && forall k :: 0 <= k < |obx| ==> Describes(r.value.observations[k], obx[k])
  {
    if !IsOru(message) {
      return Err(InvalidStructure("Not an ORU message"));
    }
    var messageType := message.messageType;
    var patientId := PatientId(message);
    if patientId.Err? {
      return Err(patientId.error);
    }
    var obxSegments := GetSegments(message, "OBX");
    var observations: seq<Observation> := [];
    for k := 0 to |obxSegments|
      invariant |observations| == k
      invariant forall j :: 0 <= j < k ==> ComponentValue(obxSegments[j], 2, 0).Some?
      invariant forall j :: 0 <= j < k ==> Describes(observations[j], obxSegments[j])
    {
      var obx := obxSegments[k];
      var testId := ComponentValue(obx, 2, 0);
      if testId.None? {
        return Err(MissingField("Test ID (OBX.3)"));
      }
      var testName := ComponentValue(obx, 2, 1);
      var value := ComponentValue(obx, 4, 0);
      var units := ComponentValue(obx, 5, 0);
      var referenceRange := ComponentValue(obx, 6, 0);
      var abnormalFlags := ComponentValue(obx, 7, 0);
      observations := observations + [Observation(testId.value, testName, value, units, referenceRange, abnormalFlags)];
    }
    return Ok(OruMessage(messageType, patientId.value, observations));
  }

  /** On a parsed message, the OBX condition is that every OBX segment has at least three fields. */
  lemma ParsedObx(input: string)
    requires Parse(input).Ok?
    ensures var obx := GetSegments(Parse(input).value, "OBX");
      AllHaveTestId(obx) <==> forall k :: 0 <= k < |obx| ==> |obx[k].fields| >= 3
  {
    var m := Parse(input).value;
    var obx := GetSegments(m, "OBX");
    ParseStructure(input);
    FilterSegmentsMembers(m.segments, "OBX");
    forall k | 0 <= k < |obx| ensures ComponentValue(obx[k], 2, 0).Some? <==> |obx[k].fields| >= 3 {
      assert obx[k] in obx;
      WellFormedComponent(m, obx[k], 2);
    }
  }
}
