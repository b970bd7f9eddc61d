/** The RDE (pharmacy encoded order) view of src/lib.rs, module `rde`. */
module Rde {
  import opened Wrappers
  import opened Text
  import opened Hl7

  datatype MedicationOrder = MedicationOrder(
    rxId: string,
    medicationId: string,
    medicationName: Option<string>,
    strength: Option<string>,
    form: Option<string>,
    dosage: Option<string>,
    frequency: Option<string>,
    quantity: Option<string>,
    route: Option<string>,
    startDate: Option<string>,
    stopDate: Option<string>)

  datatype RdeMessage = RdeMessage(
    messageType: string,
    patientId: string,
    orderControl: Option<string>,
    orderNumber: Option<string>,
    medicationOrders: seq<MedicationOrder>)

  /** The order identifier `format!("RX{}", i + 1)` of the order at position `i`. */
  function RxId(i: nat): (r: string)
    ensures |r| >= 3 && r[..2] == "RX" && IsDigits(r[2..]) && DecimalValue(r[2..]) == i + 1
  {
    var r := "RX" + NatToString(i + 1);
    assert r[2..] == NatToString(i + 1);
    DecimalRoundTrip(i + 1);
    r
  }

  /** Component 0 of field `field` of the first ORC segment, if any. */
  function OrcValue(message: Message, field: nat): (r: Option<string>)
    ensures GetSegments(message, "ORC") == [] ==> r.None?
    ensures GetSegments(message, "ORC") != [] ==> r == ComponentValue(GetSegments(message, "ORC")[0], field, 0)
  {
    match GetSegment(message, "ORC")
    case None => None
    case Some(orc) => ComponentValue(orc, field, 0)
  }

  /**
   * `o` is the order at position `i` built from the RXE segment `rxe` and the
   * RXR segment at the same position among the RXR segments, if there is one.
   */
  predicate DescribesOrder(o: MedicationOrder, i: nat, rxe: Segment, rxr: Option<Segment>) {
    && o.rxId == RxId(i)
    && o.medicationId == ComponentValue(rxe, 0, 0).GetOr("UNKNOWN")
    && o.medicationName == ComponentValue(rxe, 0, 1)
    && o.strength == ComponentValue(rxe, 2, 0)
    && o.form == ComponentValue(rxe, 4, 0)
    && o.dosage == ComponentValue(rxe, 9, 0)
    && o.frequency == ComponentValue(rxe, 5, 0)
    && o.quantity == ComponentValue(rxe, 9, 0)
    && o.route == (match rxr case None => None case Some(s) => ComponentValue(s, 2, 0))
    && o.startDate == ComponentValue(rxe, 19, 0)
    && o.stopDate == ComponentValue(rxe, 20, 0)
  }

  /** The RXR segment at position `i` among the message's RXR segments. */
  function RxrAt(message: Message, i: nat): (r: Option<Segment>)
    ensures r.Some? <==> i < |GetSegments(message, "RXR")|
    ensures r.Some? ==> r.value.name == "RXR" && r.value in message.segments
  {
    var rxr := GetSegments(message, "RXR");
    assert i < |rxr| ==> rxr[i] in rxr;
    if i < |rxr| then Some(rxr[i]) else None
  }

  /**
   * `RdeMessage::from_hl7`: one order per RXE segment, in message order;
   * only the message type and the patient identifier can make it fail.
   */
  method FromHl7(message: Message) returns (r: Result<RdeMessage, HL7Error>)
    ensures !IsRde(message) ==> r == Err(InvalidStructure("Not an RDE message"))
    ensures IsRde(message) && PatientId(message).Err? ==> r == Err(PatientId(message).error)
    ensures r.Ok? <==> IsRde(message) && PatientId(message).Ok?
    ensures r.Ok? ==>
      var rxe := GetSegments(message, "RXE");
      && r.value.messageType == message.messageType
      && r.value.patientId == PatientId(message).value
      && r.value.orderControl == OrcValue(message, 0)
      && r.value.orderNumber == OrcValue(message, 1)
      && |r.value.medicationOrders| == |rxe|
      && forall k :: 0 <= k < |rxe| ==> DescribesOrder(r.value.medicationOrders[k], k, rxe[k], RxrAt(message, k))
  {
    if !IsRde(message) {
      return Err(InvalidStructure("Not an RDE message"));
    }
    var messageType := message.messageType;
    var patientId := PatientId(message);
    if patientId.Err? {
      return Err(patientId.error);
    }
    var orc := GetSegment(message, "ORC");
    var orderControl := if orc.Some? then ComponentValue(orc.value, 0, 0) else None;
    var orderNumber := if orc.Some? then ComponentValue(orc.value, 1, 0) else None;
    var rxeSegments := GetSegments(message, "RXE");
    var medicationOrders: seq<MedicationOrder> := [];
    for i := 0 to |rxeSegments|
      invariant |medicationOrders| == i
      invariant forall k :: 0 <= k < i ==> DescribesOrder(medicationOrders[k], k, rxeSegments[k], RxrAt(message, k))
    {
      var rxe := rxeSegments[i];
      var rxId := "RX" + NatToString(i + 1);
      var medicationId := ComponentValue(rxe, 0, 0).GetOr("UNKNOWN");
      var medicationName := ComponentValue(rxe, 0, 1);
      var strength := ComponentValue(rxe, 2, 0);
      var form := ComponentValue(rxe, 4, 0);
      var dosage := ComponentValue(rxe, 9, 0);
      var frequency := ComponentValue(rxe, 5, 0);
      var quantity := ComponentValue(rxe, 9, 0);
      var rxrSegments := GetSegments(message, "RXR");
      var rxr := if i < |rxrSegments| then Some(rxrSegments[i]) else None;
      var route := if rxr.Some? then ComponentValue(rxr.value, 2, 0) else None;
      var startDate := ComponentValue(rxe, 19, 0);
      var stopDate := ComponentValue(rxe, 20, 0);
      var order := MedicationOrder(rxId, medicationId, medicationName, strength, form,
                                   dosage, frequency, quantity, route, startDate, stopDate);
      assert DescribesOrder(order, i, rxe, RxrAt(message, i));
      medicationOrders := medicationOrders + [order];
    }
    return Ok(RdeMessage(messageType, patientId.value, orderControl, orderNumber, medicationOrders));
  }

  /** Orders at different positions get different identifiers. */
  lemma RxIdsDistinct(i: nat, j: nat)
    requires i != j
    ensures RxId(i) != RxId(j)
  {
    NatToStringInjective(i + 1, j + 1);
    assert RxId(i)[2..] == NatToString(i + 1);
    assert RxId(j)[2..] == NatToString(j + 1);
  }

  /** Dosage and quantity are read from the same field, so they always agree. */
  lemma DosageIsQuantity(o: MedicationOrder, i: nat, rxe: Segment, rxr: Option<Segment>)
    requires DescribesOrder(o, i, rxe, rxr)
    ensures o.dosage == o.quantity
  {
  }
}
