/**
 * The HL7 v2 message model and parser of src/lib.rs: a message is split into
 * lines, each line into a segment name and fields on '|', each field into
 * components on '^', and each component into sub-components on '&'.
 * The delimiters are always the defaults (they are never read from MSH),
 * no escape sequence is decoded and the repetition separator is never used.
 * The message type is chosen by a heuristic over the MSH component values
 * and the version is always "2.5".
 */
module Hl7 {
  import opened Wrappers
  import opened Text

  datatype HL7Error =
    | ParseError(detail: string)
    | InvalidStructure(detail: string)
    | MissingField(detail: string)
  {
    /**
     * The text `e.to_string()` produces for the error (its `#[error]` format):
     * a kind-specific prefix, then the detail.
     */
    function ToString(): (r: string)
      ensures |detail| < |r| && r[|r| - |detail|..] == detail
    {
      match this
      case ParseError(d) => "Parse error: " + d
      case InvalidStructure(d) => "Invalid message structure: " + d
      case MissingField(d) => "Missing required field: " + d
    }
  }

  /** Different errors have different texts, so the NACK text identifies the error. */
  lemma ErrorTextInjective(e1: HL7Error, e2: HL7Error)
    requires e1 != e2
    ensures e1.ToString() != e2.ToString()
  {
    var t1, t2 := e1.ToString(), e2.ToString();
    if e1.ParseError? == e2.ParseError? && e1.InvalidStructure? == e2.InvalidStructure? {
      var n := |t1| - |e1.detail|;
      assert n == |t2| - |e2.detail|;
      assert e1.detail != e2.detail;
      assert t1[n..] == e1.detail && t2[n..] == e2.detail;
    } else {
      assert t1[0] != t2[0];
    }
  }

  datatype Delimiters = Delimiters(field: char, component: char, subcomponent: char, repetition: char, escape: char)

  predicate Distinct(d: Delimiters) {
    && d.field != d.component && d.field != d.subcomponent && d.field != d.repetition && d.field != d.escape
    && d.component != d.subcomponent && d.component != d.repetition && d.component != d.escape
    && d.subcomponent != d.repetition && d.subcomponent != d.escape
    && d.repetition != d.escape
  }

  /** `Delimiters::default()`: the standard five HL7 separators. */
  function DefaultDelimiters(): (d: Delimiters)
    ensures Distinct(d)
  {
    Delimiters('|', '^', '&', '~', '\\')
  }

  datatype Component = Component(value: string, subcomponents: seq<string>)
  datatype Field = Field(components: seq<Component>)
  datatype Segment = Segment(name: string, fields: seq<Field>)
  datatype Message = Message(segments: seq<Segment>, messageType: string, version: string)

  function ComponentValues(f: Field): seq<string> {
    seq(|f.components|, k requires 0 <= k < |f.components| => f.components[k].value)
  }

  // ---------------------------------------------------------------------
  // Parsing

  /** The lines of the input: split on "\r\n" if it occurs anywhere, otherwise on '\n'. */
  function SplitLines(input: string): (lines: seq<string>)
    ensures |lines| >= 1
  {
    if ContainsCrlf(input) then SplitCrlf(input) else Split(input, '\n')
  }

  /** The separator SplitLines splits on. */
  function LineSeparator(input: string): string {
    if ContainsCrlf(input) then "\r\n" else "\n"
  }

  /** `parse_component`: the value is the whole text; sub-components only when '&' occurs. */
  function ParseComponent(input: string, d: Delimiters): (c: Component)
    ensures c.value == input
    ensures c.subcomponents == [] <==> d.subcomponent !in input
    ensures d.subcomponent in input ==> Join(c.subcomponents, [d.subcomponent]) == input
    ensures d.subcomponent in input ==> c.subcomponents == Split(input, d.subcomponent)
  {
    JoinSplit(input, d.subcomponent);
    Component(input, if d.subcomponent in input then Split(input, d.subcomponent) else [])
  }

  /** `parse_field`: one component per '^'-piece of the text. */
  function ParseField(input: string, d: Delimiters): (f: Field)
    ensures |f.components| == |Split(input, d.component)| >= 1
    ensures forall k :: 0 <= k < |f.components| ==> f.components[k] == ParseComponent(Split(input, d.component)[k], d)
    ensures Join(ComponentValues(f), [d.component]) == input
  {
    var pieces := Split(input, d.component);
    var mapped := seq(|pieces|, k requires 0 <= k < |pieces| => ParseComponent(pieces[k], d));
    var components := if d.component in input then mapped else [ParseComponent(input, d)];
    assert d.component !in input ==> pieces == [input];
    assert components == mapped;
    var f := Field(components);
    assert ComponentValues(f) == pieces by {
      forall k | 0 <= k < |pieces| ensures ComponentValues(f)[k] == pieces[k] {
        assert mapped[k].value == pieces[k];
      }
    }
    JoinSplit(input, d.component);
    f
  }

  /** `parse_segment`: the name is the text before the first '|', one field per '|'. */
  function ParseSegment(input: string, d: Delimiters): (r: Result<Segment, HL7Error>)
    ensures r.Ok?
    ensures r.value.name == input[..IndexOf(input, d.field)]
    ensures |r.value.fields| == multiset(input)[d.field]
    ensures forall k :: 0 <= k < |r.value.fields| ==> r.value.fields[k] == ParseField(Split(input, d.field)[k + 1], d)
  {
    var parts := Split(input, d.field);
    if |parts| == 0 then Err(InvalidStructure("Segment has no name"))
    else
      Ok(Segment(parts[0], ParseFields(parts[1..], d)))
  }

  /** One field parsed from each piece. */
  function ParseFields(pieces: seq<string>, d: Delimiters): (fields: seq<Field>)
    ensures |fields| == |pieces|
    ensures forall k :: 0 <= k < |pieces| ==> fields[k] == ParseField(pieces[k], d)
  {
    seq(|pieces|, k requires 0 <= k < |pieces| => ParseField(pieces[k], d))
  }

  /** `lines.iter().map(parse_segment).collect::<Result<Vec<_>, _>>()`: stops at the first error. */
  function ParseSegments(lines: seq<string>, d: Delimiters): (r: Result<seq<Segment>, HL7Error>)
    ensures r.Ok? && |r.value| == |lines|
    ensures forall k :: 0 <= k < |lines| ==> r.value[k] == ParseSegment(lines[k], d).value
  {
    if |lines| == 0 then Ok([])
    else
      match ParseSegment(lines[0], d)
      case Err(e) => Err(e)
      case Ok(segment) =>
        match ParseSegments(lines[1..], d)
        case Err(e) => Err(e)
        case Ok(rest) => Ok([segment] + rest)
  }

  /** Some component of some MSH field has exactly the text `v`. */
  predicate HasComponentValue(msh: Segment, v: string) {
    exists i, j :: 0 <= i < |msh.fields| && 0 <= j < |msh.fields[i].components| && msh.fields[i].components[j].value == v
  }

  /** `extract_message_type`: a heuristic over the component values, never None. */
  function ExtractMessageType(msh: Segment): (r: Option<string>)
    ensures r.Some?
    ensures r.value in {"ADT^A01", "ORU^R01", "RDE^O11", "UNKNOWN"}
    ensures r.value == "ADT^A01" <==> HasComponentValue(msh, "ADT")
    ensures r.value == "ORU^R01" <==> !HasComponentValue(msh, "ADT") && HasComponentValue(msh, "ORU")
    ensures r.value == "RDE^O11" <==> !HasComponentValue(msh, "ADT") && !HasComponentValue(msh, "ORU") && HasComponentValue(msh, "RDE")
  {
    Some(
      if HasComponentValue(msh, "ADT") then "ADT^A01"
      else if HasComponentValue(msh, "ORU") then "ORU^R01"
      else if HasComponentValue(msh, "RDE") then "RDE^O11"
      else "UNKNOWN")
  }

  /** `extract_version`: ignores the segment. */
  function ExtractVersion(msh: Segment): (r: Option<string>)
    ensures r == Some("2.5")
  {
    Some("2.5")
  }

  /** `Message::parse`. */
  function Parse(input: string): (r: Result<Message, HL7Error>)
    ensures r.Ok? <==> StartsWith(SplitLines(input)[0], "MSH")
    ensures r.Err? ==> r.error == InvalidStructure("First segment must be MSH")
    ensures r.Ok? ==> |r.value.segments| == |SplitLines(input)|
    ensures r.Ok? ==> r.value.version == "2.5"
    ensures r.Ok? ==> r.value.messageType == ExtractMessageType(r.value.segments[0]).value
  {
    var lines := SplitLines(input);
    if |lines| == 0 then Err(InvalidStructure("Empty message"))
    else if !StartsWith(lines[0], "MSH") then Err(InvalidStructure("First segment must be MSH"))
    else
      match ParseSegments(lines, DefaultDelimiters())
      case Err(e) => Err(e)
      case Ok(segments) =>
        match ExtractMessageType(segments[0])
        case None => Err(MissingField("Message type (MSH.9)"))
        case Some(messageType) =>
          match ExtractVersion(segments[0])
          case None => Err(MissingField("Version (MSH.12)"))
          case Some(version) => Ok(Message(segments, messageType, version))
  }

  // ---------------------------------------------------------------------
  // Lookups

  /** `segments.iter().find(|s| s.name == name)`. */
  function FindSegment(segments: seq<Segment>, name: string): (r: Option<Segment>)
    ensures r.Some? ==> r.value in segments && r.value.name == name
    ensures r.None? <==> forall k :: 0 <= k < |segments| ==> segments[k].name != name
  {
    if |segments| == 0 then None
    else if segments[0].name == name then Some(segments[0])
    else FindSegment(segments[1..], name)
  }

  /** `segments.iter().filter(|s| s.name == name).collect()`. */
  function FilterSegments(segments: seq<Segment>, name: string): (r: seq<Segment>)
    ensures forall k :: 0 <= k < |r| ==> r[k].name == name
    ensures |r| <= |segments|
  {
    if |segments| == 0 then []
    else if segments[0].name == name then [segments[0]] + FilterSegments(segments[1..], name)
    else FilterSegments(segments[1..], name)
  }

  /** `get_segment`: the first of the segments `get_segments` returns, if any. */
  function GetSegment(m: Message, name: string): (r: Option<Segment>)
    ensures r.None? <==> |GetSegments(m, name)| == 0
    ensures r.Some? ==> r.value == GetSegments(m, name)[0]
  {
    FindIsFirstFiltered(m.segments, name);
    FindSegment(m.segments, name)
  }

  /** `get_segments`: the segments with the name, and only those. */
  function GetSegments(m: Message, name: string): (r: seq<Segment>)
    ensures forall s {:trigger s in r} :: s in r <==> s in m.segments && s.name == name
  {
    FilterSegmentsMembers(m.segments, name);
    FilterSegments(m.segments, name)
  }

  /** `is_adt`; a message of this family is in neither other family. */
  predicate IsAdt(m: Message): (b: bool)
    ensures b ==> !StartsWith(m.messageType, "ORU") && !StartsWith(m.messageType, "RDE")
  {
    PrefixesDiffer(m.messageType, "ADT", "ORU");
    PrefixesDiffer(m.messageType, "ADT", "RDE");
    StartsWith(m.messageType, "ADT")
  }

  /** `is_oru`; a message of this family is in neither other family. */
  predicate IsOru(m: Message): (b: bool)
    ensures b ==> !StartsWith(m.messageType, "ADT") && !StartsWith(m.messageType, "RDE")
  {
    PrefixesDiffer(m.messageType, "ORU", "ADT");
    PrefixesDiffer(m.messageType, "ORU", "RDE");
    StartsWith(m.messageType, "ORU")
  }

  /** `is_rde`; a message of this family is in neither other family. */
  predicate IsRde(m: Message): (b: bool)
    ensures b ==> !StartsWith(m.messageType, "ADT") && !StartsWith(m.messageType, "ORU")
  {
    PrefixesDiffer(m.messageType, "RDE", "ADT");
    PrefixesDiffer(m.messageType, "RDE", "ORU");
    StartsWith(m.messageType, "RDE")
  }

  /** A text never starts with two different prefixes of the same length. */
  lemma PrefixesDiffer(t: string, p: string, q: string)
    requires |p| == |q| && p != q
    ensures !(StartsWith(t, p) && StartsWith(t, q))
  {
  }

  /**
   * `segment.fields.get(field).and_then(|f| f.components.get(component)).map(|c| c.value.clone())`,
   * the positional lookup every typed view is built from (`first()` is component 0).
   */
  function ComponentValue(segment: Segment, field: nat, component: nat): (r: Option<string>)
    ensures r.Some? <==> field < |segment.fields| && component < |segment.fields[field].components|
  {
    if field < |segment.fields| && component < |segment.fields[field].components| then
      Some(segment.fields[field].components[component].value)
    else None
  }

  /** The PID lookup the three views share: PID.3, first component. */
  function PatientId(m: Message): (r: Result<string, HL7Error>)
    ensures r.Err? ==> r.error == MissingField("PID segment") || r.error == MissingField("Patient ID (PID.3)")
    ensures r == Err(MissingField("PID segment")) <==> forall k :: 0 <= k < |m.segments| ==> m.segments[k].name != "PID"
  {
    match GetSegment(m, "PID")
    case None => Err(MissingField("PID segment"))
    case Some(pid) =>
      match ComponentValue(pid, 2, 0)
      case None => Err(MissingField("Patient ID (PID.3)"))
      case Some(id) => Ok(id)
  }

  // ---------------------------------------------------------------------
  // Properties of the parser

  /** Every field holds at least one component: what parsed messages satisfy. */
  ghost predicate WellFormed(m: Message) {
    forall i, j :: 0 <= i < |m.segments| && 0 <= j < |m.segments[i].fields| ==> |m.segments[i].fields[j].components| >= 1
  }

  /**
   * One segment per line, in order; each segment's name is the line's text
   * before the first '|' and it has one field per '|' of the line.
   */
  lemma ParseStructure(input: string)
    requires Parse(input).Ok?
    ensures var m := Parse(input).value; var lines := SplitLines(input);
      && |m.segments| == |lines|
      && (forall k :: 0 <= k < |lines| ==> m.segments[k] == ParseSegment(lines[k], DefaultDelimiters()).value)
      && (forall k :: 0 <= k < |lines| ==> m.segments[k].name == lines[k][..IndexOf(lines[k], '|')])
      && (forall k :: 0 <= k < |lines| ==> |m.segments[k].fields| == multiset(lines[k])['|'])
      && WellFormed(m)
  {
    var m := Parse(input).value;
    var lines := SplitLines(input);
    forall i, j | 0 <= i < |m.segments| && 0 <= j < |m.segments[i].fields|
      ensures |m.segments[i].fields[j].components| >= 1
    {
      assert m.segments[i] == ParseSegment(lines[i], DefaultDelimiters()).value;
    }
  }

  /**
   * The patient identifier read from the raw text. With `k` the first line
   * whose text before the first '|' is "PID", it is the first '^'-piece of
   * the third '|'-field of that line, or the PID.3 error when the line has
   * fewer than three '|'.
   */
  lemma PatientIdFromLines(input: string, k: nat)
    requires Parse(input).Ok?
    requires var lines := SplitLines(input);
      k < |lines| && Split(lines[k], '|')[0] == "PID"
    requires var lines := SplitLines(input);
      forall j :: 0 <= j < k ==> Split(lines[j], '|')[0] != "PID"
    ensures var line := SplitLines(input)[k];
      PatientId(Parse(input).value) ==
        if multiset(line)['|'] >= 3 then Ok(Split(Split(line, '|')[3], '^')[0])
        else Err(MissingField("Patient ID (PID.3)"))
  {
    var m := Parse(input).value;
    var lines := SplitLines(input);
    var d := DefaultDelimiters();
    ParseStructure(input);
    forall j | 0 <= j <= k ensures m.segments[j].name == Split(lines[j], '|')[0] {
      assert m.segments[j] == ParseSegment(lines[j], d).value;
    }
    FindSegmentFirst(m.segments, "PID", k);
    var pid := m.segments[k];
    assert pid == ParseSegment(lines[k], d).value;
    if multiset(lines[k])['|'] >= 3 {
      var field := Split(lines[k], '|')[3];
      assert pid.fields[2] == ParseField(field, d);
      assert pid.fields[2].components[0] == ParseComponent(Split(field, '^')[0], d);
    }
  }

  /** The PID segment is missing exactly when no line's text before the first '|' is "PID". */
  lemma PatientIdNoPidLine(input: string)
    requires Parse(input).Ok?
    ensures var lines := SplitLines(input);
      PatientId(Parse(input).value) == Err(MissingField("PID segment")) <==>
        forall k :: 0 <= k < |lines| ==> Split(lines[k], '|')[0] != "PID"
  {
    var m := Parse(input).value;
    var lines := SplitLines(input);
    ParseStructure(input);
    assert forall k :: 0 <= k < |lines| ==> m.segments[k].name == Split(lines[k], '|')[0];
  }

  // The source has no serializer; these inverse functions state what the
  // parser keeps of its input.

  function SerializeField(f: Field, d: Delimiters): string {
    Join(ComponentValues(f), [d.component])
  }

  function SerializeSegment(s: Segment, d: Delimiters): string {
    Join([s.name] + seq(|s.fields|, k requires 0 <= k < |s.fields| => SerializeField(s.fields[k], d)), [d.field])
  }

  function Serialize(m: Message, lineSeparator: string): string {
    Join(seq(|m.segments|, k requires 0 <= k < |m.segments| => SerializeSegment(m.segments[k], DefaultDelimiters())), lineSeparator)
  }

  /** The serialized pieces of a parsed segment are the pieces of its line. */
  lemma SegmentPieces(line: string, d: Delimiters)
    ensures var segment := ParseSegment(line, d).value;
      [segment.name] + seq(|segment.fields|, k requires 0 <= k < |segment.fields| => SerializeField(segment.fields[k], d))
        == Split(line, d.field)
  {
    var parts := Split(line, d.field);
    var segment := ParseSegment(line, d).value;
    var texts := [segment.name] + seq(|segment.fields|, k requires 0 <= k < |segment.fields| => SerializeField(segment.fields[k], d));
    forall k | 0 <= k < |parts| ensures texts[k] == parts[k] {
      if k > 0 {
        assert segment.fields[k - 1] == ParseField(parts[k], d);
      }
    }
  }

  lemma SegmentRoundTrip(line: string, d: Delimiters)
    ensures SerializeSegment(ParseSegment(line, d).value, d) == line
  {
    SegmentPieces(line, d);
    JoinSplit(line, d.field);
  }

  /** Parsing loses nothing: serializing the parsed message gives back the input. */
  lemma ParseRoundTrip(input: string)
    requires Parse(input).Ok?
    ensures Serialize(Parse(input).value, LineSeparator(input)) == input
  {
    SerializedLines(input);
    if ContainsCrlf(input) {
      JoinSplitCrlf(input);
    } else {
      JoinSplit(input, '\n');
    }
  }

  /** The serialized segments of a parsed message are its lines. */
  lemma SerializedLines(input: string)
    requires Parse(input).Ok?
    ensures var m := Parse(input).value;
      seq(|m.segments|, k requires 0 <= k < |m.segments| => SerializeSegment(m.segments[k], DefaultDelimiters())) == SplitLines(input)
  {
    var m := Parse(input).value;
    var lines := SplitLines(input);
    var texts := seq(|m.segments|, k requires 0 <= k < |m.segments| => SerializeSegment(m.segments[k], DefaultDelimiters()));
    forall k | 0 <= k < |lines| ensures texts[k] == lines[k] {
      SegmentRoundTrip(lines[k], DefaultDelimiters());
    }
  }

  /**
   * The family queries of a parsed message follow the heuristic's priority
   * order, so at most one of them holds.
   */
  lemma ParsedFamily(input: string)
    requires Parse(input).Ok?
    ensures var m := Parse(input).value; var msh := m.segments[0];
      && (IsAdt(m) <==> HasComponentValue(msh, "ADT"))
      && (IsOru(m) <==> !HasComponentValue(msh, "ADT") && HasComponentValue(msh, "ORU"))
      && (IsRde(m) <==> !HasComponentValue(msh, "ADT") && !HasComponentValue(msh, "ORU") && HasComponentValue(msh, "RDE"))
      && (m.messageType == "UNKNOWN" <==> !IsAdt(m) && !IsOru(m) && !IsRde(m))
  {
    TypePrefixes(Parse(input).value.messageType);
  }

  /** Which prefix test each of the four message types passes. */
  lemma TypePrefixes(t: string)
    requires t in {"ADT^A01", "ORU^R01", "RDE^O11", "UNKNOWN"}
    ensures StartsWith(t, "ADT") <==> t == "ADT^A01"
    ensures StartsWith(t, "ORU") <==> t == "ORU^R01"
    ensures StartsWith(t, "RDE") <==> t == "RDE^O11"
  {
    assert "ADT"[0] == 'A' && "ORU"[0] == 'O' && "RDE"[0] == 'R';
    assert t[0] == 'A' <==> t == "ADT^A01";
    assert t[0] == 'O' <==> t == "ORU^R01";
    assert t[0] == 'R' <==> t == "RDE^O11";
    assert t[..3] == "ADT" || t[..3] == "ORU" || t[..3] == "RDE" || t[..3] == "UNK";
  }

  /** get_segment returns the first segment with the name. */
  lemma {:induction false} FindSegmentFirst(segments: seq<Segment>, name: string, k: nat)
    requires k < |segments| && segments[k].name == name
    requires forall j :: 0 <= j < k ==> segments[j].name != name
    ensures FindSegment(segments, name) == Some(segments[k])
  {
    if k > 0 {
      FindSegmentFirst(segments[1..], name, k - 1);
    }
  }

  /** get_segments keeps message order: it distributes over concatenation. */
  lemma {:induction false} FilterSegmentsConcat(a: seq<Segment>, b: seq<Segment>, name: string)
    ensures FilterSegments(a + b, name) == FilterSegments(a, name) + FilterSegments(b, name)
  {
    if |a| > 0 {
      FilterSegmentsConcat(a[1..], b, name);
      assert (a + b)[0] == a[0];
      assert (a + b)[1..] == a[1..] + b;
      var head := if a[0].name == name then [a[0]] else [];
      assert FilterSegments(a + b, name) == head + FilterSegments(a[1..] + b, name);
      assert FilterSegments(a, name) == head + FilterSegments(a[1..], name);
    } else {
      assert a + b == b;
    }
  }

  /** get_segments holds exactly the segments with the name. */
  lemma {:induction false} FilterSegmentsMembers(segments: seq<Segment>, name: string)
    ensures forall s :: s in FilterSegments(segments, name) <==> s in segments && s.name == name
  {
    if |segments| > 0 {
      FilterSegmentsMembers(segments[1..], name);
      assert segments == [segments[0]] + segments[1..];
    }
  }

  /** get_segment is the head of get_segments. */
  lemma {:induction false} FindIsFirstFiltered(segments: seq<Segment>, name: string)
    ensures FindSegment(segments, name) ==
      if |FilterSegments(segments, name)| == 0 then None else Some(FilterSegments(segments, name)[0])
  {
    if |segments| > 0 && segments[0].name != name {
      FindIsFirstFiltered(segments[1..], name);
    }
  }

  /** In a parsed message, the first component of a field exists exactly when the field does. */
  lemma WellFormedComponent(m: Message, segment: Segment, field: nat)
    requires WellFormed(m) && segment in m.segments
    ensures ComponentValue(segment, field, 0).Some? <==> field < |segment.fields|
  {
  }
}
