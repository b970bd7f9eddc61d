/**
 * The acknowledgments of src/mllp.rs and the reply `handle_connection` sends
 * for one received frame, with the clock given as a timestamp parameter.
 */
module MllpServer {
  import opened Wrappers
  import opened Text
  import opened Utf8
  import opened Hl7
  import opened Mllp

  /** What `Local::now().format("%Y%m%d%H%M%S")` produces: fourteen digits. */
  predicate IsTimestamp(now: string) {
    |now| == 14 && IsDigits(now)
  }

  /**
   * The fields of the MSH line of an acknowledgment with message control
   * identifier `controlId`: field 6 is the timestamp, field 9 the identifier.
   */
  function AckHeaderFields(now: string, controlId: string): (f: seq<string>)
    ensures |f| == 12 && f[0] == "MSH" && f[6] == now && f[8] == "ACK" && f[9] == controlId && f[11] == "2.5"
  {
    ["MSH", "^~\\&", "RECEIVING_APP", "RECEIVING_FACILITY", "SENDING_APP", "SENDING_FACILITY",
     now, "", "ACK", controlId, "P", "2.5"]
  }

  /**
   * The MSH line of an acknowledgment: its fields joined by `|`. When the
   * clock reading and the identifier are field text, it is one line and
   * splitting it at `|` gives back its fields.
   */
  function AckHeader(now: string, controlId: string): (r: string)
    ensures FieldText(now) && FieldText(controlId) ==>
      '\n' !in r && Split(r, '|') == AckHeaderFields(now, controlId)
  {
    var f := AckHeaderFields(now, controlId);
    if FieldText(now) && FieldText(controlId) then
      assert forall k :: 0 <= k < |f| ==> '|' !in f[k] && '\n' !in f[k];
      JoinAvoids(f, "|", '\n');
      SplitJoin(f, '|');
      Join(f, "|")
    else Join(f, "|")
  }

  /**
   * The MSA line: acknowledgment code, control identifier, text. Its first
   * three `|`-fields are MSA, the code and the identifier, and it ends with
   * the text.
   */
  function MsaLine(code: string, controlId: string, text: string): (r: string)
    ensures FieldText(code) && FieldText(controlId) ==>
      var f := Split(r, '|');
      |f| >= 3 && f[0] == "MSA" && f[1] == code && f[2] == controlId
    ensures |text| <= |r| && r[|r| - |text|..] == text
  {
    var r := "MSA" + "|" + code + "|" + controlId + "|" + text;
    assert r == "MSA" + ['|'] + (code + ['|'] + (controlId + ['|'] + text));
    assert r[|r| - |text|..] == text;
    if FieldText(code) && FieldText(controlId) then
      assert '|' !in "MSA";
      SplitThree("MSA", code, controlId, text, '|');
      r
    else r
  }

  /**
   * `generate_response`: a fixed positive acknowledgment; the message itself
   * is not read. With a clock reading that is field text, it carries code AA
   * in MSA.1 and control identifier MSG00001 in MSA.2 and MSH.10, and ends
   * with the MSA text "Message processed successfully".
   */
  function GenerateResponse(message: Message, now: string): (r: string)
    ensures FieldText(now) ==>
      var f := MsaFields(r);
      |f| >= 3 && f[0] == "MSA" && f[1] == "AA" && f[2] == "MSG00001" && ControlId(r) == "MSG00001"
    ensures EndsWith(r, "Message processed successfully")
  {
    var r := AckMessage(now, "MSG00001", "AA", "Message processed successfully");
    if FieldText(now) then
      LiteralsAreFieldText();
      r
    else r
  }

  lemma LiteralsAreFieldText()
    ensures FieldText("MSG00001") && FieldText("AA") && FieldText("AE")
  {
  }

  /**
   * An acknowledgment: its MSH line, then its MSA line. It ends with the MSA
   * text. With field text in the header, it has at least two "\r\n"-separated
   * lines and the first is the header, so MSH.10 is the control identifier;
   * with a code that is field text too, its MSA fields start with MSA, the
   * code and the control identifier.
   */
  function AckMessage(now: string, controlId: string, code: string, text: string): (r: string)
    ensures EndsWith(r, text)
    ensures FieldText(now) && FieldText(controlId) ==>
      && |SplitCrlf(r)| >= 2 && SplitCrlf(r)[0] == AckHeader(now, controlId)
      && ControlId(r) == controlId
    ensures FieldText(now) && FieldText(controlId) && FieldText(code) ==>
      var f := MsaFields(r);
      |f| >= 3 && f[0] == "MSA" && f[1] == code && f[2] == controlId
  {
    var h := AckHeader(now, controlId);
    var m := MsaLine(code, controlId, text);
    EndsWithConcat(h + "\r\n", "MSA" + "|" + code + "|" + controlId + "|", text);
    if FieldText(now) && FieldText(controlId) then
      SplitCrlfCons(h, m);
      AckControlId(now, controlId, m);
      if FieldText(code) then
        MsaOf(h, code, controlId, text);
        h + "\r\n" + m
      else h + "\r\n" + m
    else h + "\r\n" + m
  }

  /**
   * `original_message.lines().next()`: the text up to the first line feed,
   * without a carriage return just before it; None for the empty text.
   */
  function FirstLine(s: string): (r: Option<string>)
    ensures r.None? <==> s == []
    ensures r.Some? ==> '\n' !in r.value && StartsWith(s, r.value)
    ensures s != [] && '\n' !in s ==> r == Some(s)
    ensures '\n' in s ==>
      var line := s[..IndexOf(s, '\n')];
      r == Some(if |line| > 0 && line[|line| - 1] == '\r' then line[..|line| - 1] else line)
  {
    if s == [] then None
    else
      var i := IndexOf(s, '\n');
      if i < |s| && i > 0 && s[i - 1] == '\r' then
        assert s[..i - 1] == s[..i][..i - 1];
        Some(s[..i - 1])
      else
        assert i < |s| ==> s[i] in s;
        assert i == |s| ==> s[..i] == s;
        Some(s[..i])
  }

  /** Field 9 (MSH.10) of the first line, or "UNKNOWN". */
  function ControlId(message: string): (r: string)
    ensures '\n' !in r && '|' !in r
  {
    match FirstLine(message)
    case None => "UNKNOWN"
    case Some(line) =>
      var fields := Split(line, '|');
      if |fields| > 9 then
        SplitFree(line, '|', '\n', 9);
        fields[9]
      else "UNKNOWN"
  }

  /** The pieces of a split keep the absence of any other character. */
  lemma SplitFree(s: string, c: char, x: char, k: nat)
    requires x !in s && k < |Split(s, c)|
    ensures x !in Split(s, c)[k]
  {
    JoinSplit(s, c);
    JoinKeeps(Split(s, c), [c], k, x);
  }

  lemma {:induction false} JoinKeeps(pieces: seq<string>, sep: string, k: nat, x: char)
    requires k < |pieces| && x !in Join(pieces, sep)
    ensures x !in pieces[k]
  {
    if |pieces| > 1 {
      assert Join(pieces, sep) == pieces[0] + sep + Join(pieces[1..], sep);
      if k > 0 {
        JoinKeeps(pieces[1..], sep, k - 1, x);
      }
    }
  }

  /**
   * `generate_nack`: a negative acknowledgment. With a clock reading that is
   * field text, it carries code AE in MSA.1, echoes the original message's
   * control identifier in MSA.2 and MSH.10, and ends with the error text.
   */
  function GenerateNack(original: string, errorMsg: string, now: string): (r: string)
    ensures FieldText(now) ==>
      var f := MsaFields(r);
      && |f| >= 3 && f[0] == "MSA" && f[1] == "AE" && f[2] == ControlId(original)
      && ControlId(r) == ControlId(original)
    ensures EndsWith(r, "Error processing message: " + errorMsg)
  {
    var controlId := ControlId(original);
    var r := AckMessage(now, controlId, "AE", "Error processing message: " + errorMsg);
    if FieldText(now) then
      LiteralsAreFieldText();
      r
    else r
  }

  /**
   * The reply text to a received message. With a clock reading that is field
   * text, it is an AA acknowledgment exactly when the message parses and the
   * handler accepts it; otherwise it is the AE for the parse error, else for
   * the handler's error, and it echoes the message's control identifier.
   */
  function Reply(text: string, handler: Message -> Result<Message, HL7Error>, now: string): (r: string)
    ensures FieldText(now) ==>
      var f := MsaFields(r);
      && |f| >= 3 && f[0] == "MSA"
      && (f[1] == "AA" <==> ReplyError(text, handler).None?)
      && (ReplyError(text, handler).None? ==> f[2] == "MSG00001" && ControlId(r) == "MSG00001")
      && (ReplyError(text, handler).Some? ==>
            f[1] == "AE" && f[2] == ControlId(text) && ControlId(r) == ControlId(text))
    ensures ReplyError(text, handler).None? ==> EndsWith(r, "Message processed successfully")
    ensures ReplyError(text, handler).Some? ==>
      EndsWith(r, "Error processing message: " + ReplyError(text, handler).value.ToString())
  {
    match Parse(text)
    case Err(e) => GenerateNack(text, e.ToString(), now)
    case Ok(m) =>
      match handler(m)
      case Ok(response) => GenerateResponse(response, now)
      case Err(e) => GenerateNack(text, e.ToString(), now)
  }

  /**
   * The error a reply reports: none exactly when the text parses and the
   * handler accepts the message; the parse error when parsing fails, and the
   * handler's error when only the handler fails.
   */
  function ReplyError(text: string, handler: Message -> Result<Message, HL7Error>): (r: Option<HL7Error>)
    ensures r.None? <==> Parse(text).Ok? && handler(Parse(text).value).Ok?
    ensures Parse(text).Err? ==> r == Some(Parse(text).error)
    ensures Parse(text).Ok? && handler(Parse(text).value).Err? ==> r == Some(handler(Parse(text).value).error)
  {
    match Parse(text)
    case Err(e) => Some(e)
    case Ok(m) =>
      match handler(m)
      case Ok(_) => None
      case Err(e) => Some(e)
  }

  /**
   * The bytes sent back for one frame's payload: nothing when the payload is
   * the UTF-8 form of no text, and otherwise the framed reply to the text it
   * is the UTF-8 form of.
   */
  function HandleFrame(payload: seq<byte>, handler: Message -> Result<Message, HL7Error>, now: string): (r: Option<seq<byte>>)
    ensures r.None? <==> forall text :: payload != Utf8.Encode(text)
    ensures forall text :: payload == Utf8.Encode(text) ==> r == Some(Frame(Utf8.Encode(Reply(text, handler, now))))
  {
    DecodeInverse(payload);
    match Utf8.Decode(payload)
    case None => None
    case Some(text) => Some(Frame(Utf8.Encode(Reply(text, handler, now))))
  }

  // Properties of the acknowledgments.

  /** Text that a header field may hold: no field separator and no line feed. */
  predicate FieldText(s: string) {
    '|' !in s && '\n' !in s
  }

  lemma TimestampIsFieldText(now: string)
    requires IsTimestamp(now)
    ensures FieldText(now)
  {
    assert forall k :: 0 <= k < |now| ==> now[k] != '|' && now[k] != '\n';
  }

  /** The first line of an acknowledgment is its header, and field 9 of it is the control identifier. */
  lemma AckControlId(now: string, controlId: string, tail: string)
    requires FieldText(now) && FieldText(controlId)
    ensures ControlId(AckHeader(now, controlId) + "\r\n" + tail) == controlId
  {
    FirstLineBeforeCrlf(AckHeader(now, controlId), tail);
  }

  /** The first line of text with a line ending after `h` is `h`. */
  lemma FirstLineBeforeCrlf(h: string, tail: string)
    requires '\n' !in h
    ensures FirstLine(h + "\r\n" + tail) == Some(h)
  {
    var s := h + "\r\n" + tail;
    var i := IndexOf(s, '\n');
    assert s[|h|] == '\r' && s[|h| + 1] == '\n';
    assert forall k :: 0 <= k < |h| ==> s[k] == h[k];
    assert i == |h| + 1;
    assert s[..i - 1] == h;
  }

  /** The fields of the MSA line (the second line) of a reply. */
  function MsaFields(reply: string): seq<string> {
    var lines := SplitCrlf(reply);
    if |lines| >= 2 then Split(lines[1], '|') else []
  }

  /** The MSA line of an acknowledgment starts with the segment name, the code and the control identifier. */
  lemma MsaOf(header: string, code: string, controlId: string, tail: string)
    requires '\n' !in header && FieldText(code) && FieldText(controlId)
    ensures var f := MsaFields(header + "\r\n" + MsaLine(code, controlId, tail));
      |f| >= 3 && f[0] == "MSA" && f[1] == code && f[2] == controlId
  {
    var a := "MSA" + "|" + code + "|" + controlId + "|";
    assert MsaLine(code, controlId, tail) == a + tail;
    SecondLine(header, a, tail);
    var t0 := SplitCrlf(tail)[0];
    assert a + t0 == MsaLine(code, controlId, t0);
  }

  /** The second line of a two-line text whose second line starts with `a`, free of line ends. */
  lemma SecondLine(header: string, a: string, tail: string)
    requires '\n' !in header && '\n' !in a && |a| > 0 && a[|a| - 1] != '\r'
    ensures |SplitCrlf(header + "\r\n" + (a + tail))| >= 2
    ensures SplitCrlf(header + "\r\n" + (a + tail))[1] == a + SplitCrlf(tail)[0]
  {
    SplitCrlfCons(header, a + tail);
    SplitCrlfHead(a, tail);
  }

  /** The first three pieces of a text that starts with three separated pieces free of the separator. */
  lemma SplitThree(a: string, b: string, c: string, t: string, sep: char)
    requires sep !in a && sep !in b && sep !in c
    ensures var f := Split(a + [sep] + (b + [sep] + (c + [sep] + t)), sep);
      |f| >= 3 && f[0] == a && f[1] == b && f[2] == c
  {
    var t2 := c + [sep] + t;
    var t1 := b + [sep] + t2;
    SplitCons(c, sep, t);
    SplitCons(b, sep, t2);
    SplitCons(a, sep, t1);
  }

  lemma EndsWithConcat(a: string, p: string, t: string)
    ensures EndsWith(a + (p + t), t)
  {
    assert a + (p + t) == (a + p) + t;
    assert ((a + p) + t)[|a + p|..] == t;
  }

  predicate EndsWith(s: string, suffix: string) {
    |suffix| <= |s| && s[|s| - |suffix|..] == suffix
  }

  // The framing of replies.

  /** No control character 0x1C is directly followed by a carriage return. */
  predicate FrameSafe(text: string) {
    forall i :: 0 <= i < |text| - 1 ==> !(text[i] == '\U{1C}' && text[i + 1] == '\r')
  }

  /** The UTF-8 form of such text holds no MLLP end sequence. */
  lemma {:induction false} FrameSafeEncoding(text: string)
    requires FrameSafe(text)
    ensures !HasEndMarker(Utf8.Encode(text))
    decreases |text|
  {
    if text != [] {
      var e := EncodeChar(text[0]);
      var t := Utf8.Encode(text[1..]);
      var b := Utf8.Encode(text);
      assert b == e + t;
      assert FrameSafe(text[1..]) by {
        forall i | 0 <= i < |text[1..]| - 1 ensures !(text[1..][i] == '\U{1C}' && text[1..][i + 1] == '\r') {
          assert text[1..][i] == text[i + 1] && text[1..][i + 1] == text[i + 2];
        }
      }
      FrameSafeEncoding(text[1..]);
      forall j: nat | j < |b| ensures !EndAt(b, j) {
        if j >= |e| {
          assert EndAt(b, j) ==> EndAt(t, j - |e|);
        } else if text[0] as int >= 0x80 {
          assert b[j] == e[j];
        }
      }
    }
  }
}
