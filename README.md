# rust-hl7 in Dafny

This project models the core of rust-hl7, a small HL7 v2 library with an MLLP
server. The model covers three parts.

- **The HL7 parser and its typed views** (`src/lib.rs`).
  - A message is split into lines. Each line is a segment: its name, then fields separated by `|`.
  - A field is split into components on `^`, and a component into sub-components on `&`.
  - The message type comes from a heuristic over the MSH component values; the version is always `2.5`.
  - The ADT, ORU and RDE views read fixed positions out of the parsed segments.
- **The MLLP framing** (`src/mllp.rs`).
  - A frame is the byte 0x0B, the payload, then 0x1C 0x0D.
  - `extract_mllp_message` and `MllpCodec::decode` drop the bytes before the first start byte.
  - They hand out the payload of the first complete frame, and reject a buffer that holds no complete frame and is longer than 100 000 bytes once the bytes before the first start byte are dropped.
  - `wrap_in_mllp` and `MllpCodec::encode` add the frame.
- **The server side** (`src/mllp.rs`).
  - The ACK and NACK messages.
  - The reply rule of `handle_connection` for one received frame: not UTF-8 gives no reply; parsed and accepted gives an ACK; otherwise a NACK carrying the error text.
  - Its read loop, over a finite sequence of socket reads.

Modules, one file each:

| module | file | contents |
|---|---|---|
| `Wrappers` | `wrappers.dfy` | `Option` and `Result` |
| `Text` | `text.dfy` | the `str` operations the source relies on: `split` on a char and on `"\r\n"`, `join`, `find`, decimal formatting of `i + 1` |
| `Utf8` | `utf8.dfy` | `str::as_bytes` and `std::str::from_utf8`, as the UTF-8 encoding of RFC 3629 |
| `Hl7` | `hl7.dfy` | the data model, `Message::parse` and its helpers, the segment lookups |
| `Adt`, `Oru`, `Rde` | `adt.dfy`, `oru.dfy`, `rde.dfy` | the three `from_hl7` views |
| `Mllp` | `mllp.dfy` | the framing, including `BytesMut` as the class `ByteBuffer` |
| `MllpServer` | `server.dfy` | the acknowledgments and the per-frame reply rule |
| `MllpConnection` | `connection.dfy` | the read loop of `handle_connection` |

Modelling choices:

- **Specification and implementation.** `Extract` is a pure function on the buffer's contents. `ExtractMllpMessage` performs the source's `split_to` steps on a `ByteBuffer` and is proved equal to `Extract`. `MllpCodec.Decode` has exactly the same body as `extract_mllp_message` in the source, so it calls `ExtractMllpMessage`.
- **The read loop.** `Step` and `Serve` describe the read loop for any reply rule `respond`. `HandleRead` and `HandleConnection` are the loop itself, run on a `ByteBuffer`. They are proved equal to `Step` and `Serve` with the reply rule `FrameResponder(handler)`. Each read carries the clock reading at which a frame it completes is answered, so the replies of one connection can carry different timestamps, as `generate_response` and `generate_nack` read the clock on every call.
- **The views.** The ORU and RDE views build their vectors in a loop, so they are methods with loops. The ADT view is a function.
- **Unreachable branches.** `parse` never fails on a line: `split` always yields at least one piece, so the "Segment has no name" error is unreachable. "Empty message", "Message type (MSH.9)" and "Version (MSH.12)" are unreachable too. The model keeps these branches, as the source does, and `Hl7.Parse`'s contract shows that only "First segment must be MSH" can occur. The "Missing MSH segment" branch (src/lib.rs:88-90) is dropped: `segments.get(0)` always succeeds once the list is non-empty, and the model reads the first line directly. `generate_response` and `generate_nack` always return `Ok`, so they are modelled as plain functions.

## Model

| member | source | states |
|---|---|---|
| Hl7.HL7Error.ToString | src/lib.rs:12-20 | the `#[error]` text of an error ends with its detail |
| Hl7.ErrorTextInjective | src/lib.rs:12-20 | different errors have different texts, so the text a NACK carries identifies the error |
| Hl7.DefaultDelimiters | src/lib.rs:32-42 | the five default delimiters are pairwise distinct |
| Hl7.SplitLines | src/lib.rs:77-81 | the split of the input always yields at least one line |
| Hl7.ParseComponent | src/lib.rs:178-192 | the value is the whole text; sub-components exist exactly when `&` occurs, and then they are the `&`-pieces of the text, none holding `&`, and join back to it |
| Hl7.ParseField | src/lib.rs:164-175 | one component per `^`-piece (a single one without `^`), each parsed from its piece; the component values join back to the field text |
| Hl7.ParseFields | src/lib.rs:154-158 | one field per piece after the name, each the `parse_field` of its piece, in order |
| Hl7.ParseSegment | src/lib.rs:146-161 | never fails; the name is the text before the first `\|`, with one field per `\|`, each parsed from the piece after it |
| Hl7.ParseSegments | src/lib.rs:98-101 | the collect over all lines succeeds and holds each line's segment in order |
| Hl7.ExtractMessageType | src/lib.rs:195-219 | always a value: ADT^A01 iff some MSH component is `ADT`, else ORU^R01 iff one is `ORU`, else RDE^O11 iff one is `RDE`, else UNKNOWN |
| Hl7.ExtractVersion | src/lib.rs:222-231 | always `2.5` |
| Hl7.Parse | src/lib.rs:74-117 | succeeds iff the first line starts with `MSH`, otherwise fails with "First segment must be MSH"; has one segment per line, version 2.5, and the type from the first segment |
| Hl7.ParseStructure | src/lib.rs:74-117 | a parsed message has one segment per line, in order, with the name and field count of its line, and every field has at least one component |
| Hl7.SegmentRoundTrip | src/lib.rs:146-175 | joining a parsed segment's name and field texts back with `\|` and `^` gives the line |
| Hl7.SegmentPieces | src/lib.rs:146-175 | the serialized pieces of a parsed segment are exactly the `\|`-pieces of its line |
| Hl7.SerializedLines | src/lib.rs:74-117 | on a parsed text, the k-th segment serializes back to the k-th line |
| Hl7.ParseRoundTrip | src/lib.rs:74-117 | parsing loses nothing: serializing the parsed message with the line separator gives back the input |
| Hl7.FindSegment | src/lib.rs:120-122 | `find` returns a segment of the message with the name, and returns none iff no segment has it |
| Hl7.FindSegmentFirst | src/lib.rs:120-122 | `get_segment` returns the first segment with the name |
| Hl7.FilterSegments | src/lib.rs:125-127 | `filter` keeps only segments with the name and never grows |
| Hl7.GetSegment | src/lib.rs:120-122 | `get_segment` is none iff `get_segments` is empty, and otherwise its first element |
| Hl7.GetSegments | src/lib.rs:125-127 | `get_segments` holds exactly the message's segments with the name |
| Hl7.PrefixesDiffer | src/lib.rs:130-142 | no text starts with two different prefixes of the same length, so the three family tests exclude each other |
| Hl7.IsAdt | src/lib.rs:130-132 | an ADT message is neither ORU nor RDE |
| Hl7.IsOru | src/lib.rs:135-137 | an ORU message is neither ADT nor RDE |
| Hl7.IsRde | src/lib.rs:140-142 | an RDE message is neither ADT nor ORU |
| Hl7.FilterSegmentsMembers | src/lib.rs:125-127 | `get_segments` holds exactly the message's segments with the name |
| Hl7.FilterSegmentsConcat | src/lib.rs:125-127 | `get_segments` keeps message order: filtering distributes over concatenation |
| Hl7.FindIsFirstFiltered | src/lib.rs:120-127 | `get_segment` is the first element of `get_segments` |
| Hl7.ParsedFamily | src/lib.rs:130-142 | on a parsed message, `is_adt`/`is_oru`/`is_rde` follow the heuristic's priority order, and the type is UNKNOWN iff none holds |
| Hl7.TypePrefixes | src/lib.rs:130-142 | of the four possible types, exactly the matching one passes each `starts_with` test |
| Hl7.ComponentValue | src/lib.rs:271-276 | `fields.get(f).and_then(components.get(c))` has a value iff both positions exist |
| Hl7.WellFormedComponent | src/lib.rs:164-175 | in a parsed message, a field's first component exists iff the field does |
| Hl7.PatientId | src/lib.rs:266-276 | fails only with "PID segment" or "Patient ID (PID.3)", and with "PID segment" exactly when no segment is named PID |
| Hl7.PatientIdFromLines | src/lib.rs:266-276 | on a parsed text, with the first line whose text before the first `\|` is PID: the first `^`-piece of its third `\|`-field when it has at least three `\|`, and the PID.3 error otherwise |
| Hl7.PatientIdNoPidLine | src/lib.rs:266-276 | on a parsed text, the "PID segment" error occurs exactly when no line's text before the first `\|` is PID |
| Adt.EventType | src/lib.rs:258-263 | the second `^`-piece of the message type, or UNKNOWN when there is no `^` |
| Adt.FromHl7 | src/lib.rs:248-304 | fails with "Not an ADT message" or the PID error, and succeeds exactly otherwise; on success carries type, event, PID.3, the fixed name DOE^JOHN^^^^, PID.7 and PID.8 |
| Adt.ParsedAdt | src/lib.rs:248-304 | on a parsed message the view succeeds iff the message is ADT and its first PID has at least three fields; then the type is ADT^A01 and the event A01 |
| Adt.AdtEvent | src/lib.rs:258-263 | the event of ADT^A01 is A01 |
| Adt.PatientIdFromText | src/lib.rs:248-304 | the ADT view of a parsed text succeeds, with the first `^`-piece of the third field of the first PID line of the raw text as its patient id |
| Oru.FromHl7 | src/lib.rs:330-417 | fails with "Not an ORU message", the PID error, or "Test ID (OBX.3)" when some OBX lacks OBX.3, and succeeds exactly otherwise; on success, one observation per OBX in order, holding OBX.3.1, OBX.3.2, OBX.5, OBX.6, OBX.7, OBX.8 |
| Oru.ParsedObx | src/lib.rs:358-365 | on a parsed message every OBX has a test id iff every OBX has at least three fields |
| Rde.FromHl7 | src/lib.rs:450-599 | fails with "Not an RDE message" or the PID error, and succeeds exactly otherwise; on success, order control and number from the first ORC, and one order per RXE in order with id RX<i+1>, the RXE values (medication id defaulting to UNKNOWN), and the route of the RXR at the same index |
| Rde.RxId | src/lib.rs:497 | the order id is RX followed by decimal digits that read back as the position plus one |
| Rde.OrcValue | src/lib.rs:474-486 | none without an ORC segment, otherwise the first component of the given field of the first ORC |
| Rde.RxrAt | src/lib.rs:554 | the RXR at a position exists iff there are more RXR segments than that, and it is one of the message's RXR segments |
| Rde.RxIdsDistinct | src/lib.rs:497 | orders at different positions get different identifiers |
| Rde.DosageIsQuantity | src/lib.rs:531-551 | dosage and quantity are both read from RXE.10, so they agree |
| Text.IndexOf | src/lib.rs:146-161 | the position of the first occurrence, or the length when there is none |
| Text.Split | src/lib.rs:146-161 | `split` yields one piece more than there are separators, the first piece runs up to the first separator, and no piece holds the separator |
| Text.JoinSplit | src/lib.rs:146-192 | joining the pieces of a split with the separator gives back the text |
| Text.SplitJoin | src/lib.rs:146-192 | splitting a join of pieces free of the separator gives back the pieces |
| Text.SplitCons | src/lib.rs:146-161 | a separator-free prefix splits off as the first piece |
| Text.SplitPair | src/lib.rs:258-263 | two separator-free texts around one separator split into exactly those two |
| Text.JoinAvoids | src/mllp.rs:253-293 | a join holds a character only if a piece or the separator does |
| Text.FindCrlf | src/lib.rs:77-78 | the first `"\r\n"` position, exactly when one occurs |
| Text.SplitCrlf | src/lib.rs:77-78 | `split("\r\n")` yields at least one piece |
| Text.SplitCrlfPieces | src/lib.rs:77-78 | no piece of `split("\r\n")` holds `"\r\n"` |
| Text.JoinSplitCrlf | src/lib.rs:77-78 | joining the `"\r\n"`-pieces with `"\r\n"` gives back the text |
| Text.SplitCrlfHead | src/lib.rs:77-78 | where the first part has no line feed and does not end in a carriage return, the first `"\r\n"`-piece extends past it |
| Text.SplitCrlfCons | src/lib.rs:77-78 | a line free of line feeds followed by `"\r\n"` splits off as the first piece |
| Text.NatToString | src/lib.rs:497 | decimal formatting yields a non-empty string of digits, without a leading zero for a positive number, and "0" exactly for zero |
| Text.DecimalRoundTrip | src/lib.rs:497 | the decimal text of a number reads back as that number |
| Text.NatToStringInjective | src/lib.rs:497 | different numbers have different decimal texts |
| Utf8.Encode | src/mllp.rs:243-250 | the byte form of a text has one to four bytes per character |
| Utf8.Decode | src/mllp.rs:159-167 | a decoded text has no more characters than the input has bytes |
| Utf8.DecodeInverse | src/mllp.rs:159-167 | `from_utf8` fails exactly on byte strings that are the byte form of no text, and otherwise returns the text they are the form of |
| Utf8.EncodeChar | src/mllp.rs:243-250 | an ASCII char is its own single byte; every byte of a non-ASCII char is at least 0x80 |
| Utf8.DecodeChar | src/mllp.rs:159-167 | a decoded character takes one to four bytes of the input |
| Utf8.DecodeEncodeChar | src/mllp.rs:159-167 | decoding a char's encoding, whatever follows, gives back the char and its length |
| Utf8.DecodeEncode | src/mllp.rs:159-167 | `from_utf8` of `as_bytes` of any text gives back the text |
| Utf8.DecodeTwo | src/mllp.rs:159-167 | a two-byte encoding decodes back to its character |
| Utf8.DecodeThree | src/mllp.rs:159-167 | a three-byte encoding decodes back to its character |
| Utf8.DecodeFour | src/mllp.rs:159-167 | a four-byte encoding decodes back to its character |
| Utf8.EncodeDecodeChar | src/mllp.rs:159-167 | the bytes a character is decoded from are exactly its encoding, so overlong forms are rejected |
| Utf8.EncodedTwo | src/mllp.rs:159-167 | the same for two-byte sequences |
| Utf8.EncodedThree | src/mllp.rs:159-167 | the same for three-byte sequences |
| Utf8.EncodedFour | src/mllp.rs:159-167 | the same for four-byte sequences |
| Utf8.EncodeDecode | src/mllp.rs:159-167 | `from_utf8` accepts only the byte forms of texts: what it decodes encodes back to the input |
| Utf8.DecodeCons | src/mllp.rs:159-167 | a decoded text is its first character followed by the decoding of the remaining bytes |
| Mllp.Frame | src/mllp.rs:243-250 | a frame is three bytes longer than its payload, starts with 0x0B and ends with 0x1C 0x0D |
| Mllp.FindStart | src/mllp.rs:210 | `position` of the start byte: the first one, exactly when there is one |
| Mllp.FindEnd | src/mllp.rs:217 | `windows(2).position` of 0x1C 0x0D: the first end sequence, exactly when there is one |
| Mllp.Trimmed | src/mllp.rs:210-214 | dropping the bytes before the first start byte leaves a buffer starting with it; a buffer without one is untouched |
| Mllp.TrimmedDropsNoise | src/mllp.rs:210-214 | the trimmed buffer is a suffix of the buffer and no start byte is dropped, so with `Trimmed`'s contract it is exactly the bytes from the first start byte on |
| Mllp.ExtractCases | src/mllp.rs:208-240 | a payload iff the buffer holds a start byte followed by an end sequence; the oversize error iff no frame and more than 100 000 bytes after trimming; otherwise nothing, leaving the trimmed buffer |
| Mllp.Extract | src/mllp.rs:208-240 | what is left is a suffix of the buffer |
| Mllp.ExtractByTrimmed | src/mllp.rs:208-240 | extraction depends only on whether a start byte is present and on the buffer from it on |
| Mllp.SliceOfSlice | src/mllp.rs:220-227 | the first bytes of a split-off range are the buffer's bytes at the start of that range |
| Mllp.ExtractMllpMessage | src/mllp.rs:208-240 | the `split_to` steps on the buffer return and leave exactly what `Extract` says |
| Mllp.TakeFrame | src/mllp.rs:220-227 | the three `split_to` steps hand out the bytes between the start byte and the end sequence, and leave what follows the end sequence |
| Mllp.ExtractWithFrame | src/mllp.rs:208-227 | with a start byte and an end sequence after it, the payload lies between them, and the rest follows the end sequence |
| Mllp.ExtractWithoutFrame | src/mllp.rs:208-240 | without a start byte, or without an end sequence after it, the result is nothing or the oversize error, and the trimmed buffer stays |
| Mllp.ByteBuffer.SplitTo | src/mllp.rs:213-227 | hands out the first `at` bytes in a fresh buffer and keeps the rest |
| Mllp.ByteBuffer.ExtendFromSlice | src/mllp.rs:75-81 | appends the bytes |
| Mllp.ByteBuffer.constructor | src/mllp.rs:142 | a buffer with the given contents |
| Mllp.WrapInMllp | src/mllp.rs:243-250 | the result is the frame around the UTF-8 bytes of the message |
| Mllp.MllpCodec.Decode | src/mllp.rs:35-67 | `decode` does what `extract_mllp_message` does |
| Mllp.MllpCodec.Encode | src/mllp.rs:73-84 | `encode` always succeeds and appends the frame of the item |
| Mllp.ExtractFrame | src/mllp.rs:208-240 | a frame whose payload has no end sequence decodes to the payload, leaving what follows |
| Mllp.NoiseDropped | src/mllp.rs:210-214 | bytes before the first start byte never change the result |
| Mllp.StartAfterNoise | src/mllp.rs:210-214 | noise without a start byte does not change the trimmed buffer |
| Mllp.FirstStartAt | src/mllp.rs:210 | a start byte with none before it is the one `position` finds |
| Mllp.StartExtended | src/mllp.rs:210-214 | appending bytes keeps the first start byte, so the trimmed buffer just grows |
| Mllp.FrameAt | src/mllp.rs:217-227 | a buffer with the start byte first and an end sequence at `e` is the frame of the bytes in between, then the rest |
| Mllp.ExtractedIsFrame | src/mllp.rs:208-240 | every payload handed out came from a frame after start-byte-free noise, and holds no end sequence |
| Mllp.PayloadBeforeEnd | src/mllp.rs:217-227 | the bytes between the start byte and the first end sequence hold no end sequence |
| Mllp.FrameAfterNoise | src/mllp.rs:208-240 | conversely, noise, a frame, then anything decode to the frame's payload and leave the rest |
| Mllp.ExtractResumes | src/mllp.rs:145-157 | after an extraction that found nothing, adding the next bytes to what is left gives the same result as reading them all at once |
| Mllp.TwoFrames | src/mllp.rs:208-240 | two frames back to back decode in order |
| Mllp.ExtractShrinks | src/mllp.rs:220-227 | a handed-out payload plus its three frame bytes is taken out of the buffer |
| Mllp.EncodeDecode | src/mllp.rs:35-84 | an item without an end sequence, encoded into an empty buffer, decodes back to itself |
| MllpServer.FirstLine | src/mllp.rs:278 | `lines().next()`: none for the empty text; the whole text when it has no line feed; otherwise the text before the first line feed, without one carriage return just before it |
| MllpServer.ControlId | src/mllp.rs:278-283 | the control id has no `\|` and no line feed |
| MllpServer.SplitFree | src/mllp.rs:278-283 | a piece of a split lacks every character the text lacks |
| MllpServer.JoinKeeps | src/mllp.rs:278-283 | a piece of a join lacks every character the join lacks |
| MllpServer.TimestampIsFieldText | src/mllp.rs:257 | a fourteen-digit timestamp can sit in a header field |
| MllpServer.AckHeaderFields | src/mllp.rs:263-266 | twelve header fields: MSH first, the clock reading in field 6, ACK in field 8, the control id in field 9 and version 2.5 last |
| MllpServer.AckHeader | src/mllp.rs:263-266 | with a clock reading and control id holding no `\|` and no line feed, the ACK header is one line whose `\|`-fields are its twelve fields |
| MllpServer.AckControlId | src/mllp.rs:278-291 | the control id read back from an acknowledgment is the one it was built with |
| MllpServer.FirstLineBeforeCrlf | src/mllp.rs:278 | the first line of a text with `"\r\n"` after a line-feed-free header is the header |
| MllpServer.MsaOf | src/mllp.rs:286-291 | the MSA line of an acknowledgment starts with MSA, the code and the control id |
| MllpServer.SecondLine | src/mllp.rs:286-291 | the second line of an acknowledgment is its MSA line |
| MllpServer.MsaLine | src/mllp.rs:262-291 | the MSA line's first three `\|`-fields are MSA, the code and the control id, and it ends with the MSA text |
| MllpServer.SplitThree | src/mllp.rs:286-291 | three separator-free pieces at the head of a text split off as the first three pieces |
| MllpServer.AckMessage | src/mllp.rs:262-291 | an acknowledgment ends with its MSA text; its first `"\r\n"` line is the header, so MSH.10 is the control id; its MSA fields start with MSA, the code and the control id |
| MllpServer.EndsWithConcat | src/mllp.rs:286-291 | a text ends with its last part |
| MllpServer.GenerateResponse | src/mllp.rs:253-270 | for a clock reading without `\|` or line feed, the ACK carries AA and MSG00001 in MSA and MSG00001 in MSH.10; it ends with "Message processed successfully" |
| MllpServer.GenerateNack | src/mllp.rs:273-293 | for such a clock reading, the NACK carries AE and the original's control id in MSA and in MSH.10, and ends with "Error processing message: " and the error |
| MllpServer.Reply | src/mllp.rs:169-200 | for such a clock reading, the reply is an AA iff the message parses and the handler accepts it; otherwise it is the AE for the parse error, else for the handler's error, echoing the message's control id; the AA ends with "Message processed successfully" and the AE with "Error processing message: " and the error's text |
| MllpServer.ReplyError | src/mllp.rs:169-200 | no error exactly when the text parses and the handler accepts it; otherwise the parse error, else the handler's error |
| MllpServer.FrameSafeEncoding | src/mllp.rs:243-250 | text with no 0x1C followed by a carriage return encodes to bytes with no MLLP end sequence |
| MllpServer.HandleFrame | src/mllp.rs:159-200 | a payload that is the UTF-8 form of no text gets no reply; the UTF-8 form of a text is answered with the framed reply to that text |
| MllpConnection.Step | src/mllp.rs:145-200 | a turn stops with Closed exactly on an empty read; it fails with the I/O error exactly when the read failed, and with the oversize error exactly when the read leaves no complete frame and more than 100 000 bytes after trimming, and with no other error; a turn that continues had a non-empty read and leaves a suffix of the buffer with the read appended |
| MllpConnection.StepAnswersFrames | src/mllp.rs:155-200 | a turn replies only when the buffer with the read appended holds a complete frame |
| MllpConnection.Serve | src/mllp.rs:145-202 | a session writes at most one reply per read; it fails only with the I/O error or the oversize error, and with the I/O error only when some read failed |
| MllpConnection.HandleRead | src/mllp.rs:145-201 | one turn of the loop does to the buffer, and returns, what `Step` says under the reply rule |
| MllpConnection.HandleConnection | src/mllp.rs:135-205 | the loop writes exactly the replies of `Serve`, in order, and ends as `Serve` says |
| MllpConnection.ServeUnfold | src/mllp.rs:145-202 | the first read stops the session or puts its reply before the rest |
| MllpConnection.ServeAt | src/mllp.rs:145-202 | the same, at the k-th read |
| MllpConnection.SessionStarts | src/mllp.rs:142-145 | before any read nothing is written and the whole session lies ahead |
| MllpConnection.SessionEnds | src/mllp.rs:145-202 | when the reads run out, everything has been written and the connection is still waiting |
| MllpConnection.SessionStops | src/mllp.rs:147-152 | a read that stops the loop ends the session with what was written so far |
| MllpConnection.SessionAdvances | src/mllp.rs:155-200 | a read that continues the loop adds at most its reply and keeps the loop invariant |
| MllpConnection.StepFrame | src/mllp.rs:155-200 | a read that completes a frame is answered by the reply rule on its payload, and keeps what follows |
| MllpConnection.StepSameExtract | src/mllp.rs:145-157 | a read's turn depends only on what extraction finds |
| MllpConnection.ServeSameStep | src/mllp.rs:145-202 | two reads that leave the loop in the same state are followed by the same session |
| MllpConnection.ServeOneFrame | src/mllp.rs:145-202 | a peer that sends one frame and closes gets the answer to that frame and nothing else |
| MllpConnection.ServeFirstThenClose | src/mllp.rs:147-152 | a read answered with a reply, then a close, yields exactly that reply |
| MllpConnection.ServeOneMessage | src/mllp.rs:135-205 | end to end: a peer that sends one framed message and closes gets exactly one framed HL7 reply |
| MllpConnection.OneFramePerRead | src/mllp.rs:155-157 | one read that holds two frames is answered only for the first; the second stays buffered and is never answered if the peer then closes |
| MllpConnection.StepTwoFrames | src/mllp.rs:155-157 | a read with two frames answers the first and leaves the second in the buffer |
| MllpConnection.ServeSilent | src/mllp.rs:147-152 | a peer that closes at once receives nothing |
| MllpConnection.ServeSplitRead | src/mllp.rs:145-157 | bytes split over two reads are answered as if they had arrived in one, at the clock reading of the second |
| MllpConnection.FirstReadQuiet | src/mllp.rs:145-157 | a first read without a frame writes nothing and leaves the trimmed buffer |
| MllpConnection.SecondReadResumes | src/mllp.rs:145-157 | continuing from that buffer gives the same session as reading everything at once |

## Left out

- The TCP listener `MllpServer::new`/`run` and the tokio runtime are left out: they are I/O and concurrency.
- The socket is a finite sequence of completed reads: `Bytes` (empty when the peer closed) or `ReadFailed`. A session that runs out of reads ends as `Waiting`. The capacity of `read_buf` does not matter to the loop.
- The message handler is a pure function `Message -> Result<Message, HL7Error>`: each message gets the same result every time. `MessageHandler` in src/mllp.rs:88 may be any `Fn`, so it may keep shared state or do I/O, and it may answer the same message differently on different calls. The model does not capture that.
- Write failures (`write_all(..).await?`) are not modelled: every reply counts as written.
- `chrono::Local::now()` is a parameter: `now` for the acknowledgment builders, and the clock reading carried by each read for the loop. `IsTimestamp` states the `%Y%m%d%H%M%S` shape; the acknowledgment properties need only that the reading holds no `|` and no line feed.
- The `tracing` log calls, `serde` derives and `thiserror` `Display` for `MllpError` are left out; `HL7Error.ToString` gives the text of each `#[error]` format, which the NACK carries.
- MllpServer.AckHeader: defined as the `|`-join of the twelve header fields written in `generate_response` and `generate_nack`, not as the literal format string.
- Escape sequences and repetitions: the parser always uses `Delimiters::default()` and, like the source, neither decodes escapes nor splits repetitions.
- Several frames in one read: the source extracts at most one frame per read, so a second frame waits for the next read. The model keeps this behaviour and states it as a property rather than correcting it.
- src/main.rs, src/tests.rs and test_mllp_client.py are not part of this model.
