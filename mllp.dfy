/**
 * The MLLP framing of src/mllp.rs: a frame is the start byte 0x0B, the
 * payload, then the end sequence 0x1C 0x0D. `Extract` is the specification of
 * `extract_mllp_message` (and of the identical `MllpCodec::decode`) on the
 * buffer's contents; `ExtractMllpMessage` performs the same steps on a
 * `ByteBuffer` with `split_to`.
 */
module Mllp {
  import opened Wrappers
  import opened Utf8
  import Hl7

  const START_BLOCK: byte := 0x0B
  const END_BLOCK: byte := 0x1C
  const CARRIAGE_RETURN: byte := 0x0D
  /** A buffer longer than this without a complete frame is rejected. */
  const MAX_BUFFER_LEN: nat := 100_000

  const OVERSIZE_DETAIL := "Buffer exceeds maximum size without valid frame"

  datatype MllpError = IoError | InvalidFrame(detail: string) | Hl7Error(error: Hl7.HL7Error)

  /** The frame around a payload. */
  function Frame(payload: seq<byte>): (r: seq<byte>)
    ensures |r| == |payload| + 3
    ensures r[0] == START_BLOCK && r[|r| - 2] == END_BLOCK && r[|r| - 1] == CARRIAGE_RETURN
  {
    [START_BLOCK] + payload + [END_BLOCK, CARRIAGE_RETURN]
  }

  /** The end sequence starts at position `i` of `b`. */
  predicate EndAt(b: seq<byte>, i: nat) {
    i + 1 < |b| && b[i] == END_BLOCK && b[i + 1] == CARRIAGE_RETURN
  }

  predicate HasEndMarker(b: seq<byte>) {
    exists i: nat | i < |b| :: EndAt(b, i)
  }

  /** The position of the first start byte (`iter().position`). */
  function FindStart(b: seq<byte>): (r: Option<nat>)
    ensures r.Some? <==> START_BLOCK in b
    ensures r.Some? ==> r.value < |b| && b[r.value] == START_BLOCK && START_BLOCK !in b[..r.value]
  {
    if |b| == 0 then None
    else if b[0] == START_BLOCK then Some(0)
    else match FindStart(b[1..])
      case None => None
      case Some(i) =>
        assert b[..i + 1] == [b[0]] + b[1..][..i];
        Some(i + 1)
  }

  /** The position of the first end sequence (`windows(2).position`). */
  function FindEnd(b: seq<byte>): (r: Option<nat>)
    ensures r.Some? <==> HasEndMarker(b)
    ensures r.Some? ==> EndAt(b, r.value) && forall j: nat :: j < r.value ==> !EndAt(b, j)
  {
    if |b| < 2 then None
    else if EndAt(b, 0) then Some(0)
    else
      assert forall j: nat :: 0 < j ==> (EndAt(b, j) <==> EndAt(b[1..], j - 1));
      match FindEnd(b[1..])
      case None => None
      case Some(i) =>
        assert EndAt(b, i + 1);
        Some(i + 1)
  }

  /** What one extraction returns, and what it leaves in the buffer. */
  datatype Extraction = Extraction(result: Result<Option<seq<byte>>, MllpError>, rest: seq<byte>)

  /** The buffer holds a start byte followed, later, by an end sequence. */
  predicate HasCompleteFrame(buffer: seq<byte>) {
    match FindStart(buffer)
    case None => false
    case Some(s) => HasEndMarker(buffer[s..])
  }

  /** The buffer once everything before the first start byte is dropped. */
  function Trimmed(buffer: seq<byte>): (r: seq<byte>)
    ensures START_BLOCK in buffer ==> |r| > 0 && r[0] == START_BLOCK
    ensures START_BLOCK !in buffer ==> r == buffer
  {
    match FindStart(buffer)
    case None => buffer
    case Some(s) => buffer[s..]
  }

  /**
   * Trimming keeps exactly the bytes from the first start byte on: the result
   * is a suffix of the buffer, and no start byte is dropped.
   */
  lemma TrimmedDropsNoise(buffer: seq<byte>)
    ensures var r := Trimmed(buffer);
      && |r| <= |buffer| && r == buffer[|buffer| - |r|..]
      && START_BLOCK !in buffer[..|buffer| - |r|]
  {
  }

  /**
   * `extract_mllp_message` on the contents of the buffer: the payload of the
   * first complete frame and the bytes after it; without a complete frame,
   * nothing (or the oversize error) and the buffer with its leading noise
   * dropped.
   */
  function Extract(buffer: seq<byte>): (r: Extraction)
    ensures |r.rest| <= |buffer| && r.rest == buffer[|buffer| - |r.rest|..]
  {
    var trimmed := Trimmed(buffer);
    assert trimmed == buffer[|buffer| - |trimmed|..];
    match FindStart(buffer)
    case Some(_) =>
      (match FindEnd(trimmed)
       case Some(e) =>
         assert e >= 1;
         assert trimmed[e + 2..] == buffer[|buffer| - |trimmed[e + 2..]|..];
         Extraction(Ok(Some(trimmed[1..e])), trimmed[e + 2..])
       case None =>
         if |trimmed| > MAX_BUFFER_LEN then Extraction(Err(InvalidFrame(OVERSIZE_DETAIL)), trimmed)
         else Extraction(Ok(None), trimmed))
    case None =>
      if |trimmed| > MAX_BUFFER_LEN then Extraction(Err(InvalidFrame(OVERSIZE_DETAIL)), trimmed)
      else Extraction(Ok(None), trimmed)
  }

  /**
   * What extraction finds: a payload exactly when the buffer holds a
   * complete frame, the oversize error exactly when it does not and more than
   * `MAX_BUFFER_LEN` bytes are left once the noise is dropped, and otherwise
   * nothing, leaving the trimmed buffer.
   */
  lemma ExtractCases(buffer: seq<byte>)
    ensures var r := Extract(buffer);
      && (r.result.Ok? && r.result.value.Some? <==> HasCompleteFrame(buffer))
      && (r.result.Err? <==> !HasCompleteFrame(buffer) && |Trimmed(buffer)| > MAX_BUFFER_LEN)
      && (r.result.Err? ==> r.result.error == InvalidFrame(OVERSIZE_DETAIL))
      && (!HasCompleteFrame(buffer) ==> r.rest == Trimmed(buffer))
  {
  }

  /** `BytesMut`: a growable byte buffer that hands out its front with `split_to`. */
  class ByteBuffer {
    var data: seq<byte>

    constructor(initial: seq<byte>)
      ensures data == initial
    {
      data := initial;
    }

    /** Removes the first `at` bytes and returns them in a new buffer. */
    method SplitTo(at: nat) returns (head: ByteBuffer)
      requires at <= |data|
      modifies this
      ensures fresh(head)
      ensures head.data == old(data)[..at]
      ensures data == old(data)[at..]
    {
      head := new ByteBuffer(data[..at]);
      data := data[at..];
    }

    method ExtendFromSlice(bytes: seq<byte>)
      modifies this
      ensures data == old(data) + bytes
    {
      data := data + bytes;
    }
  }

  lemma SliceOfSlice(s: seq<byte>, i: nat, j: nat, n: nat)
    requires i <= j <= |s| && n <= j - i
    ensures s[i..j][..n] == s[i..i + n]
  {
  }

  /** `extract_mllp_message`: the steps of `Extract`, performed on the buffer itself. */
  method ExtractMllpMessage(buffer: ByteBuffer) returns (r: Result<Option<seq<byte>>, MllpError>)
    modifies buffer
    ensures Extraction(r, buffer.data) == Extract(old(buffer.data))
  {
    ghost var original := buffer.data;
    var startPos := FindStart(buffer.data);
    if startPos.Some? {
      if startPos.value > 0 {
        var _ := buffer.SplitTo(startPos.value);
      }
      assert buffer.data == Trimmed(original);
      var endPos := FindEnd(buffer.data);
      if endPos.Some? {
        ExtractWithFrame(original);
        var content := TakeFrame(buffer, endPos.value);
        return Ok(Some(content));
      }
    }
    assert buffer.data == Trimmed(original);
    ExtractWithoutFrame(original);
    if |buffer.data| > MAX_BUFFER_LEN {
      return Err(InvalidFrame(OVERSIZE_DETAIL));
    }
    return Ok(None);
  }

  /**
   * The steps that take the frame out of a buffer that starts with the start
   * byte and has its first end sequence at `e`: split off the whole frame,
   * skip the start byte, and keep the content without the end sequence.
   */
  method TakeFrame(buffer: ByteBuffer, e: nat) returns (content: seq<byte>)
    requires 1 <= e && e + 2 <= |buffer.data|
    modifies buffer
    ensures content == old(buffer.data)[1..e]
    ensures buffer.data == old(buffer.data)[e + 2..]
  {
    ghost var t := buffer.data;
    var framedMessage := buffer.SplitTo(e + 2);
    var _ := framedMessage.SplitTo(1);
    assert framedMessage.data == t[1..e + 2];
    var contentLen: nat := |framedMessage.data| - 2;
    SliceOfSlice(t, 1, e + 2, contentLen);
    var c := framedMessage.SplitTo(contentLen);
    content := c.data;
  }

  /**
   * What `Extract` returns when the trimmed buffer holds an end sequence: the
   * start byte is not the first byte of an end sequence, so the frame holds at
   * least the start byte and the end sequence.
   */
  lemma ExtractWithFrame(b: seq<byte>)
    requires FindStart(b).Some? && FindEnd(Trimmed(b)).Some?
    ensures var t := Trimmed(b); var e := FindEnd(t).value;
      e >= 1 && e + 2 <= |t| && Extract(b) == Extraction(Ok(Some(t[1..e])), t[e + 2..])
  {
  }

  /** What `Extract` returns when there is no start byte or no end sequence after it. */
  lemma ExtractWithoutFrame(b: seq<byte>)
    requires FindStart(b).None? || FindEnd(Trimmed(b)).None?
    ensures Extract(b) == Extraction(
      if |Trimmed(b)| > MAX_BUFFER_LEN then Err(InvalidFrame(OVERSIZE_DETAIL)) else Ok(None), Trimmed(b))
  {
  }

  /** `wrap_in_mllp`: the frame around the UTF-8 form of a message. */
  method WrapInMllp(message: string) returns (result: seq<byte>)
    ensures result == Frame(Encode(message))
  {
    result := [];
    result := result + [START_BLOCK];
    result := result + Encode(message);
    result := result + [END_BLOCK];
    result := result + [CARRIAGE_RETURN];
  }

  /** The tokio codec: `decode` is `extract_mllp_message`, `encode` appends a frame. */
  class MllpCodec {
    constructor() {}

    method Decode(src: ByteBuffer) returns (r: Result<Option<seq<byte>>, MllpError>)
      modifies src
      ensures Extraction(r, src.data) == Extract(old(src.data))
    {
      r := ExtractMllpMessage(src);
    }

    method Encode(item: seq<byte>, dst: ByteBuffer) returns (r: Result<(), MllpError>)
      modifies dst
      ensures r.Ok?
      ensures dst.data == old(dst.data) + Frame(item)
    {
      dst.ExtendFromSlice([START_BLOCK]);
      dst.ExtendFromSlice(item);
      dst.ExtendFromSlice([END_BLOCK, CARRIAGE_RETURN]);
      return Ok(());
    }
  }

  // Properties of the framing.

  /** A frame whose payload holds no end sequence decodes to that payload, leaving what follows. */
  lemma ExtractFrame(payload: seq<byte>, rest: seq<byte>)
    requires !HasEndMarker(payload)
    ensures Extract(Frame(payload) + rest) == Extraction(Ok(Some(payload)), rest)
  {
    var b := Frame(payload) + rest;
    var n := |payload|;
    assert FindStart(b) == Some(0);
    assert Trimmed(b) == b;
    assert EndAt(b, n + 1);
    forall j: nat | j < n + 1 ensures !EndAt(b, j) {
      if j == 0 {
      } else if j < n {
        assert !EndAt(payload, j - 1);
      } else {
        assert b[n + 1] == END_BLOCK;
      }
    }
    assert FindEnd(b) == Some(n + 1);
    assert b[1..n + 1] == payload;
    assert b[n + 3..] == rest;
  }

  /** Bytes before the first start byte never matter. */
  lemma NoiseDropped(noise: seq<byte>, buffer: seq<byte>)
    requires START_BLOCK !in noise
    requires START_BLOCK in buffer
    ensures Extract(noise + buffer) == Extract(buffer)
  {
    StartAfterNoise(noise, buffer);
  }

  lemma StartAfterNoise(noise: seq<byte>, buffer: seq<byte>)
    requires START_BLOCK !in noise
    requires START_BLOCK in buffer
    ensures FindStart(noise + buffer).Some? && Trimmed(noise + buffer) == Trimmed(buffer)
  {
    var b := noise + buffer;
    var s := FindStart(buffer).value;
    assert b[|noise| + s] == START_BLOCK;
    assert b[..|noise| + s] == noise + buffer[..s];
    FirstStartAt(b, |noise| + s);
    assert b[|noise| + s..] == buffer[s..];
  }

  /** A start byte with none before it is the one `FindStart` finds. */
  lemma FirstStartAt(b: seq<byte>, k: nat)
    requires k < |b| && b[k] == START_BLOCK && START_BLOCK !in b[..k]
    ensures FindStart(b) == Some(k)
  {
    assert b[k] in b;
  }

  /**
   * A decoded payload came from a frame: the buffer is noise without a start
   * byte, the frame of the payload (which holds no end sequence), then what is
   * left.
   */
  lemma ExtractedIsFrame(buffer: seq<byte>)
    requires Extract(buffer).result.Ok? && Extract(buffer).result.value.Some?
    ensures var payload := Extract(buffer).result.value.value;
      && !HasEndMarker(payload)
      && exists noise: seq<byte> :: START_BLOCK !in noise && buffer == noise + Frame(payload) + Extract(buffer).rest
  {
    var payload := Extract(buffer).result.value.value;
    var rest := Extract(buffer).rest;
    var s := FindStart(buffer).value;
    var trimmed := buffer[s..];
    var e := FindEnd(trimmed).value;
    assert e >= 1 && payload == trimmed[1..e] && rest == trimmed[e + 2..];
    PayloadBeforeEnd(trimmed, e);
    FrameAt(trimmed, e);
    var noise := buffer[..s];
    SliceJoin(buffer, s);
    ConcatAssoc(noise, Frame(payload), rest);
  }

  lemma ConcatAssoc(a: seq<byte>, b: seq<byte>, c: seq<byte>)
    ensures a + (b + c) == a + b + c
  {
  }

  /** A text that starts with the start byte and has an end sequence at `e` is a frame followed by the rest. */
  lemma FrameAt(t: seq<byte>, e: nat)
    requires 1 <= e && EndAt(t, e) && t[0] == START_BLOCK
    ensures t == Frame(t[1..e]) + t[e + 2..]
  {
    assert t == [t[0]] + t[1..e] + [t[e], t[e + 1]] + t[e + 2..];
  }

  /** The bytes strictly between the start byte and the first end sequence hold no end sequence. */
  lemma PayloadBeforeEnd(b: seq<byte>, e: nat)
    requires 1 <= e && EndAt(b, e) && forall j: nat :: j < e ==> !EndAt(b, j)
    ensures !HasEndMarker(b[1..e])
  {
    var payload := b[1..e];
    forall i: nat | i < |payload| ensures !EndAt(payload, i) {
      assert EndAt(payload, i) ==> EndAt(b, i + 1);
    }
  }

  /** Conversely, noise, a frame and anything after it decode to the frame's payload. */
  lemma FrameAfterNoise(noise: seq<byte>, payload: seq<byte>, rest: seq<byte>)
    requires START_BLOCK !in noise && !HasEndMarker(payload)
    ensures Extract(noise + Frame(payload) + rest) == Extraction(Ok(Some(payload)), rest)
  {
    var framed := Frame(payload) + rest;
    assert noise + Frame(payload) + rest == noise + framed;
    assert framed[0] == START_BLOCK;
    ExtractFrame(payload, rest);
    NoiseDropped(noise, framed);
  }

  /** Extraction depends only on whether there is a start byte, and on the trimmed buffer. */
  lemma ExtractByTrimmed(a: seq<byte>, b: seq<byte>)
    requires FindStart(a).Some? == FindStart(b).Some? && Trimmed(a) == Trimmed(b)
    ensures Extract(a) == Extract(b)
  {
  }

  /**
   * Reading in pieces changes nothing: after an extraction that found no
   * frame, extracting from what it left plus the next bytes gives the same
   * as extracting from all the bytes at once.
   */
  lemma ExtractResumes(first: seq<byte>, next: seq<byte>)
    requires Extract(first).result == Ok(None)
    ensures Extract(Extract(first).rest + next) == Extract(first + next)
  {
    if START_BLOCK in first {
      var t := Trimmed(first);
      assert Extract(first).rest == t;
      StartExtended(first, next);
      assert Trimmed(t) == t;
      StartExtended(t, next);
      ExtractByTrimmed(t + next, first + next);
    } else {
      assert Extract(first).rest == first;
    }
  }

  /** Appending bytes keeps the first start byte, so the trimmed buffer just grows. */
  lemma StartExtended(b: seq<byte>, next: seq<byte>)
    requires START_BLOCK in b
    ensures FindStart(b + next) == FindStart(b) && Trimmed(b + next) == Trimmed(b) + next
  {
    var s := FindStart(b).value;
    var c := b + next;
    assert c[..s] == b[..s];
    assert c[s] == START_BLOCK;
    FirstStartAt(c, s);
    assert c[s..] == b[s..] + next;
  }

  /** Two frames sent back to back decode in order. */
  lemma TwoFrames(p: seq<byte>, q: seq<byte>, rest: seq<byte>)
    requires !HasEndMarker(p) && !HasEndMarker(q)
    ensures var first := Extract(Frame(p) + Frame(q) + rest);
      && first == Extraction(Ok(Some(p)), Frame(q) + rest)
      && Extract(first.rest) == Extraction(Ok(Some(q)), rest)
  {
    assert Frame(p) + Frame(q) + rest == Frame(p) + (Frame(q) + rest);
    ExtractFrame(p, Frame(q) + rest);
    ExtractFrame(q, rest);
  }

  /** Decoding never grows the buffer and a decoder that makes no progress has nothing to give. */
  lemma ExtractShrinks(buffer: seq<byte>)
    ensures Extract(buffer).result.Ok? && Extract(buffer).result.value.Some? ==>
      |Extract(buffer).rest| + |Extract(buffer).result.value.value| + 3 <= |buffer|
  {
    if HasCompleteFrame(buffer) {
      var s := FindStart(buffer).value;
      var e := FindEnd(buffer[s..]).value;
      assert e >= 1;
    }
  }

  /** An encoder followed by a decoder hands the item back. */
  method EncodeDecode(item: seq<byte>) returns (decoded: Result<Option<seq<byte>>, MllpError>)
    requires !HasEndMarker(item)
    ensures decoded == Ok(Some(item))
  {
    var codec := new MllpCodec();
    var buffer := new ByteBuffer([]);
    var _ := codec.Encode(item, buffer);
    assert buffer.data == Frame(item) + [];
    ExtractFrame(item, []);
    decoded := codec.Decode(buffer);
  }
}
