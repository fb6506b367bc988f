/**
 * Frame handling of handlers.go: the NUL trim applied to text payloads, the
 * per-type reaction of `readFrame`, and the single-frame writes `pong` and
 * `send`, each of which unlinks its connection when the write fails.
 */
module Frames {

  import opened Registry

  newtype byte = b: int | 0 <= b < 256

  /** Opcodes of section 5.2 of RFC 6455, as golang.org/x/net/websocket names them. */
  const ContinuationFrame: byte := 0x0
  const TextFrame: byte := 0x1
  const PingFrame: byte := 0x9
  const PongFrame: byte := 0xA

  /** The ASCII bytes of "ping" and "pong", the fixed payloads the keepalive and the Pong reply carry. */
  const PingPayload: seq<byte> := [0x70, 0x69, 0x6E, 0x67]
  const PongPayload: seq<byte> := [0x70, 0x6F, 0x6E, 0x67]

  /** What the transport answers to one NewFrameReader + Read: a failure of either, or a frame. */
  datatype ReadOutcome =
    | ReaderFailed
    | ReadFailed
    | Received(opcode: byte, size: nat, data: seq<byte>)

  /** What the transport answers to one NewFrameWriter + Write. */
  datatype WriteOutcome = WriterFailed | WriteFailed | Written

  /** One call of Write on a connection's frame writer, and whether it succeeded. */
  datatype Write = Write(conn: Conn, opcode: byte, payload: seq<byte>, delivered: bool)

  /** One `push(queueUrl, payload)`: a message handed to the queue. */
  datatype Publish = Publish(queueUrl: string, body: seq<byte>)

  /**
   * The payload buffer of readFrame: `make([]byte, Len())` filled by Read with the
   * bytes the transport delivered; cells Read did not reach stay zero.
   */
  function Filled(size: nat, data: seq<byte>): (b: seq<byte>)
    ensures |b| == size
    ensures forall i :: 0 <= i < size ==> b[i] == if i < |data| then data[i] else 0
  {
    if size <= |data| then data[..size] else data + seq(size - |data|, _ => 0 as byte)
  }

  /** The number of NUL bytes at the front of s. */
  function LeadingNuls(s: seq<byte>): (k: nat)
    ensures k <= |s|
    ensures forall i :: 0 <= i < k ==> s[i] == 0
    ensures k < |s| ==> s[k] != 0
  {
    if s == [] || s[0] != 0 then 0 else 1 + LeadingNuls(s[1..])
  }

  /** The number of NUL bytes at the back of s. */
  function TrailingNuls(s: seq<byte>): (k: nat)
    ensures k <= |s|
    ensures forall i :: |s| - k <= i < |s| ==> s[i] == 0
    ensures k < |s| ==> s[|s| - 1 - k] != 0
  {
    if s == [] || s[|s| - 1] != 0 then 0 else 1 + TrailingNuls(s[..|s| - 1])
  }

  /**
   * `bytes.Trim(payload, "\x00")`: the NULs at both ends removed. The result is
   * the contiguous slice of s that starts at its first non-NUL byte and ends at
   * its last one; NULs inside it are kept.
   */
  function Trim(s: seq<byte>): (r: seq<byte>)
    ensures r == [] || (r[0] != 0 && r[|r| - 1] != 0)
    ensures LeadingNuls(s) + |r| <= |s| && r == s[LeadingNuls(s)..LeadingNuls(s) + |r|]
    ensures forall i :: 0 <= i < |s| && (i < LeadingNuls(s) || LeadingNuls(s) + |r| <= i) ==> s[i] == 0
  {
    var t := s[LeadingNuls(s)..];
    t[..|t| - TrailingNuls(t)]
  }

  lemma TrimIdempotent(s: seq<byte>)
    ensures Trim(Trim(s)) == Trim(s)
  {
    var r := Trim(s);
    assert LeadingNuls(r) == 0;
    assert TrailingNuls(r) == 0;
  }

  /** The padding of a short text frame goes: "hello\x00\x00\x00" is published as "hello". */
  lemma TrimHelloExample()
    ensures Trim([0x68, 0x65, 0x6C, 0x6C, 0x6F, 0, 0, 0]) == [0x68, 0x65, 0x6C, 0x6C, 0x6F]
  {
    var s: seq<byte> := [0x68, 0x65, 0x6C, 0x6C, 0x6F, 0, 0, 0];
    assert LeadingNuls(s) == 0;
    var t := s[0..];
    assert t[..5] == [0x68, 0x65, 0x6C, 0x6C, 0x6F];
    assert TrailingNuls(t[..5]) == 0;
    assert TrailingNuls(t) == 3 by {
      assert t[..7] == t[..8][..7];
      assert t[..6] == t[..7][..6];
      assert t[..5] == t[..6][..5];
    }
  }

  /** NULs in front go too, and interior NULs stay: "\x00a\x00b" becomes "a\x00b". */
  lemma TrimBothEndsExample()
    ensures Trim([0, 0x61, 0, 0x62]) == [0x61, 0, 0x62]
  {
    var s: seq<byte> := [0, 0x61, 0, 0x62];
    assert LeadingNuls(s[1..]) == 0;
    assert LeadingNuls(s) == 1;
    assert TrailingNuls(s[1..]) == 0;
  }

  /** How readFrame's if-chain reacts to a frame it has read. */
  datatype Reaction =
    | LogContinuation
    | ReplyPong
    | LogPong
    | PublishText(queueUrl: string, body: seq<byte>)
    | LogText
    | Ignore

  /**
   * The if-chain on the payload type: only a Ping is answered, only a Text frame
   * with a queue URL configured is published, and what is published is the
   * trimmed payload.
   */
  function React(opcode: byte, payload: seq<byte>, queueUrl: string): (r: Reaction)
    ensures r.ReplyPong? <==> opcode == PingFrame
    ensures r.PublishText? <==> opcode == TextFrame && queueUrl != ""
    ensures r.PublishText? ==> r.queueUrl == queueUrl && r.body == Trim(payload)
    ensures r == Ignore <==> opcode !in {ContinuationFrame, PingFrame, PongFrame, TextFrame}
  {
    if opcode == ContinuationFrame then LogContinuation
    else if opcode == PingFrame then ReplyPong
    else if opcode == PongFrame then LogPong
    else if opcode == TextFrame then
      if queueUrl != "" then PublishText(queueUrl, Trim(payload)) else LogText
    else Ignore
  }

  /** The writes one NewFrameWriter/Write attempt makes: none without a writer, else the one frame. */
  function Attempt(ws: Conn, opcode: byte, payload: seq<byte>, result: WriteOutcome): (w: seq<Write>)
    ensures |w| <= 1
    ensures w != [] <==> result != WriterFailed
    ensures forall i :: 0 <= i < |w| ==> w[i] == Write(ws, opcode, payload, result == Written)
  {
    if result == WriterFailed then [] else [Write(ws, opcode, payload, result == Written)]
  }

  /** The registry after that attempt: a failure of either call unlinks ws. */
  function AfterWrite(b: Backing, ws: Conn, result: WriteOutcome): (r: Backing)
    requires b.Valid()
    ensures r.Valid() && |r.cells| == |b.cells|
    ensures r.Contents() == if result == Written then b.Contents() else Unlinked(b.Contents(), ws)
  {
    if result == Written then b else UnlinkCells(b, ws)
  }

  /** What one call of readFrame does: its error, the frames it writes, what it publishes, the new registry. */
  datatype FrameEffect = FrameEffect(contents: seq<Conn>, writes: seq<Write>, published: seq<Publish>, failed: bool)

  /**
   * readFrame, with the Pong reply of pong inlined. It fails exactly when the
   * read fails, and then does nothing else; a frame that was read never makes
   * it fail, not even when its Pong reply cannot be written.
   */
  function ReadFrameEffect(contents: seq<Conn>, ws: Conn, read: ReadOutcome, reply: WriteOutcome, queueUrl: string)
    : (r: FrameEffect)
    ensures r.failed <==> !read.Received?
    ensures r.failed ==> r.contents == contents && r.writes == [] && r.published == []
    ensures r.writes != [] ==> read.Received? && read.opcode == PingFrame && reply != WriterFailed
    ensures read.Received? && read.opcode == PingFrame ==> r.writes == Attempt(ws, PongFrame, PongPayload, reply)
    ensures read.Received? && read.opcode == PingFrame ==>
              r.contents == if reply == Written then contents else Unlinked(contents, ws)
    ensures !(read.Received? && read.opcode == PingFrame) ==> r.contents == contents
    ensures r.published != [] <==> read.Received? && read.opcode == TextFrame && queueUrl != ""
    ensures r.published != [] ==> r.published == [Publish(queueUrl, Trim(Filled(read.size, read.data)))]
  {
    match read
    case Received(opcode, size, data) =>
      (match React(opcode, Filled(size, data), queueUrl)
       case ReplyPong =>
         var after := if reply == Written then contents else Unlinked(contents, ws);
         FrameEffect(after, Attempt(ws, PongFrame, PongPayload, reply), [], false)
       case PublishText(url, body) => FrameEffect(contents, [], [Publish(url, body)], false)
       case _ => FrameEffect(contents, [], [], false))
    case _ => FrameEffect(contents, [], [], true)
  }

  /** pong(ws): one attempt to write a Pong frame with payload "pong"; unlink ws if it fails. */
  method Pong(reg: Sockets, ws: Conn, result: WriteOutcome) returns (writes: seq<Write>)
    requires reg.Valid()
    modifies reg, reg.buf
    ensures reg.Valid() && reg.buf == old(reg.buf)
    ensures writes == Attempt(ws, PongFrame, PongPayload, result)
    ensures reg.State() == AfterWrite(old(reg.State()), ws, result)
    ensures reg.Contents() == if result == Written then old(reg.Contents()) else Unlinked(old(reg.Contents()), ws)
  {
    if result == WriterFailed {
      reg.Unlink(ws);
      writes := [];
    } else {
      writes := [Write(ws, PongFrame, PongPayload, result == Written)];
      if result == WriteFailed {
        reg.Unlink(ws);
      }
    }
  }

  /** send(message, ws): one attempt to write a Text frame carrying message; unlink ws if it fails. */
  method Send(reg: Sockets, message: seq<byte>, ws: Conn, result: WriteOutcome) returns (writes: seq<Write>)
    requires reg.Valid()
    modifies reg, reg.buf
    ensures reg.Valid() && reg.buf == old(reg.buf)
    ensures writes == Attempt(ws, TextFrame, message, result)
    ensures reg.State() == AfterWrite(old(reg.State()), ws, result)
    ensures reg.Contents() == if result == Written then old(reg.Contents()) else Unlinked(old(reg.Contents()), ws)
  {
    if result == WriterFailed {
      reg.Unlink(ws);
      writes := [];
    } else {
      writes := [Write(ws, TextFrame, message, result == Written)];
      if result == WriteFailed {
        reg.Unlink(ws);
      }
    }
  }

  /**
   * readFrame(ws): read one frame and react to it. `reply` is the transport's
   * answer should a Pong be written; `queueUrl` is AWS_SQS_QUEUE_PUBLISH_URL.
   */
  method ReadFrame(reg: Sockets, ws: Conn, read: ReadOutcome, reply: WriteOutcome, queueUrl: string)
    returns (failed: bool, writes: seq<Write>, published: seq<Publish>)
    requires reg.Valid()
    modifies reg, reg.buf
    ensures reg.Valid() && reg.buf == old(reg.buf)
    ensures FrameEffect(reg.Contents(), writes, published, failed)
         == ReadFrameEffect(old(reg.Contents()), ws, read, reply, queueUrl)
  {
    writes, published := [], [];
    if !read.Received? {
      return true, writes, published;
    }
    var payload := Filled(read.size, read.data);
    var opcode := read.opcode;
    if opcode == ContinuationFrame {
    } else if opcode == PingFrame {
      writes := Pong(reg, ws, reply);
    } else if opcode == PongFrame {
    } else if opcode == TextFrame {
      if queueUrl != "" {
        payload := Trim(payload);
        published := [Publish(queueUrl, payload)];
      }
    }
    failed := false;
  }
}
