/**
 * The two per-connection loops of handlers.go. WebsocketHandler links the
 * connection, handles frames until the first read error and then unlinks it;
 * ping writes a "ping" frame per round until a write fails and then unlinks
 * it. Each runs here on its own, on a finite script of transport answers; a
 * script that runs out before any failure leaves the loop still running.
 */
module Lifecycle {

  import opened Registry
  import opened Frames

  /** The transport's answers during one round of the read loop: the read, and the Pong write should one be made. */
  datatype Arrival = Arrival(read: ReadOutcome, reply: WriteOutcome)

  /**
   * The read loop's net effect on `arrivals`; `failed` says that it reached a
   * read error and stopped. It writes at most one Pong per Ping frame it reads
   * and publishes at most once per arrival.
   */
  function Session(contents: seq<Conn>, ws: Conn, arrivals: seq<Arrival>, queueUrl: string): (r: FrameEffect)
    ensures |r.writes| <= PingsRead(arrivals) && |r.published| <= |arrivals|
    decreases |arrivals|
  {
    if arrivals == [] then FrameEffect(contents, [], [], false)
    else
      var step := ReadFrameEffect(contents, ws, arrivals[0].read, arrivals[0].reply, queueUrl);
      if step.failed then FrameEffect(Unlinked(contents, ws), [], [], true)
      else
        var rest := Session(step.contents, ws, arrivals[1..], queueUrl);
        FrameEffect(rest.contents, step.writes + rest.writes, step.published + rest.published, rest.failed)
  }

  /** How many arrivals deliver a Ping frame: only these can be answered with a write. */
  function PingsRead(arrivals: seq<Arrival>): nat
  {
    if arrivals == [] then 0
    else
      var a := arrivals[0].read;
      (if a.Received? && a.opcode == PingFrame then 1 else 0) + PingsRead(arrivals[1..])
  }

  /** The loop stops exactly when some read fails. */
  predicate HasReadError(arrivals: seq<Arrival>)
  {
    exists j :: 0 <= j < |arrivals| && !arrivals[j].read.Received?
  }

  /**
   * Frames are handled in arrival order up to the first read error, which ends
   * the loop: what arrives after it is never read.
   */
  lemma {:induction false} SessionStopsAtFirstError(contents: seq<Conn>, ws: Conn, arrivals: seq<Arrival>, queueUrl: string, j: nat)
    requires j < |arrivals| && !arrivals[j].read.Received?
    requires forall i :: 0 <= i < j ==> arrivals[i].read.Received?
    ensures Session(contents, ws, arrivals, queueUrl) == Session(contents, ws, arrivals[..j + 1], queueUrl)
    ensures Session(contents, ws, arrivals, queueUrl).failed
  {
    if j > 0 {
      var step := ReadFrameEffect(contents, ws, arrivals[0].read, arrivals[0].reply, queueUrl);
      assert arrivals[..j + 1][1..] == arrivals[1..][..j];
      SessionStopsAtFirstError(step.contents, ws, arrivals[1..], queueUrl, j - 1);
    }
  }

  /** The loop ends, having unlinked, exactly when a read fails. */
  lemma {:induction false} SessionFailsIffReadError(contents: seq<Conn>, ws: Conn, arrivals: seq<Arrival>, queueUrl: string)
    ensures Session(contents, ws, arrivals, queueUrl).failed <==> HasReadError(arrivals)
  {
    if arrivals != [] {
      var step := ReadFrameEffect(contents, ws, arrivals[0].read, arrivals[0].reply, queueUrl);
      if !step.failed {
        SessionFailsIffReadError(step.contents, ws, arrivals[1..], queueUrl);
        if HasReadError(arrivals) {
          var j :| 0 <= j < |arrivals| && !arrivals[j].read.Received?;
          assert !arrivals[1..][j - 1].read.Received?;
        }
        if HasReadError(arrivals[1..]) {
          var j :| 0 <= j < |arrivals[1..]| && !arrivals[1..][j].read.Received?;
          assert !arrivals[j + 1].read.Received?;
        }
      } else {
        assert !arrivals[0].read.Received?;
      }
    }
  }

  /**
   * For a connection linked once, the session hands the registry back as it
   * found it once the loop stops: a failed Pong may unlink ws early, the final
   * unlink then finds nothing, and no other entry is touched.
   */
  lemma {:induction false} SessionRestoresRegistry(s: seq<Conn>, contents: seq<Conn>, ws: Conn, arrivals: seq<Arrival>, queueUrl: string)
    requires ws !in s
    requires contents == s + [ws] || contents == s
    ensures var r := Session(contents, ws, arrivals, queueUrl);
      (r.contents == s + [ws] || r.contents == s) && (r.failed ==> r.contents == s)
  {
    LinkThenUnlink(s, ws);
    if arrivals != [] {
      var step := ReadFrameEffect(contents, ws, arrivals[0].read, arrivals[0].reply, queueUrl);
      if !step.failed {
        SessionRestoresRegistry(s, step.contents, ws, arrivals[1..], queueUrl);
      }
    }
  }

  /** The loop writes nothing but Pong frames carrying "pong" to ws. */
  lemma {:induction false} SessionWritesOnlyPongs(contents: seq<Conn>, ws: Conn, arrivals: seq<Arrival>, queueUrl: string)
    ensures forall i :: 0 <= i < |Session(contents, ws, arrivals, queueUrl).writes| ==>
              Session(contents, ws, arrivals, queueUrl).writes[i].conn == ws
              && Session(contents, ws, arrivals, queueUrl).writes[i].opcode == PongFrame
              && Session(contents, ws, arrivals, queueUrl).writes[i].payload == PongPayload
  {
    if arrivals != [] {
      var step := ReadFrameEffect(contents, ws, arrivals[0].read, arrivals[0].reply, queueUrl);
      if !step.failed {
        SessionWritesOnlyPongs(step.contents, ws, arrivals[1..], queueUrl);
        var rest := Session(step.contents, ws, arrivals[1..], queueUrl).writes;
        var all := Session(contents, ws, arrivals, queueUrl).writes;
        assert all == step.writes + rest;
        forall i | 0 <= i < |all|
          ensures all[i].conn == ws && all[i].opcode == PongFrame && all[i].payload == PongPayload
        {
          if i >= |step.writes| {
            assert all[i] == rest[i - |step.writes|];
          }
        }
      }
    }
  }

  /** Without a queue URL nothing is published; with one, everything goes to that URL. */
  lemma {:induction false} SessionPublishesToQueue(contents: seq<Conn>, ws: Conn, arrivals: seq<Arrival>, queueUrl: string)
    ensures queueUrl == "" ==> Session(contents, ws, arrivals, queueUrl).published == []
    ensures forall i :: 0 <= i < |Session(contents, ws, arrivals, queueUrl).published| ==>
              Session(contents, ws, arrivals, queueUrl).published[i].queueUrl == queueUrl
  {
    if arrivals != [] {
      var step := ReadFrameEffect(contents, ws, arrivals[0].read, arrivals[0].reply, queueUrl);
      if !step.failed {
        SessionPublishesToQueue(step.contents, ws, arrivals[1..], queueUrl);
      }
    }
  }

  /**
   * A Close frame (opcode 0x8) that is read falls through readFrame's if-chain:
   * the loop neither stops nor unlinks ws, and goes on to the next arrival.
   */
  lemma SessionIgnoresClose(contents: seq<Conn>, ws: Conn, size: nat, data: seq<byte>, reply: WriteOutcome,
                            arrivals: seq<Arrival>, queueUrl: string)
    ensures Session(contents, ws, [Arrival(Received(0x8, size, data), reply)] + arrivals, queueUrl)
         == Session(contents, ws, arrivals, queueUrl)
  {
    var all := [Arrival(Received(0x8, size, data), reply)] + arrivals;
    assert all[1..] == arrivals;
    var rest := Session(contents, ws, arrivals, queueUrl);
    assert [] + rest.writes == rest.writes && [] + rest.published == rest.published;
  }

  /** `whole` is what is done so far, `writes` and `published`, followed by what the loop does from `contents` on `todo`. */
  ghost predicate Accounts(whole: FrameEffect, writes: seq<Write>, published: seq<Publish>,
                           contents: seq<Conn>, ws: Conn, todo: seq<Arrival>, queueUrl: string)
  {
    var rest := Session(contents, ws, todo, queueUrl);
    whole.contents == rest.contents && whole.writes == writes + rest.writes
    && whole.published == published + rest.published && whole.failed == rest.failed
  }

  /** One round of the read loop in which the read succeeded. */
  lemma SessionAdvance(whole: FrameEffect, writes: seq<Write>, published: seq<Publish>,
                       contents: seq<Conn>, ws: Conn, arrivals: seq<Arrival>, queueUrl: string, i: nat)
    requires i < |arrivals| && Accounts(whole, writes, published, contents, ws, arrivals[i..], queueUrl)
    requires !ReadFrameEffect(contents, ws, arrivals[i].read, arrivals[i].reply, queueUrl).failed
    ensures var step := ReadFrameEffect(contents, ws, arrivals[i].read, arrivals[i].reply, queueUrl);
      Accounts(whole, writes + step.writes, published + step.published, step.contents, ws, arrivals[i + 1..], queueUrl)
  {
    var step := ReadFrameEffect(contents, ws, arrivals[i].read, arrivals[i].reply, queueUrl);
    var rest := Session(step.contents, ws, arrivals[i + 1..], queueUrl);
    assert arrivals[i..][1..] == arrivals[i + 1..];
    assert writes + (step.writes + rest.writes) == (writes + step.writes) + rest.writes;
    assert published + (step.published + rest.published) == (published + step.published) + rest.published;
  }

  /** The round in which the read failed: the loop unlinks and that is all. */
  lemma SessionEnd(whole: FrameEffect, writes: seq<Write>, published: seq<Publish>,
                   contents: seq<Conn>, ws: Conn, arrivals: seq<Arrival>, queueUrl: string, i: nat)
    requires i < |arrivals| && Accounts(whole, writes, published, contents, ws, arrivals[i..], queueUrl)
    requires ReadFrameEffect(contents, ws, arrivals[i].read, arrivals[i].reply, queueUrl).failed
    ensures whole == FrameEffect(Unlinked(contents, ws), writes, published, true)
  {
  }

  /** WebsocketHandler(ws): link once, read frames until the first error, then unlink once. */
  method WebsocketHandler(reg: Sockets, ws: Conn, arrivals: seq<Arrival>, queueUrl: string)
    returns (writes: seq<Write>, published: seq<Publish>, stopped: bool)
    requires reg.Valid()
    modifies reg, reg.buf
    ensures reg.Valid()
    ensures FrameEffect(reg.Contents(), writes, published, stopped)
         == Session(old(reg.Contents()) + [ws], ws, arrivals, queueUrl)
  {
    reg.Link(ws);
    ghost var whole := Session(reg.Contents(), ws, arrivals, queueUrl);
    writes, published, stopped := [], [], false;
    var i := 0;
    while i < |arrivals|
      invariant 0 <= i <= |arrivals|
      invariant reg.Valid() && (reg.buf == old(reg.buf) || fresh(reg.buf))
      invariant !stopped
      invariant Accounts(whole, writes, published, reg.Contents(), ws, arrivals[i..], queueUrl)
    {
      ghost var before := reg.Contents();
      var failed, w, p := ReadFrame(reg, ws, arrivals[i].read, arrivals[i].reply, queueUrl);
      if failed {
        SessionEnd(whole, writes, published, before, ws, arrivals, queueUrl, i);
        reg.Unlink(ws);
        stopped := true;
        break;
      }
      SessionAdvance(whole, writes, published, before, ws, arrivals, queueUrl, i);
      writes, published := writes + w, published + p;
      i := i + 1;
    }
  }

  /** What `rounds` of the keepalive loop do: the pings written, the new registry, and whether it stopped. */
  datatype Keepalive = Keepalive(contents: seq<Conn>, writes: seq<Write>, stopped: bool)

  /**
   * The keepalive loop over `rounds`: at most one write per round, and the
   * registry is touched only when the loop stops, by unlinking ws.
   */
  function KeepaliveEffect(contents: seq<Conn>, ws: Conn, rounds: seq<WriteOutcome>): (r: Keepalive)
    ensures |r.writes| <= |rounds|
    ensures r.contents == if r.stopped then Unlinked(contents, ws) else contents
    decreases |rounds|
  {
    if rounds == [] then Keepalive(contents, [], false)
    else if rounds[0] == Written then
      var rest := KeepaliveEffect(contents, ws, rounds[1..]);
      Keepalive(rest.contents, [Write(ws, PingFrame, PingPayload, true)] + rest.writes, rest.stopped)
    else Keepalive(Unlinked(contents, ws), Attempt(ws, PingFrame, PingPayload, rounds[0]), true)
  }

  /** The keepalive stops exactly when some round fails; by KeepaliveEffect's contract it has then unlinked ws once. */
  lemma {:induction false} KeepaliveUnlinksOnce(contents: seq<Conn>, ws: Conn, rounds: seq<WriteOutcome>)
    ensures KeepaliveEffect(contents, ws, rounds).stopped <==> exists j :: 0 <= j < |rounds| && rounds[j] != Written
  {
    if rounds != [] && rounds[0] == Written {
      KeepaliveUnlinksOnce(contents, ws, rounds[1..]);
      var r := KeepaliveEffect(contents, ws, rounds[1..]);
      if r.stopped {
        var j :| 0 <= j < |rounds[1..]| && rounds[1..][j] != Written;
        assert rounds[j + 1] != Written;
      }
      if exists j :: 0 <= j < |rounds| && rounds[j] != Written {
        var j :| 0 <= j < |rounds| && rounds[j] != Written;
        assert rounds[1..][j - 1] != Written;
      }
    }
  }

  /**
   * The keepalive stops at the first failed round: a delivered ping for each
   * round before it, then that round's attempt, and nothing after it.
   */
  lemma {:induction false} KeepaliveStopsAtFirstFailure(contents: seq<Conn>, ws: Conn, rounds: seq<WriteOutcome>, j: nat)
    requires j < |rounds| && rounds[j] != Written
    requires forall i :: 0 <= i < j ==> rounds[i] == Written
    ensures KeepaliveEffect(contents, ws, rounds).writes
         == seq(j, _ => Write(ws, PingFrame, PingPayload, true)) + Attempt(ws, PingFrame, PingPayload, rounds[j])
    ensures KeepaliveEffect(contents, ws, rounds).stopped
  {
    if j > 0 {
      KeepaliveStopsAtFirstFailure(contents, ws, rounds[1..], j - 1);
      var ping := Write(ws, PingFrame, PingPayload, true);
      assert [ping] + seq(j - 1, _ => ping) == seq(j, _ => ping);
    }
  }

  /**
   * One "ping" frame to ws per successful round, in order; only the last write
   * can have failed, and it is the last because the loop then stops. A loop
   * still running has delivered a ping in every round.
   */
  lemma {:induction false} KeepalivePings(contents: seq<Conn>, ws: Conn, rounds: seq<WriteOutcome>)
    ensures forall i :: 0 <= i < |KeepaliveEffect(contents, ws, rounds).writes| ==>
              KeepaliveEffect(contents, ws, rounds).writes[i] == Write(ws, PingFrame, PingPayload, KeepaliveEffect(contents, ws, rounds).writes[i].delivered)
    ensures forall i :: 0 <= i < |KeepaliveEffect(contents, ws, rounds).writes| - 1 ==> KeepaliveEffect(contents, ws, rounds).writes[i].delivered
    ensures !KeepaliveEffect(contents, ws, rounds).stopped ==>
              |KeepaliveEffect(contents, ws, rounds).writes| == |rounds|
              && forall i :: 0 <= i < |rounds| ==> KeepaliveEffect(contents, ws, rounds).writes[i].delivered
  {
    if rounds != [] && rounds[0] == Written {
      KeepalivePings(contents, ws, rounds[1..]);
    }
  }

  /**
   * A registered connection whose ping write fails, in whatever round, leaves
   * the registry one entry shorter, with every other connection unaffected.
   */
  lemma KeepaliveFailureRemovesOne(s: seq<Conn>, ws: Conn, other: Conn, rounds: seq<WriteOutcome>)
    requires ws in s && other != ws
    requires exists j :: 0 <= j < |rounds| && rounds[j] != Written
    ensures |KeepaliveEffect(s, ws, rounds).contents| == |s| - 1
    ensures multiset(KeepaliveEffect(s, ws, rounds).contents)[other] == multiset(s)[other]
  {
    KeepaliveUnlinksOnce(s, ws, rounds);
    UnlinkKeepsOthers(s, ws, other);
  }

  /** `whole` is the pings written so far followed by what the rounds `todo` do from `contents`. */
  ghost predicate KeepaliveAccounts(whole: Keepalive, writes: seq<Write>, contents: seq<Conn>, ws: Conn, todo: seq<WriteOutcome>)
  {
    var rest := KeepaliveEffect(contents, ws, todo);
    whole.contents == rest.contents && whole.writes == writes + rest.writes && whole.stopped == rest.stopped
  }

  /** Round i of the keepalive: a delivered ping moves on to round i + 1; a failed one unlinks and ends the loop. */
  lemma KeepaliveRound(whole: Keepalive, writes: seq<Write>, contents: seq<Conn>, ws: Conn, rounds: seq<WriteOutcome>, i: nat)
    requires i < |rounds| && KeepaliveAccounts(whole, writes, contents, ws, rounds[i..])
    ensures rounds[i] == Written ==>
              KeepaliveAccounts(whole, writes + [Write(ws, PingFrame, PingPayload, true)], contents, ws, rounds[i + 1..])
    ensures rounds[i] != Written ==>
              whole == Keepalive(Unlinked(contents, ws), writes + Attempt(ws, PingFrame, PingPayload, rounds[i]), true)
  {
    assert rounds[i..][1..] == rounds[i + 1..];
    if rounds[i] == Written {
      var rest := KeepaliveEffect(contents, ws, rounds[i + 1..]);
      assert writes + ([Write(ws, PingFrame, PingPayload, true)] + rest.writes)
          == (writes + [Write(ws, PingFrame, PingPayload, true)]) + rest.writes;
    } else {
      assert KeepaliveEffect(contents, ws, rounds[i..]).writes == Attempt(ws, PingFrame, PingPayload, rounds[i]);
    }
  }

  /** ping(ws): write a "ping" frame each round until a write fails, then unlink ws and stop. */
  method Ping(reg: Sockets, ws: Conn, rounds: seq<WriteOutcome>) returns (writes: seq<Write>, stopped: bool)
    requires reg.Valid()
    modifies reg, reg.buf
    ensures reg.Valid() && reg.buf == old(reg.buf)
    ensures Keepalive(reg.Contents(), writes, stopped) == KeepaliveEffect(old(reg.Contents()), ws, rounds)
  {
    ghost var whole := KeepaliveEffect(reg.Contents(), ws, rounds);
    writes, stopped := [], false;
    var i := 0;
    while i < |rounds|
      invariant 0 <= i <= |rounds|
      invariant reg.Valid() && reg.buf == old(reg.buf)
      invariant KeepaliveAccounts(whole, writes, reg.Contents(), ws, rounds[i..])
    {
      KeepaliveRound(whole, writes, reg.Contents(), ws, rounds, i);
      if rounds[i] == WriterFailed {
        reg.Unlink(ws);
        stopped := true;
        break;
      }
      writes := writes + [Write(ws, PingFrame, PingPayload, rounds[i] == Written)];
      if rounds[i] == WriteFailed {
        reg.Unlink(ws);
        stopped := true;
        break;
      }
      i := i + 1;
    }
  }
}
