/**
 * The outbound path of handlers.go: SqsQueueHandler marshals the queue message
 * for each entry of `sockets` and sends it. Its `range` loop fixes the number
 * of rounds and the backing array when it starts, while a failed send unlinks
 * and so shifts that same array under it.
 */
module Broadcast {

  import opened Wrappers
  import opened Registry
  import opened Frames

  /** The backing array and the writes made so far by the loop. */
  datatype Fan = Fan(backing: Backing, writes: seq<Write>)

  /** Round i of the `range`: the recipient is whatever cell i holds now; nothing is sent when marshalling failed. */
  function FanStep(f: Fan, i: nat, encoded: Option<seq<byte>>, result: WriteOutcome): (r: Fan)
    requires f.backing.Valid() && i < |f.backing.cells|
    ensures r.backing.Valid() && |r.backing.cells| == |f.backing.cells|
  {
    match encoded
    case None => f
    case Some(message) =>
      var ws := f.backing.cells[i];
      Fan(AfterWrite(f.backing, ws, result), f.writes + Attempt(ws, TextFrame, message, result))
  }

  /** The first n rounds of the loop, started on backing b; `results[i]` answers the send of round i. */
  function FanOut(b: Backing, n: nat, encoded: Option<seq<byte>>, results: seq<WriteOutcome>): (r: Fan)
    requires b.Valid() && n <= b.len && n <= |results|
    ensures r.backing.Valid() && |r.backing.cells| == |b.cells|
    decreases n
  {
    if n == 0 then Fan(b, [])
    else FanStep(FanOut(b, n - 1, encoded, results), n - 1, encoded, results[n - 1])
  }

  /**
   * When marshalling and every send succeed, each connection linked at the
   * start gets exactly one Text frame with the message, in registry order, and
   * the registry is left as it was.
   */
  lemma {:induction false} FanOutAllDelivered(b: Backing, n: nat, message: seq<byte>, results: seq<WriteOutcome>)
    requires b.Valid() && n <= b.len && n <= |results|
    requires forall i :: 0 <= i < n ==> results[i] == Written
    ensures FanOut(b, n, Some(message), results)
         == Fan(b, seq(n, i requires 0 <= i < n && n <= |b.cells| => Write(b.cells[i], TextFrame, message, true)))
  {
    if n > 0 {
      FanOutAllDelivered(b, n - 1, message, results);
      var sent := seq(n - 1, i requires 0 <= i < n - 1 && n - 1 <= |b.cells| => Write(b.cells[i], TextFrame, message, true));
      assert sent + [Write(b.cells[n - 1], TextFrame, message, true)]
          == seq(n, i requires 0 <= i < n && n <= |b.cells| => Write(b.cells[i], TextFrame, message, true));
    }
  }

  /** A message that cannot be marshalled is sent to nobody, and the registry is left as it was. */
  lemma {:induction false} FanOutMarshalFails(b: Backing, n: nat, results: seq<WriteOutcome>)
    requires b.Valid() && n <= b.len && n <= |results|
    ensures FanOut(b, n, None, results) == Fan(b, [])
  {
    if n > 0 {
      FanOutMarshalFails(b, n - 1, results);
    }
  }

  /**
   * Two connections, the send to the first succeeds and the send to the second
   * fails: the first has the message and the registry holds only the first.
   */
  lemma FanOutTwoConnections(a: Conn, c: Conn, message: seq<byte>)
    requires a != c
    ensures var r := FanOut(Backing([a, c], 2), 2, Some(message), [Written, WriteFailed]);
      r.writes == [Write(a, TextFrame, message, true), Write(c, TextFrame, message, false)]
      && r.backing.Contents() == [a]
  {
    var b := Backing([a, c], 2);
    var one := FanOut(b, 1, Some(message), [Written, WriteFailed]);
    assert FanOut(b, 0, Some(message), [Written, WriteFailed]) == Fan(b, []);
    assert one == Fan(b, [Write(a, TextFrame, message, true)]);
    assert IndexOf([a, c], c) == 1;
    assert b.Contents() == [a, c];
  }

  /**
   * The interference of unlink with the `range` loop: on [1, 2, 3], when the
   * send to 1 fails, unlink shifts 2 and 3 left; round 1 then reads 3 and round
   * 2 reads the stale last cell, 3 again. Connection 2 never gets the message.
   */
  lemma FanOutSkipsAfterFailure(message: seq<byte>)
    ensures var r := FanOut(Backing([1, 2, 3], 3), 3, Some(message), [WriteFailed, Written, Written]);
      r.writes == [Write(1, TextFrame, message, false), Write(3, TextFrame, message, true), Write(3, TextFrame, message, true)]
      && r.backing.Contents() == [2, 3]
  {
    var b := Backing([1, 2, 3], 3);
    var results := [WriteFailed, Written, Written];
    assert IndexOf([1, 2, 3], 1) == 0;
    var shifted := Backing([2, 3, 3], 2);
    assert UnlinkCells(b, 1) == shifted;
    assert FanOut(b, 0, Some(message), results) == Fan(b, []);
    assert FanOut(b, 1, Some(message), results) == Fan(shifted, [Write(1, TextFrame, message, false)]);
    assert FanOut(b, 2, Some(message), results) == Fan(shifted, [Write(1, TextFrame, message, false), Write(3, TextFrame, message, true)]);
  }

  /**
   * SqsQueueHandler(message), as written: for each round of `range sockets`
   * marshal the message and send it to the connection the live array holds at
   * that index. `marshal` stands for json.Marshal.
   */
  method SqsQueueHandler<M>(reg: Sockets, message: M, marshal: M -> Option<seq<byte>>, results: seq<WriteOutcome>)
    returns (writes: seq<Write>)
    requires reg.Valid() && reg.len <= |results|
    modifies reg, reg.buf
    ensures reg.Valid() && reg.buf == old(reg.buf)
    ensures Fan(reg.State(), writes) == FanOut(old(reg.State()), old(reg.len), marshal(message), results)
  {
    var cells, n := reg.buf, reg.len;
    writes := [];
    var i := 0;
    while i < n
      invariant 0 <= i <= n && reg.Valid() && reg.buf == cells
      invariant Fan(reg.State(), writes) == FanOut(old(reg.State()), i, marshal(message), results)
    {
      ghost var f := Fan(reg.State(), writes);
      var ws := cells[i];
      assert ws == f.backing.cells[i];
      var bytes := marshal(message);
      if bytes.Some? {
        var w := Send(reg, bytes.value, ws, results[i]);
        writes := writes + w;
      }
      assert Fan(reg.State(), writes) == FanStep(f, i, marshal(message), results[i]);
      i := i + 1;
    }
  }

  /**
   * One send attempt per snapshot entry, in snapshot order: entry i gets the
   * Text frame with the message, written or not as `results[i]` says, or no
   * frame when its frame writer cannot be had.
   */
  function Attempts(snapshot: seq<Conn>, message: seq<byte>, results: seq<WriteOutcome>): (w: seq<Write>)
    requires |snapshot| <= |results|
    ensures |w| <= |snapshot|
  {
    if snapshot == [] then []
    else Attempt(snapshot[0], TextFrame, message, results[0]) + Attempts(snapshot[1..], message, results[1..])
  }

  /** The connections written to, in order. */
  function Recipients(w: seq<Write>): (r: seq<Conn>)
    ensures |r| == |w| && forall i :: 0 <= i < |w| ==> r[i] == w[i].conn
  {
    seq(|w|, i requires 0 <= i < |w| => w[i].conn)
  }

  /**
   * The writes of the attempts are exactly the frames of the entries whose
   * frame writer could be had: each such entry's frame is among them, and
   * every write is the frame of some such entry.
   */
  lemma {:induction false} AttemptsMembers(snapshot: seq<Conn>, message: seq<byte>, results: seq<WriteOutcome>)
    requires |snapshot| <= |results|
    ensures forall j :: 0 <= j < |snapshot| && results[j] != WriterFailed ==>
              Write(snapshot[j], TextFrame, message, results[j] == Written) in Attempts(snapshot, message, results)
    ensures forall w :: w in Attempts(snapshot, message, results) ==>
              exists j :: 0 <= j < |snapshot| && results[j] != WriterFailed
                          && w == Write(snapshot[j], TextFrame, message, results[j] == Written)
  {
    if snapshot != [] {
      var head := Attempt(snapshot[0], TextFrame, message, results[0]);
      var tail := Attempts(snapshot[1..], message, results[1..]);
      AttemptsMembers(snapshot[1..], message, results[1..]);
      forall j | 0 <= j < |snapshot| && results[j] != WriterFailed
        ensures Write(snapshot[j], TextFrame, message, results[j] == Written) in head + tail
      {
        if j > 0 {
          assert snapshot[1..][j - 1] == snapshot[j] && results[1..][j - 1] == results[j];
        } else {
          assert head[0] == Write(snapshot[0], TextFrame, message, results[0] == Written);
        }
      }
      forall w | w in head + tail
        ensures exists j :: 0 <= j < |snapshot| && results[j] != WriterFailed
                            && w == Write(snapshot[j], TextFrame, message, results[j] == Written)
      {
        if w in tail {
          var j :| 0 <= j < |snapshot[1..]| && results[1..][j] != WriterFailed
                   && w == Write(snapshot[1..][j], TextFrame, message, results[1..][j] == Written);
          assert w == Write(snapshot[j + 1], TextFrame, message, results[j + 1] == Written);
        } else {
          assert w in head;
        }
      }
    }
  }

  /** No two entries of s are the same connection. */
  predicate Distinct(s: seq<Conn>)
  {
    forall i, j :: 0 <= i < j < |s| ==> s[i] != s[j]
  }

  /** Every connection the attempts write to is an entry of the snapshot. */
  lemma {:induction false} RecipientsInSnapshot(snapshot: seq<Conn>, message: seq<byte>, results: seq<WriteOutcome>)
    requires |snapshot| <= |results|
    ensures forall c :: c in Recipients(Attempts(snapshot, message, results)) ==> c in snapshot
  {
    if snapshot != [] {
      var head := Attempt(snapshot[0], TextFrame, message, results[0]);
      var tail := Attempts(snapshot[1..], message, results[1..]);
      RecipientsInSnapshot(snapshot[1..], message, results[1..]);
      assert Recipients(head + tail) == Recipients(head) + Recipients(tail);
      assert forall c :: c in snapshot[1..] ==> c in snapshot;
    }
  }

  /**
   * Over distinct connections, the attempts write to entry i exactly once when
   * its frame writer can be had and never otherwise, whatever the other entries'
   * sends do.
   */
  lemma {:induction false} AttemptsOncePerEntry(snapshot: seq<Conn>, message: seq<byte>, results: seq<WriteOutcome>, i: nat)
    requires |snapshot| <= |results| && Distinct(snapshot) && i < |snapshot|
    ensures multiset(Recipients(Attempts(snapshot, message, results)))[snapshot[i]]
         == if results[i] == WriterFailed then 0 else 1
  {
    var head := Attempt(snapshot[0], TextFrame, message, results[0]);
    var tail := Attempts(snapshot[1..], message, results[1..]);
    var c := snapshot[i];
    assert Recipients(head + tail) == Recipients(head) + Recipients(tail);
    assert Recipients(head) == if results[0] == WriterFailed then [] else [snapshot[0]];
    if i == 0 {
      RecipientsInSnapshot(snapshot[1..], message, results[1..]);
      assert c !in snapshot[1..];
      assert multiset(Recipients(tail))[c] == 0;
    } else {
      assert snapshot[0] != c;
      assert snapshot[1..][i - 1] == c && results[1..][i - 1] == results[i];
      assert Distinct(snapshot[1..]);
      AttemptsOncePerEntry(snapshot[1..], message, results[1..], i - 1);
    }
  }

  /** The rounds over a snapshot: each entry of the snapshot is sent to once, whatever happened before. */
  function SnapshotOut(contents: seq<Conn>, snapshot: seq<Conn>, message: seq<byte>, results: seq<WriteOutcome>)
    : (r: (seq<Conn>, seq<Write>))
    requires |snapshot| <= |results|
    ensures r.1 == Attempts(snapshot, message, results)
    decreases |snapshot|
  {
    if snapshot == [] then (contents, [])
    else
      var ws := snapshot[0];
      var after := if results[0] == Written then contents else Unlinked(contents, ws);
      var rest := SnapshotOut(after, snapshot[1..], message, results[1..]);
      (rest.0, Attempt(ws, TextFrame, message, results[0]) + rest.1)
  }

  /** How many of the first n sends fail. */
  function Failures(results: seq<WriteOutcome>, n: nat): (k: nat)
    requires n <= |results|
    ensures k <= n
  {
    if n == 0 then 0 else (if results[0] == Written then 0 else 1) + Failures(results[1..], n - 1)
  }

  /** How many writes were delivered. */
  function Delivered(writes: seq<Write>): (k: nat)
    ensures k <= |writes|
  {
    if writes == [] then 0 else (if writes[0].delivered then 1 else 0) + Delivered(writes[1..])
  }

  lemma DeliveredAppend(w: seq<Write>, v: seq<Write>)
    requires |w| <= 1
    ensures Delivered(w + v) == Delivered(w) + Delivered(v)
  {
    if w != [] {
      assert (w + v)[0] == w[0];
      assert (w + v)[1..] == v;
      assert w[1..] == [];
    } else {
      assert w + v == v;
    }
  }

  /** Unlinking ws keeps every connection of a list that does not hold ws. */
  lemma UnlinkKeepsAll(contents: seq<Conn>, ws: Conn, rest: seq<Conn>)
    requires forall i :: 0 <= i < |rest| ==> rest[i] in contents && rest[i] != ws
    ensures forall i :: 0 <= i < |rest| ==> rest[i] in Unlinked(contents, ws)
  {
    forall i | 0 <= i < |rest|
      ensures rest[i] in Unlinked(contents, ws)
    {
      UnlinkKeepsOthers(contents, ws, rest[i]);
    }
  }

  /** The attempts deliver as many frames as there are sends that succeed. */
  lemma {:induction false} AttemptsDeliveries(snapshot: seq<Conn>, message: seq<byte>, results: seq<WriteOutcome>)
    requires |snapshot| <= |results|
    ensures Delivered(Attempts(snapshot, message, results)) == |snapshot| - Failures(results, |snapshot|)
  {
    if snapshot != [] {
      AttemptsDeliveries(snapshot[1..], message, results[1..]);
      DeliveredAppend(Attempt(snapshot[0], TextFrame, message, results[0]), Attempts(snapshot[1..], message, results[1..]));
    }
  }

  /** The snapshot entries whose send did not succeed, in snapshot order. */
  function FailedEntries(snapshot: seq<Conn>, results: seq<WriteOutcome>): (f: seq<Conn>)
    requires |snapshot| <= |results|
    ensures |f| == Failures(results, |snapshot|)
  {
    if snapshot == [] then []
    else (if results[0] == Written then [] else [snapshot[0]]) + FailedEntries(snapshot[1..], results[1..])
  }

  /**
   * The entries the snapshot broadcast removes from the registry are the
   * failed connections' own: one copy of each, where there is one.
   */
  lemma {:induction false} SnapshotRemovesFailed(contents: seq<Conn>, snapshot: seq<Conn>, message: seq<byte>, results: seq<WriteOutcome>)
    requires |snapshot| <= |results|
    ensures multiset(SnapshotOut(contents, snapshot, message, results).0)
         == multiset(contents) - multiset(FailedEntries(snapshot, results))
  {
    if snapshot != [] {
      var ws := snapshot[0];
      var after := if results[0] == Written then contents else Unlinked(contents, ws);
      SnapshotRemovesFailed(after, snapshot[1..], message, results[1..]);
      var rest := multiset(FailedEntries(snapshot[1..], results[1..]));
      if results[0] != Written {
        UnlinkedMultiset(contents, ws);
        assert multiset(FailedEntries(snapshot, results)) == multiset{ws} + rest;
        assert multiset(after) - rest == multiset(contents) - (multiset{ws} + rest);
      } else {
        assert FailedEntries(snapshot, results) == FailedEntries(snapshot[1..], results[1..]);
      }
    }
  }

  /** Over distinct linked connections, each failed send removes exactly one registry entry. */
  lemma {:induction false} SnapshotUnlinks(contents: seq<Conn>, snapshot: seq<Conn>, message: seq<byte>, results: seq<WriteOutcome>)
    requires |snapshot| <= |results|
    requires Distinct(snapshot)
    requires forall i :: 0 <= i < |snapshot| ==> snapshot[i] in contents
    ensures |SnapshotOut(contents, snapshot, message, results).0| == |contents| - Failures(results, |snapshot|)
  {
    if snapshot != [] {
      var ws, tail := snapshot[0], snapshot[1..];
      var after := if results[0] == Written then contents else Unlinked(contents, ws);
      assert ws in contents;
      forall i | 0 <= i < |tail|
        ensures tail[i] in contents && tail[i] != ws
      {
        assert tail[i] == snapshot[i + 1];
      }
      forall i, j | 0 <= i < j < |tail|
        ensures tail[i] != tail[j]
      {
        assert tail[i] == snapshot[i + 1] && tail[j] == snapshot[j + 1];
      }
      if results[0] != Written {
        UnlinkKeepsAll(contents, ws, tail);
      }
      SnapshotUnlinks(after, tail, message, results[1..]);
    }
  }

  /**
   * Broadcasting over a snapshot of N distinct linked connections of which K
   * fail: N - K deliveries, and the registry loses exactly the K failed
   * connections' entries.
   */
  lemma SnapshotPartialFailure(contents: seq<Conn>, snapshot: seq<Conn>, message: seq<byte>, results: seq<WriteOutcome>)
    requires |snapshot| <= |results|
    requires Distinct(snapshot)
    requires forall i :: 0 <= i < |snapshot| ==> snapshot[i] in contents
    ensures |SnapshotOut(contents, snapshot, message, results).0| == |contents| - Failures(results, |snapshot|)
    ensures Delivered(SnapshotOut(contents, snapshot, message, results).1) == |snapshot| - Failures(results, |snapshot|)
    ensures multiset(SnapshotOut(contents, snapshot, message, results).0)
         == multiset(contents) - multiset(FailedEntries(snapshot, results))
  {
    SnapshotRemovesFailed(contents, snapshot, message, results);
    SnapshotUnlinks(contents, snapshot, message, results);
    AttemptsDeliveries(snapshot, message, results);
  }

  /** Every write of the snapshot broadcast carries the message in a Text frame to a connection of the snapshot. */
  lemma {:induction false} SnapshotWritesMessage(contents: seq<Conn>, snapshot: seq<Conn>, message: seq<byte>, results: seq<WriteOutcome>)
    requires |snapshot| <= |results|
    ensures var w := SnapshotOut(contents, snapshot, message, results).1;
      |w| <= |snapshot| && forall i :: 0 <= i < |w| ==> w[i].opcode == TextFrame && w[i].payload == message && w[i].conn in snapshot
  {
    if snapshot != [] {
      var ws := snapshot[0];
      var after := if results[0] == Written then contents else Unlinked(contents, ws);
      SnapshotWritesMessage(after, snapshot[1..], message, results[1..]);
      var rest := SnapshotOut(after, snapshot[1..], message, results[1..]);
      var w := Attempt(ws, TextFrame, message, results[0]);
      forall i | 0 <= i < |w + rest.1|
        ensures (w + rest.1)[i].conn in snapshot
      {
        if i >= |w| {
          assert (w + rest.1)[i] == rest.1[i - |w|];
          assert rest.1[i - |w|].conn in snapshot[1..];
        }
      }
    }
  }

  /**
   * The intended broadcast reaches every connection registered when the
   * message arrives: over distinct entries, entry i is written to exactly once
   * when its frame writer can be had, and receives the message exactly when
   * its own send succeeds, whatever the sends to the other entries do.
   */
  lemma SnapshotOncePerEntry(contents: seq<Conn>, snapshot: seq<Conn>, message: seq<byte>, results: seq<WriteOutcome>, i: nat)
    requires |snapshot| <= |results| && Distinct(snapshot) && i < |snapshot|
    ensures multiset(Recipients(SnapshotOut(contents, snapshot, message, results).1))[snapshot[i]]
         == if results[i] == WriterFailed then 0 else 1
    ensures Write(snapshot[i], TextFrame, message, true) in SnapshotOut(contents, snapshot, message, results).1
        <==> results[i] == Written
  {
    AttemptsOncePerEntry(snapshot, message, results, i);
    AttemptsMembers(snapshot, message, results);
    var w := SnapshotOut(contents, snapshot, message, results).1;
    if Write(snapshot[i], TextFrame, message, true) in w {
      var j :| 0 <= j < |snapshot| && results[j] != WriterFailed
               && Write(snapshot[i], TextFrame, message, true) == Write(snapshot[j], TextFrame, message, results[j] == Written);
      assert j == i;
    }
  }

  /**
   * When every send succeeds, each entry of the snapshot gets exactly one Text
   * frame with the message, in snapshot order, and the registry is unchanged.
   */
  lemma {:induction false} SnapshotAllDelivered(contents: seq<Conn>, snapshot: seq<Conn>, message: seq<byte>, results: seq<WriteOutcome>)
    requires |snapshot| <= |results| && forall i :: 0 <= i < |snapshot| ==> results[i] == Written
    ensures SnapshotOut(contents, snapshot, message, results).0 == contents
    ensures SnapshotOut(contents, snapshot, message, results).1
         == seq(|snapshot|, i requires 0 <= i < |snapshot| => Write(snapshot[i], TextFrame, message, true))
  {
    if snapshot != [] {
      var tail := snapshot[1..];
      assert forall i :: 0 <= i < |tail| ==> results[1..][i] == results[i + 1];
      SnapshotAllDelivered(contents, tail, message, results[1..]);
      var rest := seq(|tail|, i requires 0 <= i < |tail| => Write(tail[i], TextFrame, message, true));
      assert [Write(snapshot[0], TextFrame, message, true)] + rest
          == seq(|snapshot|, i requires 0 <= i < |snapshot| => Write(snapshot[i], TextFrame, message, true));
    }
  }

  /** `whole` is the writes made so far followed by what the rounds over `todo` do from `contents`. */
  ghost predicate SnapshotAccounts(whole: (seq<Conn>, seq<Write>), writes: seq<Write>,
                                   contents: seq<Conn>, todo: seq<Conn>, message: seq<byte>, results: seq<WriteOutcome>)
  {
    |todo| <= |results| &&
    var rest := SnapshotOut(contents, todo, message, results);
    whole.0 == rest.0 && whole.1 == writes + rest.1
  }

  /** One round of the snapshot broadcast: the send to `snapshot[i]`. */
  lemma SnapshotAdvance(whole: (seq<Conn>, seq<Write>), writes: seq<Write>, contents: seq<Conn>,
                        snapshot: seq<Conn>, message: seq<byte>, results: seq<WriteOutcome>, i: nat)
    requires i < |snapshot| <= |results|
    requires SnapshotAccounts(whole, writes, contents, snapshot[i..], message, results[i..])
    ensures var ws := snapshot[i];
      SnapshotAccounts(whole, writes + Attempt(ws, TextFrame, message, results[i]),
                       if results[i] == Written then contents else Unlinked(contents, ws),
                       snapshot[i + 1..], message, results[i + 1..])
  {
    assert snapshot[i..][1..] == snapshot[i + 1..];
    assert results[i..][1..] == results[i + 1..];
    var ws := snapshot[i];
    var after := if results[i] == Written then contents else Unlinked(contents, ws);
    var tail := SnapshotOut(after, snapshot[i + 1..], message, results[i + 1..]);
    var w := Attempt(ws, TextFrame, message, results[i]);
    assert writes + (w + tail.1) == (writes + w) + tail.1;
  }

  /**
   * The evidently intended broadcast: marshal once, take a snapshot of the
   * registry, and send to every entry of the snapshot; unlinks no longer move
   * the entries still to be visited.
   */
  method BroadcastSnapshot<M>(reg: Sockets, message: M, marshal: M -> Option<seq<byte>>, results: seq<WriteOutcome>)
    returns (writes: seq<Write>)
    requires reg.Valid() && reg.len <= |results|
    modifies reg, reg.buf
    ensures reg.Valid() && reg.buf == old(reg.buf)
    ensures marshal(message).None? ==> writes == [] && reg.Contents() == old(reg.Contents())
    ensures marshal(message).Some? ==>
              (reg.Contents(), writes) == SnapshotOut(old(reg.Contents()), old(reg.Contents()), marshal(message).value, results)
  {
    writes := [];
    var bytes := marshal(message);
    if bytes.None? {
      return;
    }
    ghost var whole := SnapshotOut(reg.Contents(), reg.Contents(), bytes.value, results);
    var snapshot := reg.buf[..reg.len];
    var i := 0;
    while i < |snapshot|
      invariant 0 <= i <= |snapshot| && reg.Valid() && reg.buf == old(reg.buf)
      invariant SnapshotAccounts(whole, writes, reg.Contents(), snapshot[i..], bytes.value, results[i..])
    {
      ghost var before := reg.Contents();
      var w := Send(reg, bytes.value, snapshot[i], results[i]);
      SnapshotAdvance(whole, writes, before, snapshot, bytes.value, results, i);
      writes := writes + w;
      i := i + 1;
    }
    assert snapshot[i..] == [];
    assert writes + [] == writes;
  }
}
