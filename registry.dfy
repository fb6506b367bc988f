/**
 * The `sockets` registry of handlers.go: a Go slice of connections that `link`
 * appends to and `unlink` removes the first matching entry from, shifting the
 * tail left inside the same backing array.
 */
module Registry {

  /** A connection is known by its *websocket.Conn pointer: equal ids are the same connection. */
  type Conn = nat

  /** The position of the first entry equal to c, or -1 when there is none: the `index` unlink's search computes. */
  function IndexOf(s: seq<Conn>, c: Conn): (k: int)
    ensures -1 <= k < |s|
    ensures k == -1 <==> c !in s
    ensures 0 <= k ==> s[k] == c && c !in s[..k]
  {
    if s == [] then -1
    else if s[0] == c then 0
    else
      var k := IndexOf(s[1..], c);
      if k == -1 then -1
      else
        assert s[..k + 1] == [s[0]] + s[1..][..k];
        k + 1
  }

  /** The registry contents after unlink(c): the first c is gone and every other entry keeps its order. */
  function Unlinked(s: seq<Conn>, c: Conn): (r: seq<Conn>)
    ensures c in s ==> |r| == |s| - 1
    ensures c !in s ==> r == s
    ensures 0 <= IndexOf(s, c) ==> r == s[..IndexOf(s, c)] + s[IndexOf(s, c) + 1..]
  {
    var k := IndexOf(s, c);
    if k == -1 then s else s[..k] + s[k + 1..]
  }

  /** Unlinking removes exactly one copy of c, when there is one, and no other entry. */
  lemma UnlinkedMultiset(s: seq<Conn>, c: Conn)
    ensures multiset(Unlinked(s, c)) == multiset(s) - multiset{c}
  {
    var k := IndexOf(s, c);
    if k == -1 {
      assert multiset(s)[c] == 0;
    } else {
      var front, back := s[..k], s[k + 1..];
      assert s == front + [c] + back;
      calc {
        multiset(s);
        multiset(front) + multiset{c} + multiset(back);
        multiset(front + back) + multiset{c};
      }
    }
  }

  /** A position holding c with no c before it is the position the search finds. */
  lemma IndexOfFirst(s: seq<Conn>, c: Conn, k: nat)
    requires k < |s| && s[k] == c
    requires forall j :: 0 <= j < k ==> s[j] != c
    ensures IndexOf(s, c) == k
  {
  }

  /** An independent reference definition of "remove the first occurrence", by recursion on the list. */
  function RemoveFirst(s: seq<Conn>, c: Conn): seq<Conn>
  {
    if s == [] then []
    else if s[0] == c then s[1..]
    else [s[0]] + RemoveFirst(s[1..], c)
  }

  lemma {:induction false} UnlinkedIsRemoveFirst(s: seq<Conn>, c: Conn)
    ensures Unlinked(s, c) == RemoveFirst(s, c)
  {
    if s != [] && s[0] != c {
      var t := s[1..];
      UnlinkedIsRemoveFirst(t, c);
      var k := IndexOf(t, c);
      if k == -1 {
        assert c !in s;
      } else {
        assert IndexOf(s, c) == k + 1;
        calc {
          Unlinked(s, c);
          s[..k + 1] + s[k + 2..];
          { assert s[..k + 1] == [s[0]] + t[..k]; assert s[k + 2..] == t[k + 1..]; }
          [s[0]] + (t[..k] + t[k + 1..]);
          [s[0]] + Unlinked(t, c);
        }
      }
    }
  }

  /** A connection linked once and then unlinked leaves the registry as it was. */
  lemma LinkThenUnlink(s: seq<Conn>, c: Conn)
    requires c !in s
    ensures Unlinked(s + [c], c) == s
  {
    assert IndexOf(s + [c], c) == |s| by {
      assert (s + [c])[|s|] == c;
      assert (s + [c])[..|s|] == s;
    }
    assert (s + [c])[..|s|] == s;
  }

  /** Unlinking a connection that occurs once, a second time, changes nothing. */
  lemma UnlinkTwiceIsUnlinkOnce(s: seq<Conn>, c: Conn)
    requires multiset(s)[c] == 1
    ensures Unlinked(Unlinked(s, c), c) == Unlinked(s, c)
  {
    UnlinkedMultiset(s, c);
    assert multiset(Unlinked(s, c))[c] == 0;
  }

  /** Other connections are unaffected: each entry other than c is still there, as often as before. */
  lemma UnlinkKeepsOthers(s: seq<Conn>, c: Conn, d: Conn)
    requires d != c
    ensures multiset(Unlinked(s, c))[d] == multiset(s)[d]
    ensures d in s ==> d in Unlinked(s, c)
  {
    UnlinkedMultiset(s, c);
    assert d in s ==> multiset(s)[d] > 0;
  }

  /** A Go slice over its backing array: every cell of the array and the slice length. */
  datatype Backing = Backing(cells: seq<Conn>, len: nat) {

    predicate Valid() { len <= |cells| }

    /** The connections the slice sees. */
    function Contents(): seq<Conn>
      requires Valid()
    {
      cells[..len]
    }
  }

  /**
   * What `sockets = append(sockets[:k], sockets[k+1:]...)` does to the backing array:
   * cells k+1 .. len-1 move one place left, the array keeps its size and the
   * cell at len-1 keeps its old value.
   */
  function UnlinkCells(b: Backing, c: Conn): (r: Backing)
    requires b.Valid()
    ensures r.Valid() && |r.cells| == |b.cells|
    ensures r.Contents() == Unlinked(b.Contents(), c)
    ensures c in b.Contents() ==> r.len == b.len - 1
    ensures c !in b.Contents() ==> r == b
  {
    var k := IndexOf(b.Contents(), c);
    if k == -1 then b
    else
      var r := Backing(b.cells[..k] + b.cells[k + 1..b.len] + b.cells[b.len - 1..], b.len - 1);
      assert r.Contents() == b.Contents()[..k] + b.Contents()[k + 1..];
      r
  }

  /** The cells after the in-place shift over position k of a slice of length n are those UnlinkCells describes. */
  lemma ShiftedCells(before: seq<Conn>, after: seq<Conn>, k: nat, n: nat)
    requires k < n <= |before| == |after|
    requires forall j :: 0 <= j < k ==> after[j] == before[j]
    requires forall j :: k <= j < n - 1 ==> after[j] == before[j + 1]
    requires forall j :: n - 1 <= j < |before| ==> after[j] == before[j]
    ensures after == before[..k] + before[k + 1..n] + before[n - 1..]
  {
    var shifted := before[..k] + before[k + 1..n] + before[n - 1..];
    forall j | 0 <= j < |after|
      ensures after[j] == shifted[j]
    {
      if j < k {
      } else if j < n - 1 {
        assert shifted[j] == before[j + 1];
      } else {
        assert shifted[j] == before[j];
      }
    }
  }

  /** The `sockets` global: `buf[..len]` is the slice, `buf` its backing array. */
  class Sockets {
    var buf: array<Conn>
    var len: nat

    ghost predicate Valid()
      reads this
    {
      len <= buf.Length
    }

    /** The backing array and slice length as a value. */
    ghost function State(): (b: Backing)
      reads this, buf
      requires Valid()
      ensures b.Valid() && b.Contents() == Contents()
    {
      Backing(buf[..], len)
    }

    /** The connections currently linked, in registry order. */
    ghost function Contents(): seq<Conn>
      reads this, buf
      requires Valid()
    {
      buf[..len]
    }

    /** The nil slice the program starts with. */
    constructor ()
      ensures Valid() && fresh(buf)
      ensures Contents() == []
    {
      buf := new Conn[0];
      len := 0;
    }

    /** link(ws): append, with no check for an entry already present. */
    method Link(ws: Conn)
      requires Valid()
      modifies this, buf
      ensures Valid()
      ensures Contents() == old(Contents()) + [ws]
      ensures buf == old(buf) || fresh(buf)
    {
      if len == buf.Length {
        // append with no spare capacity copies the slice into a larger backing array
        var grown := new Conn[2 * buf.Length + 1];
        forall i | 0 <= i < len {
          grown[i] := buf[i];
        }
        buf := grown;
      }
      buf[len] := ws;
      len := len + 1;
    }

    /** The search loop of unlink: the position of the first entry equal to staleConn, or -1. */
    method Find(staleConn: Conn) returns (index: int)
      requires Valid()
      ensures -1 <= index < len
      ensures index == -1 <==> staleConn !in Contents()
      ensures index != -1 ==> buf[index] == staleConn && forall j :: 0 <= j < index ==> buf[j] != staleConn
      ensures index == IndexOf(Contents(), staleConn)
    {
      index := -1;
      var i := 0;
      while i < len
        invariant 0 <= i <= len
        invariant index == -1
        invariant forall j :: 0 <= j < i ==> buf[j] != staleConn
      {
        if buf[i] == staleConn {
          index := i;
          IndexOfFirst(Contents(), staleConn, index);
          return;
        }
        i := i + 1;
      }
      assert staleConn !in Contents();
    }

    /** `sockets = append(sockets[:k], sockets[k+1:]...)`: shift the cells after k one place left, in the same array. */
    method RemoveAt(k: nat)
      requires Valid() && k < len
      modifies this, buf
      ensures Valid() && buf == old(buf) && len == old(len) - 1
      ensures buf[..] == old(buf[..k]) + old(buf[k + 1..len]) + old(buf[len - 1..])
    {
      ghost var before := buf[..];
      forall j | k <= j < len - 1 {
        buf[j] := buf[j + 1];
      }
      ShiftedCells(before, buf[..], k, len);
      len := len - 1;
    }

    /** unlink(staleConn): find the first equal entry and shift the tail over it; nothing when absent. */
    method Unlink(staleConn: Conn)
      requires Valid()
      modifies this, buf
      ensures Valid() && buf == old(buf)
      ensures State() == UnlinkCells(old(State()), staleConn)
      ensures Contents() == Unlinked(old(Contents()), staleConn)
    {
      var index := Find(staleConn);
      if index != -1 {
        RemoveAt(index);
      }
    }
  }
}
