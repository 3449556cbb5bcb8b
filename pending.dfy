/** The outbound QoS-1 publish queue of MQTTClient.cpp, as values: the list
    `head -> ... -> tail` read front to back. The class in client.dfy keeps
    its linked nodes equal to one of these sequences and is proved against
    the functions below. */
module PendingQueue {
  import opened Wire

  /** `TRY_TIME`: sends after which a pending publish is given up. */
  const TryTime: nat := 10

  /** `INTERVAL_TO_RETRY`, in milliseconds. */
  const IntervalToRetry: nat := 1000

  /** The delay after processing an acknowledgement or discarding an item. */
  const RecheckInterval: nat := 100

  /** One `PublishPacket` node without its `next` link. */
  datatype Pending = Pending(retain: bool, topic: seq<byte>, payload: seq<byte>, id: uint16, tries: uint16)

  function Max(a: int, b: int): int
  {
    if a < b then b else a
  }

  /** The value the scan in `enqueuePublishPacket` ends with: 1, raised to
      every pending id it meets. */
  function MaxId(q: seq<Pending>): (r: uint16)
    ensures r >= 1
    ensures forall i :: 0 <= i < |q| ==> q[i].id <= r
    ensures r == 1 || exists i :: 0 <= i < |q| && q[i].id == r
  {
    if q == [] then 1 else Max(MaxId(q[..|q| - 1]), q[|q| - 1].id)
  }

  /** The id `enqueuePublishPacket` assigns: 1 for an empty queue, otherwise
      the largest one plus one, as a `uint16_t`. */
  function NewId(q: seq<Pending>): uint16
  {
    if q == [] then 1 else (MaxId(q) + 1) % 0x1_0000
  }

  /** `enqueuePublishPacket`: the new item goes in front, untried. */
  function Enqueued(q: seq<Pending>, retain: bool, topic: seq<byte>, payload: seq<byte>): seq<Pending>
  {
    [Pending(retain, topic, payload, NewId(q), 0)] + q
  }

  /** Where the scan of `removePublishPacket` stops: the first item with
      the id, or the length when there is none. */
  function IndexOf(q: seq<Pending>, id: uint16): (k: nat)
    ensures k <= |q|
    ensures k < |q| ==> q[k].id == id
    ensures forall i :: 0 <= i < k ==> q[i].id != id
  {
    if q == [] then 0 else if q[0].id == id then 0 else 1 + IndexOf(q[1..], id)
  }

  /** `removePublishPacket`. */
  function Removed(q: seq<Pending>, id: uint16): seq<Pending>
  {
    var k := IndexOf(q, id);
    if k == |q| then q else q[..k] + q[k + 1..]
  }

  /** `rotatePublishPackets`. */
  function Rotated(q: seq<Pending>): seq<Pending>
  {
    if |q| < 2 then q else q[1..] + [q[0]]
  }

  /** `head->trycount++`. */
  function Bumped(q: seq<Pending>): seq<Pending>
    requires q != [] && q[0].tries < TryTime
  {
    [q[0].(tries := q[0].tries + 1)] + q[1..]
  }

  function Ids(q: seq<Pending>): seq<uint16>
  {
    seq(|q|, i requires 0 <= i < |q| => q[i].id)
  }

  /** No two pending publishes share a packet id. */
  predicate IdsUnique(q: seq<Pending>)
  {
    forall i, j :: 0 <= i < j < |q| ==> q[i].id != q[j].id
  }

  /** No pending publish has been sent more than `TRY_TIME` times. */
  predicate Bounded(q: seq<Pending>)
  {
    forall i :: 0 <= i < |q| ==> q[i].tries <= TryTime
  }

  // ---------------------------------------------------------------------
  // Enqueue

  /** The new item is the head, untried, and the old items follow in order. */
  lemma EnqueuedShape(q: seq<Pending>, retain: bool, topic: seq<byte>, payload: seq<byte>)
    ensures |Enqueued(q, retain, topic, payload)| == |q| + 1
    ensures Enqueued(q, retain, topic, payload)[0] == Pending(retain, topic, payload, NewId(q), 0)
    ensures Enqueued(q, retain, topic, payload)[1..] == q
  {
  }

  /** Section 2.3.1: the new id is non-zero and used by no pending publish,
      unless the largest pending id is already 65535. */
  lemma {:induction false} NewIdFresh(q: seq<Pending>)
    requires MaxId(q) < 65535
    ensures NewId(q) != 0
    ensures forall i :: 0 <= i < |q| ==> q[i].id != NewId(q)
    ensures q != [] ==> NewId(q) == MaxId(q) + 1
  {
  }

  /** An empty queue restarts the numbering at 1. */
  lemma NewIdOfEmpty()
    ensures NewId([]) == 1
  {
  }

  /** With an id of 65535 pending the `uint16_t` increment wraps and the
      new publish gets id 0, which section 2.3.1 forbids; while that one is
      still pending the next publish gets 0 as well, so two pending
      publishes share an id. */
  lemma NewIdWraps(p: Pending, retain: bool, topic: seq<byte>, payload: seq<byte>)
    requires p.id == 65535
    ensures NewId([p]) == 0
    ensures var q := Enqueued([p], retain, topic, payload);
            NewId(q) == 0 && !IdsUnique(Enqueued(q, retain, topic, payload))
  {
    assert [p][..0] == [];
    var q := Enqueued([p], retain, topic, payload);
    assert q[..1][..0] == [];
    assert MaxId(q[..1]) == 1;
    var q2 := Enqueued(q, retain, topic, payload);
    assert q2[0].id == 0 && q2[1].id == 0;
  }

  lemma EnqueuedKeepsInvariants(q: seq<Pending>, retain: bool, topic: seq<byte>, payload: seq<byte>)
    requires Bounded(q) && IdsUnique(q) && MaxId(q) < 65535
    ensures Bounded(Enqueued(q, retain, topic, payload))
    ensures IdsUnique(Enqueued(q, retain, topic, payload))
  {
    NewIdFresh(q);
  }

  // ---------------------------------------------------------------------
  // A packet id that is always fresh

  /** The smallest id from `c` on that no pending publish carries, or 0
      when every id from `c` to 65535 is taken. */
  function LeastFree(q: seq<Pending>, c: nat): (r: uint16)
    requires 1 <= c <= 0x1_0000
    ensures r != 0 ==> c <= r && r !in Ids(q) && forall v :: c <= v < r ==> v in Ids(q)
    ensures r == 0 ==> forall v :: c <= v < 0x1_0000 ==> v in Ids(q)
    decreases 0x1_0000 - c
  {
    if c == 0x1_0000 then 0
    else if c in Ids(q) then LeastFree(q, c + 1)
    else c
  }

  /** The id section 2.3.1 asks for: the largest pending id plus one as
      before while that does not wrap, otherwise the smallest id nobody
      carries. */
  function FreshId(q: seq<Pending>): uint16
  {
    if MaxId(q) < 65535 then NewId(q) else LeastFree(q, 1)
  }

  /** `enqueuePublishPacket` with the fresh id. */
  function EnqueuedFresh(q: seq<Pending>, retain: bool, topic: seq<byte>, payload: seq<byte>): seq<Pending>
  {
    [Pending(retain, topic, payload, FreshId(q), 0)] + q
  }

  /** A queue in which every id from 1 to `n` is pending holds at least
      `n` publishes: taking out the one with id `n` leaves every id below. */
  lemma {:induction false} AllTakenNeedsRoom(q: seq<Pending>, n: nat)
    requires n < 0x1_0000
    requires forall v :: 1 <= v <= n ==> v in Ids(q)
    ensures |q| >= n
    decreases n
  {
    if n > 0 {
      var r := Removed(q, n);
      IndexOfPresent(q, n);
      RemovedItems(q, n);
      forall v | 1 <= v <= n - 1
        ensures v in Ids(r)
      {
        RemovedKeepsOthers(q, n, v);
      }
      AllTakenNeedsRoom(r, n - 1);
    }
  }

  /** The scan finds an id that is pending. */
  lemma IndexOfPresent(q: seq<Pending>, id: uint16)
    requires id in Ids(q)
    ensures IndexOf(q, id) < |q|
  {
    var i :| 0 <= i < |Ids(q)| && Ids(q)[i] == id;
    assert q[i].id == id;
  }

  /** Removing the item with one id keeps every other id pending. */
  lemma RemovedKeepsOthers(q: seq<Pending>, id: uint16, v: int)
    requires v != id && v in Ids(q)
    ensures v in Ids(Removed(q, id))
  {
    var i :| 0 <= i < |Ids(q)| && Ids(q)[i] == v;
    assert q[i].id == v;
    var k := IndexOf(q, id);
    var r := Removed(q, id);
    RemovedItems(q, id);
    if i < k {
      assert Ids(r)[i] == v;
    } else {
      assert Ids(r)[i - 1] == v;
    }
  }

  /** With fewer than 65535 publishes pending the corrected id is non-zero
      and carried by none of them, and it is the old one whenever the old
      one does not wrap. */
  lemma FreshIdFresh(q: seq<Pending>)
    requires |q| < 65535
    ensures FreshId(q) != 0
    ensures forall i :: 0 <= i < |q| ==> q[i].id != FreshId(q)
    ensures MaxId(q) < 65535 ==> FreshId(q) == NewId(q)
  {
    if MaxId(q) < 65535 {
      NewIdFresh(q);
    } else {
      if LeastFree(q, 1) == 0 {
        AllTakenNeedsRoom(q, 65535);
        assert false;
      }
      forall i | 0 <= i < |q|
        ensures q[i].id != FreshId(q)
      {
        assert Ids(q)[i] == q[i].id;
      }
    }
  }

  /** The corrected enqueue keeps ids unique for as long as an id is left,
      with no proviso on the largest one. */
  lemma EnqueuedFreshKeepsInvariants(q: seq<Pending>, retain: bool, topic: seq<byte>, payload: seq<byte>)
    requires Bounded(q) && IdsUnique(q) && |q| < 65535
    ensures Bounded(EnqueuedFresh(q, retain, topic, payload))
    ensures IdsUnique(EnqueuedFresh(q, retain, topic, payload))
    ensures EnqueuedFresh(q, retain, topic, payload)[0].id != 0
  {
    FreshIdFresh(q);
  }

  // ---------------------------------------------------------------------
  // Remove

  /** An id nobody carries leaves the queue as it was. */
  lemma RemovedAbsent(q: seq<Pending>, id: uint16)
    requires forall i :: 0 <= i < |q| ==> q[i].id != id
    ensures Removed(q, id) == q
  {
  }

  /** Exactly the first item with the id goes; the others keep their order. */
  lemma RemovedPresent(q: seq<Pending>, id: uint16, k: nat)
    requires k < |q| && q[k].id == id
    requires forall i :: 0 <= i < k ==> q[i].id != id
    ensures |Removed(q, id)| == |q| - 1
    ensures Removed(q, id)[..k] == q[..k]
    ensures Removed(q, id)[k..] == q[k + 1..]
    ensures multiset(Removed(q, id)) + multiset{q[k]} == multiset(q)
  {
    IndexOfFirst(q, id, k);
    assert q == q[..k] + [q[k]] + q[k + 1..];
  }

  lemma {:induction false} IndexOfFirst(q: seq<Pending>, id: uint16, k: nat)
    requires k < |q| && q[k].id == id
    requires forall i :: 0 <= i < k ==> q[i].id != id
    ensures IndexOf(q, id) == k
  {
    if k > 0 {
      assert q[1..][k - 1] == q[k];
      IndexOfFirst(q[1..], id, k - 1);
    }
  }

  /** Removing the head's id drops the head, which is what discarding an
      item after `TRY_TIME` attempts relies on. */
  lemma RemovedHead(q: seq<Pending>)
    requires q != []
    ensures Removed(q, q[0].id) == q[1..]
  {
  }

  /** With unique ids the acknowledged id is gone afterwards. */
  lemma RemovedUnique(q: seq<Pending>, id: uint16)
    requires IdsUnique(q)
    ensures forall i :: 0 <= i < |Removed(q, id)| ==> Removed(q, id)[i].id != id
    ensures IdsUnique(Removed(q, id))
  {
    RemovedItems(q, id);
  }

  lemma RemovedBounded(q: seq<Pending>, id: uint16)
    requires Bounded(q)
    ensures Bounded(Removed(q, id))
  {
    RemovedItems(q, id);
  }

  /** Where each remaining item came from: those before the removed one
      stay where they were, those after it move up by one. */
  lemma RemovedItems(q: seq<Pending>, id: uint16)
    ensures IndexOf(q, id) < |q| ==> |Removed(q, id)| == |q| - 1
    ensures forall i :: 0 <= i < IndexOf(q, id) && i < |Removed(q, id)| ==> Removed(q, id)[i] == q[i]
    ensures forall i :: IndexOf(q, id) <= i < |q| - 1 && i < |Removed(q, id)| ==> Removed(q, id)[i] == q[i + 1]
    ensures IndexOf(q, id) == |q| ==> Removed(q, id) == q
  {
    var k := IndexOf(q, id);
    if k < |q| {
      var a, b := q[..k], q[k + 1..];
      var r := Removed(q, id);
      assert r == a + b;
      forall i | 0 <= i < k
        ensures r[i] == q[i]
      {
        assert r[i] == a[i];
      }
      forall i | k <= i < |q| - 1
        ensures r[i] == q[i + 1]
      {
        assert r[i] == b[i - k];
      }
    }
  }

  // ---------------------------------------------------------------------
  // Rotate

  /** Fewer than two items: nothing moves. Otherwise the head goes to the
      tail and the rest moves up by one; the items are the same. */
  lemma RotatedShape(q: seq<Pending>)
    ensures |q| < 2 ==> Rotated(q) == q
    ensures |q| >= 2 ==> Rotated(q)[..|q| - 1] == q[1..] && Rotated(q)[|q| - 1] == q[0]
    ensures multiset(Rotated(q)) == multiset(q)
  {
    if |q| >= 2 {
      assert q == [q[0]] + q[1..];
    }
  }

  function RotatedTimes(q: seq<Pending>, n: nat): (r: seq<Pending>)
    ensures |r| == |q|
  {
    if n == 0 then q else Rotated(RotatedTimes(q, n - 1))
  }

  /** After n rotations of a queue of at least two items, item n is the
      head: the round robin takes every item in turn. */
  lemma {:induction false} RotatedTimesShape(q: seq<Pending>, n: nat)
    requires 2 <= |q| && n <= |q|
    ensures RotatedTimes(q, n) == q[n..] + q[..n]
    decreases n
  {
    if n > 0 {
      RotatedTimesShape(q, n - 1);
      var r := RotatedTimes(q, n - 1);
      assert r == q[n - 1..] + q[..n - 1];
      assert r[0] == q[n - 1];
      assert r[1..] == q[n..] + q[..n - 1];
      assert q[..n] == q[..n - 1] + [q[n - 1]];
    }
  }

  /** A full round of rotations gives the queue back unchanged. */
  lemma RotatedFullRound(q: seq<Pending>)
    requires |q| >= 2
    ensures RotatedTimes(q, |q|) == q
    ensures forall n :: 0 <= n < |q| ==> RotatedTimes(q, n)[0] == q[n]
  {
    RotatedTimesShape(q, |q|);
    forall n | 0 <= n < |q|
      ensures RotatedTimes(q, n)[0] == q[n]
    {
      RotatedTimesShape(q, n);
    }
  }

  lemma RotatedKeepsInvariants(q: seq<Pending>)
    requires Bounded(q) && IdsUnique(q)
    ensures Bounded(Rotated(q)) && IdsUnique(Rotated(q))
  {
    if |q| >= 2 {
      var r := Rotated(q);
      assert r == q[1..] + [q[0]];
      assert forall i :: 0 <= i < |r| - 1 ==> r[i] == q[i + 1];
      assert r[|r| - 1] == q[0];
    }
  }

  // ---------------------------------------------------------------------
  // Retry count

  /** A send raises the head's count by one and touches nothing else; the
      bound survives because only items below it are sent. */
  lemma BumpedKeepsInvariants(q: seq<Pending>)
    requires q != [] && q[0].tries < TryTime
    requires Bounded(q) && IdsUnique(q)
    ensures Bounded(Bumped(q)) && IdsUnique(Bumped(q))
    ensures Bumped(q)[0].tries == q[0].tries + 1
    ensures Ids(Bumped(q)) == Ids(q)
  {
  }
}
