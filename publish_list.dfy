/** The nodes of MQTTClient.cpp's publish list and the shape a list of
    them must have. */
module PublishList {
  import opened Wire
  import opened PendingQueue

  /** One node of the publish list. */
  class PublishPacket {
    var retain: bool
    var topicname: seq<byte>
    var payload: seq<byte>
    var packetid: uint16
    var trycount: uint16
    var next: PublishPacket?

    /** `new PublishPacket()` with the fields `publish` fills in; the id,
        the count and the link are set by `enqueuePublishPacket`. */
    constructor (retain: bool, topicname: seq<byte>, payload: seq<byte>)
      ensures this.retain == retain && this.topicname == topicname && this.payload == payload
      ensures next == null
    {
      this.retain := retain;
      this.topicname := topicname;
      this.payload := payload;
      packetid := 0;
      trycount := 0;
      next := null;
    }

    /** What `enqueuePublishPacket` stores in the new node: its id, no
        tries yet, and the old head as its successor. */
    method Link(id: uint16, successor: PublishPacket?)
      modifies this`packetid, this`trycount, this`next
      ensures packetid == id && trycount == 0 && next == successor
    {
      packetid := id;
      trycount := 0;
      next := successor;
    }

    /** The node's contents, without its link. */
    function Item(): Pending
      reads this`retain, this`topicname, this`payload, this`packetid, this`trycount
    {
      Pending(retain, topicname, payload, packetid, trycount)
    }
  }

  /** No node appears twice in the list. */
  predicate Distinct(ns: seq<PublishPacket>)
  {
    forall i, j :: 0 <= i < j < |ns| ==> ns[i] != ns[j]
  }

  /** `head` and `tail` are the first and last node, or both null. */
  predicate Ends(head: PublishPacket?, tail: PublishPacket?, ns: seq<PublishPacket>)
  {
    && (ns == [] ==> head == null && tail == null)
    && (ns != [] ==> head == ns[0] && tail == ns[|ns| - 1])
  }

  /** Each node links to the one after it and the last to nothing. */
  ghost predicate Chain(ns: seq<PublishPacket>)
    reads ns`next
  {
    && (forall i :: 0 <= i < |ns| - 1 ==> ns[i].next == ns[i + 1])
    && (ns != [] ==> ns[|ns| - 1].next == null)
  }

  /** The nodes hold the items, in order. */
  ghost predicate Holds(ns: seq<PublishPacket>, q: seq<Pending>)
    reads ns`retain, ns`topicname, ns`payload, ns`packetid, ns`trycount
  {
    |ns| == |q| && forall i :: 0 <= i < |ns| ==> ns[i].Item() == q[i]
  }

  lemma ChainCons(p: PublishPacket, ns: seq<PublishPacket>)
    requires Chain(ns)
    requires p.next == if ns == [] then null else ns[0]
    ensures Chain([p] + ns)
  {
    var r := [p] + ns;
    assert forall i :: 1 <= i < |r| ==> r[i] == ns[i - 1];
  }

  lemma HoldsCons(p: PublishPacket, item: Pending, ns: seq<PublishPacket>, q: seq<Pending>)
    requires Holds(ns, q) && p.Item() == item
    ensures Holds([p] + ns, [item] + q)
  {
    var r, s := [p] + ns, [item] + q;
    assert forall i :: 1 <= i < |r| ==> r[i] == ns[i - 1] && s[i] == q[i - 1];
  }

  lemma DistinctCons(p: PublishPacket, ns: seq<PublishPacket>)
    requires Distinct(ns) && p !in ns
    ensures Distinct([p] + ns)
  {
    var r := [p] + ns;
    assert forall i :: 1 <= i < |r| ==> r[i] == ns[i - 1];
  }

  /** Bypassing node `i`: its predecessor, if any, now links to its
      successor and every other link is as before. */
  lemma ChainWithout(ns: seq<PublishPacket>, i: nat)
    requires i < |ns| && Distinct(ns)
    requires forall j :: 0 <= j < |ns| - 1 && j != i - 1 ==> ns[j].next == ns[j + 1]
    requires i != |ns| - 1 ==> ns[|ns| - 1].next == null
    requires i > 0 ==> ns[i - 1].next == if i + 1 < |ns| then ns[i + 1] else null
    ensures Chain(ns[..i] + ns[i + 1..])
  {
    Without(ns, i);
  }

  lemma HoldsWithout(ns: seq<PublishPacket>, q: seq<Pending>, i: nat)
    requires i < |ns| && Holds(ns, q)
    ensures Holds(ns[..i] + ns[i + 1..], q[..i] + q[i + 1..])
  {
    Without(ns, i);
    Without(q, i);
  }

  lemma DistinctWithout(ns: seq<PublishPacket>, i: nat)
    requires i < |ns| && Distinct(ns)
    ensures Distinct(ns[..i] + ns[i + 1..])
    ensures forall n :: n in ns[..i] + ns[i + 1..] ==> n in ns
  {
    Without(ns, i);
  }

  /** Dropping element `i`: the ones before stay, the ones after move up. */
  lemma Without<T>(s: seq<T>, i: nat)
    requires i < |s|
    ensures |s[..i] + s[i + 1..]| == |s| - 1
    ensures forall j :: 0 <= j < i ==> (s[..i] + s[i + 1..])[j] == s[j]
    ensures forall j :: i < j < |s| ==> (s[..i] + s[i + 1..])[j - 1] == s[j]
  {
  }

  /** Moving the first node behind the last: the old last node links to
      it, it links to nothing, every other link is as before. */
  lemma ChainRotated(ns: seq<PublishPacket>)
    requires |ns| >= 2
    requires forall j :: 1 <= j < |ns| - 1 ==> ns[j].next == ns[j + 1]
    requires ns[|ns| - 1].next == ns[0] && ns[0].next == null
    ensures Chain(ns[1..] + [ns[0]])
  {
    var r := ns[1..] + [ns[0]];
    assert forall j :: 0 <= j < |r| - 1 ==> r[j] == ns[j + 1];
  }

  lemma HoldsRotated(ns: seq<PublishPacket>, q: seq<Pending>)
    requires |ns| >= 2 && Holds(ns, q)
    ensures Holds(ns[1..] + [ns[0]], q[1..] + [q[0]])
  {
    var r, s := ns[1..] + [ns[0]], q[1..] + [q[0]];
    assert forall j :: 0 <= j < |r| - 1 ==> r[j] == ns[j + 1] && s[j] == q[j + 1];
  }

  lemma DistinctRotated(ns: seq<PublishPacket>)
    requires |ns| >= 2 && Distinct(ns)
    ensures Distinct(ns[1..] + [ns[0]])
  {
    var r := ns[1..] + [ns[0]];
    assert forall j :: 0 <= j < |r| - 1 ==> r[j] == ns[j + 1];
  }

  /** The list invariant of `MQTTClient`: `head` to `tail` are the
      distinct nodes `ns`, linked in order, holding the items `q`, none
      counted past `TRY_TIME`. */
  ghost predicate ListValid(head: PublishPacket?, tail: PublishPacket?, ns: seq<PublishPacket>, q: seq<Pending>)
    reads ns
  {
    && |ns| == |q|
    && Ends(head, tail, ns)
    && Chain(ns)
    && Distinct(ns)
    && Holds(ns, q)
    && Bounded(q)
  }
}
