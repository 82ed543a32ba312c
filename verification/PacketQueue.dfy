/**
  * The linked list of packet_queue.c. Each critical section is a method tied to the step of module Queue it is;
  * a whole call is the test followed by the change, with nothing in between.
  */
module PacketQueue {
  import opened Queue
  import opened Wrappers

  datatype PktError = PktOk | PktFull | PktEmpty | PktInvalid

  class PktNode {
    const pkt: Packet
    var next: PktNode?
    var prev: PktNode?

    constructor (packet: Packet)
      ensures pkt == packet && next == null && prev == null
    {
      pkt := packet;
      next := null;
      prev := null;
    }
  }

  class PktQueue {
    var size: nat
    var head: PktNode?
    var tail: PktNode?

    /** The nodes from the head, and all nodes the queue ever owned; the tail may be one that was removed. */
    ghost var spine: seq<PktNode>
    ghost var Repr: set<PktNode>

    ghost predicate Valid()
      reads this, Repr
    {
      && (forall i | 0 <= i < |spine| :: spine[i] in Repr)
      && head == (if spine == [] then null else spine[0])
      && (spine != [] ==> tail == spine[|spine| - 1])
      && size == |spine| % 256
      && Linked(spine)
    }

    static ghost predicate Linked(s: seq<PktNode>)
      reads s
    {
      && (forall i, j | 0 <= i < j < |s| :: s[i] != s[j])
      && (forall i {:trigger s[i].next} | 0 <= i < |s| :: s[i].next == if i + 1 < |s| then s[i + 1] else null)
      && (forall i {:trigger s[i].prev} | 0 <= i < |s| :: s[i].prev == if i > 0 then s[i - 1] else null)
    }

    static ghost function Packets(s: seq<PktNode>): (r: seq<Packet>)
      ensures |r| == |s|
    {
      seq(|s|, i requires 0 <= i < |s| => s[i].pkt)
    }

    ghost function AsItems(): Items
      reads this
    {
      Items(Packets(spine), size)
    }

    /** pktQueueInit */
    constructor ()
      ensures Valid() && fresh(Repr) && AsItems() == Items([], 0)
    {
      size, head, tail, spine, Repr := 0, null, null, [], {};
    }

    /** isPktQueueFull */
    method IsFull() returns (r: bool)
      ensures r == Full(AsItems())
    {
      return size == PKT_QUEUE_MAX;
    }

    /** isPktQueueEmpty */
    method IsEmpty() returns (r: bool)
      ensures r == Empty(AsItems())
    {
      return size == 0;
    }

    static lemma {:induction false} Appended(s: seq<PktNode>, x: PktNode)
      requires (forall i, j | 0 <= i < j < |s| :: s[i] != s[j]) && x !in s
      requires x.next == null && x.prev == (if s == [] then null else s[|s| - 1])
      requires forall i {:trigger s[i].next} | 0 <= i < |s| :: s[i].next == if i + 1 < |s| then s[i + 1] else x
      requires forall i {:trigger s[i].prev} | 0 <= i < |s| :: s[i].prev == if i > 0 then s[i - 1] else null
      ensures Linked(s + [x]) && Packets(s + [x]) == Packets(s) + [x.pkt]
    {
      var r := s + [x];
      assert forall i {:trigger r[i]} | 0 <= i < |r| :: r[i] == if i < |s| then s[i] else x;
    }

    /** Links a new node behind the last one. */
    method Attach(newPktNode: PktNode)
      requires Valid() && newPktNode !in Repr
      modifies `head, `tail, Repr, newPktNode
      ensures Linked(spine + [newPktNode]) && Packets(spine + [newPktNode]) == Packets(spine) + [newPktNode.pkt]
      ensures tail == newPktNode && head == if spine == [] then newPktNode else spine[0]
    {
      hide Packets;
      if head == null {
        head := newPktNode;
        tail := newPktNode;
        newPktNode.next := null;
        newPktNode.prev := null;
      } else {
        tail.next := newPktNode;
        newPktNode.next := null;
        newPktNode.prev := tail;
        tail := newPktNode;
      }
      Appended(spine, newPktNode);
    }

    /** The second critical section of pktEnqueue. */
    method Insert(packet: Packet)
      requires Valid()
      modifies this, Repr
      ensures Valid() && fresh(Repr - old(Repr))
      ensures AsItems() == Inserted(old(AsItems()), packet)
    {
      hide Packets, Linked;
      var newPktNode := new PktNode(packet);
      Attach(newPktNode);
      size := (size + 1) % 256;
      spine := spine + [newPktNode];
      Repr := Repr + {newPktNode};
    }

    static lemma {:induction false} Dropped(s: seq<PktNode>)
      requires s != [] && (forall i, j | 0 <= i < j < |s| :: s[i] != s[j])
      requires forall i {:trigger s[i].next} | 0 <= i < |s| :: s[i].next == if i + 1 < |s| then s[i + 1] else null
      requires forall i {:trigger s[i].prev} | 0 < i < |s| :: s[i].prev == if i > 1 then s[i - 1] else null
      ensures Linked(s[1..]) && Packets(s[1..]) == Packets(s)[1..] && Packets(s)[0] == s[0].pkt
    {
      var r := s[1..];
      assert forall i {:trigger r[i]} | 0 <= i < |r| :: r[i] == s[i + 1];
    }

    /** The second critical section of pktDequeue, which takes the head for granted. */
    method Remove() returns (packet: Packet)
      requires Valid() && spine != []
      modifies this, Repr
      ensures Valid() && Repr == old(Repr)
      ensures packet == old(AsItems()).list[0] && AsItems() == Removed(old(AsItems()))
    {
      ghost var s := spine;
      var tmpPktNode := head;
      head := tmpPktNode.next;
      if head != null {
        head.prev := null;
      }
      Counter(|s|);
      size := (size + 255) % 256;
      packet := tmpPktNode.pkt;
      Dropped(s);
      spine := s[1..];
    }

    static lemma {:induction false} Counter(n: nat)
      requires n > 0
      ensures (n % 256 + 255) % 256 == (n - 1) % 256
    {
      if n % 256 == 0 {
        assert (n - 1) % 256 == 255;
      } else {
        assert (n - 1) % 256 == n % 256 - 1;
      }
    }

    /** pktEnqueue, when no other thread comes in between. */
    method PktEnqueue(packet: Option<Packet>) returns (e: PktError)
      requires Valid()
      modifies this, Repr
      ensures Valid() && fresh(Repr - old(Repr))
      ensures e == if packet.None? then PktInvalid else if Full(old(AsItems())) then PktFull else PktOk
      ensures AsItems() == if e.PktOk? then Inserted(old(AsItems()), packet.value) else old(AsItems())
    {
      hide Linked, Inserted;
      if packet.None? {
        return PktInvalid;
      }
      var full := IsFull();
      if full {
        return PktFull;
      }
      Insert(packet.value);
      return PktOk;
    }

    /** pktDequeue, when no other thread comes in between; wanted says whether there is room for the packet. */
    method PktDequeue(wanted: bool) returns (e: PktError, packet: Option<Packet>)
      requires Valid()
      modifies this, Repr
      ensures Valid() && Repr == old(Repr)
      ensures e == if !wanted then PktInvalid else if Empty(old(AsItems())) then PktEmpty else PktOk
      ensures e.PktOk? ==> old(AsItems()).list != [] && AsItems() == Removed(old(AsItems()))
      ensures packet == if e.PktOk? then Some(old(AsItems()).list[0]) else None
      ensures !e.PktOk? ==> AsItems() == old(AsItems())
    {
      hide Linked;
      if !wanted {
        return PktInvalid, None;
      }
      var empty := IsEmpty();
      if empty {
        return PktEmpty, None;
      }
      var p := Remove();
      return PktOk, Some(p);
    }
  }
}
