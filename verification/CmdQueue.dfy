/** The command queue as a ring of links (core/rtw_cmd.c, with the kernel's list_head), refining the list of the
    step system in CmdThread. */
module CmdQueue {
  import opened CmdThread

  /** A command object with its list link; the queue's own link is a Node without a command. */
  class Node {
    const cmd: CmdId
    var next: Node?
    var prev: Node?

    constructor (cmd: CmdId)
      ensures this.cmd == cmd && next == this && prev == this
    {
      this.cmd := cmd;
      new;
      next, prev := this, this;
    }
  }

  /** The links of r lead around it in both directions. */
  ghost predicate Ring(r: seq<Node>)
    reads (set n | n in r)`next, (set n | n in r)`prev
  {
    && (forall i {:trigger r[i].next} :: 0 <= i < |r| ==> r[i].next == if i + 1 < |r| then r[i + 1] else r[0])
    && (forall i {:trigger r[i].prev} :: 0 <= i < |r| ==> r[i].prev == if i > 0 then r[i - 1] else r[|r| - 1])
    && (forall i, j :: 0 <= i < j < |r| ==> r[i] != r[j])
  }

  ghost function Ids(nodes: seq<Node>): seq<CmdId> {
    if nodes == [] then [] else [nodes[0].cmd] + Ids(nodes[1..])
  }

  lemma {:induction false} IdsSnoc(nodes: seq<Node>, n: Node)
    ensures Ids(nodes + [n]) == Ids(nodes) + [n.cmd]
  {
    if nodes == [] {
      assert Ids([n][1..]) == [];
    } else {
      assert (nodes + [n])[1..] == nodes[1..] + [n];
      IdsSnoc(nodes[1..], n);
    }
  }

  class CmdQueue {
    const head: Node
    ghost var nodes: seq<Node>   // the objects queued, first to last

    ghost predicate Valid()
      reads this, head, nodes
    {
      Ring([head] + nodes)
    }

    constructor ()
      ensures Valid() && fresh(head) && nodes == []
    {
      head := new Node(0);
      nodes := [];
    }

    /** _rtw_enqueue_cmd: rtw_list_insert_tail links the object between the last one and the head.  The list of the
        step system grows as its insertion says. */
    method Enqueue(obj: Node?, ghost q: Queue)
      requires Valid() && (obj != null ==> obj != head && obj !in nodes)
      requires q.list == Ids(nodes)
      modifies this`nodes, head, nodes, obj
      ensures Valid() && nodes == old(nodes) + if obj == null then [] else [obj]
      ensures obj != null && !q.pc.Done? ==> Ids(nodes) == Insert(q, obj.cmd, true).list
    {
      if obj == null {
        return;
      }
      IdsSnoc(nodes, obj);
      ghost var r := [head] + nodes;
      assert r[0].prev == r[|r| - 1];
      var last := head.prev;
      LinkBefore(obj, last, r);
      nodes := nodes + [obj];
      assert r + [obj] == [head] + nodes;
    }

    /** _rtw_dequeue_cmd: the object behind the head is unlinked, as the thread's move in its loop or when
        it drains the queue says; or there is none. */
    method Dequeue(ghost q: Queue) returns (obj: Node?)
      requires Valid() && q.list == Ids(nodes) && (q.pc.Next? || q.pc.Drain?)
      modifies this`nodes, head, nodes
      ensures Valid() && obj !in nodes
      ensures var q' := ThreadMove(q, false, true);
              && Ids(nodes) == q'.list
              && (obj == null <==> q'.pc.Unregistering? || q'.pc.DrainUnregister?)
              && (obj != null ==> if q.pc.Next? then q'.pc == Process(obj.cmd) else q'.dropped == q.dropped + [obj.cmd])
      ensures obj == null ==> nodes == old(nodes) == []
      ensures obj != null ==> old(nodes) == [obj] + nodes && obj.next == obj && obj.prev == obj
    {
      ghost var r := [head] + nodes;
      assert r[0].next == if 1 < |r| then r[1] else r[0];
      if head.next == head {
        return null;
      }
      obj := head.next;
      Unlink(obj, r);
      assert nodes == [obj] + nodes[1..] && forall i :: 1 <= i < |nodes| ==> nodes[i] == r[i + 1];
      nodes := nodes[1..];
      assert [head] + nodes == [r[0]] + r[2..];
    }

    /** __list_add(obj, last, head) */
    method LinkBefore(obj: Node, last: Node?, ghost r: seq<Node>)
      requires r != [] && r[0] == head && Ring(r) && obj !in r && last == r[|r| - 1]
      modifies head, last, obj
      ensures Ring(r + [obj])
    {
      head.prev := obj;
      obj.next := head;
      obj.prev := last;
      last.next := obj;
    }

    /** list_del_init of the first object */
    method Unlink(obj: Node, ghost r: seq<Node>)
      requires |r| > 1 && r[0] == head && r[1] == obj && Ring(r)
      modifies r
      ensures Ring([r[0]] + r[2..]) && obj.next == obj && obj.prev == obj
    {
      assert r[1].prev == r[0] && r[1].next == if 2 < |r| then r[2] else r[0];
      obj.next.prev := obj.prev;
      obj.prev.next := obj.next;
      obj.next, obj.prev := obj, obj;
    }
  }
}
