/**
 * The linked queue of a mailbox and what is done to it while the mailbox's mutex is held
 * (hw5/src/mailbox.c): appending after the tail, taking the head out, and the walk of finalization.
 * To the step relation these are `queue + [e]`, `queue[1..]` and dropping the queue.
 */
module MailboxQueue {
  import opened MailboxProtocol

  class Node {
    var entry: Entry
    var next: Node?

    constructor (entry: Entry)
      ensures this.entry == entry && next == null
    {
      this.entry := entry;
      next := null;
    }
  }

  class Queue {
    var head: Node?
    var tail: Node?
    ghost var nodes: seq<Node>

    /** The nodes form one chain from head to tail; both are NULL when there are none. */
    ghost predicate Valid()
      reads this, nodes
    {
      && (forall i, j :: 0 <= i < j < |nodes| ==> nodes[i] != nodes[j])
      && (forall i :: 0 <= i < |nodes| - 1 ==> nodes[i].next == nodes[i + 1])
      && (if nodes == [] then head == null && tail == null
          else head == nodes[0] && tail == nodes[|nodes| - 1] && nodes[|nodes| - 1].next == null)
    }

    ghost function Contents(): (c: seq<Entry>)
      reads this, nodes
      ensures |c| == |nodes|
    {
      seq(|nodes|, i requires 0 <= i < |nodes| reads this, nodes => nodes[i].entry)
    }

    constructor ()
      ensures Valid() && Contents() == []
    {
      head, tail := null, null;
      nodes := [];
    }

    /** The entry goes after the tail. */
    method Add(e: Entry)
      requires Valid()
      modifies this, nodes
      ensures Valid() && Contents() == old(Contents()) + [e]
      ensures fresh(set n | n in nodes && n !in old(nodes))
    {
      var newNode := new Node(e);
      if head == null {
        head := newNode;
        tail := newNode;
      } else {
        tail.next := newNode;
        tail := newNode;
      }
      nodes := nodes + [newNode];
    }

    /** The first entry is taken out. */
    method Next() returns (e: Entry)
      requires Valid() && Contents() != []
      modifies this
      ensures Valid() && [e] + Contents() == old(Contents())
    {
      var outputNode := head;
      e := outputNode.entry;
      if head == tail {
        assert nodes[0] == nodes[|nodes| - 1];
        head := null;
        tail := null;
      } else {
        head := head.next;
      }
      nodes := nodes[1..];
    }

    /** Finalization visits every node once, in order; the messages met go to the discard hook. */
    method Discard() returns (hooked: seq<Entry>)
      requires Valid()
      ensures hooked == Messages(Contents())
    {
      hooked := [];
      var node := head;
      ghost var k := 0;
      while node != null
        invariant 0 <= k <= |nodes| && node == (if k < |nodes| then nodes[k] else null)
        invariant hooked == Messages(Contents()[..k])
        decreases |nodes| - k
      {
        MessagesAppend(Contents()[..k], Contents()[k]);
        assert Contents()[..k + 1] == Contents()[..k] + [Contents()[k]];
        if node.entry.Message? {
          hooked := hooked + [node.entry];
        }
        node := node.next;
        k := k + 1;
      }
      assert Contents()[..k] == Contents();
    }
  }

  /** The messages of a queue, without the notices. */
  function Messages(q: seq<Entry>): seq<Entry> {
    if q == [] then [] else (if q[0].Message? then [q[0]] else []) + Messages(q[1..])
  }

  lemma {:induction false} MessagesAppend(q: seq<Entry>, e: Entry)
    ensures Messages(q + [e]) == Messages(q) + if e.Message? then [e] else []
  {
    if q == [] {
      assert q + [e] == [e];
    } else {
      assert (q + [e])[1..] == q[1..] + [e];
      MessagesAppend(q[1..], e);
      var first, rest, last := if q[0].Message? then [q[0]] else [], Messages(q[1..]), if e.Message? then [e] else [];
      assert first + (rest + last) == (first + rest) + last;
    }
  }
}
