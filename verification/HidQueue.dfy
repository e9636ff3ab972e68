/** The report queue of hid.c (lines 738-776, 1063-1075, 1266-1270): a linked list that keeps the newest
    32 reports. The methods run under the device mutex. */
module HidQueue {
  import opened Bytes

  /** The list after a report has been attached; the oldest is dropped once 32 are waiting. */
  function Attached(q: seq<Octets>, r: Octets): seq<Octets> {
    if |q| >= 32 then q[1..] + [r] else q + [r]
  }

  class InputReport {
    const data: Octets
    var next: InputReport?

    constructor (data: Octets)
      ensures this.data == data && next == null
    {
      this.data, next := data, null;
    }
  }

  ghost function DataOf(nodes: seq<InputReport>): (r: seq<Octets>)
    ensures |r| == |nodes|
    ensures forall i :: 0 <= i < |nodes| ==> r[i] == nodes[i].data
  {
    seq(|nodes|, i requires 0 <= i < |nodes| => nodes[i].data)
  }

  /** Each node leads to the one behind it, and the last to `end`. */
  ghost predicate Chained(nodes: seq<InputReport>, end: InputReport?)
    reads nodes
  {
    && (forall i, j :: 0 <= i < j < |nodes| && j == i + 1 ==> nodes[i].next == nodes[j])
    && (nodes != [] ==> nodes[|nodes| - 1].next == end)
  }

  lemma ChainedTail(nodes: seq<InputReport>)
    requires nodes != [] && Chained(nodes, null)
    ensures Chained(nodes[1..], null)
    ensures nodes[0].next == if |nodes| == 1 then null else nodes[1]
  {}

  ghost predicate NoRepeats(s: seq<InputReport>) {
    forall i, j :: 0 <= i < j < |s| ==> s[i] != s[j]
  }

  lemma NoRepeatsSnoc(s: seq<InputReport>, x: InputReport)
    requires NoRepeats(s) && x !in s
    ensures NoRepeats(s + [x])
  {}

  /** The first node moves from the list to the freed ones. */
  lemma TailOnce(nodes: seq<InputReport>, freed: seq<InputReport>)
    requires nodes != [] && NoRepeats(freed) && NoRepeats(nodes) && forall x :: x in nodes ==> x !in freed
    ensures NoRepeats(freed + [nodes[0]]) && NoRepeats(nodes[1..])
    ensures forall x :: x in nodes[1..] ==> x !in freed + [nodes[0]]
    ensures DataOf(nodes[1..]) == DataOf(nodes)[1..] && DataOf(nodes)[0] == nodes[0].data
  {
    NoRepeatsSnoc(freed, nodes[0]);
    forall x | x in nodes[1..] ensures x !in freed + [nodes[0]] {
      var k :| 1 <= k < |nodes| && nodes[k] == x;
    }
    assert DataOf(nodes[1..]) == DataOf(nodes)[1..];
  }

  lemma DropFirst(q: seq<Octets>, r: Octets)
    requires q != []
    ensures (q + [r])[1..] == q[1..] + [r] && (q + [r])[0] == q[0]
  {}

  lemma ConcatTail<T>(a: seq<T>, b: seq<T>)
    requires b != []
    ensures a + b == (a + [b[0]]) + b[1..]
  {}

  class HidDevice {
    var inputReports: InputReport?
    /** The list nodes in order, and those that have been freed, in the order of the calls. */
    ghost var nodes: seq<InputReport>
    ghost var freed: seq<InputReport>
    /** All reports that arrived, and those that left the list. */
    ghost var arrived: seq<Octets>
    ghost var removed: seq<Octets>

    constructor ()
      ensures Valid() && Reports() == [] && freed == [] && arrived == []
    {
      inputReports, nodes, freed, arrived, removed := null, [], [], [], [];
    }

    ghost predicate Linked()
      reads this, nodes
    {
      inputReports == (if nodes == [] then null else nodes[0]) && Chained(nodes, null)
    }

    /** No node is twice in the list or twice freed, and none is in the list after it was freed. */
    ghost predicate OnceEach()
      reads this
    {
      NoRepeats(freed) && NoRepeats(nodes) && forall x :: x in nodes ==> x !in freed
    }

    /** What arrived is what left, followed by what is queued, in order. */
    ghost predicate Sound()
      reads this, nodes
    {
      Linked() && OnceEach() && arrived == removed + Reports()
    }

    ghost predicate Valid()
      reads this, nodes
    {
      Sound() && |nodes| <= 32
    }

    ghost function Reports(): (r: seq<Octets>)
      reads this
      ensures |r| == |nodes|
    {
      DataOf(nodes)
    }

    /** return_data: unlinks and frees the first node, after copying at most `length` bytes of it. */
    method ReturnData(data: array?<bv8>, length: nat) returns (len: nat)
      requires Valid() && inputReports != null
      requires length > 0 ==> data != null && length <= data.Length
      modifies this, data
      ensures Valid() && arrived == old(arrived)
      ensures
        var first := old(Reports()[0]);
        && len == (if length < |first| then length else |first|)
        && (length > 0 ==> data[..len] == first[..len] && data[len..] == old(data[len..]))
        && removed == old(removed) + [first]
      ensures Reports() == old(Reports())[1..] && nodes == old(nodes)[1..] && freed == old(freed) + [old(nodes[0])]
    {
      var rpt := inputReports;
      len := if length < |rpt.data| then length else |rpt.data|;
      if len > 0 {
        CopyOut(rpt.data, data, len);
      }
      Unlink();
    }

    /** The list part of return_data. */
    method Unlink()
      requires Sound() && inputReports != null
      modifies this
      ensures Sound() && arrived == old(arrived) && removed == old(removed) + [old(Reports()[0])]
      ensures Reports() == old(Reports())[1..] && nodes == old(nodes)[1..] && freed == old(freed) + [old(nodes[0])]
    {
      hide NoRepeats, Chained, DataOf;
      var rpt := inputReports;
      ChainedTail(nodes);
      TailOnce(nodes, freed);
      inputReports := rpt.next;
      ghost var before := Reports();
      removed := removed + [rpt.data];
      freed := freed + [rpt];
      nodes := nodes[1..];
      ConcatTail(old(removed), before);
    }

    method CopyOut(src: Octets, data: array<bv8>, len: nat)
      requires len <= |src| && len <= data.Length
      modifies data
      ensures data[..len] == src[..len] && data[len..] == old(data[len..])
    {
      var i := 0;
      while i < len
        invariant 0 <= i <= len
        invariant forall k :: 0 <= k < i ==> data[k] == src[k]
        invariant forall k :: len <= k < data.Length ==> data[k] == old(data[k])
      {
        data[i] := src[i];
        i := i + 1;
      }
    }

    /** read_callback for a completed transfer. A report is lost only when 32 were already waiting. */
    method Attach(buffer: Octets) returns (signalled: bool)
      requires Valid()
      modifies this, nodes
      ensures Valid()
      ensures arrived == old(arrived) + [buffer] && Reports() == Attached(old(Reports()), buffer)
      ensures removed == old(removed) + if |old(nodes)| == 32 then [old(Reports()[0])] else []
      ensures freed == old(freed) + if |old(nodes)| == 32 then [old(nodes[0])] else []
      ensures signalled <==> old(nodes) == []
    {
      var rpt := new InputReport(buffer);
      signalled := inputReports == null;
      if inputReports == null {
        inputReports := rpt;
        Extend(rpt);
      } else {
        var cur := inputReports;
        var numQueued := 0;
        while cur.next != null
          invariant 0 <= numQueued < |nodes| && cur == nodes[numQueued]
          decreases |nodes| - numQueued
        {
          assert numQueued + 1 < |nodes| ==> nodes[numQueued].next == nodes[numQueued + 1];
          cur := cur.next;
          numQueued := numQueued + 1;
        }
        assert numQueued == |nodes| - 1;
        cur.next := rpt;
        assert Chained(nodes, rpt);
        Extend(rpt);
        if numQueued > 30 {
          Unlink();
          DropFirst(old(Reports()), buffer);
        }
      }
    }

    /** The ghost side of linking `rpt` behind the last node. */
    ghost method Extend(rpt: InputReport)
      requires OnceEach() && rpt !in nodes && rpt !in freed && arrived == removed + Reports()
      requires rpt.next == null
      requires inputReports == if nodes == [] then rpt else nodes[0]
      requires Chained(nodes, rpt)
      modifies this`nodes, this`arrived
      ensures Sound() && nodes == old(nodes) + [rpt] && arrived == old(arrived) + [rpt.data]
      ensures Reports() == old(Reports()) + [rpt.data]
    {
      nodes := nodes + [rpt];
      arrived := arrived + [rpt.data];
      NoRepeatsSnoc(old(nodes), rpt);
      assert Reports() == old(Reports()) + [rpt.data];
      assert arrived == removed + Reports();
    }

    /** The drain loop of hid_close: every queued node is freed, once, and the list is empty. */
    method Drain()
      requires Valid()
      modifies this
      ensures Valid() && inputReports == null && Reports() == []
      ensures freed == old(freed) + old(nodes) && removed == arrived == old(arrived)
    {
      hide NoRepeats, Chained, DataOf;
      while inputReports != null
        invariant Valid() && arrived == old(arrived)
        invariant freed + nodes == old(freed + nodes)
        decreases |nodes|
      {
        ConcatTail(freed, nodes);
        var len := ReturnData(null, 0);
      }
      assert freed + nodes == freed;
      assert removed + Reports() == removed;
    }
  }
}
