/** Delivery of incoming mail: the one-packet input buffer of machine/network.cc, the interrupt
    that fills it, and the postal worker of network/post.cc that empties it into the mailboxes.

    Packets reach the socket at any time, the poll interrupt comes at any time, and any number of
    threads take mail out; SynchListModel justifies taking SynchList::Append and Remove as single
    steps. */
module PostOfficeModel {

  const MAX_PACKET_SIZE := 52   // MaxWireSize without a PacketHeader
  const MAX_MAIL_SIZE := 40     // MaxPacketSize without a MailHeader

  /** A packet: its header, then the mail header and the payload inside its data. */
  datatype Packet = Packet(to: int, from: int, length: nat, box: int, mailLength: nat, payload: seq<int>)

  /** What the asserts in Network::Send and PostOffice::Send make sure of for every packet that is
      sent to this machine. */
  predicate Legal(p: Packet, ident: int, numBoxes: nat) {
    && p.to == ident && 0 < p.length <= MAX_PACKET_SIZE
    && 0 <= p.box < numBoxes && p.mailLength <= MAX_MAIL_SIZE
  }

  datatype Worker =
    | AtWait                   // messageAvailable->P
    | AtReceive                // network->Receive
    | AtPut(buffer: Packet)    // the checks, then boxes[to].Put
    | AssertFailed

  datatype Office = Office(
    ident: int,
    socket: seq<Packet>,         // packets waiting in the socket
    slot: Packet,                // inHdr and inbox; a length of 0 means empty
    messageAvailable: nat,
    worker: Worker,
    boxes: seq<seq<Packet>>,     // what each mailbox holds
    pollFailed: bool,            // an ASSERT in CheckPktAvail failed
    sent: seq<Packet>,           // everything that reached the socket
    arrived: seq<Packet>,        // everything read into the slot
    put: seq<Packet>,            // everything put into a mailbox
    taken: seq<seq<Packet>>)     // what was taken out of each mailbox

  predicate WellSized(o: Office) { |o.boxes| == |o.taken| }

  datatype Action =
    | Send(packet: Packet)   // a packet reaches this machine's socket
    | Poll                   // the NetworkReadPoll interrupt
    | Work                   // the next statement of the postal worker
    | Get(box: nat)          // a thread takes a message from a mailbox

  function CheckPktAvail(o: Office): Office {
    if o.slot.length != 0 || o.socket == [] then o
    else
      var p := o.socket[0];
      var n := o.(socket := o.socket[1..], slot := p, arrived := o.arrived + [p]);
      if p.to == o.ident && p.length <= MAX_PACKET_SIZE
      then n.(messageAvailable := n.messageAvailable + 1) else n.(pollFailed := true)
  }

  /** One statement of PostalDelivery; a blocked P does nothing. */
  function WorkerStep(o: Office): Office {
    match o.worker
    case AtWait =>
      if o.messageAvailable > 0 then o.(messageAvailable := o.messageAvailable - 1, worker := AtReceive) else o
    case AtReceive => o.(slot := o.slot.(length := 0), worker := AtPut(o.slot))
    case AtPut(p) =>
      if 0 <= p.box < |o.boxes| && p.mailLength <= MAX_MAIL_SIZE
      then o.(boxes := o.boxes[p.box := o.boxes[p.box] + [p]], put := o.put + [p], worker := AtWait)
      else o.(worker := AssertFailed)
    case AssertFailed => o
  }

  function TakeMail(o: Office, box: nat): Office
    requires WellSized(o)
  {
    if box < |o.boxes| && o.boxes[box] != [] then
      o.(boxes := o.boxes[box := o.boxes[box][1..]], taken := o.taken[box := o.taken[box] + [o.boxes[box][0]]])
    else o
  }

  function Step(o: Office, a: Action): Office
    requires WellSized(o)
  {
    match a
    case Send(p) => if Legal(p, o.ident, |o.boxes|) then o.(socket := o.socket + [p], sent := o.sent + [p]) else o
    case Poll => CheckPktAvail(o)
    case Work => WorkerStep(o)
    case Get(b) => TakeMail(o, b)
  }

  function Start(ident: int, numBoxes: nat): Office {
    var none := seq(numBoxes, _ => []);
    Office(ident, [], Packet(ident, 0, 0, 0, 0, []), 0, AtWait, none, false, [], [], [], none)
  }

  function Run(ident: int, numBoxes: nat, acts: seq<Action>): (o: Office)
    ensures WellSized(o) && |o.boxes| == numBoxes && o.ident == ident
  {
    if acts == [] then Start(ident, numBoxes)
    else Step(Run(ident, numBoxes, acts[..|acts| - 1]), acts[|acts| - 1])
  }

  /** The packets of s addressed to box b, in order. */
  function AddressedTo(s: seq<Packet>, b: int): seq<Packet> {
    if s == [] then []
    else AddressedTo(s[..|s| - 1], b) + (if s[|s| - 1].box == b then [s[|s| - 1]] else [])
  }

  /** What the slot holds, and what the worker holds. */
  function InSlot(o: Office): seq<Packet> { if o.slot.length != 0 then [o.slot] else [] }
  function InHand(o: Office): seq<Packet> { if o.worker.AtPut? then [o.worker.buffer] else [] }

  // ---- The invariant ----

  ghost predicate AllLegal(s: seq<Packet>, ident: int, numBoxes: nat) {
    forall p :: p in s ==> Legal(p, ident, numBoxes)
  }

  ghost predicate Inv(o: Office) {
    && WellSized(o)
    && o.messageAvailable + (if o.worker.AtReceive? then 1 else 0) == (if o.slot.length != 0 then 1 else 0)
    && o.sent == o.arrived + o.socket
    && o.arrived == o.put + InHand(o) + InSlot(o)
    && AllLegal(o.sent, o.ident, |o.boxes|)
    && !o.worker.AssertFailed? && !o.pollFailed
    && (forall b :: 0 <= b < |o.boxes| ==> o.taken[b] + o.boxes[b] == AddressedTo(o.put, b))
  }

  lemma PollKeepsInv(o: Office)
    requires Inv(o)
    ensures Inv(CheckPktAvail(o))
  {
    if o.slot.length == 0 && o.socket != [] {
      var p := o.socket[0];
      assert o.socket == [p] + o.socket[1..];
      assert o.sent == o.arrived + [p] + o.socket[1..];
      assert p in o.sent && Legal(p, o.ident, |o.boxes|);
      assert o.put + InHand(o) + [] + [p] == o.put + InHand(o) + [p];
    }
  }

  lemma AddressedToSnoc(s: seq<Packet>, p: Packet, b: int)
    ensures AddressedTo(s + [p], b) == AddressedTo(s, b) + (if p.box == b then [p] else [])
  {
    assert (s + [p])[..|s|] == s;
  }

  lemma PutKeepsInv(o: Office)
    requires Inv(o) && o.worker.AtPut?
    ensures Inv(WorkerStep(o))
  {
    var p := o.worker.buffer;
    assert p in o.arrived && p in o.sent && Legal(p, o.ident, |o.boxes|);
    var n := WorkerStep(o);
    assert n.put + [] + InSlot(n) == o.put + [p] + InSlot(o);
    forall b | 0 <= b < |n.boxes| ensures n.taken[b] + n.boxes[b] == AddressedTo(n.put, b) {
      AddressedToSnoc(o.put, p, b);
      assert o.taken[b] + o.boxes[b] == AddressedTo(o.put, b);
    }
  }

  lemma WorkKeepsInv(o: Office)
    requires Inv(o)
    ensures Inv(WorkerStep(o))
  {
    if o.worker.AtPut? {
      PutKeepsInv(o);
    } else if o.worker.AtReceive? {
      assert o.slot.length != 0;
      assert o.put + [] + [o.slot] == o.put + [o.slot] + [];
    }
  }

  lemma GetKeepsInv(o: Office, box: nat)
    requires Inv(o)
    ensures Inv(TakeMail(o, box))
  {
    var n := TakeMail(o, box);
    forall b | 0 <= b < |n.boxes| ensures n.taken[b] + n.boxes[b] == AddressedTo(n.put, b) {
      assert o.taken[b] + o.boxes[b] == AddressedTo(o.put, b);
      if b == box && o.boxes[b] != [] {
        assert o.boxes[b] == [o.boxes[b][0]] + o.boxes[b][1..];
      }
    }
  }

  lemma StepKeepsInv(o: Office, a: Action)
    requires Inv(o)
    ensures Inv(Step(o, a))
  {
    match a
    case Send(p) => assert o.arrived + o.socket + [p] == o.arrived + (o.socket + [p]);
    case Poll => PollKeepsInv(o);
    case Work => WorkKeepsInv(o);
    case Get(b) => GetKeepsInv(o, b);
  }

  lemma {:induction false} RunKeepsInv(ident: int, numBoxes: nat, acts: seq<Action>)
    ensures Inv(Run(ident, numBoxes, acts))
  {
    if acts != [] {
      RunKeepsInv(ident, numBoxes, acts[..|acts| - 1]);
      StepKeepsInv(Run(ident, numBoxes, acts[..|acts| - 1]), acts[|acts| - 1]);
    }
  }

  // ---- Theorems about every run ----

  /** The slot is full exactly when there is one token or the worker is between P and Receive, never
      both; so the poll never overwrites a packet and Receive never finds the slot empty. */
  lemma SlotFullIffAnnounced(ident: int, numBoxes: nat, acts: seq<Action>)
    ensures var o := Run(ident, numBoxes, acts);
      && (o.slot.length != 0 <==> o.messageAvailable == 1 || o.worker.AtReceive?)
      && !(o.messageAvailable >= 1 && o.worker.AtReceive?) && o.messageAvailable <= 1
      && !o.worker.AssertFailed? && !o.pollFailed
  {
    RunKeepsInv(ident, numBoxes, acts);
  }

  /** Nothing is lost, invented, duplicated or reordered on the way: what reached the socket is what
      was put, then what the worker holds, then the slot, then what still waits in the socket. */
  lemma NoPacketLost(ident: int, numBoxes: nat, acts: seq<Action>)
    ensures var o := Run(ident, numBoxes, acts);
      o.sent == o.put + InHand(o) + InSlot(o) + o.socket
  {
    RunKeepsInv(ident, numBoxes, acts);
  }

  lemma {:induction false} AddressedToConcat(s: seq<Packet>, t: seq<Packet>, b: int)
    ensures AddressedTo(s + t, b) == AddressedTo(s, b) + AddressedTo(t, b)
  {
    if t == [] {
      assert s + t == s;
    } else {
      var n := |t| - 1;
      AddressedToConcat(s, t[..n], b);
      assert s + t == s + t[..n] + [t[n]];
      AddressedToSnoc(s + t[..n], t[n], b);
    }
  }

  /** Each mailbox hands out, in order, exactly the packets addressed to it: what was taken, then
      what it holds, then what is still on the way to it, is what was sent to it. */
  lemma MailArrivesInOrder(ident: int, numBoxes: nat, acts: seq<Action>, b: nat)
    requires b < numBoxes
    ensures var o := Run(ident, numBoxes, acts);
      AddressedTo(o.sent, b) == o.taken[b] + o.boxes[b] + AddressedTo(InHand(o) + InSlot(o) + o.socket, b)
  {
    RunKeepsInv(ident, numBoxes, acts);
    var o := Run(ident, numBoxes, acts);
    assert o.sent == o.put + (InHand(o) + InSlot(o) + o.socket);
    AddressedToConcat(o.put, InHand(o) + InSlot(o) + o.socket, b);
  }

  /** While a packet is on its way, the worker can move or the next poll brings one in. */
  lemma MailKeepsMoving(ident: int, numBoxes: nat, acts: seq<Action>)
    requires var o := Run(ident, numBoxes, acts); o.put != o.sent
    ensures var o := Run(ident, numBoxes, acts); WorkerStep(o) != o || CheckPktAvail(o).arrived != o.arrived
  {
    RunKeepsInv(ident, numBoxes, acts);
    var o := Run(ident, numBoxes, acts);
    if !o.worker.AtPut? && o.slot.length == 0 {
      assert o.socket != [];
      assert |CheckPktAvail(o).arrived| == |o.arrived| + 1;
    }
  }

  /** Every packet that the asserts of the senders admit reaches the socket, behind those already there; no other
      does. */
  lemma AdmittedPackets(ident: int, numBoxes: nat, acts: seq<Action>, p: Packet)
    ensures var o, n := Run(ident, numBoxes, acts), Run(ident, numBoxes, acts + [Send(p)]);
      if p.to == ident && 1 <= p.length <= 52 && 0 <= p.box < numBoxes && p.mailLength <= 40
      then n == o.(socket := o.socket + [p], sent := o.sent + [p])
      else n == o
  {
    assert (acts + [Send(p)])[..|acts|] == acts;
  }
}
