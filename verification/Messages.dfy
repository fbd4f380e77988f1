/** Message queues of the processes (scheduler.cpp, SendMessage and ReceiveMessage) on values. */
module Messages {
  import opened Bits
  import opened Options

  datatype Message = Message(sender: word, receiver: word, id: word, data: word, data2: word)

  // What ReceiveMessage hands out when there is nothing to receive.
  const NO_MESSAGE := Message(0, 0, 0, 0, 0)

  /** One process's queue; a post office lists them in ring order. */
  datatype Box = Box(pid: word, queue: seq<Message>)

  /** The first box from the head on with this pid. */
  function Find(boxes: seq<Box>, pid: nat): (r: Option<nat>)
    ensures r.Some? ==> r.value < |boxes| && boxes[r.value].pid == pid
    ensures r.Some? ==> forall i :: 0 <= i < r.value ==> boxes[i].pid != pid
    ensures r.None? ==> forall i :: 0 <= i < |boxes| ==> boxes[i].pid != pid
  {
    FindFrom(boxes, pid, 0)
  }

  function FindFrom(boxes: seq<Box>, pid: nat, i: nat): (r: Option<nat>)
    requires i <= |boxes|
    ensures r.Some? ==> i <= r.value < |boxes| && boxes[r.value].pid == pid
    ensures r.Some? ==> forall j :: i <= j < r.value ==> boxes[j].pid != pid
    ensures r.None? ==> forall j :: i <= j < |boxes| ==> boxes[j].pid != pid
    decreases |boxes| - i
  {
    if i == |boxes| then None else if boxes[i].pid == pid then Some(i) else FindFrom(boxes, pid, i + 1)
  }

  function Post(boxes: seq<Box>, i: nat, m: Message): seq<Box>
    requires i < |boxes|
  {
    boxes[i := Box(boxes[i].pid, boxes[i].queue + [m])]
  }

  function Take(boxes: seq<Box>, i: nat): seq<Box>
    requires i < |boxes|
  {
    if boxes[i].queue == [] then boxes else boxes[i := Box(boxes[i].pid, boxes[i].queue[1..])]
  }

  /** A box behind the head. */
  function Opened(boxes: seq<Box>, box: Box): seq<Box>
  {
    if boxes == [] then [box] else [boxes[0], box] + boxes[1..]
  }

  function Closed(boxes: seq<Box>, i: nat): seq<Box>
    requires i < |boxes|
  {
    boxes[..i] + boxes[i + 1..]
  }

  function Taken(box: Box): Message { if box.queue == [] then NO_MESSAGE else box.queue[0] }

  /** What can happen to the queues: a send by pid, one to a process at hand, a receive, a process created
      behind the head, one ended. */
  datatype Event =
    | Send(message: Message)
    | SendTo(pid: word, message: Message)
    | Receive(pid: word)
    | Open(pid: word)
    | Close(pid: word)

  predicate Possible(boxes: seq<Box>, e: Event)
  {
    match e
    case Send(_) => true
    case SendTo(pid, _) => Find(boxes, pid).Some?
    case Receive(pid) => Find(boxes, pid).Some?
    case Open(pid) => Find(boxes, pid).None? && boxes != []
    case Close(pid) => Find(boxes, pid).Some?
  }

  function Step(boxes: seq<Box>, e: Event): seq<Box>
    requires Possible(boxes, e)
  {
    match e
    case Send(m) => var f := Find(boxes, m.receiver); if f.None? then boxes else Post(boxes, f.value, m)
    case SendTo(pid, m) => Post(boxes, Find(boxes, pid).value, m)
    case Receive(pid) => Take(boxes, Find(boxes, pid).value)
    case Open(pid) => Opened(boxes, Box(pid, []))
    case Close(pid) => Closed(boxes, Find(boxes, pid).value)
  }

  predicate PossibleRun(boxes: seq<Box>, events: seq<Event>)
    decreases events
  {
    events == [] || (Possible(boxes, events[0]) && PossibleRun(Step(boxes, events[0]), events[1..]))
  }

  function Run(boxes: seq<Box>, events: seq<Event>): seq<Box>
    requires PossibleRun(boxes, events)
    decreases events
  {
    if events == [] then boxes else Run(Step(boxes, events[0]), events[1..])
  }

  /** The messages sent to a process, in the order they were sent. */
  function Sent(events: seq<Event>, pid: word): seq<Message>
  {
    if events == [] then []
    else
      (match events[0]
       case Send(m) => if m.receiver == pid then [m] else []
       case SendTo(p, m) => if p == pid then [m] else []
       case _ => [])
      + Sent(events[1..], pid)
  }

  /** The messages its receives were given, in the order they were received. */
  function Received(boxes: seq<Box>, events: seq<Event>, pid: word): seq<Message>
    requires PossibleRun(boxes, events)
    decreases events
  {
    if events == [] then []
    else Delivered(boxes, events[0], pid) + Received(Step(boxes, events[0]), events[1..], pid)
  }

  function Delivered(boxes: seq<Box>, e: Event, pid: word): seq<Message>
    requires Possible(boxes, e)
  {
    if e == Receive(pid) && Inbox(boxes, pid) != [] then [Taken(boxes[Find(boxes, pid).value])] else []
  }

  function Inbox(boxes: seq<Box>, pid: word): seq<Message>
  {
    var f := Find(boxes, pid);
    if f.None? then [] else boxes[f.value].queue
  }

  ghost predicate Distinct(boxes: seq<Box>)
  {
    forall i, j :: 0 <= i < j < |boxes| ==> boxes[i].pid != boxes[j].pid
  }

  lemma FindIs(boxes: seq<Box>, i: nat)
    requires Distinct(boxes) && i < |boxes|
    ensures Find(boxes, boxes[i].pid) == Some(i)
  {}

  lemma DistinctOpened(boxes: seq<Box>, pid: word, r: seq<Box>)
    requires Distinct(boxes) && boxes != [] && (forall i :: 0 <= i < |boxes| ==> boxes[i].pid != pid)
    requires r == [boxes[0], Box(pid, [])] + boxes[1..]
    ensures Distinct(r)
  {
    assert forall i :: 2 <= i < |r| ==> r[i] == boxes[i - 1];
  }

  lemma DistinctClosed(boxes: seq<Box>, i: nat, r: seq<Box>)
    requires Distinct(boxes) && i < |boxes| && r == boxes[..i] + boxes[i + 1..]
    ensures Distinct(r)
  {
    assert forall j :: 0 <= j < |r| ==> r[j] == boxes[if j < i then j else j + 1];
  }

  lemma DistinctSamePids(boxes: seq<Box>, i: nat, queue: seq<Message>)
    requires Distinct(boxes) && i < |boxes|
    ensures Distinct(boxes[i := Box(boxes[i].pid, queue)])
  {}

  lemma StepKeepsDistinct(boxes: seq<Box>, e: Event)
    requires Distinct(boxes) && Possible(boxes, e)
    ensures Distinct(Step(boxes, e))
  {
    hide FindFrom, Distinct;
    match e
    case Open(pid) => DistinctOpened(boxes, pid, Step(boxes, e));
    case Close(pid) => DistinctClosed(boxes, Find(boxes, pid).value, Step(boxes, e));
    case Send(m) =>
      var f := Find(boxes, m.receiver);
      if f.Some? { DistinctSamePids(boxes, f.value, boxes[f.value].queue + [m]); }
    case SendTo(pid, m) =>
      var i := Find(boxes, pid).value;
      DistinctSamePids(boxes, i, boxes[i].queue + [m]);
    case Receive(pid) =>
      var i := Find(boxes, pid).value;
      if boxes[i].queue != [] { DistinctSamePids(boxes, i, boxes[i].queue[1..]); }
  }

  lemma InboxIs(boxes: seq<Box>, k: nat)
    requires Distinct(boxes) && k < |boxes|
    ensures Find(boxes, boxes[k].pid) == Some(k) && Inbox(boxes, boxes[k].pid) == boxes[k].queue
  {
    FindIs(boxes, k);
  }

  /** Changing one queue leaves the others as they are. */
  lemma InboxChanged(boxes: seq<Box>, i: nat, queue: seq<Message>, k: nat)
    requires Distinct(boxes) && i < |boxes| && k < |boxes|
    ensures var r := boxes[i := Box(boxes[i].pid, queue)];
      Find(r, boxes[k].pid) == Some(k) && Inbox(r, boxes[k].pid) == if i == k then queue else boxes[k].queue
  {
    hide FindFrom, Find, Inbox, Distinct;
    DistinctSamePids(boxes, i, queue);
    InboxIs(boxes[i := Box(boxes[i].pid, queue)], k);
  }

  /** One step leaves a process's queue and what it received equal to what it had and was sent. */
  lemma StepKeepsOrder(boxes: seq<Box>, e: Event, k: nat)
    requires Distinct(boxes) && Possible(boxes, e) && k < |boxes| && e != Close(boxes[k].pid)
    ensures var pid, r := boxes[k].pid, Step(boxes, e);
      Find(r, pid).Some? && Inbox(boxes, pid) + Sent([e], pid) == Delivered(boxes, e, pid) + Inbox(r, pid)
  {
    hide FindFrom, Inbox, Distinct;
    var r := Step(boxes, e);
    InboxIs(boxes, k);
    match e
    case Open(_) =>
      StepKeepsDistinct(boxes, e);
      InboxIs(r, if k == 0 then 0 else k + 1);
    case Close(p) =>
      var i := Find(boxes, p).value;
      StepKeepsDistinct(boxes, e);
      InboxIs(r, if k < i then k else k - 1);
    case Send(m) =>
      var f := Find(boxes, m.receiver);
      if f.Some? { InboxChanged(boxes, f.value, boxes[f.value].queue + [m], k); }
    case SendTo(pid, m) =>
      var i := Find(boxes, pid).value;
      InboxChanged(boxes, i, boxes[i].queue + [m], k);
    case Receive(pid) =>
      var i := Find(boxes, pid).value;
      if boxes[i].queue != [] { InboxChanged(boxes, i, boxes[i].queue[1..], k); }
  }

  /** First in, first out, over any run of a process's life: what it had queued and was sent is, in this
      order, what it received and what is queued still: no message is lost, doubled or overtaken,
      whatever the other processes send and receive and however they come and go. */
  lemma {:induction false} FirstInFirstOut(boxes: seq<Box>, events: seq<Event>, pid: word)
    requires Distinct(boxes) && PossibleRun(boxes, events) && Find(boxes, pid).Some? && Close(pid) !in events
    ensures Inbox(boxes, pid) + Sent(events, pid) == Received(boxes, events, pid) + Inbox(Run(boxes, events), pid)
    decreases events
  {
    hide FindFrom, Find, Inbox, Delivered, Distinct, Step, Possible;
    if events != [] {
      var e := events[0];
      var next := Step(boxes, e);
      StepKeepsDistinct(boxes, e);
      StepKeepsOrder(boxes, e, Find(boxes, pid).value);
      FirstInFirstOut(next, events[1..], pid);
      assert [e][0] == e && [e][1..] == [];
      assert Sent(events, pid) == Sent([e], pid) + Sent(events[1..], pid);
      var queue, later := Inbox(Run(boxes, events), pid), Received(next, events[1..], pid);
      assert Inbox(boxes, pid) + Sent(events, pid) == (Inbox(boxes, pid) + Sent([e], pid)) + Sent(events[1..], pid);
      assert (Delivered(boxes, e, pid) + Inbox(next, pid)) + Sent(events[1..], pid)
          == Delivered(boxes, e, pid) + (Inbox(next, pid) + Sent(events[1..], pid));
      assert Delivered(boxes, e, pid) + (later + queue) == (Delivered(boxes, e, pid) + later) + queue;
    }
  }
}
