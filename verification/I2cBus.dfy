/** The I2C bus as a sequence of events, and what the bus specification (UM10204, sections 3.1.4 to
    3.1.6 and 3.1.10) allows on it with a single master. */
module I2cBus {
  import opened Bytes

  /** `ack` is the bit after each byte: given by the slave for an address or a byte sent, by the
      master for a byte received. */
  datatype Event =
    | Start
    | Restart
    | Address(b: byte, ack: bool)
    | Sent(b: byte, ack: bool)
    | Received(b: byte, ack: bool)
    | Stop

  /** `open`: the last byte was acknowledged, so another may follow. */
  datatype Phase = Free | AwaitAddress | Writing(open: bool) | Reading(open: bool) | Broken

  predicate IsRead(address: byte) {
    address % 2 == 1
  }

  /** What an event makes of the bus. A master that reads must refuse a byte before it may release the
      bus, since the slave drives the line as long as it is acknowledged. */
  function Step(p: Phase, e: Event): Phase {
    match (p, e)
    case (Free, Start) => AwaitAddress
    case (AwaitAddress, Address(b, ack)) => if IsRead(b) then Reading(ack) else Writing(ack)
    case (Writing(true), Sent(_, ack)) => Writing(ack)
    case (Writing(_), Restart) => AwaitAddress
    case (Writing(_), Stop) => Free
    case (Reading(true), Received(_, ack)) => Reading(ack)
    case (Reading(false), Restart) => AwaitAddress
    case (Reading(false), Stop) => Free
    case _ => Broken
  }

  function Scan(p: Phase, trace: seq<Event>): Phase
    decreases |trace|
  {
    if |trace| == 0 then p else Step(Scan(p, trace[..|trace| - 1]), trace[|trace| - 1])
  }

  /** A prefix of a legal bus word. */
  predicate WellFormed(trace: seq<Event>) {
    Scan(Free, trace) != Broken
  }

  lemma {:induction false} ScanAppend(p: Phase, s: seq<Event>, t: seq<Event>)
    ensures Scan(p, s + t) == Scan(Scan(p, s), t)
    decreases |t|
  {
    if |t| == 0 {
      assert s + t == s;
    } else {
      assert (s + t)[..|s + t| - 1] == s + t[..|t| - 1];
      ScanAppend(p, s, t[..|t| - 1]);
    }
  }

  /** Well-formedness is a property of every prefix. */
  lemma {:induction false} PrefixWellFormed(s: seq<Event>, t: seq<Event>)
    requires WellFormed(s + t)
    ensures WellFormed(s)
    decreases |t|
  {
    if |t| > 0 {
      assert (s + t)[..|s + t| - 1] == s + t[..|t| - 1];
      PrefixWellFormed(s, t[..|t| - 1]);
    } else {
      assert s + t == s;
    }
  }

  // ---------------------------------------------------------------- one call's share of the trace

  function AllSent(data: seq<byte>): (t: seq<Event>)
    ensures |t| == |data| && forall i :: 0 <= i < |t| ==> t[i] == Sent(data[i], true)
  {
    seq(|data|, i requires 0 <= i < |data| => Sent(data[i], true))
  }

  function AllReceived(data: seq<byte>): (t: seq<Event>)
    ensures |t| == |data| && forall i :: 0 <= i < |t| ==> t[i] == Received(data[i], true)
  {
    seq(|data|, i requires 0 <= i < |data| => Received(data[i], true))
  }

  datatype Status = Success | SizeZero | SlaveBusy | DataRefused

  /** The call's result as the driver returns it: the status in the high byte, the count in the low. */
  function Result(status: Status, count: byte): u16 {
    (match status case Success => 0 case SizeZero => 0x100 case SlaveBusy => 0x200 case DataRefused => 0x300) + count
  }

  /** The word tells the caller both. */
  lemma ResultTellsApart(a: Status, m: byte, b: Status, n: byte)
    ensures Result(a, m) == Result(b, n) <==> a == b && m == n
    ensures Result(a, m) % 0x100 == m && (Result(a, m) < 0x100 <==> a == Success)
  {
    assert Result(a, m) % 0x100 == m && Result(b, n) % 0x100 == n;
  }

  function Ending(stop: bool): seq<Event> {
    if stop then [Stop] else [Restart]
  }

  /** Bus events of a write from its address byte on: everything it may have done, by result. After an
      address nobody wanted, and after a write of nothing, the request for a START is still on: STOP is
      followed by a START that the next call will use. */
  function WriteTrace(addr: byte, data: seq<byte>, stop: bool, status: Status, count: byte): seq<Event>
    requires status.DataRefused? ==> 1 <= count <= |data|
  {
    match status
    case SlaveBusy => [Address(addr, false), Stop, Start]
    case SizeZero => [Address(addr, true), Stop, Start]
    case Success => [Address(addr, true)] + AllSent(data) + Ending(stop)
    case DataRefused => [Address(addr, true)] + AllSent(data[..count - 1]) + [Sent(data[count - 1], false), Stop]
  }

  /** Bus events of a read from its address byte on. Only the last byte is refused. */
  function ReadTrace(addr: byte, data: seq<byte>, stop: bool, status: Status): seq<Event>
    requires status.Success? ==> |data| >= 1
  {
    if status.Success? then
      [Address(addr, true)] + AllReceived(data[..|data| - 1]) + [Received(data[|data| - 1], false)] + Ending(stop)
    else [Address(addr, false), Stop, Start]
  }

  /** The trace of a write up to its k-th byte, all but that one acknowledged. */
  function WriteBody(addr: byte, data: seq<byte>, k: nat, ack: bool): seq<Event>
    requires 1 <= k <= |data|
  {
    [Address(addr, true)] + AllSent(data[..k - 1]) + [Sent(data[k - 1], ack)]
  }

  lemma WriteBodyGrows(head: seq<Event>, addr: byte, data: seq<byte>, k: nat, ack: bool)
    requires 1 <= k <= |data|
    ensures k < |data| ==>
      head + WriteBody(addr, data, k + 1, ack) == head + WriteBody(addr, data, k, true) + [Sent(data[k], ack)]
    ensures WriteBody(addr, data, 1, ack) == [Address(addr, true), Sent(data[0], ack)]
  {
    if k < |data| {
      assert AllSent(data[..k]) == AllSent(data[..k - 1]) + [Sent(data[k - 1], true)];
    }
  }

  lemma WriteBodyEnds(head: seq<Event>, addr: byte, data: seq<byte>, k: nat, stop: bool)
    requires 1 <= k <= |data| <= 0xFF
    ensures k == |data| ==>
      head + WriteBody(addr, data, k, true) + Ending(stop) == head + WriteTrace(addr, data, stop, Success, k)
    ensures head + WriteBody(addr, data, k, false) + [Stop] == head + WriteTrace(addr, data, stop, DataRefused, k)
  {
    if k == |data| {
      assert AllSent(data) == AllSent(data[..k - 1]) + [Sent(data[k - 1], true)];
    }
  }

  /** The trace of a read up to its k-th byte. */
  function ReadBody(addr: byte, data: seq<byte>, last: bool): seq<Event>
    requires |data| >= 1
  {
    [Address(addr, true)] + AllReceived(data[..|data| - 1]) + [Received(data[|data| - 1], last)]
  }

  lemma ReadBodyGrows(head: seq<Event>, addr: byte, data: seq<byte>, b: byte, ack: bool)
    ensures |data| >= 1 ==> head + ReadBody(addr, data + [b], ack) == head + ReadBody(addr, data, true) + [Received(b, ack)]
    ensures ReadBody(addr, [b], ack) == [Address(addr, true), Received(b, ack)]
  {
    if |data| >= 1 {
      var d := data + [b];
      assert d[..|data|] == data;
      assert AllReceived(data) == AllReceived(data[..|data| - 1]) + [Received(data[|data| - 1], true)];
    }
  }

  /** Bytes a read fetches: asking for none fetches one, since only counts above one are told apart. */
  function Wanted(n: byte): byte {
    if n == 0 then 1 else n
  }

  predicate WriteOutcome(data: seq<byte>, status: Status, count: byte) {
    match status
    case SlaveBusy => count == 0
    case SizeZero => count == 0 && |data| == 0
    case Success => count == |data| >= 1
    case DataRefused => 1 <= count <= |data|
  }

  /** A call completes the word it finds: from an address phase it ends with the bus free or in the
      next address phase. */
  lemma WriteTraceScan(addr: byte, data: seq<byte>, stop: bool, status: Status, count: byte)
    requires !IsRead(addr) && WriteOutcome(data, status, count)
    ensures Scan(AwaitAddress, WriteTrace(addr, data, stop, status, count)) ==
      if status.DataRefused? || (status.Success? && stop) then Free else AwaitAddress
  {
    match status {
      case SlaveBusy =>
        NobodyScan(addr, false);
      case SizeZero =>
        NobodyScan(addr, true);
      case Success =>
        SentThen(addr, data, Ending(stop));
        OneStep(Writing(true), Ending(stop)[0]);
      case DataRefused =>
        var last := [Sent(data[count - 1], false), Stop];
        SentThen(addr, data[..count - 1], last);
        TwoSteps(Writing(true), last[0], Stop);
    }
  }

  lemma NobodyScan(addr: byte, ack: bool)
    requires !IsRead(addr)
    ensures Scan(AwaitAddress, [Address(addr, ack), Stop, Start]) == AwaitAddress
  {
    var head := [Address(addr, ack)];
    OneStep(AwaitAddress, head[0]);
    ScanAppend(AwaitAddress, head, [Stop, Start]);
    TwoSteps(Writing(ack), Stop, Start);
    assert head + [Stop, Start] == [Address(addr, ack), Stop, Start];
  }

  lemma SentThen(addr: byte, data: seq<byte>, rest: seq<Event>)
    requires !IsRead(addr)
    ensures Scan(AwaitAddress, [Address(addr, true)] + AllSent(data) + rest) == Scan(Writing(true), rest)
  {
    var head := [Address(addr, true)];
    OneStep(AwaitAddress, head[0]);
    ScanAppend(AwaitAddress, head, AllSent(data));
    SentScan(data);
    ScanAppend(AwaitAddress, head + AllSent(data), rest);
  }

  lemma ReadTraceScan(addr: byte, data: seq<byte>, stop: bool, status: Status)
    requires IsRead(addr) && (status.Success? || status.SlaveBusy?) && |data| >= 1
    ensures Scan(AwaitAddress, ReadTrace(addr, data, stop, status)) ==
      if status.Success? && stop then Free else AwaitAddress
  {
    if status.Success? {
      var last, end := Received(data[|data| - 1], false), Ending(stop);
      ReceivedThen(addr, data[..|data| - 1], [last] + end);
      ScanAppend(Reading(true), [last], end);
      OneStep(Reading(true), last);
      OneStep(Reading(false), end[0]);
      Associative([Address(addr, true)] + AllReceived(data[..|data| - 1]), [last], end);
    } else {
      var head := [Address(addr, false)];
      OneStep(AwaitAddress, head[0]);
      ScanAppend(AwaitAddress, head, [Stop, Start]);
      TwoSteps(Reading(false), Stop, Start);
      assert head + [Stop, Start] == [Address(addr, false), Stop, Start];
    }
  }

  lemma Associative(a: seq<Event>, b: seq<Event>, c: seq<Event>)
    ensures a + (b + c) == a + b + c
  {
  }

  lemma ReceivedThen(addr: byte, data: seq<byte>, rest: seq<Event>)
    requires IsRead(addr)
    ensures Scan(AwaitAddress, [Address(addr, true)] + AllReceived(data) + rest) == Scan(Reading(true), rest)
  {
    var head := [Address(addr, true)];
    OneStep(AwaitAddress, head[0]);
    ScanAppend(AwaitAddress, head, AllReceived(data));
    ReceivedScan(data);
    ScanAppend(AwaitAddress, head + AllReceived(data), rest);
  }

  lemma OneStep(p: Phase, e: Event)
    ensures Scan(p, [e]) == Step(p, e)
  {
    assert [e][..0] == [];
  }

  lemma TwoSteps(p: Phase, e: Event, f: Event)
    ensures Scan(p, [e, f]) == Step(Step(p, e), f)
  {
    assert [e, f][..1] == [e];
    OneStep(p, e);
  }

  lemma {:induction false} SentScan(data: seq<byte>)
    ensures Scan(Writing(true), AllSent(data)) == Writing(true)
    decreases |data|
  {
    if |data| > 0 {
      var d := data[..|data| - 1];
      assert AllSent(data)[..|data| - 1] == AllSent(d);
      SentScan(d);
    }
  }

  lemma {:induction false} ReceivedScan(data: seq<byte>)
    ensures Scan(Reading(true), AllReceived(data)) == Reading(true)
    decreases |data|
  {
    if |data| > 0 {
      var d := data[..|data| - 1];
      assert AllReceived(data)[..|data| - 1] == AllReceived(d);
      ReceivedScan(d);
    }
  }

  // ---------------------------------------------------------------- sequences of calls

  datatype Call =
    | WriteCall(addr: byte, data: seq<byte>, stop: bool)
    | ReadCall(addr: byte, n: byte, stop: bool)

  /** A call, its result, and for a read the bytes stored. */
  datatype Outcome = Outcome(call: Call, status: Status, count: byte, stored: seq<byte>)

  predicate Legal(c: Call) {
    match c
    case WriteCall(addr, data, _) => !IsRead(addr) && |data| <= 0xFF
    case ReadCall(addr, _, _) => IsRead(addr)
  }

  predicate Possible(o: Outcome) {
    Legal(o.call) &&
    match o.call
    case WriteCall(_, data, _) => WriteOutcome(data, o.status, o.count)
    case ReadCall(_, n, _) => (o.status.Success? || o.status.SlaveBusy?) && |o.stored| == Wanted(n)
  }

  type Done = o: Outcome | Possible(o) witness Outcome(WriteCall(0, [], true), SizeZero, 0, [])

  function CallTrace(o: Done): seq<Event> {
    match o.call
    case WriteCall(addr, data, stop) => WriteTrace(addr, data, stop, o.status, o.count)
    case ReadCall(addr, _, stop) => ReadTrace(addr, o.stored, stop, o.status)
  }

  /** The bus is free after a call that ended with STOP and had no START request left. */
  predicate EndsFree(o: Outcome) {
    match o.status
    case Success => o.call.stop
    case DataRefused => true
    case SizeZero => false
    case SlaveBusy => false
  }

  /** Whether the bus is free after the calls, given whether it was before. */
  predicate FreeAfter(free: bool, past: seq<Done>) {
    if |past| == 0 then free else EndsFree(past[|past| - 1])
  }

  /** Events of a sequence of calls, from a free bus or from an address phase: each call opens with a
      START if it finds the bus free. */
  function SessionTrace(free: bool, past: seq<Done>): seq<Event>
    decreases |past|
  {
    if |past| == 0 then []
    else
      var before := past[..|past| - 1];
      SessionTrace(free, before) + (if FreeAfter(free, before) then [Start] else []) + CallTrace(past[|past| - 1])
  }

  function CallsOf(past: seq<Done>): seq<Call>
    decreases |past|
  {
    if |past| == 0 then [] else CallsOf(past[..|past| - 1]) + [past[|past| - 1].call]
  }

  /** Whatever the calls and whatever the slaves answer, the events form a legal word. */
  lemma {:induction false} SessionWellFormed(free: bool, past: seq<Done>)
    ensures Scan(if free then Free else AwaitAddress, SessionTrace(free, past)) ==
      if FreeAfter(free, past) then Free else AwaitAddress
    decreases |past|
  {
    if |past| > 0 {
      var before, o := past[..|past| - 1], past[|past| - 1];
      SessionWellFormed(free, before);
      CallScan(if free then Free else AwaitAddress, SessionTrace(free, before), FreeAfter(free, before), o);
    }
  }

  lemma CallCompletes(o: Done)
    ensures Scan(AwaitAddress, CallTrace(o)) == if EndsFree(o) then Free else AwaitAddress
  {
    match o.call
    case WriteCall(addr, data, stop) => WriteTraceScan(addr, data, stop, o.status, o.count);
    case ReadCall(addr, _, stop) => ReadTraceScan(addr, o.stored, stop, o.status);
  }

  /** One more call. */
  lemma CallScan(p: Phase, trace: seq<Event>, free: bool, o: Done)
    requires Scan(p, trace) == if free then Free else AwaitAddress
    ensures Scan(p, trace + (if free then [Start] else []) + CallTrace(o)) == if EndsFree(o) then Free else AwaitAddress
  {
    Opened(p, trace, free);
    ScanAppend(p, trace + (if free then [Start] else []), CallTrace(o));
    CallCompletes(o);
  }

  lemma Opened(p: Phase, trace: seq<Event>, free: bool)
    requires Scan(p, trace) == if free then Free else AwaitAddress
    ensures Scan(p, trace + if free then [Start] else []) == AwaitAddress
  {
    ScanAppend(p, trace, if free then [Start] else []);
    OneStep(Free, Start);
  }

  /** Each call addresses its slave once, first, and for reading exactly when it is a read. A repeated
      START appears exactly once, last, and only when the call succeeded with stop = 0. */
  lemma CallShape(o: Done)
    ensures var t := CallTrace(o);
      && |t| >= 2
      && (exists ack :: t[0] == Address(o.call.addr, ack)) && (IsRead(o.call.addr) <==> o.call.ReadCall?)
      && (forall i :: 1 <= i < |t| ==> !t[i].Address?)
      && (forall i :: 0 <= i < |t| && t[i] == Restart ==> i == |t| - 1)
      && (t[|t| - 1] == Restart <==> o.status.Success? && !o.call.stop)
  {
    var t := CallTrace(o);
    assert t[0] == Address(o.call.addr, t[0].ack);
  }
}
