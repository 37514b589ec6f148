/** The I2C driver in master mode, driving the LPC17xx I2C block through its flags. */
module I2c {
  import opened Bytes
  import opened I2cBus

  // status codes of the I2C block (I2STAT)
  const IDLE: byte := 0xF8
  const STARTED: byte := 0x08
  const RESTARTED: byte := 0x10
  const ADDRESS_W_ACK: byte := 0x18
  const ADDRESS_W_NACK: byte := 0x20
  const SENT_ACK: byte := 0x28
  const SENT_NACK: byte := 0x30
  const ADDRESS_R_ACK: byte := 0x40
  const ADDRESS_R_NACK: byte := 0x48
  const RECEIVED_ACK: byte := 0x50
  const RECEIVED_NACK: byte := 0x58

  function PhaseOf(code: byte): Phase {
    match code
    case 0xF8 => Free
    case 0x08 => AwaitAddress
    case 0x10 => AwaitAddress
    case 0x18 => Writing(true)
    case 0x20 => Writing(false)
    case 0x28 => Writing(true)
    case 0x30 => Writing(false)
    case 0x40 => Reading(true)
    case 0x48 => Reading(false)
    case 0x50 => Reading(true)
    case 0x58 => Reading(false)
    case _ => Broken
  }

  function AddressCode(address: byte, ack: bool): byte {
    if IsRead(address) then (if ack then ADDRESS_R_ACK else ADDRESS_R_NACK)
    else (if ack then ADDRESS_W_ACK else ADDRESS_W_NACK)
  }

  predicate InAddressPhase(code: byte) {
    code == STARTED || code == RESTARTED
  }

  /** The block is waiting to be told how to go on: STO and STA are looked at. */
  predicate AtTurn(code: byte) {
    PhaseOf(code).Writing? || PhaseOf(code) == Reading(false)
  }

  /** The block and the bus. While SI is clear the block acts on its own: it completes what the flags
      ask for, step by step, and sets SI when it has something to report. */
  class Controller {
    var sta: bool
    var sto: bool
    var si: bool
    var aa: bool
    var dat: byte
    /** What happened last on the bus; reported by I2STAT while SI is set. */
    var code: byte
    ghost var bus: seq<Event>

    /** A block out of reset on an idle bus, then rflpc_i2c_init in master mode: every flag cleared. */
    constructor Init()
      ensures Ready() && bus == [] && Promised() == []
    {
      sta, sto, si, aa := false, false, false, false;
      dat, code := 0, IDLE;
      bus := [];
    }

    /** The status register tells where the bus is. */
    ghost predicate Valid()
      reads this
    {
      PhaseOf(code) != Broken && Scan(Free, bus) == PhaseOf(code)
    }

    /** Bus events the flags already promise: a STOP, a START, or both. */
    ghost function Tail(): seq<Event>
      reads this
    {
      if si || !(code == IDLE || AtTurn(code)) then []
      else if code == IDLE then (if sta then [Start] else [])
      else if sto then (if sta then [Stop, Start] else [Stop])
      else if sta then [Restart]
      else []
    }

    /** The bus trace with what is promised. The block completing a promise does not change it. */
    ghost function Promised(): seq<Event>
      reads this
    {
      bus + Tail()
    }

    /** Between two calls: AA is clear, and the block is idle, in an address phase, or on its way to
        one of the two. */
    ghost predicate Ready()
      reads this
    {
      && Valid() && !aa
      && if si then InAddressPhase(code) && !sto && sta
         else (code == IDLE && !sto) || (AtTurn(code) && (sta || sto))
    }

    /** The block will report something. */
    ghost predicate Live()
      reads this
    {
      si || (if code == IDLE then sta else AtTurn(code) ==> sta || (!sto && PhaseOf(code) == Writing(true)))
    }

    /** One step of the block on its own, if it has one to make. `ack` is the slave's answer, when the
        step is a byte to the slave. */
    method Advance() returns (ghost ack: bool)
      requires Valid()
      modifies this`sto, this`si, this`dat, this`code, this`bus
      ensures Valid()
      ensures old(si) || (old(code) == IDLE && !sta) || (old(AtTurn(code)) && !old(Live()) && !old(sto)) ==>
        unchanged(this)
      ensures !old(si) && old(code) == IDLE && sta ==>
        si && code == STARTED && bus == old(bus) + [Start] && sto == old(sto)
      ensures !old(si) && old(AtTurn(code)) && old(sto) ==>
        !si && code == IDLE && !sto && bus == old(bus) + [Stop]
      ensures !old(si) && old(AtTurn(code)) && !old(sto) && sta ==>
        si && code == RESTARTED && bus == old(bus) + [Restart] && !sto
      ensures !old(si) && old(InAddressPhase(code)) ==>
        si && sto == old(sto) && code == AddressCode(old(dat), ack) && bus == old(bus) + [Address(old(dat), ack)]
      ensures !old(si) && PhaseOf(old(code)) == Writing(true) && !old(sto) && !sta ==>
        si && !sto && code == (if ack then SENT_ACK else SENT_NACK) && bus == old(bus) + [Sent(old(dat), ack)]
      ensures !old(si) && PhaseOf(old(code)) == Reading(true) ==>
        si && sto == old(sto) && code == (if aa then RECEIVED_ACK else RECEIVED_NACK)
        && bus == old(bus) + [Received(dat, aa)]
    {
      var answer: bool := *;
      ack := answer;
      if si {
        return;
      }
      ghost var e: Event;
      if code == IDLE {
        if !sta {
          return;
        }
        code, si, e := STARTED, true, Start;
      } else if InAddressPhase(code) {
        code, si, e := AddressCode(dat, answer), true, Address(dat, answer);
      } else if PhaseOf(code) == Reading(true) {
        dat := *;
        code, si, e := if aa then RECEIVED_ACK else RECEIVED_NACK, true, Received(dat, aa);
      } else if sto {
        code, sto, e := IDLE, false, Stop;
      } else if sta {
        code, si, e := RESTARTED, true, Restart;
      } else if PhaseOf(code) == Writing(true) {
        code, si, e := if answer then SENT_ACK else SENT_NACK, true, Sent(dat, answer);
      } else {
        return;
      }
      bus := bus + [e];
      assert bus[..|bus| - 1] == old(bus);
    }

    /** Any number of steps of the block between two register accesses. With SI set it makes none. */
    method Interleave()
      requires Ready() || (Valid() && si)
      modifies this`sto, this`si, this`dat, this`code, this`bus
      ensures old(si) ==> unchanged(this)
      ensures !old(si) ==> Ready() && Promised() == old(Promised())
    {
      var steps: nat := *;
      while steps > 0
        invariant old(si) ==> unchanged(this)
        invariant !old(si) ==> Ready() && Promised() == old(Promised())
      {
        var _ := Advance();
        steps := steps - 1;
      }
    }

    /** I2STAT: the status while SI is set, else "nothing to report". */
    method ReadStatus() returns (state: byte)
      requires Ready() || (Valid() && si)
      modifies this`sto, this`si, this`dat, this`code, this`bus
      ensures old(si) ==> unchanged(this)
      ensures !old(si) ==> Ready() && Promised() == old(Promised())
      ensures state == if si then code else IDLE
    {
      Interleave();
      return if si then code else IDLE;
    }

    /** STA is set; the block may have moved since the status was read. */
    method RequestStart()
      requires Ready() && !si
      modifies this
      ensures Ready() && (si || sta) && Promised() == old(Promised()) + old(Opening())
    {
      OpeningIs();
      Interleave();
      OpeningIs();
      sta := true;
    }

    /** A byte is on its way: the next step of the block is the byte and its acknowledge bit. */
    ghost predicate ByteUnderWay()
      reads this
    {
      Valid() && !si && !sto
      && (InAddressPhase(code) || (PhaseOf(code) == Writing(true) && !sta) || PhaseOf(code) == Reading(true))
    }

    /** `do { } while ((I2CONSET & SI) == 0)`, while a START or a byte is on its way. */
    method Wait() returns (ghost ack: bool)
      requires ByteUnderWay() || (Ready() && (si || sta))
      modifies this`sto, this`si, this`dat, this`code, this`bus
      ensures Valid() && si && !sto
      ensures !old(ByteUnderWay()) ==> Ready() && bus == old(Promised())
      ensures old(ByteUnderWay()) && old(InAddressPhase(code)) ==>
        code == AddressCode(old(dat), ack) && bus == old(bus) + [Address(old(dat), ack)]
      ensures old(ByteUnderWay()) && PhaseOf(old(code)) == Writing(true) ==>
        code == (if ack then SENT_ACK else SENT_NACK) && bus == old(bus) + [Sent(old(dat), ack)]
      ensures old(ByteUnderWay()) && PhaseOf(old(code)) == Reading(true) ==>
        code == (if aa then RECEIVED_ACK else RECEIVED_NACK) && bus == old(bus) + [Received(dat, aa)]
    {
      ack := true;
      ghost var first := true;
      while !si
        invariant first ==> unchanged(this)
        invariant !old(ByteUnderWay()) ==> Ready() && (si || sta) && Promised() == old(Promised())
        invariant !first && old(ByteUnderWay()) ==> Valid() && si && !sto
        invariant !first && old(ByteUnderWay()) && old(InAddressPhase(code)) ==>
          code == AddressCode(old(dat), ack) && bus == old(bus) + [Address(old(dat), ack)]
        invariant !first && old(ByteUnderWay()) && PhaseOf(old(code)) == Writing(true) ==>
          code == (if ack then SENT_ACK else SENT_NACK) && bus == old(bus) + [Sent(old(dat), ack)]
        invariant !first && old(ByteUnderWay()) && PhaseOf(old(code)) == Reading(true) ==>
          code == (if aa then RECEIVED_ACK else RECEIVED_NACK) && bus == old(bus) + [Received(dat, aa)]
        decreases if si then 0 else if code == IDLE then 1 else 2
      {
        ack := Advance();
        first := false;
      }
    }

    /** Events a call adds before its address byte: a START if the bus is free. */
    ghost function Opening(): seq<Event>
      reads this
    {
      if Scan(Free, Promised()) == Free then [Start] else []
    }

    lemma OpeningIs()
      requires Ready()
      ensures Scan(Free, Promised()) == if si || sta then AwaitAddress else Free
    {
      ScanAppend(Free, bus, Tail());
      TailScan(PhaseOf(code));
    }

    /** Where what is promised leaves the bus. */
    lemma TailScan(p: Phase)
      requires Ready() && p == PhaseOf(code)
      ensures Scan(p, Tail()) == if si || sta then AwaitAddress else Free
    {
      if si || (code == IDLE && !sta) {
        assert Tail() == [];
      } else if code == IDLE {
        OneStep(p, Start);
      } else if sto && sta {
        TwoSteps(p, Stop, Start);
      } else if sto {
        OneStep(p, Stop);
      } else {
        OneStep(p, Restart);
      }
    }

    // -------------------------------------------------------------- cases the two calls share
    // Each case of the switch that goes round the loop is followed by the wait for SI.

    /** Status 0xF8: nothing to report yet. */
    method CaseIdle(ghost head: seq<Event>)
      requires Opened(head) && !si
      modifies this
      ensures Opened(head) && si
    {
      RequestStart();
      var _ := Wait();
      OpeningIs();
    }

    /** Statuses 0x08 and 0x10: a START or repeated START has been sent; now the address byte. */
    method CaseStarted(address: byte, ghost head: seq<Event>) returns (ghost ack: bool)
      requires Opened(head) && si
      modifies this
      ensures AtByte() && !aa && sta && code == AddressCode(address, ack) && bus == head + [Address(address, ack)]
    {
      OpeningIs();
      dat := address;
      si := false;
      ack := Wait();
    }

    /** The cases before the address byte is over. */
    method CaseOpening(state: byte, address: byte, ghost head: seq<Event>) returns (addressed: bool, ghost ack: bool)
      requires Opened(head) && state == if si then code else IDLE
      modifies this
      ensures addressed == old(si)
      ensures if addressed
        then AtByte() && !aa && sta && code == AddressCode(address, ack) && bus == head + [Address(address, ack)]
        else Opened(head) && si
    {
      if state == IDLE {
        CaseIdle(head);
        addressed, ack := false, true;
      } else {
        ack := CaseStarted(address, head);
        addressed := true;
      }
    }

    /** A byte is put on the bus, after the address (which also ends the request for a START) or after
        another byte. */
    method CaseSend(b: byte) returns (ghost ack: bool)
      requires AtByte() && !aa && PhaseOf(code) == Writing(true) && (code == SENT_ACK ==> !sta)
      modifies this
      ensures AtByte() && !aa && !sta && code == (if ack then SENT_ACK else SENT_NACK)
      ensures bus == old(bus) + [Sent(b, ack)]
    {
      dat := b;
      if code == ADDRESS_W_ACK {
        sta := false;
      }
      si := false;
      ack := Wait();
    }

    /** The call gives the bus up: STOP is requested, and a START too if STA is still set. */
    method CaseStop()
      requires AtByte() && !aa && AtTurn(code)
      modifies this
      ensures Ready() && Promised() == old(bus) + if sta then [Stop, Start] else [Stop]
      ensures sta == old(sta)
    {
      sto := true;
      si := false;
    }

    /** The call is done: STOP, or a repeated START for the next call. */
    method CaseDone(stop: bool)
      requires AtByte() && !aa && !sta && AtTurn(code)
      modifies this
      ensures Ready() && Promised() == old(bus) + Ending(stop)
    {
      if stop {
        sto := true;
      } else {
        sta := true;
      }
      si := false;
    }

    /** The bus has been brought to an address phase, or is on its way to one. */
    ghost predicate Opened(head: seq<Event>)
      reads this
    {
      Ready() && Promised() + Opening() == head
    }

    /** A byte and its acknowledge bit are over. */
    ghost predicate AtByte()
      reads this
    {
      Valid() && si && !sto && code != IDLE && !InAddressPhase(code)
    }

    // -------------------------------------------------------------- rflpc_i2c_write

    /** The result word holds a status and the number of bytes put on the bus, the refused one
        included. */
    method Write(addr: byte, data: seq<byte>, stop: bool)
      returns (result: u16, ghost status: Status, ghost count: byte)
      requires Ready() && !IsRead(addr) && |data| <= 0xFF
      modifies this
      ensures Ready() && result == Result(status, count) && WriteOutcome(data, status, count)
      ensures Promised() == old(Promised()) + old(Opening()) + WriteTrace(addr, data, stop, status, count)
    {
      ghost var head, ack, addressed := Promised() + Opening(), true, false;
      var realnbytes: byte, over, outcome := 0, false, Success;
      while true
        invariant 0 <= realnbytes <= |data|
        invariant if addressed then Written(head, addr, data, realnbytes, ack) else Opened(head) && realnbytes == 0
        decreases if addressed then 0 else if si then 1 else 2, |data| - realnbytes
      {
        var state := ReadStatus();
        if state == IDLE || state == STARTED || state == RESTARTED {
          addressed, ack := CaseOpening(state, addr, head);
        } else {
          over, outcome, realnbytes, ack := TransmitterCase(addr, data, stop, realnbytes, head, ack);
          if over {
            return Result(outcome, realnbytes), outcome, realnbytes;
          }
        }
      }
    }

    /** The master transmitter cases: statuses 0x18, 0x20, 0x28 and 0x30. */
    method TransmitterCase(addr: byte, data: seq<byte>, stop: bool, done: byte, ghost head: seq<Event>, ghost ack0: bool)
      returns (over: bool, status: Status, done': byte, ghost ack: bool)
      requires done <= |data| <= 0xFF && !IsRead(addr) && Written(head, addr, data, done, ack0)
      modifies this
      ensures done' == if over then done else done + 1
      ensures over ==> Ready() && WriteOutcome(data, status, done')
      ensures over ==> Promised() == head + WriteTrace(addr, data, stop, status, done')
      ensures !over ==> done' <= |data| && Written(head, addr, data, done', ack)
    {
      over, status, ack := true, Success, ack0;
      if code == ADDRESS_W_ACK {
        if |data| - done == 0 {
          CaseStop();
          status := SizeZero;
          assert Promised() == head + WriteTrace(addr, data, stop, SizeZero, 0);
        } else {
          ack := CaseSend(data[done]);
          WriteBodyGrows(head, addr, data, 1, ack);
          over := false;
        }
      } else if code == ADDRESS_W_NACK {
        CaseStop();
        status := SlaveBusy;
        assert Promised() == head + WriteTrace(addr, data, stop, SlaveBusy, 0);
      } else {
        over, status, ack := SentCase(addr, data, stop, done, head, ack0);
      }
      done' := if over then done else done + 1;
    }

    /** Statuses 0x28 and 0x30. */
    method SentCase(addr: byte, data: seq<byte>, stop: bool, done: nat, ghost head: seq<Event>, ghost ack0: bool)
      returns (over: bool, status: Status, ghost ack: bool)
      requires 1 <= done <= |data| <= 0xFF && !IsRead(addr) && Written(head, addr, data, done, ack0)
      modifies this
      ensures over ==> Ready() && WriteOutcome(data, status, done)
      ensures over ==> Promised() == head + WriteTrace(addr, data, stop, status, done)
      ensures !over ==> done < |data| && Written(head, addr, data, done + 1, ack)
    {
      over, status, ack := true, Success, ack0;
      WriteBodyEnds(head, addr, data, done, stop);
      if code == SENT_ACK {
        if |data| - done == 0 {
          CaseDone(stop);
        } else {
          ack := CaseSend(data[done]);
          WriteBodyGrows(head, addr, data, done, ack);
          over := false;
        }
      } else {
        CaseStop();
        status := DataRefused;
      }
    }

    /** Progress of a write: the address answered, or `done` bytes sent and all but the last
        acknowledged. */
    ghost predicate Written(head: seq<Event>, addr: byte, data: seq<byte>, done: int, ack: bool)
      reads this
    {
      AtByte() && !aa && 0 <= done <= |data| &&
      if done == 0 then sta && code == AddressCode(addr, ack) && bus == head + [Address(addr, ack)]
      else
        !sta && code == (if ack then SENT_ACK else SENT_NACK) && bus == head + WriteBody(addr, data, done, ack)
    }

    /** rflpc_i2c_write with an odd address, which asks the slave to send: the loop has no case for the
        statuses that follow, and SI stays set. After any number of further rounds nothing has moved; the
        call does not return. */
    method WriteOddAddress(addr: byte, rounds: nat) returns (ghost ack: bool)
      requires Ready() && IsRead(addr)
      modifies this
      ensures AtByte() && code == (if ack then ADDRESS_R_ACK else ADDRESS_R_NACK)
      ensures bus == old(Promised()) + old(Opening()) + [Address(addr, ack)]
    {
      ghost var head := Promised() + Opening();
      var addressed, left := false, rounds;
      ack := true;
      while !addressed || left > 0
        invariant if addressed then AtByte() && code == AddressCode(addr, ack) && bus == head + [Address(addr, ack)]
          else Opened(head)
        decreases if addressed then 0 else if si then 1 else 2, left
      {
        var state := ReadStatus();
        if state == IDLE || state == STARTED || state == RESTARTED {
          addressed, ack := CaseOpening(state, addr, head);
        } else {
          assert si && state == AddressCode(addr, ack);
          left := left - 1;
        }
      }
    }

    // -------------------------------------------------------------- rflpc_i2c_read

    /** Read n bytes. Exactly n are stored, in bus order, and nothing else of the buffer changes; every
        byte but the last is acknowledged. Asking for none stores one byte all the same. */
    method Read(addr: byte, data: array<byte>, n: byte, stop: bool)
      returns (result: u16, ghost status: Status, ghost count: byte)
      requires Ready() && Wanted(n) <= data.Length
      modifies this, data
      ensures Ready() && result == Result(status, count) && (status.Success? || status.SlaveBusy?)
      ensures count == if status.Success? then Wanted(n) else 0
      ensures data[..][count..] == old(data[..])[count..]
      ensures Promised() ==
        old(Promised()) + old(Opening()) + ReadTrace(ReadAddress(addr), data[..][..Wanted(n)], stop, status)
    {
      ghost var head, ack, addressed, m := Promised() + Opening(), true, false, data[..];
      var realnbytes: byte, over, outcome := 0, false, Success;
      while true
        invariant 0 <= realnbytes < Wanted(n) && data[..] == m && m[realnbytes..] == old(data[..])[realnbytes..]
        invariant if addressed then Fetched(head, addr, m[..realnbytes], n - realnbytes, ack)
          else Opened(head) && realnbytes == 0
        decreases if addressed then 0 else if si then 1 else 2, Wanted(n) - realnbytes, code == ADDRESS_R_ACK
      {
        var state := ReadStatus();
        if state == IDLE || state == STARTED || state == RESTARTED {
          addressed, ack := CaseOpening(state, ReadAddress(addr), head);
        } else {
          over, outcome, realnbytes, m := ReceiverCase(addr, data, n, stop, realnbytes, head, ack, m, old(data[..]));
          if over {
            return Result(outcome, realnbytes), outcome, realnbytes;
          }
        }
      }
    }

    /** The master receiver cases: statuses 0x40, 0x48, 0x50 and 0x58. */
    method ReceiverCase(addr: byte, data: array<byte>, n: byte, stop: bool, done: byte, ghost head: seq<Event>,
                        ghost ack: bool, ghost m: seq<byte>, ghost m0: seq<byte>)
      returns (over: bool, status: Status, done': byte, ghost m': seq<byte>)
      requires done < Wanted(n) <= data.Length && m == data[..] && Fetched(head, addr, m[..done], n - done, ack)
      requires |m0| == |m| && m[done..] == m0[done..]
      modifies this, data
      ensures status.Success? || status.SlaveBusy?
      ensures m' == data[..] && |m'| == |m| && done <= done' <= Wanted(n) && m'[done'..] == m0[done'..]
      ensures !over ==> done' < Wanted(n) && Fetched(head, addr, m'[..done'], n - done', ack)
      ensures !over ==> code != ADDRESS_R_ACK && done' == done + if old(code) == ADDRESS_R_ACK then 0 else 1
      ensures over ==> Ready() && done' == if status.Success? then Wanted(n) else done
      ensures over ==> status.SlaveBusy? ==> done == 0
      ensures over ==> Promised() == head + ReadTrace(ReadAddress(addr), m'[..Wanted(n)], stop, status)
    {
      over, status, done', m' := true, Success, done, m;
      if code == ADDRESS_R_ACK {
        FirstByte(addr, n - done, head);
        over := false;
      } else if code == ADDRESS_R_NACK {
        NobodyThere(addr, head);
        status := SlaveBusy;
      } else {
        over, done', m' := ReceivedCase(addr, data, n, stop, done, head, m, m0);
      }
    }

    /** Statuses 0x50 and 0x58: a byte has been received. */
    method ReceivedCase(addr: byte, data: array<byte>, n: byte, stop: bool, done: byte, ghost head: seq<Event>,
                        ghost m: seq<byte>, ghost m0: seq<byte>)
      returns (over: bool, done': byte, ghost m': seq<byte>)
      requires done < Wanted(n) <= data.Length && m == data[..] && AtByte() && !sta && aa == (n - done > 1)
      requires code == (if aa then RECEIVED_ACK else RECEIVED_NACK)
      requires bus == head + ReadBody(ReadAddress(addr), m[..done] + [dat], aa)
      requires |m0| == |m| && m[done..] == m0[done..]
      modifies this, data
      ensures m' == data[..] && |m'| == |m| && done' == done + 1 <= Wanted(n) && m'[done'..] == m0[done'..]
      ensures !over ==> done' < Wanted(n) && Fetched(head, addr, m'[..done'], n - done', true) && code != ADDRESS_R_ACK
      ensures over ==> Ready() && done' == Wanted(n)
      ensures over ==> Promised() == head + ReadTrace(ReadAddress(addr), m'[..Wanted(n)], stop, Success)
    {
      StoreByte(data, done, dat);
      m', done' := data[..], done + 1;
      SuffixLater(m, m0, done, done');
      over := code != RECEIVED_ACK;
      if over {
        LastByte(addr, m'[..done'], stop, head);
      } else {
        NextByte(addr, m'[..done'], n - done', head);
      }
    }

    /** `*data++ = I2DAT`. */
    static method StoreByte(data: array<byte>, done: nat, b: byte)
      requires done < data.Length
      modifies data
      ensures data[..][..done + 1] == old(data[..])[..done] + [b]
      ensures data[..][done + 1..] == old(data[..])[done + 1..]
    {
      data[done] := b;
    }

    /** Status 0x48. */
    method NobodyThere(addr: byte, ghost head: seq<Event>)
      requires AtByte() && !aa && sta && code == ADDRESS_R_NACK && bus == head + [Address(ReadAddress(addr), false)]
      modifies this
      ensures Ready() && Promised() == head + [Address(ReadAddress(addr), false), Stop, Start]
    {
      CaseStop();
    }

    /** Status 0x58. */
    method LastByte(addr: byte, ghost stored: seq<byte>, stop: bool, ghost head: seq<Event>)
      requires AtByte() && !aa && !sta && code == RECEIVED_NACK && |stored| >= 1
      requires bus == head + ReadBody(ReadAddress(addr), stored, false)
      modifies this
      ensures Ready() && Promised() == head + ReadTrace(ReadAddress(addr), stored, stop, Success)
    {
      CaseDone(stop);
      assert head + ReadBody(ReadAddress(addr), stored, false) + Ending(stop)
        == head + ReadTrace(ReadAddress(addr), stored, stop, Success);
    }

    /** Status 0x40. AA is set if more than one byte is wanted, and otherwise left as it is: it has to
        be clear by now. */
    method FirstByte(addr: byte, left: nat, ghost head: seq<Event>)
      requires AtByte() && !aa && code == ADDRESS_R_ACK && bus == head + [Address(ReadAddress(addr), true)]
      modifies this
      ensures Fetched(head, addr, [], left, true) && code != ADDRESS_R_ACK && code != ADDRESS_R_NACK
    {
      if left > 1 {
        aa := true;
      }
      sta := false;
      si := false;
      var _ := Wait();
      ReadBodyGrows(head, ReadAddress(addr), [], dat, left > 1);
      assert [] + [dat] == [dat];
    }

    /** Status 0x50, the byte stored: another one is fetched, acknowledged unless it is the last one
        wanted. STA is left as it is. */
    method NextByte(addr: byte, ghost stored: seq<byte>, left: nat, ghost head: seq<Event>)
      requires AtByte() && !sta && code == RECEIVED_ACK && left >= 1 && |stored| >= 1
      requires bus == head + ReadBody(ReadAddress(addr), stored, true)
      modifies this
      ensures Fetched(head, addr, stored, left, true) && code != ADDRESS_R_ACK && code != ADDRESS_R_NACK
    {
      aa := left > 1;
      si := false;
      var _ := Wait();
      ReadBodyGrows(head, ReadAddress(addr), stored, dat, left > 1);
    }

    /** Progress of a read: the address answered, or a byte received that has yet to be stored. */
    ghost predicate Fetched(head: seq<Event>, addr: byte, stored: seq<byte>, nbytes: int, ack: bool)
      reads this
    {
      AtByte() &&
      if code == ADDRESS_R_ACK || code == ADDRESS_R_NACK then
        !aa && sta && stored == [] && code == AddressCode(ReadAddress(addr), ack)
        && bus == head + [Address(ReadAddress(addr), ack)]
      else
        !sta && aa == (nbytes > 1) && code == (if aa then RECEIVED_ACK else RECEIVED_NACK)
        && bus == head + ReadBody(ReadAddress(addr), stored + [dat], aa)
    }

    // -------------------------------------------------------------- runs

    /** Any sequence of calls, whatever the slaves answer: the bus trace grows by the session's trace
        and is well-formed at every step. */
    method Session(calls: seq<Call>) returns (ghost past: seq<Done>)
      requires Ready() && forall i :: 0 <= i < |calls| ==> Legal(calls[i])
      modifies this
      ensures Ready() && WellFormed(bus) && WellFormed(Promised())
      ensures CallsOf(past) == calls
      ensures Promised() == old(Promised()) + SessionTrace(old(Scan(Free, Promised())) == Free, past)
    {
      past := [];
      assert calls[..0] == [];
      ghost var start, free := Promised(), Scan(Free, Promised()) == Free;
      OpeningIs();
      for k := 0 to |calls|
        invariant Ready() && CallsOf(past) == calls[..k]
        invariant Promised() == start + SessionTrace(free, past)
      {
        AfterSession(start, free, past);
        ghost var o := Perform(calls[k]);
        SessionGrows(start, free, past, o);
        TakeOneMore(calls, k);
        past := past + [o];
      }
      OpeningIs();
    }

    method Perform(c: Call) returns (ghost o: Done)
      requires Ready() && Legal(c)
      modifies this
      ensures Ready() && o.call == c
      ensures Promised() == old(Promised()) + old(Opening()) + CallTrace(o)
    {
      if c.WriteCall? {
        o := PerformWrite(c);
      } else {
        o := PerformRead(c);
      }
    }

    method PerformWrite(c: Call) returns (ghost o: Done)
      requires Ready() && Legal(c) && c.WriteCall?
      modifies this
      ensures Ready() && o.call == c
      ensures Promised() == old(Promised()) + old(Opening()) + CallTrace(o)
    {
      var _, status, count := Write(c.addr, c.data, c.stop);
      o := Outcome(c, status, count, []);
    }

    method PerformRead(c: Call) returns (ghost o: Done)
      requires Ready() && Legal(c) && c.ReadCall?
      modifies this
      ensures Ready() && o.call == c
      ensures Promised() == old(Promised()) + old(Opening()) + CallTrace(o)
    {
      var data := new byte[Wanted(c.n)];
      var _, status, count := Read(c.addr, data, c.n, c.stop);
      assert data[..][..Wanted(c.n)] == data[..];
      assert ReadAddress(c.addr) == c.addr;
      o := Outcome(c, status, count, data[..]);
    }

    /** The temperature sensor of the sample: select a register with stop = 0, then read it. When both
        calls succeed this is one combined transaction, with no STOP between its two halves. */
    method ReadRegister(addr: byte, register: byte, data: array<byte>, n: byte) returns (ok: bool)
      requires Ready() && !IsRead(addr) && Wanted(n) <= data.Length
      modifies this, data
      ensures Ready()
      ensures ok ==> Promised() == old(Promised()) + old(Opening()) + CombinedTrace(addr, register, data[..Wanted(n)])
    {
      ghost var head := Promised() + Opening();
      OpeningIs();
      var result, status, count := Write(addr, [register], false);
      ResultTellsApart(status, count, Success, 0);
      if result / 0x100 != 0 {
        return false;
      }
      ghost var middle := Promised();
      SelectRegister(old(Promised()), head, addr, register);
      assert middle == head + Selection(addr, register);
      assert middle + Opening() == middle;
      result, status, count := Read(addr, data, n, true);
      ResultTellsApart(status, count, Success, 0);
      ok := result / 0x100 == 0;
      if ok {
        Regroup(head, Selection(addr, register), ReadTrace(ReadAddress(addr), data[..Wanted(n)], true, Success));
      }
    }
  }

  function Selection(addr: byte, register: byte): seq<Event> {
    [Address(addr, true), Sent(register, true), Restart]
  }

  /** START, address, register, repeated START, address with the read bit, the bytes, STOP. */
  function CombinedTrace(addr: byte, register: byte, data: seq<byte>): seq<Event>
    requires |data| >= 1
  {
    Selection(addr, register) + ReadTrace(ReadAddress(addr), data, true, Success)
  }

  lemma SelectRegister(before: seq<Event>, head: seq<Event>, addr: byte, register: byte)
    requires !IsRead(addr) && (Scan(Free, before) == Free || Scan(Free, before) == AwaitAddress)
    requires head == before + if Scan(Free, before) == Free then [Start] else []
    ensures WriteTrace(addr, [register], false, Success, 1) == Selection(addr, register)
    ensures Scan(Free, head + Selection(addr, register)) == AwaitAddress
  {
    OneStep(Free, Start);
    ScanAppend(Free, before, [Start]);
    assert before + [] == before;
    assert AllSent([register]) == [Sent(register, true)];
    ScanAppend(Free, head, Selection(addr, register));
    WriteTraceScan(addr, [register], false, Success, 1);
  }

  lemma TakeOneMore<T>(s: seq<T>, k: nat)
    requires k < |s|
    ensures s[..k + 1] == s[..k] + [s[k]] && s[..|s|] == s
  {
  }

  lemma SuffixLater<T>(a: seq<T>, b: seq<T>, k: nat, j: nat)
    requires |a| == |b| && k <= j <= |a| && a[k..] == b[k..]
    ensures a[j..] == b[j..]
  {
    assert a[k..][j - k..] == a[j..] && b[k..][j - k..] == b[j..];
  }

  lemma Regroup<T>(a: seq<T>, b: seq<T>, c: seq<T>)
    ensures (a + b) + c == a + (b + c)
  {
  }

  lemma SessionGrows(start: seq<Event>, free: bool, past: seq<Done>, o: Done)
    ensures start + SessionTrace(free, past + [o]) ==
      start + SessionTrace(free, past) + (if FreeAfter(free, past) then [Start] else []) + CallTrace(o)
    ensures CallsOf(past + [o]) == CallsOf(past) + [o.call]
  {
    SessionStep(free, past, o);
    Regroup(start, SessionTrace(free, past) + Opens(free, past), CallTrace(o));
    Regroup(start, SessionTrace(free, past), Opens(free, past));
    assert (past + [o])[..|past|] == past;
  }

  function Opens(free: bool, past: seq<Done>): seq<Event> {
    if FreeAfter(free, past) then [Start] else []
  }

  lemma SessionStep(free: bool, past: seq<Done>, o: Done)
    ensures SessionTrace(free, past + [o]) == SessionTrace(free, past) + Opens(free, past) + CallTrace(o)
  {
    assert (past + [o])[..|past|] == past && (past + [o])[|past|] == o;
  }

  lemma AfterSession(start: seq<Event>, free: bool, past: seq<Done>)
    requires Scan(Free, start) == if free then Free else AwaitAddress
    ensures Scan(Free, start + SessionTrace(free, past)) == if FreeAfter(free, past) then Free else AwaitAddress
  {
    SessionWellFormed(free, past);
    ScanAppend(Free, start, SessionTrace(free, past));
  }

  /** `addr | 1`. */
  function ReadAddress(addr: byte): (a: byte)
    ensures IsRead(a)
  {
    if IsRead(addr) then addr else addr + 1
  }
}
