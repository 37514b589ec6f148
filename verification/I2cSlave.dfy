/** The I2C driver as a slave receiver: rflpc_i2c_read in slave mode, against a master that does as it
    likes. */
module I2cSlave {
  import opened Bytes

  const IDLE: byte := 0xF8
  const CALLED: byte := 0x60
  const DATA_ACK: byte := 0x80
  const DATA_NACK: byte := 0x88
  const RELEASED: byte := 0xA0

  /** What the slave hears from the master. */
  datatype Heard = Called | Data(b: byte, ack: bool) | Released

  datatype Status = Success | StopReceived

  /** The call's result as the driver returns it. */
  function Result(status: Status, count: byte): u16 {
    (match status case Success => 0 case StopReceived => 0x500) + count
  }

  function AllAcked(data: seq<byte>): (t: seq<Heard>)
    ensures |t| == |data| && forall i :: 0 <= i < |t| ==> t[i] == Data(data[i], true)
  {
    seq(|data|, i requires 0 <= i < |data| => Data(data[i], true))
  }

  /** Bytes a call takes in before it refuses one. */
  function Capacity(n: byte): nat {
    if n == 0 then 0x100 else n
  }

  /** The count left, in one byte: it is 0 again exactly when the capacity is reached. */
  lemma CountDown(n: byte, at: nat)
    requires at < Capacity(n)
    ensures ((n - at) % 0x100 - 1) % 0x100 == (n - (at + 1)) % 0x100
    ensures (at % 0x100 + 1) % 0x100 == (at + 1) % 0x100
    ensures (n - (at + 1)) % 0x100 == 0 <==> at + 1 == Capacity(n)
  {
  }

  class Block {
    var aa: bool
    var si: bool
    var dat: byte
    var code: byte
    ghost var heard: seq<Heard>

    /** rflpc_i2c_init in slave mode: AA set, so that the block answers to its address. */
    constructor Init()
      ensures Listening() && !si && heard == []
    {
      aa, si, dat, code := true, false, 0, IDLE;
      heard := [];
    }

    /** The state between two calls: AA set, and the block not addressed, or just addressed. */
    predicate Listening()
      reads this
    {
      aa && if si then code == CALLED else code == IDLE || code == DATA_NACK || code == RELEASED
    }

    predicate Addressed()
      reads this
    {
      code == CALLED || code == DATA_ACK
    }

    /** The master's next move. It calls a listening slave; it sends a byte to an addressed one, or
        releases it with a STOP or repeated START. */
    method Hear()
      requires !si && (aa || Addressed())
      modifies this`si, this`dat, this`code, this`heard
      ensures si
      ensures !old(Addressed()) ==> code == CALLED && heard == old(heard) + [Called]
      ensures old(Addressed()) ==>
        if code == RELEASED then heard == old(heard) + [Released]
        else code == (if aa then DATA_ACK else DATA_NACK) && heard == old(heard) + [Data(dat, aa)]
    {
      var release: bool := *;
      if !Addressed() {
        code := CALLED;
        heard := heard + [Called];
      } else if release {
        code := RELEASED;
        heard := heard + [Released];
      } else {
        dat := *;
        code := if aa then DATA_ACK else DATA_NACK;
        heard := heard + [Data(dat, aa)];
      }
      si := true;
    }

    /** Receive up to n bytes, or up to 256 if n is 0: the count left is one byte, and 0 is taken for the end
        only after a byte has been stored. What the call stores, `stored` bytes, is what the master sent and
        the slave acknowledged, in order; it never stores more than that, and the count in the result is
        the number stored modulo 256. */
    method Read(data: array<byte>, n: byte)
      returns (result: u16, ghost status: Status, ghost stored: nat, ghost refused: byte)
      requires Listening() && Capacity(n) <= data.Length
      modifies this, data
      ensures Listening() && !si && result == Result(status, stored % 0x100)
      ensures stored <= Capacity(n) && data[stored..] == old(data[stored..])
      ensures status == Success ==> stored == Capacity(n)
      ensures heard == old(heard) + (if old(si) then [] else [Called]) + AllAcked(data[..stored])
                       + [if status == Success then Data(refused, false) else Released]
    {
      ghost var head := heard + if si then [] else [Called];
      ghost var called, original := false, data[..];
      var nbytes: byte, realnbytes: byte, at := n, 0, 0;
      while true
        invariant 0 <= at <= Capacity(n) && realnbytes == at % 0x100 && nbytes == (n - at) % 0x100
        invariant data[at..] == original[at..]
        invariant if called then Receiving(head, data[..at], Capacity(n) - at)
          else Listening() && at == 0 && heard + (if si then [] else [Called]) == head
        decreases if called then 0 else if si then 1 else 2, Capacity(n) - at, code == DATA_ACK
      {
        // the master may have moved since the last look
        var moved: bool := *;
        if moved && !si {
          Hear();
        }
        var state := if si then code else IDLE;
        if state == CALLED {
          aa := true;
          si := false;
          called := true;
          assert AllAcked(data[..at]) == [];
        } else if state == DATA_ACK {
          StoreDat(data, at, head, original);
          CountDown(n, at);
          at, nbytes, realnbytes := at + 1, (nbytes - 1) % 0x100, (realnbytes + 1) % 0x100;
          aa := nbytes != 0;
          si := false;
        } else if state == DATA_NACK || state == RELEASED {
          var outcome := Leave(head, data[..at]);
          return Result(outcome, realnbytes), outcome, at, dat;
        }
        if !si {
          Hear();
        }
      }
    }

    /** Statuses 0x88, a byte refused and not saved, and 0xA0, a STOP or repeated START: the slave listens
        again. */
    method Leave(ghost head: seq<Heard>, ghost kept: seq<byte>) returns (status: Status)
      requires si && (code == DATA_NACK || code == RELEASED)
      requires heard == head + AllAcked(kept) + [if code == DATA_NACK then Data(dat, false) else Released]
      modifies this`aa, this`si
      ensures Listening() && !si && (status == Success <==> code == DATA_NACK)
      ensures heard == head + AllAcked(kept) + [if status == Success then Data(dat, false) else Released]
    {
      status := if code == DATA_NACK then Success else StopReceived;
      aa := true;
      si := false;
    }

    /** `*data = I2DAT`. */
    method StoreDat(data: array<byte>, at: nat, ghost head: seq<Heard>, ghost original: seq<byte>)
      requires at < data.Length == |original| && data[at..] == original[at..]
      requires heard == head + AllAcked(data[..at]) + [Data(dat, true)]
      modifies data
      ensures data[at + 1..] == original[at + 1..] && heard == head + AllAcked(data[..at + 1])
    {
      ghost var kept := data[..at];
      data[at] := dat;
      assert data[..at + 1] == kept + [dat];
      assert data[at + 1..] == original[at..][1..];
      StoreOne(head, kept, dat);
    }

    /** The slave is addressed and has something to report: a byte to store, a byte it refused because
        the buffer is full, or the end. */
    ghost predicate Receiving(head: seq<Heard>, stored: seq<byte>, nbytes: int)
      reads this
    {
      si && aa == (nbytes != 0) &&
      if code == RELEASED then heard == head + AllAcked(stored) + [Released]
      else code == (if aa then DATA_ACK else DATA_NACK) && heard == head + AllAcked(stored) + [Data(dat, aa)]
    }
  }

  lemma StoreOne(head: seq<Heard>, stored: seq<byte>, b: byte)
    ensures head + AllAcked(stored) + [Data(b, true)] == head + AllAcked(stored + [b])
  {
  }
}
