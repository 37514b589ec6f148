/** The driver's ring functions. Before every read of an index the other side owns, the DMA engine
    may have moved it any number of legal steps: this is each interleaving of software and hardware,
    since the engine reads and writes nothing else of the ring. */
module Ethernet {
  import opened Arithmetic
  import opened Rings

  // ---------------------------------------------------------------- the register tests, frozen

  /** The driver's "queue full" test on one snapshot of the registers. The consume index is unsigned,
      so that consume - 1 equals no slot number when consume is 0. */
  predicate FullTest(n: nat, produce: nat, consume: nat, inc: nat)
    requires n > 0
  {
    var slot := (produce + inc) % n;
    slot == consume - 1 || (slot == n - 1 && consume == 0)
  }

  /** The test recognises the one slot that must stay empty, and no other. */
  lemma FullTestIs<F>(r: Ring<F>, inc: nat)
    requires Inv(r) && inc < r.n
    ensures FullTest(r.n, r.produce, r.consume, inc) <==> inc == Free(r)
    ensures (r.produce + inc) % r.n == Wrap(r.produce + inc, r.n)
  {
    WrapIsMod(r.produce + inc, r.n);
  }

  /** Asking for a slot without having scanned up to it, at any distance: the test passes beyond the
      free slots too, and the slot handed out is then one the hardware is sending from. */
  lemma ScanMustBeInOrder<F>(r: Ring<F>, inc: nat)
    requires Inv(r)
    ensures FullTest(r.n, r.produce, r.consume, inc) <==> inc % r.n == Free(r)
    ensures !FullTest(r.n, r.produce, r.consume, inc) ==>
      (inc % r.n < Free(r) <==> !Owned(r, (r.produce + inc) % r.n))
  {
    var i := inc % r.n;
    ModAdd(inc, r.produce, r.n);
    assert (r.produce + i) % r.n == (r.produce + inc) % r.n;
    FullTestIs(r, i);
    if i < Free(r) {
      FreeSlot(r, i);
    } else if i > Free(r) {
      assert SlotAt(r, i + Pending(r) - r.n) == Wrap(r.produce + i, r.n);
    }
  }

  /** The frames the hardware finds between the two registers. */
  function Visible<F>(slots: seq<F>, produce: nat, consume: nat): seq<F>
    requires produce < |slots| && consume < |slots|
  {
    if consume <= produce then slots[consume..produce] else slots[consume..] + slots[..produce]
  }

  /** In a legal ring these are the frames waiting. */
  lemma VisibleIsQueue<F>(r: Ring<F>)
    requires Inv(r)
    ensures Visible(r.slots, r.produce, r.consume) == Queue(r)
  {
    VisibleTurn(r, Pending(r));
  }

  lemma VisibleTurn<F>(r: Ring<F>, k: nat)
    requires Shaped(r) && k < r.n
    ensures Visible(r.slots, SlotAt(r, k), r.consume) == Turn(r)[..k]
  {
  }

  /** Handing over more than one slot too many, by any number: the test refuses only counts that are
      one too many modulo the size. Otherwise the hardware finds the first (pending + count) modulo N
      slots of the turn; for a count of up to N these are fewer of the frames that were waiting, and
      of the new ones none. */
  lemma OverrunLosesFrames<F>(r: Ring<F>, count: nat)
    requires Inv(r) && Free(r) + 1 < count
    ensures FullTest(r.n, r.produce, r.consume, count - 1) <==> (count - 1) % r.n == Free(r)
    ensures var seen := Visible(r.slots, (r.produce + count) % r.n, r.consume);
      && seen == Turn(r)[..(Pending(r) + count) % r.n]
      && (count < r.n ==> seen == Queue(r)[..|Queue(r)| - (r.n - count)])
      && (count == r.n ==> seen == Queue(r))
  {
    ScanMustBeInOrder(r, count - 1);
    var k := (Pending(r) + count) % r.n;
    WrapIsMod(r.consume + Pending(r), r.n);
    ModAdd(r.consume + Pending(r), count, r.n);
    ModAdd(Pending(r) + count, r.consume, r.n);
    WrapIsMod(r.consume + k, r.n);
    assert SlotAt(r, k) == (r.produce + count) % r.n;
    VisibleTurn(r, k);
    if count <= r.n {
      DivUnique(Pending(r) + count, r.n, 1, Pending(r) + count - r.n);
      assert Turn(r)[..Pending(r)][..k] == Turn(r)[..k];
    }
  }

  /** Four slots, two frames waiting, three handed over: one frame is left. */
  lemma OverrunExample()
    ensures var r := Ring(4, 2, 0, ['a', 'b', 'c', 'd'], ['a', 'b'], []);
      && Inv(r) && Queue(r) == ['a', 'b'] && Free(r) == 1
      && !FullTest(r.n, r.produce, r.consume, 3 - 1)
      && Visible(r.slots, (r.produce + 3) % r.n, r.consume) == ['a']
  {
    var r := Ring(4, 2, 0, ['a', 'b', 'c', 'd'], ['a', 'b'], []);
    assert Turn(r) == ['a', 'b', 'c', 'd'];
    assert Turn(r)[..2] == ['a', 'b'] == r.put[0..];
  }

  // ---------------------------------------------------------------- transmission

  class TxRing<F> {
    var descriptorNumber: nat
    var produce: nat
    var consume: nat
    var slots: seq<F>
    ghost var put: seq<F>
    ghost var got: seq<F>

    ghost function State(): Ring<F>
      reads this
    {
      Ring(descriptorNumber + 1, produce, consume, slots, put, got)
    }

    ghost predicate Valid()
      reads this
    {
      Inv(State())
    }

    /** rflpc_eth_set_tx_base_addresses: `index` is where the hardware's consume index happens to be. */
    constructor SetBaseAddresses(slots: seq<F>, count: nat, index: nat)
      requires 1 <= count == |slots|
      ensures State() == Ring(count, index, index, slots, [], [])
      ensures Valid() <==> index < count
      ensures Valid() ==> Queue(State()) == [] && Staged(State()) <= slots[index..] + slots[..index]
    {
      descriptorNumber := count - 1;
      consume := index;
      produce := index;
      this.slots := slots;
      put, got := [], [];
      new;
      EmptyRing(count, index, slots, put);
    }

    /** The DMA engine sends the oldest waiting frame. */
    method SendOne()
      requires Valid() && consume != produce
      modifies this`consume, this`got
      ensures Pending(old(State())) > 0 && State() == Take(old(State()))
    {
      got := got + [slots[consume]];
      consume := if consume == descriptorNumber then 0 else consume + 1;
    }

    /** The DMA engine sends any number of the frames that are waiting. */
    method Hardware() returns (ghost k: nat)
      requires Valid()
      modifies this`consume, this`got
      ensures k <= Pending(old(State())) && State() == Taken(old(State()), k)
      ensures Valid()
    {
      ghost var r := State();
      var steps: nat := *;
      k := 0;
      TakenRefines(r, 0);
      assert Taken(r, 0) == r;
      while steps > 0 && consume != produce
        invariant k <= Pending(r) && State() == Taken(r, k) && Valid()
      {
        TakenRefines(r, k);
        SendOne();
        TakenIsTaking(r, k);
        TakenRefines(r, k + 1);
        k, steps := k + 1, steps - 1;
      }
    }

    /** The test both transmit functions open with, on the slot they ask about. The consume index is read
        twice, and frames may go out before either read; `k` counts them. */
    method SlotFull(slot: nat) returns (full: bool, ghost k: nat)
      requires Valid() && slot <= descriptorNumber
      modifies this`consume, this`got
      ensures k <= Pending(old(State())) && State() == Taken(old(State()), k) && Valid()
      ensures full <==> slot == EmptySlot(State())
    {
      ghost var r := State();
      k := Hardware();
      if slot == consume - 1 {
        OneRead(State(), slot);
        return true, k;
      }
      if slot == descriptorNumber {
        ghost var more := Hardware();
        TwoReads(r, k, more, slot);
        return consume == 0, k + more;
      }
      OneRead(State(), slot);
      return false, k;
    }

    /** The test for the slot `inc` places ahead, near or far: true exactly for one residue modulo the
        ring's size, at the moment it answers for. */
    method QueueFull(inc: nat) returns (full: bool, ghost k: nat)
      requires Valid()
      modifies this`consume, this`got
      ensures k <= Pending(old(State())) && State() == Taken(old(State()), k) && Valid()
      ensures full <==> inc % (descriptorNumber + 1) == Free(State())
      ensures inc <= Free(old(State())) ==> if full then inc == Free(State()) else inc < Free(State())
    {
      full, k := SlotFull((produce + inc) % (descriptorNumber + 1));
      EmptySlotIs(State(), inc);
      if inc <= Free(State()) {
        SmallMod(inc, descriptorNumber + 1);
      }
    }

    /** rflpc_eth_get_current_tx_packet_descriptor, for every idx. A refusal was true when it was given.
        A slot handed out is free, and stays so, if and only if idx modulo the size is below the free
        count; scanning in order keeps to that. */
    method GetDescriptor(idx: nat) returns (ok: bool, index: nat, ghost k: nat)
      requires Valid()
      modifies this`consume, this`got
      ensures k <= Pending(old(State())) && State() == Taken(old(State()), k) && Valid()
      ensures ok <==> idx % (descriptorNumber + 1) != Free(State())
      ensures ok ==>
        && index == (produce + idx) % (descriptorNumber + 1)
        && (idx % (descriptorNumber + 1) < Free(State()) <==> !Owned(State(), index))
      ensures idx <= Free(old(State())) ==>
        if ok then idx < Free(State()) && index == Wrap(produce + idx, descriptorNumber + 1) && !Owned(State(), index)
        else idx == Free(State())
    {
      var full;
      full, k := QueueFull(idx);
      ok, index := !full, 0;
      if ok {
        index := (produce + idx) % (descriptorNumber + 1);
        ScanMustBeInOrder(State(), idx);
        if idx < Free(State()) {
          SmallMod(idx, descriptorNumber + 1);
          WrapIsMod(produce + idx, descriptorNumber + 1);
        }
      }
    }

    /** The software writes the frame and the control word of a descriptor it was given. */
    method Write(idx: nat, index: nat, f: F)
      requires Valid() && idx < Free(State()) && index == Wrap(produce + idx, descriptorNumber + 1)
      modifies this`slots
      ensures State() == Fill(old(State()), idx, f) && Valid()
    {
      FillRefines(State(), idx, f);
      slots := slots[index := f];
    }

    /** rflpc_eth_done_process_tx_packet, for every count. A count of more than free + 1 may pass the test
        as well, and the produce index then moves all the same (see OverrunLosesFrames). A count of 0 asks
        about the slot before the first, in 32 bits, and changes nothing whatever the answer. */
    method DoneProcess(count: nat) returns (accepted: bool, ghost k: nat)
      requires Valid()
      modifies this`consume, this`got, this`produce, this`put
      ensures k <= Pending(old(State())) && Inv(Taken(old(State()), k))
      ensures count >= 1 ==> (accepted <==> (count - 1) % (descriptorNumber + 1) != Free(Taken(old(State()), k)))
      ensures !accepted || count == 0 ==> State() == Taken(old(State()), k)
      ensures accepted && count <= Free(Taken(old(State()), k)) ==> State() == Hand(Taken(old(State()), k), count)
      ensures accepted && count > Free(Taken(old(State()), k)) ==>
        State() == Taken(old(State()), k).(produce := (old(produce) + count) % (descriptorNumber + 1))
      ensures 1 <= count <= old(Free(State())) + 1 ==> Valid() && (accepted <==> count <= Free(Taken(old(State()), k)))
      ensures !accepted && 1 <= count <= old(Free(State())) + 1 ==> count == Free(State()) + 1
      ensures 1 <= count <= Free(old(State())) ==> accepted
    {
      var full;
      if count == 0 {
        full, k := SlotFull((if produce == 0 then 0xFFFF_FFFF else produce - 1) % (descriptorNumber + 1));
      } else {
        full, k := QueueFull(count - 1);
      }
      accepted := !full;
      if accepted {
        ghost var r := State();
        if count <= Free(r) {
          HandOver(r, count);
          put := put + Staged(r)[..count];
        }
        produce := (produce + count) % (descriptorNumber + 1);
        assert count <= Free(r) ==> State() == Hand(r, count);
        assert Staged(r)[..0] == [];
      }
    }

    /** The next slot is asked for and written. */
    method StageNext(i: nat, frames: seq<F>) returns (ok: bool)
      requires Valid() && i < |frames| && i <= Free(State()) && frames[..i] <= Staged(State())
      modifies this`consume, this`got, this`slots
      ensures Valid() && old(got) <= got && old(Free(State())) <= Free(State())
      ensures if ok then i + 1 <= Free(State()) && frames[..i + 1] <= Staged(State()) else i == Free(State())
    {
      ghost var before := State();
      var index;
      ghost var k;
      ok, index, k := GetDescriptor(i);
      StagedKept(before, k, frames[..i]);
      if ok {
        StagedNext(State(), i, frames);
        Write(i, index, frames[i]);
      }
    }

    /** Filling free slots one after the other and handing them over together, as the documentation of
        the idx parameter intends: all the frames go out, in order, or none does. */
    method SendAll(frames: seq<F>) returns (sent: bool)
      requires Valid() && |frames| >= 1
      modifies this
      ensures Valid() && descriptorNumber == old(descriptorNumber)
      ensures old(got) <= got
      ensures put == if sent then old(put) + frames else old(put)
      ensures |frames| <= old(Free(State())) ==> sent
    {
      var i := 0;
      while i < |frames|
        invariant 0 <= i <= |frames| && Valid()
        invariant descriptorNumber == old(descriptorNumber) && put == old(put) && old(got) <= got
        invariant i <= Free(State()) && old(Free(State())) <= Free(State())
        invariant frames[..i] <= Staged(State())
      {
        var ok := StageNext(i, frames);
        if !ok {
          return false;
        }
        i := i + 1;
      }
      ghost var before := State();
      ghost var k;
      assert frames[..|frames|] == frames;
      sent, k := DoneProcess(|frames|);
      StagedKept(before, k, frames);
    }
  }

  // ---------------------------------------------------------------- reception

  class RxRing<F(0)> {
    var descriptorNumber: nat
    var produce: nat
    var consume: nat
    var slots: seq<F>
    ghost var put: seq<F>
    ghost var got: seq<F>
    /** Frames still to arrive; those that find the ring full are lost. */
    var wire: seq<F>

    ghost function State(): Ring<F>
      reads this
    {
      Ring(descriptorNumber + 1, produce, consume, slots, put, got)
    }

    ghost predicate Valid()
      reads this
    {
      Inv(State())
    }

    /** rflpc_eth_set_rx_base_addresses: `index` is where the hardware's produce index happens to be. */
    constructor SetBaseAddresses(slots: seq<F>, count: nat, index: nat, wire: seq<F>)
      requires 1 <= count == |slots|
      ensures State() == Ring(count, index, index, slots, [], []) && this.wire == wire
      ensures Valid() <==> index < count
    {
      descriptorNumber := count - 1;
      produce := index;
      consume := index;
      this.slots := slots;
      this.wire := wire;
      put, got := [], [];
      new;
      EmptyRing(count, index, slots, put);
    }

    /** The DMA engine receives any number of frames. */
    method Hardware()
      requires Valid()
      modifies this`produce, this`slots, this`put, this`wire
      ensures Valid() && old(put) <= put && |put| - |old(put)| + |wire| <= |old(wire)|
      ensures forall f :: f in put[|old(put)|..] ==> f in old(wire)
    {
      var steps: nat := *;
      while steps > 0 && wire != []
        invariant Valid() && old(put) <= put && |put| - |old(put)| + |wire| <= |old(wire)|
        invariant forall f :: f in put[|old(put)|..] ==> f in old(wire)
        invariant forall f :: f in wire ==> f in old(wire)
        decreases wire
      {
        assert wire[0] in wire;
        ReceiveOne(wire[0]);
        wire, steps := wire[1..], steps - 1;
      }
    }

    /** The DMA engine receives one frame, or loses it if the ring is full. */
    method ReceiveOne(f: F)
      requires Valid()
      modifies this`produce, this`slots, this`put
      ensures Valid() && put == if old(Free(State())) > 0 then old(put) + [f] else old(put)
    {
      ghost var r := State();
      var next := if produce == descriptorNumber then 0 else produce + 1;
      if next != consume {
        Arrival(r, f);
        slots := slots[produce := f];
        produce := next;
        put := put + [f];
        assert State() == Hand(Fill(r, 0, f), 1);
      } else {
        assert Free(r) == 0;
      }
    }

    /** rflpc_eth_get_current_rx_packet_descriptor, and rflpc_eth_rx_available, which is its test. */
    method GetDescriptor() returns (ok: bool, index: nat)
      requires Valid()
      modifies this`produce, this`slots, this`put, this`wire
      ensures Valid() && old(put) <= put && |put| - |old(put)| + |wire| <= |old(wire)|
      ensures ok <==> Queue(State()) != []
      ensures ok ==> index == consume && slots[index] == Queue(State())[0]
    {
      Hardware();
      Oldest(State());
      return consume != produce, consume;
    }

    /** rflpc_eth_done_process_rx_packet: the oldest frame is given back, if there is one. */
    method DoneProcess()
      requires Valid()
      modifies this`produce, this`slots, this`put, this`wire, this`consume, this`got
      ensures Valid() && old(put) <= put && |put| - |old(put)| + |wire| <= |old(wire)|
      ensures old(Queue(State())) != [] ==> got == old(got) + [old(Queue(State()))[0]]
      ensures |got| <= |old(got)| + 1 && old(got) <= got
    {
      ghost var q := Queue(State());
      Hardware();
      ghost var r := State();
      assert q <= Queue(r);
      Oldest(r);
      if consume == produce {
        return;
      }
      TakeRefines(r);
      got := got + [slots[consume]];
      if consume == descriptorNumber {
        consume := 0;
      } else {
        consume := consume + 1;
      }
      assert State() == Take(r);
    }

    /** The receive part of eth_handler: every frame accepted so far is delivered to the callback, in
        order and once, frames that arrive meanwhile included, and the ring is left empty. */
    method DrainHandler(callback: bool) returns (delivered: seq<F>)
      requires Valid()
      modifies this`produce, this`slots, this`put, this`wire, this`consume, this`got
      ensures Valid() && old(put) <= put && got == put
      ensures delivered == if callback then put[|old(got)|..] else []
    {
      delivered := [];
      var ok, index := GetDescriptor();
      while ok
        invariant Valid() && old(put) <= put && old(got) <= got
        invariant ok <==> Queue(State()) != []
        invariant ok ==> index == consume && slots[index] == Queue(State())[0]
        invariant delivered == if callback then got[|old(got)|..] else []
        decreases |wire| + |put| - |got|
      {
        if callback {
          delivered := delivered + [slots[index]];
        }
        Tail(old(got), got, slots[index]);
        DoneProcess();
        ok, index := GetDescriptor();
      }
    }
  }

  lemma Tail<F>(start: seq<F>, s: seq<F>, f: F)
    requires start <= s
    ensures start <= s + [f] && (s + [f])[|start|..] == s[|start|..] + [f]
  {
  }

  /** One frame received into a ring with room. */
  lemma Arrival<F>(r: Ring<F>, f: F)
    requires Inv(r)
    ensures Wrap(r.produce + 1, r.n) != r.consume <==> Free(r) > 0
    ensures Free(r) > 0 ==> Inv(Fill(r, 0, f)) && Inv(Hand(Fill(r, 0, f), 1))
    ensures Free(r) > 0 ==> Hand(Fill(r, 0, f), 1).put == r.put + [f]
  {
    if Free(r) > 0 {
      FillRefines(r, 0, f);
      HandRefines(Fill(r, 0, f), 1);
      assert Staged(Fill(r, 0, f))[..1] == [f];
    }
  }

  /** The driver's emptiness test, and where the oldest frame is. */
  lemma Oldest<F>(r: Ring<F>)
    requires Inv(r)
    ensures r.consume == r.produce <==> Queue(r) == []
    ensures Queue(r) != [] ==> r.slots[r.consume] == Queue(r)[0]
  {
    if Pending(r) > 0 {
      assert Turn(r)[..Pending(r)][0] == r.slots[r.consume];
    }
  }

  // ---------------------------------------------------------------- descriptor words

  const LAST_FRAGMENT: bv32 := 1 << 30
  const INTERRUPT: bv32 := 1 << 31
  const OVERRIDE: bv32 := 1 << 26
  const PAD: bv32 := 1 << 28
  const CRC: bv32 := 1 << 29

  /** rflpc_eth_get_packet_size: sizes are stored minus one. */
  function PacketSize(status: bv32): bv32 {
    (status & 0x7FF) + 1
  }

  /** rflpc_eth_set_tx_control_word. */
  function TxControlWord(size: bv32, trigger: bv32, last: bv32): bv32 {
    ((size - 1) & 0x7FF) | ((last & 1) << 30) | ((trigger & 1) << 31) | OVERRIDE | PAD | CRC
  }

  /** The word the hardware reads says the size asked for, for every size the field can hold, and the
      flags asked for. */
  lemma ControlWordReadsBack(size: bv32, trigger: bv32, last: bv32)
    requires 1 <= size <= 0x800
    ensures var w := TxControlWord(size, trigger, last);
      && PacketSize(w) == size
      && (w & LAST_FRAGMENT != 0 <==> last & 1 == 1)
      && (w & INTERRUPT != 0 <==> trigger & 1 == 1)
      && w & OVERRIDE != 0 && w & PAD != 0 && w & CRC != 0
  {
  }

  /** The control word the ethernet sample writes by hand for a frame of `size` bytes. */
  function SampleControlWord(size: bv32): bv32 {
    size | (1 << 18) | CRC | LAST_FRAGMENT
  }

  /** It stores the size itself where the size minus one belongs, and bit 18 where bit 28 asks for
      padding: the hardware sends one byte more than the frame and is not told to pad. */
  lemma SampleSendsOneByteMore(size: bv32)
    requires size < 0x7FF
    ensures PacketSize(SampleControlWord(size)) == size + 1
    ensures SampleControlWord(size) & PAD == 0 && SampleControlWord(size) & OVERRIDE == 0
  {
  }

  // ---------------------------------------------------------------- proofs

  /** The slot that must stay empty. */
  function EmptySlot<F>(r: Ring<F>): nat
    requires Shaped(r)
  {
    Wrap(r.produce + Free(r), r.n)
  }

  /** It is the one before the consume index. */
  lemma OneRead<F>(r: Ring<F>, slot: nat)
    requires Shaped(r) && slot < r.n
    ensures slot == EmptySlot(r) <==> slot == r.consume - 1 || (slot == r.n - 1 && r.consume == 0)
  {
  }

  /** What the two reads of the consume index amount to, for any slot: together they answer for the
      later one. */
  lemma TwoReads<F>(r: Ring<F>, k: nat, more: nat, slot: nat)
    requires Inv(r) && k + more <= Pending(r) && slot < r.n
    ensures Inv(Taken(r, k)) && Inv(Taken(r, k + more)) && Taken(Taken(r, k), more) == Taken(r, k + more)
    ensures Pending(Taken(r, k)) == Pending(r) - k
    ensures var c1, c2 := Taken(r, k).consume, Taken(r, k + more).consume;
      if slot == c1 - 1 then slot == EmptySlot(Taken(r, k))
      else if slot == r.n - 1 && c2 == 0 then slot == EmptySlot(Taken(r, k + more))
      else slot == r.n - 1 || more == 0 ==> slot != EmptySlot(Taken(r, k + more))
  {
    TakenLater(r, k, more);
    ReadsApart(Taken(r, k), Taken(r, k + more), more, slot);
  }

  lemma TakenLater<F>(r: Ring<F>, k: nat, more: nat)
    requires Inv(r) && k + more <= Pending(r)
    ensures Inv(Taken(r, k)) && Inv(Taken(r, k + more)) && Taken(Taken(r, k), more) == Taken(r, k + more)
    ensures Pending(Taken(r, k)) == Pending(r) - k
  {
    TakenRefines(r, k);
    TakenRefines(r, k + more);
    TakenTwice(r, k, more);
  }

  lemma ReadsApart<F>(a: Ring<F>, b: Ring<F>, more: nat, slot: nat)
    requires Shaped(a) && Shaped(b) && slot < a.n == b.n && (more == 0 ==> a == b)
    ensures if slot == a.consume - 1 then slot == EmptySlot(a)
      else if slot == a.n - 1 && b.consume == 0 then slot == EmptySlot(b)
      else slot == a.n - 1 || more == 0 ==> slot != EmptySlot(b)
  {
    OneRead(a, slot);
    OneRead(b, slot);
  }

  lemma EmptySlotIs<F>(r: Ring<F>, inc: nat)
    requires Inv(r)
    ensures (r.produce + inc) % r.n == EmptySlot(r) <==> inc % r.n == Free(r)
  {
    OneRead(r, (r.produce + inc) % r.n);
    ScanMustBeInOrder(r, inc);
  }

  lemma SmallMod(i: nat, n: nat)
    requires i < n
    ensures i % n == i
  {
  }

  lemma HandOver<F>(r: Ring<F>, count: nat)
    requires Inv(r) && count <= Free(r)
    ensures Inv(Hand(r, count)) && Hand(r, count).produce == (r.produce + count) % r.n
  {
    WrapIsMod(r.produce + count, r.n);
    HandRefines(r, count);
  }

  /** Frames going out leave the staging area as it is. */
  lemma StagedKept<F>(r: Ring<F>, k: nat, frames: seq<F>)
    requires Inv(r) && k <= Pending(r) && frames <= Staged(r)
    ensures Inv(Taken(r, k)) && frames <= Staged(Taken(r, k))
    ensures Free(r) <= Free(Taken(r, k)) && r.got <= Taken(r, k).got
  {
    TakenRefines(r, k);
  }

  lemma StagedNext<F>(r: Ring<F>, i: nat, frames: seq<F>)
    requires Inv(r) && i < |frames| && i < Free(r) && frames[..i] <= Staged(r)
    ensures Inv(Fill(r, i, frames[i])) && frames[..i + 1] <= Staged(Fill(r, i, frames[i]))
  {
    FillRefines(r, i, frames[i]);
  }
}
