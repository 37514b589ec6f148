/** A descriptor ring shared by software and the Ethernet DMA engine, as a value. One side owns the
    produce index, the other the consume index; a slot is always kept empty. The same ring serves
    both directions: for transmission software produces, for reception the hardware does. */
module Rings {

  /** `put` and `got` are the frames that ever entered and left the ring. */
  datatype Ring<F> = Ring(n: nat, produce: nat, consume: nat, slots: seq<F>, put: seq<F>, got: seq<F>)

  function Wrap(i: nat, n: nat): (r: nat)
    requires i < 2 * n
    ensures r < n
  {
    if i < n then i else i - n
  }

  /** The modulo of the C code, within one turn of the ring. */
  lemma WrapIsMod(i: nat, n: nat)
    requires i < 2 * n
    ensures i % n == Wrap(i, n)
  {
    if i >= n {
      assert i == n + (i - n);
    }
  }

  function Pending<F>(r: Ring<F>): int {
    |r.put| - |r.got|
  }

  function Free<F>(r: Ring<F>): int {
    r.n - 1 - Pending(r)
  }

  /** Indices in range, and the produce index `Pending` slots after the consume index. */
  predicate Shaped<F>(r: Ring<F>) {
    && 1 <= r.n == |r.slots|
    && r.produce < r.n && r.consume < r.n
    && 0 <= Pending(r) <= r.n - 1
    && r.produce == Wrap(r.consume + Pending(r), r.n)
  }

  /** One turn of the ring, read from the consume index. */
  function Turn<F>(r: Ring<F>): (t: seq<F>)
    requires Shaped(r)
    ensures |t| == r.n
  {
    r.slots[r.consume..] + r.slots[..r.consume]
  }

  /** What the ring promises at every instant: what left it is a prefix of what entered it, and the
      rest is in the slots from the consume index on, in order. */
  ghost predicate Inv<F>(r: Ring<F>) {
    Shaped(r) && r.got <= r.put && Turn(r)[..Pending(r)] == r.put[|r.got|..]
  }

  // ---------------------------------------------------------------- the queue it stands for

  /** Frames handed over and not yet taken, oldest first. */
  function Queue<F>(r: Ring<F>): seq<F>
    requires 0 <= Pending(r)
  {
    r.put[|r.got|..]
  }

  /** Contents of the slots the producer may still fill, in the order it will hand them over. */
  function Staged<F>(r: Ring<F>): (s: seq<F>)
    requires Shaped(r)
    ensures |s| == Free(r)
  {
    Turn(r)[Pending(r)..r.n - 1]
  }

  /** A slot belongs to the consumer while its frame is queued. */
  ghost predicate Owned<F>(r: Ring<F>, slot: nat)
    requires Shaped(r)
  {
    exists j :: 0 <= j < Pending(r) && SlotAt(r, j) == slot
  }

  /** Index of the j-th slot from the consume index. */
  function SlotAt<F>(r: Ring<F>, j: nat): (slot: nat)
    requires Shaped(r) && j < r.n
    ensures slot < r.n
  {
    Wrap(r.consume + j, r.n)
  }

  lemma FreeSlot<F>(r: Ring<F>, k: nat)
    requires Shaped(r) && k < r.n - Pending(r)
    ensures Wrap(r.produce + k, r.n) == SlotAt(r, Pending(r) + k)
    ensures !Owned(r, Wrap(r.produce + k, r.n))
  {
  }

  // ---------------------------------------------------------------- steps

  /** The producer writes the k-th free slot. */
  function Fill<F>(r: Ring<F>, k: nat, f: F): Ring<F>
    requires Shaped(r) && k < Free(r)
  {
    r.(slots := r.slots[Wrap(r.produce + k, r.n) := f])
  }

  /** The producer hands the first `count` free slots over. */
  function Hand<F>(r: Ring<F>, count: nat): Ring<F>
    requires Shaped(r) && count <= Free(r)
  {
    r.(produce := Wrap(r.produce + count, r.n), put := r.put + Staged(r)[..count])
  }

  /** The consumer takes the oldest frame. */
  function Take<F>(r: Ring<F>): Ring<F>
    requires Shaped(r) && Pending(r) > 0
  {
    r.(consume := Wrap(r.consume + 1, r.n), got := r.got + [r.slots[r.consume]])
  }

  lemma FillRefines<F>(r: Ring<F>, k: nat, f: F)
    requires Inv(r) && k < Free(r)
    ensures Inv(Fill(r, k, f))
    ensures Queue(Fill(r, k, f)) == Queue(r)
    ensures Staged(Fill(r, k, f)) == Staged(r)[k := f]
  {
    FreeSlot(r, k);
    assert Turn(Fill(r, k, f)) == Turn(r)[Pending(r) + k := f];
  }

  lemma HandRefines<F>(r: Ring<F>, count: nat)
    requires Inv(r) && count <= Free(r)
    ensures Inv(Hand(r, count))
    ensures Queue(Hand(r, count)) == Queue(r) + Staged(r)[..count]
    ensures Staged(Hand(r, count)) == Staged(r)[count..]
  {
    var s := Hand(r, count);
    assert Turn(s) == Turn(r);
    assert Turn(r)[..Pending(s)] == Turn(r)[..Pending(r)] + Staged(r)[..count];
  }

  lemma TakeRefines<F>(r: Ring<F>)
    requires Inv(r) && Pending(r) > 0
    ensures Inv(Take(r))
    ensures Take(r).got == r.got + [Queue(r)[0]]
    ensures Queue(Take(r)) == Queue(r)[1..]
    ensures Staged(r) <= Staged(Take(r))
  {
    var s := Take(r);
    assert Turn(s) == Turn(r)[1..] + Turn(r)[..1];
    assert Turn(r)[0] == r.slots[r.consume] == Queue(r)[0];
    assert Turn(s)[..Pending(s)] == Turn(r)[..Pending(r)][1..];
  }

  /** The ring as the base-address functions leave it: both indices equal. It is a legal empty ring
      exactly when the index the other side kept is below the new count. */
  lemma EmptyRing<F>(n: nat, index: nat, slots: seq<F>, history: seq<F>)
    requires |slots| == n
    ensures Inv(Ring(n, index, index, slots, history, history)) <==> index < n
  {
  }

  // ---------------------------------------------------------------- the consumer running on its own

  /** k frames taken in a row. */
  function Taken<F>(r: Ring<F>, k: nat): Ring<F>
    requires Shaped(r) && k <= Pending(r)
  {
    r.(consume := Wrap(r.consume + k, r.n), got := r.got + Queue(r)[..k])
  }

  lemma Rotation<F>(slots: seq<F>, c: nat, k: nat)
    requires c < |slots| && k <= |slots|
    ensures var t, d := slots[c..] + slots[..c], if c + k < |slots| then c + k else c + k - |slots|;
      slots[d..] + slots[..d] == t[k..] + t[..k]
  {
    var t := slots[c..] + slots[..c];
    if c + k < |slots| {
      assert t[k..] == slots[c + k..] + slots[..c];
      assert t[..k] == slots[c..c + k];
    } else {
      var d := c + k - |slots|;
      assert t[k..] == slots[d..c];
      assert t[..k] == slots[c..] + slots[..d];
    }
  }

  lemma TakenTurn<F>(r: Ring<F>, k: nat)
    requires Inv(r) && k <= Pending(r)
    ensures Shaped(Taken(r, k)) && Pending(Taken(r, k)) == Pending(r) - k
    ensures Turn(Taken(r, k)) == Turn(r)[k..] + Turn(r)[..k]
    ensures Taken(r, k).got <= r.put
  {
    Rotation(r.slots, r.consume, k);
  }

  lemma TakenRefines<F>(r: Ring<F>, k: nat)
    requires Inv(r) && k <= Pending(r)
    ensures Inv(Taken(r, k))
    ensures Pending(Taken(r, k)) == Pending(r) - k
    ensures Queue(Taken(r, k)) == Queue(r)[k..]
    ensures Staged(r) <= Staged(Taken(r, k))
  {
    TakenTurn(r, k);
    RotatedParts(Turn(r), k, Pending(r));
    assert Queue(Taken(r, k)) == Queue(r)[k..];
  }

  lemma RotatedParts<F>(t: seq<F>, k: nat, p: nat)
    requires k <= p < |t|
    ensures var u := t[k..] + t[..k];
      u[..p - k] == t[..p][k..] && t[p..|t| - 1] <= u[p - k..|t| - 1]
  {
    var u := t[k..] + t[..k];
    var s, v := u[p - k..|t| - 1], t[p..|t| - 1];
    assert u[..p - k] == t[k..p] == t[..p][k..];
    assert forall i :: 0 <= i < |v| ==> v[i] == t[p + i] == u[p - k + i] == s[i];
  }

  /** Taken really is repeated taking. */
  lemma TakenIsTaking<F>(r: Ring<F>, k: nat)
    requires Inv(r) && k < Pending(r)
    ensures Taken(r, 0) == r
    ensures Inv(Taken(r, k)) && Taken(r, k + 1) == Take(Taken(r, k))
  {
    TakenRefines(r, k);
    TakeRefines(Taken(r, k));
    assert Queue(r)[..k + 1] == Queue(r)[..k] + [Queue(r)[k]];
  }

  lemma TakenTwice<F>(r: Ring<F>, a: nat, b: nat)
    requires Inv(r) && a + b <= Pending(r)
    ensures Inv(Taken(r, a)) && Taken(Taken(r, a), b) == Taken(r, a + b)
  {
    TakenRefines(r, a);
    var q := Queue(r);
    assert q[..a + b] == q[..a] + q[a..][..b];
  }

  // ---------------------------------------------------------------- whole runs

  datatype Event<F> = Write(k: nat, f: F) | Submit(count: nat) | Consume

  /** The producer respects the free count; the consumer takes only what is there. */
  ghost predicate Allowed<F>(r: Ring<F>, e: Event<F>) {
    match e
    case Write(k, _) => k < Free(r)
    case Submit(count) => count <= Free(r)
    case Consume => Pending(r) > 0
  }

  function Apply<F>(r: Ring<F>, e: Event<F>): Ring<F>
    requires Inv(r) && Allowed(r, e)
  {
    match e
    case Write(k, f) => Fill(r, k, f)
    case Submit(count) => Hand(r, count)
    case Consume => Take(r)
  }

  lemma ApplyKeeps<F>(r: Ring<F>, e: Event<F>)
    requires Inv(r) && Allowed(r, e)
    ensures Inv(Apply(r, e))
    ensures Apply(r, e).n == r.n && r.put <= Apply(r, e).put && r.got <= Apply(r, e).got
  {
    match e
    case Write(k, f) => FillRefines(r, k, f);
    case Submit(count) => HandRefines(r, count);
    case Consume => TakeRefines(r);
  }

  /** A run: every event allowed when it comes. */
  ghost predicate IsRun<F>(r: Ring<F>, events: seq<Event<F>>)
    requires Inv(r)
    decreases |events|
  {
    |events| == 0 || (Allowed(r, events[0]) && Inv(Apply(r, events[0])) && IsRun(Apply(r, events[0]), events[1..]))
  }

  ghost function After<F>(r: Ring<F>, events: seq<Event<F>>): Ring<F>
    requires Inv(r) && IsRun(r, events)
    decreases |events|
  {
    if |events| == 0 then r else After(Apply(r, events[0]), events[1..])
  }

  /** A bounded queue with a staging area in front of it: what both sides may rely on. */
  datatype Fifo<F> = Fifo(capacity: nat, staged: seq<F>, queue: seq<F>, out: seq<F>)

  function View<F>(r: Ring<F>): Fifo<F>
    requires Inv(r)
  {
    Fifo(r.n - 1, Staged(r), Queue(r), r.got)
  }

  /** One step of the queue. A consumed frame frees a staging place whose contents are unspecified. */
  ghost predicate FifoStep<F>(a: Fifo<F>, e: Event<F>, b: Fifo<F>) {
    b.capacity == a.capacity && |b.staged| + |b.queue| == b.capacity &&
    match e
    case Write(k, f) => k < |a.staged| && b == a.(staged := a.staged[k := f])
    case Submit(count) =>
      count <= |a.staged| && b == a.(staged := a.staged[count..], queue := a.queue + a.staged[..count])
    case Consume =>
      |a.queue| > 0 && b.queue == a.queue[1..] && b.out == a.out + [a.queue[0]] && a.staged <= b.staged
  }

  /** Each ring step is a step of the queue, and is allowed exactly when the queue allows it. */
  lemma RingRefinesFifo<F>(r: Ring<F>, e: Event<F>)
    requires Inv(r)
    ensures Allowed(r, e) ==> Inv(Apply(r, e)) && FifoStep(View(r), e, View(Apply(r, e)))
    ensures !Allowed(r, e) ==> !exists b :: FifoStep(View(r), e, b)
  {
    if Allowed(r, e) {
      match e
      case Write(k, f) => FillRefines(r, k, f);
      case Submit(count) => HandRefines(r, count);
      case Consume => TakeRefines(r);
    }
  }

  /** Over every run: indices stay in range, at most n - 1 frames are queued, and what came out
      is what went in, in order, each frame once, none invented. */
  lemma {:induction false} RunIsFifo<F>(r: Ring<F>, events: seq<Event<F>>)
    requires Inv(r) && IsRun(r, events)
    ensures var s := After(r, events);
      && Inv(s) && s.n == r.n && |Queue(s)| <= s.n - 1
      && r.put <= s.put && r.got <= s.got
      && s.got + Queue(s) == s.put
    decreases |events|
  {
    if |events| > 0 {
      ApplyKeeps(r, events[0]);
      RunIsFifo(Apply(r, events[0]), events[1..]);
    }
  }

  /** What went in is what the producer had staged at each submission. */
  lemma {:induction false} RunSubmits<F>(r: Ring<F>, events: seq<Event<F>>)
    requires Inv(r) && IsRun(r, events)
    ensures After(r, events).put == r.put + Submitted(r, events)
    decreases |events|
  {
    if |events| > 0 {
      RunSubmits(Apply(r, events[0]), events[1..]);
    }
  }

  /** The frames a run hands over, read off the staging area at each submission. */
  ghost function Submitted<F>(r: Ring<F>, events: seq<Event<F>>): seq<F>
    requires Inv(r) && IsRun(r, events)
    decreases |events|
  {
    if |events| == 0 then []
    else
      var now := match events[0] { case Submit(count) => Staged(r)[..count] case _ => [] };
      now + Submitted(Apply(r, events[0]), events[1..])
  }

  /** From a ring the base-address functions set up: what has come out is a prefix of the frames handed
      over, and those still waiting are the rest. */
  lemma FromEmpty<F>(n: nat, index: nat, slots: seq<F>, events: seq<Event<F>>)
    requires index < n == |slots|
    requires Inv(Ring(n, index, index, slots, [], [])) && IsRun(Ring(n, index, index, slots, [], []), events)
    ensures var r := Ring(n, index, index, slots, [], []);
      var s := After(r, events);
      && Inv(s) && |Queue(s)| <= n - 1
      && s.got + Queue(s) == Submitted(r, events)
  {
    var r := Ring(n, index, index, slots, [], []);
    RunIsFifo(r, events);
    RunSubmits(r, events);
  }
}
