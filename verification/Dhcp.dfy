/** The DHCP sample: the option list (section 2 of RFC 2132), and the message with its four addresses
    in network order. */
module Dhcp {
  import opened Bytes
  import opened Headers
  import opened Memory

  const OPTION_END: byte := 0xFF
  const DHCP_HLEN := 300
  const MESSAGE_TYPE: byte := 53
  const REQUESTED_IP: byte := 50
  const SERVER_IDENTIFIER: byte := 54
  const DHCPREQUEST: byte := 3
  /** The scanner looks at options up to this many bytes past the first. */
  const LAST := 60

  // ---------------------------------------------------------------- byte order

  /** ntohl on the little-endian processor. */
  function Ntohl(w: u32): u32 {
    FromBe32(Le32(w))
  }

  /** Converting twice gives the address back, and a converted address stored by the processor is in
      network order. */
  lemma NtohlTwice(w: u32)
    ensures Ntohl(Ntohl(w)) == w && Le32(Ntohl(w)) == Be32(w)
  {
    Be32RoundTrip(w, Le32(w));
    Le32RoundTrip(w, Be32(w));
    Reversed(w);
    Reversed(Ntohl(w));
    Le32RoundTrip(Ntohl(w), Be32(w));
  }

  lemma Reversed(w: u32)
    ensures Be32(w) == [Le32(w)[3], Le32(w)[2], Le32(w)[1], Le32(w)[0]]
  {
  }

  // ---------------------------------------------------------------- option lists

  datatype Item = Item(code: byte, value: seq<byte>)

  /** What the builder can write: no end marker as a code, a length that fits its byte. A code of 0 has a
      length here like any other; for the pad of the standard see DhcpPads. */
  type Option = i: Item | i.code != OPTION_END && |i.value| <= 0xFF witness Item(0, [])

  function EncodeOne(o: Option): seq<byte> {
    [o.code, |o.value|] + o.value
  }

  function Encode(options: seq<Option>): seq<byte> {
    if |options| == 0 then [] else EncodeOne(options[0]) + Encode(options[1..])
  }

  datatype Maybe<T> = None | Some(value: T)

  /** The first option with the code. */
  function First(options: seq<Option>, code: byte): Maybe<seq<byte>> {
    if |options| == 0 then None
    else if options[0].code == code then Some(options[0].value)
    else First(options[1..], code)
  }

  /** The scanner's walk from `current` stays inside the buffer, its copy of at most `max` bytes
      included. */
  predicate Walkable(b: seq<byte>, current: nat, last: nat, code: byte, max: nat)
    decreases last + 1 - current
  {
    current <= last ==>
      current < |b| && (b[current] != OPTION_END ==>
        current + 1 < |b| &&
        if b[current] == code then current + 2 + Least(b[current + 1], max) <= |b|
        else Walkable(b, current + b[current + 1] + 2, last, code, max))
  }

  function Least(a: nat, b: nat): nat {
    if a > b then b else a
  }

  /** What the scanner makes of the bytes of an option: the first maxSize of them. */
  function Truncated(s: seq<byte>, max: nat): seq<byte> {
    s[..Least(|s|, max)]
  }

  /** Any bytes whatever are walkable with the farthest option inside the buffer. */
  lemma {:induction false} WalkableWithRoom(b: seq<byte>, current: nat, last: nat, code: byte, max: nat)
    requires last + 2 + max <= |b|
    ensures Walkable(b, current, last, code, max)
    decreases last + 1 - current
  {
    if current <= last && b[current] != OPTION_END && b[current] != code {
      WalkableWithRoom(b, current + b[current + 1] + 2, last, code, max);
    }
  }

  /** All contents of a field of n bytes are walkable exactly when the option farthest from its start
      fits behind the last place the scanner looks at. The 60 bytes of the message do not do: a packet
      can lead the scanner past them. */
  lemma FieldWalkable(n: nat, options: nat, code: byte, max: byte)
    requires code != OPTION_END
    ensures (forall b: seq<byte> :: |b| == n ==> Walkable(b, options, options + LAST, code, max))
      <==> n >= options + LAST + 2 + max
  {
    var last := options + LAST;
    if n >= last + 2 + max {
      forall b: seq<byte> | |b| == n
        ensures Walkable(b, options, last, code, max)
      {
        WalkableWithRoom(b, options, last, code, max);
      }
    } else {
      var b := FarWalk(n, options, code, max);
      if n > options + 1 {
        assert !Walkable(b, last, last, code, max);
        assert !Walkable(b, options, last, code, max);
      }
    }
  }

  /** An option that leads to the last place at once, and one with the code there. */
  function FarWalk(n: nat, options: nat, code: byte, max: byte): (b: seq<byte>)
    ensures |b| == n
    ensures options + 1 < n ==> b[options] == (if code == 0 then 1 else 0) && b[options + 1] == LAST - 2
    ensures options + LAST < n ==> b[options + LAST] == code
    ensures options + LAST + 1 < n ==> b[options + LAST + 1] == max
  {
    seq(n, i => if i == options then (if code == 0 then 1 else 0)
                else if i == options + 1 then LAST - 2
                else if i == options + LAST then code
                else max)
  }

  /** Where the scanner stops: at an option with the code, or at nothing. */
  function Scan(b: seq<byte>, current: nat, last: nat, code: byte, max: nat): (at: Maybe<nat>)
    requires Walkable(b, current, last, code, max)
    ensures at.Some? ==>
      && current <= at.value <= last && at.value + 1 < |b| && b[at.value] == code != OPTION_END
      && at.value + 2 + Least(b[at.value + 1], max) <= |b|
    decreases last + 1 - current
  {
    if current > last || b[current] == OPTION_END then None
    else if b[current] == code then Some(current)
    else Scan(b, current + b[current + 1] + 2, last, code, max)
  }

  /** The bytes the scanner hands out for the option it stopped at. */
  function ValueAt(b: seq<byte>, at: nat, max: nat): seq<byte>
    requires at + 1 < |b| && at + 2 + Least(b[at + 1], max) <= |b|
  {
    b[at + 2..at + 2 + Least(b[at + 1], max)]
  }

  /** The options stand one behind the other from `current` on, with the end marker behind them. */
  predicate Holds(b: seq<byte>, current: nat, options: seq<Option>)
    decreases |options|
  {
    if |options| == 0 then current < |b| && b[current] == OPTION_END
    else
      var v := options[0].value;
      && current + 2 + |v| < |b| && b[current] == options[0].code && b[current + 1] == |v|
      && b[current + 2..current + 2 + |v|] == v
      && Holds(b, current + 2 + |v|, options[1..])
  }

  /** That is so wherever the encoding of the list has been written. */
  lemma {:induction false} EncodingHolds(b: seq<byte>, current: nat, options: seq<Option>)
    requires current + |Encode(options)| < |b|
    requires b[current..current + |Encode(options)|] == Encode(options)
    requires b[current + |Encode(options)|] == OPTION_END
    ensures Holds(b, current, options)
    decreases |options|
  {
    if |options| > 0 {
      var v := options[0].value;
      var next := current + 2 + |v|;
      EncodingParts(b, current, options[0], Encode(options[1..]));
      EncodingHolds(b, next, options[1..]);
    }
  }

  lemma EncodingParts(b: seq<byte>, current: nat, o: Option, rest: seq<byte>)
    requires current + |EncodeOne(o) + rest| <= |b|
    requires b[current..current + |EncodeOne(o) + rest|] == EncodeOne(o) + rest
    ensures var next := current + 2 + |o.value|;
      && b[current] == o.code && b[current + 1] == |o.value| && b[current + 2..next] == o.value
      && b[next..next + |rest|] == rest
  {
    var s := b[current..current + |EncodeOne(o) + rest|];
    var n := 2 + |o.value|;
    assert s[0] == o.code && s[1] == |o.value| && s[2..n] == o.value && s[n..] == rest;
    SliceOfSlice(b, current, |s|, 2, n);
    SliceOfSlice(b, current, |s|, n, |s|);
  }

  lemma ValueAtOption(b: seq<byte>, at: nat, v: seq<byte>, max: nat)
    requires at + 2 + |v| <= |b| && b[at + 1] == |v| && b[at + 2..at + 2 + |v|] == v
    ensures ValueAt(b, at, max) == Truncated(v, max)
  {
    assert b[at + 2..at + 2 + |v|][..Least(|v|, max)] == b[at + 2..at + 2 + Least(|v|, max)];
  }

  /** On any list, ended by the marker within the scanner's reach, the scanner stays inside the list;
      it finds the first option with the code, and nothing exactly when there is none. */
  lemma {:induction false} ScanFindsFirst(b: seq<byte>, current: nat, last: nat, code: byte, max: nat,
                                          options: seq<Option>)
    requires Holds(b, current, options) && current + |Encode(options)| <= last
    ensures Walkable(b, current, last, code, max)
    ensures match Scan(b, current, last, code, max)
      case None => First(options, code) == None
      case Some(at) =>
        First(options, code) != None && ValueAt(b, at, max) == Truncated(First(options, code).value, max)
        && b[at + 1] == |First(options, code).value|
    decreases |options|
  {
    if |options| > 0 {
      var v := options[0].value;
      var next := current + 2 + |v|;
      assert |Encode(options)| == 2 + |v| + |Encode(options[1..])|;
      if options[0].code == code {
        ValueAtOption(b, current, v, max);
        assert Scan(b, current, last, code, max) == Some(current);
      } else {
        ScanFindsFirst(b, next, last, code, max, options[1..]);
        assert Scan(b, current, last, code, max) == Scan(b, next, last, code, max);
      }
    }
  }

  lemma {:induction false} EncodeAppend(options: seq<Option>, o: Option)
    ensures Encode(options + [o]) == Encode(options) + EncodeOne(o)
    decreases |options|
  {
    if |options| == 0 {
      assert Encode([o]) == EncodeOne(o) + Encode([]);
    } else {
      assert (options + [o])[1..] == options[1..] + [o];
      EncodeAppend(options[1..], o);
    }
  }

  /** The builder's bytes under the scanner: for every list whose encoding ends within the scanner's
      reach, wherever it is written, every lookup gives the first option with the code. */
  lemma BuilderThenScanner(m: seq<byte>, start: nat, options: seq<Option>, code: byte, max: nat)
    requires start + |Encode(options)| < |m| && |Encode(options)| <= LAST
    ensures var b := Splice(m, start, Encode(options) + [OPTION_END]);
      && Walkable(b, start, start + LAST, code, max)
      && var at := Scan(b, start, start + LAST, code, max);
      && (at == None <==> First(options, code) == None)
      && (at != None ==> ValueAt(b, at.value, max) == Truncated(First(options, code).value, max))
  {
    var e := Encode(options);
    WrittenHolds(m, start, options);
    ScanFindsFirst(Splice(m, start, e + [OPTION_END]), start, start + LAST, code, max, options);
  }

  lemma WrittenHolds(m: seq<byte>, start: nat, options: seq<Option>)
    requires start + |Encode(options)| < |m|
    ensures Holds(Splice(m, start, Encode(options) + [OPTION_END]), start, options)
  {
    var e := Encode(options);
    var b := Splice(m, start, e + [OPTION_END]);
    SpliceKeeps(m, start, e + [OPTION_END], 0, 0);
    var s := b[start..start + |e + [OPTION_END]|];
    assert s[..|e|] == e && s[|e|] == OPTION_END;
    SliceOfSlice(b, start, |s|, 0, |e|);
    EncodingHolds(b, start, options);
  }

  // ---------------------------------------------------------------- builder, in memory

  /** Bytes memcpy moves when it is asked for len. */
  function Moved(dest: nat, src: nat, len: byte): (n: nat)
    ensures n == len || n == len + 32
  {
    if MemcpyExact(dest, src, len) then len else len + 32
  }

  /** memcpy of a value; onto itself it makes no difference how many bytes are moved. */
  method CopyValue(mem: array<byte>, dest: nat, src: nat, len: byte)
    requires dest + MemcpyLength(dest, src, len) <= mem.Length && src + MemcpyLength(dest, src, len) <= mem.Length
    modifies mem
    ensures MemcpyLength(dest, src, len) >= Moved(dest, src, len)
    ensures mem[..] == ByteCopy(old(mem[..]), dest, src, Moved(dest, src, len))
  {
    ghost var m := mem[..];
    MemcpyLengthIs(dest, src, len);
    var _ := Memcpy(mem, dest, src, len);
    if dest == src {
      ByteCopyOntoItself(m, dest, len);
      ByteCopyOntoItself(m, dest, MemcpyLength(dest, src, len));
    }
  }

  /** dhcp_create_option_array: code, length, and what memcpy moves. */
  method CreateOptionArray(mem: array<byte>, op: nat, code: byte, len: byte, val: nat) returns (next: nat)
    requires op + 2 + MemcpyLength(op + 2, val, len) <= mem.Length
    requires val + MemcpyLength(op + 2, val, len) <= mem.Length
    modifies mem
    ensures next == op + 2 + len && Moved(op + 2, val, len) <= MemcpyLength(op + 2, val, len)
    ensures mem[..] == ByteCopy(old(mem[..])[op := code][op + 1 := len], op + 2, val, Moved(op + 2, val, len))
  {
    mem[op] := code;
    mem[op + 1] := len;
    assert mem[..] == old(mem[..])[op := code][op + 1 := len];
    CopyValue(mem, op + 2, val, len);
    return op + len + 2;
  }

  /** What that amounts to when the value lies clear of the option: the option, and behind it the bytes
      that lie behind the value. */
  lemma OptionWritten(m: seq<byte>, op: nat, code: byte, len: byte, val: nat)
    requires var n := Moved(op + 2, val, len);
      op + 2 + n <= |m| && val + n <= |m| && (val + n <= op || op + 2 + n <= val)
    ensures var n := Moved(op + 2, val, len);
      ByteCopy(m[op := code][op + 1 := len], op + 2, val, n) == Splice(m, op, [code, len] + m[val..val + n])
  {
    TwoStores(m, op, code, len);
    CopyBehind(m, op, [code, len], val, Moved(op + 2, val, len));
  }

  lemma TwoStores(m: seq<byte>, op: nat, a: byte, b: byte)
    requires op + 2 <= |m|
    ensures m[op := a][op + 1 := b] == Splice(m, op, [a, b])
  {
  }

  lemma CopyBehind(m: seq<byte>, at: nat, head: seq<byte>, src: nat, n: nat)
    requires at + |head| + n <= |m| && src + n <= |m| && (src + n <= at || at + |head| + n <= src)
    ensures ByteCopy(Splice(m, at, head), at + |head|, src, n) == Splice(m, at, head + m[src..src + n])
  {
    CopyApart(Splice(m, at, head), src, at + |head|, n);
    SpliceKeeps(m, at, head, src, src + n);
    SpliceTwice(m, at, head, m[src..src + n]);
  }

  /** The builder leaves the option and nothing else. */
  ghost predicate WritesJustOption(m: seq<byte>, op: nat, code: byte, len: byte, val: nat)
    requires op + 34 + len <= |m| && val + len + 32 <= |m|
  {
    ByteCopy(m[op := code][op + 1 := len], op + 2, val, Moved(op + 2, val, len))
      == Splice(m, op, [code, len] + m[val..val + len])
  }

  /** That holds whatever is in the memory exactly when the caller's check holds. One to three bytes
      between word-aligned places spill. */
  lemma OptionExact(op: nat, code: byte, len: byte, val: nat)
    requires val + len + 32 <= op || op + 34 + len <= val
    ensures (forall m: seq<byte> | op + 34 + len <= |m| && val + len + 32 <= |m| :: WritesJustOption(m, op, code, len, val))
      <==> MemcpyExact(op + 2, val, len)
  {
    if MemcpyExact(op + 2, val, len) {
      forall m: seq<byte> | op + 34 + len <= |m| && val + len + 32 <= |m|
        ensures WritesJustOption(m, op, code, len, val)
      {
        OptionWritten(m, op, code, len, val);
      }
    } else {
      OptionSpills(op, code, len, val);
    }
  }

  /** A memory of zeros with a one behind the value: the one turns up behind the option. */
  lemma OptionSpills(op: nat, code: byte, len: byte, val: nat)
    requires val + len + 32 <= op || op + 34 + len <= val
    requires Moved(op + 2, val, len) == len + 32
    ensures !WritesJustOption(Probe(op + val + len + 34, 0, val + len, 1), op, code, len, val)
  {
    var m := Probe(op + val + len + 34, 0, val + len, 1);
    var s, t := [code, len] + m[val..val + (len + 32)], [code, len] + m[val..val + len];
    OptionWritten(m, op, code, len, val);
    SpliceAt(m, op, s, op + 2 + len);
    SpliceAt(m, op, t, op + 2 + len);
    assert s[2 + len] == m[val + len] == 1;
  }

  /** dhcp_create_option_simple. The word stands at `slot`, where the processor keeps the parameter; more
      than four bytes take in what lies behind it. */
  method CreateOptionSimple(mem: array<byte>, op: nat, code: byte, len: byte, val: u32, slot: nat) returns (next: nat)
    requires op + 34 + len <= mem.Length && slot + 32 + len <= mem.Length && slot + 4 <= mem.Length
    requires slot + 32 + len <= op || op + 34 + len <= slot
    modifies mem
    ensures next == op + 2 + len
    ensures var d := Splice(old(mem[..]), slot, Le32(val));
      mem[..] == Splice(d, op, [code, len] + d[slot..slot + Moved(op + 2, slot, len)])
    ensures MemcpyExact(op + 2, slot, len) && len <= 4 ==>
      mem[..] == Splice(Splice(old(mem[..]), slot, Le32(val)), op, [code, len] + Le32(val)[..len])
  {
    StoreWord(mem, slot, val);
    ghost var d := mem[..];
    MemcpyLengthIs(op + 2, slot, len);
    next := CreateOptionArray(mem, op, code, len, slot);
    OptionWritten(d, op, code, len, slot);
    if MemcpyExact(op + 2, slot, len) && len <= 4 {
      SlotBytes(old(mem[..]), slot, val, len);
      assert d[slot..slot + Moved(op + 2, slot, len)] == Le32(val)[..len];
    }
  }

  lemma SlotBytes(m: seq<byte>, slot: nat, val: u32, len: byte)
    requires slot + 4 <= |m| && len <= 4
    ensures Splice(m, slot, Le32(val))[slot..slot + len] == Le32(val)[..len]
  {
    var d := Splice(m, slot, Le32(val));
    SpliceKeeps(m, slot, Le32(val), 0, 0);
    SliceOfSlice(d, slot, 4, 0, len);
    assert Le32(val)[0..len] == Le32(val)[..len];
  }

  /** A word stored by the processor. */
  method StoreWord(mem: array<byte>, at: nat, w: u32)
    requires at + 4 <= mem.Length
    modifies mem
    ensures mem[..] == Splice(old(mem[..]), at, Le32(w))
  {
    mem[at], mem[at + 1] := w % 0x100, w / 0x100 % 0x100;
    mem[at + 2], mem[at + 3] := w / 0x1_0000 % 0x100, w / 0x100_0000;
  }

  /** The options built so far from `start` on, with the last word still in its slot. */
  ghost predicate Built(m: seq<byte>, m': seq<byte>, slot: nat, word: seq<byte>, start: nat, options: seq<Option>, op: nat)
  {
    && op == start + |Encode(options)| <= |m| && |word| == 4 && slot + 4 <= |m|
    && (slot + 4 <= start || op <= slot)
    && m' == Splice(Splice(m, slot, word), start, Encode(options))
  }

  lemma BuiltMore(m: seq<byte>, m1: seq<byte>, m2: seq<byte>, slot: nat, word: seq<byte>, next: seq<byte>, start: nat,
                  options: seq<Option>, op: nat, o: Option)
    requires Built(m, m1, slot, word, start, options, op) && op + 2 + |o.value| <= |m| && |next| == 4
    requires slot + 4 <= start || op + 2 + |o.value| <= slot
    requires m2 == Splice(Splice(m1, slot, next), op, EncodeOne(o))
    ensures Built(m, m2, slot, next, start, options + [o], op + 2 + |o.value|)
  {
    EncodeAppend(options, o);
    Restack(m, slot, word, next, start, Encode(options), EncodeOne(o));
  }

  lemma Restack(m: seq<byte>, slot: nat, word: seq<byte>, next: seq<byte>, start: nat, e: seq<byte>, f: seq<byte>)
    requires |word| == |next| && slot + |word| <= |m| && start + |e| + |f| <= |m|
    requires slot + |word| <= start || start + |e| + |f| <= slot
    ensures Splice(Splice(Splice(Splice(m, slot, word), start, e), slot, next), start + |e|, f)
      == Splice(Splice(m, slot, next), start, e + f)
  {
    SpliceSwap(Splice(m, slot, word), start, e, slot, next);
    SpliceAgain(m, slot, word, next);
    SpliceTwice(Splice(m, slot, next), start, e, f);
  }

  lemma SpliceSwap(m: seq<byte>, a: nat, p: seq<byte>, b: nat, q: seq<byte>)
    requires a + |p| <= |m| && b + |q| <= |m| && (a + |p| <= b || b + |q| <= a)
    ensures Splice(Splice(m, a, p), b, q) == Splice(Splice(m, b, q), a, p)
  {
    var x, y := Splice(Splice(m, a, p), b, q), Splice(Splice(m, b, q), a, p);
    assert forall i :: 0 <= i < |m| ==> x[i] == y[i];
  }

  lemma SpliceAgain(m: seq<byte>, a: nat, p: seq<byte>, q: seq<byte>)
    requires a + |p| <= |m| && |p| == |q|
    ensures Splice(Splice(m, a, p), a, q) == Splice(m, a, q)
  {
  }

  lemma BuiltNothing(m: seq<byte>, slot: nat, start: nat)
    requires slot + 4 <= |m| && start <= |m| && (slot + 4 <= start || start <= slot)
    ensures Built(m, m, slot, m[slot..slot + 4], start, [], start)
  {
    assert Splice(m, slot, m[slot..slot + 4]) == m && Splice(m, start, Encode([])) == m;
  }

  /** An option of one word or less, on top of those already built. */
  method AddOption(mem: array<byte>, op: nat, code: byte, len: byte, val: u32, slot: nat, ghost m: seq<byte>,
                   ghost word: seq<byte>, ghost start: nat, ghost options: seq<Option>)
    returns (next: nat)
    requires len <= 4 && code != OPTION_END && op + 38 <= mem.Length == |m| && slot + 36 <= mem.Length
    requires slot + 36 <= start || op + 38 <= slot
    requires MemcpyExact(op + 2, slot, len) && Built(m, mem[..], slot, word, start, options, op)
    modifies mem
    ensures Built(m, mem[..], slot, Le32(val), start, options + [Item(code, Le32(val)[..len])], next)
    ensures next == op + 2 + len
  {
    ghost var m1 := mem[..];
    next := CreateOptionSimple(mem, op, code, len, val, slot);
    ghost var o: Option := Item(code, Le32(val)[..len]);
    BuiltMore(m, m1, mem[..], slot, word, Le32(val), start, options, op, o);
  }

  /** The options of dhcp_send_request, both addresses in network order. */
  predicate IsRequest(l: seq<Option>, requestedIp: u32, serverIp: u32) {
    |l| == 3 && l[0] == Item(MESSAGE_TYPE, [DHCPREQUEST])
    && l[1] == Item(REQUESTED_IP, Be32(requestedIp)) && l[2] == Item(SERVER_IDENTIFIER, Be32(serverIp))
  }

  lemma RequestLookup(l: seq<Option>, requestedIp: u32, serverIp: u32)
    requires IsRequest(l, requestedIp, serverIp)
    ensures |Encode(l)| == 15
    ensures First(l, REQUESTED_IP) == Some(Be32(requestedIp))
    ensures First(l, SERVER_IDENTIFIER) == Some(Be32(serverIp))
  {
    var l1 := l[1..];
    var l2 := l1[1..];
    assert l1[0] == l[1] && l2[0] == l[2] && l2[1..] == [];
    assert |EncodeOne(l[1])| == |EncodeOne(l[2])| == 6;
    assert Encode(l1) == EncodeOne(l[1]) + Encode(l2);
    assert |Encode(l2)| == 6;
    assert First(l, REQUESTED_IP) == First(l1, REQUESTED_IP);
    assert First(l, SERVER_IDENTIFIER) == First(l1, SERVER_IDENTIFIER) == First(l2, SERVER_IDENTIFIER);
  }

  /** What the three calls are given, as option values. */
  lemma RequestValues(l: seq<Option>, requestedIp: u32, serverIp: u32)
    requires IsRequest(l, requestedIp, serverIp)
    ensures [] + [Item(MESSAGE_TYPE, Le32(DHCPREQUEST as int)[..1])] == l[..1]
    ensures l[..1] + [Item(REQUESTED_IP, Le32(Ntohl(requestedIp))[..4])] == l[..2]
    ensures l[..2] + [Item(SERVER_IDENTIFIER, Le32(Ntohl(serverIp))[..4])] == l
  {
    NetworkBytes(requestedIp);
    NetworkBytes(serverIp);
    LowByte(DHCPREQUEST);
    assert [] + [l[0]] == l[..1] && l[..1] + [l[1]] == l[..2] && l[..2] + [l[2]] == l;
  }

  lemma NetworkBytes(w: u32)
    ensures Le32(Ntohl(w))[..4] == Be32(w)
  {
    NtohlTwice(w);
  }

  lemma LowByte(b: byte)
    ensures Le32(b as int)[..1] == [b]
  {
  }

  /** The options of dhcp_send_request, both addresses in network order, with their end marker. They
      start 240 bytes into a word-aligned struct, so that the one-byte value is not word-aligned and no
      copy spills: only the option bytes and the parameter's slot change. */
  method BuildRequest(mem: array<byte>, start: nat, requestedIp: u32, serverIp: u32, slot: nat, ghost l: seq<Option>)
    requires start % 4 == 0 && slot % 4 == 0 && start + 64 <= mem.Length && slot + 36 <= mem.Length
    requires slot + 36 <= start || start + 64 <= slot
    requires IsRequest(l, requestedIp, serverIp)
    modifies mem
    ensures |Encode(l)| == 15
    ensures mem[..] == Splice(Splice(old(mem[..]), slot, Be32(serverIp)), start, Encode(l) + [OPTION_END])
  {
    ghost var m := mem[..];
    var op := BuildOptions(mem, start, requestedIp, serverIp, slot, l);
    NtohlTwice(serverIp);
    SpliceTwice(Splice(m, slot, Be32(serverIp)), start, Encode(l), [OPTION_END]);
    StoreByte(mem, op, OPTION_END);
  }

  method BuildOptions(mem: array<byte>, start: nat, requestedIp: u32, serverIp: u32, slot: nat, ghost l: seq<Option>)
    returns (op: nat)
    requires start % 4 == 0 && slot % 4 == 0 && start + 64 <= mem.Length && slot + 36 <= mem.Length
    requires slot + 36 <= start || start + 64 <= slot
    requires IsRequest(l, requestedIp, serverIp)
    modifies mem
    ensures |Encode(l)| == 15 && op == start + 15
    ensures Built(old(mem[..]), mem[..], slot, Le32(Ntohl(serverIp)), start, l, op)
  {
    ghost var m := mem[..];
    RequestValues(l, requestedIp, serverIp);
    RequestLookup(l, requestedIp, serverIp);
    BuiltNothing(m, slot, start);
    op := AddOption(mem, start, MESSAGE_TYPE, 1, DHCPREQUEST as int, slot, m, m[slot..slot + 4], start, []);
    op := AddOption(mem, op, REQUESTED_IP, 4, Ntohl(requestedIp), slot, m, Le32(DHCPREQUEST as int), start, l[..1]);
    op := AddOption(mem, op, SERVER_IDENTIFIER, 4, Ntohl(serverIp), slot, m, Le32(Ntohl(requestedIp)), start, l[..2]);
  }

  method StoreByte(mem: array<byte>, at: nat, b: byte)
    requires at < mem.Length
    modifies mem
    ensures mem[..] == Splice(old(mem[..]), at, [b])
  {
    mem[at] := b;
  }

  // ---------------------------------------------------------------- scanner, in memory

  /** Where the scanner stops in a memory that goes on behind the option field. */
  function Found(m: seq<byte>, options: nat, code: byte, max: nat): (at: Maybe<nat>)
    requires options + LAST + 2 + max <= |m|
    ensures at.Some? ==> options <= at.value <= options + LAST && m[at.value] == code != OPTION_END
  {
    WalkableWithRoom(m, options, options + LAST, code, max);
    Scan(m, options, options + LAST, code, max)
  }

  /** The memory after a lookup: what memcpy leaves of the first maxSize bytes of the value found. */
  function Delivered(m: seq<byte>, options: nat, code: byte, target: nat, maxSize: byte): (r: seq<byte>)
    requires options + LAST + 34 + maxSize <= |m| && target + maxSize + 32 <= |m|
    ensures |r| == |m|
  {
    match Found(m, options, code, maxSize)
    case None => m
    case Some(at) => ByteCopy(m, target, at + 2, Moved(target, at + 2, Least(m[at + 1], maxSize)))
  }

  /** dhcp_get_option_array. It ends on any bytes whatever, and copies what memcpy copies for the first
      maxSize bytes of the value. */
  method GetOptionArray(mem: array<byte>, options: nat, code: byte, target: nat, maxSize: byte) returns (ret: byte)
    requires options + LAST + 34 + maxSize <= mem.Length && target + maxSize + 32 <= mem.Length
    modifies mem
    ensures ret == (if Found(old(mem[..]), options, code, maxSize) == None then OPTION_END else code)
    ensures mem[..] == Delivered(old(mem[..]), options, code, target, maxSize)
  {
    ghost var m, found := mem[..], Found(mem[..], options, code, maxSize);
    var current := options;
    WalkableWithRoom(m, options, options + LAST, code, maxSize);
    while current <= options + LAST && mem[current] != OPTION_END
      invariant mem[..] == m && Walkable(m, current, options + LAST, code, maxSize)
      invariant Scan(m, current, options + LAST, code, maxSize) == found
      decreases options + LAST + 1 - current
    {
      var length := mem[current + 1];
      assert m[current] == mem[current] && m[current + 1] == length;
      if mem[current] == code {
        CopyFound(mem, current, code, target, maxSize, length);
        return code;
      }
      current := current + length + 2;
    }
    assert found == None;
    assert Delivered(m, options, code, target, maxSize) == m;
    return OPTION_END;
  }

  /** The option the scanner has stopped at. */
  method CopyFound(mem: array<byte>, at: nat, code: byte, target: nat, maxSize: byte, length: byte)
    requires at + 34 + maxSize <= mem.Length && target + maxSize + 32 <= mem.Length
    requires mem[at] == code && mem[at + 1] == length
    modifies mem
    ensures mem[..] == ByteCopy(old(mem[..]), target, at + 2, Moved(target, at + 2, Least(old(mem[at + 1]), maxSize)))
  {
    var len := if length > maxSize then maxSize else length;
    MemcpyLengthIs(target, at + 2, len);
    CopyValue(mem, target, at + 2, len);
  }

  /** What is found in an encoded list is the first match, and nothing exactly when there is none. */
  lemma FoundIs(m: seq<byte>, options: nat, code: byte, max: nat, l: seq<Option>)
    requires options + LAST + 2 + max <= |m| && Holds(m, options, l) && |Encode(l)| <= LAST
    ensures Found(m, options, code, max) == None <==> First(l, code) == None
    ensures Found(m, options, code, max) != None ==>
      var at, v := Found(m, options, code, max).value, First(l, code).value;
      m[at + 1] == |v| && ValueAt(m, at, max) == Truncated(v, max)
  {
    ScanFindsFirst(m, options, options + LAST, code, max, l);
  }

  /** A lookup into a target clear of the options: the first maxSize bytes of the value found, and nothing
      else changes unless the copy spills. Then the 32 bytes behind the target become those behind the
      value. */
  lemma DeliveredIs(m: seq<byte>, options: nat, code: byte, target: nat, max: byte, at: nat)
    requires options + LAST + 34 + max <= |m| && target + max + 32 <= |m|
    requires target + max + 32 <= options || options + LAST + 34 + max <= target
    requires Found(m, options, code, max) == Some(at)
    ensures Delivered(m, options, code, target, max)
      == Splice(m, target, WithSpill(m, target, at + 2, Least(m[at + 1], max)))
  {
    var len: byte, after := Least(m[at + 1], max), Delivered(m, options, code, target, max);
    assert after == ByteCopy(m, target, at + 2, Moved(target, at + 2, len));
    DeliveredAt(m, at + 2, target, len);
  }

  /** The bytes a copy of len bytes from src leaves. */
  function WithSpill(m: seq<byte>, target: nat, src: nat, len: byte): (s: seq<byte>)
    requires src + len + 32 <= |m|
    ensures |s| == Moved(target, src, len) && m[src..src + len] <= s
  {
    m[src..src + Moved(target, src, len)]
  }

  lemma DeliveredAt(m: seq<byte>, src: nat, target: nat, len: byte)
    requires src + len + 32 <= |m| && target + len + 32 <= |m|
    requires target + len + 32 <= src || src + len + 32 <= target
    ensures ByteCopy(m, target, src, Moved(target, src, len)) == Splice(m, target, WithSpill(m, target, src, len))
  {
    CopyApart(m, src, target, Moved(target, src, len));
  }

  /** The word a value of at most four bytes reads as: missing high bytes are zero. */
  function WordOf(s: seq<byte>): u32
    requires |s| <= 4
  {
    FromLe32(s + seq(4 - |s|, _ => 0))
  }

  /** A value of one to three bytes that stands word-aligned: its copy into a word spills. */
  predicate Spills(m: seq<byte>, at: nat)
    requires at + 1 < |m|
  {
    0 < m[at + 1] < 4 && (at + 2) % 4 == 0
  }

  /** What dhcp_get_option_simple reads from the option at `at`: four bytes of memory if the copy
      spills, else the value with high zeros. */
  function WordRead(m: seq<byte>, at: nat): u32
    requires at + 6 <= |m|
  {
    if Spills(m, at) then FromLe32(m[at + 2..at + 6]) else WordOf(ValueAt(m, at, 4))
  }

  /** The bytes the copy leaves at `val`, and behind it. */
  function BytesRead(m: seq<byte>, at: nat): (s: seq<byte>)
    requires at + 38 <= |m|
    ensures |s| >= 4
  {
    Padded(m, at + 2, if Spills(m, at) then m[at + 1] + 32 else Least(m[at + 1], 4))
  }

  /** n bytes of memory, with zeros up to a word. */
  function Padded(m: seq<byte>, src: nat, n: nat): (s: seq<byte>)
    requires src + n <= |m|
    ensures |s| == if n >= 4 then n else 4
  {
    if n >= 4 then m[src..src + n] else m[src..src + n] + seq(4 - n, _ => 0)
  }

  /** dhcp_get_option_simple, with its local word at `val`, clear of the options: the word read, and all
      the memory it leaves changed. */
  method GetOptionSimple(mem: array<byte>, options: nat, code: byte, val: nat) returns (ret: u32)
    requires options + LAST + 38 <= mem.Length && val + 36 <= mem.Length && val % 4 == 0
    requires val + 36 <= options || options + LAST + 38 <= val
    modifies mem
    ensures ret == SimpleResult(old(mem[..]), options, code)
    ensures mem[..] == Splice(old(mem[..]), val, SimpleBytes(old(mem[..]), options, code))
  {
    ghost var m := mem[..];
    StoreWord(mem, val, 0);
    ghost var d := mem[..];
    FoundZeroed(m, d, options, code, val);
    var found := GetOptionArray(mem, options, code, val, 4);
    SimpleOutcome(m, d, mem[..], options, code, val);
    if found == OPTION_END {
      return OPTION_END as int;
    }
    return LoadWord(mem[..], val);
  }

  /** What the call returns: 255 if there is no such option. */
  function SimpleResult(m: seq<byte>, options: nat, code: byte): u32
    requires options + LAST + 38 <= |m|
  {
    match Found(m, options, code, 4)
    case None => OPTION_END as int
    case Some(at) => WordRead(m, at)
  }

  /** What it leaves at its local word. */
  function SimpleBytes(m: seq<byte>, options: nat, code: byte): (s: seq<byte>)
    requires options + LAST + 38 <= |m|
    ensures 4 <= |s| <= 36
  {
    match Found(m, options, code, 4)
    case None => [0, 0, 0, 0]
    case Some(at) => BytesRead(m, at)
  }

  lemma SimpleOutcome(m: seq<byte>, d: seq<byte>, e: seq<byte>, options: nat, code: byte, val: nat)
    requires options + LAST + 38 <= |m| && val + 36 <= |m| && val % 4 == 0
    requires val + 36 <= options || options + LAST + 38 <= val
    requires d == Splice(m, val, [0, 0, 0, 0]) && Found(d, options, code, 4) == Found(m, options, code, 4)
    requires e == Delivered(d, options, code, val, 4)
    ensures e == Splice(m, val, SimpleBytes(m, options, code))
    ensures Found(m, options, code, 4) != None ==> LoadWord(e, val) == SimpleResult(m, options, code)
  {
    var at := Found(m, options, code, 4);
    if at != None {
      CopiedWord(m, d, e, at.value, val);
    }
  }

  /** A word read by the processor. */
  function LoadWord(m: seq<byte>, at: nat): u32
    requires at + 4 <= |m|
  {
    FromLe32(m[at..at + 4])
  }

  lemma FoundZeroed(m: seq<byte>, d: seq<byte>, options: nat, code: byte, val: nat)
    requires options + LAST + 38 <= |m| && val + 36 <= |m| && (val + 36 <= options || options + LAST + 38 <= val)
    requires d == Splice(m, val, Le32(0))
    ensures d == Splice(m, val, [0, 0, 0, 0])
    ensures Found(m, options, code, 4) == Found(d, options, code, 4)
  {
    assert Le32(0) == [0, 0, 0, 0];
    FoundSame(m, d, options, code, 4);
  }

  /** The scanner looks at no more than the options and their lengths. */
  lemma FoundSame(m: seq<byte>, d: seq<byte>, options: nat, code: byte, max: nat)
    requires |m| == |d| && options + LAST + 2 + max <= |m|
    requires forall i :: options <= i < options + LAST + 2 ==> m[i] == d[i]
    ensures Found(m, options, code, max) == Found(d, options, code, max)
  {
    WalkableWithRoom(m, options, options + LAST, code, max);
    WalkableWithRoom(d, options, options + LAST, code, max);
    ScanSame(m, d, options, options + LAST, code, max);
  }

  lemma {:induction false} ScanSame(m: seq<byte>, d: seq<byte>, current: nat, last: nat, code: byte, max: nat)
    requires |m| == |d| && Walkable(m, current, last, code, max) && Walkable(d, current, last, code, max)
    requires last + 2 <= |m| && forall i :: current <= i < last + 2 ==> m[i] == d[i]
    ensures Scan(m, current, last, code, max) == Scan(d, current, last, code, max)
    decreases last + 1 - current
  {
    if current <= last && m[current] != OPTION_END && m[current] != code {
      ScanSame(m, d, current + m[current + 1] + 2, last, code, max);
    }
  }

  /** The copy into the zeroed word, byte for byte. */
  lemma CopiedWord(m: seq<byte>, d: seq<byte>, e: seq<byte>, at: nat, val: nat)
    requires at + 38 <= |m| && val + 36 <= |m| && val % 4 == 0 && (val + 36 <= at || at + 38 <= val)
    requires d == Splice(m, val, [0, 0, 0, 0])
    requires var len := Least(d[at + 1], 4); e == ByteCopy(d, val, at + 2, Moved(val, at + 2, len))
    ensures e == Splice(m, val, BytesRead(m, at)) && LoadWord(e, val) == WordRead(m, at)
  {
    SpliceAt(m, val, [0, 0, 0, 0], at + 1);
    CopiedBytes(m, d, e, at, val, Least(m[at + 1], 4));
    FirstWord(m, val, BytesRead(m, at));
    BytesAreWord(m, at);
  }

  lemma CopiedBytes(m: seq<byte>, d: seq<byte>, e: seq<byte>, at: nat, val: nat, len: byte)
    requires at + 38 <= |m| && val + 36 <= |m| && val % 4 == 0 && (val + 36 <= at || at + 38 <= val)
    requires d == Splice(m, val, [0, 0, 0, 0]) && len == Least(m[at + 1], 4)
    requires e == ByteCopy(d, val, at + 2, Moved(val, at + 2, len))
    ensures e == Splice(m, val, BytesRead(m, at))
  {
    MovedIs(m, at, val);
    CopyInto(m, d, at + 2, val, len, Moved(val, at + 2, len));
  }

  lemma MovedIs(m: seq<byte>, at: nat, val: nat)
    requires at + 1 < |m| && val % 4 == 0 && val != at + 2
    ensures var len := Least(m[at + 1], 4); Moved(val, at + 2, len) == if Spills(m, at) then len + 32 else len
  {
  }

  lemma BytesAreWord(m: seq<byte>, at: nat)
    requires at + 38 <= |m|
    ensures FromLe32(BytesRead(m, at)[..4]) == WordRead(m, at)
  {
    var s := BytesRead(m, at);
    if Spills(m, at) {
      assert s[..4] == m[at + 2..at + 6];
    } else {
      assert s[..4] == s;
    }
  }

  lemma CopyInto(m: seq<byte>, d: seq<byte>, src: nat, val: nat, len: nat, n: nat)
    requires len <= 4 && (n == len || n >= 4) && src + n <= |m| && val + n <= |m| && val + 4 <= |m|
    requires (val + n <= src && val + 4 <= src) || src + n <= val
    requires d == Splice(m, val, [0, 0, 0, 0])
    ensures ByteCopy(d, val, src, n) == Splice(m, val, Padded(m, src, n))
  {
    ByteCopyDisjoint(d, val, src, n);
    var e := ByteCopy(d, val, src, n);
    var s := Padded(m, src, n);
    forall i | 0 <= i < |m|
      ensures e[i] == Splice(m, val, s)[i]
    {
      CopiedByte(m, d, e[i], src, val, n, i);
    }
  }

  lemma CopiedByte(m: seq<byte>, d: seq<byte>, b: byte, src: nat, val: nat, n: nat, i: nat)
    requires src + n <= |m| && val + n <= |m| && val + 4 <= |m| && i < |m|
    requires (val + n <= src && val + 4 <= src) || src + n <= val
    requires d == Splice(m, val, [0, 0, 0, 0]) && b == if val <= i < val + n then d[i - val + src] else d[i]
    ensures b == Splice(m, val, Padded(m, src, n))[i]
  {
    SpliceAt(m, val, Padded(m, src, n), i);
    SpliceAt(m, val, [0, 0, 0, 0], i);
    if val <= i < val + n {
      SpliceAt(m, val, [0, 0, 0, 0], i - val + src);
      assert Padded(m, src, n)[i - val] == m[src..src + n][i - val];
    }
  }

  lemma FirstWord(m: seq<byte>, val: nat, s: seq<byte>)
    requires val + |s| <= |m| && |s| >= 4
    ensures Splice(m, val, s)[val..val + 4] == s[..4]
  {
    SpliceKeeps(m, val, s, 0, 0);
    SliceOfSlice(Splice(m, val, s), val, |s|, 0, 4);
    assert s[0..4] == s[..4];
  }

  /** A check on the option found: nothing that spills into the word, or zeros only. */
  ghost predicate ReadsTrue(m: seq<byte>, at: nat, len: nat)
    requires at + 6 <= |m|
  {
    len == 0 || len >= 4 || (at + 2) % 4 != 0 || forall i :: at + 2 + len <= i < at + 6 ==> m[i] == 0
  }

  /** The word read is the value with high zeros exactly when the value is empty or has at least four
      bytes, or is not word-aligned, or the bytes behind it that spill into the word are zero. */
  lemma WordReadIsValue(m: seq<byte>, at: nat)
    requires at + 6 <= |m|
    ensures WordRead(m, at) == WordOf(ValueAt(m, at, 4)) <==> ReadsTrue(m, at, m[at + 1])
  {
    if Spills(m, at) {
      var v := m[at + 2..at + 2 + m[at + 1]];
      var p, q := v + seq(4 - |v|, _ => 0), m[at + 2..at + 6];
      SameWord(p, q);
      assert forall i :: 0 <= i < |v| ==> p[i] == q[i];
      assert p == q <==> forall i :: |v| <= i < 4 ==> q[i] == 0;
      assert forall i :: |v| <= i < 4 ==> q[i] == m[at + 2 + i];
    }
  }

  lemma SameWord(p: seq<byte>, q: seq<byte>)
    requires |p| == |q| == 4
    ensures FromLe32(p) == FromLe32(q) <==> p == q
  {
    Le32RoundTrip(0, p);
    Le32RoundTrip(0, q);
  }

  /** The same against the list the options were built from: the first match reads as its first four
      bytes with high zeros, exactly under that condition, and nothing is found exactly when there is
      none. */
  lemma BuiltWord(m: seq<byte>, options: nat, code: byte, l: seq<Option>)
    requires options + LAST + 38 <= |m| && Holds(m, options, l) && |Encode(l)| <= LAST
    ensures match Found(m, options, code, 4)
      case None => First(l, code) == None
      case Some(at) =>
        First(l, code) != None &&
        var v := First(l, code).value;
        && m[at + 1] == |v|
        && (WordRead(m, at) == WordOf(Truncated(v, 4)) <==> ReadsTrue(m, at, |v|))
  {
    FoundIs(m, options, code, 4, l);
    var at := Found(m, options, code, 4);
    if at.Some? {
      WordReadIsValue(m, at.value);
    }
  }

  /** Options from a word-aligned place on, a four-byte one first: the one-byte value of the second, the
      message type 5, stands word-aligned. What is read is not 5, and 29 bytes behind the local word are
      overwritten. */
  lemma ShortValueMisread(m: seq<byte>)
    requires |m| == 200 && m[4] == SERVER_IDENTIFIER && m[5] == 4 && m[6..10] == [10, 0, 0, 1]
    requires m[10] == MESSAGE_TYPE && m[11] == 1 && m[12] == 5
    requires m[13] == 51 && m[14] == 4 && m[15] == 0 && m[15..19] == [0, 0, 9, 9] && m[19] == OPTION_END
    ensures Holds(m, 4, [Item(SERVER_IDENTIFIER, [10, 0, 0, 1]), Item(MESSAGE_TYPE, [5]), Item(51, [0, 0, 9, 9])])
    ensures Found(m, 4, MESSAGE_TYPE, 4) == Some(10)
    ensures WordRead(m, 10) == 0x0004_3305 != WordOf([5]) && |BytesRead(m, 10)| == 33
  {
    var first, second, third := Item(SERVER_IDENTIFIER, [10, 0, 0, 1]), Item(MESSAGE_TYPE, [5]), Item(51, [0, 0, 9, 9]);
    HoldsMore(m, 13, third, []);
    HoldsMore(m, 10, second, [third]);
    HoldsMore(m, 4, first, [second] + [third]);
    assert [second] + [third] == [second, third] && [first] + [second, third] == [first, second, third];
    SecondFound(m, 4, 10);
    MisreadWord(m, 10);
  }

  lemma SecondFound(m: seq<byte>, options: nat, second: nat)
    requires options + LAST + 6 <= |m| && second == options + 6 && m[options] == SERVER_IDENTIFIER
    requires m[options + 1] == 4 && m[second] == MESSAGE_TYPE
    ensures Found(m, options, MESSAGE_TYPE, 4) == Some(second)
  {
    WalkableWithRoom(m, options, options + LAST, MESSAGE_TYPE, 4);
    assert Scan(m, second, options + LAST, MESSAGE_TYPE, 4) == Some(second);
  }

  lemma HoldsMore(m: seq<byte>, at: nat, o: Option, l: seq<Option>)
    requires at + 2 + |o.value| < |m| && m[at] == o.code && m[at + 1] == |o.value|
    requires m[at + 2..at + 2 + |o.value|] == o.value && Holds(m, at + 2 + |o.value|, l)
    ensures Holds(m, at, [o] + l)
  {
    assert ([o] + l)[1..] == l;
  }

  lemma MisreadWord(m: seq<byte>, at: nat)
    requires at + 38 <= |m| && (at + 2) % 4 == 0
    requires m[at + 1] == 1 && m[at + 2] == 5 && m[at + 3] == 51 && m[at + 4] == 4 && m[at + 5] == 0
    ensures WordRead(m, at) == 0x0004_3305 && |BytesRead(m, at)| == 33 && WordOf([5]) == 5
  {
    assert m[at + 2..at + 6] == [5, 51, 4, 0];
    assert [5 as byte] + seq(3, _ => 0) == [5, 0, 0, 0];
  }

  /** A word read as 255 cannot be told from an absent option. Of values read with high zeros these are
      exactly the ones that read so. */
  lemma AbsentLooksLike255(value: seq<byte>)
    ensures WordOf(Truncated(value, 4)) == OPTION_END as int <==>
      |value| > 0 && value[0] == 0xFF && forall i :: 1 <= i < Least(|value|, 4) ==> value[i] == 0
  {
    var t := Truncated(value, 4);
    var p := t + seq(4 - |t|, _ => 0);
    assert |p| == 4;
    assert FromLe32(p) == 255 <==> p[0] == 255 && p[1] == 0 && p[2] == 0 && p[3] == 0;
  }

  /** A four-byte address built through ntohl comes back through ntohl. */
  lemma AddressReadsBack(w: u32)
    ensures Ntohl(WordOf(Truncated(Be32(w), 4))) == w
  {
    NtohlTwice(w);
    Le32RoundTrip(Ntohl(w), Be32(w));
    assert Truncated(Be32(w), 4) + seq(0, _ => 0) == Be32(w);
  }

  /** One lookup of an address option in a built list. */
  method GetAddress(mem: array<byte>, options: nat, code: byte, val: nat, addr: u32, ghost l: seq<Option>)
    returns (ret: u32)
    requires options + LAST + 38 <= mem.Length && val + 36 <= mem.Length && val % 4 == 0
    requires val + 36 <= options || options + LAST + 38 <= val
    requires Holds(mem[..], options, l) && |Encode(l)| <= LAST && First(l, code) == Some(Be32(addr))
    modifies mem
    ensures ret == addr && mem[..] == Splice(old(mem[..]), val, Be32(addr))
  {
    AddressFound(mem[..], options, code, addr, l);
    var w := GetOptionSimple(mem, options, code, val);
    return Ntohl(w);
  }

  lemma AddressFound(m: seq<byte>, options: nat, code: byte, addr: u32, l: seq<Option>)
    requires options + LAST + 38 <= |m| && Holds(m, options, l) && |Encode(l)| <= LAST
    requires First(l, code) == Some(Be32(addr))
    ensures var at := Found(m, options, code, 4);
      at != None && Ntohl(WordRead(m, at.value)) == addr && BytesRead(m, at.value) == Be32(addr)
  {
    FoundIs(m, options, code, 4, l);
    var at := Found(m, options, code, 4).value;
    AddressReadsBack(addr);
    assert m[at + 1] == 4 && ValueAt(m, at, 4) == Truncated(Be32(addr), 4);
    assert Truncated(Be32(addr), 4) == Be32(addr);
    assert BytesRead(m, at) == Be32(addr) + seq(0, _ => 0);
  }

  /** A server that is sent the request reads back the two addresses it was built from. */
  method RequestRoundTrip(mem: array<byte>, start: nat, requestedIp: u32, serverIp: u32, slot: nat, val: nat)
    returns (requested: u32, server: u32)
    requires start % 4 == slot % 4 == val % 4 == 0
    requires start + LAST + 38 <= mem.Length && slot + 36 <= mem.Length && val + 36 <= mem.Length
    requires slot + 36 <= start || start + 64 <= slot
    requires val + 36 <= start || start + LAST + 38 <= val
    modifies mem
    ensures requested == requestedIp && server == serverIp
  {
    ghost var m := mem[..];
    ghost var l: seq<Option> :=
      [Item(MESSAGE_TYPE, [DHCPREQUEST]), Item(REQUESTED_IP, Be32(requestedIp)), Item(SERVER_IDENTIFIER, Be32(serverIp))];
    BuildRequest(mem, start, requestedIp, serverIp, slot, l);
    RequestLookup(l, requestedIp, serverIp);
    WrittenHolds(Splice(m, slot, Be32(serverIp)), start, l);
    ghost var d := mem[..];
    requested := GetAddress(mem, start, REQUESTED_IP, val, requestedIp, l);
    HoldsSame(d, mem[..], start, l);
    server := GetAddress(mem, start, SERVER_IDENTIFIER, val, serverIp, l);
  }

  lemma {:induction false} HoldsSame(m: seq<byte>, d: seq<byte>, at: nat, l: seq<Option>)
    requires |m| == |d| && Holds(m, at, l)
    requires forall i :: at <= i <= at + |Encode(l)| && i < |m| ==> d[i] == m[i]
    ensures Holds(d, at, l)
    decreases |l|
  {
    if |l| > 0 {
      var v := l[0].value;
      assert |Encode(l)| == 2 + |v| + |Encode(l[1..])|;
      assert d[at + 2..at + 2 + |v|] == m[at + 2..at + 2 + |v|];
      HoldsSame(m, d, at + 2 + |v|, l[1..]);
    }
  }
}
