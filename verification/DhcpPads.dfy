/** Option fields with pads. In section 3.1 of RFC 2132 a pad is one zero byte and has no length; the
    scanner of the sample takes the byte behind it for one. */
module DhcpPads {
  import opened Bytes
  import opened Dhcp

  datatype Entry = Pad | Field(code: byte, value: seq<byte>)

  /** What the standard allows: no pad or end marker as a code, a length that fits its byte. */
  predicate Proper(entries: seq<Entry>) {
    forall i :: 0 <= i < |entries| && entries[i].Field? ==>
      entries[i].code != 0 && entries[i].code != OPTION_END && |entries[i].value| <= 0xFF
  }

  function SizeOf(entries: seq<Entry>): nat {
    if |entries| == 0 then 0
    else (if entries[0].Pad? then 1 else 2 + |entries[0].value|) + SizeOf(entries[1..])
  }

  /** The entries stand one behind the other from `at` on, with the end marker behind them. */
  predicate LiesAt(b: seq<byte>, at: nat, entries: seq<Entry>)
    decreases |entries|
  {
    if |entries| == 0 then at < |b| && b[at] == OPTION_END
    else if entries[0].Pad? then at < |b| && b[at] == 0 && LiesAt(b, at + 1, entries[1..])
    else
      var v := entries[0].value;
      && at + 2 + |v| < |b| && b[at] == entries[0].code && b[at + 1] == |v| && b[at + 2..at + 2 + |v|] == v
      && LiesAt(b, at + 2 + |v|, entries[1..])
  }

  /** Where the first field with the code is, as the standard reads the list. */
  function AddressOf(entries: seq<Entry>, at: nat, code: byte): Maybe<nat>
    decreases |entries|
  {
    if |entries| == 0 then None
    else if entries[0].Pad? then AddressOf(entries[1..], at + 1, code)
    else if entries[0].code == code then Some(at)
    else AddressOf(entries[1..], at + 2 + |entries[0].value|, code)
  }

  /** Every field has an even number of pads directly before it. */
  predicate Paired(entries: seq<Entry>)
    decreases |entries|
  {
    if |entries| == 0 then true
    else if entries[0].Field? then Paired(entries[1..])
    else |entries| == 1 || (entries[1].Pad? && Paired(entries[2..]))
  }

  predicate Distinct(entries: seq<Entry>) {
    forall i, j :: 0 <= i < j < |entries| && entries[i].Field? && entries[j].Field? ==>
      entries[i].code != entries[j].code
  }

  /** Two pads read as an empty option, and pads at the end lead to the marker or out of reach: with an
      even number of them before each field the scanner finds what the standard says. */
  lemma {:induction false} PairedScan(b: seq<byte>, at: nat, last: nat, code: byte, max: nat, entries: seq<Entry>)
    requires LiesAt(b, at, entries) && Proper(entries) && Paired(entries) && code != 0 && code != OPTION_END
    requires at + SizeOf(entries) <= last <= at + LAST && Walkable(b, at, last, code, max)
    ensures Scan(b, at, last, code, max) == AddressOf(entries, at, code)
    decreases |entries|
  {
    if |entries| == 0 {
    } else if entries[0].Field? {
      if entries[0].code != code {
        PairedScan(b, at + 2 + |entries[0].value|, last, code, max, entries[1..]);
      }
    } else if |entries| > 1 {
      TwoPads(b, at, entries, code);
      PairedScan(b, at + 2, last, code, max, entries[2..]);
    } else {
      assert LiesAt(b, at + 1, []) && entries[1..] == [];
    }
  }

  lemma TwoPads(b: seq<byte>, at: nat, entries: seq<Entry>, code: byte)
    requires |entries| > 1 && entries[0].Pad? && entries[1].Pad? && LiesAt(b, at, entries)
    ensures at + 1 < |b| && b[at] == b[at + 1] == 0 && LiesAt(b, at + 2, entries[2..])
    ensures SizeOf(entries) == 2 + SizeOf(entries[2..])
    ensures AddressOf(entries, at, code) == AddressOf(entries[2..], at + 2, code)
  {
    assert entries[1..][1..] == entries[2..];
  }

  /** The code of the first field with an odd number of pads before it. */
  function Hidden(entries: seq<Entry>): byte
    requires !Paired(entries)
    decreases |entries|
  {
    if entries[0].Field? then Hidden(entries[1..])
    else if entries[1].Field? then entries[1].code
    else Hidden(entries[2..])
  }

  lemma {:induction false} HiddenIsThere(entries: seq<Entry>) returns (i: nat)
    requires !Paired(entries)
    ensures i < |entries| && entries[i].Field? && entries[i].code == Hidden(entries)
    decreases |entries|
  {
    if entries[0].Field? {
      i := HiddenIsThere(entries[1..]);
      i := i + 1;
    } else if entries[1].Field? {
      i := 1;
    } else {
      i := HiddenIsThere(entries[2..]);
      i := i + 2;
    }
  }

  lemma HiddenIsLater(entries: seq<Entry>)
    requires !Paired(entries) && Distinct(entries) && entries[0].Field?
    ensures Hidden(entries[1..]) != entries[0].code
  {
    var i := HiddenIsThere(entries[1..]);
    assert entries[1..][i] == entries[i + 1];
  }

  lemma Later(entries: seq<Entry>, k: nat)
    requires k <= |entries| && Proper(entries) && Distinct(entries)
    ensures Proper(entries[k..]) && Distinct(entries[k..])
  {
    var s := entries[k..];
    assert forall i :: 0 <= i < |s| ==> s[i] == entries[i + k];
  }

  /** That field is never found: its last pad and its code read as an option, which takes the scanner past
      it. */
  lemma {:induction false} HiddenMissed(b: seq<byte>, at: nat, last: nat, max: nat, entries: seq<Entry>, code: byte)
    requires LiesAt(b, at, entries) && Proper(entries) && Distinct(entries) && !Paired(entries)
    requires code == Hidden(entries) && code != 0 && code != OPTION_END
    requires at + SizeOf(entries) <= last && Walkable(b, at, last, code, max)
    ensures AddressOf(entries, at, code) != None
    ensures Scan(b, at, last, code, max) != AddressOf(entries, at, code)
    decreases |entries|
  {
    if entries[0].Field? {
      HiddenIsLater(entries);
      Later(entries, 1);
      HiddenMissed(b, at + 2 + |entries[0].value|, last, max, entries[1..], code);
    } else if entries[1].Field? {
      PassedOver(b, at, last, max, entries, code);
    } else {
      TwoPads(b, at, entries, code);
      Later(entries, 2);
      HiddenMissed(b, at + 2, last, max, entries[2..], code);
    }
  }

  lemma PassedOver(b: seq<byte>, at: nat, last: nat, max: nat, entries: seq<Entry>, code: byte)
    requires |entries| > 1 && entries[0].Pad? && entries[1].Field? && entries[1].code == code && code != 0
    requires LiesAt(b, at, entries) && at <= last && Walkable(b, at, last, code, max)
    ensures AddressOf(entries, at, code) == Some(at + 1) != Scan(b, at, last, code, max)
  {
    assert entries[1..][0] == entries[1];
    assert LiesAt(b, at + 1, entries[1..]) && b[at + 1] == code;
    assert Scan(b, at, last, code, max) == Scan(b, at + code + 2, last, code, max);
  }

  /** For a list in which no code comes twice, in a memory that goes on behind it: every lookup stops where
      the standard says, if and only if every field has an even number of pads directly before it. */
  lemma PadsMatter(b: seq<byte>, options: nat, max: nat, entries: seq<Entry>)
    requires LiesAt(b, options, entries) && Proper(entries) && Distinct(entries)
    requires SizeOf(entries) <= LAST && options + LAST + 2 + max <= |b|
    ensures (forall code: byte :: code != 0 && code != OPTION_END ==>
        Found(b, options, code, max) == AddressOf(entries, options, code))
      <==> Paired(entries)
  {
    if Paired(entries) {
      forall code: byte | code != 0 && code != OPTION_END
        ensures Found(b, options, code, max) == AddressOf(entries, options, code)
      {
        WalkableWithRoom(b, options, options + LAST, code, max);
        PairedScan(b, options, options + LAST, code, max, entries);
      }
    } else {
      var code := Hidden(entries);
      var i := HiddenIsThere(entries);
      WalkableWithRoom(b, options, options + LAST, code, max);
      HiddenMissed(b, options, options + LAST, max, entries, code);
      assert Found(b, options, code, max) != AddressOf(entries, options, code);
    }
  }

  /** One pad before the server identifier: the field is there, and the scanner finds nothing. */
  lemma PadHidesServer(b: seq<byte>)
    requires |b| == 100 && b[0] == 0 && b[1] == SERVER_IDENTIFIER && b[2] == 4 && b[3..7] == [10, 0, 0, 1]
    requires b[7] == OPTION_END && b[56] == OPTION_END
    ensures LiesAt(b, 0, [Pad, Field(SERVER_IDENTIFIER, [10, 0, 0, 1])])
    ensures AddressOf([Pad, Field(SERVER_IDENTIFIER, [10, 0, 0, 1])], 0, SERVER_IDENTIFIER) == Some(1)
    ensures Found(b, 0, SERVER_IDENTIFIER, 4) == None
  {
    var f := Field(SERVER_IDENTIFIER, [10, 0, 0, 1]);
    assert [Pad, f][1..] == [f] && [f][1..] == [];
    assert LiesAt(b, 7, []) && LiesAt(b, 1, [f]);
    WalkableWithRoom(b, 0, LAST, SERVER_IDENTIFIER, 4);
    assert Scan(b, 56, LAST, SERVER_IDENTIFIER, 4) == None;
  }
}
