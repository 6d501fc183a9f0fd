/** The packed form of an hstore: end positions with flags for every key and value, and one string
    area that holds all their bytes. */
module HstorePacked {
  import opened Hstore
  import opened Sequences

  const POSITIONS := 0x4000_0000

  /** An HEntry: the flag bits and the position where the item ends. */
  datatype Entry = Entry(first: bool, isNull: bool, pos: nat)

  /** The two entries of a pair. */
  datatype Slot = Slot(key: Entry, val: Entry)

  datatype Packed = Packed(slots: seq<Slot>, str: string)

  // ----- readers -----

  /** Where the item before slot `i` ends. */
  function Before(slots: seq<Slot>, i: nat): nat
    requires i <= |slots|
  {
    if i == 0 then 0 else slots[i - 1].val.pos
  }

  /** HSE_OFF of the key entry: an entry flagged first has nothing before it. */
  function KeyOff(slots: seq<Slot>, i: nat): nat
    requires i < |slots|
  {
    if slots[i].key.first then 0 else Before(slots, i)
  }

  /** HSE_OFF of the value entry. */
  function ValOff(slots: seq<Slot>, i: nat): nat
    requires i < |slots|
  {
    if slots[i].val.first then 0 else slots[i].key.pos
  }

  /** The bytes between two positions of the string area. */
  function Slice(s: string, a: nat, b: nat): string {
    if a <= b <= |s| then s[a..b] else ""
  }

  /** HS_KEY with HS_KEYLEN. */
  function KeyAt(p: Packed, i: nat): string
    requires i < |p.slots|
  {
    Slice(p.str, KeyOff(p.slots, i), p.slots[i].key.pos)
  }

  /** HS_VAL with HS_VALLEN, or null. */
  function ValAt(p: Packed, i: nat): Value
    requires i < |p.slots|
  {
    if p.slots[i].val.isNull then Null else Text(Slice(p.str, ValOff(p.slots, i), p.slots[i].val.pos))
  }

  function PairAt(p: Packed, i: nat): Pair
    requires i < |p.slots|
  {
    Pair(KeyAt(p, i), ValAt(p, i))
  }

  function PairsOf(p: Packed): (ps: seq<Pair>)
    ensures |ps| == |p.slots|
  {
    seq(|p.slots|, i requires 0 <= i < |p.slots| => PairAt(p, i))
  }

  /** Only the first entry is flagged so, positions do not decrease, keys are not null, nulls are empty. */
  ghost predicate SlotOk(slots: seq<Slot>, i: nat)
    requires i < |slots|
  {
    var s := slots[i];
    && (s.key.first <==> i == 0) && !s.val.first && !s.key.isNull
    && Before(slots, i) <= s.key.pos <= s.val.pos < POSITIONS
    && (s.val.isNull ==> s.val.pos == s.key.pos)
  }

  /** What the readers rely on. */
  ghost predicate Valid(p: Packed) {
    && (forall i :: 0 <= i < |p.slots| ==> SlotOk(p.slots, i))
    && Before(p.slots, |p.slots|) == |p.str|
  }

  lemma {:induction false} EndsWithin(p: Packed, i: nat)
    requires Valid(p) && i <= |p.slots|
    ensures Before(p.slots, i) <= |p.str|
    decreases |p.slots| - i
  {
    if i < |p.slots| {
      EndsWithin(p, i + 1);
      assert SlotOk(p.slots, i);
    }
  }

  // ----- the packed form of given pairs -----

  function ValueBytes(v: Value): string {
    if v.Null? then "" else v.s
  }

  function PairBytes(p: Pair): string {
    p.key + ValueBytes(p.val)
  }

  function Bytes(ps: seq<Pair>): string {
    if ps == [] then "" else Bytes(ps[..|ps| - 1]) + PairBytes(ps[|ps| - 1])
  }

  /** The entries of a pair whose bytes begin at `base`. */
  function SlotFor(first: bool, base: nat, p: Pair): Slot {
    Slot(Entry(first, false, base + |p.key|), Entry(false, p.val.Null?, base + |PairBytes(p)|))
  }

  /** The entries as they are appended. */
  function RawSlots(ps: seq<Pair>): (ss: seq<Slot>)
    ensures |ss| == |ps|
  {
    if ps == [] then []
    else
      var front := ps[..|ps| - 1];
      RawSlots(front) + [SlotFor(false, |Bytes(front)|, ps[|ps| - 1])]
  }

  function FlagFirst(s: Slot): Slot {
    s.(key := s.key.(first := true))
  }

  /** The entries once the first has been flagged. */
  function Slots(ps: seq<Pair>): (ss: seq<Slot>)
    ensures |ss| == |ps|
  {
    var raw := RawSlots(ps);
    if raw == [] then [] else raw[0 := FlagFirst(raw[0])]
  }

  function Pack(ps: seq<Pair>): Packed {
    Packed(Slots(ps), Bytes(ps))
  }

  ghost predicate Fits(ps: seq<Pair>) {
    |Bytes(ps)| < POSITIONS
  }

  // ----- reading back what was packed -----

  lemma {:induction false} BytesConcat(a: seq<Pair>, b: seq<Pair>)
    ensures Bytes(a + b) == Bytes(a) + Bytes(b)
  {
    if b == [] {
      assert a + b == a;
    } else {
      var front, last := b[..|b| - 1], b[|b| - 1];
      BytesConcat(a, front);
      assert (a + b)[..|a + b| - 1] == a + front;
      Regroup(Bytes(a), Bytes(front), PairBytes(last));
    }
  }

  lemma {:induction false} PrefixBytes(ps: seq<Pair>, i: nat)
    requires i < |ps|
    ensures |Bytes(ps[..i + 1])| == |Bytes(ps[..i])| + |PairBytes(ps[i])| <= |Bytes(ps)|
  {
    assert ps[..i + 1][..i] == ps[..i];
    assert ps == ps[..i + 1] + ps[i + 1..];
    BytesConcat(ps[..i + 1], ps[i + 1..]);
  }

  lemma {:induction false} RawSlotOfPair(ps: seq<Pair>, i: nat)
    requires i < |ps|
    ensures RawSlots(ps)[i] == SlotFor(false, |Bytes(ps[..i])|, ps[i])
  {
    var front := ps[..|ps| - 1];
    if i < |front| {
      RawSlotOfPair(front, i);
      assert front[..i] == ps[..i];
    } else {
      assert ps[..i] == front;
    }
  }

  lemma {:induction false} SlotOfPair(ps: seq<Pair>, i: nat)
    requires i < |ps|
    ensures Slots(ps)[i] == SlotFor(i == 0, |Bytes(ps[..i])|, ps[i])
    ensures |Bytes(ps[..i + 1])| == |Bytes(ps[..i])| + |PairBytes(ps[i])| <= |Bytes(ps)|
  {
    RawSlotOfPair(ps, i);
    PrefixBytes(ps, i);
  }

  /** The bytes of `p` lie in `s` from `base` on. */
  ghost predicate Placed(s: string, base: nat, p: Pair) {
    && base + |PairBytes(p)| <= |s|
    && Slice(s, base, base + |p.key|) == p.key
    && Slice(s, base + |p.key|, base + |PairBytes(p)|) == ValueBytes(p.val)
  }

  lemma {:induction false} PlacedPrefix(s: string, z: string, base: nat, p: Pair)
    requires Placed(s, base, p)
    ensures Placed(s + z, base, p)
  {
    var b, c := base + |p.key|, base + |PairBytes(p)|;
    assert (s + z)[base..b] == s[base..b];
    assert (s + z)[b..c] == s[b..c];
  }

  lemma {:induction false} PlacedLast(s: string, p: Pair)
    ensures Placed(s + PairBytes(p), |s|, p)
  {
    var t := s + PairBytes(p);
    assert t[|s|..|s| + |p.key|] == p.key;
    assert t[|s| + |p.key|..|t|] == ValueBytes(p.val);
  }

  /** Each pair's bytes lie where its entries say. */
  lemma {:induction false} BytesAt(ps: seq<Pair>, i: nat)
    requires i < |ps|
    ensures Placed(Bytes(ps), |Bytes(ps[..i])|, ps[i])
  {
    var front, last := ps[..|ps| - 1], ps[|ps| - 1];
    if i < |front| {
      BytesAt(front, i);
      assert front[..i] == ps[..i];
      PlacedPrefix(Bytes(front), PairBytes(last), |Bytes(front[..i])|, front[i]);
    } else {
      assert ps[..i] == front;
      PlacedLast(Bytes(front), last);
    }
    assert Bytes(ps) == Bytes(front) + PairBytes(last);
  }

  lemma {:induction false} PackBefore(ps: seq<Pair>, i: nat)
    requires i <= |ps|
    ensures Before(Slots(ps), i) == |Bytes(ps[..i])|
  {
    if i > 0 {
      SlotOfPair(ps, i - 1);
    }
  }

  lemma {:induction false} PackValid(ps: seq<Pair>)
    requires Fits(ps)
    ensures Valid(Pack(ps))
  {
    forall i | 0 <= i < |ps| ensures SlotOk(Slots(ps), i) {
      SlotOfPair(ps, i);
      PackBefore(ps, i);
    }
    PackBefore(ps, |ps|);
    assert ps[..|ps|] == ps;
  }

  lemma {:induction false} ReadSlot(p: Packed, i: nat, q: Pair)
    requires i < |p.slots| && Placed(p.str, Before(p.slots, i), q)
    requires p.slots[i] == SlotFor(i == 0, Before(p.slots, i), q)
    ensures PairAt(p, i) == q
  {
  }

  lemma {:induction false} ReadPair(ps: seq<Pair>, i: nat)
    requires i < |ps|
    ensures PairAt(Pack(ps), i) == ps[i]
  {
    SlotOfPair(ps, i);
    PackBefore(ps, i);
    BytesAt(ps, i);
    ReadSlot(Pack(ps), i, ps[i]);
  }

  /** Reading the packed form gives back the pairs. */
  lemma {:induction false} PackRoundTrip(ps: seq<Pair>)
    requires Fits(ps)
    ensures Valid(Pack(ps)) && PairsOf(Pack(ps)) == ps
  {
    PackValid(ps);
    forall i | 0 <= i < |ps| ensures PairAt(Pack(ps), i) == ps[i] {
      ReadPair(ps, i);
    }
  }

  // ----- the packed form is determined by the pairs -----

  /** The two items of a slot are adjacent, and the slot is the one for its pair. */
  lemma {:induction false} SlotIsItsPair(p: Packed, i: nat)
    requires Valid(p) && i < |p.slots|
    ensures PairBytes(PairAt(p, i)) == Slice(p.str, Before(p.slots, i), p.slots[i].val.pos)
    ensures SlotFor(i == 0, Before(p.slots, i), PairAt(p, i)) == p.slots[i]
  {
    assert SlotOk(p.slots, i);
    EndsWithin(p, i + 1);
    SliceJoin(p.str, Before(p.slots, i), p.slots[i].key.pos, p.slots[i].val.pos);
  }

  lemma {:induction false} SliceJoin(s: string, a: nat, b: nat, c: nat)
    requires a <= b <= c <= |s|
    ensures Slice(s, a, b) + Slice(s, b, c) == Slice(s, a, c)
    ensures |Slice(s, a, b)| == b - a && |Slice(s, b, c)| == c - b
  {
  }

  lemma {:induction false} BytesPrefix(p: Packed, n: nat)
    requires Valid(p) && n <= |p.slots|
    ensures Before(p.slots, n) <= |p.str|
    ensures Bytes(PairsOf(p)[..n]) == Slice(p.str, 0, Before(p.slots, n))
  {
    EndsWithin(p, n);
    if n > 0 {
      var i := n - 1;
      BytesPrefix(p, i);
      assert PairsOf(p)[..n][..i] == PairsOf(p)[..i];
      SlotIsItsPair(p, i);
      assert SlotOk(p.slots, i);
      SliceJoin(p.str, 0, Before(p.slots, i), Before(p.slots, n));
    }
  }

  lemma {:induction false} SlotSame(p: Packed, i: nat)
    requires Valid(p) && i < |p.slots|
    ensures Slots(PairsOf(p))[i] == p.slots[i]
  {
    SlotOfPair(PairsOf(p), i);
    BytesPrefix(p, i);
    SlotIsItsPair(p, i);
  }

  /** A valid packed form is the packed form of its pairs. */
  lemma {:induction false} PackUnique(p: Packed)
    requires Valid(p)
    ensures Fits(PairsOf(p)) && Pack(PairsOf(p)) == p
  {
    var n := |p.slots|;
    BytesPrefix(p, n);
    assert PairsOf(p)[..n] == PairsOf(p) && Slice(p.str, 0, |p.str|) == p.str;
    if n > 0 {
      assert SlotOk(p.slots, n - 1);
    }
    forall i | 0 <= i < n ensures Slots(PairsOf(p))[i] == p.slots[i] {
      SlotSame(p, i);
    }
  }
}
