/** The bytes of an hstore value, the macros that read them, and copying in memory. */
module HstoreMemory {
  import opened Hstore
  import opened HstorePacked
  import opened Sequences

  const HENTRY_ISFIRST := 0x8000_0000
  const HENTRY_ISNULL := 0x4000_0000
  const HS_FLAG_NEWVERSION := 0x8000_0000
  const MAXALLOC := 0x3fff_ffff

  /** Header fields and the bytes behind them: entries, then the string area. */
  datatype HStore = HStore(size: nat, varsize: nat, data: string)

  // ----- entries as 32-bit words -----

  function WordOf(e: Entry): nat {
    e.pos % POSITIONS + (if e.isNull then HENTRY_ISNULL else 0) + (if e.first then HENTRY_ISFIRST else 0)
  }

  function EntryOf(w: nat): Entry {
    Entry(w / HENTRY_ISFIRST % 2 == 1, w / HENTRY_ISNULL % 2 == 1, w % POSITIONS)
  }

  lemma {:induction false} EntryOfWord(e: Entry)
    requires e.pos < POSITIONS
    ensures EntryOf(WordOf(e)) == e && WordOf(e) < 0x1_0000_0000
  {
  }

  /** Four bytes, least significant first. */
  function WordBytes(w: nat): (s: string)
    ensures |s| == 4
  {
    [(w % 256) as char, (w / 256 % 256) as char, (w / 65536 % 256) as char, (w / 16777216 % 256) as char]
  }

  function WordAt(s: string, at: nat): nat
    requires at + 4 <= |s|
  {
    s[at] as int + 256 * s[at + 1] as int + 65536 * s[at + 2] as int + 16777216 * s[at + 3] as int
  }

  lemma {:induction false} WordRoundTrip(s: string, at: nat, w: nat)
    requires w < 0x1_0000_0000 && at + 4 <= |s| && At(s, at, WordBytes(w))
    ensures WordAt(s, at) == w
  {
    var b := WordBytes(w);
    assert s[at + 0] == b[0] && s[at + 1] == b[1] && s[at + 2] == b[2] && s[at + 3] == b[3];
    Digits(w);
    assert w / 16777216 < 256;
  }

  lemma {:induction false} Digits(w: nat)
    ensures w == w % 256 + 256 * (w / 256 % 256) + 65536 * (w / 65536 % 256) + 16777216 * (w / 16777216)
  {
    var a := w / 256;
    assert w == 256 * a + w % 256;
    assert w / 65536 == a / 256;
    var b := a / 256;
    assert a == 256 * b + a % 256;
    assert w / 16777216 == b / 256;
  }

  // ----- the bytes of a packed form -----

  ghost predicate SmallSlot(s: Slot) {
    s.key.pos < POSITIONS && s.val.pos < POSITIONS
  }

  ghost predicate SmallSlots(ss: seq<Slot>) {
    forall i :: 0 <= i < |ss| ==> SmallSlot(ss[i])
  }

  function SlotBytes(s: Slot): (b: string)
    ensures |b| == 8
  {
    WordBytes(WordOf(s.key)) + WordBytes(WordOf(s.val))
  }

  function SlotsBytes(ss: seq<Slot>): (b: string)
    ensures |b| == 8 * |ss|
  {
    if ss == [] then "" else SlotsBytes(ss[..|ss| - 1]) + SlotBytes(ss[|ss| - 1])
  }

  /** The two entries at index `i` of the entry array. */
  function SlotAt(s: string, i: nat): Slot
    requires 8 * i + 8 <= |s|
  {
    Slot(EntryOf(WordAt(s, 8 * i)), EntryOf(WordAt(s, 8 * i + 4)))
  }

  lemma {:induction false} SlotRead(s: string, i: nat, slot: Slot)
    requires SmallSlot(slot) && 8 * i + 8 <= |s| && At(s, 8 * i, SlotBytes(slot))
    ensures SlotAt(s, i) == slot
  {
    EntryOfWord(slot.key);
    EntryOfWord(slot.val);
    AtParts(s, 8 * i, WordBytes(WordOf(slot.key)), WordBytes(WordOf(slot.val)));
    WordRoundTrip(s, 8 * i, WordOf(slot.key));
    WordRoundTrip(s, 8 * i + 4, WordOf(slot.val));
  }

  lemma {:induction false} SlotsBytesAt(ss: seq<Slot>, i: nat)
    requires i < |ss|
    ensures At(SlotsBytes(ss), 8 * i, SlotBytes(ss[i]))
  {
    var front, last := ss[..|ss| - 1], ss[|ss| - 1];
    if i < |front| {
      SlotsBytesAt(front, i);
      AtExtended(SlotsBytes(front), SlotBytes(last), 8 * i, SlotBytes(front[i]));
    } else {
      AtLast(SlotsBytes(front), SlotBytes(last));
    }
  }

  /** HS_COUNT. */
  function Count(hs: HStore): nat {
    hs.size % 0x1000_0000
  }

  /** ARRPTR and STRPTR: the entries and the string area of a value. */
  function View(hs: HStore): Packed {
    var n := Count(hs);
    if 8 * n <= |hs.data| then
      Packed(seq(n, i requires 0 <= i < n => SlotAt(hs.data, i)), hs.data[8 * n..])
    else Packed([], "")
  }

  /** The pairs the reader macros find. */
  function Pairs(hs: HStore): seq<Pair> {
    PairsOf(View(hs))
  }

  /** The whole value fits one allocation. */
  predicate Storable(ps: seq<Pair>) {
    8 + 8 * |ps| + |Bytes(ps)| <= MAXALLOC
  }

  lemma {:induction false} PackSmall(ps: seq<Pair>)
    requires Storable(ps)
    ensures Valid(Pack(ps)) && SmallSlots(Slots(ps))
  {
    PackValid(ps);
    forall i | 0 <= i < |ps| ensures SmallSlot(Slots(ps)[i]) {
      assert SlotOk(Slots(ps), i);
    }
  }

  /** The value the code builds for a list of pairs. */
  function Store(ps: seq<Pair>): HStore {
    HStore(HS_FLAG_NEWVERSION + |ps|, 8 + 8 * |ps| + |Bytes(ps)|, SlotsBytes(Slots(ps)) + Bytes(ps))
  }

  lemma {:induction false} ImageSlot(ss: seq<Slot>, str: string, i: nat)
    requires SmallSlots(ss) && i < |ss|
    ensures SlotAt(SlotsBytes(ss) + str, i) == ss[i]
  {
    SlotsBytesAt(ss, i);
    AtExtended(SlotsBytes(ss), str, 8 * i, SlotBytes(ss[i]));
    SlotRead(SlotsBytes(ss) + str, i, ss[i]);
  }

  lemma {:induction false} ImageView(hs: HStore, ss: seq<Slot>, str: string)
    requires SmallSlots(ss) && hs.data == SlotsBytes(ss) + str && Count(hs) == |ss|
    ensures View(hs) == Packed(ss, str)
  {
    forall i | 0 <= i < |ss| ensures SlotAt(hs.data, i) == ss[i] {
      ImageSlot(ss, str, i);
    }
    assert hs.data[8 * |ss|..] == str;
  }

  lemma {:induction false} StoreView(ps: seq<Pair>)
    requires Storable(ps)
    ensures View(Store(ps)) == Pack(ps)
  {
    PackSmall(ps);
    StoreCount(ps);
    ImageView(Store(ps), Slots(ps), Bytes(ps));
  }

  lemma {:induction false} StoreCount(ps: seq<Pair>)
    requires Storable(ps)
    ensures Count(Store(ps)) == |ps|
  {
  }

  /** The reader macros find in a stored value exactly the pairs it was built from. */
  lemma {:induction false} StoreRoundTrip(ps: seq<Pair>)
    requires Storable(ps)
    ensures View(Store(ps)) == Pack(ps) && Pairs(Store(ps)) == ps
  {
    StoreView(ps);
    PackRoundTrip(ps);
  }

  /** A canonical value: built from pairs whose keys strictly increase. */
  ghost predicate IsHStore(hs: HStore) {
    Canonical(Pairs(hs)) && Storable(Pairs(hs)) && hs == Store(Pairs(hs))
  }

  lemma {:induction false} StoreIsHStore(ps: seq<Pair>)
    requires Storable(ps) && Canonical(ps)
    ensures IsHStore(Store(ps)) && Pairs(Store(ps)) == ps
  {
    StoreRoundTrip(ps);
  }

  // ----- an hstore under construction -----

  lemma {:induction false} SlotsBytesSnoc(ss: seq<Slot>, s: Slot)
    ensures SlotsBytes(ss + [s]) == SlotsBytes(ss) + SlotBytes(s)
  {
    assert (ss + [s])[..|ss|] == ss;
  }

  lemma {:induction false} AppendBytes(ps: seq<Pair>, q: Pair)
    ensures Bytes(ps + [q]) == Bytes(ps) + PairBytes(q)
  {
    assert (ps + [q])[..|ps|] == ps;
  }

  /** Appending a pair appends its bytes and its entries. */
  lemma {:induction false} AppendPair(ps: seq<Pair>, q: Pair)
    ensures Bytes(ps + [q]) == Bytes(ps) + PairBytes(q)
    ensures SlotsBytes(RawSlots(ps + [q])) == SlotsBytes(RawSlots(ps)) + SlotBytes(SlotFor(false, |Bytes(ps)|, q))
  {
    var all, slot := ps + [q], SlotFor(false, |Bytes(ps)|, q);
    assert all[..|ps|] == ps;
    assert RawSlots(all) == RawSlots(ps) + [slot];
    SlotsBytesSnoc(RawSlots(ps), slot);
  }

  /** memcpy. */
  method PutBytes(mem: array<char>, at: nat, s: string)
    requires at + |s| <= mem.Length
    modifies mem
    ensures At(mem[..], at, s) && SameOutside(old(mem[..]), mem[..], at, at + |s|)
  {
    for i := 0 to |s|
      invariant forall k :: 0 <= k < mem.Length ==> mem[k] == if at <= k < at + i then s[k - at] else old(mem[k])
    {
      mem[at + i] := s[i];
    }
  }

  /** memmove towards lower addresses. */
  method MoveDown(mem: array<char>, dst: nat, src: nat, len: nat)
    requires dst <= src && src + len <= mem.Length
    modifies mem
    ensures At(mem[..], dst, old(mem[src..src + len])) && SameOutside(old(mem[..]), mem[..], dst, dst + len)
  {
    for i := 0 to len
      invariant forall k :: 0 <= k < mem.Length && !(dst <= k < dst + i) ==> mem[k] == old(mem[k])
      invariant forall k :: dst <= k < dst + i ==> mem[k] == old(mem[k - dst + src])
    {
      mem[dst + i] := mem[src + i];
    }
  }
}
