/** HS_COPYITEM, HS_ADDITEM and HS_FINALIZE: an hstore grows in one block of memory whose string area
    starts behind room for more entries than may be used, and is moved down at the end. */
module HstoreBuild {
  import opened Hstore
  import opened HstorePacked
  import opened HstoreMemory
  import opened Options
  import opened Sequences

  /** The block holds the appended entries at its start and the strings behind all reserved entries. */
  ghost predicate Holding(m: string, room: nat, ps: seq<Pair>) {
    && Storable(ps) && |ps| <= room
    && At(m, 0, SlotsBytes(RawSlots(ps)))
    && At(m, 8 * room, Bytes(ps))
  }

  lemma {:induction false} EntriesMore(m: string, room: nat, ps: seq<Pair>, q: Pair, m1: string, m2: string)
    requires Holding(m, room, ps) && |ps| < room
    requires var e := 8 * room + |Bytes(ps)|; SameOutside(m, m1, e, e + |PairBytes(q)|)
    requires At(m2, 8 * |ps|, SlotBytes(SlotFor(false, |Bytes(ps)|, q))) && SameOutside(m1, m2, 8 * |ps|, 8 * |ps| + 8)
    ensures At(m2, 0, SlotsBytes(RawSlots(ps + [q])))
  {
    var e := 8 * room + |Bytes(ps)|;
    AppendPair(ps, q);
    JoinBefore(m, m1, m2, SlotsBytes(RawSlots(ps)), SlotBytes(SlotFor(false, |Bytes(ps)|, q)), e, e + |PairBytes(q)|);
  }

  lemma {:induction false} JoinBefore(m: string, m1: string, m2: string, s: string, t: string, lo: nat, hi: nat)
    requires At(m, 0, s) && SameOutside(m, m1, lo, hi) && |s| <= lo
    requires At(m2, |s|, t) && SameOutside(m1, m2, |s|, |s| + |t|)
    ensures At(m2, 0, s + t)
  {
    AtKept(m, m1, 0, s, lo, hi);
    AtKept(m1, m2, 0, s, |s|, |s| + |t|);
    AtJoin(m2, 0, s, t);
  }

  lemma {:induction false} StringsMore(m: string, room: nat, ps: seq<Pair>, q: Pair, m1: string, m2: string)
    requires At(m, 8 * room, Bytes(ps)) && |ps| < room
    requires var e := 8 * room + |Bytes(ps)|;
      At(m1, e, PairBytes(q)) && SameOutside(m, m1, e, e + |PairBytes(q)|)
    requires SameOutside(m1, m2, 8 * |ps|, 8 * |ps| + 8)
    ensures At(m2, 8 * room, Bytes(ps + [q]))
  {
    AppendBytes(ps, q);
    JoinAfter(m, m1, m2, 8 * room, Bytes(ps), PairBytes(q), 8 * |ps|);
  }

  lemma {:induction false} JoinAfter(m: string, m1: string, m2: string, b: nat, s: string, t: string, lo: nat)
    requires At(m, b, s) && At(m1, b + |s|, t) && SameOutside(m, m1, b + |s|, b + |s| + |t|)
    requires SameOutside(m1, m2, lo, lo + 8) && lo + 8 <= b
    ensures At(m2, b, s + t)
  {
    AtKept(m, m1, b, s, b + |s|, b + |s| + |t|);
    AtJoin(m1, b, s, t);
    AtKept(m1, m2, b, s + t, lo, lo + 8);
  }

  /** Writes the bytes of a pair behind the strings so far, then its two entries. */
  method WritePair(mem: array<char>, room: nat, count: nat, ptr: nat, bytes: string, klen: nat, vnull: bool,
                   ghost q: Pair, ghost ps: seq<Pair>)
    requires Holding(mem[..], room, ps) && count == |ps| < room && ptr == |Bytes(ps)|
    requires bytes == PairBytes(q) && klen == |q.key| && vnull == q.val.Null?
    requires 8 * room + ptr + |bytes| <= mem.Length <= MAXALLOC - 8
    modifies mem
    ensures Holding(mem[..], room, ps + [q])
  {
    ghost var before := mem[..];
    PutBytes(mem, 8 * room + ptr, bytes);
    ghost var middle := mem[..];
    var slot := Slot(Entry(false, false, ptr + klen), Entry(false, vnull, ptr + |bytes|));
    assert slot == SlotFor(false, |Bytes(ps)|, q);
    PutBytes(mem, 8 * count, SlotBytes(slot));
    PairWritten(before, room, ps, q, middle, mem[..]);
  }

  lemma {:induction false} PairWritten(m: string, room: nat, ps: seq<Pair>, q: Pair, m1: string, m2: string)
    requires Holding(m, room, ps) && |ps| < room
    requires var e := 8 * room + |Bytes(ps)|;
      e + |PairBytes(q)| <= |m| <= MAXALLOC - 8 && At(m1, e, PairBytes(q)) && SameOutside(m, m1, e, e + |PairBytes(q)|)
    requires At(m2, 8 * |ps|, SlotBytes(SlotFor(false, |Bytes(ps)|, q))) && SameOutside(m1, m2, 8 * |ps|, 8 * |ps| + 8)
    ensures Holding(m2, room, ps + [q])
  {
    EntriesMore(m, room, ps, q, m1, m2);
    StringsMore(m, room, ps, q, m1, m2);
    AppendFits(ps, q, room, |m|);
  }

  /** Sets the flag of the first entry, if there is one. */
  method FlagEntry(mem: array<char>, room: nat, count: nat, ghost ps: seq<Pair>)
    requires Holding(mem[..], room, ps) && count == |ps|
    modifies mem
    ensures At(mem[..], 0, SlotsBytes(Slots(ps))) && At(mem[..], 8 * room, Bytes(ps))
  {
    if count > 0 {
      ghost var before := mem[..];
      ReadFirstWord(mem[..], ps);
      var w := WordAt(mem[..], 0);
      PutBytes(mem, 0, WordBytes(w + HENTRY_ISFIRST));
      FlagFirstWord(before, mem[..], ps);
      AtKept(before, mem[..], 8 * room, Bytes(ps), 0, 4);
    }
  }

  /** Moves the strings down to the entries in use. */
  method CloseGap(mem: array<char>, room: nat, count: nat, ptr: nat, ghost entries: string, ghost strings: string)
    requires count <= room && |entries| == 8 * count && |strings| == ptr
    requires At(mem[..], 0, entries) && At(mem[..], 8 * room, strings)
    modifies mem
    ensures 8 * count + ptr <= mem.Length && mem[..8 * count + ptr] == entries + strings
  {
    if count != room {
      ghost var before := mem[..];
      SliceAt(before, 8 * room, strings);
      MoveDown(mem, 8 * count, 8 * room, ptr);
      AtKept(before, mem[..], 0, entries, 8 * count, 8 * count + ptr);
    }
    AtJoin(mem[..], 0, entries, strings);
    AtPrefix(mem[..], entries + strings);
  }

  class Builder {
    const mem: array<char>
    const room: nat
    var count: nat
    var ptr: nat
    ghost var pairs: seq<Pair>

    /** A block of `size` bytes behind the header, with room for `room` pairs of entries. */
    constructor (room: nat, size: nat)
      requires 8 * room <= size <= MAXALLOC - 8
      ensures Valid() && fresh(mem) && pairs == [] && this.room == room && mem.Length == size
    {
      this.room, count, ptr, pairs := room, 0, 0, [];
      mem := new char[size](_ => '\0');
      new;
      assert mem[..0] == "";
    }

    ghost predicate Valid()
      reads this, mem
    {
      && mem.Length <= MAXALLOC - 8
      && count == |pairs| && ptr == |Bytes(pairs)|
      && Holding(mem[..], room, pairs)
    }

    /** HS_ADDITEM: key bytes, then value bytes unless null. */
    method AddItem(q: Pair)
      requires Valid() && count < room && 8 * room + ptr + |PairBytes(q)| <= mem.Length
      modifies this, mem
      ensures Valid() && pairs == old(pairs) + [q] && ptr == old(ptr) + |PairBytes(q)|
    {
      var bytes := q.key + if q.val.Null? then "" else q.val.s;
      Extend(bytes, |q.key|, q.val.Null?, q);
    }

    method AddItems(ps: seq<Pair>)
      requires Valid() && pairs == [] && |ps| <= room && 8 * room + |Bytes(ps)| <= mem.Length
      modifies this, mem
      ensures Valid() && pairs == ps
    {
      for i := 0 to |ps|
        invariant Valid() && pairs == ps[..i]
      {
        PrefixBytes(ps, i);
        TakeMore(ps, i);
        AddItem(ps[i]);
      }
      assert ps[..|ps|] == ps;
    }

    /** HS_COPYITEM of pair `i` of an existing hstore, whose key and value are adjacent there. */
    method CopyItem(src: Packed, i: nat)
      requires Valid() && HstorePacked.Valid(src) && i < |src.slots|
      requires count < room && 8 * room + ptr + |PairBytes(PairAt(src, i))| <= mem.Length
      modifies this, mem
      ensures Valid() && pairs == old(pairs) + [PairAt(src, i)]
      ensures ptr == old(ptr) + |PairBytes(PairAt(src, i))|
    {
      SlotIsItsPair(src, i);
      var sptr := KeyOff(src.slots, i);
      assert SlotOk(src.slots, i);
      var klen := src.slots[i].key.pos - sptr;
      var vlen := src.slots[i].val.pos - ValOff(src.slots, i);
      var bytes := Slice(src.str, sptr, sptr + klen + vlen);
      Extend(bytes, klen, src.slots[i].val.isNull, PairAt(src, i));
    }

    method Extend(bytes: string, klen: nat, vnull: bool, ghost q: Pair)
      requires Valid() && count < room && 8 * room + ptr + |bytes| <= mem.Length
      requires bytes == PairBytes(q) && klen == |q.key| && vnull == q.val.Null?
      modifies this, mem
      ensures Valid() && pairs == old(pairs) + [q] && ptr == old(ptr) + |bytes|
    {
      WritePair(mem, room, count, ptr, bytes, klen, vnull, q, pairs);
      AppendBytes(pairs, q);
      ptr := ptr + |bytes|;
      count := count + 1;
      pairs := pairs + [q];
    }

    /** HS_FINALIZE: flags the first entry and moves the string area down to the entries in use. */
    method Finalize() returns (hs: HStore)
      requires Valid()
      modifies mem
      ensures Storable(pairs) && hs == Store(pairs)
    {
      FlagEntry(mem, room, count, pairs);
      CloseGap(mem, room, count, ptr, SlotsBytes(Slots(pairs)), Bytes(pairs));
      hs := HStore(HS_FLAG_NEWVERSION + count, 8 + 8 * count + ptr, mem[..8 * count + ptr]);
    }
  }

  lemma {:induction false} SliceAt(m: string, at: nat, p: string)
    requires At(m, at, p)
    ensures m[at..at + |p|] == p
  {
  }

  lemma {:induction false} AppendFits(ps: seq<Pair>, q: Pair, room: nat, length: nat)
    requires |ps| < room && 8 * room + |Bytes(ps)| + |PairBytes(q)| <= length <= MAXALLOC - 8
    ensures Storable(ps + [q])
  {
    AppendBytes(ps, q);
  }

  /** The first word of the entries, with and without the flag, and what follows it. */
  lemma {:induction false} FirstWord(ps: seq<Pair>) returns (w: nat, rest: string)
    requires ps != [] && Storable(ps)
    ensures w == WordOf(RawSlots(ps)[0].key) < HENTRY_ISFIRST
    ensures SlotsBytes(RawSlots(ps)) == WordBytes(w) + rest
    ensures SlotsBytes(Slots(ps)) == WordBytes(w + HENTRY_ISFIRST) + rest
  {
    var raw, ss := RawSlots(ps), Slots(ps);
    RawSlotOfPair(ps, 0);
    PrefixBytes(ps, 0);
    SlotsBytesCons(raw);
    SlotsBytesCons(ss);
    assert ss[1..] == raw[1..] && ss[0].val == raw[0].val;
    w, rest := WordOf(raw[0].key), WordBytes(WordOf(raw[0].val)) + SlotsBytes(raw[1..]);
    Regroup(WordBytes(w), WordBytes(WordOf(raw[0].val)), SlotsBytes(raw[1..]));
    Regroup(WordBytes(w + HENTRY_ISFIRST), WordBytes(WordOf(raw[0].val)), SlotsBytes(raw[1..]));
  }

  lemma {:induction false} ReadFirstWord(m: string, ps: seq<Pair>)
    requires ps != [] && Storable(ps) && At(m, 0, SlotsBytes(RawSlots(ps)))
    ensures |m| >= 4 && WordAt(m, 0) == WordOf(RawSlots(ps)[0].key)
  {
    var w, rest := FirstWord(ps);
    AtParts(m, 0, WordBytes(w), rest);
    WordRoundTrip(m, 0, w);
  }

  /** Adding the flag to word 0 turns the appended entries into the final ones. */
  lemma {:induction false} FlagFirstWord(before: string, after: string, ps: seq<Pair>)
    requires ps != [] && Storable(ps) && At(before, 0, SlotsBytes(RawSlots(ps)))
    requires var w := WordOf(RawSlots(ps)[0].key);
      At(after, 0, WordBytes(w + HENTRY_ISFIRST)) && SameOutside(before, after, 0, 4)
    ensures At(after, 0, SlotsBytes(Slots(ps)))
  {
    var w, rest := FirstWord(ps);
    NewHead(before, after, WordBytes(w), WordBytes(w + HENTRY_ISFIRST), rest);
  }

  lemma {:induction false} NewHead(before: string, after: string, a: string, b: string, rest: string)
    requires |a| == |b| == 4 && At(before, 0, a + rest) && At(after, 0, b) && SameOutside(before, after, 0, 4)
    ensures At(after, 0, b + rest)
  {
    AtParts(before, 0, a, rest);
    AtKept(before, after, 4, rest, 0, 4);
    AtJoin(after, 0, b, rest);
  }

  lemma {:induction false} SlotsBytesCons(ss: seq<Slot>)
    requires ss != []
    ensures SlotsBytes(ss) == SlotBytes(ss[0]) + SlotsBytes(ss[1..])
  {
    var front, last := ss[..|ss| - 1], ss[|ss| - 1];
    assert SlotsBytes(ss) == SlotsBytes(front) + SlotBytes(last);
    if |ss| == 1 {
      EmptyFront(SlotBytes(last));
    } else {
      SlotsBytesCons(front);
      SlotsBytesSnoc(front[1..], last);
      assert front[1..] + [last] == ss[1..];
      Regroup(SlotBytes(ss[0]), SlotsBytes(front[1..]), SlotBytes(last));
    }
  }

  // ----- hstorePairs -----

  /** Packs pairs into a block of exactly the announced size, unless that is more than one allocation can give. */
  method HstorePairs(ps: seq<Pair>, buflen: nat) returns (out: Option<HStore>)
    requires buflen == |Bytes(ps)|
    ensures out == if Storable(ps) then Some(Store(ps)) else None
  {
    if 8 + 8 * |ps| + buflen > MAXALLOC {
      return None;
    }
    var b := new Builder(|ps|, 8 * |ps| + buflen);
    b.AddItems(ps);
    var hs := b.Finalize();
    return Some(hs);
  }
}
