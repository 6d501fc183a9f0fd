/** Conversion of values in the format of older versions. */
module HstoreCompat {
  import opened Hstore
  import opened HstorePacked
  import opened HstoreMemory
  import opened HstoreBuild
  import opened HstoreFormats
  import opened Sequences

  /** An entry of the old format: two 16-bit lengths, then a null bit and 31 bits of position. */
  datatype OldEntry = OldEntry(keylen: nat, vallen: nat, isNull: bool, pos: nat)

  /** The entry at index `i`, as a little-endian machine lays it out. */
  function OldAt(data: string, i: nat): OldEntry
    requires 8 * i + 8 <= |data|
  {
    var lens, at := WordAt(data, 8 * i), WordAt(data, 8 * i + 4);
    OldEntry(lens % 65536, lens / 65536, at % 2 == 1, at / 2)
  }

  function OldLen(e: OldEntry): nat {
    e.keylen + if e.isNull then 0 else e.vallen
  }

  /** A block whose size field claims no more entries than it can hold. */
  ghost predicate HasEntries(hs: HStore) {
    hs.size <= 0xfff_ffff && 8 * hs.size <= |hs.data|
  }

  function OldEntries(hs: HStore): (es: seq<OldEntry>)
    requires 8 * hs.size <= |hs.data|
    ensures |es| == hs.size
  {
    seq(hs.size, i requires 0 <= i < hs.size => OldAt(hs.data, i))
  }

  /** What lies behind the entries. */
  function OldArea(hs: HStore): string
    requires 8 * hs.size <= |hs.data|
  {
    hs.data[8 * hs.size..]
  }

  // ----- the validity test -----

  ghost predicate KeysGrow(es: seq<OldEntry>) {
    forall i, j :: 0 <= i < j < |es| ==> es[i].keylen <= es[j].keylen
  }

  /** The strings follow each other from position 0 up to `total`. */
  ghost predicate Contiguous(es: seq<OldEntry>, total: nat) {
    if es == [] then total == 0
    else
      var e := es[|es| - 1];
      e.pos + OldLen(e) == total && Contiguous(es[..|es| - 1], e.pos)
  }

  /** What the old format promises. */
  ghost predicate ValidOld(hs: HStore, total: nat) {
    && 0 < hs.size && HasEntries(hs)
    && KeysGrow(OldEntries(hs)) && Contiguous(OldEntries(hs), total) && total <= |OldArea(hs)|
  }

  lemma {:induction false} ContiguousOnce(es: seq<OldEntry>, a: nat, b: nat)
    requires Contiguous(es, a) && Contiguous(es, b)
    ensures a == b
  {
  }

  /** A wrong position cannot be made good by later entries. */
  lemma {:induction false} GapBreaks(es: seq<OldEntry>, i: nat, lastpos: nat, t: nat)
    requires i < |es| && Contiguous(es[..i], lastpos) && es[i].pos != lastpos
    ensures !Contiguous(es, t)
  {
    var front := es[..|es| - 1];
    if Contiguous(es, t) {
      if i == |front| {
        ContiguousOnce(front, lastpos, es[i].pos);
      } else {
        assert front[..i] == es[..i];
        GapBreaks(front, i, lastpos, es[|es| - 1].pos);
      }
    }
  }

  /** `hstoreValidOldFormat`: 0 for invalid, 1 for valid with slack behind the strings, 2 for exactly
      valid; `total` is where the strings end. */
  method ValidOldFormat(hs: HStore) returns (res: int, ghost total: nat)
    requires Block(hs)
    ensures res == 0 || res == 1 || res == 2
    ensures hs.size > 0 && res == 0 ==> forall t :: !ValidOld(hs, t)
    ensures hs.size > 0 && res != 0 ==> ValidOld(hs, total) && (res == 2 <==> 8 + 8 * hs.size + total == hs.varsize)
  {
    total := 0;
    if hs.size >= HS_FLAG_NEWVERSION {
      return 0, 0;
    }
    var count := hs.size;
    if count == 0 {
      return 2, 0;
    }
    if count > 0xfff_ffff || 8 + 8 * count > hs.varsize {
      return 0, 0;
    }
    ghost var es := OldEntries(hs);
    if OldAt(hs.data, 0).pos != 0 {
      forall t ensures !Contiguous(es, t) {
        GapBreaks(es, 0, 0, t);
      }
      return 0, 0;
    }
    var grows := LengthsGrow(hs);
    if !grows {
      return 0, 0;
    }
    var contiguous, lastpos := Positions(hs);
    if !contiguous {
      return 0, 0;
    }
    total := lastpos;
    forall t | Contiguous(es, t) ensures t == total {
      ContiguousOnce(es, t, total);
    }
    var vsize := 8 + 8 * count + lastpos;
    res := if vsize > hs.varsize then 0 else if vsize != hs.varsize then 1 else 2;
  }

  method LengthsGrow(hs: HStore) returns (ok: bool)
    requires HasEntries(hs) && hs.size > 0
    ensures ok <==> KeysGrow(OldEntries(hs))
  {
    ghost var es := OldEntries(hs);
    var i := 1;
    while i < hs.size
      invariant 1 <= i <= hs.size && KeysGrow(es[..i])
    {
      assert es[i] == OldAt(hs.data, i) && es[i - 1] == OldAt(hs.data, i - 1);
      if OldAt(hs.data, i).keylen < OldAt(hs.data, i - 1).keylen {
        return false;
      }
      assert es[..i][i - 1] == es[i - 1] && es[..i + 1] == es[..i] + [es[i]];
      i := i + 1;
    }
    assert es[..hs.size] == es;
    return true;
  }

  method Positions(hs: HStore) returns (ok: bool, lastpos: nat)
    requires HasEntries(hs)
    ensures ok ==> Contiguous(OldEntries(hs), lastpos)
    ensures !ok ==> forall t :: !Contiguous(OldEntries(hs), t)
  {
    ghost var es := OldEntries(hs);
    lastpos := 0;
    for i := 0 to hs.size
      invariant Contiguous(es[..i], lastpos)
    {
      var e := OldAt(hs.data, i);
      assert e == es[i];
      if e.pos != lastpos {
        forall t ensures !Contiguous(es, t) {
          GapBreaks(es, i, lastpos, t);
        }
        return false, 0;
      }
      assert es[..i + 1][..i] == es[..i];
      lastpos := lastpos + OldLen(e);
    }
    assert es[..hs.size] == es;
    ok := true;
  }

  // ----- the pairs of an old value -----

  /** The pair the old readers find for an entry. */
  function OldPair(e: OldEntry, str: string): Pair {
    Pair(Slice(str, e.pos, e.pos + e.keylen),
         if e.isNull then Null else Text(Slice(str, e.pos + e.keylen, e.pos + OldLen(e))))
  }

  function PairsFor(es: seq<OldEntry>, str: string): (ps: seq<Pair>)
    ensures |ps| == |es|
  {
    seq(|es|, i requires 0 <= i < |es| => OldPair(es[i], str))
  }

  function OldPairs(hs: HStore): seq<Pair>
    requires 8 * hs.size <= |hs.data|
  {
    PairsFor(OldEntries(hs), OldArea(hs))
  }

  lemma {:induction false} OldPairBytes(e: OldEntry, str: string)
    requires e.pos + OldLen(e) <= |str|
    ensures PairBytes(OldPair(e, str)) == Slice(str, e.pos, e.pos + OldLen(e))
    ensures |OldPair(e, str).key| == e.keylen && |PairBytes(OldPair(e, str))| == OldLen(e)
  {
    var k, m, z := e.pos, e.pos + e.keylen, e.pos + OldLen(e);
    SliceJoin(str, k, m, z);
    if e.isNull {
      EmptyFront(Slice(str, k, m));
      assert ValueBytes(OldPair(e, str).val) == "";
    } else {
      assert ValueBytes(OldPair(e, str).val) == Slice(str, m, z);
    }
  }

  lemma {:induction false} PairsForLast(es: seq<OldEntry>, str: string)
    requires es != []
    ensures PairsFor(es, str) == PairsFor(es[..|es| - 1], str) + [OldPair(es[|es| - 1], str)]
  {
  }

  lemma {:induction false} PrefixSlice(str: string, a: nat, b: nat)
    requires a <= b <= |str|
    ensures str[..b] == str[..a] + Slice(str, a, b)
  {
  }

  /** The bytes of the pairs are the string area up to where the entries end. */
  lemma {:induction false} OldBytes(es: seq<OldEntry>, str: string, t: nat)
    requires t <= |str| && Contiguous(es, t)
    ensures Bytes(PairsFor(es, str)) == str[..t]
  {
    if es != [] {
      var front, e := es[..|es| - 1], es[|es| - 1];
      OldBytes(front, str, e.pos);
      PairsForLast(es, str);
      AppendBytes(PairsFor(front, str), OldPair(e, str));
      OldPairBytes(e, str);
      PrefixSlice(str, e.pos, t);
    }
  }

  lemma {:induction false} ContiguousPart(es: seq<OldEntry>, total: nat, i: nat)
    requires i < |es| && Contiguous(es, total)
    ensures Contiguous(es[..i], es[i].pos) && es[i].pos + OldLen(es[i]) <= total
  {
    if i < |es| - 1 {
      var front := es[..|es| - 1];
      ContiguousPart(front, es[|es| - 1].pos, i);
      assert front[..i] == es[..i];
    }
  }

  // ----- the conversion -----

  /** The new entries of an old one. */
  function Converted(e: OldEntry): Slot {
    Slot(Entry(false, false, e.pos + e.keylen), Entry(false, e.isNull, e.pos + OldLen(e)))
  }

  lemma {:induction false} ConvertedIsSlot(es: seq<OldEntry>, str: string, i: nat, total: nat)
    requires i < |es| && Contiguous(es, total) && total <= |str|
    ensures var ps := PairsFor(es, str); Converted(es[i]) == SlotFor(false, |Bytes(ps[..i])|, ps[i])
  {
    var e, ps := es[i], PairsFor(es, str);
    ContiguousPart(es, total, i);
    OldBytes(es[..i], str, e.pos);
    assert ps[..i] == PairsFor(es[..i], str);
    OldPairBytes(e, str);
  }

  /** Overwrites every old entry with the two new ones. */
  method ConvertEntries(mem: array<char>, hs: HStore, ghost total: nat)
    requires ValidOld(hs, total) && mem[..] == hs.data
    modifies mem
    ensures At(mem[..], 0, SlotsBytes(RawSlots(OldPairs(hs)))) && SameOutside(hs.data, mem[..], 0, 8 * hs.size)
  {
    ghost var ps := OldPairs(hs);
    for i := 0 to hs.size
      invariant At(mem[..], 0, SlotsBytes(RawSlots(ps[..i]))) && SameOutside(hs.data, mem[..], 0, 8 * i)
    {
      SameOld(hs.data, mem[..], i);
      var e := OldAt(mem[..], i);
      ghost var before := mem[..];
      PutBytes(mem, 8 * i, SlotBytes(Converted(e)));
      ConvertedIsSlot(OldEntries(hs), OldArea(hs), i, total);
      NextEntry(before, mem[..], ps, i);
    }
    assert ps[..|ps|] == ps;
  }

  lemma {:induction false} SameOld(a: string, b: string, i: nat)
    requires SameOutside(a, b, 0, 8 * i) && 8 * i + 8 <= |a|
    ensures OldAt(b, i) == OldAt(a, i)
  {
  }

  lemma {:induction false} NextEntry(before: string, after: string, ps: seq<Pair>, i: nat)
    requires i < |ps| && At(before, 0, SlotsBytes(RawSlots(ps[..i])))
    requires At(after, 8 * i, SlotBytes(SlotFor(false, |Bytes(ps[..i])|, ps[i])))
    requires SameOutside(before, after, 8 * i, 8 * i + 8)
    ensures At(after, 0, SlotsBytes(RawSlots(ps[..i + 1])))
  {
    var front := ps[..i];
    TakeMore(ps, i);
    AppendPair(front, ps[i]);
    var slot := SlotBytes(SlotFor(false, |Bytes(front)|, ps[i]));
    JoinBefore(before, before, after, SlotsBytes(RawSlots(front)), slot, 8 * i, 8 * i);
  }

  /** The in-place conversion: the block afterwards is the new form of the pairs the old readers found. */
  method Convert(hs: HStore, ghost total: nat) returns (out: HStore)
    requires Block(hs) && ValidOld(hs, total)
    ensures Storable(OldPairs(hs)) && out == Store(OldPairs(hs))
  {
    ghost var ps := OldPairs(hs);
    OldStrings(hs, total);
    var mem := new char[|hs.data|](i requires 0 <= i < |hs.data| => hs.data[i]);
    assert mem[..] == hs.data;
    ConvertEntries(mem, hs, total);
    AtKept(hs.data, mem[..], 8 * hs.size, Bytes(ps), 0, 8 * hs.size);
    FlagEntry(mem, hs.size, hs.size, ps);
    out := Label(mem, hs.size, ps);
  }

  /** Sets the version flag and the size the last entry implies. */
  method Label(mem: array<char>, count: nat, ghost ps: seq<Pair>) returns (out: HStore)
    requires Storable(ps) && count == |ps| > 0
    requires At(mem[..], 0, SlotsBytes(Slots(ps))) && At(mem[..], 8 * count, Bytes(ps))
    ensures out == Store(ps)
  {
    LastEnd(mem[..], ps);
    var end := SlotAt(mem[..], count - 1).val.pos;
    AtJoin(mem[..], 0, SlotsBytes(Slots(ps)), Bytes(ps));
    AtPrefix(mem[..], SlotsBytes(Slots(ps)) + Bytes(ps));
    out := HStore(HS_FLAG_NEWVERSION + count, 8 + 8 * count + end, mem[..8 * count + end]);
  }

  lemma {:induction false} OldStrings(hs: HStore, total: nat)
    requires Block(hs) && ValidOld(hs, total)
    ensures |OldPairs(hs)| == hs.size && Storable(OldPairs(hs)) && At(hs.data, 8 * hs.size, Bytes(OldPairs(hs)))
  {
    OldBytes(OldEntries(hs), OldArea(hs), total);
    AtTail(hs.data, 8 * hs.size, total);
  }

  lemma {:induction false} AtTail(m: string, k: nat, n: nat)
    requires k + n <= |m|
    ensures At(m, k, m[k..][..n])
  {
  }

  lemma {:induction false} LastEnd(m: string, ps: seq<Pair>)
    requires Storable(ps) && ps != [] && At(m, 0, SlotsBytes(Slots(ps)))
    ensures 8 * |ps| <= |m| && SlotAt(m, |ps| - 1).val.pos == |Bytes(ps)|
  {
    var n := |ps| - 1;
    PackSmall(ps);
    SlotsBytesAt(Slots(ps), n);
    AtWithin(m, SlotsBytes(Slots(ps)), 8 * n, SlotBytes(Slots(ps)[n]));
    SlotRead(m, n, Slots(ps)[n]);
  }

  lemma {:induction false} AtWithin(m: string, s: string, base: nat, p: string)
    requires At(m, 0, s) && At(s, base, p)
    ensures At(m, base, p)
  {
    forall i | 0 <= i < |p| ensures m[base + i] == p[i] {
      assert m[0 + (base + i)] == s[base + i];
    }
  }
}
