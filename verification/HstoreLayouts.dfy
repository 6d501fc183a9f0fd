/** What writers of the two older layouts store for a list of pairs: the validity tests accept it exactly if the keys
    are in order of length, and the upgrade keeps the pairs. */
module HstoreLayouts {
  import opened Hstore
  import opened HstorePacked
  import opened HstoreMemory
  import opened HstoreFormats
  import opened HstoreCompat
  import opened HstoreUpgrade
  import opened Options
  import opened Sequences

  ghost predicate LengthsInOrder(ps: seq<Pair>) {
    forall i, j :: 0 <= i < j < |ps| ==> |ps[i].key| <= |ps[j].key|
  }

  lemma {:induction false} CanonicalInOrder(ps: seq<Pair>)
    requires Canonical(ps)
    ensures LengthsInOrder(ps)
  {
    forall i, j | 0 <= i < j < |ps| ensures |ps[i].key| <= |ps[j].key| {
      assert KeyLess(ps[i].key, ps[j].key);
      KeyExactly(ps[i].key, ps[j].key);
    }
  }

  ghost predicate IsBytes(s: string) {
    forall i :: 0 <= i < |s| ==> s[i] as int < 256
  }

  // ----- the old layout -----

  /** The old entry of a pair whose bytes begin at `base`; nothing is stored for the length of a null. */
  function EntryFor(base: nat, p: Pair): OldEntry {
    OldEntry(|p.key|, |ValueBytes(p.val)|, p.val.Null?, base)
  }

  function LengthWord(e: OldEntry): nat {
    e.keylen + 65536 * e.vallen
  }

  function PlaceWord(e: OldEntry): nat {
    2 * e.pos + if e.isNull then 1 else 0
  }

  function EntryWords(e: OldEntry): (b: string)
    ensures |b| == 8
  {
    WordBytes(LengthWord(e)) + WordBytes(PlaceWord(e))
  }

  function OldHead(ps: seq<Pair>): (b: string)
    ensures |b| == 8 * |ps|
  {
    if ps == [] then ""
    else
      var front := ps[..|ps| - 1];
      OldHead(front) + EntryWords(EntryFor(|Bytes(front)|, ps[|ps| - 1]))
  }

  function OldStore(ps: seq<Pair>): HStore {
    HStore(|ps|, 8 + 8 * |ps| + |Bytes(ps)|, OldHead(ps) + Bytes(ps))
  }

  /** Lengths fit 16 bits. */
  ghost predicate ShortStrings(ps: seq<Pair>) {
    forall i :: 0 <= i < |ps| ==> |ps[i].key| < 65536 && |ValueBytes(ps[i].val)| < 65536
  }

  lemma {:induction false} OldHeadAt(ps: seq<Pair>, i: nat)
    requires i < |ps|
    ensures At(OldHead(ps), 8 * i, EntryWords(EntryFor(|Bytes(ps[..i])|, ps[i])))
  {
    var front := ps[..|ps| - 1];
    var last := EntryWords(EntryFor(|Bytes(front)|, ps[|ps| - 1]));
    if i < |front| {
      OldHeadAt(front, i);
      assert front[..i] == ps[..i];
      AtExtended(OldHead(front), last, 8 * i, EntryWords(EntryFor(|Bytes(ps[..i])|, ps[i])));
    } else {
      assert ps[..i] == front;
      AtLast(OldHead(front), last);
    }
  }

  lemma {:induction false} LengthWordParts(e: OldEntry)
    requires e.keylen < 65536 && e.vallen < 65536
    ensures var w := LengthWord(e); w < 0x1_0000_0000 && w % 65536 == e.keylen && w / 65536 == e.vallen
  {
  }

  lemma {:induction false} PlaceWordParts(e: OldEntry)
    requires e.pos < 0x4000_0000
    ensures var w := PlaceWord(e); w < 0x1_0000_0000 && (w % 2 == 1 <==> e.isNull) && w / 2 == e.pos
  {
  }

  lemma {:induction false} WordsRead(m: string, at: nat, v: nat, w: nat)
    requires v < 0x1_0000_0000 && w < 0x1_0000_0000 && at + 8 <= |m| && At(m, at, WordBytes(v) + WordBytes(w))
    ensures WordAt(m, at) == v && WordAt(m, at + 4) == w
  {
    AtParts(m, at, WordBytes(v), WordBytes(w));
    WordRoundTrip(m, at, v);
    WordRoundTrip(m, at + 4, w);
  }

  lemma {:induction false} EntryRead(m: string, i: nat, e: OldEntry)
    requires e.keylen < 65536 && e.vallen < 65536 && e.pos < 0x4000_0000
    requires 8 * i + 8 <= |m| && At(m, 8 * i, EntryWords(e))
    ensures OldAt(m, i) == e
  {
    LengthWordParts(e);
    PlaceWordParts(e);
    WordsRead(m, 8 * i, LengthWord(e), PlaceWord(e));
  }

  lemma {:induction false} OldEntryOf(ps: seq<Pair>, i: nat)
    requires Storable(ps) && ShortStrings(ps) && i < |ps|
    ensures OldAt(OldStore(ps).data, i) == EntryFor(|Bytes(ps[..i])|, ps[i])
  {
    var e := EntryFor(|Bytes(ps[..i])|, ps[i]);
    PrefixBytes(ps, i);
    OldHeadAt(ps, i);
    AtExtended(OldHead(ps), Bytes(ps), 8 * i, EntryWords(e));
    EntryRead(OldStore(ps).data, i, e);
  }

  ghost function EntriesFor(ps: seq<Pair>): (es: seq<OldEntry>)
    ensures |es| == |ps|
  {
    seq(|ps|, i requires 0 <= i < |ps| => EntryFor(|Bytes(ps[..i])|, ps[i]))
  }

  lemma {:induction false} OldStoreEntries(ps: seq<Pair>)
    requires Storable(ps) && ShortStrings(ps)
    ensures OldEntries(OldStore(ps)) == EntriesFor(ps) && OldArea(OldStore(ps)) == Bytes(ps)
  {
    var hs := OldStore(ps);
    forall i | 0 <= i < |ps| ensures OldEntries(hs)[i] == EntriesFor(ps)[i] {
      OldEntryOf(ps, i);
    }
    assert hs.data[8 * |ps|..] == Bytes(ps);
  }

  lemma {:induction false} EntriesContiguous(ps: seq<Pair>)
    ensures Contiguous(EntriesFor(ps), |Bytes(ps)|)
  {
    if ps != [] {
      var n := |ps| - 1;
      EntriesContiguous(ps[..n]);
      EntriesFront(ps, n);
      assert OldLen(EntriesFor(ps)[n]) == |PairBytes(ps[n])|;
    }
  }

  lemma {:induction false} EntriesFront(ps: seq<Pair>, n: nat)
    requires n <= |ps|
    ensures EntriesFor(ps)[..n] == EntriesFor(ps[..n])
  {
    forall i | 0 <= i < n ensures EntriesFor(ps)[i] == EntriesFor(ps[..n])[i] {
      assert ps[..n][..i] == ps[..i];
    }
  }

  /** The test for old values accepts what is stored if and only if no key is shorter than one before it. */
  lemma {:induction false} OldTestExactly(ps: seq<Pair>)
    requires Storable(ps) && ShortStrings(ps) && ps != []
    ensures IsOld(OldStore(ps)) <==> LengthsInOrder(ps)
    ensures LengthsInOrder(ps) ==> ValidOld(OldStore(ps), |Bytes(ps)|)
  {
    var hs := OldStore(ps);
    OldStoreEntries(ps);
    EntriesContiguous(ps);
    SameLengths(ps);
    assert HasEntries(hs);
    if LengthsInOrder(ps) {
      assert ValidOld(hs, |Bytes(ps)|);
    }
    if IsOld(hs) {
      var t :| ValidOld(hs, t);
    }
  }

  lemma {:induction false} SameLengths(ps: seq<Pair>)
    ensures HstoreCompat.KeysGrow(EntriesFor(ps)) <==> LengthsInOrder(ps)
  {
    var es := EntriesFor(ps);
    assert forall i :: 0 <= i < |ps| ==> es[i].keylen == |ps[i].key|;
  }

  /** The old readers find the pairs that were stored. */
  lemma {:induction false} OldRoundTrip(ps: seq<Pair>)
    requires Storable(ps) && ShortStrings(ps)
    ensures OldPairs(OldStore(ps)) == ps
  {
    OldStoreEntries(ps);
    var found := PairsFor(EntriesFor(ps), Bytes(ps));
    forall i | 0 <= i < |ps| ensures found[i] == ps[i] {
      BytesAt(ps, i);
      OldPairAt(Bytes(ps), |Bytes(ps[..i])|, ps[i]);
      assert found[i] == OldPair(EntriesFor(ps)[i], Bytes(ps));
    }
  }

  lemma {:induction false} OldPairAt(str: string, base: nat, p: Pair)
    requires Placed(str, base, p)
    ensures OldPair(EntryFor(base, p), str) == p
  {
    assert |PairBytes(p)| == |p.key| + |ValueBytes(p.val)|;
  }

  // ----- cells are bytes -----

  lemma {:induction false} BytesJoin(a: string, b: string)
    requires IsBytes(a) && IsBytes(b)
    ensures IsBytes(a + b)
  {
  }

  lemma {:induction false} WordIsBytes(w: nat)
    ensures IsBytes(WordBytes(w))
  {
  }

  lemma {:induction false} OldHeadIsBytes(ps: seq<Pair>)
    ensures IsBytes(OldHead(ps))
  {
    if ps != [] {
      var front := ps[..|ps| - 1];
      var e := EntryFor(|Bytes(front)|, ps[|ps| - 1]);
      OldHeadIsBytes(front);
      TwoWordsAreBytes(LengthWord(e), PlaceWord(e));
      BytesJoin(OldHead(front), EntryWords(e));
    }
  }

  lemma {:induction false} TwoWordsAreBytes(v: nat, w: nat)
    ensures IsBytes(WordBytes(v) + WordBytes(w))
  {
    WordIsBytes(v);
    WordIsBytes(w);
    BytesJoin(WordBytes(v), WordBytes(w));
  }

  lemma {:induction false} SlotsAreBytes(ss: seq<Slot>)
    ensures IsBytes(SlotsBytes(ss))
  {
    if ss != [] {
      var s := ss[|ss| - 1];
      SlotsAreBytes(ss[..|ss| - 1]);
      TwoWordsAreBytes(WordOf(s.key), WordOf(s.val));
      BytesJoin(SlotsBytes(ss[..|ss| - 1]), SlotBytes(s));
    }
  }

  /** The upgrade of an old value gives back the pairs it was stored for. */
  lemma {:induction false} OldStoreIsKept(ps: seq<Pair>, writable: bool)
    requires Storable(ps) && ShortStrings(ps) && LengthsInOrder(ps) && ps != [] && IsBytes(Bytes(ps))
    ensures Block(OldStore(ps)) && Found(OldStore(ps), UpgradeOf(OldStore(ps), writable)) == Some(ps)
  {
    var hs := OldStore(ps);
    OldHeadIsBytes(ps);
    BytesJoin(OldHead(ps), Bytes(ps));
    OldTestExactly(ps);
    OldRoundTrip(ps);
    OldEntryOf(ps, 0);
    PrefixBytes(ps, 0);
    OldValuesKept(hs, |Bytes(ps)|, writable);
  }

  // ----- the prerelease layout -----

  /** The present layout without the version flag. */
  function Unflagged(ps: seq<Pair>): HStore {
    HStore(|ps|, 8 + 8 * |ps| + |Bytes(ps)|, SlotsBytes(Slots(ps)) + Bytes(ps))
  }

  lemma {:induction false} UnflaggedReads(ps: seq<Pair>)
    requires Storable(ps)
    ensures Count(Unflagged(ps)) == |ps| && View(Unflagged(ps)) == Pack(ps) && Pairs(Unflagged(ps)) == ps
  {
    PackSmall(ps);
    PackRoundTrip(ps);
    SmallCount(|ps|);
    ImageView(Unflagged(ps), Slots(ps), Bytes(ps));
  }

  lemma {:induction false} SmallCount(n: nat)
    requires n < 0x1000_0000
    ensures n % 0x1000_0000 == n
  {
  }

  lemma {:induction false} UnflaggedEntries(ps: seq<Pair>, i: nat)
    requires Storable(ps) && i < |ps|
    ensures var data := Unflagged(ps).data;
      EntryAt(data, 2 * i) == Slots(ps)[i].key && EntryAt(data, 2 * i + 1) == Slots(ps)[i].val
  {
    PackSmall(ps);
    ImageSlot(Slots(ps), Bytes(ps), i);
  }

  /** The entry before the key of pair `i`. */
  lemma {:induction false} UnflaggedBefore(ps: seq<Pair>, i: nat)
    requires Storable(ps) && 0 < i < |ps|
    ensures EntryAt(Unflagged(ps).data, 2 * i - 1) == Slots(ps)[i - 1].val
  {
    UnflaggedEntries(ps, i - 1);
    assert 2 * i - 1 == 2 * (i - 1) + 1;
  }

  lemma {:induction false} KeyLenFrom(data: string, i: nat, before: nat)
    requires 8 * i + 8 <= |data|
    requires if i == 0 then before == 0 else !EntryAt(data, 2 * i).first && EntryAt(data, 2 * i - 1).pos == before
    ensures KeyLen(data, i) == EntryAt(data, 2 * i).pos - before
  {
  }

  lemma {:induction false} UnflaggedKeyLen(ps: seq<Pair>, i: nat)
    requires Storable(ps) && i < |ps|
    ensures KeyLen(Unflagged(ps).data, i) == |ps[i].key|
  {
    UnflaggedEntries(ps, i);
    SlotOfPair(ps, i);
    PackBefore(ps, i);
    if i > 0 {
      UnflaggedBefore(ps, i);
    }
    KeyLenFrom(Unflagged(ps).data, i, Before(Slots(ps), i));
  }

  lemma {:induction false} UnflaggedFollows(ps: seq<Pair>, i: nat)
    requires Storable(ps) && i < |ps|
    ensures Follows(Unflagged(ps).data, 2 * i + 1) && (i > 0 ==> Follows(Unflagged(ps).data, 2 * i))
  {
    PackSmall(ps);
    assert SlotOk(Slots(ps), i);
    UnflaggedEntries(ps, i);
    if i > 0 {
      UnflaggedBefore(ps, i);
    }
  }

  /** A key is no shorter than the one before it. */
  ghost predicate NoShorter(ps: seq<Pair>, k: nat) {
    1 <= k < |ps| && |ps[k - 1].key| <= |ps[k].key|
  }

  lemma {:induction false} AdjacentInOrder(ps: seq<Pair>, i: nat, j: nat)
    requires i <= j < |ps| && forall k :: 1 <= k < |ps| ==> NoShorter(ps, k)
    ensures |ps[i].key| <= |ps[j].key|
  {
    if i < j {
      AdjacentInOrder(ps, i, j - 1);
      assert NoShorter(ps, j);
    }
  }

  lemma {:induction false} UnflaggedInOrder(ps: seq<Pair>)
    requires Storable(ps)
    ensures InOrder(Unflagged(ps).data, 2 * |ps|)
  {
    forall k | 1 <= k < 2 * |ps| ensures Follows(Unflagged(ps).data, k) {
      UnflaggedFollows(ps, k / 2);
      assert k == 2 * (k / 2) || k == 2 * (k / 2) + 1;
    }
  }

  lemma {:induction false} UnflaggedKeyFollows(ps: seq<Pair>, i: nat)
    requires Storable(ps) && 1 <= i < |ps|
    ensures KeyFollows(Unflagged(ps).data, i) <==> NoShorter(ps, i)
  {
    UnflaggedKeyLen(ps, i - 1);
    UnflaggedKeyLen(ps, i);
    UnflaggedEntries(ps, i);
    SlotOfPair(ps, i);
  }

  lemma {:induction false} UnflaggedKeys(ps: seq<Pair>)
    requires Storable(ps)
    ensures KeysInOrder(Unflagged(ps).data, |ps|) <==> LengthsInOrder(ps)
  {
    var data := Unflagged(ps).data;
    forall i | 1 <= i < |ps| ensures KeyFollows(data, i) <==> NoShorter(ps, i) {
      UnflaggedKeyFollows(ps, i);
    }
    if KeysInOrder(data, |ps|) {
      forall i, j | 0 <= i < j < |ps| ensures |ps[i].key| <= |ps[j].key| {
        AdjacentInOrder(ps, i, j);
      }
    }
    if LengthsInOrder(ps) {
      assert forall i :: 1 <= i < |ps| ==> NoShorter(ps, i);
    }
  }

  lemma {:induction false} UnflaggedEnds(ps: seq<Pair>)
    requires Storable(ps) && ps != []
    ensures EntryAt(Unflagged(ps).data, 0).first && Total(Unflagged(ps).data, |ps|) == |Bytes(ps)|
  {
    var n := |ps| - 1;
    UnflaggedEntries(ps, 0);
    SlotOfPair(ps, 0);
    UnflaggedEntries(ps, n);
    PackBefore(ps, |ps|);
    assert ps[..|ps|] == ps && 2 * |ps| - 1 == 2 * n + 1;
  }

  /** The test for prerelease values accepts what is stored if and only if no key is shorter than one before it. */
  lemma {:induction false} NewTestExactly(ps: seq<Pair>)
    requires Storable(ps) && ps != []
    ensures ValidNew(Unflagged(ps)) <==> LengthsInOrder(ps)
  {
    UnflaggedReads(ps);
    UnflaggedInOrder(ps);
    UnflaggedKeys(ps);
    UnflaggedEnds(ps);
  }

  /** The upgrade of a prerelease value gives back its pairs unless it is long and passes the old test. */
  lemma {:induction false} UnflaggedIsKept(ps: seq<Pair>, writable: bool)
    requires Storable(ps) && LengthsInOrder(ps) && ps != [] && IsBytes(Bytes(ps))
    ensures Block(Unflagged(ps))
    ensures Found(Unflagged(ps), UpgradeOf(Unflagged(ps), writable)) == Some(ps) <==>
            Unflagged(ps).varsize < 32768 || !IsOld(Unflagged(ps))
  {
    var hs := Unflagged(ps);
    SlotsAreBytes(Slots(ps));
    BytesJoin(SlotsBytes(Slots(ps)), Bytes(ps));
    UnflaggedReads(ps);
    NewTestExactly(ps);
    PrereleaseValuesKept(hs, writable);
  }

  // ----- the bytes of a value -----

  function Cells(ns: seq<nat>): string
    requires forall i :: 0 <= i < |ns| ==> ns[i] < 256
  {
    seq(|ns|, i requires 0 <= i < |ns| => ns[i] as char)
  }

  lemma {:induction false} TextSlot()
    ensures SlotBytes(Slot(Entry(true, false, 1), Entry(false, false, 2))) == Cells([1, 0, 0, 128, 2, 0, 0, 0])
  {
    assert WordBytes(0x8000_0001) == Cells([1, 0, 0, 128]);
    assert WordBytes(2) == Cells([2, 0, 0, 0]);
    assert Cells([1, 0, 0, 128]) + Cells([2, 0, 0, 0]) == Cells([1, 0, 0, 128, 2, 0, 0, 0]);
  }

  lemma {:induction false} NullSlot()
    ensures SlotBytes(Slot(Entry(false, false, 3), Entry(false, true, 3))) == Cells([3, 0, 0, 0, 3, 0, 0, 64])
  {
    assert WordBytes(3) == Cells([3, 0, 0, 0]);
    assert WordBytes(0x4000_0003) == Cells([3, 0, 0, 64]);
    assert Cells([3, 0, 0, 0]) + Cells([3, 0, 0, 64]) == Cells([3, 0, 0, 0, 3, 0, 0, 64]);
  }

  lemma {:induction false} ExampleSlots(p: Pair, q: Pair)
    requires p == Pair("a", Text("1")) && q == Pair("b", Null)
    ensures Bytes([p, q]) == "a1b"
    ensures Slots([p, q]) == [Slot(Entry(true, false, 1), Entry(false, false, 2)),
                              Slot(Entry(false, false, 3), Entry(false, true, 3))]
  {
    var ps := [p, q];
    assert ps[..1] == [p] && [p][..0] == [] && ps[..0] == [];
    assert Bytes([p]) == "" + PairBytes(p) == "a1";
    SlotOfPair(ps, 0);
    SlotOfPair(ps, 1);
  }

  lemma {:induction false} TwoSlots(s: Slot, t: Slot)
    ensures SlotsBytes([s, t]) == SlotBytes(s) + SlotBytes(t)
  {
    assert [s, t][..1] == [s] && [s][..0] == [];
    assert SlotsBytes([s]) == "" + SlotBytes(s) == SlotBytes(s);
  }

  /** The value of `a=>1, b=>NULL`, byte by byte. */
  lemma {:induction false} StoreExample()
    ensures Store([Pair("a", Text("1")), Pair("b", Null)]) ==
            HStore(0x8000_0002, 27, Cells([1, 0, 0, 128, 2, 0, 0, 0]) + Cells([3, 0, 0, 0, 3, 0, 0, 64]) + "a1b")
  {
    TextSlot();
    NullSlot();
    ExampleSlots(Pair("a", Text("1")), Pair("b", Null));
    TwoSlots(Slot(Entry(true, false, 1), Entry(false, false, 2)), Slot(Entry(false, false, 3), Entry(false, true, 3)));
  }
}
