/** `hstoreUpgrade`: which values of older versions keep their pairs. */
module HstoreUpgrade {
  import opened Hstore
  import opened HstorePacked
  import opened HstoreMemory
  import opened HstoreFormats
  import opened HstoreCompat
  import opened Options

  /** The test that returns a value as it is: the version flag, no entries, or a short value whose first
      word carries the flag of a first entry. */
  predicate TakenAsIs(hs: HStore) {
    || hs.size >= HS_FLAG_NEWVERSION || hs.size == 0
    || (hs.varsize < 32768 && |hs.data| >= 4 && WordAt(hs.data, 0) >= HENTRY_ISFIRST)
  }

  datatype Upgraded = AsIs | AsNew(hs: HStore) | FromOld(hs: HStore) | Refused

  /** The value passes the test for the old format. */
  ghost predicate IsOld(hs: HStore) {
    exists t :: ValidOld(hs, t)
  }

  /** A value that passes both tests is resolved as old; only a writable copy of a prerelease value gets the
      version flag. */
  ghost function UpgradeOf(hs: HStore, writable: bool): Upgraded {
    if TakenAsIs(hs) then AsIs
    else if IsOld(hs) then FromOld(Store(OldPairs(hs)))
    else if !ValidNew(hs) then Refused
    else AsNew(if writable then Relabelled(hs) else hs)
  }

  method Upgrade(hs: HStore, writable: bool) returns (r: Upgraded)
    requires Block(hs)
    ensures r == UpgradeOf(hs, writable)
  {
    if TakenAsIs(hs) {
      return AsIs;
    }
    var validNew := ValidNewFormat(hs);
    var validOld, total := ValidOldFormat(hs);
    if validOld == 0 {
      if validNew == 0 { return Refused; }
      return AsNew(if writable then Relabelled(hs) else hs);
    }
    var out := Convert(hs, total);
    return FromOld(out);
  }

  /** The pairs that the reader macros find afterwards. */
  ghost function Found(hs: HStore, r: Upgraded): Option<seq<Pair>> {
    match r
    case AsIs => Some(Pairs(hs))
    case AsNew(out) => Some(Pairs(out))
    case FromOld(out) => Some(Pairs(out))
    case Refused => None
  }

  /** Conversion gives the pairs of the old readers and relabelling keeps those of the new ones; what was changed
      is returned as it is when it comes again. */
  lemma {:induction false} UpgradeFinds(hs: HStore, writable: bool)
    requires Block(hs)
    ensures var r := UpgradeOf(hs, writable);
      && (r.FromOld? ==> Found(hs, r) == Some(OldPairs(hs)))
      && (r.AsNew? ==> Found(hs, r) == Some(Pairs(hs)))
      && (r.FromOld? || (r.AsNew? && writable) ==> TakenAsIs(r.hs))
  {
    if !TakenAsIs(hs) && IsOld(hs) {
      var t :| ValidOld(hs, t);
      OldStrings(hs, t);
      StoreRoundTrip(OldPairs(hs));
    } else if !TakenAsIs(hs) && ValidNew(hs) {
      RelabelKeeps(hs);
    }
  }

  /** An old value is taken as it is exactly if it is short and the length stored for its first value has
      the top bit set, which a short value can only have behind a null; the new readers then lose the
      null. So the upgrade keeps the pairs of exactly the other old values. */
  lemma {:induction false} AsIsExactly(hs: HStore, total: nat)
    requires Block(hs) && ValidOld(hs, total)
    ensures TakenAsIs(hs) <==> hs.varsize < 32768 && OldAt(hs.data, 0).vallen >= 32768
    ensures TakenAsIs(hs) ==> OldAt(hs.data, 0).isNull && Pairs(hs) != OldPairs(hs)
  {
    var e := OldAt(hs.data, 0);
    assert OldEntries(hs)[0] == e;
    ContiguousPart(OldEntries(hs), total, 0);
    FirstWords(hs.data);
    if TakenAsIs(hs) {
      NullLost(hs);
    }
  }

  /** The first entry read both ways. */
  lemma {:induction false} FirstWords(data: string)
    requires |data| >= 8
    ensures var e := OldAt(data, 0);
      && (WordAt(data, 0) >= HENTRY_ISFIRST <==> e.vallen >= 32768)
      && (e.isNull && e.pos == 0 ==> WordAt(data, 4) == 1)
  {
    var w, at := WordAt(data, 0), WordAt(data, 4);
    assert w == 65536 * (w / 65536) + w % 65536;
    assert at == 2 * (at / 2) + at % 2;
  }

  lemma {:induction false} NullLost(hs: HStore)
    requires 0 < hs.size && HasEntries(hs) && WordAt(hs.data, 4) == 1 && OldAt(hs.data, 0).isNull
    ensures Pairs(hs) != OldPairs(hs)
  {
    var v := View(hs);
    assert v.slots[0] == SlotAt(hs.data, 0) && EntryOf(1) == Entry(false, false, 1);
    assert Pairs(hs)[0].val.Text? && OldPairs(hs)[0].val.Null?;
  }

  /** One pair, key "a", null, with the length 32768 stored for the null. */
  function LongNull(): HStore {
    HStore(1, 17, [1 as char, 0 as char, 0 as char, 128 as char, 1 as char, 0 as char, 0 as char, 0 as char, 'a'])
  }

  lemma {:induction false} LongNullIsMisread()
    ensures Block(LongNull()) && ValidOld(LongNull(), 1) && OldPairs(LongNull()) == [Pair("a", Null)]
    ensures TakenAsIs(LongNull()) && Pairs(LongNull()) == [Pair("a", Text(""))]
  {
    var hs := LongNull();
    var e := OldEntry(1, 32768, true, 0);
    assert WordAt(hs.data, 0) == 0x8000_0001 && WordAt(hs.data, 4) == 1;
    assert OldAt(hs.data, 0) == e;
    assert OldEntries(hs) == [e] && [e][..0] == [];
    assert OldArea(hs) == "a" && "a"[0..1] == "a";
    assert OldPair(e, "a") == Pair("a", Null);
    LongNullView();
  }

  lemma {:induction false} LongNullView()
    ensures Pairs(LongNull()) == [Pair("a", Text(""))]
  {
    var hs := LongNull();
    assert WordAt(hs.data, 0) == 0x8000_0001 && WordAt(hs.data, 4) == 1;
    var slot := Slot(Entry(true, false, 1), Entry(false, false, 1));
    assert EntryOf(0x8000_0001) == slot.key && EntryOf(1) == slot.val;
    assert SlotAt(hs.data, 0) == slot;
    var v := View(hs);
    assert v.slots == [slot] && v.str == "a" && "a"[0..1] == "a" && "a"[1..1] == "";
    assert PairAt(v, 0) == Pair("a", Text(""));
  }

  /** So the upgrade keeps the pairs of an old value if and only if it is long or the length stored for its first
      value is below 32768. */
  lemma {:induction false} OldValuesKept(hs: HStore, total: nat, writable: bool)
    requires Block(hs) && ValidOld(hs, total)
    ensures Found(hs, UpgradeOf(hs, writable)) == Some(OldPairs(hs)) <==>
            hs.varsize >= 32768 || OldAt(hs.data, 0).vallen < 32768
  {
    assert IsOld(hs);
    AsIsExactly(hs, total);
    UpgradeFinds(hs, writable);
  }

  // ----- values in both formats -----

  /** The readers of the two formats never agree on a value that passes both tests: the old one finds a null or a
      string of 32768 bytes or more where the new one finds at most one byte. */
  lemma {:induction false} FormatsDisagree(hs: HStore, total: nat)
    requires Block(hs) && ValidNew(hs) && ValidOld(hs, total)
    ensures Pairs(hs) != OldPairs(hs)
  {
    var e := OldAt(hs.data, 0);
    assert OldEntries(hs)[0] == e;
    ContiguousPart(OldEntries(hs), total, 0);
    FirstWords(hs.data);
    FlaggedWord(WordAt(hs.data, 0));
    ShortFirstValue(hs);
    assert OldPairs(hs)[0] == OldPair(e, OldArea(hs));
    assert e.isNull || |OldPairs(hs)[0].val.s| == e.vallen;
  }

  lemma {:induction false} FlaggedWord(w: nat)
    requires w < 0x1_0000_0000 && EntryOf(w).first
    ensures w >= HENTRY_ISFIRST
  {
  }

  lemma {:induction false} ShortFirstValue(hs: HStore)
    requires ValidNew(hs) && 0 < hs.size && HasEntries(hs) && WordAt(hs.data, 4) <= 1
    ensures |Pairs(hs)| > 0 && Pairs(hs)[0].val.Text? && |Pairs(hs)[0].val.s| <= 1
  {
    var v := View(hs);
    var w := WordAt(hs.data, 4);
    assert EntryOf(w) == Entry(false, false, w);
    assert v.slots[0] == SlotAt(hs.data, 0) && Pairs(hs)[0] == PairAt(v, 0);
  }

  /** The upgrade keeps the pairs of a prerelease value if and only if it is short or does not pass the test for
      the old format as well. */
  lemma {:induction false} PrereleaseValuesKept(hs: HStore, writable: bool)
    requires Block(hs) && hs.size < HS_FLAG_NEWVERSION && ValidNew(hs)
    ensures Found(hs, UpgradeOf(hs, writable)) == Some(Pairs(hs)) <==> hs.varsize < 32768 || !IsOld(hs)
  {
    if IsOld(hs) {
      var t :| ValidOld(hs, t);
      ShortIsTaken(hs);
      FormatsDisagree(hs, t);
      UpgradeFinds(hs, writable);
    } else {
      UpgradeFinds(hs, writable);
    }
  }

  lemma {:induction false} ShortIsTaken(hs: HStore)
    requires Block(hs) && 0 < hs.size < HS_FLAG_NEWVERSION && HasEntries(hs) && ValidNew(hs)
    ensures TakenAsIs(hs) <==> hs.varsize < 32768
  {
    FlaggedWord(WordAt(hs.data, 0));
  }

  /** Two pairs, an empty key with an empty value and a key of one byte with a value of 65535. */
  function Ambiguous(str: string): HStore {
    var zero, one, top := 0 as char, 1 as char, 128 as char;
    var head := [zero, zero, zero, top, zero, zero, zero, zero, one, zero, zero, zero, zero, zero, one, zero];
    HStore(2, 65560, head + str)
  }

  lemma {:induction false} AmbiguousWords(str: string)
    ensures var data := Ambiguous(str).data;
      && |data| == 16 + |str| && data[16..] == str
      && WordAt(data, 0) == 0x8000_0000 && WordAt(data, 4) == 0 && WordAt(data, 8) == 1 && WordAt(data, 12) == 65536
  {
  }

  lemma {:induction false} AmbiguousIsNew(str: string)
    requires |str| == 65536
    ensures var hs := Ambiguous(str); ValidNew(hs) && Total(hs.data, 2) == |str| && hs.varsize == 8 + 8 * 2 + |str|
  {
    var data := Ambiguous(str).data;
    AmbiguousWords(str);
    assert EntryAt(data, 0) == Entry(true, false, 0) && EntryAt(data, 1) == Entry(false, false, 0);
    assert EntryAt(data, 2) == Entry(false, false, 1) && EntryAt(data, 3) == Entry(false, false, 65536);
    forall i | 1 <= i < 4 ensures Follows(data, i) {
      assert i == 1 || i == 2 || i == 3;
    }
    assert KeyLen(data, 0) == 0 && KeyLen(data, 1) == 1;
    assert KeysInOrder(data, 2);
  }

  lemma {:induction false} AmbiguousIsBlock(str: string)
    requires |str| == 65536 && forall i :: 0 <= i < |str| ==> str[i] as int < 256
    ensures Block(Ambiguous(str))
  {
    var data := Ambiguous(str).data;
    forall i | 0 <= i < |data| ensures data[i] as int < 256 {
      assert i >= 16 ==> data[i] == str[i - 16];
    }
  }

  lemma {:induction false} AmbiguousIsOld(str: string)
    requires |str| == 65536
    ensures ValidOld(Ambiguous(str), 32769)
  {
    var hs := Ambiguous(str);
    AmbiguousWords(str);
    var d, e := OldEntry(0, 32768, false, 0), OldEntry(1, 0, false, 32768);
    assert OldAt(hs.data, 0) == d && OldAt(hs.data, 1) == e;
    assert OldEntries(hs) == [d, e] && [d, e][..1] == [d] && [d][..0] == [];
    assert Contiguous([d], 32768);
  }

  /** It is exactly valid as a prerelease value, converted as an old one, and its pairs are lost. */
  lemma {:induction false} AmbiguousIsMisread(str: string, writable: bool)
    requires |str| == 65536 && forall i :: 0 <= i < |str| ==> str[i] as int < 256
    ensures var hs := Ambiguous(str);
      Block(hs) && ValidNew(hs) && UpgradeOf(hs, writable).FromOld? && Found(hs, UpgradeOf(hs, writable)) != Some(Pairs(hs))
  {
    AmbiguousIsBlock(str);
    AmbiguousIsNew(str);
    AmbiguousIsOld(str);
    assert IsOld(Ambiguous(str));
    PrereleaseValuesKept(Ambiguous(str), writable);
  }
}
