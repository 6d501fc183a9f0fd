/** Values in the layout of a prerelease, which lacks the version flag. */
module HstoreFormats {
  import opened HstorePacked
  import opened HstoreMemory

  /** A block in memory: the header gives its size and every cell is a byte. */
  ghost predicate Block(hs: HStore) {
    && hs.varsize == 8 + |hs.data| <= MAXALLOC && hs.size < 0x1_0000_0000
    && forall i :: 0 <= i < |hs.data| ==> hs.data[i] as int < 256
  }

  function EntryAt(data: string, i: nat): Entry
    requires 4 * i + 4 <= |data|
  {
    EntryOf(WordAt(data, 4 * i))
  }

  /** HS_KEYLEN. */
  function KeyLen(data: string, i: nat): int
    requires 8 * i + 8 <= |data|
  {
    var e := EntryAt(data, 2 * i);
    e.pos - if e.first || i == 0 then 0 else EntryAt(data, 2 * i - 1).pos
  }

  /** An entry behind the first is not flagged first and ends no earlier than the one before it. */
  predicate Follows(data: string, i: nat)
    requires 1 <= i && 4 * i + 4 <= |data|
  {
    !EntryAt(data, i).first && EntryAt(data, i - 1).pos <= EntryAt(data, i).pos
  }

  ghost predicate InOrder(data: string, n: nat)
    requires 4 * n <= |data|
  {
    forall i :: 1 <= i < n ==> Follows(data, i)
  }

  /** A key behind the first is not null and no shorter than the one before it. */
  predicate KeyFollows(data: string, i: nat)
    requires 1 <= i && 8 * i + 8 <= |data|
  {
    KeyLen(data, i - 1) <= KeyLen(data, i) && !EntryAt(data, 2 * i).isNull
  }

  ghost predicate KeysInOrder(data: string, n: nat)
    requires 8 * n <= |data|
  {
    forall i :: 1 <= i < n ==> KeyFollows(data, i)
  }

  /** Where the strings of `n` pairs end. */
  function Total(data: string, n: nat): nat
    requires 8 * n <= |data|
  {
    if n == 0 then 0 else EntryAt(data, 2 * n - 1).pos
  }

  /** What the layout promises. */
  ghost predicate ValidNew(hs: HStore) {
    var n := Count(hs);
    n == 0 ||
    (8 * n <= |hs.data| && EntryAt(hs.data, 0).first && InOrder(hs.data, 2 * n) && KeysInOrder(hs.data, n) &&
     8 * n + Total(hs.data, n) <= |hs.data|)
  }

  method EntriesInOrder(data: string, n: nat) returns (ok: bool)
    requires 4 * n <= |data|
    ensures ok <==> InOrder(data, n)
  {
    var i := 1;
    while i < n
      invariant 1 <= i && (i <= n || n == 0) && forall j :: 1 <= j < i ==> j < n && Follows(data, j)
    {
      if !Follows(data, i) { return false; }
      i := i + 1;
    }
    return true;
  }

  method KeysGrow(data: string, n: nat) returns (ok: bool)
    requires 8 * n <= |data|
    ensures ok <==> KeysInOrder(data, n)
  {
    var i := 1;
    while i < n
      invariant 1 <= i && (i <= n || n == 0) && forall j :: 1 <= j < i ==> j < n && KeyFollows(data, j)
    {
      if !KeyFollows(data, i) { return false; }
      i := i + 1;
    }
    return true;
  }

  /** `hstoreValidNewFormat`: 0 for invalid, 1 for valid with slack behind the strings, 2 for exactly valid. */
  method ValidNewFormat(hs: HStore) returns (res: int)
    requires Block(hs) && hs.size < HS_FLAG_NEWVERSION
    ensures res == 0 || res == 1 || res == 2
    ensures res != 0 <==> ValidNew(hs)
    ensures var n := Count(hs);
      n > 0 && res != 0 ==> (res == 2 <==> hs.varsize == 8 + 8 * n + Total(hs.data, n))
  {
    var n := Count(hs);
    if n == 0 { return 2; }
    if 8 * n > |hs.data| { return 0; }
    if !EntryAt(hs.data, 0).first { return 0; }
    var vsize := 8 + 8 * n + Total(hs.data, n);
    if vsize > hs.varsize { return 0; }
    var ordered := EntriesInOrder(hs.data, 2 * n);
    if !ordered { return 0; }
    var grow := KeysGrow(hs.data, n);
    if !grow { return 0; }
    res := if vsize != hs.varsize then 1 else 2;
  }

  /** HS_SETCOUNT and HS_FIXSIZE: the version flag, and the size that the last entry implies. */
  function Relabelled(hs: HStore): HStore
    requires 8 * Count(hs) <= |hs.data| && 8 * Count(hs) + Total(hs.data, Count(hs)) <= |hs.data|
  {
    var n := Count(hs);
    HStore(HS_FLAG_NEWVERSION + n, 8 + 8 * n + Total(hs.data, n), hs.data[..8 * n + Total(hs.data, n)])
  }

  lemma {:induction false} EntriesGrow(data: string, n: nat, i: nat, j: nat)
    requires 4 * n <= |data| && InOrder(data, n) && i <= j < n
    ensures EntryAt(data, i).pos <= EntryAt(data, j).pos
  {
    if i < j {
      EntriesGrow(data, n, i, j - 1);
      assert Follows(data, j);
    }
  }

  lemma {:induction false} FlaggedCount(n: nat)
    requires n < 0x1000_0000
    ensures (HS_FLAG_NEWVERSION + n) % 0x1000_0000 == n
  {
  }

  lemma {:induction false} BytesKept(data: string, m: nat)
    requires m <= |data| && forall i :: 0 <= i < |data| ==> data[i] as int < 256
    ensures forall i :: 0 <= i < m ==> data[..m][i] as int < 256
  {
  }

  /** The shorter block. */
  lemma {:induction false} RelabelledBlock(hs: HStore)
    requires Block(hs) && ValidNew(hs)
    ensures var out := Relabelled(hs);
      Block(out) && out.size >= HS_FLAG_NEWVERSION && Count(out) == Count(hs) && 8 * Count(hs) <= |out.data|
  {
    var n := Count(hs);
    FlaggedCount(n);
    BytesKept(hs.data, 8 * n + Total(hs.data, n));
  }

  /** The string areas and the entries of both. */
  lemma {:induction false} ViewsAgree(hs: HStore)
    requires ValidNew(hs) && 0 < Count(hs)
    ensures var v, w, n := View(hs), View(Relabelled(hs)), Count(hs);
      |v.slots| == |w.slots| == n && Total(hs.data, n) <= |v.str| && w.str == v.str[..Total(hs.data, n)] &&
      forall i :: 0 <= i < n ==> w.slots[i] == v.slots[i]
  {
    var v, w, n := View(hs), View(Relabelled(hs)), Count(hs);
    FlaggedCount(n);
    CutTail(hs.data, 8 * n, Total(hs.data, n));
    forall i | 0 <= i < n ensures w.slots[i] == v.slots[i] {
      SlotKept(hs.data, 8 * n + Total(hs.data, n), i);
    }
  }

  lemma {:induction false} CutTail(data: string, a: nat, b: nat)
    requires a + b <= |data|
    ensures data[..a + b][a..] == data[a..][..b]
  {
  }

  lemma {:induction false} SlotKept(data: string, m: nat, i: nat)
    requires 8 * i + 8 <= m <= |data|
    ensures SlotAt(data[..m], i) == SlotAt(data, i)
  {
  }

  lemma {:induction false} SlotPositions(hs: HStore, i: nat)
    requires ValidNew(hs) && i < Count(hs)
    ensures var s := SlotAt(hs.data, i); s.key.pos <= s.val.pos <= Total(hs.data, Count(hs))
  {
    var n := Count(hs);
    EntriesGrow(hs.data, 2 * n, 2 * i, 2 * i + 1);
    EntriesGrow(hs.data, 2 * n, 2 * i + 1, 2 * n - 1);
    assert SlotAt(hs.data, i) == Slot(EntryAt(hs.data, 2 * i), EntryAt(hs.data, 2 * i + 1));
  }

  lemma {:induction false} SliceKept(s: string, m: nat, a: nat, b: nat)
    requires b <= m <= |s|
    ensures Slice(s[..m], a, b) == Slice(s, a, b)
  {
  }

  lemma {:induction false} PairKept(v: Packed, w: Packed, m: nat, i: nat)
    requires v.slots == w.slots && i < |v.slots| && m <= |v.str| && w.str == v.str[..m]
    requires v.slots[i].key.pos <= m && v.slots[i].val.pos <= m
    ensures PairAt(w, i) == PairAt(v, i)
  {
    SliceKept(v.str, m, KeyOff(v.slots, i), v.slots[i].key.pos);
    SliceKept(v.str, m, ValOff(v.slots, i), v.slots[i].val.pos);
  }

  /** Cutting off what lies behind the strings changes no pair. */
  lemma {:induction false} RelabelKeeps(hs: HStore)
    requires Block(hs) && ValidNew(hs)
    ensures var out := Relabelled(hs); Pairs(out) == Pairs(hs) && Block(out) && out.size >= HS_FLAG_NEWVERSION
  {
    RelabelledBlock(hs);
    var v, w, n := View(hs), View(Relabelled(hs)), Count(hs);
    if n > 0 {
      ViewsAgree(hs);
      assert w.slots == v.slots;
      forall i | 0 <= i < n ensures PairAt(w, i) == PairAt(v, i) {
        SlotPositions(hs, i);
        PairKept(v, w, Total(hs.data, n), i);
      }
      assert PairsOf(w) == PairsOf(v);
    }
  }
}
