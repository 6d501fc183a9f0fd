/** The btree order of hstore values. */
module HstoreCompare {
  import opened Orders
  import opened Hstore
  import opened HstorePacked
  import opened HstoreMemory
  import opened HstoreOps

  /** What the comparison reads of an entry. */
  datatype Mark = Mark(pos: nat, isNull: bool)

  function MarkAt(v: Packed, k: nat): Mark
    requires k < 2 * |v.slots|
  {
    var s := v.slots[k / 2];
    var e := if k % 2 == 0 then s.key else s.val;
    Mark(e.pos, e.isNull)
  }

  function Marks(v: Packed): (ms: seq<Mark>)
    ensures |ms| == 2 * |v.slots|
  {
    seq(2 * |v.slots|, k requires 0 <= k < 2 * |v.slots| => MarkAt(v, k))
  }

  /** Smaller end first; at equal ends a null comes last. */
  function MarkCmp(x: Mark, y: Mark): int {
    if x.pos != y.pos then Sign(x.pos - y.pos)
    else if x.isNull == y.isNull then 0
    else if x.isNull then 1 else -1
  }

  lemma {:induction false} MarkTotal()
    ensures Total(MarkCmp)
  {
  }

  /** The order: string areas, then counts, then entries. */
  function Order(v: Packed, w: Packed): int {
    var d := TextCmp(v.str, w.str);
    if d != 0 then d
    else if |v.slots| != |w.slots| then Sign(|v.slots| - |w.slots|)
    else Lex(Marks(v), Marks(w), MarkCmp)
  }

  lemma {:induction false} MarksDetermine(v: Packed, w: Packed)
    requires Valid(v) && Valid(w) && v.str == w.str && Marks(v) == Marks(w)
    ensures v == w
  {
    forall i | 0 <= i < |v.slots| ensures v.slots[i] == w.slots[i] {
      assert SlotOk(v.slots, i) && SlotOk(w.slots, i);
      assert Marks(v)[2 * i] == MarkAt(v, 2 * i) && Marks(w)[2 * i] == MarkAt(w, 2 * i);
      assert Marks(v)[2 * i + 1] == MarkAt(v, 2 * i + 1) && Marks(w)[2 * i + 1] == MarkAt(w, 2 * i + 1);
    }
    assert v.slots == w.slots;
  }

  /** The comparison is a total order on packed values. */
  lemma {:induction false} OrderTotal(u: Packed, v: Packed, w: Packed)
    requires Valid(u) && Valid(v) && Valid(w)
    ensures Order(u, v) == -Order(v, u)
    ensures Order(u, v) == 0 <==> u == v
    ensures Order(u, v) <= 0 && Order(v, w) <= 0 ==> Order(u, w) <= 0
  {
    TextTotal();
    MarkTotal();
    OrderFlips(u, v);
    OrderZero(u, v);
    if Order(u, v) <= 0 && Order(v, w) <= 0 {
      OrderTransitive(u, v, w);
    }
  }

  lemma {:induction false} OrderFlips(u: Packed, v: Packed)
    requires Total(TextCmp) && Total(MarkCmp)
    ensures Order(u, v) == -Order(v, u)
  {
    assert TextCmp(u.str, v.str) == -TextCmp(v.str, u.str);
    LexFlips(Marks(u), Marks(v), MarkCmp);
  }

  lemma {:induction false} OrderZero(u: Packed, v: Packed)
    requires Valid(u) && Valid(v) && Total(TextCmp) && Total(MarkCmp)
    ensures Order(u, v) == 0 <==> u == v
  {
    assert TextCmp(u.str, v.str) == 0 <==> u.str == v.str;
    LexZero(Marks(u), Marks(v), MarkCmp);
    if Order(u, v) == 0 {
      MarksDetermine(u, v);
    }
  }

  lemma {:induction false} OrderTransitive(u: Packed, v: Packed, w: Packed)
    requires Total(TextCmp) && Total(MarkCmp) && Order(u, v) <= 0 && Order(v, w) <= 0
    ensures Order(u, w) <= 0
  {
    var x, y, z := u.str, v.str, w.str;
    assert TextCmp(x, y) <= 0 && TextCmp(y, z) <= 0 && TextCmp(x, z) <= 0;
    if TextCmp(x, z) == 0 {
      assert TextCmp(z, y) == -TextCmp(y, z) && TextCmp(x, y) == 0;
      if |u.slots| == |w.slots| {
        LexTransitive(Marks(u), Marks(v), Marks(w), MarkCmp);
      }
    }
  }

  /** Of two entries the one that ends earlier comes first, and at equal ends a null comes last. */
  ghost predicate EntryLess(x: Entry, y: Entry) {
    x.pos < y.pos || (x.pos == y.pos && !x.isNull && y.isNull)
  }

  /** The flag of a first entry is not compared. */
  ghost predicate SameEntry(x: Entry, y: Entry) {
    x.pos == y.pos && x.isNull == y.isNull
  }

  /** Pair `i` is the first that differs, in its key or else in its value, and puts `v` first. */
  ghost predicate SlotsDiffer(v: Packed, w: Packed, i: nat) {
    && i < |v.slots| && i < |w.slots|
    && (forall j :: 0 <= j < i ==> SameEntry(v.slots[j].key, w.slots[j].key) && SameEntry(v.slots[j].val, w.slots[j].val))
    && (EntryLess(v.slots[i].key, w.slots[i].key) ||
        (SameEntry(v.slots[i].key, w.slots[i].key) && EntryLess(v.slots[i].val, w.slots[i].val)))
  }

  /** Which order it is: string areas as in a dictionary, then the number of pairs, then the first pair that
      differs. */
  lemma {:induction false} OrderExactly(v: Packed, w: Packed)
    ensures Order(v, w) < 0 <==>
      || TextLess(v.str, w.str)
      || (v.str == w.str && |v.slots| < |w.slots|)
      || (v.str == w.str && |v.slots| == |w.slots| && exists i: nat :: SlotsDiffer(v, w, i))
  {
    TextTotal();
    assert TextCmp(v.str, w.str) == 0 <==> v.str == w.str;
    TextExactly(v.str, w.str);
    if |v.slots| == |w.slots| {
      MarksExactly(v, w);
    }
  }

  predicate MarkLess(x: Mark, y: Mark) {
    MarkCmp(x, y) < 0
  }

  lemma {:induction false} MarksExactly(v: Packed, w: Packed)
    requires |v.slots| == |w.slots|
    ensures Lex(Marks(v), Marks(w), MarkCmp) < 0 <==> exists i: nat :: SlotsDiffer(v, w, i)
  {
    MarkTotal();
    LexExactly(Marks(v), Marks(w), MarkCmp, MarkLess);
    if n: nat :| BeforeAt(Marks(v), Marks(w), n, MarkLess) {
      MarksToSlots(v, w, n);
    }
    if i: nat :| SlotsDiffer(v, w, i) {
      var n := SlotsToMarks(v, w, i);
    }
  }

  lemma {:induction false} SameMarks(v: Packed, w: Packed, j: nat)
    requires j < |v.slots| == |w.slots|
    ensures SameEntry(v.slots[j].key, w.slots[j].key) <==> Marks(v)[2 * j] == Marks(w)[2 * j]
    ensures SameEntry(v.slots[j].val, w.slots[j].val) <==> Marks(v)[2 * j + 1] == Marks(w)[2 * j + 1]
    ensures EntryLess(v.slots[j].key, w.slots[j].key) <==> MarkLess(Marks(v)[2 * j], Marks(w)[2 * j])
    ensures EntryLess(v.slots[j].val, w.slots[j].val) <==> MarkLess(Marks(v)[2 * j + 1], Marks(w)[2 * j + 1])
  {
    assert Marks(v)[2 * j] == MarkAt(v, 2 * j) && Marks(w)[2 * j] == MarkAt(w, 2 * j);
    assert Marks(v)[2 * j + 1] == MarkAt(v, 2 * j + 1) && Marks(w)[2 * j + 1] == MarkAt(w, 2 * j + 1);
  }

  lemma {:induction false} MarksToSlots(v: Packed, w: Packed, n: nat)
    requires |v.slots| == |w.slots| && BeforeAt(Marks(v), Marks(w), n, MarkLess)
    ensures SlotsDiffer(v, w, n / 2)
  {
    var a, b, i := Marks(v), Marks(w), n / 2;
    forall k | 0 <= k < n ensures a[k] == b[k] {
      assert a[..n][k] == b[..n][k];
    }
    forall j | 0 <= j < i
      ensures SameEntry(v.slots[j].key, w.slots[j].key) && SameEntry(v.slots[j].val, w.slots[j].val)
    {
      SameMarks(v, w, j);
    }
    SameMarks(v, w, i);
    assert n == 2 * i || n == 2 * i + 1;
  }

  lemma {:induction false} SlotsToMarks(v: Packed, w: Packed, i: nat) returns (n: nat)
    requires |v.slots| == |w.slots| && SlotsDiffer(v, w, i)
    ensures BeforeAt(Marks(v), Marks(w), n, MarkLess)
  {
    var a, b := Marks(v), Marks(w);
    n := if EntryLess(v.slots[i].key, w.slots[i].key) then 2 * i else 2 * i + 1;
    SameMarks(v, w, i);
    forall k | 0 <= k < n ensures a[k] == b[k] {
      SameMarks(v, w, k / 2);
      assert k == 2 * (k / 2) || k == 2 * (k / 2) + 1;
    }
    assert a[..n] == b[..n];
  }

  /** `hstore_cmp`. */
  method Compare(v: Packed, w: Packed) returns (res: int)
    requires Valid(v) && Valid(w)
    ensures res == Order(v, w)
  {
    var n, m := |v.slots|, |w.slots|;
    if n == 0 || m == 0 {
      EmptyFirst(v, w);
      return if n > 0 then 1 else if m > 0 then -1 else 0;
    }
    var len1, len2 := v.slots[n - 1].val.pos, w.slots[m - 1].val.pos;
    res := MemCmp(v.str, w.str, if len1 < len2 then len1 else len2);
    if res != 0 {
      return;
    }
    if len1 != len2 {
      return if len1 > len2 then 1 else -1;
    } else if n != m {
      return if n > m then 1 else -1;
    }
    res := CompareEntries(v, w);
  }

  /** The loop over the entries: the first differing one decides. */
  method CompareEntries(v: Packed, w: Packed) returns (res: int)
    requires |v.slots| == |w.slots|
    ensures res == Lex(Marks(v), Marks(w), MarkCmp)
  {
    var count, i := 2 * |v.slots|, 0;
    ghost var a, b := Marks(v), Marks(w);
    while i < count && MarkAt(v, i) == MarkAt(w, i)
      invariant 0 <= i <= count && Lex(a, b, MarkCmp) == Lex(a[i..], b[i..], MarkCmp)
    {
      assert a[i..][1..] == a[i + 1..] && b[i..][1..] == b[i + 1..];
      i := i + 1;
    }
    res := if i < count then MarkCmp(MarkAt(v, i), MarkAt(w, i)) else 0;
  }

  lemma {:induction false} EmptyFirst(v: Packed, w: Packed)
    requires Valid(v) && Valid(w) && (v.slots == [] || w.slots == [])
    ensures Order(v, w) == Sign(|v.slots| - |w.slots|)
  {
  }

  /** Two values compare equal exactly if they stand for the same map, and then they are identical. */
  lemma {:induction false} EqualIffSameMap(h1: HStore, h2: HStore)
    requires IsHStore(h1) && IsHStore(h2)
    ensures Order(View(h1), View(h2)) == 0 <==> MapOf(Pairs(h1)) == MapOf(Pairs(h2))
    ensures Order(View(h1), View(h2)) == 0 <==> h1 == h2
  {
    ViewOf(h1);
    ViewOf(h2);
    OrderTotal(View(h1), View(h2), View(h1));
    if MapOf(Pairs(h1)) == MapOf(Pairs(h2)) {
      MapDetermines(Pairs(h1), Pairs(h2));
    }
  }
}
