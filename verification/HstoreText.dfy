/** Text input and output of hstore values. */
module HstoreText {
  import opened Hstore
  import opened HstorePacked
  import opened HstoreMemory
  import opened HstoreBuild
  import opened HstoreOps
  import opened HstoreUnique
  import opened HstoreSyntax
  import opened Sequences

  // ----- input -----

  predicate NoNul(s: string) {
    forall i :: 0 <= i < |s| ==> s[i] != '\0'
  }

  /** A size after `k` doublings. */
  ghost function Doubled(start: nat, k: nat): nat {
    if k == 0 then start else 2 * Doubled(start, k - 1)
  }

  lemma {:induction false} DoubledGrows(start: nat, k: nat, m: nat)
    requires k <= m
    ensures Doubled(start, k) <= Doubled(start, m)
  {
    if k < m {
      DoubledGrows(start, k, m - 1);
    }
  }

  lemma {:induction false} FourTimes(start: nat, k: nat)
    ensures Doubled(start, k + 4) == 16 * Doubled(start, k)
  {
    assert Doubled(start, k + 4) == 2 * Doubled(start, k + 3);
    assert Doubled(start, k + 3) == 2 * Doubled(start, k + 2);
    assert Doubled(start, k + 2) == 2 * Doubled(start, k + 1);
  }

  /** The last sizes of the two buffers: the next ones exceed an allocation, all before do not. */
  lemma {:induction false} LastSizes(w: nat, p: nat)
    ensures Doubled(32, 24) == MAX_WORD + 1 && Doubled(16, 20) == MAX_PAIRS
    ensures Doubled(32, w) >= 32 && Doubled(16, p) >= 16
    ensures w < 24 ==> 2 * Doubled(32, w) <= MAX_WORD + 1
    ensures p < 20 ==> 2 * Doubled(16, p) <= MAX_PAIRS
  {
    assert Doubled(32, 0) == 32 && Doubled(16, 0) == 16;
    FourTimes(32, 0);
    FourTimes(32, 4);
    FourTimes(32, 8);
    FourTimes(32, 12);
    FourTimes(32, 16);
    FourTimes(32, 20);
    FourTimes(16, 0);
    FourTimes(16, 4);
    FourTimes(16, 8);
    FourTimes(16, 12);
    FourTimes(16, 16);
    DoubledGrows(32, 0, w);
    DoubledGrows(16, 0, p);
    if w < 24 {
      DoubledGrows(32, w + 1, 24);
    }
    if p < 20 {
      DoubledGrows(16, p + 1, 20);
    }
  }

  datatype ValResult = Word(escaped: bool) | EndOfText | Failed(error: Error)

  /** The parser's state; `begin` is the text without its terminating zero byte. */
  class HSParser {
    const begin: string
    var ptr: nat
    var word: string
    var wordlen: nat
    var pairs: seq<Pair>
    var plen: nat
    ghost var wordGrown: nat
    ghost var pairsGrown: nat

    constructor (begin: string)
      requires NoNul(begin)
      ensures Valid() && this.begin == begin && ptr == 0 && pairs == []
    {
      this.begin, ptr, word, wordlen, pairs, plen := begin, 0, "", 32, [], 16;
      wordGrown, pairsGrown := 0, 0;
    }

    ghost predicate Valid()
      reads this
    {
      && NoNul(begin) && ptr <= |begin|
      && |word| < wordlen == Doubled(32, wordGrown) && wordGrown <= 24
      && |pairs| <= plen == Doubled(16, pairsGrown) && pairsGrown <= 20
    }

    /** RESIZEPRSBUF and the store behind it. */
    method Push(c: char) returns (ok: bool)
      requires Valid()
      modifies this`word, this`wordlen, this`wordGrown
      ensures ok <==> |old(word)| < MAX_WORD
      ensures ok ==> Valid() && word == old(word) + [c]
    {
      LastSizes(wordGrown, 0);
      if |word| + 1 >= wordlen {
        if 2 * wordlen > MAXALLOC {
          return false;
        }
        wordlen, wordGrown := 2 * wordlen, wordGrown + 1;
      }
      word := word + [c];
      return true;
    }

    /** Room for one more pair. */
    method Grow() returns (ok: bool)
      requires Valid()
      modifies this`plen, this`pairsGrown
      ensures ok <==> |pairs| < MAX_PAIRS
      ensures ok ==> Valid() && |pairs| < plen
    {
      LastSizes(0, pairsGrown);
      if |pairs| >= plen {
        if PAIR_SIZE * (2 * plen) > MAXALLOC {
          return false;
        }
        plen, pairsGrown := 2 * plen, pairsGrown + 1;
      }
      return true;
    }

    function Cur(): (c: char)
      requires Valid()
      reads this
      ensures c == '\0' <==> ptr == |begin|
      ensures ptr < |begin| ==> c == begin[ptr]
    {
      if ptr < |begin| then begin[ptr] else '\0'
    }

    /** Reading one character of the text still to come. */
    lemma Ahead()
      requires Valid()
      ensures ptr == |begin| ==> begin[ptr..] == ""
      ensures ptr < |begin| ==> begin[ptr..] != "" && begin[ptr..][0] == begin[ptr] && begin[ptr..][1..] == begin[ptr + 1..]
    {
    }

    /** What the scanner still has to do from its current state. */
    ghost function Todo(st: Scan, ignoreeq: bool): Got
      requires Valid()
      reads this
    {
      Run(st, begin[ptr..], ignoreeq, word)
    }

    /** How a scan ends: `ptr` is left at the last character taken. */
    ghost predicate Ends(g: Got, res: ValResult)
      reads this
    {
      match g
      case NoWord => res.EndOfText?
      case Bad(e) => res == Failed(e)
      case Got(w, escaped, rest) =>
        res == Word(escaped) && Valid() && word == w && ptr < |begin| && begin[ptr + 1..] == rest
    }

    ghost predicate Scanning(st: Scan)
      reads this
    {
      Valid() && if st == WaitVal then word == "" else ptr > 0
    }

    /** One turn of the loop of `get_val`. */
    method Step(st: Scan, ignoreeq: bool) returns (over: bool, next: Scan, res: ValResult)
      requires Scanning(st)
      modifies this`ptr, this`word, this`wordlen, this`wordGrown
      ensures over ==> Ends(old(Todo(st, ignoreeq)), res)
      ensures !over ==> Scanning(next) && ptr == old(ptr) + 1 && Todo(next, ignoreeq) == old(Todo(st, ignoreeq))
    {
      Ahead();
      var c := Cur();
      over, next, res := true, st, Failed(UnexpectedEnd);
      match st {
        case WaitVal =>
          if c == '"' {
            next := InEscVal;
          } else if c == '\0' {
            return true, next, EndOfText;
          } else if c == '=' && !ignoreeq {
            return true, next, Failed(SyntaxError);
          } else if c == '\\' {
            next := WaitEscIn;
          } else if !IsSpace(c) {
            LastSizes(wordGrown, 0);
            word := word + [c];
            next := InVal;
          }
        case InVal =>
          if c == '\\' {
            next := WaitEscIn;
          } else if (c == '=' && !ignoreeq) || (c == ',' && ignoreeq) || c == '\0' {
            ptr := ptr - 1;
            return true, next, Word(false);
          } else if IsSpace(c) {
            return true, next, Word(false);
          } else {
            var ok := Push(c);
            if !ok { return true, next, Failed(OutOfMemory); }
          }
        case InEscVal =>
          if c == '\\' {
            next := WaitEscEscIn;
          } else if c == '"' {
            return true, next, Word(true);
          } else if c == '\0' {
            return;
          } else {
            var ok := Push(c);
            if !ok { return true, next, Failed(OutOfMemory); }
          }
        case WaitEscIn =>
          if c == '\0' { return; }
          var ok := Push(c);
          if !ok { return true, next, Failed(OutOfMemory); }
          next := InVal;
        case WaitEscEscIn =>
          if c == '\0' { return; }
          var ok := Push(c);
          if !ok { return true, next, Failed(OutOfMemory); }
          next := InEscVal;
      }
      ptr, over := ptr + 1, false;
    }

    /** `get_val`. */
    method GetVal(ignoreeq: bool) returns (res: ValResult)
      requires Valid()
      modifies this`ptr, this`word, this`wordlen, this`wordGrown
      ensures Ends(Run(WaitVal, begin[old(ptr)..], ignoreeq, ""), res)
    {
      word, wordlen, wordGrown := "", 32, 0;
      var st, over := WaitVal, false;
      res := EndOfText;
      while !over
        invariant !over ==> Scanning(st) && Run(WaitVal, begin[old(ptr)..], ignoreeq, "") == Todo(st, ignoreeq)
        invariant over ==> Ends(Run(WaitVal, begin[old(ptr)..], ignoreeq, ""), res)
        decreases !over, |begin| - ptr
      {
        over, st, res := Step(st, ignoreeq);
      }
    }

    /** State WKEY: the text that follows is read as the end, an error or a key. */
    method TakeKey() returns (over: bool, res: Parse)
      requires Valid()
      modifies this`ptr, this`word, this`wordlen, this`plen, this`wordGrown, this`pairsGrown
      ensures var r := Read(WKey, begin[old(ptr)..], "", pairs);
        if over then r == res
        else Valid() && |pairs| < plen && old(ptr) <= ptr < |begin| && r == Read(WEq, begin[ptr + 1..], word, pairs)
    {
      over, res := true, Accept(pairs);
      var r := GetVal(false);
      match r
      case EndOfText =>
      case Failed(e) => res := Fail(e);
      case Word(_) =>
        var ok := Grow();
        if !ok {
          res := Fail(OutOfMemory);
        } else if |word| > MAX_LEN {
          res := Fail(TooLong);
        } else {
          over := false;
        }
    }

    /** State WVAL. */
    method TakeVal(key: string) returns (over: bool, res: Parse)
      requires Valid() && |pairs| < plen
      modifies this`ptr, this`word, this`wordlen, this`pairs, this`wordGrown
      ensures var r := Read(WVal, begin[old(ptr)..], key, old(pairs));
        if over then r == res
        else Valid() && old(ptr) <= ptr < |begin| && r == Read(WDel, begin[ptr + 1..], "", pairs)
    {
      over, res := true, Fail(UnexpectedEnd);
      var r := GetVal(true);
      match r
      case EndOfText =>
      case Failed(e) => res := Fail(e);
      case Word(escaped) =>
        if |word| > MAX_LEN {
          res := Fail(TooLong);
        } else {
          pairs := pairs + [Pair(key, if SpellsNull(word, escaped) then Null else Text(word))];
          over := false;
        }
    }

    /** The states that look at one character only. */
    method TakeMark(st: Phase, key: string) returns (over: bool, next: Phase, res: Parse)
      requires Valid() && (st == WEq || st == WGt || (st == WDel && key == ""))
      ensures over ==> Read(st, begin[ptr..], key, pairs) == res
      ensures !over ==> ptr < |begin| && Read(st, begin[ptr..], key, pairs) == Read(next, begin[ptr + 1..], key, pairs)
      ensures !over ==>
        next == st || (st == WEq && next == WGt) || (st == WGt && next == WVal) || (st == WDel && next == WKey)
    {
      Ahead();
      var c := Cur();
      over, next, res := false, st, Fail(SyntaxError);
      if c == '\0' {
        over, res := true, if st == WDel then Accept(pairs) else Fail(UnexpectedEnd);
      } else if st == WEq && c == '=' {
        next := WGt;
      } else if st == WGt && c == '>' {
        next := WVal;
      } else if st == WDel && c == ',' {
        next := WKey;
      } else {
        over := st == WGt || !IsSpace(c);
      }
    }

    /** `parse_hstore`. */
    method ParseHstore() returns (res: Parse)
      requires Valid() && ptr == 0 && pairs == []
      modifies this
      ensures res == Read(WKey, begin, "", [])
    {
      plen, pairsGrown := 16, 0;
      var st, key, over := WKey, "", false;
      assert begin[0..] == begin;
      while true
        invariant Valid() && (if st == WKey || st == WDel then key == "" else |pairs| < plen)
        invariant Read(WKey, begin, "", []) == Read(st, begin[ptr..], key, pairs)
        decreases |begin| - ptr
      {
        if st == WKey {
          over, res := TakeKey();
          if over { return; }
          key, st := word, WEq;
        } else if st == WVal {
          over, res := TakeVal(key);
          if over { return; }
          key, st := "", WDel;
        } else {
          over, st, res := TakeMark(st, key);
          if over { return; }
        }
        ptr := ptr + 1;
      }
    }
  }

  datatype Input = Malformed(error: Error) | TooLarge | Value(hs: HStore)

  /** One pair for every key, in order of keys, each of them given. */
  ghost predicate Chosen(ps: seq<Pair>, given: seq<Pair>) {
    Canonical(ps) && Keys(ps) == Keys(given) && forall i :: 0 <= i < |ps| ==> ps[i] in given
  }

  /** `hstore_in`. */
  method HstoreIn(begin: string) returns (out: Input)
    requires NoNul(begin)
    ensures out != Malformed(TooLong)
    ensures match Read(WKey, begin, "", [])
      case Fail(e) => out == Malformed(e)
      case Accept(given) =>
        exists ps :: Chosen(ps, given) && out == if Storable(ps) then Value(Store(ps)) else TooLarge
  {
    NeverTooLong(WKey, begin, "", []);
    var parser := new HSParser(begin);
    var parsed := parser.ParseHstore();
    match parsed
    case Fail(e) =>
      out := Malformed(e);
    case Accept(given) =>
      ghost var ps;
      out, ps := BuildFrom(given);
  }

  /** The last two steps of every input function: sort and drop repeated keys, then pack. */
  method BuildFrom(given: seq<Pair>) returns (out: Input, ghost ps: seq<Pair>)
    ensures Chosen(ps, given) && out == if Storable(ps) then Value(Store(ps)) else TooLarge
  {
    var a := new Raw[|given|](i requires 0 <= i < |given| => Raw(given[i], true));
    ghost var raw := a[..];
    assert PairsIn(raw) == given;
    var n, buflen := UniquePairs(a);
    ps := PairsIn(a[..n]);
    ChosenFrom(a[..n], raw, given);
    var qs := TakePairs(a, n);
    var packed := HstorePairs(qs, buflen);
    out := if packed.Some? then Value(packed.value) else TooLarge;
  }

  lemma {:induction false} ChosenFrom(f: seq<Raw>, raw: seq<Raw>, given: seq<Pair>)
    requires Canonical(PairsIn(f)) && From(f, raw) && Covers(f, raw) && PairsIn(raw) == given
    ensures Chosen(PairsIn(f), given)
  {
    UniqueKeys(f, raw);
    var ps := PairsIn(f);
    forall i | 0 <= i < |ps| ensures ps[i] in given {
      var j :| 0 <= j < |raw| && raw[j] == f[i];
      assert given[j] == ps[i];
    }
  }

  /** Pairs with different keys in order are chosen in only one way. */
  lemma {:induction false} OneChoice(ps: seq<Pair>, given: seq<Pair>)
    requires Canonical(given) && Chosen(ps, given)
    ensures ps == given
  {
    MapKeys(ps);
    MapKeys(given);
    forall k | k in MapOf(ps) ensures MapOf(given)[k] == MapOf(ps)[k] {
      MapHas(ps, k, MapOf(ps)[k]);
      MapHas(given, k, MapOf(ps)[k]);
    }
    assert MapOf(ps) == MapOf(given);
    MapDetermines(ps, given);
  }

  // ----- output -----

  function Escape(s: string): string {
    if s == "" then ""
    else (if NeedsEscape(s[0]) then ['\\', s[0]] else [s[0]]) + Escape(s[1..])
  }

  function ValueText(v: Value): string {
    if v.Null? then "NULL" else "\"" + (Escape(v.s) + "\"")
  }

  function PairText(p: Pair): string {
    "\"" + (Escape(p.key) + ("\"" + ("=>" + ValueText(p.val))))
  }

  function Print(ps: seq<Pair>): string {
    if ps == [] then ""
    else PairText(ps[0]) + (if |ps| == 1 then "" else ", " + Print(ps[1..]))
  }

  /** The size `hstore_out` allocates for one pair. */
  function PairRoom(p: Pair): nat {
    6 + 2 * |p.key| + (2 + if p.val.Null? then 2 else 2 * |p.val.s|)
  }

  function Room(ps: seq<Pair>): nat {
    if ps == [] then 0 else Room(ps[..|ps| - 1]) + PairRoom(ps[|ps| - 1])
  }

  predicate NeedsEscape(c: char) {
    c == '"' || c == '\\'
  }

  /** How many characters of `s` are quotes or backslashes. */
  ghost function Specials(s: string): nat {
    multiset(s)['"'] + multiset(s)['\\']
  }

  lemma {:induction false} SpecialsCons(s: string)
    requires s != ""
    ensures Specials(s) == (if NeedsEscape(s[0]) then 1 else 0) + Specials(s[1..]) <= |s|
  {
    assert s == [s[0]] + s[1..];
    if |s| > 1 {
      SpecialsCons(s[1..]);
    }
  }

  /** Exactly the quotes and backslashes get one character more. */
  lemma {:induction false} EscapeSize(s: string)
    ensures |Escape(s)| == |s| + Specials(s) && Specials(s) <= |s|
  {
    if s != "" {
      SpecialsCons(s);
      EscapeSize(s[1..]);
    }
  }

  /** Everything else is copied. */
  lemma {:induction false} EscapePlain(s: string)
    requires forall i :: 0 <= i < |s| ==> !NeedsEscape(s[i])
    ensures Escape(s) == s
  {
    if s != "" {
      EscapePlain(s[1..]);
      assert s == [s[0]] + s[1..];
    }
  }

  lemma {:induction false} EscapeConcat(a: string, b: string)
    ensures Escape(a + b) == Escape(a) + Escape(b)
  {
    if a == "" {
      EmptyFront(b);
      EmptyFront(Escape(b));
    } else {
      EscapeConcat(a[1..], b);
      assert (a + b)[1..] == a[1..] + b;
      Regroup(if NeedsEscape(a[0]) then ['\\', a[0]] else [a[0]], Escape(a[1..]), Escape(b));
    }
  }

  /** What is needed for the text of one pair: two characters around every string, two between key and value, four
      for a null. */
  ghost function PairSize(p: Pair): nat {
    |p.key| + Specials(p.key) + 4 + if p.val.Null? then 4 else |p.val.s| + Specials(p.val.s) + 2
  }

  ghost function PairsSize(ps: seq<Pair>): nat {
    if ps == [] then 0 else PairsSize(ps[..|ps| - 1]) + PairSize(ps[|ps| - 1])
  }

  lemma {:induction false} PairTextSize(p: Pair)
    ensures |PairText(p)| == PairSize(p)
  {
    EscapeSize(p.key);
    if p.val.Text? {
      EscapeSize(p.val.s);
    }
  }

  /** Lists of pairs are joined by a comma and a blank. */
  lemma {:induction false} PrintConcat(a: seq<Pair>, b: seq<Pair>)
    requires a != [] && b != []
    ensures Print(a + b) == Print(a) + (", " + Print(b))
  {
    assert (a + b)[1..] == a[1..] + b && (a + b)[0] == a[0];
    if |a| == 1 {
      assert a[1..] + b == b;
      EmptyFront(PairText(a[0]));
    } else {
      PrintConcat(a[1..], b);
      Regroup(", ", Print(a[1..]), ", " + Print(b));
      Regroup(PairText(a[0]), ", " + Print(a[1..]), ", " + Print(b));
    }
  }

  /** The length of the whole text. */
  lemma {:induction false} PrintSize(ps: seq<Pair>)
    requires ps != []
    ensures |Print(ps)| == PairsSize(ps) + 2 * (|ps| - 1)
  {
    var n := |ps| - 1;
    PrintOne(ps[n]);
    assert PairsSize(ps) == PairsSize(ps[..n]) + PairSize(ps[n]);
    if n == 0 {
      assert ps == [ps[n]] && PairsSize(ps[..0]) == 0;
    } else {
      PrintSize(ps[..n]);
      assert ps == ps[..n] + [ps[n]];
      PrintConcat(ps[..n], [ps[n]]);
    }
  }

  lemma {:induction false} PrintOne(p: Pair)
    ensures |Print([p])| == PairSize(p)
  {
    PairTextSize(p);
    EmptyFront(PairText(p));
  }

  ghost function Nulls(ps: seq<Pair>): nat {
    if ps == [] then 0 else Nulls(ps[..|ps| - 1]) + if ps[|ps| - 1].val.Null? then 1 else 0
  }

  /** The room computed in advance: twice the bytes, eight for each pair and two more for each null. */
  lemma {:induction false} RoomExactly(ps: seq<Pair>)
    ensures Room(ps) == 8 * |ps| + 2 * Nulls(ps) + 2 * |Bytes(ps)|
  {
    if ps != [] {
      RoomExactly(ps[..|ps| - 1]);
    }
  }

  lemma {:induction false} OneLetter(c: char)
    ensures Escape([c]) == if NeedsEscape(c) then ['\\', c] else [c]
  {
    assert [c][1..] == "" && Escape("") == "";
    EmptyFront(if NeedsEscape(c) then ['\\', c] else [c]);
  }

  /** A null, and an escaped quote. */
  lemma {:induction false} PrintExample()
    ensures PairText(Pair("a", Null)) == "\"a\"=>NULL"
    ensures PairText(Pair("b", Text("\""))) == "\"b\"=>\"\\\"\""
  {
    OneLetter('a');
    OneLetter('b');
    OneLetter('"');
  }

  lemma {:induction false} RoomCons(ps: seq<Pair>)
    requires ps != []
    ensures Room(ps) == PairRoom(ps[0]) + Room(ps[1..])
  {
    if |ps| > 1 {
      RoomCons(ps[..|ps| - 1]);
      assert ps[..|ps| - 1][1..] == ps[1..][..|ps| - 2];
    }
  }

  /** The text fits the room, with space for the terminating zero byte. */
  lemma {:induction false} PrintFits(ps: seq<Pair>)
    requires ps != []
    ensures |Print(ps)| + 2 <= Room(ps)
  {
    EscapeSize(ps[0].key);
    if ps[0].val.Text? {
      EscapeSize(ps[0].val.s);
    }
    RoomCons(ps);
    if |ps| > 1 {
      PrintFits(ps[1..]);
    }
  }

  method Put(mem: array<char>, at: nat, s: string) returns (end: nat)
    requires at + |s| <= mem.Length
    modifies mem
    ensures end == at + |s| && mem[..end] == old(mem[..at]) + s
  {
    for i := 0 to |s|
      invariant mem[..at + i] == old(mem[..at]) + s[..i]
    {
      mem[at + i] := s[i];
    }
    end := at + |s|;
  }

  /** `cpw`: copies with a backslash before every quote and backslash. */
  method Cpw(mem: array<char>, at: nat, src: string) returns (end: nat)
    requires at + |Escape(src)| <= mem.Length
    modifies mem
    ensures end == at + |Escape(src)| && mem[..end] == old(mem[..at]) + Escape(src)
  {
    end := at;
    ghost var start, done := mem[..at], "";
    assert src[0..] == src && start + done == start;
    for i := 0 to |src|
      invariant at <= end <= mem.Length && mem[..end] == start + done
      invariant done + Escape(src[i..]) == Escape(src) && end == at + |done|
    {
      var c := src[i];
      assert src[i..][0] == c && src[i..][1..] == src[i + 1..];
      var piece := if c == '"' || c == '\\' then ['\\', c] else [c];
      Regroup(done, piece, Escape(src[i + 1..]));
      Regroup(start, done, piece);
      end := Put(mem, end, piece);
      done := done + piece;
    }
    assert done == Escape(src);
  }

  method PutPair(mem: array<char>, at: nat, p: Pair) returns (end: nat)
    requires at + |PairText(p)| <= mem.Length
    modifies mem
    ensures end == at + |PairText(p)| && mem[..end] == old(mem[..at]) + PairText(p)
  {
    ghost var start := mem[..at];
    end := Put(mem, at, "\"");
    end := Cpw(mem, end, p.key);
    end := Put(mem, end, "\"");
    end := Put(mem, end, "=>");
    ghost var head := mem[..end];
    end := PutValue(mem, end, p.val);
    Pieces(start, Escape(p.key), ValueText(p.val));
  }

  lemma {:induction false} Pieces(start: string, k: string, v: string)
    ensures start + "\"" + k + "\"" + "=>" + v == start + ("\"" + (k + ("\"" + ("=>" + v))))
  {
    Regroup(start + "\"" + k + "\"", "=>", v);
    Regroup(start + "\"" + k, "\"", "=>" + v);
    Regroup(start + "\"", k, "\"" + ("=>" + v));
    Regroup(start, "\"", k + ("\"" + ("=>" + v)));
  }

  method PutValue(mem: array<char>, at: nat, v: Value) returns (end: nat)
    requires at + |ValueText(v)| <= mem.Length
    modifies mem
    ensures end == at + |ValueText(v)| && mem[..end] == old(mem[..at]) + ValueText(v)
  {
    if v.Null? {
      end := Put(mem, at, "NULL");
    } else {
      ghost var start := mem[..at];
      end := Put(mem, at, "\"");
      end := Cpw(mem, end, v.s);
      end := Put(mem, end, "\"");
      Regroup(start + "\"", Escape(v.s), "\"");
      Regroup(start, "\"", Escape(v.s) + "\"");
    }
  }

  datatype Output = NoRoom | Cstring(text: string)

  /** `hstore_out`: fails exactly if the estimated room exceeds the largest allocation. */
  method HstoreOut(v: Packed, ghost ps: seq<Pair>) returns (out: Output)
    requires Shows(v, ps)
    ensures out == if Room(ps) > MAXALLOC then NoRoom else Cstring(Print(ps))
  {
    if |v.slots| == 0 {
      return Cstring("");
    }
    var buflen := EstimateRoom(v, ps);
    if buflen > MAXALLOC {
      return NoRoom;
    }
    var text := PrintPairs(v, buflen, ps);
    return Cstring(text);
  }

  method EstimateRoom(v: Packed, ghost ps: seq<Pair>) returns (buflen: nat)
    requires Shows(v, ps)
    ensures buflen == Room(ps)
  {
    buflen := 0;
    for i := 0 to |v.slots|
      invariant buflen == Room(ps[..i])
    {
      assert PairAt(v, i) == ps[i] && ps[..i + 1][..i] == ps[..i];
      buflen := buflen + 6 + 2 * |KeyAt(v, i)|;
      var val := ValAt(v, i);
      buflen := buflen + 2 + if val.Null? then 2 else 2 * |val.s|;
    }
    assert ps[..|ps|] == ps;
  }

  lemma {:induction false} PrintStep(ps: seq<Pair>, i: nat)
    requires i < |ps|
    ensures Print(ps[i..]) == PairText(ps[i]) + (if i + 1 == |ps| then "" else ", " + Print(ps[i + 1..]))
  {
    assert ps[i..][0] == ps[i] && ps[i..][1..] == ps[i + 1..];
  }

  /** The printing loop, inside a buffer of the estimated size. */
  method PrintPairs(v: Packed, buflen: nat, ghost ps: seq<Pair>) returns (text: string)
    requires Shows(v, ps) && ps != [] && buflen == Room(ps)
    ensures text == Print(ps)
  {
    var mem := new char[buflen](_ => ' ');
    var ptr := 0;
    PrintFits(ps);
    EmptyFront(Print(ps));
    assert mem[..0] == "" && ps[0..] == ps;
    for i := 0 to |v.slots|
      invariant 0 <= ptr <= mem.Length && mem[..ptr] + Print(ps[i..]) == Print(ps)
    {
      ptr := PutItem(mem, ptr, v, i, ps);
    }
    assert ps[|ps|..] == [];
    EmptyFront(mem[..ptr]);
    mem[ptr] := '\0';
    text := mem[..ptr];
  }

  method PutItem(mem: array<char>, at: nat, v: Packed, i: nat, ghost ps: seq<Pair>) returns (end: nat)
    requires Shows(v, ps) && i < |ps| && at <= mem.Length && |Print(ps)| <= mem.Length
    requires mem[..at] + Print(ps[i..]) == Print(ps)
    modifies mem
    ensures end <= mem.Length && mem[..end] + Print(ps[i + 1..]) == Print(ps)
  {
    ghost var start := mem[..at];
    PrintStep(ps, i);
    assert PairAt(v, i) == ps[i];
    end := PutPair(mem, at, PairAt(v, i));
    if i + 1 != |v.slots| {
      end := Put(mem, end, ", ");
      Regroup(start + PairText(ps[i]), ", ", Print(ps[i + 1..]));
      Regroup(start, PairText(ps[i]), ", " + Print(ps[i + 1..]));
    } else {
      assert ps[i + 1..] == [] && PairText(ps[i]) + "" == PairText(ps[i]);
    }
  }

  // ----- the printed text belongs to the grammar -----

  function Spelling(s: string): (ls: seq<Letter>)
    ensures |ls| == |s|
  {
    if s == "" then []
    else [if s[0] == '"' || s[0] == '\\' then Escaped(s[0]) else Plain(s[0])] + Spelling(s[1..])
  }

  lemma {:induction false} SpellingOk(s: string)
    ensures InQuotes(Spelling(s)) && Letters(Spelling(s)) == Escape(s) && Chars(Spelling(s)) == s
  {
    if s != "" {
      SpellingOk(s[1..]);
      var ls := Spelling(s);
      assert ls[1..] == Spelling(s[1..]);
      assert s == [s[0]] + s[1..];
    }
  }

  function ValueWord(v: Value): HstoreSyntax.Word {
    if v.Null? then Bare([Plain('N'), Plain('U'), Plain('L'), Plain('L')]) else Quoted(Spelling(v.s))
  }

  function ItemOf(p: Pair, gap: string): Item {
    Item(gap, Quoted(Spelling(p.key)), "", "", ValueWord(p.val), "")
  }

  function DocOf(ps: seq<Pair>, gap: string): Doc {
    if ps == [] then End(gap)
    else if |ps| == 1 then Last(ItemOf(ps[0], gap))
    else More(ItemOf(ps[0], gap), DocOf(ps[1..], " "))
  }

  predicate Sized(p: Pair) {
    |p.key| <= MAX_WORD && (p.val.Text? ==> |p.val.s| <= MAX_WORD)
  }

  lemma {:induction false} ValueWordOk(v: Value)
    requires v.Text? ==> |v.s| <= MAX_WORD
    ensures WordOk(ValueWord(v), true) && WordText(ValueWord(v)) == ValueText(v) && WordValue(ValueWord(v)) == v
  {
    if v.Text? {
      SpellingOk(v.s);
    } else {
      var ls := [Plain('N'), Plain('U'), Plain('L'), Plain('L')];
      assert ls[1..] == [Plain('U'), Plain('L'), Plain('L')] && ls[1..][1..] == [Plain('L'), Plain('L')];
      assert ls[1..][1..][1..] == [Plain('L')] && ls[1..][1..][1..][1..] == [];
      assert Letters(ls) == "NULL" && Chars(ls) == "NULL";
    }
  }

  lemma {:induction false} ItemOfOk(p: Pair, gap: string)
    requires Sized(p) && Blank(gap)
    ensures var i := ItemOf(p, gap); ItemOk(i) && Chars(i.key.ls) == p.key && WordValue(i.val) == p.val
  {
    SpellingOk(p.key);
    ValueWordOk(p.val);
  }

  lemma {:induction false} ItemOfText(p: Pair, gap: string, tail: string)
    requires Sized(p)
    ensures ItemText(ItemOf(p, gap), tail) == gap + (PairText(p) + tail)
  {
    SpellingOk(p.key);
    ValueWordOk(p.val);
    Unfold(gap, Escape(p.key), ValueText(p.val), tail);
  }

  lemma {:induction false} Unfold(gap: string, k: string, v: string, tail: string)
    ensures gap + (("\"" + (k + "\"")) + ("" + ("=" + (">" + ("" + (v + ("" + tail)))))))
      == gap + (("\"" + (k + ("\"" + ("=>" + v)))) + tail)
  {
    assert "" + tail == tail && "" + (v + tail) == v + tail;
    var a := "=>" + v;
    assert "" + ("=" + (">" + (v + tail))) == a + tail;
    Regroup(k, "\"", a);
    Regroup("\"", k + "\"", a);
    Regroup("\"" + (k + "\""), a, tail);
  }

  lemma {:induction false} CommaBlank(t: string)
    ensures "," + (" " + t) == ", " + t
  {
  }

  lemma {:induction false} DocOfText(ps: seq<Pair>, gap: string)
    requires (forall i :: 0 <= i < |ps| ==> Sized(ps[i])) && Blank(gap)
    ensures DocText(DocOf(ps, gap)) == gap + Print(ps)
  {
    if ps == [] {
      EmptyFront(gap);
    } else if |ps| == 1 {
      ItemOfText(ps[0], gap, "");
    } else {
      DocOfText(ps[1..], " ");
      CommaBlank(Print(ps[1..]));
      ItemOfText(ps[0], gap, ", " + Print(ps[1..]));
    }
  }

  lemma {:induction false} DocOfOk(ps: seq<Pair>, gap: string)
    requires (forall i :: 0 <= i < |ps| ==> Sized(ps[i])) && Blank(gap)
    ensures DocOk(DocOf(ps, gap))
  {
    if ps != [] {
      ItemOfOk(ps[0], gap);
      if |ps| > 1 {
        DocOfOk(ps[1..], " ");
      }
    }
  }

  lemma {:induction false} DocOfMeaning(ps: seq<Pair>, gap: string)
    requires (forall i :: 0 <= i < |ps| ==> Sized(ps[i])) && Blank(gap)
    ensures Meaning(DocOf(ps, gap)) == ps
  {
    if ps != [] {
      ItemOfOk(ps[0], gap);
      if |ps| == 1 {
        assert ps == [ps[0]];
      } else {
        DocOfMeaning(ps[1..], " ");
        assert ps == [ps[0]] + ps[1..];
      }
    }
  }

  /** Printed text is read back as the pairs it was printed from, unless there are too many. */
  lemma {:induction false} PrintReads(ps: seq<Pair>)
    requires forall i :: 0 <= i < |ps| ==> Sized(ps[i])
    ensures Read(WKey, Print(ps), "", []) == if |ps| <= MAX_PAIRS then Accept(ps) else Fail(OutOfMemory)
  {
    DocOfOk(ps, "");
    DocOfMeaning(ps, "");
    DocOfText(ps, "");
    ReadDoc(DocOf(ps, ""), []);
    EmptyFront(Print(ps));
    EmptyFront(ps);
  }

  // ----- the round trip -----

  predicate Printable(ps: seq<Pair>) {
    forall i :: 0 <= i < |ps| ==> NoNul(ps[i].key) && (ps[i].val.Text? ==> NoNul(ps[i].val.s))
  }

  lemma {:induction false} EscapeNoNul(s: string)
    requires NoNul(s)
    ensures NoNul(Escape(s))
  {
    if s != "" {
      EscapeNoNul(s[1..]);
    }
  }

  lemma {:induction false} PairNoNul(p: Pair)
    requires NoNul(p.key) && (p.val.Text? ==> NoNul(p.val.s))
    ensures NoNul(PairText(p))
  {
    EscapeNoNul(p.key);
    if p.val.Text? {
      EscapeNoNul(p.val.s);
    }
    assert NoNul(ValueText(p.val));
  }

  lemma {:induction false} PrintNoNul(ps: seq<Pair>)
    requires Printable(ps)
    ensures NoNul(Print(ps))
  {
    if ps != [] {
      PairNoNul(ps[0]);
      PrintNoNul(ps[1..]);
      assert NoNul(", " + Print(ps[1..]));
    }
  }

  /** What can be printed fits the buffer for words. */
  lemma {:induction false} RoomSized(ps: seq<Pair>, i: nat)
    requires Room(ps) <= MAXALLOC && i < |ps|
    ensures Sized(ps[i])
  {
    if i < |ps| - 1 {
      RoomSized(ps[..|ps| - 1], i);
    }
  }

  /** Output followed by input gives back the identical value if it has at most `MAX_PAIRS` pairs; a larger
      one can be printed but its text is not read. */
  method OutThenIn(hs: HStore) returns (out: Output, back: Input)
    requires IsHStore(hs) && Printable(Pairs(hs))
    ensures out.NoRoom? <==> Room(Pairs(hs)) > MAXALLOC
    ensures out.Cstring? ==> back == if |Pairs(hs)| <= MAX_PAIRS then Value(hs) else Malformed(OutOfMemory)
  {
    ghost var ps := Pairs(hs);
    ViewOf(hs);
    out := HstoreOut(View(hs), ps);
    if out.NoRoom? {
      return out, TooLarge;
    }
    PrintNoNul(ps);
    forall i | 0 <= i < |ps| ensures Sized(ps[i]) {
      RoomSized(ps, i);
    }
    PrintReads(ps);
    back := HstoreIn(out.text);
    if |ps| <= MAX_PAIRS {
      ghost var qs :| Chosen(qs, ps) && back == if Storable(qs) then Value(Store(qs)) else TooLarge;
      OneChoice(qs, ps);
    }
  }
}
