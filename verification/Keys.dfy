/**
 Keys of the metadata bucket: a prefix, a slash and a zero-padded raft index (server/apply.go,
 storage/meta_storage.go), compared byte by byte.
 */
module Keys {
  import opened Bytes

  // ---- Byte order ------------------------------------------------------------------

  predicate Less(a: string, b: string) {
    b != "" && (a == "" || a[0] < b[0] || (a[0] == b[0] && Less(a[1..], b[1..])))
  }

  lemma {:induction false} LessIrreflexive(a: string)
    ensures !Less(a, a)
  {
    if a != "" { LessIrreflexive(a[1..]); }
  }

  lemma {:induction false} LessTrans(a: string, b: string, c: string)
    requires Less(a, b) && Less(b, c)
    ensures Less(a, c)
  {
    if a != "" && a[0] == b[0] && b[0] == c[0] { LessTrans(a[1..], b[1..], c[1..]); }
  }

  lemma {:induction false} LessTotal(a: string, b: string)
    ensures Less(a, b) || a == b || Less(b, a)
  {
    if a != "" && b != "" && a[0] == b[0] {
      LessTotal(a[1..], b[1..]);
      assert a == [a[0]] + a[1..] && b == [b[0]] + b[1..];
    }
  }

  lemma LessAsymmetric(a: string, b: string)
    requires Less(a, b)
    ensures a != b && !Less(b, a)
  {
    LessIrreflexive(a);
    if Less(b, a) { LessTrans(a, b, a); }
  }

  /** A key with the prefix is not below it. */
  lemma {:induction false} PrefixNotAbove(p: string, k: string)
    requires p <= k
    ensures !Less(k, p)
  {
    if p != "" {
      assert p[0] == k[0] && p[1..] <= k[1..];
      PrefixNotAbove(p[1..], k[1..]);
    }
  }

  /**
   Keys with the prefix are contiguous: beyond a key that is not below the prefix and lacks it,
   no key has it.
   */
  lemma {:induction false} PrefixContiguous(p: string, k: string, later: string)
    requires !Less(k, p) && !(p <= k) && Less(k, later)
    ensures !(p <= later)
  {
    assert p != "";
    if k != "" && p <= later && p[0] == k[0] {
      assert p[1..] <= later[1..];
      assert p[1..] <= k[1..] ==> p <= k;
      PrefixContiguous(p[1..], k[1..], later[1..]);
    }
  }

  lemma {:induction false} LessSamePrefix(p: string, a: string, b: string)
    ensures Less(p + a, p + b) == Less(a, b)
  {
    if p == "" {
      assert p + a == a && p + b == b;
    } else {
      assert (p + a)[1..] == p[1..] + a && (p + b)[1..] == p[1..] + b;
      LessSamePrefix(p[1..], a, b);
    }
  }

  lemma {:induction false} LessSameLength(a: string, b: string, x: string, y: string)
    requires Less(a, b) && |a| == |b|
    ensures Less(a + x, b + y)
  {
    assert (a + x)[0] == a[0] && (b + y)[0] == b[0];
    if a[0] == b[0] {
      assert (a + x)[1..] == a[1..] + x && (b + y)[1..] == b[1..] + y;
      LessSameLength(a[1..], b[1..], x, y);
    }
  }

  // ---- Decimal numbers -------------------------------------------------------------

  function Pow10(w: nat): (r: nat)
    ensures r > 0
  {
    if w == 0 then 1 else 10 * Pow10(w - 1)
  }

  lemma Pow10Twenty()
    ensures Pow10(20) == 100_000_000_000_000_000_000
    ensures TWO_64 < Pow10(20)
  {
    assert Pow10(4) == 10_000;
    assert Pow10(8) == 100_000_000;
    assert Pow10(12) == 1_000_000_000_000;
    assert Pow10(16) == 10_000_000_000_000_000;
  }

  predicate IsDigit(c: char) {
    '0' <= c <= '9'
  }

  function Digit(d: nat): (c: char)
    requires d < 10
    ensures IsDigit(c) && (c - '0') as int == d
  {
    d as char + '0'
  }

  /** The last w decimal digits of n. */
  function Padded(n: nat, w: nat): (r: string)
    ensures |r| == w
    ensures forall i :: 0 <= i < w ==> IsDigit(r[i])
    decreases w
  {
    if w == 0 then "" else Padded(n / 10, w - 1) + [Digit(n % 10)]
  }

  function Value(s: string): nat
    requires forall i :: 0 <= i < |s| ==> IsDigit(s[i])
  {
    if s == "" then 0
    else
      assert IsDigit(s[|s| - 1]);
      Value(s[..|s| - 1]) * 10 + (s[|s| - 1] - '0') as int
  }

  function ParseUint(s: string): Option<nat> {
    if s != "" && (forall i :: 0 <= i < |s| ==> IsDigit(s[i])) && Value(s) < TWO_64
    then Some(Value(s)) else None
  }

  lemma {:induction false} PaddedParses(n: nat, w: nat)
    requires n < Pow10(w)
    ensures Value(Padded(n, w)) == n
    decreases w
  {
    if w > 0 {
      PaddedParses(n / 10, w - 1);
      var s := Padded(n, w);
      assert s[..w - 1] == Padded(n / 10, w - 1);
      assert s[w - 1] == Digit(n % 10);
    }
  }

  lemma {:induction false} PaddedOrder(n: nat, m: nat, w: nat)
    requires n < m < Pow10(w)
    ensures Less(Padded(n, w), Padded(m, w))
    decreases w
  {
    var a, b := Padded(n / 10, w - 1), Padded(m / 10, w - 1);
    var x, y := [Digit(n % 10)], [Digit(m % 10)];
    if n / 10 < m / 10 {
      PaddedOrder(n / 10, m / 10, w - 1);
      LessSameLength(a, b, x, y);
    } else {
      assert a == b;
      LessSamePrefix(a, x, y);
    }
  }

  // ---- Splitting -------------------------------------------------------------------

  function Split(s: string, sep: char): (r: seq<string>)
    ensures r != []
  {
    if s == "" then [""]
    else
      var rest := Split(s[1..], sep);
      if s[0] == sep then [""] + rest else [[s[0]] + rest[0]] + rest[1..]
  }

  lemma {:induction false} SplitNone(s: string, sep: char)
    requires sep !in s
    ensures Split(s, sep) == [s]
  {
    if s != "" {
      SplitNone(s[1..], sep);
      assert s == [s[0]] + s[1..];
    }
  }

  lemma {:induction false} SplitOnce(a: string, b: string, sep: char)
    requires sep !in a && sep !in b
    ensures Split(a + [sep] + b, sep) == [a, b]
  {
    var s := a + [sep] + b;
    if a == "" {
      assert s[1..] == b;
      SplitNone(b, sep);
    } else {
      assert s[1..] == a[1..] + [sep] + b;
      SplitOnce(a[1..], b, sep);
      assert a == [a[0]] + a[1..];
    }
  }

  // ---- Keys of the bucket ----------------------------------------------------------

  datatype Key =
    | Executed
    | Purged
    | ApplyIndex
    | Fde(index: nat)
    | NextBinlog(index: nat)
    | PreGtids(index: nat)

  const FDE := "fde"
  const NEXT_BINLOG := "next_binlog"
  const PGE := "pre_gtids"

  const WIDTH := 20

  function Indexed(prefix: string, index: nat): string {
    prefix + "/" + Padded(index, WIDTH)
  }

  /** The bytes under which a key is stored. */
  function Name(k: Key): string {
    match k
    case Executed => "mysql/executed_gtids"
    case Purged => "mysql/gtid_purged"
    case ApplyIndex => "apply_index"
    case Fde(i) => Indexed(FDE, i)
    case NextBinlog(i) => Indexed(NEXT_BINLOG, i)
    case PreGtids(i) => Indexed(PGE, i)
  }

  /** Reading the index out of a stored name. */
  function IndexOfName(name: string): Option<nat> {
    var parts := Split(name, '/');
    if |parts| != 2 then None else ParseUint(parts[1])
  }

  /** Every 64-bit index is read back from its name, so names are injective. */
  lemma NameParses(prefix: string, index: nat)
    requires '/' !in prefix && index < TWO_64
    ensures IndexOfName(Indexed(prefix, index)) == Some(index)
  {
    var digits := Padded(index, WIDTH);
    assert '/' !in digits;
    SplitOnce(prefix, digits, '/');
    Pow10Twenty();
    PaddedParses(index, WIDTH);
  }

  /** Names of one prefix are in byte order exactly when their indices are in numeric order. */
  lemma NameOrder(prefix: string, i: nat, j: nat)
    requires i < TWO_64 && j < TWO_64
    ensures Less(Indexed(prefix, i), Indexed(prefix, j)) <==> i < j
  {
    hide Less, Padded, Pow10;
    Pow10Twenty();
    var p := prefix + "/";
    LessSamePrefix(p, Padded(i, WIDTH), Padded(j, WIDTH));
    if i < j {
      PaddedOrder(i, j, WIDTH);
    } else if j < i {
      PaddedOrder(j, i, WIDTH);
      LessAsymmetric(Padded(j, WIDTH), Padded(i, WIDTH));
    } else {
      LessIrreflexive(Padded(i, WIDTH));
    }
  }

  /** A prefix selects one kind of key. */
  predicate OfKind(k: Key, prefix: string) {
    (prefix == FDE && k.Fde?) || (prefix == NEXT_BINLOG && k.NextBinlog?) || (prefix == PGE && k.PreGtids?)
  }

  predicate IsKind(prefix: string) {
    prefix == FDE || prefix == NEXT_BINLOG || prefix == PGE
  }

  predicate Stored(k: Key) {
    (k.Fde? || k.NextBinlog? || k.PreGtids?) ==> k.index < TWO_64
  }

  lemma PrefixIsKind(k: Key, prefix: string)
    requires IsKind(prefix)
    ensures prefix <= Name(k) <==> OfKind(k, prefix)
  {
    if prefix <= Name(k) { assert prefix[0] == Name(k)[0]; }
  }

  lemma SameKind(a: Key, b: Key, prefix: string)
    requires Stored(a) && Stored(b) && IsKind(prefix) && Name(a) == Name(b)
    ensures OfKind(a, prefix) <==> OfKind(b, prefix)
    ensures OfKind(a, prefix) ==> a == b
  {
    hide IndexOfName, Padded;
    PrefixIsKind(a, prefix);
    PrefixIsKind(b, prefix);
    if OfKind(a, prefix) {
      assert Name(a) == Indexed(prefix, a.index) && Name(b) == Indexed(prefix, b.index);
      hide Name, Indexed;
      NameParses(prefix, a.index);
      NameParses(prefix, b.index);
    }
  }

  /** Different keys have different names. */
  lemma NamesDiffer(a: Key, b: Key)
    requires Stored(a) && Stored(b)
    ensures Name(a) == Name(b) ==> a == b
  {
    if Name(a) == Name(b) {
      SameKind(a, b, FDE);
      SameKind(a, b, NEXT_BINLOG);
      SameKind(a, b, PGE);
      assert Name(a)[6] == Name(b)[6] && |Name(a)| == |Name(b)|;
    }
  }

  // ---- Ordered iteration -----------------------------------------------------------

  predicate Before(a: Key, b: Key) {
    Less(Name(a), Name(b))
  }

  predicate AllStored(ks: set<Key>) {
    forall k :: k in ks ==> Stored(k)
  }

  predicate Ascending(ks: seq<Key>) {
    forall i, j :: 0 <= i < j < |ks| ==> Before(ks[i], ks[j])
  }

  lemma BeforeTotal(a: Key, b: Key)
    requires Stored(a) && Stored(b)
    ensures Before(a, b) || a == b || Before(b, a)
  {
    LessTotal(Name(a), Name(b));
    NamesDiffer(a, b);
  }

  lemma BeforeTrans(a: Key, b: Key, c: Key)
    requires Before(a, b) && Before(b, c)
    ensures Before(a, c)
  {
    LessTrans(Name(a), Name(b), Name(c));
  }

  predicate IsLeast(k: Key, ks: set<Key>) {
    k in ks && forall other :: other in ks ==> other == k || Before(k, other)
  }

  lemma {:induction false} LeastExists(ks: set<Key>) returns (k: Key)
    requires ks != {} && AllStored(ks)
    ensures IsLeast(k, ks)
    decreases |ks|
  {
    hide Before;
    var x :| x in ks;
    var rest := ks - {x};
    if rest == {} {
      assert ks == {x};
      k := x;
    } else {
      var y := LeastExists(rest);
      BeforeTotal(x, y);
      k := if Before(x, y) then x else y;
      forall other | other in ks ensures other == k || Before(k, other) {
        if other != x && other != y && k == x { BeforeTrans(x, y, other); }
      }
    }
  }

  lemma LeastIsOne(ks: set<Key>)
    requires ks != {} && AllStored(ks)
    ensures exists k :: IsLeast(k, ks)
    ensures forall a, b :: IsLeast(a, ks) && IsLeast(b, ks) ==> a == b
  {
    var k := LeastExists(ks);
    forall a, b | IsLeast(a, ks) && IsLeast(b, ks) ensures a == b {
      if Before(a, b) { LessAsymmetric(Name(a), Name(b)); }
    }
  }

  function Least(ks: set<Key>): (k: Key)
    requires ks != {} && AllStored(ks)
    ensures IsLeast(k, ks)
  {
    LeastIsOne(ks);
    var k :| IsLeast(k, ks);
    k
  }

  /** All keys in byte order of their names. */
  function Sort(ks: set<Key>): (r: seq<Key>)
    requires AllStored(ks)
    ensures Ascending(r)
    ensures forall k :: k in r <==> k in ks
    decreases |ks|
  {
    if ks == {} then []
    else
      var k := Least(ks);
      var rest := Sort(ks - {k});
      assert forall j :: 0 <= j < |rest| ==> rest[j] in rest;
      [k] + rest
  }

  /** Positions a cursor at the first name that is not below the prefix. */
  function Seek(ks: seq<Key>, prefix: string): (r: seq<Key>)
    requires Ascending(ks)
    ensures Ascending(r)
    ensures forall k :: k in r <==> k in ks && !Less(Name(k), prefix)
  {
    if ks == [] then []
    else if Less(Name(ks[0]), prefix) then Seek(ks[1..], prefix)
    else
      assert forall k :: k in ks ==> !Less(Name(k), prefix) by {
        forall i | 0 <= i < |ks| ensures !Less(Name(ks[i]), prefix) {
          if Less(Name(ks[i]), prefix) && i > 0 { LessTrans(Name(ks[0]), Name(ks[i]), prefix); }
        }
      }
      ks
  }

  /** The keys visited while their names still have the prefix. */
  function While(ks: seq<Key>, prefix: string): (r: seq<Key>)
    ensures r <= ks
  {
    if ks == [] || !(prefix <= Name(ks[0])) then [] else [ks[0]] + While(ks[1..], prefix)
  }

  /**
   From the first name that is not below the prefix, every name with the prefix is visited
   before one without it.
   */
  lemma {:induction false} WhileVisits(ks: seq<Key>, prefix: string, i: nat)
    requires Ascending(ks) && i < |ks| && !Less(Name(ks[0]), prefix)
    ensures prefix <= Name(ks[i]) <==> i < |While(ks, prefix)|
  {
    hide Less, Name;
    if !(prefix <= Name(ks[0])) {
      if i > 0 { PrefixContiguous(prefix, Name(ks[0]), Name(ks[i])); }
    } else if i > 0 {
      if Less(Name(ks[1]), prefix) { LessTrans(Name(ks[0]), Name(ks[1]), prefix); }
      WhileVisits(ks[1..], prefix, i - 1);
    }
  }

  lemma WhileMembers(ks: seq<Key>, prefix: string, k: Key)
    requires Ascending(ks) && forall i :: 0 <= i < |ks| ==> !Less(Name(ks[i]), prefix)
    ensures k in While(ks, prefix) <==> k in ks && prefix <= Name(k)
  {
    hide Less, Name, While;
    if k in ks {
      var i :| 0 <= i < |ks| && ks[i] == k;
      WhileVisits(ks, prefix, i);
      if prefix <= Name(k) { assert While(ks, prefix)[i] == k; }
    }
    if k in While(ks, prefix) {
      var i :| 0 <= i < |While(ks, prefix)| && While(ks, prefix)[i] == k;
      assert ks[i] == k;
      WhileVisits(ks, prefix, i);
    }
  }

  /** A prefix scan over stored keys. */
  function Scan(ks: set<Key>, prefix: string): (r: seq<Key>)
    requires AllStored(ks)
  {
    var from := Seek(Sort(ks), prefix);
    While(from, prefix)
  }

  predicate ByIndex(ks: seq<Key>, prefix: string) {
    && (forall i :: 0 <= i < |ks| ==> OfKind(ks[i], prefix) && ks[i].index < TWO_64)
    && (forall i, j :: 0 <= i < j < |ks| ==> ks[i].index < ks[j].index)
  }

  /** The scan visits exactly the keys of the prefix's kind, by increasing index. */
  lemma ScanVisits(ks: set<Key>, prefix: string)
    requires AllStored(ks) && IsKind(prefix)
    ensures forall k :: k in Scan(ks, prefix) <==> k in ks && OfKind(k, prefix)
    ensures ByIndex(Scan(ks, prefix), prefix)
  {
    hide Less, Name, While, Before;
    var from := Seek(Sort(ks), prefix);
    var r := Scan(ks, prefix);
    assert forall i :: 0 <= i < |from| ==> from[i] in from;
    forall k ensures k in r <==> k in ks && OfKind(k, prefix) {
      WhileMembers(from, prefix, k);
      PrefixIsKind(k, prefix);
      if prefix <= Name(k) { PrefixNotAbove(prefix, Name(k)); }
    }
    forall i | 0 <= i < |r| ensures OfKind(r[i], prefix) && r[i].index < TWO_64 && r[i] == from[i] {
      assert r[i] in r;
    }
    forall i, j | 0 <= i < j < |r| ensures r[i].index < r[j].index {
      KindOrder(r[i], r[j], prefix);
    }
  }

  lemma KindOrder(a: Key, b: Key, prefix: string)
    requires IsKind(prefix) && OfKind(a, prefix) && OfKind(b, prefix)
    requires Stored(a) && Stored(b)
    ensures Before(a, b) <==> a.index < b.index
  {
    NameOrder(prefix, a.index, b.index);
  }
}
