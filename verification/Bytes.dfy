/** Byte strings, as std::string and std::vector<uint8_t> hold them, and the order std::map keeps its keys in. */
module Bytes {

  newtype byte = x: int | 0 <= x < 256

  type Str = seq<byte>

  const LF: byte := 0x0A
  const CR: byte := 0x0D
  const SPACE: byte := 0x20
  const QUOTE: byte := 0x22
  const PLUS: byte := 0x2B
  const COMMA: byte := 0x2C
  const MINUS: byte := 0x2D
  const SLASH: byte := 0x2F
  const ZERO: byte := 0x30
  const ONE: byte := 0x31
  const NINE: byte := 0x39
  const COLON: byte := 0x3A
  const BACKSLASH: byte := 0x5C
  const TILDE: byte := 0x7E

  /** The largest int. */
  const INT_MAX: int := 0x7FFF_FFFF

  /** The byte at a place of a text that a NUL ends. */
  function CharAt(s: Str, i: nat): byte {
    if i < |s| then s[i] else 0
  }

  /** The bytes of an ASCII literal. */
  function Ascii(s: string): (r: Str)
    requires forall i :: 0 <= i < |s| ==> s[i] as int < 128
    ensures |r| == |s| && forall i :: 0 <= i < |s| ==> r[i] as int == s[i] as int
  {
    seq(|s|, i requires 0 <= i < |s| => s[i] as int as byte)
  }

  // ---------- concatenation and slices ----------

  lemma Reassociate<T>(a: seq<T>, b: seq<T>, c: seq<T>)
    ensures (a + b) + c == a + (b + c)
  {
  }

  lemma FourParts<T>(a: seq<T>, b: seq<T>, c: seq<T>, d: seq<T>, e: seq<T>)
    ensures a + b + c + d + e == a + (b + c + (d + e))
  {
    Reassociate(a + b + c, d, e);
    Reassociate(a + b, c, d + e);
    Reassociate(a, b, c + (d + e));
    Reassociate(b, c, d + e);
  }

  lemma MoveOne<T>(x: seq<T>, b: seq<T>, i: nat)
    requires i < |b|
    ensures x + [b[i]] + b[i + 1..] == x + b[i..]
  {
  }

  lemma DropFirst<T>(c: T, a: seq<T>, b: seq<T>)
    ensures ([c] + a + b)[1..] == a + b && ([c] + a + b)[0] == c
  {
  }

  lemma DropDrop<T>(s: seq<T>, p: nat, n: nat)
    requires p + n <= |s|
    ensures s[p..][n..] == s[p + n..]
  {
  }

  lemma SliceSlice<T>(s: seq<T>, p: nat, q: nat, i: nat, j: nat)
    requires p <= q <= |s| && i <= j <= q - p
    ensures s[p..q][i..j] == s[p + i..p + j]
  {
    var (a, b) := (s[p..q][i..j], s[p + i..p + j]);
    forall k | 0 <= k < j - i ensures a[k] == b[k] {
      assert a[k] == s[p..q][i + k];
    }
  }

  lemma JoinSlices<T>(s: seq<T>, from: nat, pos: nat, tail: seq<T>)
    requires from <= pos <= |s|
    ensures s[..from] + (s[from..][..pos - from] + tail) == s[..pos] + tail
    ensures s[from..][pos - from..] == s[pos..]
  {
    assert s[..from] + s[from..][..pos - from] == s[..pos];
  }

  // ---------- a text at a position of another ----------

  predicate At(v: Str, i: nat, s: Str) {
    i + |s| <= |v| && v[i..i + |s|] == s
  }

  lemma AtSplit(v: Str, i: nat, a: Str, b: Str)
    requires At(v, i, a + b)
    ensures At(v, i, a) && At(v, i + |a|, b)
  {
    var w := v[i..i + |a + b|];
    assert w[..|a|] == a && w[|a|..] == b;
    assert v[i..i + |a|] == w[..|a|] && v[i + |a|..i + |a| + |b|] == w[|a|..];
  }

  lemma AtFirst(v: Str, i: nat, c: byte, rest: Str)
    requires At(v, i, [c] + rest)
    ensures i < |v| && v[i] == c && At(v, i + 1, rest)
  {
    AtSplit(v, i, [c], rest);
    assert v[i..i + 1][0] == v[i];
  }

  lemma AtMiddle(prefix: Str, s: Str, suffix: Str)
    ensures At(prefix + s + suffix, |prefix|, s)
  {
  }

  // ---------- lexicographic order of std::string ----------

  predicate Less(a: Str, b: Str) {
    b != [] && (a == [] || a[0] < b[0] || (a[0] == b[0] && Less(a[1..], b[1..])))
  }

  lemma {:induction false} LessIsTotal(a: Str, b: Str)
    ensures !(Less(a, b) && Less(b, a))
    ensures Less(a, b) || a == b || Less(b, a)
    ensures !Less(a, a)
  {
    if a != [] && b != [] && a[0] == b[0] {
      LessIsTotal(a[1..], b[1..]);
      assert a == [a[0]] + a[1..] && b == [b[0]] + b[1..];
    }
    if a != [] { LessIsTotal(a[1..], a[1..]); }
  }

  lemma {:induction false} LessIsTransitive(a: Str, b: Str, c: Str)
    requires Less(a, b) && Less(b, c)
    ensures Less(a, c)
  {
    if a != [] && a[0] == b[0] == c[0] {
      LessIsTransitive(a[1..], b[1..], c[1..]);
    }
  }

  /** A common prefix does not influence the order. */
  lemma {:induction false} LessAfterPrefix(p: Str, a: Str, b: Str)
    ensures Less(p + a, p + b) == Less(a, b)
  {
    if p == [] {
      assert p + a == a && p + b == b;
    } else {
      LessAfterPrefix(p[1..], a, b);
      assert (p + a)[1..] == p[1..] + a && (p + b)[1..] == p[1..] + b;
    }
  }

  // ---------- std::map iteration: keys in ascending order ----------

  predicate IsLeast(least: Str, keys: set<Str>) {
    least in keys && forall k :: k in keys && k != least ==> Less(least, k)
  }

  lemma {:induction false} LeastExists(keys: set<Str>) returns (least: Str)
    requires keys != {}
    ensures IsLeast(least, keys)
    decreases |keys|
  {
    var some :| some in keys;
    var rest := keys - {some};
    least := some;
    if rest != {} {
      var m := LeastExists(rest);
      LessIsTotal(some, m);
      if Less(m, some) { least := m; }
      forall k | k in keys && k != least ensures Less(least, k) {
        if k != some && k != m && least == some { LessIsTransitive(some, m, k); }
      }
    }
  }

  lemma LeastIsUnique(l: Str, m: Str, keys: set<Str>)
    requires IsLeast(l, keys) && IsLeast(m, keys)
    ensures l == m
  {
    LessIsTotal(l, m);
  }

  function Least(keys: set<Str>): (least: Str)
    requires keys != {}
    ensures IsLeast(least, keys)
  {
    assert exists l :: IsLeast(l, keys) by { var l := LeastExists(keys); }
    assert forall l, m :: IsLeast(l, keys) && IsLeast(m, keys) ==> l == m by {
      forall l, m | IsLeast(l, keys) && IsLeast(m, keys) ensures l == m { LeastIsUnique(l, m, keys); }
    }
    var l :| l in keys && IsLeast(l, keys);
    l
  }

  /** The order in which std::map enumerates its keys: ascending, each key once. */
  function SortedKeys(keys: set<Str>): (ks: seq<Str>)
    ensures forall k :: k in ks <==> k in keys
    ensures |ks| == |keys|
    ensures forall i, j :: 0 <= i < j < |ks| ==> Less(ks[i], ks[j])
    decreases |keys|
  {
    if keys == {} then [] else
      var k := Least(keys);
      [k] + SortedKeys(keys - {k})
  }

  lemma SortedKeysDistinct(keys: set<Str>)
    ensures forall i, j :: 0 <= i < j < |SortedKeys(keys)| ==> SortedKeys(keys)[i] != SortedKeys(keys)[j]
  {
    var ks := SortedKeys(keys);
    forall i, j | 0 <= i < j < |ks| ensures ks[i] != ks[j] { LessIsTotal(ks[i], ks[j]); }
  }
}
