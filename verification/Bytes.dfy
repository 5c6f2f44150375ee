/**
 Bytes and little-endian machine words over byte sequences.

 An image is a `seq<byte>` (or an `array<byte>` where the loader patches it in
 place); a pointer into it is an offset. Words are naturals, and every place where
 the loader's arithmetic wraps is written out with `%`.
 */
module Bytes {

  type byte = b: int | 0 <= b < 256

  type u16 = w: int | 0 <= w < 0x1_0000
  type u32 = w: int | 0 <= w < 0x1_0000_0000
  type u64 = w: int | 0 <= w < 0x1_0000_0000_0000_0000

  const U16: nat := 0x1_0000
  const U32: nat := 0x1_0000_0000
  const U64: nat := 0x1_0000_0000_0000_0000

  const PAGE := 4096

  // The least whole number of pages that n bytes fit in, in bytes.
  function Pages(n: nat): (r: nat)
    ensures r % 4096 == 0 && n <= r < n + 4096
  {
    (n + PAGE - 1) / PAGE * PAGE
  }

  // The number of values a word of n bytes can hold.
  function Capacity(n: nat): (c: nat)
    ensures c >= 1
  {
    if n == 0 then 1 else 256 * Capacity(n - 1)
  }

  lemma {:induction false} CapacityValues()
    ensures Capacity(2) == U16 && Capacity(4) == U32 && Capacity(8) == U64
  {
    assert Capacity(2) == 65536 && Capacity(4) == 65536 * Capacity(2) && Capacity(6) == 65536 * Capacity(4);
  }

  // v as an n-byte word holds it.
  function Wrap(v: nat, n: nat): (w: nat)
    ensures w < Capacity(n)
  {
    v % Capacity(n)
  }

  // The value of a little-endian word.
  function Value(s: seq<byte>): nat {
    if s == [] then 0 else s[0] + 256 * Value(s[1..])
  }

  // The n low bytes of v, least significant first.
  function Word(v: nat, n: nat): (s: seq<byte>)
    ensures |s| == n
  {
    if n == 0 then [] else [v % 256] + Word(v / 256, n - 1)
  }

  lemma {:induction false} ValueBound(s: seq<byte>)
    ensures Value(s) < Capacity(|s|)
  {
    if s != [] { ValueBound(s[1..]); }
  }

  lemma {:induction false} MulStep(d: nat, a: int, b: int)
    requires a < b
    ensures d * a + d <= d * b
  {
    assert d * b - d * a == d * (b - a);
    assert d * (b - a - 1) >= 0;
  }

  lemma {:induction false} ModUnique(v: int, d: nat, q: int, r: nat)
    requires v == d * q + r && r < d
    ensures v % d == r && v / d == q
  {
    var k := v / d;
    assert v == d * k + v % d;
    if k > q {
      MulStep(d, q, k);
    } else if k < q {
      MulStep(d, k, q);
    }
  }

  lemma {:induction false} WholeTurns(a: nat, c: nat, q: nat)
    requires c > 0
    ensures (a + c * q) % c == a % c
  {
    var k, r := a / c, a % c;
    assert a == c * k + r;
    assert c * k + c * q == c * (k + q);
    ModUnique(a + c * q, c, k + q, r);
  }

  lemma {:induction false} SumMod(v: nat, b: nat, c: nat)
    requires c > 0
    ensures (v % c + b) % c == (v + b) % c
  {
    var q, r := v / c, v % c;
    assert v == c * q + r;
    WholeTurns(r + b, c, q);
  }

  lemma {:induction false} SumOfMods(a: nat, b: nat, c: nat)
    requires c > 0
    ensures (a % c + b % c) % c == (a + b) % c
  {
    var r := b % c;
    SumMod(a, r, c);
    SumMod(b, a, c);
  }

  lemma {:induction false} CancelMod(v: nat, a: nat, b: nat, c: nat)
    requires c > 0
    ensures (v + a) % c == (v + b) % c <==> a % c == b % c
  {
    var q, r := v / c, v % c;
    assert v == c * q + r;
    var w := c - r;
    assert v + w == c * (q + 1);
    if (v + a) % c == (v + b) % c {
      SumMod(v + a, w, c);
      SumMod(v + b, w, c);
      WholeTurns(a, c, q + 1);
      WholeTurns(b, c, q + 1);
    }
    if a % c == b % c {
      SumMod(a, v, c);
      SumMod(b, v, c);
    }
  }

  // Adding a and then b to a word is adding d exactly when a + b and d are the same word.
  lemma {:induction false} AddTwice(v: nat, a: nat, b: nat, d: nat, n: nat)
    ensures Wrap(Wrap(v + a, n) + b, n) == Wrap(v + d, n) <==> Wrap(a + b, n) == Wrap(d, n)
  {
    var c, s := Capacity(n), a + b;
    assert ((v + a) % c + b) % c == (v + s) % c by { SumMod(v + a, b, c); }
    assert (v + s) % c == (v + d) % c <==> s % c == d % c by { CancelMod(v, s, d, c); }
  }

  lemma {:induction false} ModSplit(v: nat, p: nat)
    requires p > 0
    ensures v % (256 * p) == v % 256 + 256 * ((v / 256) % p)
  {
    var q, r := (v / 256) / p, (v / 256) % p;
    assert v / 256 == p * q + r;
    assert v == 256 * (p * q + r) + v % 256;
    assert 256 * (p * q) == (256 * p) * q;
    ModUnique(v, 256 * p, q, v % 256 + 256 * r);
  }

  // Storing keeps the value modulo the word size.
  lemma {:induction false} ValueOfWord(v: nat, n: nat)
    ensures Value(Word(v, n)) == Wrap(v, n)
  {
    if n != 0 {
      ValueOfWord(v / 256, n - 1);
      ModSplit(v, Capacity(n - 1));
      assert Word(v, n)[1..] == Word(v / 256, n - 1);
    }
  }

  // Loading and storing back is the identity on bytes.
  lemma {:induction false} WordOfValue(s: seq<byte>)
    ensures Word(Value(s), |s|) == s
  {
    if s != [] {
      WordOfValue(s[1..]);
      var v := Value(s[1..]);
      ModUnique(Value(s), 256, v, s[0]);
    }
  }

  lemma {:induction false} ZeroWord(s: seq<byte>)
    requires forall k :: 0 <= k < |s| ==> s[k] == 0
    ensures Value(s) == 0
  {
    if s != [] { ZeroWord(s[1..]); }
  }

  // A word whose bytes from the third on are zero.
  lemma {:induction false} SmallWord(s: seq<byte>)
    requires |s| >= 2 && forall k :: 2 <= k < |s| ==> s[k] == 0
    ensures Value(s) == s[0] as int + 256 * s[1] as int
  {
    ZeroWord(s[2..]);
    assert s[1..][1..] == s[2..];
  }

  // ---- Reading and writing inside an image -------------------------------

  function Zeros(n: nat): (r: seq<byte>)
    ensures |r| == n && forall k :: 0 <= k < n ==> r[k] == 0
  {
    seq<byte>(n, _ => 0)
  }

  predicate NoRepeats(s: seq<int>) {
    forall i, j :: 0 <= i < j < |s| ==> s[i] != s[j]
  }

  // The n-byte word at off, wholly inside the image.
  function Load(img: seq<byte>, off: nat, n: nat): (v: nat)
    requires off + n <= |img|
  {
    Value(img[off..off + n])
  }

  function Store(img: seq<byte>, off: nat, n: nat, v: nat): (r: seq<byte>)
    requires off + n <= |img|
    ensures |r| == |img|
  {
    img[..off] + Word(v, n) + img[off + n..]
  }

  // A byte of memory: the image, then whatever happens to lie beyond it.
  function At(img: seq<byte>, beyond: int -> byte, i: nat): byte {
    if i < |img| then img[i] else beyond(i)
  }

  function Span(img: seq<byte>, beyond: int -> byte, off: nat, n: nat): (s: seq<byte>)
    ensures |s| == n && forall k :: 0 <= k < n ==> s[k] == At(img, beyond, off + k)
  {
    seq<byte>(n, k requires 0 <= k < n => At(img, beyond, off + k))
  }

  // The n-byte word at off, for the reads the loader makes without a bounds check.
  function Peek(img: seq<byte>, beyond: int -> byte, off: nat, n: nat): nat {
    Value(Span(img, beyond, off, n))
  }

  function Peek32(img: seq<byte>, beyond: int -> byte, off: nat): (v: u32) {
    ValueBound(Span(img, beyond, off, 4));
    CapacityValues();
    Peek(img, beyond, off, 4)
  }

  lemma {:induction false} PeekIsLoad(img: seq<byte>, beyond: int -> byte, off: nat, n: nat)
    requires off + n <= |img|
    ensures Peek(img, beyond, off, n) == Load(img, off, n)
  {
    assert Span(img, beyond, off, n) == img[off..off + n];
  }

  predicate AgreeOn(s: seq<byte>, t: seq<byte>, lo: int, hi: int) {
    |s| == |t| && forall k :: lo <= k < hi && 0 <= k < |s| ==> s[k] == t[k]
  }

  lemma {:induction false} PeekAgree(s: seq<byte>, t: seq<byte>, beyond: int -> byte, off: nat, n: nat)
    requires AgreeOn(s, t, off, off + n)
    ensures Peek(s, beyond, off, n) == Peek(t, beyond, off, n)
  {
    assert Span(s, beyond, off, n) == Span(t, beyond, off, n);
  }

  lemma {:induction false} LoadAgree(s: seq<byte>, t: seq<byte>, off: nat, n: nat)
    requires off + n <= |s| && AgreeOn(s, t, off, off + n)
    ensures Load(s, off, n) == Load(t, off, n)
  {
    assert s[off..off + n] == t[off..off + n];
  }

  lemma {:induction false} LoadBound(img: seq<byte>, off: nat, n: nat)
    requires off + n <= |img|
    ensures Load(img, off, n) < Capacity(n)
  {
    ValueBound(img[off..off + n]);
  }

  // A store changes its own bytes only, and a load gives back what was stored.
  lemma {:induction false} StoreEffect(img: seq<byte>, off: nat, n: nat, v: nat)
    requires off + n <= |img|
    ensures Load(Store(img, off, n, v), off, n) == Wrap(v, n)
    ensures forall k :: 0 <= k < |img| && !(off <= k < off + n) ==> Store(img, off, n, v)[k] == img[k]
    ensures Store(img, off, n, v)[off..off + n] == Word(v, n)
  {
    assert Store(img, off, n, v)[off..off + n] == Word(v, n);
    ValueOfWord(v, n);
  }

  predicate Apart(off: int, n: int, off': int, n': int) {
    off + n <= off' || off' + n' <= off
  }

  // Two images that agree outside a word and hold the same word there are equal.
  lemma {:induction false} SameWord(s: seq<byte>, t: seq<byte>, off: nat, n: nat)
    requires |s| == |t| && off + n <= |s| && Load(s, off, n) == Load(t, off, n)
    ensures s[off..off + n] == t[off..off + n]
  {
    WordOfValue(s[off..off + n]);
    WordOfValue(t[off..off + n]);
  }

  method StoreWord(a: array<byte>, off: nat, n: nat, v: nat)
    requires off + n <= a.Length
    modifies a
    ensures a[..] == Store(old(a[..]), off, n, v)
  {
    hide Word;
    var w := Word(v, n);
    for i := 0 to n
      invariant forall k :: 0 <= k < a.Length ==> a[k] == if off <= k < off + i then w[k - off] else old(a[k])
    {
      a[off + i] := w[i];
    }
  }

  // ---- Writing a word that may stick out of the image -------------------------------

  // Store the part of the word that falls inside the image.
  function Clip(img: seq<byte>, off: nat, n: nat, v: nat): (r: seq<byte>)
    ensures |r| == |img|
    ensures off + n <= |img| ==> r == Store(img, off, n, v)
  {
    var w := Word(v, n);
    seq<byte>(|img|, k requires 0 <= k < |img| => if off <= k < off + n then w[k - off] else img[k])
  }

  method ClipWord(a: array<byte>, off: nat, n: nat, v: nat)
    modifies a
    ensures a[..] == Clip(old(a[..]), off, n, v)
  {
    hide Word;
    var w := Word(v, n);
    for i := 0 to n
      invariant forall k :: 0 <= k < a.Length ==> a[k] == if off <= k < off + i then w[k - off] else old(a[k])
    {
      if off + i < a.Length { a[off + i] := w[i]; }
    }
  }
}
