/**
 * The base-64 digest used for encrypted names without a key: eight-bit bytes
 * are repacked into six-bit symbols, low bits first.
 *
 * Both directions are read as one number written in two bases; the encoder and
 * decoder loops keep the number, so each undoes the other.
 */
module Digest {
  import opened Common

  // ---- powers of two and numbers in base 2^w ----

  lemma Pow2Add(a: nat, b: nat)
    ensures Pow2(a + b) == Pow2(a) * Pow2(b)
  {
    if b > 0 {
      Pow2Add(a, b - 1);
      assert Pow2(a) * Pow2(b) == Pow2(a) * Pow2(b - 1) * 2;
    }
  }

  lemma Pow2Values()
    ensures Pow2(6) == 64 && Pow2(8) == 256 && Pow2(13) == 8192
  {
    assert Pow2(4) == 16;
  }

  /** The number with digits `s`, lowest first, in base 2^w. */
  function Val(s: seq<nat>, w: nat): (r: nat) {
    if s == [] then 0 else Val(s[..|s| - 1], w) + s[|s| - 1] * Pow2(w * (|s| - 1))
  }

  lemma ValPush(s: seq<nat>, d: nat, w: nat)
    ensures Val(s + [d], w) == Val(s, w) + d * Pow2(w * |s|)
  {
    assert (s + [d])[..|s|] == s;
  }

  predicate Digits(s: seq<nat>, w: nat) {
    forall i :: 0 <= i < |s| ==> s[i] < Pow2(w)
  }

  lemma {:induction false} ValBound(s: seq<nat>, w: nat)
    requires Digits(s, w)
    ensures Val(s, w) < Pow2(w * |s|)
  {
    if s != [] {
      var n := |s| - 1;
      var p := Pow2(w * n);
      ValBound(s[..n], w);
      NextPower(w, n);
      MulLess(s[n], Pow2(w), p);
    }
  }

  lemma NextPower(w: nat, n: nat)
    ensures Pow2(w * (n + 1)) == Pow2(w) * Pow2(w * n)
  {
    assert w * (n + 1) == w * n + w;
    Pow2Add(w * n, w);
  }

  lemma MulLess(d: nat, b: nat, p: nat)
    requires d < b
    ensures d * p + p <= b * p
  {
    assert (d + 1) * p <= b * p;
  }

  /** A number has one way of being written with a given number of digits. */
  lemma {:induction false} ValUnique(s: seq<nat>, t: seq<nat>, w: nat)
    requires |s| == |t| && Digits(s, w) && Digits(t, w) && Val(s, w) == Val(t, w)
    ensures s == t
  {
    if s != [] {
      var n := |s| - 1;
      var p := Pow2(w * n);
      ValBound(s[..n], w);
      ValBound(t[..n], w);
      SameSplit(Val(s[..n], w), s[n], Val(t[..n], w), t[n], p);
      ValUnique(s[..n], t[..n], w);
      assert s == s[..n] + [s[n]] && t == t[..n] + [t[n]];
    }
  }

  lemma SameSplit(a: nat, x: nat, b: nat, y: nat, p: nat)
    requires a < p && b < p && a + x * p == b + y * p
    ensures a == b && x == y
  {
    if x < y {
      MulLess(x, y, p);
    } else if y < x {
      MulLess(y, x, p);
    }
  }

  // ---- symbols ----

  /** lookup_table: A-Z, a-z, 0-9, plus and comma, as character codes */
  function Symbol(d: nat): (c: nat)
    requires d < 64
  {
    if d < 26 then 65 + d
    else if d < 52 then 97 + (d - 26)
    else if d < 62 then 48 + (d - 52)
    else if d == 62 then 43
    else 44
  }

  /** strchr on the table; the end of the string does not count as a match */
  function Lookup(c: nat): (d: Option<nat>)
    ensures d.Some? ==> d.value < 64 && Symbol(d.value) == c
    ensures d.None? ==> forall k: nat :: k < 64 ==> Symbol(k) != c
  {
    if 65 <= c < 91 then Some(c - 65)
    else if 97 <= c < 123 then Some(c - 97 + 26)
    else if 48 <= c < 58 then Some(c - 48 + 52)
    else if c == 43 then Some(62)
    else if c == 44 then Some(63)
    else None
  }

  lemma SymbolInverse(d: nat)
    requires d < 64
    ensures Lookup(Symbol(d)) == Some(d)
  {
  }

  function Symbols(ds: seq<nat>): (r: seq<nat>)
    requires forall i :: 0 <= i < |ds| ==> ds[i] < 64
  {
    seq(|ds|, i requires 0 <= i < |ds| => Symbol(ds[i]))
  }

  function Values(src: seq<nat>): (ds: seq<nat>)
    requires forall i :: 0 <= i < |src| ==> Lookup(src[i]).Some?
    ensures |ds| == |src| && Digits(ds, 6)
  {
    Pow2Values();
    seq(|src|, i requires 0 <= i < |src| => Lookup(src[i]).value)
  }

  predicate Known(name: seq<nat>) {
    forall i :: 0 <= i < |name| ==> Lookup(name[i]).Some?
  }

  /** The encoded length: the ceiling of 4n/3. */
  function EncodedLength(n: nat): (r: nat) { (4 * n + 2) / 3 }

  /** The int that collects bits: it never needs more than 13 of them. */
  type Accumulator = x: nat | x < 8192

  // ---- encoding ----

  /** After `i` bytes: the digits written so far and the accumulator make up the bytes read. */
  ghost predicate EncState(src: seq<nat>, i: nat, ds: seq<nat>, ac: nat, bits: nat) {
    && i <= |src| && Digits(ds, 6)
    && bits + 6 * |ds| == 8 * i
    && ac < Pow2(bits)
    && Val(src[..i], 8) == Val(ds, 6) + ac * Pow2(6 * |ds|)
  }

  lemma EncRead(src: seq<nat>, i: nat, ds: seq<nat>, ac: nat, bits: nat)
    requires Digits(src, 8) && i < |src| && EncState(src, i, ds, ac, bits)
    ensures EncState(src, i + 1, ds, ac + src[i] * Pow2(bits), bits + 8)
  {
    assert src[..i + 1] == src[..i] + [src[i]];
    ValPush(src[..i], src[i], 8);
    Pow2Add(bits, 6 * |ds|);
    Pow2Add(bits, 8);
    Pow2Values();
    MulLess(src[i], 256, Pow2(bits));
    Regroup(src[i], Pow2(bits), Pow2(6 * |ds|), ac);
  }

  lemma Regroup(s: nat, p: nat, q: nat, ac: nat)
    ensures s * (p * q) + ac * q == (ac + s * p) * q
  {
    assert s * (p * q) == s * p * q;
  }

  lemma EncEmit(src: seq<nat>, i: nat, ds: seq<nat>, ac: nat, bits: nat)
    requires EncState(src, i, ds, ac, bits) && bits >= 6
    ensures EncState(src, i, ds + [ac % 64], ac / 64, bits - 6)
  {
    Pow2Values();
    Pow2Add(bits - 6, 6);
    ValPush(ds, ac % 64, 6);
    Pow2Add(6 * |ds|, 6);
    assert 6 * |ds + [ac % 64]| == 6 * |ds| + 6;
    Divide(ac, Pow2(6 * |ds|));
  }

  lemma Divide(ac: nat, p: nat)
    ensures ac * p == ac % 64 * p + ac / 64 * (p * 64)
  {
    assert ac == ac / 64 * 64 + ac % 64;
    assert ac * p == (ac / 64 * 64) * p + (ac % 64) * p;
  }

  /** `dst` is the bytes' number in base 64, written with as many symbols as the ceiling of 4n/3. */
  predicate Encodes(src: seq<nat>, dst: seq<nat>) {
    Known(dst) && |dst| == EncodedLength(|src|) && Val(Values(dst), 6) == Val(src, 8)
  }

  /** digest_encode */
  method Encode(src: seq<nat>) returns (dst: seq<nat>)
    requires Digits(src, 8)
    ensures Encodes(src, dst)
  {
    dst := [];
    ghost var ds: seq<nat> := [];
    var i: nat, bits: nat := 0, 0;
    var ac: Accumulator := 0;
    while i < |src|
      invariant EncLoop(src, i, dst, ds, ac, bits)
    {
      dst, ac, bits, ds := EncodeByte(src, i, dst, ac, bits, ds);
      i := i + 1;
    }
    if bits != 0 {
      EncLast(src, ds, ac, bits);
      dst := dst + [Symbol(ac % 64)];
      ds := ds + [ac % 64];
      assert dst == Symbols(ds);
    } else {
      EncNone(src, ds, ac);
    }
    SymbolsBack(ds);
  }

  ghost predicate EncLoop(src: seq<nat>, i: nat, dst: seq<nat>, ds: seq<nat>, ac: nat, bits: nat) {
    && bits < 6 && EncState(src, i, ds, ac, bits)
    && (forall k :: 0 <= k < |ds| ==> ds[k] < 64) && dst == Symbols(ds)
  }

  /** One round of the encoder's outer loop. */
  method EncodeByte(src: seq<nat>, i: nat, dst: seq<nat>, ac: Accumulator, bits: nat, ghost ds: seq<nat>)
    returns (dst': seq<nat>, ac': Accumulator, bits': nat, ghost ds': seq<nat>)
    requires Digits(src, 8) && i < |src| && EncLoop(src, i, dst, ds, ac, bits)
    ensures EncLoop(src, i + 1, dst', ds', ac', bits')
  {
    EncRead(src, i, ds, ac, bits);
    Below13(ac + src[i] * Pow2(bits), bits + 8);
    var sum: Accumulator := ac + src[i] * Pow2(bits);
    dst', ac', bits', ds' := Drain(src, i + 1, dst, sum, bits + 8, ds);
  }

  lemma EncNone(src: seq<nat>, ds: seq<nat>, ac: nat)
    requires EncState(src, |src|, ds, ac, 0)
    ensures Val(ds, 6) == Val(src, 8)
  {
    assert src[..|src|] == src;
    assert ac == 0;
  }

  lemma EncLast(src: seq<nat>, ds: seq<nat>, ac: nat, bits: nat)
    requires EncState(src, |src|, ds, ac, bits) && bits < 6
    ensures ac % 64 == ac && Digits(ds + [ac], 6) && Val(ds + [ac], 6) == Val(src, 8)
  {
    Below64(ac, bits);
    assert src[..|src|] == src;
    ValPush(ds, ac, 6);
  }

  lemma Below64(ac: nat, bits: nat)
    requires ac < Pow2(bits) && bits < 6
    ensures ac < 64 == Pow2(6)
  {
    Pow2Values();
    Pow2Mono(bits, 6);
  }

  /** The inner do-while loop: write symbols until fewer than six bits are left. */
  method Drain(ghost src: seq<nat>, ghost i: nat, dst: seq<nat>, ac: Accumulator, bits: nat, ghost ds: seq<nat>)
    returns (dst': seq<nat>, ac': Accumulator, bits': nat, ghost ds': seq<nat>)
    requires EncState(src, i, ds, ac, bits) && bits >= 6
    requires (forall k :: 0 <= k < |ds| ==> ds[k] < 64) && dst == Symbols(ds)
    ensures bits' < 6 && EncState(src, i, ds', ac', bits')
    ensures (forall k :: 0 <= k < |ds'| ==> ds'[k] < 64) && dst' == Symbols(ds')
  {
    dst', ac', bits', ds' := dst, ac, bits, ds;
    while bits' >= 6
      invariant EncState(src, i, ds', ac', bits')
      invariant (forall k :: 0 <= k < |ds'| ==> ds'[k] < 64) && dst' == Symbols(ds')
    {
      EncEmit(src, i, ds', ac', bits');
      dst' := dst' + [Symbol(ac' % 64)];
      ds' := ds' + [ac' % 64];
      ac' := ac' / 64;
      bits' := bits' - 6;
    }
  }

  // ---- decoding ----

  /** digest_decode's two failures */
  datatype Decoded = Bytes(bytes: seq<nat>) | BadSymbol | LeftOver

  ghost predicate DecState(ds: seq<nat>, i: nat, out: seq<nat>, ac: nat, bits: nat) {
    && i <= |ds| && Digits(out, 8)
    && bits + 8 * |out| == 6 * i
    && ac < Pow2(bits)
    && Val(ds[..i], 6) == Val(out, 8) + ac * Pow2(8 * |out|)
  }

  lemma DecRead(ds: seq<nat>, i: nat, out: seq<nat>, ac: nat, bits: nat)
    requires Digits(ds, 6) && i < |ds| && DecState(ds, i, out, ac, bits)
    ensures DecState(ds, i + 1, out, ac + ds[i] * Pow2(bits), bits + 6)
  {
    assert ds[..i + 1] == ds[..i] + [ds[i]];
    ValPush(ds[..i], ds[i], 6);
    Pow2Add(bits, 8 * |out|);
    Pow2Add(bits, 6);
    Pow2Values();
    MulLess(ds[i], 64, Pow2(bits));
    Regroup(ds[i], Pow2(bits), Pow2(8 * |out|), ac);
  }

  lemma DecEmit(ds: seq<nat>, i: nat, out: seq<nat>, ac: nat, bits: nat)
    requires DecState(ds, i, out, ac, bits) && bits >= 8
    ensures DecState(ds, i, out + [ac % 256], ac / 256, bits - 8)
  {
    Pow2Values();
    Pow2Add(bits - 8, 8);
    ValPush(out, ac % 256, 8);
    Pow2Add(8 * |out|, 8);
    assert 8 * |out + [ac % 256]| == 8 * |out| + 8;
    Divide256(ac, Pow2(8 * |out|));
  }

  lemma Divide256(ac: nat, p: nat)
    ensures ac * p == ac % 256 * p + ac / 256 * (p * 256)
  {
    assert ac == ac / 256 * 256 + ac % 256;
    assert ac * p == (ac / 256 * 256) * p + (ac % 256) * p;
  }

  /** How many symbols come before the first foreign one. */
  function GoodPrefix(src: seq<nat>): (r: nat)
    ensures r <= |src| && (forall i :: 0 <= i < r ==> Lookup(src[i]).Some?)
    ensures r < |src| ==> Lookup(src[r]).None?
  {
    if src == [] || Lookup(src[0]).None? then 0 else 1 + GoodPrefix(src[1..])
  }

  lemma GoodPrefixAt(src: seq<nat>, k: nat)
    requires k <= |src| && (forall i :: 0 <= i < k ==> Lookup(src[i]).Some?)
    requires k < |src| ==> Lookup(src[k]).None?
    ensures GoodPrefix(src) == k
  {
  }

  /** The symbols' number has no bits beyond the whole bytes. */
  predicate Decodable(name: seq<nat>) {
    Known(name) && Val(Values(name), 6) < Pow2(8 * (6 * |name| / 8))
  }

  /** A foreign symbol or left-over bits are refused; otherwise `r` is the whole bytes of the symbols' number. */
  predicate Decodes(name: seq<nat>, r: Decoded) {
    && (r.BadSymbol? <==> !Known(name))
    && (r.Bytes? <==> Decodable(name))
    && (r.Bytes? ==> Digits(r.bytes, 8) && |r.bytes| == 6 * |name| / 8 && Val(r.bytes, 8) == Val(Values(name), 6))
  }

  /** digest_decode; `written` counts the bytes stored in the caller's buffer, whether the name is refused or not */
  method Decode(src: seq<nat>) returns (r: Decoded, written: nat)
    ensures Decodes(src, r) && written == 6 * GoodPrefix(src) / 8
  {
    var good, out, ac;
    ghost var bits, n;
    good, out, ac, bits, n := DecodeLoop(src);
    WholeBytes(6 * n, |out|, bits);
    GoodPrefixAt(src, n);
    written := |out|;
    if !good {
      return BadSymbol, written;
    }
    DecodeDone(Values(src), out, ac, bits);
    r := if ac != 0 then LeftOver else Bytes(out);
  }

  lemma DecodeDone(ds: seq<nat>, out: seq<nat>, ac: nat, bits: nat)
    requires DecState(ds, |ds|, out, ac, bits) && bits < 8
    ensures |out| == 6 * |ds| / 8
    ensures ac == 0 <==> Val(ds, 6) < Pow2(8 * |out|)
    ensures ac == 0 ==> Val(out, 8) == Val(ds, 6)
  {
    assert ds[..|ds|] == ds;
    WholeBytes(6 * |ds|, |out|, bits);
    ValBound(out, 8);
    LeftOverBits(Val(out, 8), ac, Pow2(8 * |out|), Val(ds, 6));
  }

  lemma WholeBytes(total: nat, n: nat, bits: nat)
    requires bits < 8 && bits + 8 * n == total
    ensures total / 8 == n
  {
  }

  method DecodeLoop(src: seq<nat>) returns (good: bool, out: seq<nat>, ac: Accumulator, ghost bits: nat, ghost n: nat)
    ensures n <= |src| && (good <==> n == |src|)
    ensures (forall i :: 0 <= i < n ==> Lookup(src[i]).Some?) && (n < |src| ==> Lookup(src[n]).None?)
    ensures bits < 8 && bits + 8 * |out| == 6 * n
    ensures good ==> DecState(Values(src), |src|, out, ac, bits)
  {
    ac, out := 0, [];
    var i: nat, left: nat := 0, 0;
    ghost var ds: seq<nat> := [];
    while i < |src|
      invariant i <= |src|
      invariant forall k :: 0 <= k < i ==> Lookup(src[k]).Some? && |ds| == i && ds[k] == Lookup(src[k]).value
      invariant DecLoop(ds, i, out, ac, left)
    {
      var p := Lookup(src[i]);
      if p.None? {
        good, bits, n := false, left, i;
        return;
      }
      out, ac, left := DecodeNext(ds, out, ac, left, p.value);
      ds := ds + [p.value];
      i := i + 1;
    }
    assert ds == Values(src);
    good, bits, n := true, left, i;
  }

  ghost predicate DecLoop(ds: seq<nat>, i: nat, out: seq<nat>, ac: nat, bits: nat) {
    |ds| == i && Digits(ds, 6) && bits < 8 && DecState(ds, i, out, ac, bits)
  }

  method DecodeNext(ghost ds: seq<nat>, out: seq<nat>, ac: Accumulator, bits: nat, d: nat)
    returns (out': seq<nat>, ac': Accumulator, bits': nat)
    requires DecLoop(ds, |ds|, out, ac, bits) && d < 64
    ensures DecLoop(ds + [d], |ds| + 1, out', ac', bits')
  {
    PushDigit(ds, d, out, ac, bits);
    out', ac', bits' := DecodeOne(ds + [d], |ds|, out, ac, bits, d);
  }

  lemma PushDigit(ds: seq<nat>, d: nat, out: seq<nat>, ac: nat, bits: nat)
    requires Digits(ds, 6) && d < 64 && DecState(ds, |ds|, out, ac, bits)
    ensures Digits(ds + [d], 6) && DecState(ds + [d], |ds|, out, ac, bits)
  {
    Pow2Values();
    assert (ds + [d])[..|ds|] == ds && ds[..|ds|] == ds;
  }

  /** One round of the decoder's loop. */
  method DecodeOne(ghost ds: seq<nat>, ghost i: nat, out: seq<nat>, ac: Accumulator, bits: nat, d: nat)
    returns (out': seq<nat>, ac': Accumulator, bits': nat)
    requires Digits(ds, 6) && i < |ds| && ds[i] == d && bits < 8 && DecState(ds, i, out, ac, bits)
    ensures bits' < 8 && DecState(ds, i + 1, out', ac', bits')
  {
    DecRead(ds, i, out, ac, bits);
    Below13(ac + d * Pow2(bits), bits + 6);
    var sum: Accumulator, more := ac + d * Pow2(bits), bits + 6;
    if more < 8 {
      return out, sum, more;
    }
    DecEmit(ds, i + 1, out, sum, more);
    return out + [sum % 256], sum / 256, more - 8;
  }

  lemma Below13(ac: nat, bits: nat)
    requires ac < Pow2(bits) && bits <= 13
    ensures ac < 8192
  {
    Pow2Values();
    Pow2Mono(bits, 13);
  }

  lemma LeftOverBits(v: nat, ac: nat, p: nat, total: nat)
    requires v < p && total == v + ac * p
    ensures total < p <==> ac == 0
    ensures ac == 0 ==> total == v
  {
    if ac > 0 {
      MulLess(0, ac, p);
    }
  }

  // ---- round trips ----

  /** Decoding undoes encoding, for every byte string. */
  lemma RoundTrip(src: seq<nat>, dst: seq<nat>, r: Decoded)
    requires Digits(src, 8) && Encodes(src, dst) && Decodes(dst, r)
    ensures r == Bytes(src)
  {
    LengthBack(|src|);
    ValBound(src, 8);
    ValUnique(r.bytes, src, 8);
  }

  lemma SymbolsBack(ds: seq<nat>)
    requires forall i :: 0 <= i < |ds| ==> ds[i] < 64
    ensures forall i :: 0 <= i < |ds| ==> Lookup(Symbols(ds)[i]).Some?
    ensures Values(Symbols(ds)) == ds
  {
    forall i | 0 <= i < |ds| ensures Lookup(Symbols(ds)[i]) == Some(ds[i]) {
      SymbolInverse(ds[i]);
    }
  }

  lemma LengthBack(n: nat)
    ensures 6 * EncodedLength(n) / 8 == n
  {
  }

  /**
   * Encoding undoes decoding exactly for names whose length is not one more
   * than a multiple of four.  A name with that length that decodes ends in
   * the symbol for zero, and stands for the same bytes without it.
   */
  lemma Reencode(name: seq<nat>, b: seq<nat>, again: seq<nat>)
    requires Decodes(name, Bytes(b)) && Encodes(b, again)
    ensures again == name <==> |name| % 4 != 1
    ensures |name| % 4 == 1 ==> name == again + [Symbol(0)]
  {
    var ds := Values(again);
    Small(ds);
    Canonical(name, ds);
    ValuesBack(again);
  }

  /** The shortest such name: the symbol for zero, which decodes to no bytes at all. */
  lemma ReencodeFails()
    ensures Decodes([Symbol(0)], Bytes([])) && Encodes([], []) && [Symbol(0)] != []
  {
    var vs := Values([Symbol(0)]);
    assert vs == [0] && vs[..0] == [];
    assert Val(vs, 6) == Val([], 6) + 0 * Pow2(0);
  }

  lemma Small(ds: seq<nat>)
    requires Digits(ds, 6)
    ensures forall i :: 0 <= i < |ds| ==> ds[i] < 64
  {
    Pow2Values();
  }

  lemma ValuesBack(name: seq<nat>)
    requires Known(name)
    ensures (forall i :: 0 <= i < |name| ==> Values(name)[i] < 64) && Symbols(Values(name)) == name
  {
    SymbolsOf(name, Values(name));
  }

  lemma Canonical(name: seq<nat>, ds: seq<nat>)
    requires Known(name) && Digits(ds, 6) && (forall i :: 0 <= i < |ds| ==> ds[i] < 64)
    requires |ds| == EncodedLength(6 * |name| / 8) && Val(ds, 6) == Val(Values(name), 6)
    ensures if |name| % 4 == 1 then name == Symbols(ds) + [Symbol(0)] else name == Symbols(ds)
  {
    LengthAgain(|name|);
    if |name| % 4 == 1 {
      var n := |name| - 1;
      TrailingZero(Values(name), ds);
      assert Values(name)[n] == 0;
      forall i | 0 <= i < n ensures Lookup(name[..n][i]) == Some(ds[i]) {
        assert Values(name)[i] == ds[i];
      }
      SymbolsOf(name[..n], ds);
      assert name == name[..n] + [name[n]];
    } else {
      ValUnique(Values(name), ds, 6);
      forall i | 0 <= i < |name| ensures Lookup(name[i]) == Some(ds[i]) {
        assert Values(name)[i] == ds[i];
      }
      SymbolsOf(name, ds);
    }
  }

  lemma LengthAgain(n: nat)
    ensures EncodedLength(6 * n / 8) == if n % 4 == 1 then n - 1 else n
  {
    var k, m := n / 4, n % 4;
    assert 6 * n / 8 == 3 * k + (if m < 2 then 0 else m - 1);
  }

  /** Symbols are determined by their values. */
  lemma SymbolsOf(name: seq<nat>, ds: seq<nat>)
    requires |name| == |ds| && forall i :: 0 <= i < |ds| ==> ds[i] < 64 && Lookup(name[i]) == Some(ds[i])
    ensures Symbols(ds) == name
  {
    forall i | 0 <= i < |ds| ensures Symbols(ds)[i] == name[i] {
      assert Lookup(name[i]) == Some(ds[i]);
    }
  }

  lemma TrailingZero(vs: seq<nat>, ds: seq<nat>)
    requires Digits(vs, 6) && Digits(ds, 6) && |vs| % 4 == 1 && |ds| == |vs| - 1
    requires Val(vs, 6) == Val(ds, 6)
    ensures vs == ds + [0]
  {
    var n := |vs| - 1;
    ValBound(ds, 6);
    ValBound(vs[..n], 6);
    SameSplit(Val(vs[..n], 6), vs[n], Val(ds, 6), 0, Pow2(6 * n));
    ValUnique(vs[..n], ds, 6);
    assert vs == vs[..n] + [vs[n]];
  }

  /** Two byte strings have the same encoding exactly when they are the same. */
  lemma EncodingInjective(a: seq<nat>, b: seq<nat>, x: seq<nat>, y: seq<nat>)
    requires Digits(a, 8) && Digits(b, 8) && Encodes(a, x) && Encodes(b, y)
    ensures x == y <==> a == b
  {
    LengthBack(|a|);
    LengthBack(|b|);
    if x == y {
      ValUnique(a, b, 8);
    }
    if a == b {
      ValUnique(Values(x), Values(y), 6);
      ValuesBack(x);
      ValuesBack(y);
    }
  }

  // ---- names without a key ----

  const UNDERSCORE: nat := 95
  const DOT: nat := 46
  const DIGEST_SIZE: nat := 32            // F2FS_FNAME_CRYPTO_DIGEST_SIZE
  const BUFFER_SIZE: nat := 32            // what f2fs_fname_setup_filename allocates

  predicate IsDots(name: seq<nat>) {
    name == [DOT] || name == [DOT, DOT]
  }

  /** What a long name is digested to: its hash, four zero bytes and its last sixteen bytes. */
  function BigDigest(disk: seq<nat>, hash: Option<seq<nat>>): (r: seq<nat>)
    requires |disk| > DIGEST_SIZE && (hash.Some? ==> |hash.value| == 4)
    ensures |r| == 24
  {
    (if hash.Some? then hash.value + [0, 0, 0, 0] else [0, 0, 0, 0, 0, 0, 0, 0]) + disk[|disk| - 16..]
  }

  /** How a name on disk is shown without a key: dot names as they are, short names encoded, long ones by their digest. */
  predicate ShownAs(disk: seq<nat>, hash: Option<seq<nat>>, name: seq<nat>)
    requires hash.Some? ==> |hash.value| == 4
  {
    if IsDots(disk) then name == disk
    else if |disk| <= DIGEST_SIZE then Encodes(disk, name)
    else name != [] && name[0] == UNDERSCORE && Encodes(BigDigest(disk, hash), name[1..])
  }

  /** f2fs_fname_disk_to_usr without a key */
  method DiskToUser(disk: seq<nat>, hash: Option<seq<nat>>) returns (name: seq<nat>)
    requires Digits(disk, 8) && (hash.Some? ==> |hash.value| == 4 && Digits(hash.value, 8))
    ensures ShownAs(disk, hash, name)
  {
    if IsDots(disk) {
      return disk;
    }
    if |disk| <= DIGEST_SIZE {
      name := Encode(disk);
      return;
    }
    DigestBytes(disk, hash);
    var dst := Encode(BigDigest(disk, hash));
    name := [UNDERSCORE] + dst;
    assert name[1..] == dst;
  }

  lemma DigestBytes(disk: seq<nat>, hash: Option<seq<nat>>)
    requires Digits(disk, 8) && |disk| > DIGEST_SIZE && (hash.Some? ==> |hash.value| == 4 && Digits(hash.value, 8))
    ensures Digits(BigDigest(disk, hash), 8)
  {
    Pow2Values();
    var digest := BigDigest(disk, hash);
    forall i | 0 <= i < |digest| ensures digest[i] < Pow2(8) {
      assert i >= 8 ==> digest[i] == disk[|disk| - 16 + i - 8];
    }
  }

  /** What a lookup goes by: the name on disk, or the digest of a long one. */
  datatype Filename = NotFound | OnDisk(disk: seq<nat>) | Digested(digest: seq<nat>)

  predicate Marked(name: seq<nat>) { name != [] && name[0] == UNDERSCORE }

  /** The part of a user's name that is decoded. */
  function Encoded(name: seq<nat>): (r: seq<nat>) {
    if Marked(name) then name[1..] else name
  }

  predicate LengthOk(name: seq<nat>) {
    if Marked(name) then |name| == 33 else |name| <= 43
  }

  /** What a lookup by this name without a key goes by: nothing exactly for its length, a foreign symbol or left-over bits. */
  predicate LooksUp(name: seq<nat>, r: Filename) {
    if IsDots(name) then r == OnDisk(name)
    else match r
      case NotFound => !LengthOk(name) || !Decodable(Encoded(name))
      case OnDisk(disk) => LengthOk(name) && !Marked(name) && Decodes(Encoded(name), Bytes(disk))
      case Digested(digest) => LengthOk(name) && Marked(name) && Decodes(Encoded(name), Bytes(digest))
  }

  /**
   * f2fs_fname_setup_filename for a lookup without a key.  Whatever the name,
   * the decoder stays inside the buffer; a long name gives a digest of 24 bytes.
   */
  method SetupFilename(name: seq<nat>) returns (r: Filename, written: nat)
    ensures LooksUp(name, r) && written <= BUFFER_SIZE
    ensures r.OnDisk? ==> |r.disk| <= BUFFER_SIZE
    ensures r.Digested? ==> |r.digest| == 24
  {
    if IsDots(name) {
      return OnDisk(name), 0;
    }
    if !LengthOk(name) {
      return NotFound, 0;
    }
    var d;
    d, written := Decode(Encoded(name));
    r := if !d.Bytes? then NotFound else if Marked(name) then Digested(d.bytes) else OnDisk(d.bytes);
  }

  /** A name shown without a key leads a lookup to the name, or the digest, it was made from. */
  lemma ShownNameFound(disk: seq<nat>, hash: Option<seq<nat>>, name: seq<nat>, r: Filename)
    requires Digits(disk, 8) && (hash.Some? ==> |hash.value| == 4 && Digits(hash.value, 8))
    requires ShownAs(disk, hash, name) && LooksUp(name, r)
    ensures r == if |disk| <= DIGEST_SIZE then OnDisk(disk) else Digested(BigDigest(disk, hash))
  {
    if !IsDots(disk) {
      var src := if |disk| <= DIGEST_SIZE then disk else BigDigest(disk, hash);
      if |disk| > DIGEST_SIZE { DigestBytes(disk, hash); } else { Plain(name); }
      assert Encodes(src, Encoded(name));
      assert Decodable(Encoded(name)) by {
        LengthBack(|src|);
        ValBound(src, 8);
      }
      match r {
        case OnDisk(d) => RoundTrip(src, Encoded(name), Bytes(d));
        case Digested(d) => RoundTrip(src, Encoded(name), Bytes(d));
        case NotFound => assert false;
      }
    }
  }

  /** No encoding looks like a dot name or begins with the mark of a long one. */
  lemma Plain(name: seq<nat>)
    requires Known(name)
    ensures !IsDots(name) && !Marked(name)
  {
    if name != [] {
      assert Lookup(name[0]).Some?;
    }
  }
}
