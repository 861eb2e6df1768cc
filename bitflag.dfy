/** The growable bit set `bitflag`: a byte buffer holding `size` flags, flag i
    being bit `i % 8` of byte `i / 8`, together with a counter that `set`
    moves up or down. */
module Bitflags {
  import opened Bytes
  import opened Sizes

  /** The number of bytes of the buffer of an n-flag bitflag: n / 8 rounded up. */
  function ByteCount(n: nat): (c: nat)
    ensures 8 * c >= n && (c > 0 ==> 8 * (c - 1) < n)
  {
    n / 8 + (if n % 8 > 0 then 1 else 0)
  }

  /** Flag i lives in a byte of the buffer of any bitflag longer than i. */
  lemma ByteInRange(i: nat, n: nat)
    requires i < n
    ensures i / 8 < ByteCount(n)
  {
  }

  /** The last byte of a non-empty n-flag buffer holds between one and eight
      of its flags. */
  lemma LastByteBounds(n: nat)
    requires n >= 1
    ensures 1 <= n - 8 * (ByteCount(n) - 1) <= 8
  {
  }

  /** Flag `8 * k + j` is bit j of byte k. */
  lemma FlagPosition(k: nat, j: nat)
    requires j < 8
    ensures (8 * k + j) / 8 == k && (8 * k + j) % 8 == j
  {
  }

  // ---------------------------------------------------------------------
  // The flags a bitflag holds, as a sequence, and what the operations do to them

  /** n flags, all false: what a freshly constructed bitflag of size n holds. */
  function Cleared(n: nat): (s: seq<bool>)
    ensures |s| == n && forall i :: 0 <= i < n ==> !s[i]
  {
    seq(n, i => false)
  }

  /** The flags after `resize(n)`: the first n old flags, then false up to n. */
  function Resized(s: seq<bool>, n: nat): (r: seq<bool>)
    ensures |r| == n
    ensures forall j :: 0 <= j < n ==> r[j] == (j < |s| && s[j])
  {
    if n <= |s| then s[..n] else s + Cleared(n - |s|)
  }

  /** The flags of `!a`: each one flipped. */
  function Negated(s: seq<bool>): seq<bool>
  {
    seq(|s|, i requires 0 <= i < |s| => !s[i])
  }

  /** The number of set flags among the first n. */
  function Ones(s: seq<bool>, n: nat): (c: nat)
    requires n <= |s|
    ensures c <= n
  {
    if n == 0 then 0 else Ones(s, n - 1) + (if s[n - 1] then 1 else 0)
  }

  // ---------------------------------------------------------------------
  // operator&

  /** The full byte k of a and b passes operator&: either both bytes are zero,
      or they share a set bit. */
  predicate FullByteOk(a: seq<bool>, b: seq<bool>, k: nat)
    requires 8 * k + 8 <= |b| <= |a|
  {
    var x, y := a[8 * k .. 8 * k + 8], b[8 * k .. 8 * k + 8];
    || (forall j :: 0 <= j < 8 ==> !x[j] && !y[j])
    || (exists j :: 0 <= j < 8 && x[j] && y[j])
  }

  /** The last, possibly partial, byte of b passes operator&: the flags of a and
      b in it agree up to the size of b. */
  predicate LastByteMatches(a: seq<bool>, b: seq<bool>)
    requires 1 <= |b| <= |a|
  {
    var lo := 8 * (ByteCount(|b|) - 1);
    a[lo..|b|] == b[lo..]
  }

  /** The verdict of `a & b`, on the first |b| flags of each: every full byte
      passes and the last byte matches. */
  predicate AndFlags(a: seq<bool>, b: seq<bool>)
    requires 1 <= |b| <= |a|
  {
    && (forall k :: 0 <= k < ByteCount(|b|) - 1 ==> FullByteOk(a, b, k))
    && LastByteMatches(a, b)
  }

  // ---------------------------------------------------------------------
  // operator<<

  /** The text `operator<<` writes: one '0' or '1' per flag, flag 0 first. */
  function Render(s: seq<bool>): (t: string)
    ensures |t| == |s|
    ensures forall i :: 0 <= i < |s| ==> t[i] == (if s[i] then '1' else '0')
  {
    if s == [] then "" else [if s[0] then '1' else '0'] + Render(s[1..])
  }

  // ---------------------------------------------------------------------
  // The buffer

  /** Flag i as the buffer holds it: bit `i % 8` of byte `i / 8`. */
  function FlagOf(bytes: seq<bv8>, i: nat): bool
  {
    i / 8 < |bytes| && BitOf(bytes[i / 8], i % 8)
  }

  /** The buffer holds the flags. */
  ghost predicate Encodes(bytes: seq<bv8>, flags: seq<bool>)
  {
    forall i {:trigger FlagOf(bytes, i)} :: 0 <= i < |flags| ==> flags[i] == FlagOf(bytes, i)
  }

  /** The first n flags a buffer holds. */
  ghost function Decode(bytes: seq<bv8>, n: nat): (flags: seq<bool>)
    ensures |flags| == n && Encodes(bytes, flags)
  {
    seq(n, i requires 0 <= i => FlagOf(bytes, i))
  }

  /** Two flags in the same byte are at the same bit only if they are the
      same flag. */
  lemma SameByteSameBit(i: nat, pos: nat)
    requires i / 8 == pos / 8
    ensures (i % 8 == pos % 8) == (i == pos)
  {
    assert i == 8 * (i / 8) + i % 8 && pos == 8 * (pos / 8) + pos % 8;
  }

  /** The byte `set(pos, value)` writes: bit r of b set or cleared. */
  function Store(b: bv8, r: nat, value: bool): (c: bv8)
    requires r < 8
    ensures forall j :: 0 <= j < 8 ==> BitOf(c, j) == if j == r then value else BitOf(b, j)
  {
    var c := if value then b | Mask(r) else b & !Mask(r);
    assert forall j :: 0 <= j < 8 ==> BitOf(c, j) == if j == r then value else BitOf(b, j) by {
      if value {
        forall j | 0 <= j < 8 ensures BitOf(b | Mask(r), j) == (j == r || BitOf(b, j)) {
          SetBit(b, r, j);
        }
      } else {
        forall j | 0 <= j < 8 ensures BitOf(b & !Mask(r), j) == (j != r && BitOf(b, j)) {
          ClearBit(b, r, j);
        }
      }
    }
    c
  }

  /** Storing bit `pos % 8` of byte `pos / 8` changes flag pos and no other. */
  lemma EncodesUpdate(bytes: seq<bv8>, flags: seq<bool>, pos: nat, value: bool)
    requires Encodes(bytes, flags) && |bytes| == ByteCount(|flags|) && pos < |flags|
    ensures pos / 8 < |bytes|
    ensures Encodes(bytes[pos / 8 := Store(bytes[pos / 8], pos % 8, value)], flags[pos := value])
  {
    ByteInRange(pos, |flags|);
    var q := pos / 8;
    var c := Store(bytes[q], pos % 8, value);
    var bytes', flags' := bytes[q := c], flags[pos := value];
    assert flags[pos] == FlagOf(bytes, pos);
    forall i | 0 <= i < |flags'| ensures flags'[i] == FlagOf(bytes', i) {
      assert flags[i] == FlagOf(bytes, i);
      if i / 8 == q {
        SameByteSameBit(i, pos);
      }
    }
  }

  /** A buffer that keeps the bytes of the first k flags keeps those flags. */
  lemma DecodeKeeps(bytes: seq<bv8>, flags: seq<bool>, bytes': seq<bv8>, n: nat, k: nat)
    requires Encodes(bytes, flags)
    requires k <= n && k <= |flags| && ByteCount(k) <= |bytes| && ByteCount(k) <= |bytes'|
    requires bytes'[..ByteCount(k)] == bytes[..ByteCount(k)]
    ensures Decode(bytes', n)[..k] == flags[..k]
  {
    var d := Decode(bytes', n);
    forall i | 0 <= i < k ensures d[i] == flags[i] {
      ByteInRange(i, k);
      assert bytes'[i / 8] == bytes'[..ByteCount(k)][i / 8];
      assert flags[i] == FlagOf(bytes, i);
    }
  }

  /** The t flags from `8 * k` on are the first t bits of byte k. */
  lemma ByteBits(xs: seq<bv8>, a: seq<bool>, k: nat, t: nat)
    requires Encodes(xs, a) && t <= 8 && 8 * k + t <= |a| && k < |xs|
    ensures forall j :: 0 <= j < t ==> a[8 * k .. 8 * k + t][j] == BitOf(xs[k], j)
  {
    forall j | 0 <= j < t ensures a[8 * k .. 8 * k + t][j] == BitOf(xs[k], j) {
      FlagPosition(k, j);
      assert a[8 * k + j] == FlagOf(xs, 8 * k + j);
    }
  }

  /** Eight flags read off a byte: none is set exactly when the byte is zero. */
  lemma ZeroFlags(x: seq<bool>, xb: bv8)
    requires |x| == 8 && forall j :: 0 <= j < 8 ==> x[j] == BitOf(xb, j)
    ensures (xb == 0) == forall j :: 0 <= j < 8 ==> !x[j]
  {
    ZeroByte(xb);
  }

  /** Eight flags read off each of two bytes: they share a set flag exactly
      when the two bytes share a set bit. */
  lemma CommonFlag(x: seq<bool>, xb: bv8, y: seq<bool>, yb: bv8)
    requires |x| == 8 && forall j :: 0 <= j < 8 ==> x[j] == BitOf(xb, j)
    requires |y| == 8 && forall j :: 0 <= j < 8 ==> y[j] == BitOf(yb, j)
    ensures (xb & yb != 0) == exists j :: 0 <= j < 8 && x[j] && y[j]
  {
    AndNonZero(xb, yb);
    if xb & yb != 0 {
      var j :| 0 <= j < 8 && BitOf(xb, j) && BitOf(yb, j);
      assert x[j] && y[j];
    }
  }

  /** What operator& tests of a full byte k, read on the two buffers: both
      bytes zero, or a common set bit. */
  lemma FullByteVerdict(xs: seq<bv8>, a: seq<bool>, ys: seq<bv8>, b: seq<bool>, k: nat)
    requires Encodes(xs, a) && Encodes(ys, b) && 8 * k + 8 <= |b| <= |a|
    requires |xs| == ByteCount(|a|) && |ys| == ByteCount(|b|)
    ensures k < |xs| && k < |ys|
    ensures FullByteOk(a, b, k) == ((xs[k] == 0 && ys[k] == 0) || xs[k] & ys[k] != 0)
  {
    var x, y := a[8 * k .. 8 * k + 8], b[8 * k .. 8 * k + 8];
    ByteBits(xs, a, k, 8);
    ByteBits(ys, b, k, 8);
    ZeroFlags(x, xs[k]);
    ZeroFlags(y, ys[k]);
    CommonFlag(x, xs[k], y, ys[k]);
  }

  /** The first t flags read off each of two bytes are the same exactly when
      the two bytes agree under the low mask of t bits. */
  lemma MatchingFlags(x: seq<bool>, xb: bv8, y: seq<bool>, yb: bv8, t: nat)
    requires t <= 8 && |x| == t && |y| == t
    requires forall j :: 0 <= j < t ==> x[j] == BitOf(xb, j)
    requires forall j :: 0 <= j < t ==> y[j] == BitOf(yb, j)
    ensures (x == y) == SameUnder(xb, yb, LowMask(t))
  {
    MaskedEqual(xb, yb, t);
    if x != y {
      var j :| 0 <= j < t && x[j] != y[j];
      assert BitOf(xb, j) != BitOf(yb, j);
    }
  }

  /** What operator& tests of the last byte k, read on the two buffers: the
      first t bits of the two bytes, under the low mask of t bits, are equal. */
  lemma LastByteVerdict(xs: seq<bv8>, a: seq<bool>, ys: seq<bv8>, b: seq<bool>, k: nat, t: nat)
    requires Encodes(xs, a) && Encodes(ys, b) && 1 <= |b| <= |a|
    requires |xs| == ByteCount(|a|) && |ys| == ByteCount(|b|)
    requires k == ByteCount(|b|) - 1 && t == |b| - 8 * k
    ensures 1 <= t <= 8 && k < |xs| && k < |ys|
    ensures LastByteMatches(a, b) == SameUnder(xs[k], ys[k], LowMask(t))
  {
    LastByteBounds(|b|);
    ByteBits(xs, a, k, t);
    ByteBits(ys, b, k, t);
    assert b[8 * k ..] == b[8 * k .. 8 * k + t];
    MatchingFlags(a[8 * k .. 8 * k + t], xs[k], b[8 * k .. 8 * k + t], ys[k], t);
  }

  /** The flags after a resize to n, one by one: the old flags below the old
      size, cleared flags from there on. */
  lemma ResizedPointwise(s: seq<bool>, t: seq<bool>, n: nat)
    requires |t| == n
    requires forall j :: 0 <= j < n && j < |s| ==> t[j] == s[j]
    requires forall j :: |s| <= j < n ==> !t[j]
    ensures t == Resized(s, n)
  {
  }

  class Bitflag {
    var size: nat
    /** The enabled-flags counter. It is kept as an unbounded integer: the
        `size_t` the buffer stores is its residue modulo 2^64, which is what
        `enabled_flags_count` returns, since `++` and `--` on a `size_t`
        wrap exactly as the residue does (`Sizes.IncDecWrap`). */
    var enabledCount: int
    var bytes: seq<bv8>
    /** The flags the buffer holds. Bits of the last byte at or beyond `size`
        are not flags and may hold anything. */
    ghost var Flags: seq<bool>

    ghost predicate Valid()
      reads this
    {
      && |Flags| == size
      && |bytes| == ByteCount(size)
      && Encodes(bytes, Flags)
    }

    /** `bitflag(size = 1)`: n cleared flags in a zeroed buffer, count 0. */
    constructor (n: nat := 1)
      ensures Valid()
      ensures size == n && Flags == Cleared(n) && enabledCount == 0
    {
      size := n;
      enabledCount := 0;
      bytes := seq(ByteCount(n), k => 0);
      Flags := Cleared(n);
      new;
      forall i | 0 <= i < n ensures Flags[i] == FlagOf(bytes, i) {
        ByteInRange(i, n);
      }
    }

    /** The copy constructor: same size, same count, the buffer copied byte for
        byte. */
    constructor Copy(other: Bitflag)
      requires other.Valid()
      ensures Valid()
      ensures size == other.size && enabledCount == other.enabledCount
      ensures bytes == other.bytes && Flags == other.Flags
    {
      size := other.size;
      enabledCount := other.enabledCount;
      bytes := other.bytes;
      Flags := other.Flags;
    }

    /** `at(pos)`: the flag at pos, which must be below the size. */
    function At(pos: nat): (b: bool)
      reads this
      requires Valid() && pos < size
      ensures b == Flags[pos]
    {
      FlagOf(bytes, pos)
    }

    /** `enabled_flags_count()`: the counter as the `size_t` it is stored as.
        While the counter is exact, which holds from construction on as long as
        no flag is grown or set to the value it already has, it reports the
        number of set flags. */
    function EnabledFlagsCount(): (c: Size)
      reads this
      requires Valid()
      ensures enabledCount == Ones(Flags, size) && size < SIZE_MODULUS ==> c == Ones(Flags, size)
    {
      Wrap(enabledCount)
    }

    /** What `operator<<` writes: `at(j)` as a digit for each j below the
        size, flag 0 first. */
    function Written(): (t: string)
      reads this
      requires Valid()
      ensures t == Render(Flags)
    {
      var bs := bytes;
      var t := seq(size, j requires 0 <= j => if FlagOf(bs, j) then '1' else '0');
      assert forall j :: 0 <= j < size ==> t[j] == Render(Flags)[j];
      t
    }

    /** `set(pos, value)`: flag pos becomes value, the others stay; the count
        goes up by one for true and down by one for false, whatever the flag
        held before. */
    method Set(pos: nat, value: bool)
      requires Valid() && pos < size
      modifies this
      ensures Valid()
      ensures size == old(size) && Flags == old(Flags)[pos := value]
      ensures enabledCount == old(enabledCount) + (if value then 1 else -1)
      ensures EnabledFlagsCount()
              == if value then Inc(old(EnabledFlagsCount())) else Dec(old(EnabledFlagsCount()))
    {
      IncDecWrap(enabledCount);
      EncodesUpdate(bytes, Flags, pos, value);
      var q := pos / 8;
      bytes := bytes[q := Store(bytes[q], pos % 8, value)];
      enabledCount := enabledCount + (if value then 1 else -1);
      Flags := Flags[pos := value];
    }

    /** `resize(n)`: the buffer is reallocated to n / 8 rounded up bytes, the
        size becomes n, and each flag from the old size up to n is cleared with
        `set(i, false)`. Shrinking keeps the first n flags. */
    method Resize(n: nat)
      requires Valid()
      modifies this
      ensures Valid()
      ensures size == n && Flags == Resized(old(Flags), n)
      ensures n <= old(size) ==> enabledCount == old(enabledCount)
      ensures n > old(size) ==> enabledCount == old(enabledCount) - (n - old(size))
      ensures EnabledFlagsCount() == Wrap(old(EnabledFlagsCount()) - (if n > old(size) then n - old(size) else 0))
    {
      var oldSize := size;
      Reallocate(n);
      if oldSize < n {
        ClearFrom(oldSize);
      }
      ResizedPointwise(old(Flags), Flags, n);
      ghost var growth := if n > old(size) then n - old(size) else 0;
      assert EnabledFlagsCount() == Wrap(old(EnabledFlagsCount()) - growth) by {
        WrapAdd(old(enabledCount), -growth);
      }
    }

    /** The `realloc` of `resize`: the buffer takes the byte count of n flags,
        keeping the flags both sizes share; the count is untouched. */
    method Reallocate(n: nat)
      requires Valid()
      modifies this
      ensures Valid() && size == n && enabledCount == old(enabledCount)
      ensures forall j :: 0 <= j < n && j < old(size) ==> Flags[j] == old(Flags)[j]
    {
      var count := ByteCount(n);
      if count <= |bytes| {
        bytes := bytes[..count];
      } else {
        // realloc keeps the old bytes; the new ones hold whatever was there
        assert |seq(count - |bytes|, k => 0 as bv8)| == count - |bytes|;
        var extra: seq<bv8> :| |extra| == count - |bytes|;
        bytes := bytes + extra;
      }
      ghost var keep := if n <= size then n else size;
      DecodeKeeps(old(bytes), old(Flags), bytes, n, keep);
      size := n;
      Flags := Decode(bytes, n);
      assert forall j :: 0 <= j < keep ==> Flags[j] == Flags[..keep][j];
    }

    /** The loop of `resize`: `set(i, false)` for each i from `from` up to the
        size, each decrementing the count. */
    method ClearFrom(from: nat)
      requires Valid() && from <= size
      modifies this
      ensures Valid() && size == old(size)
      ensures forall j :: 0 <= j < from ==> Flags[j] == old(Flags)[j]
      ensures forall j :: from <= j < size ==> !Flags[j]
      ensures enabledCount == old(enabledCount) - (size - from)
    {
      var i := from;
      while i < size
        invariant Valid() && size == old(size) && from <= i <= size
        invariant forall j :: 0 <= j < from ==> Flags[j] == old(Flags)[j]
        invariant forall j :: from <= j < i ==> !Flags[j]
        invariant enabledCount == old(enabledCount) - (i - from)
      {
        Set(i, false);
        i := i + 1;
      }
    }

    /** `a & rhs`: requires a to be at least as long as rhs and rhs to be
        non-empty (for an empty rhs the byte count minus one underflows). The
        loop walks the full bytes before the last one, skipping a pair of zero
        bytes and failing on a pair with no common bit; the last byte is then
        compared under the mask of the bits left to check. */
    method And(rhs: Bitflag) returns (r: bool)
      requires Valid() && rhs.Valid() && size >= rhs.size >= 1
      ensures r == AndFlags(Flags, rhs.Flags)
    {
      var bitsToCheck := if size < rhs.size then size else rhs.size;
      var count := ByteCount(bitsToCheck);
      var i := 0;
      while i < count - 1
        invariant 0 <= i <= count - 1
        invariant bitsToCheck == rhs.size - 8 * i
        invariant forall k :: 0 <= k < i ==> FullByteOk(Flags, rhs.Flags, k)
      {
        bitsToCheck := if bitsToCheck > 8 then bitsToCheck - 8 else 0;
        FullByteVerdict(bytes, Flags, rhs.bytes, rhs.Flags, i);
        if bytes[i] == 0 && rhs.bytes[i] == 0 {
          i := i + 1;
          continue;
        }
        if bytes[i] & rhs.bytes[i] == 0 {
          assert !FullByteOk(Flags, rhs.Flags, i);
          return false;
        }
        i := i + 1;
      }
      // Here 1 <= bitsToCheck <= 8, so the early `return true` for
      // bitsToCheck == 0 that follows this loop is never taken.
      LastByteBounds(rhs.size);
      var mask: bv8 := 0;
      var j := 0;
      while j < bitsToCheck
        invariant 0 <= j <= bitsToCheck && mask == LowMask(j)
      {
        LowMaskStep(j);
        mask := mask | Mask(j);
        j := j + 1;
      }
      LastByteVerdict(bytes, Flags, rhs.bytes, rhs.Flags, i, bitsToCheck);
      r := SameUnder(bytes[i], rhs.bytes[i], mask);
    }

    /** `!a`: a copy of a whose flags are flipped one by one with `at` and
        `set`, so the copy's count rises by one per cleared flag and falls by
        one per set flag. a itself is left alone. */
    method Not() returns (res: Bitflag)
      requires Valid()
      ensures fresh(res) && res.Valid()
      ensures res.size == size && res.Flags == Negated(Flags)
      ensures res.enabledCount == enabledCount + (size - Ones(Flags, size)) - Ones(Flags, size)
    {
      res := new Bitflag.Copy(this);
      res.FlipAll();
    }

    /** The loop of `!a` on the copy: `set(i, !at(i))` for each i below the
        size. */
    method FlipAll()
      requires Valid()
      modifies this
      ensures Valid() && size == old(size) && Flags == Negated(old(Flags))
      ensures enabledCount == old(enabledCount) + (size - Ones(old(Flags), size)) - Ones(old(Flags), size)
    {
      ghost var start := Flags;
      var i := 0;
      while i < size
        invariant Valid() && size == old(size) && |start| == size && i <= size
        invariant forall j :: 0 <= j < i ==> Flags[j] == !start[j]
        invariant forall j :: i <= j < size ==> Flags[j] == start[j]
        invariant enabledCount == old(enabledCount) + (i - Ones(start, i)) - Ones(start, i)
      {
        Flip(i);
        i := i + 1;
      }
      assert Flags == Negated(start);
    }

    /** One step of that loop: `set(pos, !at(pos))`. */
    method Flip(pos: nat)
      requires Valid() && pos < size
      modifies this
      ensures Valid() && size == old(size) && Flags == old(Flags)[pos := !old(Flags)[pos]]
      ensures enabledCount == old(enabledCount) + (if old(Flags)[pos] then -1 else 1)
    {
      var b := At(pos);
      Set(pos, !b);
    }
  }

  // ---------------------------------------------------------------------
  // The bitflag scenarios of the repository's tests

  /** The flags written as the tests write them: '1' for a set flag. */
  function Parsed(t: string): (s: seq<bool>)
    ensures |s| == |t| && forall i :: 0 <= i < |t| ==> s[i] == (t[i] == '1')
  {
    seq(|t|, i requires 0 <= i < |t| => t[i] == '1')
  }

  /** Writing the flags a string of digits stands for gives that string back. */
  lemma RenderParsed(t: string)
    requires forall i :: 0 <= i < |t| ==> t[i] in "01"
    ensures Render(Parsed(t)) == t
  {
    var r := Render(Parsed(t));
    forall i | 0 <= i < |t| ensures r[i] == t[i] {
      assert t[i] == '0' || t[i] == '1';
    }
  }

  /** Setting and clearing flags 3 and 0 of a four-flag bitflag
      (tests/bitflagTests.cpp:5-17). */
  method SetAndClear() returns (t0: string, t1: string, t2: string, t3: string, t4: string)
    ensures [t0, t1, t2, t3, t4] == ["0000", "0001", "1001", "0001", "0000"]
  {
    var f := new Bitflag(4);
    assert f.Flags == Parsed("0000");
    RenderParsed("0000");
    t0 := f.Written();
    f.Set(3, true);
    assert f.Flags == Parsed("0001");
    RenderParsed("0001");
    t1 := f.Written();
    f.Set(0, true);
    assert f.Flags == Parsed("1001");
    RenderParsed("1001");
    t2 := f.Written();
    f.Set(0, false);
    assert f.Flags == Parsed("0001");
    t3 := f.Written();
    f.Set(3, false);
    assert f.Flags == Parsed("0000");
    t4 := f.Written();
  }

  /** The first half of the scenario below: flag 3 of four set, then the
      bitflag grown to eleven flags. */
  method ResizedFromFour() returns (f: Bitflag, t0: string, t1: string)
    ensures fresh(f) && f.Valid() && f.Flags == Parsed("00010000000")
    ensures t0 == "0001" && t1 == "00010000000"
  {
    f := new Bitflag(4);
    f.Set(3, true);
    assert f.Flags == Parsed("0001");
    RenderParsed("0001");
    t0 := f.Written();
    f.Resize(11);
    assert f.Flags == Parsed("00010000000");
    RenderParsed("00010000000");
    t1 := f.Written();
  }

  /** Growing a four-flag bitflag with flag 3 set to eleven flags keeps flag 3
      and clears the new ones (tests/bitflagTests.cpp:19-31). */
  method SetAfterResize() returns (t0: string, t1: string, t2: string, t3: string)
    ensures [t0, t1, t2, t3] == ["0001", "00010000000", "00000000000", "00000000010"]
  {
    var f;
    f, t0, t1 := ResizedFromFour();
    f.Set(3, false);
    assert f.Flags == Parsed("00000000000");
    RenderParsed("00000000000");
    t2 := f.Written();
    f.Set(9, true);
    assert f.Flags == Parsed("00000000010");
    RenderParsed("00000000010");
    t3 := f.Written();
  }

  /** `!` of six flags with only flag 3 set (tests/bitflagTests.cpp:33-40). */
  method Reverse() returns (t: string)
    ensures t == "111011"
  {
    var first := new Bitflag(6);
    first.Set(3, true);
    var second := first.Not();
    t := second.Written();
  }

  /** `&` of a six-flag bitflag with only flag 3 set and four-flag queries
      (tests/bitflagTests.cpp:42-65). Within one byte `&` compares the four
      flags for equality, so it holds only for the query 0001, and fails for
      the empty query 0000, where the test expects it to hold. */
  lemma AndWithinByte()
    ensures var a := Parsed("000100");
      && !AndFlags(a, Parsed("0000"))
      && !AndFlags(a, Parsed("1000"))
      && !AndFlags(a, Parsed("1100"))
      && !AndFlags(a, Parsed("1110"))
      && !AndFlags(a, Parsed("1111"))
      && !AndFlags(a, Parsed("0111"))
      && !AndFlags(a, Parsed("0011"))
      && AndFlags(a, Parsed("0001"))
  {
    var a := Parsed("000100");
    var qs := ["0000", "1000", "1100", "1110", "1111", "0111", "0011", "0001"];
    forall q | q in qs ensures AndFlags(a, Parsed(q)) == (q == "0001") {
      AndWithinOneByte(a, Parsed(q));
      if q != "0001" {
        var j := if q[0] == '1' then 0 else if q[3] == '0' then 3 else 2;
        assert a[..4][j] != Parsed(q)[j];
      } else {
        assert a[..4] == Parsed(q);
      }
    }
  }

  /** A full byte in which only a has a set flag fails `&`. */
  lemma OneSidedByte(a: seq<bool>, b: seq<bool>, k: nat, j: nat)
    requires 8 * k + 8 <= |b| <= |a| && j < 8 && a[8 * k + j]
    requires forall i :: 8 * k <= i < 8 * k + 8 ==> !b[i]
    ensures !FullByteOk(a, b, k)
  {
    var x, y := a[8 * k .. 8 * k + 8], b[8 * k .. 8 * k + 8];
    assert x[j];
    assert forall i :: 0 <= i < 8 ==> !y[i];
  }

  /** `&` of a 14-flag and an 11-flag bitflag as flags are set on either side
      (tests/bitflagTests.cpp:67-86). The last byte is compared under a mask
      of three flags, so once the 14-flag side alone sets flag 10, `&` fails
      where the test expects it to hold; the other four results agree with the
      test. */
  lemma AndTwoBytes()
    ensures !AndFlags(Parsed("00000000001010"), Parsed("00000000000"))
    ensures AndFlags(Parsed("00000000000010"), Parsed("00000000000"))
    ensures AndFlags(Parsed("00000000001010"), Parsed("00000000001"))
    ensures !AndFlags(Parsed("01000000001010"), Parsed("00000000001"))
    ensures AndFlags(Parsed("01000000001010"), Parsed("01000000001"))
  {
    var a0, a1, a2 := Parsed("00000000000010"), Parsed("00000000001010"), Parsed("01000000001010");
    var b0, b1, b2 := Parsed("00000000000"), Parsed("00000000001"), Parsed("01000000001");
    assert a1[8..11][2] != b0[8..][2];
    assert a0[8..11] == b0[8..];
    assert a1[8..11] == b1[8..];
    assert a2[8..11] == b2[8..];
    assert FullByteOk(a0, b0, 0);
    assert FullByteOk(a1, b1, 0);
    assert !FullByteOk(a2, b1, 0) by {
      assert forall j :: 0 <= j < 8 ==> "00000000001"[j] == '0';
      OneSidedByte(a2, b1, 0, 1);
    }
    assert FullByteOk(a2, b2, 0) by {
      assert a2[0..8][1] && b2[0..8][1];
    }
  }

  // ---------------------------------------------------------------------
  // Properties of the operations

  /** `!!a` holds the flags of a. */
  lemma NegatedInvolutive(s: seq<bool>)
    ensures Negated(Negated(s)) == s
  {
  }

  /** Flipping every flag turns the set flags into the cleared ones. */
  lemma {:induction false} NegatedOnes(s: seq<bool>, n: nat)
    requires n <= |s|
    ensures Ones(Negated(s), n) == n - Ones(s, n)
  {
    if n > 0 {
      NegatedOnes(s, n - 1);
    }
  }

  /** A `set` followed by the opposite `set` of the same flag leaves the
      reported count as it was, also across the wrap-around. */
  lemma OppositeSetsCancel(x: Size, value: bool)
    ensures var y := if value then Inc(x) else Dec(x);
            (if value then Dec(y) else Inc(y)) == x
  {
    IncDecInverse(x);
  }

  /** Where the counter of a agrees with its set flags, so does the counter of
      `!a`: it then holds the number of flags a has cleared. */
  lemma NotKeepsCountExact(count: int, s: seq<bool>)
    requires count == Ones(s, |s|)
    ensures count + (|s| - Ones(s, |s|)) - Ones(s, |s|) == Ones(Negated(s), |s|)
  {
    NegatedOnes(s, |s|);
  }

  /** For at most eight flags, `a & b` holds exactly when the first |b| flags of
      a are those of b: then there is only the last byte, compared for
      equality. */
  lemma AndWithinOneByte(a: seq<bool>, b: seq<bool>)
    requires 1 <= |b| <= 8 && |b| <= |a|
    ensures AndFlags(a, b) == (a[..|b|] == b)
  {
  }

  /** `a & a` holds: a non-zero byte shares a set bit with itself. */
  lemma AndReflexive(s: seq<bool>)
    requires 1 <= |s|
    ensures AndFlags(s, s)
  {
    forall k | 0 <= k < ByteCount(|s|) - 1 ensures FullByteOk(s, s, k) {
      var x := s[8 * k .. 8 * k + 8];
      if exists j :: 0 <= j < 8 && x[j] {
        var j :| 0 <= j < 8 && x[j];
        assert x[j] && x[j];
      }
    }
  }

  /** `a & b` reads only the first |b| flags of a. */
  lemma AndOnlyInspectsPrefix(a: seq<bool>, a': seq<bool>, b: seq<bool>)
    requires 1 <= |b| <= |a| && |b| <= |a'| && a[..|b|] == a'[..|b|]
    ensures AndFlags(a, b) == AndFlags(a', b)
  {
    forall k | 0 <= k < ByteCount(|b|) - 1 ensures FullByteOk(a, b, k) == FullByteOk(a', b, k) {
      assert a[8 * k .. 8 * k + 8] == a[..|b|][8 * k .. 8 * k + 8];
      assert a'[8 * k .. 8 * k + 8] == a'[..|b|][8 * k .. 8 * k + 8];
    }
    var lo := 8 * (ByteCount(|b|) - 1);
    assert a[lo..|b|] == a[..|b|][lo..];
    assert a'[lo..|b|] == a'[..|b|][lo..];
  }

  /** `a & b` does not test whether a holds every flag of b, in either
      direction. With a = 000100 and b = 0000, a holds every flag b holds, yet
      `a & b` fails on the last byte. With a holding only flag 1 and b holding
      flags 1 and 2, both of 16 flags, `a & b` holds although a lacks flag 2:
      the first byte passes on the shared flag 1. */
  lemma AndIsNotSuperset()
    ensures var a, b := Cleared(6)[3 := true], Cleared(4);
      (forall i :: 0 <= i < |b| && b[i] ==> a[i]) && !AndFlags(a, b)
    ensures var a, b := Cleared(16)[1 := true], Cleared(16)[1 := true][2 := true];
      b[2] && !a[2] && AndFlags(a, b)
  {
    var a, b := Cleared(6)[3 := true], Cleared(4);
    assert a[0..4][3] != b[0..][3];
    var c, d := Cleared(16)[1 := true], Cleared(16)[1 := true][2 := true];
    assert FullByteOk(c, d, 0) by {
      assert c[0..8][1] && d[0..8][1];
    }
    assert c[8..16] == d[8..];
  }
}
