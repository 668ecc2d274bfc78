/**
 * The difficulty target of miner.js: how a pool's raw target is widened into a
 * comparable buffer (inline in `work`) and how `meetsTarget` decides whether a
 * 32-byte digest is below it. Both buffers hold unsigned integers little-endian:
 * index 0 is the least significant byte.
 */
module Target {
  import opened Hex

  function Pow256(n: nat): (p: nat)
    ensures p > 0
  {
    if n == 0 then 1 else 256 * Pow256(n - 1)
  }

  /**
   * The unsigned integer a buffer holds when index 0 is its least significant byte,
   * built from the most significant (last) byte down, the order `meetsTarget` scans.
   */
  function LittleEndian(s: seq<Byte>): (v: nat)
    ensures v < Pow256(|s|)
  {
    if s == [] then 0
    else
      var n := |s|;
      var low := LittleEndian(s[..n - 1]);
      assert low + Pow256(n - 1) * s[n - 1] < Pow256(n) by {
        MulStrict(Pow256(n - 1), s[n - 1], 256);
      }
      low + Pow256(n - 1) * s[n - 1]
  }

  function Min(a: nat, b: nat): nat { if a <= b then a else b }

  /**
   * What `meetsTarget(hash, target)` decides: the top k bytes of the digest, read
   * little-endian, are strictly below the top k bytes of the target, where k is the
   * target length cut to the digest length (reading past the start of the digest gives
   * `undefined`, which compares neither above nor below).
   */
  predicate Below(hash: seq<Byte>, target: seq<Byte>) {
    var k := Min(|hash|, |target|);
    LittleEndian(hash[|hash| - k..]) < LittleEndian(target[|target| - k..])
  }

  /** p * x + p <= p * y for x < y, by induction on y - x. */
  lemma {:induction false} MulStrict(p: nat, x: nat, y: nat)
    requires x < y
    ensures p * x + p <= p * y
    decreases y - x
  {
    if x + 1 < y {
      MulStrict(p, x + 1, y);
    }
    assert p * (x + 1) == p * x + p;
  }

  /** When the most significant bytes differ, they alone decide the order. */
  lemma TopByteDecides(a: seq<Byte>, b: seq<Byte>)
    requires |a| == |b| > 0 && a[|a| - 1] != b[|b| - 1]
    ensures LittleEndian(a) < LittleEndian(b) <==> a[|a| - 1] < b[|b| - 1]
  {
    var n := |a|;
    var p := Pow256(n - 1);
    assert LittleEndian(a) == LittleEndian(a[..n - 1]) + p * a[n - 1];
    assert LittleEndian(b) == LittleEndian(b[..n - 1]) + p * b[n - 1];
    assert LittleEndian(a[..n - 1]) < p && LittleEndian(b[..n - 1]) < p;
    if a[n - 1] < b[n - 1] {
      MulStrict(p, a[n - 1], b[n - 1]);
    } else {
      MulStrict(p, b[n - 1], a[n - 1]);
    }
  }

  /**
   * The scan of `meetsTarget`: if two equal-length buffers agree above index j and
   * differ at j, the one with the smaller byte at j is the smaller number.
   */
  lemma {:induction false} FirstDifferenceDecides(a: seq<Byte>, b: seq<Byte>, j: nat)
    requires |a| == |b| && j < |a|
    requires a[j + 1..] == b[j + 1..] && a[j] != b[j]
    ensures LittleEndian(a) < LittleEndian(b) <==> a[j] < b[j]
    decreases |a|
  {
    var n := |a|;
    if j == n - 1 {
      TopByteDecides(a, b);
    } else {
      assert a[n - 1] == a[j + 1..][n - 2 - j] == b[j + 1..][n - 2 - j] == b[n - 1];
      var a', b' := a[..n - 1], b[..n - 1];
      assert a'[j + 1..] == b'[j + 1..] by {
        forall k | j + 1 <= k < n - 1 ensures a'[k] == b'[k] {
          assert a[k] == a[j + 1..][k - j - 1] == b[j + 1..][k - j - 1] == b[k];
        }
      }
      FirstDifferenceDecides(a', b', j);
    }
  }

  /** The digest's last |target| bytes are the target, byte for byte. */
  predicate EndsWith(hash: seq<Byte>, target: seq<Byte>) {
    |target| <= |hash| && hash[|hash| - |target|..] == target
  }

  /** The comparison is strict: a digest equal to the target over the compared window never meets it. */
  lemma EqualIsNotBelow(hash: seq<Byte>, target: seq<Byte>)
    ensures EndsWith(hash, target) ==> !Below(hash, target)
  {
    assert target[|target| - |target|..] == target;
  }

  /**
   * A worked case: windows 00 00 00 01 00 00 00 00 and 00 00 00 02 00 00 00 00 agree on
   * indices 7 down to 4 and first differ at index 3, where the digest's byte is smaller.
   */
  lemma FirstDifferenceExample()
    ensures Below([0, 0, 0, 1, 0, 0, 0, 0], [0, 0, 0, 2, 0, 0, 0, 0])
  {
    var h: seq<Byte> := [0, 0, 0, 1, 0, 0, 0, 0];
    var t: seq<Byte> := [0, 0, 0, 2, 0, 0, 0, 0];
    assert h[4..] == t[4..];
    FirstDifferenceDecides(h, t, 3);
    assert h[0..] == h && t[0..] == t;
  }

  /** The top min(i, k) bytes of digest and target agree, k being the compared length. */
  predicate AgreeAbove(hash: seq<Byte>, target: seq<Byte>, i: nat) {
    var n := Min(i, Min(|hash|, |target|));
    hash[|hash| - n..] == target[|target| - n..]
  }

  /** One more equal byte extends the agreement; past the compared length nothing is read. */
  lemma AgreeStep(hash: seq<Byte>, target: seq<Byte>, i: nat)
    requires AgreeAbove(hash, target, i)
    requires i < |hash| && i < |target| ==> hash[|hash| - 1 - i] == target[|target| - 1 - i]
    ensures AgreeAbove(hash, target, i + 1)
  {
    if i < |hash| && i < |target| {
      var h, t := hash[|hash| - 1 - i..], target[|target| - 1 - i..];
      assert h == [hash[|hash| - 1 - i]] + hash[|hash| - i..];
      assert t == [target[|target| - 1 - i]] + target[|target| - i..];
    }
  }

  /** At the first differing byte from the top, that byte decides the target test. */
  lemma ScanDecides(hash: seq<Byte>, target: seq<Byte>, i: nat)
    requires i < |hash| && i < |target| && AgreeAbove(hash, target, i)
    requires hash[|hash| - 1 - i] != target[|target| - 1 - i]
    ensures Below(hash, target) <==> hash[|hash| - 1 - i] < target[|target| - 1 - i]
  {
    var k := Min(|hash|, |target|);
    var hw, tw := hash[|hash| - k..], target[|target| - k..];
    var m := k - 1 - i;
    assert hw[m] == hash[|hash| - 1 - i] && tw[m] == target[|target| - 1 - i];
    assert hw[m + 1..] == hash[|hash| - i..] && tw[m + 1..] == target[|target| - i..];
    FirstDifferenceDecides(hw, tw, m);
  }

  /** Agreement over the whole compared length means the digest does not meet the target. */
  lemma AgreeAllNotBelow(hash: seq<Byte>, target: seq<Byte>, i: nat)
    requires AgreeAbove(hash, target, i) && i >= Min(|hash|, |target|)
    ensures !Below(hash, target)
  {
  }

  /**
   * `meetsTarget`: scans from the highest index of both buffers downwards and decides at
   * the first differing byte; equal windows do not meet the target.
   */
  method MeetsTarget(hash: array<Byte>, target: array<Byte>) returns (meets: bool)
    ensures meets <==> Below(hash[..], target[..])
    ensures EndsWith(hash[..], target[..]) ==> !meets
  {
    ghost var h, t := hash[..], target[..];
    EqualIsNotBelow(h, t);
    var i := 0;
    while i < target.Length
      invariant 0 <= i <= target.Length
      invariant AgreeAbove(h, t, i)
    {
      var hi, ti := hash.Length - i - 1, target.Length - i - 1;
      // A negative index of a typed array reads `undefined`: neither comparison holds.
      if hi >= 0 {
        assert h[hi] == hash[hi] && t[ti] == target[ti];
        if hash[hi] > target[ti] {
          ScanDecides(h, t, i);
          return false;
        } else if hash[hi] < target[ti] {
          ScanDecides(h, t, i);
          return true;
        }
      }
      AgreeStep(h, t, i);
      i := i + 1;
    }
    AgreeAllNotBelow(h, t, i);
    return false;
  }

  /**
   * The target `work` builds from the decoded raw target: up to 8 bytes are
   * right-aligned into 8 bytes whose leading bytes are 0xFF; a longer one is kept.
   */
  function WidenTarget(raw: seq<Byte>): seq<Byte>
  {
    if |raw| <= 8 then seq(8 - |raw|, _ => 255) + raw else raw
  }

  /** The widened target is never shorter than 8 bytes and keeps the raw target as its high-order (last) end. */
  lemma WidenTargetShape(raw: seq<Byte>)
    ensures |WidenTarget(raw)| == if |raw| <= 8 then 8 else |raw|
    ensures WidenTarget(raw)[|WidenTarget(raw)| - |raw|..] == raw
    ensures forall i :: 0 <= i < |WidenTarget(raw)| - |raw| ==> WidenTarget(raw)[i] == 255
  {
  }

  /** Pow256 turns a sum of exponents into a product. */
  lemma {:induction false} PowAdd(m: nat, n: nat)
    ensures Pow256(m + n) == Pow256(m) * Pow256(n)
    decreases n
  {
    if n > 0 {
      PowAdd(m, n - 1);
      assert Pow256(m + n) == 256 * Pow256(m + n - 1);
    }
  }

  /** Multiplying out p * (l + q * x), kept apart so the solver sees only these four numbers. */
  lemma Distribute(p: nat, l: nat, q: nat, x: nat)
    ensures p * (l + q * x) == p * l + (p * q) * x
  {
    assert p * (q * x) == (p * q) * x;
  }

  /** The value of a concatenation: the appended bytes are the more significant ones. */
  lemma {:induction false} LittleEndianAppend(a: seq<Byte>, b: seq<Byte>)
    ensures LittleEndian(a + b) == LittleEndian(a) + Pow256(|a|) * LittleEndian(b)
    decreases |b|
  {
    if b == [] {
      assert a + b == a;
    } else {
      var c := a + b;
      var b' := b[..|b| - 1];
      var x := b[|b| - 1];
      assert c[..|c| - 1] == a + b';
      assert c[|c| - 1] == x;
      var p, q := Pow256(|a|), Pow256(|b| - 1);
      var la, lb' := LittleEndian(a), LittleEndian(b');
      assert LittleEndian(c) == LittleEndian(a + b') + Pow256(|c| - 1) * x;
      assert LittleEndian(b) == lb' + q * x;
      LittleEndianAppend(a, b');
      PowAdd(|a|, |b| - 1);
      assert Pow256(|c| - 1) == p * q;
      Distribute(p, lb', q, x);
    }
  }

  /** n bytes of 0xFF hold the largest n-byte value. */
  lemma {:induction false} AllOnesValue(n: nat)
    ensures LittleEndian(seq(n, _ => 255)) == Pow256(n) - 1
  {
    if n > 0 {
      var s: seq<Byte> := seq(n, _ => 255);
      assert s[..n - 1] == seq(n - 1, _ => 255);
      AllOnesValue(n - 1);
    }
  }

  /**
   * The number the widened target holds: a raw target of at most 8 bytes is shifted up
   * by the padding and the padding bytes below it are all ones; a longer one is unchanged.
   */
  lemma WidenTargetValue(raw: seq<Byte>)
    ensures LittleEndian(WidenTarget(raw)) ==
      if |raw| <= 8 then Pow256(8 - |raw|) - 1 + Pow256(8 - |raw|) * LittleEndian(raw)
      else LittleEndian(raw)
  {
    if |raw| <= 8 {
      var pad: seq<Byte> := seq(8 - |raw|, _ => 255);
      assert WidenTarget(raw) == pad + raw;
      LittleEndianAppend(pad, raw);
      AllOnesValue(8 - |raw|);
    }
  }

  /** A raw target `ffffffff` widens to eight 0xFF bytes, which every digest but an all-0xFF window meets. */
  lemma MaximalTargetExample(hash: seq<Byte>)
    requires |hash| == 32 && hash[24..] != seq(8, _ => 255)
    ensures WidenTarget([255, 255, 255, 255]) == seq(8, _ => 255)
    ensures Below(hash, WidenTarget([255, 255, 255, 255]))
  {
    var t: seq<Byte> := seq(8, _ => 255);
    var w := hash[24..];
    var j :| 0 <= j < 8 && w[j] != 255 && forall r :: j < r < 8 ==> w[r] == 255;
    assert w[j + 1..] == t[j + 1..];
    FirstDifferenceDecides(w, t, j);
  }

  /**
   * The target-building block of `work`: a buffer pre-filled with 0xFF receives the raw
   * target's bytes from the top down, then its leading bytes are set to 0xFF again;
   * a raw target longer than 8 bytes is used as it is, the very same buffer.
   */
  method BuildTarget(targetBinary: array<Byte>) returns (target: array<Byte>)
    ensures target[..] == WidenTarget(targetBinary[..])
    ensures targetBinary.Length <= 8 ==>
      && target.Length == 8
      && target[8 - targetBinary.Length..] == targetBinary[..]
      && forall i :: 0 <= i < 8 - targetBinary.Length ==> target[i] == 255
    ensures targetBinary.Length > 8 ==> target == targetBinary
  {
    target := new Byte[8](_ => 255);
    if targetBinary.Length <= 8 {
      var n := targetBinary.Length;
      var i := 0;
      while i < n
        invariant 0 <= i <= n
        invariant forall j :: 8 - i <= j < 8 ==> target[j] == targetBinary[j - (8 - n)]
      {
        target[target.Length - i - 1] := targetBinary[n - i - 1];
        i := i + 1;
      }
      i := 0;
      while i < target.Length - n
        invariant 0 <= i <= 8 - n
        invariant forall j :: 8 - n <= j < 8 ==> target[j] == targetBinary[j - (8 - n)]
        invariant forall j :: 0 <= j < i ==> target[j] == 255
      {
        target[i] := 255;
        i := i + 1;
      }
      assert target[..] == WidenTarget(targetBinary[..]);
    } else {
      target := targetBinary;
    }
  }
}
