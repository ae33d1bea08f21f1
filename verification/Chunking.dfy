/** Turning bytes into field elements: 31-byte little-endian limbs folded with the hash. */
module Chunking {
  import opened Field
  import opened Hashing
  import opened Numbers

  const LIMB_BYTES: nat := 31

  function NumLimbs(byteLen: nat): nat { (byteLen + LIMB_BYTES - 1) / LIMB_BYTES }

  function Least(a: nat, b: nat): nat { if a <= b then a else b }

  /** 31 bytes stay below the modulus. */
  lemma LimbRange()
    ensures Pow2(248) < P
  {
    hide Pow2;
    Pow2Byte();
    Pow2Sum(8, 8);
    Pow2Sum(16, 15);
    Pow2Sum(8, 7);
    Pow2Sum(31, 31);
    Pow2Sum(62, 62);
    Pow2Sum(124, 124);
  }

  lemma Pow2Byte()
    ensures Pow2(8) == 256 && Pow2(7) == 128
  {
  }

  lemma LimbFits(window: seq<Byte>)
    requires |window| <= LIMB_BYTES
    ensures LeValue(window) < P
  {
    hide Pow2;
    LeValueBound(window);
    Pow2Mono(8 * |window|, 248);
    LimbRange();
  }

  function BytesToLimbs(bytes: seq<Byte>): (limbs: seq<F>)
    ensures |limbs| == NumLimbs(|bytes|)
  {
    if bytes == [] then []
    else
      var k := Least(LIMB_BYTES, |bytes|);
      LimbFits(bytes[..k]);
      [LeValue(bytes[..k])] + BytesToLimbs(bytes[k..])
  }

  /** Limb `i` is the little-endian value of its own window: 31 bytes, fewer in the last. */
  lemma {:induction false} LimbAt(bytes: seq<Byte>, i: nat)
    requires i < NumLimbs(|bytes|)
    ensures LIMB_BYTES * i < |bytes|
    ensures var window := bytes[LIMB_BYTES * i..Least(LIMB_BYTES * i + LIMB_BYTES, |bytes|)];
            BytesToLimbs(bytes)[i] == LeValue(window) < Pow2(8 * |window|)
    decreases i
  {
    hide LeValue, Pow2;
    var lo, hi := LIMB_BYTES * i, Least(LIMB_BYTES * i + LIMB_BYTES, |bytes|);
    LeValueBound(bytes[lo..hi]);
    if i > 0 {
      var rest := bytes[LIMB_BYTES..];
      LimbAt(rest, i - 1);
      RestOfLimbs(bytes, i);
      Subwindow(bytes, LIMB_BYTES, lo, hi);
    } else {
      assert bytes[lo..hi] == bytes[..Least(LIMB_BYTES, |bytes|)];
    }
  }

  lemma RestOfLimbs(bytes: seq<Byte>, i: nat)
    requires |bytes| > LIMB_BYTES && 0 < i < NumLimbs(|bytes|)
    ensures i - 1 < NumLimbs(|bytes[LIMB_BYTES..]|) && BytesToLimbs(bytes)[i] == BytesToLimbs(bytes[LIMB_BYTES..])[i - 1]
  {
    hide LeValue;
  }

  lemma Subwindow(bytes: seq<Byte>, k: nat, lo: nat, hi: nat)
    requires k <= lo <= hi <= |bytes|
    ensures bytes[k..][lo - k..hi - k] == bytes[lo..hi]
  {
  }

  /** Reads limbs back: 31 bytes from each, and what is left of the length from the last. */
  function LimbsToBytes(limbs: seq<F>, byteLen: nat): (bytes: seq<Byte>)
    requires |limbs| == NumLimbs(byteLen)
    ensures |bytes| == byteLen
    decreases |limbs|
  {
    if limbs == [] then []
    else
      var k := Least(LIMB_BYTES, byteLen);
      LeBytes(limbs[0], k) + LimbsToBytes(limbs[1..], byteLen - k)
  }

  /** Every limb is small enough for the bytes of its window. */
  predicate LimbsFit(limbs: seq<F>, byteLen: nat)
    requires |limbs| == NumLimbs(byteLen)
    decreases |limbs|
  {
    limbs == [] ||
    var k := Least(LIMB_BYTES, byteLen);
    limbs[0] < Pow2(8 * k) && LimbsFit(limbs[1..], byteLen - k)
  }

  /** The limbs decode back to the bytes they were made from, for every length. */
  lemma {:induction false} LimbsDecode(bytes: seq<Byte>)
    ensures LimbsToBytes(BytesToLimbs(bytes), |bytes|) == bytes
  {
    hide LeValue, LeBytes;
    if bytes == [] {
    } else {
      var k := Least(LIMB_BYTES, |bytes|);
      var limbs := BytesToLimbs(bytes);
      LeBytesOf(bytes[..k]);
      LimbsDecode(bytes[k..]);
      assert limbs[0] == LeValue(bytes[..k]) && limbs[1..] == BytesToLimbs(bytes[k..]);
      assert bytes == bytes[..k] + bytes[k..];
    }
  }

  /** Any limbs are those of the bytes they decode to exactly when each fits its window. */
  lemma {:induction false} LimbsEncode(limbs: seq<F>, byteLen: nat)
    requires |limbs| == NumLimbs(byteLen)
    ensures BytesToLimbs(LimbsToBytes(limbs, byteLen)) == limbs <==> LimbsFit(limbs, byteLen)
    decreases |limbs|
  {
    hide LeValue, LeBytes, Pow2;
    if limbs == [] {
    } else {
      var k := Least(LIMB_BYTES, byteLen);
      var head, bytes := LeBytes(limbs[0], k), LimbsToBytes(limbs, byteLen);
      assert bytes[..k] == head && bytes[k..] == LimbsToBytes(limbs[1..], byteLen - k);
      LimbsEncode(limbs[1..], byteLen - k);
      var again := BytesToLimbs(bytes);
      assert again[0] == LeValue(head) && again[1..] == BytesToLimbs(bytes[k..]);
      assert limbs == [limbs[0]] + limbs[1..] && again == [again[0]] + again[1..];
      LeValueBound(head);
      if limbs[0] < Pow2(8 * k) {
        LeBytesValue(limbs[0], k);
      }
    }
  }

  /** Byte strings of one length are determined by their limbs. */
  lemma LimbsInjective(a: seq<Byte>, b: seq<Byte>)
    requires |a| == |b| && BytesToLimbs(a) == BytesToLimbs(b)
    ensures a == b
  {
    LimbsDecode(a);
    LimbsDecode(b);
  }

  /** The accumulator starts at the length, so chunks of different sizes start apart. */
  method FoldLimbs(h: HashFn, byteLen: nat, limbs: seq<F>) returns (acc: F)
    ensures acc == HashFold(h, FromNat(byteLen), limbs)
  {
    acc := FromNat(byteLen);
    for k := 0 to |limbs|
      invariant acc == HashFold(h, FromNat(byteLen), limbs[..k])
    {
      assert limbs[..k + 1][..k] == limbs[..k];
      acc := h(acc, limbs[k]);
    }
    assert limbs[..|limbs|] == limbs;
  }

  function BytesToFr(h: HashFn, bytes: seq<Byte>): F {
    HashFold(h, FromNat(|bytes|), BytesToLimbs(bytes))
  }

  /** Compares the folds behind two digests. */
  function DigestClash(h: HashFn, a: seq<Byte>, b: seq<Byte>): (c: Clash)
    ensures c.Genuine(h)
  {
    FoldClash(h, FromNat(|a|), BytesToLimbs(a), FromNat(|b|), BytesToLimbs(b))
  }

  /**
   When two byte strings of any lengths have one digest, exactly: the shorter's limbs end the longer's,
   and the longer's other limbs fold to the shorter's length; or a collision shows.
   */
  lemma DigestExactly(h: HashFn, a: seq<Byte>, b: seq<Byte>)
    requires NumLimbs(|a|) <= NumLimbs(|b|) && DigestClash(h, a, b).NoClash?
    ensures BytesToFr(h, a) == BytesToFr(h, b)
            <==> FoldsAlike(h, FromNat(|a|), BytesToLimbs(a), FromNat(|b|), BytesToLimbs(b))
  {
    hide FoldClash, HashFold, BytesToLimbs;
    FoldExactly(h, FromNat(|a|), BytesToLimbs(a), FromNat(|b|), BytesToLimbs(b));
  }

  /** Byte strings of as many limbs, their lengths being machine words, have one digest exactly when equal. */
  lemma DigestBinds(h: HashFn, a: seq<Byte>, b: seq<Byte>)
    requires |a| < 0x1_0000_0000_0000_0000 && |b| < 0x1_0000_0000_0000_0000
    requires NumLimbs(|a|) == NumLimbs(|b|) && DigestClash(h, a, b).NoClash?
    ensures BytesToFr(h, a) == BytesToFr(h, b) <==> a == b
  {
    hide FoldClash, HashFold, BytesToLimbs;
    if BytesToFr(h, a) == BytesToFr(h, b) {
      FoldBinds(h, FromNat(|a|), BytesToLimbs(a), FromNat(|b|), BytesToLimbs(b));
      LimbsInjective(a, b);
    }
  }

  /** Starting at the length does not rule out the rest: 31 bytes whose limb turns 62 into 31 can be put in front. */
  lemma {:induction false} LengthMayBeAFold(h: HashFn, front: seq<Byte>, bytes: seq<Byte>)
    requires |front| == LIMB_BYTES && |bytes| == LIMB_BYTES
    requires LeValue(front) < P && h(FromNat(2 * LIMB_BYTES), LeValue(front)) == FromNat(LIMB_BYTES)
    ensures BytesToFr(h, front + bytes) == BytesToFr(h, bytes)
  {
    hide LeValue;
    var all := front + bytes;
    assert all[..LIMB_BYTES] == front && all[LIMB_BYTES..] == bytes;
    OneLimb(bytes);
    LimbFits(front);
    LimbFits(bytes);
    var x: F, y: F := LeValue(front), LeValue(bytes);
    assert BytesToLimbs(all) == [x, y];
    assert [x, y][..1] == [x] && [x][..0] == [] && [y][..0] == [];
    HashFoldNext(h, FromNat(62), [x], y);
    HashFoldNext(h, FromNat(62), [], x);
    HashFoldNext(h, FromNat(31), [], y);
    assert [x] + [y] == [x, y] && [] + [x] == [x] && [] + [y] == [y];
  }

  lemma OneLimb(bytes: seq<Byte>)
    requires |bytes| == LIMB_BYTES
    ensures BytesToLimbs(bytes) == [LeValue(bytes)]
  {
    hide LeValue;
    assert bytes[..LIMB_BYTES] == bytes && bytes[LIMB_BYTES..] == [];
  }
}
