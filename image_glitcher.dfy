/**
 * The glitch pass of ImageGlitcher: a whole file held as a byte buffer gets a
 * fixed number of single-bit flips, each at a pseudo-random offset past a
 * protected header and at a pseudo-random bit position.
 *
 * The random generator is replaced by the sequence of values it hands out:
 * one `Draw` per iteration, holding the result of `nextInt(length - skip)`
 * (the offset past the header) and of `nextInt(8)` (the bit position).
 */
module ImageGlitcher {

  /** Leading bytes the pass never touches, so that the file header survives. */
  const HeaderSkip: nat := 100

  /** Bit flips performed per run. */
  const NumFlips: nat := 100

  /** The two random values drawn by one iteration of the pass. */
  datatype Draw = Draw(offset: nat, bit: nat)

  /** Why a pass can fail: the generator refuses an offset bound that is not positive. */
  datatype GlitchError = NonPositiveBound

  datatype Outcome = Pass | Fail(error: GlitchError)

  /**
   * A draw the generator can hand out for a buffer of `length` bytes: an
   * offset in [0, length - skip) and a bit position in [0, 8).
   */
  predicate ValidDraw(d: Draw, skip: nat, length: nat) {
    d.offset < length - skip && d.bit < 8
  }

  predicate ValidDraws(draws: seq<Draw>, skip: nat, length: nat) {
    forall j :: 0 <= j < |draws| ==> ValidDraw(draws[j], skip, length)
  }

  /** The offset a draw writes to: the header length plus the drawn offset. */
  function TargetOf(skip: nat, d: Draw): nat {
    skip + d.offset
  }

  // ---------------------------------------------------------------------------
  // Bits of a byte
  // ---------------------------------------------------------------------------

  /** Bit `k` of `b`, bit 0 being the least significant. */
  predicate BitOf(b: bv8, k: nat)
    requires k < 8
  {
    (b >> k) & 1 == 1
  }

  /** The single-bit mask `1 << bit`: it has bit `bit` set and no other. */
  function Mask(bit: nat): (m: bv8)
    requires bit < 8
    ensures forall k :: 0 <= k < 8 ==> (BitOf(m, k) <==> k == bit)
  {
    (1 as bv8) << bit
  }

  /** Bit `k` of an exclusive-or is the exclusive-or of the two bits. */
  lemma XorBit(x: bv8, y: bv8, k: nat)
    requires k < 8
    ensures BitOf(x ^ y, k) <==> BitOf(x, k) != BitOf(y, k)
  {
    if k == 0 {} else if k == 1 {} else if k == 2 {} else if k == 3 {}
    else if k == 4 {} else if k == 5 {} else if k == 6 {} else {}
  }

  /** A byte is determined by its eight bits. */
  lemma BitsDetermineByte(x: bv8, y: bv8)
    requires forall k :: 0 <= k < 8 ==> (BitOf(x, k) <==> BitOf(y, k))
    ensures x == y
  {
    assert BitOf(x, 0) == BitOf(y, 0) && BitOf(x, 1) == BitOf(y, 1);
    assert BitOf(x, 2) == BitOf(y, 2) && BitOf(x, 3) == BitOf(y, 3);
    assert BitOf(x, 4) == BitOf(y, 4) && BitOf(x, 5) == BitOf(y, 5);
    assert BitOf(x, 6) == BitOf(y, 6) && BitOf(x, 7) == BitOf(y, 7);
  }

  /**
   * Java's `b ^= (1 << bit)` on a `byte`: the byte is sign-extended to a
   * 32-bit int, xored with the int mask, and the compound assignment narrows
   * the result back to its low 8 bits. The sign extension never leaks into
   * the result: it is the plain 8-bit exclusive-or with the one-bit mask,
   * also when `bit` is 7 and the sign bit is the one flipped.
   */
  function JavaXorAssign(b: bv8, bit: nat): (r: bv8)
    requires bit < 8
    ensures r == b ^ Mask(bit)
  {
    var widened: bv32 := if b & 0x80 == 0 then b as bv32 else b as bv32 | 0xFFFF_FF00;
    var mask: bv32 := (1 as bv32) << bit;
    ((widened ^ mask) & 0xFF) as bv8
  }

  // ---------------------------------------------------------------------------
  // The pass as a function of the buffer and the draws
  // ---------------------------------------------------------------------------

  /**
   * One iteration: flip bit `bit` of the byte at `index`. Exactly one bit of
   * exactly one byte changes.
   */
  function Flip(s: seq<bv8>, index: nat, bit: nat): (r: seq<bv8>)
    requires index < |s| && bit < 8
    ensures |r| == |s|
    ensures forall j :: 0 <= j < |s| && j != index ==> r[j] == s[j]
    ensures forall k :: 0 <= k < 8 ==> (BitOf(r[index], k) != BitOf(s[index], k) <==> k == bit)
  {
    var r := s[index := JavaXorAssign(s[index], bit)];
    forall k | 0 <= k < 8
      ensures BitOf(r[index], k) != BitOf(s[index], k) <==> k == bit
    {
      XorBit(s[index], Mask(bit), k);
    }
    r
  }

  /**
   * The buffer after the draws have been applied in order, the last draw
   * last. The length is unchanged and the header is never written.
   */
  function GlitchSpec(s: seq<bv8>, skip: nat, draws: seq<Draw>): (r: seq<bv8>)
    requires ValidDraws(draws, skip, |s|)
    ensures |r| == |s|
    ensures forall j :: 0 <= j < |s| && j < skip ==> r[j] == s[j]
    decreases |draws|
  {
    if draws == [] then s
    else
      var d := draws[|draws| - 1];
      Flip(GlitchSpec(s, skip, draws[..|draws| - 1]), TargetOf(skip, d), d.bit)
  }

  /** The offsets that the draws write to. */
  function Touched(skip: nat, draws: seq<Draw>): (t: set<nat>)
    ensures |t| <= |draws|
    ensures forall i :: i in t <==> exists j :: 0 <= j < |draws| && TargetOf(skip, draws[j]) == i
    decreases |draws|
  {
    if draws == [] then {}
    else
      var rest := Touched(skip, draws[..|draws| - 1]);
      assert forall j :: 0 <= j < |draws| - 1 ==> draws[..|draws| - 1][j] == draws[j];
      rest + {TargetOf(skip, draws[|draws| - 1])}
  }

  /** The offsets at which two buffers of the same length differ. */
  function Changed(s: seq<bv8>, t: seq<bv8>): set<nat>
    requires |s| == |t|
  {
    set i: nat | i < |s| && s[i] != t[i]
  }

  /** How many of the draws toggle bit `k` of the byte at offset `index`. */
  function Hits(skip: nat, draws: seq<Draw>, index: nat, k: nat): nat
    decreases |draws|
  {
    if draws == [] then 0
    else
      var d := draws[|draws| - 1];
      Hits(skip, draws[..|draws| - 1], index, k) + if TargetOf(skip, d) == index && d.bit == k then 1 else 0
  }

  // ---------------------------------------------------------------------------
  // Properties of the pass
  // ---------------------------------------------------------------------------

  /** Every write lands in [skip, length): inside the buffer and past the header. */
  lemma {:induction false} WritesInBounds(skip: nat, length: nat, draws: seq<Draw>)
    requires ValidDraws(draws, skip, length)
    ensures forall i :: i in Touched(skip, draws) ==> skip <= i < length
  {
    forall i | i in Touched(skip, draws)
      ensures skip <= i < length
    {
      var j :| 0 <= j < |draws| && TargetOf(skip, draws[j]) == i;
    }
  }

  /** A byte that no draw targets keeps its value. */
  lemma {:induction false} UntouchedUnchanged(s: seq<bv8>, skip: nat, draws: seq<Draw>, i: nat)
    requires ValidDraws(draws, skip, |s|)
    requires i < |s| && i !in Touched(skip, draws)
    ensures GlitchSpec(s, skip, draws)[i] == s[i]
    decreases |draws|
  {
    if draws != [] {
      var front := draws[..|draws| - 1];
      assert forall j :: 0 <= j < |front| ==> front[j] == draws[j];
      UntouchedUnchanged(s, skip, front, i);
    }
  }

  /** A subset has at most as many elements as the set containing it. */
  lemma {:induction false} SubsetCardinality(a: set<nat>, b: set<nat>)
    requires a <= b
    ensures |a| <= |b|
    decreases |b|
  {
    if a != {} {
      var x :| x in a;
      SubsetCardinality(a - {x}, b - {x});
    }
  }

  /** The bytes that differ from the input are among the targeted ones, so there are at most as many as draws. */
  lemma {:induction false} ChangedAtMostDraws(s: seq<bv8>, skip: nat, draws: seq<Draw>)
    requires ValidDraws(draws, skip, |s|)
    ensures Changed(s, GlitchSpec(s, skip, draws)) <= Touched(skip, draws)
    ensures |Changed(s, GlitchSpec(s, skip, draws))| <= |draws|
  {
    var r := GlitchSpec(s, skip, draws);
    var changed, touched := Changed(s, r), Touched(skip, draws);
    forall i | i in changed
      ensures i in touched
    {
      if i !in touched {
        UntouchedUnchanged(s, skip, draws, i);
      }
    }
    SubsetCardinality(changed, touched);
  }

  /**
   * Each bit of the result is the input bit toggled once per draw that hits
   * it: flips of the same bit at the same offset cancel in pairs.
   */
  lemma {:induction false} FinalBit(s: seq<bv8>, skip: nat, draws: seq<Draw>, index: nat, k: nat)
    requires ValidDraws(draws, skip, |s|)
    requires index < |s| && k < 8
    ensures BitOf(GlitchSpec(s, skip, draws)[index], k)
        <==> BitOf(s[index], k) != (Hits(skip, draws, index, k) % 2 == 1)
    decreases |draws|
  {
    if draws != [] {
      var front := draws[..|draws| - 1];
      var d := draws[|draws| - 1];
      FinalBit(s, skip, front, index, k);
    }
  }

  /** Applying the same draw twice in a row undoes it. */
  lemma {:induction false} RepeatedDrawCancels(s: seq<bv8>, skip: nat, draws: seq<Draw>, d: Draw)
    requires ValidDraws(draws, skip, |s|) && ValidDraw(d, skip, |s|)
    ensures GlitchSpec(s, skip, draws + [d, d]) == GlitchSpec(s, skip, draws)
  {
    var all := draws + [d, d];
    assert forall j :: 0 <= j < |draws| ==> all[j] == draws[j];
    assert all[|draws|] == d;
    assert all[..|all| - 1] == draws + [d];
    assert (draws + [d])[..|draws|] == draws;
    var before := GlitchSpec(s, skip, draws);
    var index := TargetOf(skip, d);
    var once := Flip(before, index, d.bit);
    var twice := Flip(once, index, d.bit);
    assert twice[index] == before[index] ^ Mask(d.bit) ^ Mask(d.bit);
    assert twice == before;
  }

  /** Two lists of draws that hit every (offset, bit) pair equally often produce the same buffer. */
  lemma SameHitsSameResult(s: seq<bv8>, skip: nat, a: seq<Draw>, b: seq<Draw>)
    requires ValidDraws(a, skip, |s|) && ValidDraws(b, skip, |s|)
    requires forall i, k :: 0 <= i < |s| && 0 <= k < 8 ==> Hits(skip, a, i, k) % 2 == Hits(skip, b, i, k) % 2
    ensures GlitchSpec(s, skip, a) == GlitchSpec(s, skip, b)
  {
    var ra, rb := GlitchSpec(s, skip, a), GlitchSpec(s, skip, b);
    forall i | 0 <= i < |s|
      ensures ra[i] == rb[i]
    {
      forall k | 0 <= k < 8
        ensures BitOf(ra[i], k) <==> BitOf(rb[i], k)
      {
        FinalBit(s, skip, a, i, k);
        FinalBit(s, skip, b, i, k);
      }
      BitsDetermineByte(ra[i], rb[i]);
    }
  }

  /** The order of two consecutive draws does not matter. */
  lemma {:induction false} SwapAdjacentDraws(s: seq<bv8>, skip: nat, draws: seq<Draw>, d: Draw, e: Draw)
    requires ValidDraws(draws, skip, |s|) && ValidDraw(d, skip, |s|) && ValidDraw(e, skip, |s|)
    ensures GlitchSpec(s, skip, draws + [d, e]) == GlitchSpec(s, skip, draws + [e, d])
  {
    var de, ed := draws + [d, e], draws + [e, d];
    assert forall j :: 0 <= j < |draws| ==> de[j] == draws[j] && ed[j] == draws[j];
    assert de[|draws|] == d && de[|draws| + 1] == e;
    assert ed[|draws|] == e && ed[|draws| + 1] == d;
    assert de[..|de| - 1] == draws + [d] && ed[..|ed| - 1] == draws + [e];
    assert (draws + [d])[..|draws|] == draws && (draws + [e])[..|draws|] == draws;
    forall i, k | 0 <= i < |s| && 0 <= k < 8
      ensures Hits(skip, de, i, k) % 2 == Hits(skip, ed, i, k) % 2
    {
    }
    SameHitsSameResult(s, skip, de, ed);
  }

  /** A single flip changes exactly the byte it targets. */
  lemma SingleDrawChangesOneByte(s: seq<bv8>, skip: nat, d: Draw)
    requires ValidDraw(d, skip, |s|)
    ensures Changed(s, GlitchSpec(s, skip, [d])) == {TargetOf(skip, d)}
  {
    var index := TargetOf(skip, d);
    assert [d][..0] == [];
    var r := Flip(s, index, d.bit);
    assert GlitchSpec(s, skip, [d]) == r;
    assert r[index] != s[index] by {
      assert BitOf(r[index], d.bit) != BitOf(s[index], d.bit);
    }
    var changed := Changed(s, r);
    assert index in changed;
    forall i | i in changed
      ensures i == index
    {
    }
  }

  /** 150 zero bytes, one flip at offset 120 bit 3: only byte 120 changes, to 0x08. */
  lemma ZeroBufferOneFlip()
    ensures GlitchSpec(seq(150, _ => 0 as bv8), HeaderSkip, [Draw(20, 3)]) == seq(150, j => if j == 120 then 0x08 else 0 as bv8)
  {
    var s := seq(150, _ => 0 as bv8);
    assert [Draw(20, 3)][..0] == [];
    assert JavaXorAssign(0, 3) == 0x08;
  }

  // ---------------------------------------------------------------------------
  // The pass in place
  // ---------------------------------------------------------------------------

  /**
   * The glitch loop: `flips` iterations, each drawing an offset past the
   * first `skip` bytes and a bit position, and toggling that bit in place.
   * The generator rejects the offset bound `length - skip` when it is not
   * positive; that happens in the first iteration, before any write.
   */
  method Glitch(buf: array<bv8>, skip: nat, flips: nat, draws: seq<Draw>) returns (outcome: Outcome)
    requires |draws| == flips
    requires buf.Length > skip ==> ValidDraws(draws, skip, buf.Length)
    modifies buf
    ensures outcome.Fail? <==> flips > 0 && buf.Length <= skip
    ensures outcome.Fail? ==> buf[..] == old(buf[..])
    ensures outcome.Pass? ==> buf[..] == GlitchSpec(old(buf[..]), skip, draws)
  {
    for i := 0 to flips
      invariant i > 0 ==> buf.Length > skip
      invariant buf[..] == GlitchSpec(old(buf[..]), skip, draws[..i])
    {
      var bound := buf.Length - skip;
      if bound <= 0 {
        return Fail(NonPositiveBound);
      }
      var index := skip + draws[i].offset;
      buf[index] := JavaXorAssign(buf[index], draws[i].bit);
      assert draws[..i + 1][..i] == draws[..i];
    }
    assert draws[..flips] == draws;
    return Pass;
  }

  /**
   * The pass as the program runs it: 100 flips past a 100-byte header. It
   * fails exactly on a buffer of at most 100 bytes, leaving it as it was;
   * otherwise the length and the header are kept and at most 100 bytes differ.
   */
  method GlitchImage(buf: array<bv8>, draws: seq<Draw>) returns (outcome: Outcome)
    requires |draws| == NumFlips
    requires buf.Length > HeaderSkip ==> ValidDraws(draws, HeaderSkip, buf.Length)
    modifies buf
    ensures outcome.Fail? <==> buf.Length <= HeaderSkip
    ensures outcome.Fail? ==> buf[..] == old(buf[..])
    ensures outcome.Pass? ==> buf[..] == GlitchSpec(old(buf[..]), HeaderSkip, draws)
    ensures outcome.Pass? ==> buf[..HeaderSkip] == old(buf[..HeaderSkip])
    ensures outcome.Pass? ==> |Changed(old(buf[..]), buf[..])| <= NumFlips
  {
    outcome := Glitch(buf, HeaderSkip, NumFlips, draws);
    if outcome.Pass? {
      ChangedAtMostDraws(old(buf[..]), HeaderSkip, draws);
    }
  }
}
