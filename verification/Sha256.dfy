/** SHA-256 framing: the streaming hasher of core/blacklab/src/oureboros.rs and the one-shot form of
    kernel/boulder/build.rs, both against padding and chunking as in section 5.1.1 and section 6.2.2 of
    FIPS 180-4.  The compression function is a parameter. */
module Sha256 {
  import opened Arithmetic

  type byte = x: int | 0 <= x < 256 witness 0

  const U64 := 0x1_0000_0000_0000_0000

  const WORD := 0x1_0000_0000

  /** The eight 32-bit chaining words. */
  type State = s: seq<nat> | |s| == 8 && forall i :: 0 <= i < 8 ==> s[i] < WORD witness [0, 0, 0, 0, 0, 0, 0, 0]

  /** The compression function, of which nothing is assumed. */
  datatype Compress = Compress(apply: (State, seq<byte>) -> State)

  const H0: State := [0x6a09_e667, 0xbb67_ae85, 0x3c6e_f372, 0xa54f_f53a, 0x510e_527f, 0x9b05_688c, 0x1f83_d9ab,
      0x5be0_cd19]

  // ---- the specification -------------------------------------------------

  function BigEndian(x: nat, width: nat): (r: seq<byte>)
    ensures |r| == width
  {
    if width == 0 then [] else BigEndian(x / 256, width - 1) + [x % 256]
  }

  /** The chaining state after whole blocks. */
  function Fold(c: Compress, s: State, bytes: seq<byte>): State
    decreases |bytes|
  {
    if |bytes| < 64 then s else Fold(c, c.apply(s, bytes[..64]), bytes[64..])
  }

  function DigestOf(s: seq<nat>): (r: seq<byte>)
    ensures |r| == 4 * |s|
  {
    if s == [] then [] else BigEndian(s[0], 4) + DigestOf(s[1..])
  }

  function Zeros(n: nat): (r: seq<byte>)
    ensures |r| == n && forall i :: 0 <= i < n ==> r[i] == 0
  {
    seq(n, _ => 0)
  }

  /** Whole blocks that hold the message, one marker byte and the eight length bytes. */
  function PaddedLength(n: nat): nat {
    (n + 9 + 63) / 64 * 64
  }

  lemma PaddedRoom(n: nat)
    ensures n + 9 <= PaddedLength(n) < n + 9 + 64 && PaddedLength(n) % 64 == 0
  {
  }

  function Pad(msg: seq<byte>): (r: seq<byte>)
    ensures |r| == PaddedLength(|msg|)
  {
    PaddedRoom(|msg|);
    msg + [0x80] + Zeros(PaddedLength(|msg|) - |msg| - 9) + LengthBytes(|msg|)
  }

  /** The length in bits, as the hashers truncate and store it. */
  function LengthBytes(n: nat): (r: seq<byte>)
    ensures |r| == 8
  {
    BigEndian(8 * n % U64, 8)
  }

  function Hash(c: Compress, msg: seq<byte>): seq<byte> {
    DigestOf(Fold(c, H0, Pad(msg)))
  }

  // ---- what the bytes spell ----------------------------------------------

  /** The number that big-endian bytes spell: the last counts one, each earlier one 256 times more. */
  function BigValue(s: seq<byte>): nat {
    if s == [] then 0 else 256 * BigValue(s[..|s| - 1]) + s[|s| - 1]
  }

  function Places(width: nat): nat { if width == 0 then 1 else 256 * Places(width - 1) }

  /** Reading back what was spelled. */
  lemma {:induction false} BigRoundTrip(x: nat, width: nat)
    requires x < Places(width)
    ensures BigValue(BigEndian(x, width)) == x
  {
    if width > 0 {
      BigRoundTrip(x / 256, width - 1);
      assert BigEndian(x, width)[..width - 1] == BigEndian(x / 256, width - 1);
    }
  }

  lemma PlacesOf()
    ensures Places(4) == WORD && Places(8) == U64
  {
    assert Places(2) == 65536;
    assert Places(4) == 65536 * Places(2);
    assert Places(6) == 65536 * Places(4);
    assert Places(8) == 65536 * Places(6);
  }

  /** The padded message: itself, one marker byte, zeros, and its length in bits in the last eight bytes. */
  lemma PadMeaning(msg: seq<byte>)
    ensures var p := Pad(msg);
            && |p| % 64 == 0 && |msg| + 9 <= |p| < |msg| + 73 && p[..|msg|] == msg && p[|msg|] == 0x80
            && (forall i :: |msg| < i < |p| - 8 ==> p[i] == 0)
            && BigValue(p[|p| - 8..]) == 8 * |msg| % U64
  {
    PaddedRoom(|msg|);
    PlacesOf();
    BigRoundTrip(8 * |msg| % U64, 8);
    hide PaddedLength;
    hide BigEndian;
    var p := Pad(msg);
    assert p[|p| - 8..] == LengthBytes(|msg|);
  }

  /** Four bytes of the digest spell each word. */
  lemma {:induction false} DigestMeaning(s: seq<nat>, i: nat)
    requires i < |s| && s[i] < WORD
    ensures BigValue(DigestOf(s)[4 * i..4 * i + 4]) == s[i]
  {
    var d := DigestOf(s);
    if i == 0 {
      PlacesOf();
      BigRoundTrip(s[0], 4);
      assert d[0..4] == BigEndian(s[0], 4);
    } else {
      DigestMeaning(s[1..], i - 1);
      assert d[4..] == DigestOf(s[1..]);
      assert d[4 * i..4 * i + 4] == d[4..][4 * (i - 1)..4 * (i - 1) + 4];
    }
  }

  /** Of the hash of any message: its words are the chaining words after the padded blocks. */
  lemma HashMeaning(c: Compress, msg: seq<byte>, i: nat)
    requires i < 8
    ensures |Hash(c, msg)| == 32 && BigValue(Hash(c, msg)[4 * i..4 * i + 4]) == Fold(c, H0, Pad(msg))[i]
  {
    hide Fold;
    hide Pad;
    hide DigestOf;
    DigestMeaning(Fold(c, H0, Pad(msg)), i);
  }

  /** The chaining state before the first block: the first 32 bits of the fractions of the square roots of the
      first eight primes, as in section 5.3.3 of FIPS 180-4. */
  lemma InitialWords(i: nat)
    requires i < 8
    ensures var p, whole := [2, 3, 5, 7, 11, 13, 17, 19][i], [1, 1, 2, 2, 3, 3, 4, 4][i];
            whole * whole < p < (whole + 1) * (whole + 1) && RootBits(p, whole * WORD + H0[i])
  {
  }

  /** r is the square root of p times 2^32, rounded down. */
  ghost predicate RootBits(p: nat, r: nat) {
    r * r <= p * WORD * WORD < (r + 1) * (r + 1)
  }

  lemma {:induction false} FoldSplit(c: Compress, s: State, a: seq<byte>, b: seq<byte>)
    requires |a| % 64 == 0
    ensures Fold(c, s, a + b) == Fold(c, Fold(c, s, a), b)
    decreases |a|
  {
    if |a| == 0 {
      assert a + b == b;
    } else {
      assert (a + b)[..64] == a[..64] && (a + b)[64..] == a[64..] + b;
      FoldSplit(c, c.apply(s, a[..64]), a[64..], b);
    }
  }

  lemma FoldBlock(c: Compress, s: State, b: seq<byte>)
    requires |b| == 64
    ensures Fold(c, s, b) == c.apply(s, b)
  {
    assert b[..64] == b && b[64..] == [];
  }

  /** One more block after whole blocks. */
  lemma FoldNext(c: Compress, s: State, a: seq<byte>, b: seq<byte>)
    requires |a| % 64 == 0 && |b| == 64
    ensures Fold(c, s, a + b) == c.apply(Fold(c, s, a), b)
  {
    FoldSplit(c, s, a, b);
    FoldBlock(c, Fold(c, s, a), b);
  }

  // ---- the streaming hasher ----------------------------------------------

  class Hasher {
    const compress: Compress
    const block: array<byte>
    var state: State
    var blockLength: nat
    var totalBytes: nat
    /** The whole blocks compressed so far. */
    ghost var folded: seq<byte>

    /** Everything hashed so far: the compressed blocks and what waits in the buffer. */
    ghost function Fed(): seq<byte>
      reads this, block
      requires blockLength <= block.Length
    {
      folded + block[..blockLength]
    }

    /** The buffer has room and the state is the fold over the compressed blocks. */
    ghost predicate Buffered()
      reads this, block
    {
      block.Length == 64 && blockLength < 64 && |folded| % 64 == 0 && state == Fold(compress, H0, folded)
    }

    ghost predicate Valid()
      reads this, block
    {
      Buffered() && totalBytes == Saturated(|Fed()|)
    }

    constructor (compress: Compress)
      ensures Valid() && Fed() == [] && this.compress == compress && fresh(block)
    {
      this.compress := compress;
      state := H0;
      block := new byte[64](_ => 0);
      blockLength, totalBytes := 0, 0;
      folded := [];
    }

    /** Copies bytes into the block buffer. */
    method Store(at: nat, bytes: seq<byte>)
      requires at + |bytes| <= block.Length
      modifies block
      ensures block[..] == old(block[..at]) + bytes + old(block[at + |bytes|..])
    {
      var i := 0;
      while i < |bytes|
        invariant 0 <= i <= |bytes|
        invariant forall k :: 0 <= k < block.Length ==>
                                block[k] == if at <= k < at + i then bytes[k - at] else old(block[k])
      {
        block[at + i] := bytes[i];
        i := i + 1;
      }
    }

    /** Tops up a partly filled buffer; what is left of the input when the buffer came out empty. */
    method TopUp(input: seq<byte>) returns (rest: seq<byte>)
      requires Buffered() && 0 < blockLength
      modifies this`state, this`blockLength, this`folded, block
      ensures Buffered()
      ensures Fed() + rest == old(Fed()) + input && (blockLength != 0 ==> rest == [])
    {
      hide Fold;
      var needed := 64 - blockLength;
      var copied := if needed < |input| then needed else |input|;
      ghost var held := block[..blockLength];
      Store(blockLength, input[..copied]);
      blockLength := blockLength + copied;
      assert block[..blockLength] == held + input[..copied];
      rest := input[copied..];
      assert input == input[..copied] + rest;
      if blockLength == 64 {
        assert block[..] == block[..64];
        FoldNext(compress, H0, folded, block[..]);
        state := compress.apply(state, block[..]);
        blockLength := 0;
        folded := folded + block[..];
        assert Fed() == folded;
      }
    }

    /** Compresses the whole blocks of the input and buffers what is left. */
    method Blocks(input: seq<byte>)
      requires Buffered() && blockLength == 0
      modifies this`state, this`blockLength, this`folded, block
      ensures Buffered() && Fed() == old(folded) + input
    {
      hide Fold;
      var rest := input;
      while |rest| >= 64
        invariant Buffered() && blockLength == 0 && folded + rest == old(folded) + input
      {
        FoldNext(compress, H0, folded, rest[..64]);
        assert rest == rest[..64] + rest[64..];
        state := compress.apply(state, rest[..64]);
        folded := folded + rest[..64];
        rest := rest[64..];
      }
      Store(0, rest);
      blockLength := |rest|;
      assert block[..blockLength] == rest;
    }

    method Update(data: seq<byte>)
      requires Valid()
      modifies this`state, this`blockLength, this`totalBytes, this`folded, block
      ensures Valid() && Fed() == old(Fed()) + data
    {
      ghost var all := Fed() + data;
      totalBytes := Saturated(totalBytes + |data|);
      assert totalBytes == Saturated(|all|);
      hide Saturated;
      hide Fold;
      var input := data;
      if blockLength != 0 {
        input := TopUp(input);
        if blockLength != 0 {
          assert Fed() == all;
          return;
        }
      }
      assert folded == Fed();
      Blocks(input);
    }

    /** The digest of everything fed, provided the count of bytes fits its 64-bit counter. */
    method Finish() returns (digest: seq<byte>)
      requires Valid()
      modifies this`state, this`blockLength, block
      ensures |old(Fed())| < U64 ==> digest == Hash(compress, old(Fed()))
    {
      hide Fold;
      hide DigestOf;
      hide LengthBytes;
      hide Pad;
      var length := LengthBytes(totalBytes);
      ghost var tail := block[..blockLength];
      ghost var r := |tail|;
      Store(blockLength, [0x80]);
      blockLength := blockLength + 1;
      assert block[..blockLength] == tail + [0x80];
      if blockLength > 56 {
        Store(blockLength, Zeros(64 - blockLength));
        assert block[..] == tail + [0x80] + Zeros(63 - r);
        state := compress.apply(state, block[..]);
        Store(0, Zeros(64));
        Store(56, length);
        assert block[..] == Zeros(56) + length;
        TwoBlocks(compress, folded, tail);
      } else {
        Store(blockLength, Zeros(56 - blockLength));
        Store(56, length);
        assert block[..] == tail + [0x80] + Zeros(55 - r) + length;
        OneBlock(compress, folded, tail);
      }
      state := compress.apply(state, block[..]);
      digest := DigestOf(state);
    }
  }

  function Saturated(n: nat): nat { if n >= U64 then U64 - 1 else n }

  lemma PaddedTail(n: nat, r: nat)
    requires r <= n && r < 64 && (n - r) % 64 == 0
    ensures PaddedLength(n) == n - r + if r >= 56 then 128 else 64
  {
    var q := (n - r) / 64;
    assert n == 64 * q + r;
    if r >= 56 {
      assert (n + 72) / 64 == q + 2 by { DivMod(64, q + 2, n + 72 - 64 * (q + 2)); }
    } else {
      assert (n + 72) / 64 == q + 1 by { DivMod(64, q + 1, n + 72 - 64 * (q + 1)); }
    }
  }

  /** The padding fits behind the tail in one block. */
  lemma OneBlock(c: Compress, whole: seq<byte>, tail: seq<byte>)
    requires |whole| % 64 == 0 && |tail| < 56
    ensures var n := |whole + tail|;
            Fold(c, H0, Pad(whole + tail)) ==
              c.apply(Fold(c, H0, whole), tail + [0x80] + Zeros(55 - |tail|) + LengthBytes(n))
  {
    hide Fold;
    hide LengthBytes;
    hide PaddedLength;
    var n := |whole + tail|;
    PaddedTail(n, |tail|);
    var last := tail + [0x80] + Zeros(55 - |tail|) + LengthBytes(n);
    assert Pad(whole + tail) == whole + last;
    FoldNext(c, H0, whole, last);
  }

  /** The tail leaves no room for the length: the padding takes a second block. */
  lemma TwoBlocks(c: Compress, whole: seq<byte>, tail: seq<byte>)
    requires |whole| % 64 == 0 && 56 <= |tail| < 64
    ensures var n := |whole + tail|;
            Fold(c, H0, Pad(whole + tail)) == c.apply(c.apply(Fold(c, H0, whole), tail + [0x80] + Zeros(63 - |tail|)),
                  Zeros(56) + LengthBytes(n))
  {
    hide Fold;
    hide LengthBytes;
    hide PaddedLength;
    var n := |whole + tail|;
    PaddedTail(n, |tail|);
    var a := tail + [0x80] + Zeros(63 - |tail|);
    var b := Zeros(56) + LengthBytes(n);
    assert Zeros(PaddedLength(n) - n - 9) == Zeros(63 - |tail|) + Zeros(56);
    assert Pad(whole + tail) == whole + a + b;
    FoldNext(c, H0, whole, a);
    FoldNext(c, H0, whole + a, b);
  }

  // ---- the one-shot form -------------------------------------------------

  /** The padded message, written into one buffer. */
  method PadBuffer(bytes: seq<byte>) returns (padded: array<byte>)
    ensures fresh(padded) && padded[..] == Pad(bytes)
  {
    hide LengthBytes;
    var paddedLength := PaddedLength(|bytes|);
    PaddedRoom(|bytes|);
    hide PaddedLength;
    var length := LengthBytes(|bytes|);
    padded := new byte[paddedLength](i => 0);
    forall i | 0 <= i < |bytes| { padded[i] := bytes[i]; }
    padded[|bytes|] := 0x80;
    forall i | 0 <= i < 8 { padded[paddedLength - 8 + i] := length[i]; }
    assert padded[..] == Pad(bytes);
  }

  method OneShot(c: Compress, bytes: seq<byte>) returns (digest: seq<byte>)
    ensures digest == Hash(c, bytes)
  {
    hide Fold;
    hide Pad;
    hide DigestOf;
    var padded := PadBuffer(bytes);
    ghost var p := padded[..];
    var state := H0;
    var at := 0;
    assert p[0..] == p;
    while at + 64 <= padded.Length
      invariant 0 <= at <= padded.Length && padded[..] == p
      invariant Fold(c, H0, p) == Fold(c, state, p[at..])
    {
      FoldStep(c, state, p[at..]);
      assert p[at..][..64] == padded[at..at + 64] && p[at..][64..] == p[at + 64..];
      state := c.apply(state, padded[at..at + 64]);
      at := at + 64;
    }
    FoldRest(c, state, p[at..]);
    digest := DigestOf(state);
  }

  lemma FoldStep(c: Compress, s: State, b: seq<byte>)
    requires |b| >= 64
    ensures Fold(c, s, b) == Fold(c, c.apply(s, b[..64]), b[64..])
  {
  }

  lemma FoldRest(c: Compress, s: State, b: seq<byte>)
    requires |b| < 64
    ensures Fold(c, s, b) == s
  {
  }

  /** `sha256` of one slice. */
  method HashOf(c: Compress, bytes: seq<byte>) returns (digest: seq<byte>)
    ensures |bytes| < U64 ==> digest == Hash(c, bytes)
  {
    hide Hash;
    hide Fold;
    var hasher := new Hasher(c);
    hasher.Update(bytes);
    assert hasher.Fed() == bytes;
    digest := hasher.Finish();
  }

  // ---- every way of splitting --------------------------------------------

  ghost function Concat(parts: seq<seq<byte>>): seq<byte> {
    if parts == [] then [] else Concat(parts[..|parts| - 1]) + parts[|parts| - 1]
  }

  /** Whatever pieces the message arrives in, the streaming digest is the hash of the whole. */
  method HashParts(c: Compress, parts: seq<seq<byte>>) returns (digest: seq<byte>)
    ensures |Concat(parts)| < U64 ==> digest == Hash(c, Concat(parts))
  {
    hide Hash;
    hide Fold;
    var hasher := new Hasher(c);
    var i := 0;
    while i < |parts|
      invariant 0 <= i <= |parts| && hasher.Valid() && hasher.Fed() == Concat(parts[..i])
      invariant fresh(hasher) && fresh(hasher.block)
    {
      assert parts[..i + 1][..i] == parts[..i];
      hasher.Update(parts[i]);
      i := i + 1;
    }
    assert parts[..i] == parts;
    digest := hasher.Finish();
  }
}
