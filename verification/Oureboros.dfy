/** Deterministic artifact recipes (core/blacklab/src/oureboros.rs): unfolding, measuring without keeping
    the bytes, and materialising from a catalog. */
module Oureboros {
  import opened AxiomTypes
  import opened Sha256

  const MAXIMUM_INODES := 1024
  const MAXIMUM_ARTIFACT_BYTES := 1024 * 1024
  const ELF_BYTES := 181

  type Digest32 = s: seq<byte> | |s| == 32 witness Zeros(32)

  datatype Class = Executable | SharedLibrary | Configuration
  datatype Architecture = Independent | X86_64 | Aarch64 | RiscV64

  datatype Recipe = Recipe(version: nat, baseEntropy: u64, mutator: u64)

  datatype Seed = Seed(inode: nat, class_: Class, architecture: Architecture, recipe: Recipe, size: nat,
                       entryOffset: nat, expected: Digest32)

  datatype Measurement = Measurement(inode: nat, class_: Class, architecture: Architecture, bytesWritten: nat,
        entryOffset: nat, sha256: seq<byte>)

  datatype Error =
    | InvalidSeed | UnsupportedRecipe | DuplicateInode | CapacityExceeded | UnknownInode | TargetTooSmall
    | DigestMismatch

  // ---- the byte streams --------------------------------------------------

  datatype Generator = Generator(first: u64, second: u64)

  /** One step of the shift-register generator: its next state and the word it emits.  Only that it is a
      function of the state matters here. */
  datatype Stepper = Stepper(advance: Generator -> Generator, emit: Generator -> u64)

  /** The machine-dependent parts left as parameters. */
  datatype Machine = Machine(compress: Compress, stepper: Stepper)

  function LittleEndian(x: nat, width: nat): (r: seq<byte>)
    ensures |r| == width
  {
    if width == 0 then [] else [x % 256] + LittleEndian(x / 256, width - 1)
  }

  function Word(m: Machine, g: Generator): (r: seq<byte>)
    ensures |r| == 8
  {
    LittleEndian(m.stepper.emit(g), 8)
  }

  /** The first n bytes of the generator's output. */
  function Stream(m: Machine, g: Generator, n: nat): (r: seq<byte>)
    ensures |r| == n
    decreases n
  {
    if n <= 8 then Word(m, g)[..n] else Word(m, g) + Stream(m, m.stepper.advance(g), n - 8)
  }

  /** The program: write the message, yield, stop. */
  const ELF_CODE: seq<byte> :=
    [0xb8, 0x01, 0x00, 0x00, 0x00, 0xbf, 0x01, 0x00, 0x00, 0x00, 0x48, 0x8d, 0x35, 0x11, 0x00, 0x00, 0x00,
     0xba, 0x13, 0x00, 0x00, 0x00, 0x0f, 0x05, 0xb8, 0x11, 0x00, 0x00, 0x00, 0x0f, 0x05, 0xcc, 0xeb, 0xfe]

  const ELF_MESSAGE: seq<byte> :=
    [0x50, 0x49, 0x44, 0x31, 0x20, 0x73, 0x79, 0x73, 0x63, 0x61, 0x6c, 0x6c, 0x20, 0x77, 0x72, 0x69, 0x74, 0x65, 0x0a]

  /** The ELF file header. */
  function FileHeader(): (h: seq<byte>)
    ensures |h| == 64
  {
    [0x7f, 0x45, 0x4c, 0x46, 2, 1, 1] + Zeros(9) +
    LittleEndian(3, 2) + LittleEndian(62, 2) + LittleEndian(1, 4) + LittleEndian(0x1000, 8) + LittleEndian(64, 8) +
    Zeros(12) + LittleEndian(64, 2) + LittleEndian(56, 2) + LittleEndian(1, 2) + Zeros(6)
  }

  /** The one program header. */
  function ProgramHeader(): (h: seq<byte>)
    ensures |h| == 56
  {
    LittleEndian(1, 4) + LittleEndian(5, 4) + LittleEndian(128, 8) + LittleEndian(0x1000, 8) + Zeros(8) +
    LittleEndian(53, 8) + LittleEndian(53, 8) + LittleEndian(1, 8)
  }

  /** The minimal static image: headers, one recipe-dependent word, code and message. */
  function ElfImage(r: Recipe): (image: seq<byte>)
    ensures |image| == ELF_BYTES
  {
    FileHeader() + ProgramHeader() + LittleEndian(BitXor(r.baseEntropy, r.mutator), 8) + ELF_CODE + ELF_MESSAGE
  }

  /** The fields lie where the format puts them: 64-bit, type 3 for machine 62, entry 0x1000, one program header
      at 64, and one segment of 53 bytes that starts at 128, is mapped at the entry and ends with the image. */
  lemma ElfLayout(r: Recipe)
    ensures var image := ElfImage(r);
            && image[..7] == [0x7f, 0x45, 0x4c, 0x46, 2, 1, 1] && image[16..18] == LittleEndian(3, 2)
            && image[18..20] == LittleEndian(62, 2) && image[20..24] == LittleEndian(1, 4)
            && image[24..32] == LittleEndian(0x1000, 8) && image[32..40] == LittleEndian(64, 8)
            && image[52..54] == LittleEndian(64, 2) && image[54..56] == LittleEndian(56, 2)
            && image[56..58] == LittleEndian(1, 2)
            && image[64..68] == LittleEndian(1, 4) && image[68..72] == LittleEndian(5, 4)
            && image[72..80] == LittleEndian(128, 8) && image[80..88] == LittleEndian(0x1000, 8)
            && image[96..104] == image[104..112] == LittleEndian(|image| - 128, 8)
            && image[112..120] == LittleEndian(1, 8)
            && (forall i :: 7 <= i < 16 || 40 <= i < 52 || 58 <= i < 64 || 88 <= i < 96 ==> image[i] == 0)
            && image[120..128] == LittleEndian(BitXor(r.baseEntropy, r.mutator), 8)
            && image[128..] == ELF_CODE + ELF_MESSAGE
  {
    hide LittleEndian;
    FileFields();
    ProgramFields();
    hide FileHeader;
    hide ProgramHeader;
    ImageParts(r);
    hide ElfImage;
    var image := ElfImage(r);
    SliceAt(image, 0, 64, 0, 7);
    SliceAt(image, 0, 64, 16, 18);
    SliceAt(image, 0, 64, 18, 20);
    SliceAt(image, 0, 64, 20, 24);
    SliceAt(image, 0, 64, 24, 32);
    SliceAt(image, 0, 64, 32, 40);
    SliceAt(image, 0, 64, 52, 54);
    SliceAt(image, 0, 64, 54, 56);
    SliceAt(image, 0, 64, 56, 58);
    SliceAt(image, 64, 120, 64, 68);
    SliceAt(image, 64, 120, 68, 72);
    SliceAt(image, 64, 120, 72, 80);
    SliceAt(image, 64, 120, 80, 88);
    SliceAt(image, 64, 120, 96, 104);
    SliceAt(image, 64, 120, 104, 112);
    SliceAt(image, 64, 120, 112, 120);
    BytesOf(image, 0, 64);
    BytesOf(image, 64, 120);
  }

  lemma ImageParts(r: Recipe)
    ensures var image := ElfImage(r);
            && image[0..64] == FileHeader() && image[64..120] == ProgramHeader()
            && image[120..128] == LittleEndian(BitXor(r.baseEntropy, r.mutator), 8)
            && image[128..] == ELF_CODE + ELF_MESSAGE
  {
    hide LittleEndian;
    hide FileHeader;
    hide ProgramHeader;
    Pieces(FileHeader(), ProgramHeader(), LittleEndian(BitXor(r.baseEntropy, r.mutator), 8), ELF_CODE + ELF_MESSAGE);
    hide *;
    assert ElfImage(r) == FileHeader() + ProgramHeader() + LittleEndian(BitXor(r.baseEntropy, r.mutator), 8) +
                          (ELF_CODE + ELF_MESSAGE);
  }

  lemma Pieces(a: seq<byte>, b: seq<byte>, c: seq<byte>, d: seq<byte>)
    ensures var s := a + b + c + d;
            && s[0..|a|] == a && s[|a|..|a| + |b|] == b && s[|a| + |b|..|a| + |b| + |c|] == c
            && s[|a| + |b| + |c|..] == d
  {
  }

  /** A slice of a slice. */
  lemma SliceAt(s: seq<byte>, from: nat, to: nat, a: nat, b: nat)
    requires from <= a <= b <= to <= |s|
    ensures s[a..b] == s[from..to][a - from..b - from]
  {
    var t := s[from..to];
    var u := t[a - from..b - from];
    assert |u| == b - a;
    forall i | 0 <= i < b - a ensures s[a..b][i] == u[i] {
      assert u[i] == t[a - from + i] == s[a + i];
    }
  }

  lemma BytesOf(s: seq<byte>, from: nat, to: nat)
    requires from <= to <= |s|
    ensures forall i :: from <= i < to ==> s[i] == s[from..to][i - from]
  {
  }

  lemma FileFields()
    ensures var h := FileHeader();
            && h[..7] == [0x7f, 0x45, 0x4c, 0x46, 2, 1, 1] && h[16..18] == LittleEndian(3, 2)
            && h[18..20] == LittleEndian(62, 2) && h[20..24] == LittleEndian(1, 4)
            && h[24..32] == LittleEndian(0x1000, 8) && h[32..40] == LittleEndian(64, 8)
            && h[52..54] == LittleEndian(64, 2) && h[54..56] == LittleEndian(56, 2) && h[56..58] == LittleEndian(1, 2)
            && (forall i :: 7 <= i < 16 || 40 <= i < 52 || 58 <= i < 64 ==> h[i] == 0)
  {
    hide LittleEndian;
  }

  lemma ProgramFields()
    ensures var h := ProgramHeader();
            && h[..4] == LittleEndian(1, 4) && h[4..8] == LittleEndian(5, 4)
            && h[8..16] == LittleEndian(128, 8) && h[16..24] == LittleEndian(0x1000, 8)
            && h[32..40] == h[40..48] == LittleEndian(53, 8) && h[48..56] == LittleEndian(1, 8)
            && (forall i :: 24 <= i < 32 ==> h[i] == 0)
  {
    hide LittleEndian;
    var h := ProgramHeader();
    assert h[48..] == LittleEndian(1, 8) && h[48..56] == h[48..];
  }

  /** The program addresses the message relative to its own end of instruction 17 and writes all of it. */
  lemma ProgramAddressesMessage()
    ensures 17 + LittleValue(ELF_CODE[13..17]) == |ELF_CODE| && LittleValue(ELF_CODE[18..22]) == |ELF_MESSAGE|
  {
    var a, b := ELF_CODE[13..17], ELF_CODE[18..22];
    assert ELF_CODE[13] == 0x11 && ELF_CODE[14] == ELF_CODE[15] == ELF_CODE[16] == 0;
    assert ELF_CODE[18] == 0x13 && ELF_CODE[19] == ELF_CODE[20] == ELF_CODE[21] == 0;
    FourBytes(a);
    FourBytes(b);
  }

  /** The number that little-endian bytes spell. */
  function LittleValue(s: seq<byte>): nat { if s == [] then 0 else s[0] + 256 * LittleValue(s[1..]) }

  lemma FourBytes(s: seq<byte>)
    requires |s| == 4 && s[1] == s[2] == s[3] == 0
    ensures LittleValue(s) == s[0]
  {
    assert LittleValue(s) == s[0] + 256 * LittleValue(s[1..]);
    assert LittleValue(s[1..]) == s[1] + 256 * LittleValue(s[1..][1..]);
    assert LittleValue(s[1..][1..]) == s[2] + 256 * LittleValue(s[1..][1..][1..]);
    assert LittleValue(s[1..][1..][1..]) == s[3] + 256 * LittleValue(s[1..][1..][1..][1..]);
  }

  /** Reading back what was spelled. */
  lemma {:induction false} LittleRoundTrip(x: nat, width: nat)
    requires x < Places(width)
    ensures LittleValue(LittleEndian(x, width)) == x
  {
    if width > 0 {
      LittleRoundTrip(x / 256, width - 1);
      assert LittleEndian(x, width)[1..] == LittleEndian(x / 256, width - 1);
    }
  }

  function Places(width: nat): nat { if width == 0 then 1 else 256 * Places(width - 1) }

  predicate ValidRecipe(r: Recipe) {
    (r.version == 1 || r.version == 2) && !(r.baseEntropy == 0 && r.mutator == 0)
  }

  function Start(r: Recipe): Generator { Generator(r.baseEntropy, r.mutator) }

  /** The error of unfolding into n bytes, if any. */
  function UnfoldError(r: Recipe, n: nat): Option<Error> {
    if !ValidRecipe(r) then Some(UnsupportedRecipe)
    else if r.version == 2 && n != ELF_BYTES then Some(InvalidSeed)
    else None
  }

  function Unfolded(m: Machine, r: Recipe, n: nat): (bytes: seq<byte>)
    requires UnfoldError(r, n).None?
    ensures |bytes| == n
  {
    if r.version == 1 then Stream(m, Start(r), n) else ElfImage(r)
  }

  // ---- unfolding into a buffer -------------------------------------------

  /** Overwrites the bytes from position `at` on. */
  method CopyAt(target: array<byte>, at: nat, bytes: seq<byte>)
    requires at + |bytes| <= target.Length
    modifies target
    ensures target[..at + |bytes|] == old(target[..at]) + bytes && target[at + |bytes|..] == old(target[at + |bytes|..])
  {
    var i := 0;
    while i < |bytes|
      invariant 0 <= i <= |bytes|
      invariant forall k :: 0 <= k < target.Length ==>
                              target[k] == if at <= k < at + i then bytes[k - at] else old(target[k])
    {
      target[at + i] := bytes[i];
      i := i + 1;
    }
  }

  method FillStream(m: Machine, g0: Generator, target: array<byte>, n: nat)
    requires n <= target.Length
    modifies target
    ensures target[..n] == Stream(m, g0, n) && target[n..] == old(target[n..])
  {
    hide Word;
    hide Stream;
    ghost var rest := target[n..];
    var g := g0;
    var at := 0;
    assert target[..0] + Stream(m, g0, n) == Stream(m, g0, n);
    while at < n
      invariant 0 <= at <= n && target[n..] == rest
      invariant Stream(m, g0, n) == target[..at] + Stream(m, g, n - at)
    {
      var word := Word(m, g);
      var count := if n - at < 8 then n - at else 8;
      StreamStep(m, g, n - at, count);
      ghost var before := target[..at];
      ghost var tail := target[at + count..];
      CopyAt(target, at, word[..count]);
      TailKept(target[..], at + count, n, tail, rest);
      Regrouped(before, word[..count], Stream(m, m.stepper.advance(g), n - at - count));
      g := m.stepper.advance(g);
      at := at + count;
    }
    assert target[..n] + Stream(m, g, 0) == target[..n];
  }

  lemma Regrouped(a: seq<byte>, b: seq<byte>, c: seq<byte>)
    ensures a + b + c == a + (b + c)
  {
  }

  lemma TailKept(t: seq<byte>, a: nat, n: nat, tail: seq<byte>, rest: seq<byte>)
    requires a <= n <= |t| && t[a..] == tail && |rest| == |t| - n && tail[n - a..] == rest
    ensures t[n..] == rest
  {
    assert t[a..][n - a..] == t[n..];
  }

  lemma StreamStep(m: Machine, g: Generator, n: nat, count: nat)
    requires n > 0 && count == if n < 8 then n else 8
    ensures Stream(m, g, n) == Word(m, g)[..count] + Stream(m, m.stepper.advance(g), n - count)
  {
    hide Word;
    var w := Word(m, g);
    if n <= 8 {
      assert Stream(m, m.stepper.advance(g), 0) == [];
      assert w[..count] + [] == w[..n];
    } else {
      assert w[..8] == w;
    }
  }

  /** Unfolds the recipe into the first n bytes of the buffer. */
  method Unfold(m: Machine, r: Recipe, target: array<byte>, n: nat) returns (error: Option<Error>)
    requires n <= target.Length
    modifies target
    ensures error == UnfoldError(r, n)
    ensures error.None? ==> target[..n] == Unfolded(m, r, n)
    ensures target[n..] == old(target[n..]) && (error.Some? ==> target[..] == old(target[..]))
  {
    hide Stream;
    hide ElfImage;
    if !ValidRecipe(r) { return Some(UnsupportedRecipe); }
    if r.version == 1 {
      FillStream(m, Start(r), target, n);
      return None;
    }
    if n == ELF_BYTES {
      CopyAt(target, 0, ElfImage(r));
      assert [] + ElfImage(r) == ElfImage(r);
      return None;
    }
    return Some(InvalidSeed);
  }

  // ---- measuring ---------------------------------------------------------

  function MeasureError(r: Recipe, n: nat): Option<Error> {
    if !ValidRecipe(r) then Some(UnsupportedRecipe)
    else if n == 0 || n > MAXIMUM_ARTIFACT_BYTES then Some(InvalidSeed)
    else UnfoldError(r, n)
  }

  /** Feeds the hasher the generator's output word by word. */
  method FeedStream(m: Machine, g0: Generator, hasher: Hasher, n: nat)
    requires hasher.Valid() && hasher.Fed() == []
    modifies hasher, hasher.block
    ensures hasher.Valid() && hasher.Fed() == Stream(m, g0, n)
  {
    hide Word;
    hide Fold;
    var g := g0;
    var full := n / 8;
    var c := 0;
    while c < full
      invariant 0 <= c <= full && hasher.Valid() && Stream(m, g0, n) == hasher.Fed() + Stream(m, g, n - 8 * c)
    {
      StreamStep(m, g, n - 8 * c, 8);
      assert Word(m, g)[..8] == Word(m, g);
      hasher.Update(Word(m, g));
      g := m.stepper.advance(g);
      c := c + 1;
    }
    var remainder := n % 8;
    if remainder != 0 {
      hasher.Update(Word(m, g)[..remainder]);
    }
  }

  /** The measurement is the hash of what unfolding would write. */
  method MeasureRecipe(m: Machine, r: Recipe, n: nat) returns (digest: seq<byte>, error: Option<Error>)
    ensures error == MeasureError(r, n)
    ensures error.None? ==> digest == Hash(m.compress, Unfolded(m, r, n))
  {
    hide Stream;
    hide ElfImage;
    hide Hash;
    hide Fold;
    digest := [];
    if !ValidRecipe(r) { return digest, Some(UnsupportedRecipe); }
    if n == 0 || n > MAXIMUM_ARTIFACT_BYTES { return digest, Some(InvalidSeed); }
    var hasher := new Hasher(m.compress);
    if r.version == 1 {
      FeedStream(m, Start(r), hasher, n);
    } else {
      if n != ELF_BYTES { return digest, Some(InvalidSeed); }
      hasher.Update(ElfImage(r));
      assert hasher.Fed() == ElfImage(r);
    }
    digest := hasher.Finish();
    return digest, None;
  }

  // ---- comparing digests -------------------------------------------------

  function Xor8(a: byte, b: byte): byte {
    assert TwoTo(8) == 256 by { TwoToSum(4, 4); }
    Bitwise((x, y) => x != y, a, b, 8)
  }
  function Or8(a: byte, b: byte): byte {
    assert TwoTo(8) == 256 by { TwoToSum(4, 4); }
    Bitwise((x, y) => x || y, a, b, 8)
  }

  lemma {:induction false} XorZero(a: nat, b: nat, w: nat)
    requires a < TwoTo(w) && b < TwoTo(w)
    ensures Bitwise((x, y) => x != y, a, b, w) == 0 <==> a == b
  {
    if w > 0 { XorZero(a / 2, b / 2, w - 1); }
  }

  lemma {:induction false} OrZero(a: nat, b: nat, w: nat)
    requires a < TwoTo(w) && b < TwoTo(w)
    ensures Bitwise((x, y) => x || y, a, b, w) == 0 <==> a == 0 && b == 0
  {
    if w > 0 { OrZero(a / 2, b / 2, w - 1); }
  }

  /** Looks at every byte whatever it finds, and is still equality. */
  method ConstantTimeEqual(left: seq<byte>, right: seq<byte>) returns (equal: bool)
    requires |left| == |right|
    ensures equal <==> left == right
  {
    hide Bitwise;
    var difference: byte := 0;
    var i := 0;
    TwoToSum(4, 4);
    assert TwoTo(8) == 256;
    while i < |left|
      invariant 0 <= i <= |left| && (difference == 0 <==> left[..i] == right[..i])
    {
      XorZero(left[i], right[i], 8);
      OrZero(difference, Xor8(left[i], right[i]), 8);
      difference := Or8(difference, Xor8(left[i], right[i]));
      assert left[..i + 1] == left[..i] + [left[i]] && right[..i + 1] == right[..i] + [right[i]];
      i := i + 1;
    }
    assert left[..i] == left && right[..i] == right;
    return difference == 0;
  }

  // ---- the catalog -------------------------------------------------------

  const ZERO_DIGEST: Digest32 := Zeros(32)

  /** The checks of `validate_seed`, in its order. */
  function SeedError(s: Seed): Option<Error> {
    if !ValidRecipe(s.recipe) then Some(UnsupportedRecipe)
    else if s.inode == 0 || s.size == 0 || s.size > MAXIMUM_ARTIFACT_BYTES then Some(InvalidSeed)
    else if s.expected == ZERO_DIGEST then Some(InvalidSeed)
    else if !s.class_.Configuration? && (s.architecture.Independent? || s.entryOffset >= s.size) then Some(InvalidSeed)
    else if s.class_.Configuration? && (!s.architecture.Independent? || s.entryOffset != 0) then Some(InvalidSeed)
    else if s.recipe.version == 2 && (!s.class_.Executable? || !s.architecture.X86_64? || s.size != ELF_BYTES
             || s.entryOffset != 128) then Some(InvalidSeed)
    else None
  }

  /** What a seed must be to pass. */
  lemma SeedExactly(s: Seed)
    ensures var known := (s.recipe.version == 1 || s.recipe.version == 2)
                         && (s.recipe.baseEntropy > 0 || s.recipe.mutator > 0);
            && (SeedError(s) == Some(UnsupportedRecipe) <==> !known)
            && (SeedError(s).None? <==>
                  && known && 0 < s.inode && 0 < s.size <= 1_048_576
                  && (exists i :: 0 <= i < 32 && s.expected[i] != 0)
                  && (if s.class_ == Configuration then s.architecture == Independent && s.entryOffset == 0
                      else s.architecture != Independent && s.entryOffset < s.size)
                  && (s.recipe.version == 2 ==>
                        s.class_ == Executable && s.architecture == X86_64 && s.size == 181 && s.entryOffset == 128))
            && (SeedError(s).Some? ==> SeedError(s).value in {UnsupportedRecipe, InvalidSeed})
  {
    if forall i :: 0 <= i < 32 ==> s.expected[i] == 0 {
      assert s.expected == ZERO_DIGEST;
    }
  }

  /** A planted seed can always be unfolded to its size. */
  lemma PlantedUnfolds(s: Seed)
    requires SeedError(s).None?
    ensures UnfoldError(s.recipe, s.size).None? && MeasureError(s.recipe, s.size).None?
  {
  }

  datatype Materialized = Made(measurement: Measurement) | NotMade(error: Error)

  function Refusal(error: Option<Error>): Materialized {
    match error case Some(e) => NotMade(e) case None => NotMade(InvalidSeed)
  }

  class Catalog {
    const machine: Machine
    const seeds: array<Seed>
    var count: nat

    /** Planted seeds passed validation and have distinct inodes. */
    ghost predicate Valid()
      reads this, seeds
    {
      && seeds.Length == MAXIMUM_INODES && count <= MAXIMUM_INODES
      && (forall i :: 0 <= i < count ==> SeedError(seeds[i]).None?)
      && (forall i, j :: 0 <= i < j < count ==> seeds[i].inode != seeds[j].inode)
    }

    constructor (machine: Machine)
      ensures Valid() && count == 0 && this.machine == machine && fresh(seeds)
    {
      this.machine := machine;
      seeds := new Seed[MAXIMUM_INODES](_ => Seed(0, Configuration, Independent, Recipe(0, 0, 0), 0, 0, ZERO_DIGEST));
      count := 0;
    }

    method PlantSeed(s: Seed) returns (error: Option<Error>)
      requires Valid()
      modifies this`count, seeds
      ensures Valid()
      ensures error == (if SeedError(s).Some? then SeedError(s)
                        else if exists i :: 0 <= i < old(count) && old(seeds[..])[i].inode == s.inode
                        then Some(DuplicateInode)
                        else if old(count) == MAXIMUM_INODES then Some(CapacityExceeded)
                        else None)
      ensures seeds[..count] == if error.None? then old(seeds[..count]) + [s] else old(seeds[..count])
    {
      hide SeedError;
      var invalid := SeedError(s);
      if invalid.Some? { return invalid; }
      var i := 0;
      while i < count
        invariant 0 <= i <= count && forall j :: 0 <= j < i ==> seeds[j].inode != s.inode
      {
        if seeds[i].inode == s.inode {
          assert seeds[..][i].inode == s.inode;
          return Some(DuplicateInode);
        }
        i := i + 1;
      }
      if count >= seeds.Length { return Some(CapacityExceeded); }
      seeds[count] := s;
      count := count + 1;
      return None;
    }

    method FindSeed(inode: nat) returns (s: Option<Seed>)
      requires Valid()
      ensures s.None? <==> forall i :: 0 <= i < count ==> seeds[i].inode != inode
      ensures s.Some? ==> exists i :: 0 <= i < count && seeds[i] == s.value && seeds[i].inode == inode
    {
      hide SeedError;
      var i := 0;
      while i < count
        invariant 0 <= i <= count && forall j :: 0 <= j < i ==> seeds[j].inode != inode
      {
        if seeds[i].inode == inode { return Some(seeds[i]); }
        i := i + 1;
      }
      return None;
    }

    /** A planted seed materialises exactly when the buffer holds it and its digest is the measured one;
        a mismatch leaves zeros, and nothing beyond the artifact is touched. */
    method Materialize(inode: nat, target: array<byte>) returns (r: Materialized)
      requires Valid()
      modifies target
      ensures (forall i :: 0 <= i < count ==> seeds[i].inode != inode) ==>
                r == NotMade(UnknownInode) && target[..] == old(target[..])
      ensures forall i :: 0 <= i < count && seeds[i].inode == inode ==>
                var s := seeds[i];
                && UnfoldError(s.recipe, s.size).None?
                && if target.Length < s.size then r == NotMade(TargetTooSmall) && target[..] == old(target[..])
                   else if Hash(machine.compress, Unfolded(machine, s.recipe, s.size)) == s.expected then
                     && r == Made(Measurement(inode, s.class_, s.architecture, s.size, s.entryOffset, s.expected))
                     && target[..s.size] == Unfolded(machine, s.recipe, s.size)
                     && target[s.size..] == old(target[s.size..])
                   else && r == NotMade(DigestMismatch) && target[..s.size] == Zeros(s.size)
                        && target[s.size..] == old(target[s.size..])
    {
      hide Hash;
      hide Unfolded;
      hide SeedError;
      var found := FindSeed(inode);
      if found.None? { return NotMade(UnknownInode); }
      var s := found.value;
      PlantedUnfolds(s);
      assert forall i :: 0 <= i < count && seeds[i].inode == inode ==> seeds[i] == s;
      if target.Length < s.size { return NotMade(TargetTooSmall); }
      SizeBounded(s);
      var error := Unfold(machine, s.recipe, target, s.size);
      if error.Some? { return Refusal(error); }
      ghost var bytes := target[..s.size];
      var actual := HashOf(machine.compress, target[..s.size]);
      HashLength(machine.compress, bytes);
      var equal := ConstantTimeEqual(actual, s.expected);
      if !equal {
        CopyAt(target, 0, Zeros(s.size));
        assert [] + Zeros(s.size) == Zeros(s.size);
        return NotMade(DigestMismatch);
      }
      return Made(Measurement(inode, s.class_, s.architecture, s.size, s.entryOffset, actual));
    }
  }

  lemma SizeBounded(s: Seed)
    requires SeedError(s).None?
    ensures s.size < U64
  {
  }

  lemma HashLength(c: Compress, msg: seq<byte>)
    ensures |Hash(c, msg)| == 32
  {
  }
}
