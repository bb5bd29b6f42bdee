/** The bitmap frame allocator (core/abyss/src/frame.rs): the free count, the reserved frames, and the
    completeness of the skipping search for aligned contiguous runs. */
module FrameAllocator {
  import opened Arithmetic

  const PAGE := 4096
  const WORD := 64
  const U64_MAX := 0xFFFF_FFFF_FFFF_FFFF
  /** No address space of 64 bits has more frames. */
  const MAX_FRAMES := 0x10_0000_0000_0000

  datatype Option<T> = None | Some(value: T)

  datatype Error =
    | AddressOverflow | StorageTooSmall | InvalidFrameCount | UnalignedFrame | FrameOutOfRange | ReservedFrame
    | DoubleFree

  /** A bitmap word: the set of its one bits. */
  type Word = set<nat>

  // ---- bits and counts ---------------------------------------------------

  predicate BitIsSet(bitmap: seq<Word>, f: nat)
    requires f < WORD * |bitmap|
  {
    f % WORD in bitmap[f / WORD]
  }

  ghost function Bits(bitmap: seq<Word>, n: nat): (r: seq<bool>)
    requires n <= WORD * |bitmap|
    ensures |r| == n && forall f :: 0 <= f < n ==> r[f] == BitIsSet(bitmap, f)
  {
    seq(n, f requires 0 <= f < n => BitIsSet(bitmap, f))
  }

  /** How many frames are not taken. */
  ghost function CountFree(bits: seq<bool>): nat {
    if bits == [] then 0 else CountFree(bits[..|bits| - 1]) + if bits[|bits| - 1] then 0 else 1
  }

  lemma {:induction false} CountUpdate(bits: seq<bool>, f: nat, v: bool)
    requires f < |bits|
    ensures CountFree(bits[f := v]) ==
              CountFree(bits) + (if bits[f] && !v then 1 else 0) - (if !bits[f] && v then 1 else 0)
    ensures !bits[f] ==> CountFree(bits) > 0
  {
    var n := |bits| - 1;
    if f == n {
      assert bits[f := v][..n] == bits[..n];
    } else {
      assert bits[f := v][..n] == bits[..n][f := v];
      CountUpdate(bits[..n], f, v);
    }
  }

  lemma {:induction false} CountAll(bits: seq<bool>)
    requires forall f :: 0 <= f < |bits| ==> bits[f]
    ensures CountFree(bits) == 0
  {
    if bits != [] { CountAll(bits[..|bits| - 1]); }
  }

  lemma {:induction false} CountNone(bits: seq<bool>, f: nat)
    requires CountFree(bits) == 0 && f < |bits|
    ensures bits[f]
  {
    if f < |bits| - 1 { CountNone(bits[..|bits| - 1], f); }
  }

  lemma {:induction false} CountBound(bits: seq<bool>)
    ensures CountFree(bits) <= |bits|
  {
    if bits != [] { CountBound(bits[..|bits| - 1]); }
  }

  /** The bits with a range overwritten. */
  ghost function Filled(bits: seq<bool>, lo: nat, hi: nat, v: bool): (r: seq<bool>)
    requires lo <= hi <= |bits|
    ensures |r| == |bits| && forall f :: 0 <= f < |bits| ==> r[f] == if lo <= f < hi then v else bits[f]
  {
    seq(|bits|, f requires 0 <= f < |bits| => if lo <= f < hi then v else bits[f])
  }

  lemma {:induction false} CountFilled(bits: seq<bool>, lo: nat, hi: nat, v: bool)
    requires lo <= hi <= |bits| && forall f :: lo <= f < hi ==> bits[f] == !v
    ensures CountFree(Filled(bits, lo, hi, v)) ==
              (if v then CountFree(bits) - (hi - lo) else CountFree(bits) + (hi - lo))
    decreases hi - lo
  {
    if lo == hi {
      assert Filled(bits, lo, hi, v) == bits;
    } else {
      CountFilled(bits, lo, hi - 1, v);
      var before := Filled(bits, lo, hi - 1, v);
      CountUpdate(before, hi - 1, v);
      assert Filled(bits, lo, hi, v) == before[hi - 1 := v];
    }
  }

  /** The bits of the range, and no others, have the value v. */
  ghost predicate Changed(b: seq<Word>, b': seq<Word>, lo: nat, hi: nat, v: bool) {
    |b'| == |b| && forall g :: 0 <= g < WORD * |b| ==> BitIsSet(b', g) == if lo <= g < hi then v else BitIsSet(b, g)
  }

  lemma ChangedBits(b: seq<Word>, b': seq<Word>, lo: nat, hi: nat, v: bool, n: nat)
    requires Changed(b, b', lo, hi, v) && lo <= hi <= n <= WORD * |b|
    ensures Bits(b', n) == Filled(Bits(b, n), lo, hi, v)
  {
  }

  lemma FilledNext(bits: seq<bool>, lo: nat, f: nat, v: bool)
    requires lo <= f < |bits|
    ensures Filled(Filled(bits, lo, f, v), f, f + 1, v) == Filled(bits, lo, f + 1, v)
  {
  }

  lemma FilledNone(bits: seq<bool>, lo: nat, v: bool)
    requires lo <= |bits|
    ensures Filled(bits, lo, lo, v) == bits
  {
  }

  lemma CountFilledOne(bits: seq<bool>, f: nat, v: bool)
    requires f < |bits|
    ensures CountFree(Filled(bits, f, f + 1, v)) ==
              CountFree(bits) + (if bits[f] && !v then 1 else 0) - (if !bits[f] && v then 1 else 0)
    ensures Filled(bits, f, f + 1, v) == bits[f := v] && (!bits[f] ==> CountFree(bits) > 0)
  {
    CountUpdate(bits, f, v);
    assert Filled(bits, f, f + 1, v) == bits[f := v];
  }

  method SetBit(bitmap: array<Word>, f: nat, v: bool)
    requires f < WORD * bitmap.Length
    modifies bitmap
    ensures Changed(old(bitmap[..]), bitmap[..], f, f + 1, v)
  {
    var i, b := f / WORD, f % WORD;
    if v {
      bitmap[i] := bitmap[i] + {b};
    } else {
      bitmap[i] := bitmap[i] - {b};
    }
  }

  method SetRange(bitmap: array<Word>, lo: nat, hi: nat, v: bool)
    requires lo <= hi <= WORD * bitmap.Length
    modifies bitmap
    ensures Changed(old(bitmap[..]), bitmap[..], lo, hi, v)
  {
    hide BitIsSet;
    for f := lo to hi
      invariant Changed(old(bitmap[..]), bitmap[..], lo, f, v)
    {
      SetBit(bitmap, f, v);
    }
  }

  // ---- alignment ---------------------------------------------------------

  ghost predicate PowerOfTwo(a: nat) { a == 1 || (a > 1 && a % 2 == 0 && PowerOfTwo(a / 2)) }

  predicate IsPowerOfTwo(a: nat)
    ensures IsPowerOfTwo(a) == PowerOfTwo(a)
  {
    a == 1 || (a > 1 && a % 2 == 0 && IsPowerOfTwo(a / 2))
  }

  /** Rounding up to a multiple; None when the sum leaves 64 bits. */
  function AlignUp(value: nat, alignment: nat): Option<nat>
    requires alignment > 0
  {
    if value + (alignment - 1) > U64_MAX then None else Some((value + (alignment - 1)) / alignment * alignment)
  }

  ghost predicate Aligned(x: nat, alignment: nat)
    requires alignment > 0
  {
    x % alignment == 0
  }

  /** The least aligned number from value on. */
  lemma AlignUpLeast(value: nat, alignment: nat, x: nat)
    requires alignment > 0 && AlignUp(value, alignment).Some?
    ensures var r := AlignUp(value, alignment).value;
            && value <= r < value + alignment && Aligned(r, alignment)
            && (value <= x && Aligned(x, alignment) ==> r <= x)
  {
    var s := value + (alignment - 1);
    var q := s / alignment;
    var r := q * alignment;
    assert s == alignment * q + s % alignment;
    assert r == alignment * q;
    DivMod(alignment, q, 0);
    if value <= x && Aligned(x, alignment) {
      var p := x / alignment;
      assert x == alignment * p + x % alignment;
      MulMonotone(alignment, p + 1, q);
      MulMonotone(alignment, q, p);
    }
  }

  // ---- contiguous runs ---------------------------------------------------

  ghost predicate FreeRun(bits: seq<bool>, first: nat, count: nat) {
    first + count <= |bits| && forall f :: first <= f < first + count ==> !bits[f]
  }

  ghost predicate Run(bits: seq<bool>, first: nat, count: nat, alignment: nat)
    requires alignment > 0
  {
    Aligned(first, alignment) && FreeRun(bits, first, count)
  }

  /** f starts the first run from `from` on, or the first of all when there is none from there. */
  ghost predicate FirstRun(bits: seq<bool>, from: nat, f: nat, count: nat, alignment: nat)
    requires alignment > 0
  {
    if f >= from then forall x: nat :: from <= x < f ==> !Run(bits, x, count, alignment)
    else forall x: nat :: x < f || from <= x ==> !Run(bits, x, count, alignment)
  }

  /** f is the first free frame going round from `from`. */
  ghost predicate FirstFree(bits: seq<bool>, from: nat, f: nat) {
    exists g: nat :: && g < |bits| && f == Visit(from, g, |bits|)
                     && forall h: nat :: h < g ==> bits[Visit(from, h, |bits|)]
  }

  class Allocator {
    const takenWords: array<Word>
    const keptWords: array<Word>
    const frameCount: nat
    var nextSearch: nat
    var freeFrames: nat

    ghost predicate Shape()
      reads this
    {
      && takenWords != keptWords && frameCount <= WORD * takenWords.Length && frameCount <= WORD * keptWords.Length
      && frameCount <= MAX_FRAMES && nextSearch <= frameCount
    }

    ghost function Taken(): seq<bool>
      reads this, takenWords
      requires Shape()
    {
      Bits(takenWords[..], frameCount)
    }

    ghost function Kept(): seq<bool>
      reads this, keptWords
      requires Shape()
    {
      Bits(keptWords[..], frameCount)
    }

    /** The counter counts the clear bits, and what is reserved is taken. */
    ghost predicate Valid()
      reads this, takenWords, keptWords
    {
      && Shape() && freeFrames == CountFree(Taken())
      && forall f :: 0 <= f < frameCount && Kept()[f] ==> Taken()[f]
    }

    /** Everything taken and reserved, before any usable region is known. */
    constructor (maximumAddress: nat)
      requires maximumAddress + PAGE - 1 <= U64_MAX
      ensures Valid() && fresh(takenWords) && fresh(keptWords) && frameCount == (maximumAddress + PAGE - 1) / PAGE
      ensures forall f :: 0 <= f < frameCount ==> Taken()[f] && Kept()[f]
    {
      var n := (maximumAddress + PAGE - 1) / PAGE;
      frameCount := n;
      var words := (n + WORD - 1) / WORD;
      takenWords := new Word[words](_ => FullWord(WORD));
      keptWords := new Word[words](_ => FullWord(WORD));
      nextSearch, freeFrames := 0, 0;
      new;
      CountAll(Taken());
    }

    /** Takes or frees a range of frames in both bitmaps, keeping count. */
    method FillFrames(first: nat, last: nat, v: bool)
      requires Valid() && first <= last <= frameCount
      modifies this`freeFrames, takenWords, keptWords
      ensures && Valid() && Taken() == Filled(old(Taken()), first, last, v)
              && Kept() == Filled(old(Kept()), first, last, v)
    {
      hide Bits;
      hide Filled;
      hide CountFree;
      hide Changed;
      ghost var taken, kept := Taken(), Kept();
      FilledNone(taken, first, v);
      FilledNone(kept, first, v);
      for f := first to last
        invariant Shape() && freeFrames == CountFree(Taken())
        invariant Taken() == Filled(taken, first, f, v) && Kept() == Filled(kept, first, f, v)
      {
        CountFilledOne(Taken(), f, v);
        ghost var tw, kw := takenWords[..], keptWords[..];
        if v {
          if !BitIsSet(takenWords[..], f) { freeFrames := freeFrames - 1; }
        } else {
          if BitIsSet(takenWords[..], f) { freeFrames := freeFrames + 1; }
        }
        SetBit(takenWords, f, v);
        SetBit(keptWords, f, v);
        ChangedBits(tw, takenWords[..], f, f + 1, v, frameCount);
        ChangedBits(kw, keptWords[..], f, f + 1, v, frameCount);
        FilledNext(taken, first, f, v);
        FilledNext(kept, first, f, v);
      }
    }

    /** A usable region of the memory map becomes free. */
    method MarkUsable(start: nat, end: nat)
      requires Valid()
      modifies this`freeFrames, takenWords, keptWords
      ensures Valid()
      ensures var first, last := Min(start / PAGE, frameCount), Min(end / PAGE, frameCount);
              if start < end then
                && first <= last && Taken() == Filled(old(Taken()), first, last, false)
                && Kept() == Filled(old(Kept()), first, last, false)
              else Taken() == old(Taken()) && Kept() == old(Kept())
    {
      if start >= end { return; }
      FillFrames(Min(start / PAGE, frameCount), Min(end / PAGE, frameCount), false);
    }

    /** Every frame that touches the range is taken for good; a range that cannot be rounded up to a page is ignored. */
    method ReserveRange(start: nat, end: nat)
      requires Valid() && end <= U64_MAX
      modifies this`freeFrames, takenWords, keptWords
      ensures Valid()
      ensures var first, last := Min(start / PAGE, frameCount), Min((end + PAGE - 1) / PAGE, frameCount);
              if start < end && end + PAGE - 1 <= U64_MAX then
                && first <= last && Taken() == Filled(old(Taken()), first, last, true)
                && Kept() == Filled(old(Kept()), first, last, true)
              else Taken() == old(Taken()) && Kept() == old(Kept())
    {
      if start >= end { return; }
      var rounded := AlignUp(end, PAGE);
      if rounded.None? { return; }
      assert rounded.value / PAGE == (end + PAGE - 1) / PAGE;
      FillFrames(Min(start / PAGE, frameCount), Min(rounded.value / PAGE, frameCount), true);
    }

    /** Marks a free run as taken. */
    method Take(f: nat, count: nat)
      requires Valid() && FreeRun(Taken(), f, count)
      modifies this`freeFrames, takenWords
      ensures Valid() && Taken() == Filled(old(Taken()), f, f + count, true) && Kept() == old(Kept())
    {
      hide Bits;
      hide CountFree;
      hide Changed;
      CountFilled(Taken(), f, f + count, true);
      ghost var tw := takenWords[..];
      SetRange(takenWords, f, f + count, true);
      ChangedBits(tw, takenWords[..], f, f + count, true, frameCount);
      freeFrames := freeFrames - count;
    }

    /** A free frame, whenever there is one. */
    method Allocate() returns (address: Option<nat>)
      requires Valid()
      modifies this`freeFrames, this`nextSearch, takenWords
      ensures Valid() && Kept() == old(Kept())
      ensures address.None? <==> forall f :: 0 <= f < frameCount ==> old(Taken())[f]
      ensures address.None? ==> Taken() == old(Taken())
      ensures address.Some? ==>
                var f := address.value / PAGE;
                && address.value == f * PAGE && f < frameCount && !old(Taken())[f] && Taken() == old(Taken())[f := true]
                && FirstFree(old(Taken()), old(nextSearch), f) && nextSearch == Visit(f, 1, frameCount)
    {
      hide Bits;
      hide CountFree;
      hide Visit;
      ghost var taken := Taken();
      if freeFrames == 0 {
        forall f | 0 <= f < frameCount ensures taken[f] { CountNone(taken, f); }
        return None;
      }
      var frame := FindFree();
      if frame == frameCount { return None; }
      CountFilledOne(taken, frame, true);
      Take(frame, 1);
      nextSearch := Visit(frame, 1, frameCount);
      return Some(frame * PAGE);
    }

    /** The first free frame going round from the last position; frameCount when there is none. */
    method FindFree() returns (frame: nat)
      requires Valid()
      ensures frame <= frameCount && (frame < frameCount ==> !Taken()[frame] && FirstFree(Taken(), nextSearch, frame))
      ensures frame == frameCount ==> forall f :: 0 <= f < frameCount ==> Taken()[f]
    {
      hide Bits;
      hide CountFree;
      hide Visit;
      ghost var taken := Taken();
      var offset := 0;
      while offset < frameCount
        invariant 0 <= offset <= frameCount
        invariant forall g: nat :: g < offset ==>
                                     && Visit(nextSearch, g, frameCount) < frameCount
                                     && taken[Visit(nextSearch, g, frameCount)]
      {
        frame := Visit(nextSearch, offset, frameCount);
        if !BitIsSet(takenWords[..], frame) { return; }
        offset := offset + 1;
      }
      AllVisited(taken, nextSearch);
      return frameCount;
    }

    /** The first aligned free run from searchStart on. */
    method FindContiguous(searchStart: nat, count: nat, alignment: nat) returns (first: Option<nat>)
      requires Valid() && count > 0 && 0 < alignment <= U64_MAX && searchStart <= frameCount && count <= frameCount
      ensures first.Some? ==> searchStart <= first.value && Run(Taken(), first.value, count, alignment)
      ensures first.Some? ==> forall x: nat :: searchStart <= x < first.value ==> !Run(Taken(), x, count, alignment)
      ensures first.None? ==> forall x: nat :: searchStart <= x ==> !Run(Taken(), x, count, alignment)
    {
      hide AlignUp;
      ghost var taken := Taken();
      var start := AlignUp(searchStart, alignment);
      if start.None? {
        forall x: nat | searchStart <= x ensures !Run(taken, x, count, alignment) {
          AlignOverflow(searchStart, alignment, x);
        }
        return None;
      }
      var candidate := start.value;
      forall x: nat | searchStart <= x < candidate ensures !Run(taken, x, count, alignment) {
        AlignUpLeast(searchStart, alignment, x);
      }
      AlignUpLeast(searchStart, alignment, 0);
      while candidate + count <= frameCount
        invariant searchStart <= candidate && Aligned(candidate, alignment)
        invariant forall x: nat :: searchStart <= x < candidate ==> !Run(taken, x, count, alignment)
        decreases frameCount - candidate
      {
        var f := candidate;
        while f < candidate + count && !BitIsSet(takenWords[..], f)
          invariant candidate <= f <= candidate + count && forall g :: candidate <= g < f ==> !taken[g]
        {
          f := f + 1;
        }
        if f == candidate + count { return Some(candidate); }
        assert taken[f];
        var next := AlignUp(f + 1, alignment);
        if next.None? {
          forall x: nat | candidate <= x ensures !Run(taken, x, count, alignment) {
            if f + 1 <= x { AlignOverflow(f + 1, alignment, x); }
          }
          return None;
        }
        AlignUpLeast(f + 1, alignment, 0);
        forall x: nat | candidate <= x < next.value ensures !Run(taken, x, count, alignment) {
          SkipIsSafe(taken, f, candidate, count, alignment, x);
        }
        candidate := next.value;
      }
      return None;
    }

    /** Searches from the last position, then from the start. */
    method FindAnywhere(count: nat, alignment: nat) returns (first: Option<nat>)
      requires Valid() && 0 < count <= freeFrames && 0 < alignment <= U64_MAX
      ensures first.Some? ==>
                && Run(Taken(), first.value, count, alignment)
                && FirstRun(Taken(), nextSearch, first.value, count, alignment)
      ensures first.None? ==> forall x: nat :: !Run(Taken(), x, count, alignment)
    {
      hide Bits;
      hide CountFree;
      hide Run;
      CountBound(Taken());
      first := FindContiguous(nextSearch, count, alignment);
      if first.None? { first := FindContiguous(0, count, alignment); }
    }

    /** Fails, given valid arguments, only when no aligned free run exists anywhere. */
    method AllocateContiguous(count: nat, alignment: nat) returns (address: Option<nat>)
      requires Valid() && count <= U64_MAX && alignment <= U64_MAX
      modifies this`freeFrames, this`nextSearch, takenWords
      ensures Valid() && Kept() == old(Kept())
      ensures address.Some? ==> count > 0 && PowerOfTwo(alignment)
      ensures address.Some? ==>
                var f := address.value / PAGE;
                && address.value == f * PAGE && Run(old(Taken()), f, count, alignment)
                && Taken() == Filled(old(Taken()), f, f + count, true)
                && FirstRun(old(Taken()), old(nextSearch), f, count, alignment)
                && nextSearch == Visit(f, count, frameCount)
      ensures address.None? ==> Taken() == old(Taken())
      ensures address.None? && count > 0 && PowerOfTwo(alignment) ==>
                forall x: nat :: !Run(old(Taken()), x, count, alignment)
    {
      hide Bits;
      hide CountFree;
      hide Filled;
      hide Visit;
      hide FirstRun;
      hide Aligned;
      ghost var taken := Taken();
      if count == 0 || alignment == 0 || !IsPowerOfTwo(alignment) || count > freeFrames {
        if count > 0 && PowerOfTwo(alignment) { TooFewFree(taken, count, alignment); }
        return None;
      }
      var first := FindAnywhere(count, alignment);
      if first.None? { return None; }
      var f := first.value;
      Take(f, count);
      nextSearch := Visit(f, count, frameCount);
      return Some(f * PAGE);
    }

    /** Releases a run only when all of it is taken and none of it reserved; otherwise nothing changes. */
    method DeallocateContiguous(address: nat, count: nat) returns (error: Option<Error>)
      requires Valid()
      modifies this`freeFrames, this`nextSearch, takenWords
      ensures Valid() && Kept() == old(Kept())
      ensures error.Some? ==> Taken() == old(Taken()) && freeFrames == old(freeFrames) && nextSearch == old(nextSearch)
      ensures error == ReleaseError(old(Taken()), old(Kept()), address, count)
      ensures error.None? <==> Releasable(old(Taken()), old(Kept()), address, count)
      ensures error.None? ==>
                && Taken() == Filled(old(Taken()), address / PAGE, address / PAGE + count, false)
                && nextSearch == address / PAGE
    {
      hide Bits;
      hide CountFree;
      hide Changed;
      if count == 0 { return Some(InvalidFrameCount); }
      if address % PAGE != 0 { return Some(UnalignedFrame); }
      var first := address / PAGE;
      var end := first + count;
      if end > frameCount { return Some(FrameOutOfRange); }
      ghost var taken, kept := Taken(), Kept();
      var i := first;
      while i < end
        invariant first <= i <= end && (forall g :: first <= g < i ==> taken[g] && !kept[g])
        invariant SpanError(taken, kept, first, end) == SpanError(taken, kept, i, end)
      {
        if BitIsSet(keptWords[..], i) {
          assert kept[i];
          return Some(ReservedFrame);
        }
        if !BitIsSet(takenWords[..], i) {
          assert !taken[i];
          return Some(DoubleFree);
        }
        i := i + 1;
      }
      CountFilled(taken, first, end, false);
      ghost var tw := takenWords[..];
      SetRange(takenWords, first, end, false);
      ChangedBits(tw, takenWords[..], first, end, false, frameCount);
      freeFrames := freeFrames + count;
      nextSearch := first;
      return None;
    }
  }

  /** The first frame of the span that is reserved or not taken decides the error. */
  ghost function SpanError(taken: seq<bool>, kept: seq<bool>, i: nat, end: nat): Option<Error>
    requires i <= end <= |taken| == |kept|
    decreases end - i
  {
    if i == end then None
    else if kept[i] then Some(ReservedFrame)
    else if !taken[i] then Some(DoubleFree)
    else SpanError(taken, kept, i + 1, end)
  }

  ghost function ReleaseError(taken: seq<bool>, kept: seq<bool>, address: nat, count: nat): Option<Error>
    requires |taken| == |kept|
  {
    if count == 0 then Some(InvalidFrameCount)
    else if address % PAGE != 0 then Some(UnalignedFrame)
    else if address / PAGE + count > |taken| then Some(FrameOutOfRange)
    else SpanError(taken, kept, address / PAGE, address / PAGE + count)
  }

  ghost predicate Releasable(taken: seq<bool>, kept: seq<bool>, address: nat, count: nat)
    requires |taken| == |kept|
  {
    && count > 0 && address % PAGE == 0 && address / PAGE + count <= |taken|
    && forall f :: address / PAGE <= f < address / PAGE + count ==> taken[f] && !kept[f]
  }

  /** The word with its first n bits set. */
  function FullWord(n: nat): (w: Word)
    ensures forall b: nat :: b in w <==> b < n
  {
    if n == 0 then {} else FullWord(n - 1) + {n - 1}
  }

  function Min(a: nat, b: nat): nat { if a < b then a else b }

  /** The frame reached g steps after start, going round. */
  function Visit(start: nat, g: nat, n: nat): (f: nat)
    ensures n > 0 ==> f < n
  {
    if n == 0 then 0 else (start + g) % n
  }

  /** Starting anywhere, n steps around visit every frame. */
  lemma AllVisited(bits: seq<bool>, start: nat)
    requires && start <= |bits|
             && forall g: nat :: g < |bits| ==> Visit(start, g, |bits|) < |bits| && bits[Visit(start, g, |bits|)]
    ensures forall f :: 0 <= f < |bits| ==> bits[f]
  {
    var n := |bits|;
    forall f | 0 <= f < n ensures bits[f] {
      var g := VisitedAt(start, f, n);
      assert bits[Visit(start, g, n)];
    }
  }

  lemma VisitedAt(start: nat, f: nat, n: nat) returns (g: nat)
    requires f < n && start <= n
    ensures g < n && Visit(start, g, n) == f
  {
    SmallResidue(n, f);
    if f >= start {
      g := f - start;
    } else {
      AddDivisor(n, f);
      g := f + n - start;
    }
  }

  /** No aligned run starts between the candidate and the alignment after the taken frame that stopped it. */
  lemma SkipIsSafe(bits: seq<bool>, f: nat, candidate: nat, count: nat, alignment: nat, x: nat)
    requires && alignment > 0 && candidate <= f < candidate + count && f < |bits| && bits[f]
             && AlignUp(f + 1, alignment).Some?
    requires candidate <= x < AlignUp(f + 1, alignment).value
    ensures !Run(bits, x, count, alignment)
  {
    AlignUpLeast(f + 1, alignment, x);
  }

  /** When rounding up leaves 64 bits, every aligned number from there on is beyond any frame. */
  lemma AlignOverflow(value: nat, alignment: nat, x: nat)
    requires 0 < alignment <= U64_MAX && value <= MAX_FRAMES && AlignUp(value, alignment).None?
    ensures value <= x && Aligned(x, alignment) ==> x > MAX_FRAMES
  {
    if value <= x && Aligned(x, alignment) {
      var q := x / alignment;
      assert x == alignment * q;
      MulMonotone(alignment, 1, q);
    }
  }

  /** A run needs as many free frames as it is long. */
  lemma TooFewFree(bits: seq<bool>, count: nat, alignment: nat)
    requires alignment > 0 && CountFree(bits) < count
    ensures forall x: nat :: !Run(bits, x, count, alignment)
  {
    forall x: nat ensures !Run(bits, x, count, alignment) {
      if Run(bits, x, count, alignment) {
        CountFilled(bits, x, x + count, true);
        assert false;
      }
    }
  }

  // ---- building from a memory map ----------------------------------------

  datatype Region = Region(start: nat, end: nat, usable: bool)

  /** Frame f lies wholly inside the usable region, below the maximum address. */
  predicate Covers(r: Region, maximumAddress: nat, f: nat) {
    && r.usable && AlignUp(r.start, PAGE).Some?
    && AlignUp(r.start, PAGE).value < Min(r.end, maximumAddress) / PAGE * PAGE
    && AlignUp(r.start, PAGE).value / PAGE <= f < Min(r.end, maximumAddress) / PAGE
  }

  /** In bytes: the whole page lies in the region and below the maximum, unless the region starts in the last page of
      the address space. */
  lemma CoversExactly(r: Region, maximumAddress: nat, f: nat)
    requires r.start + PAGE - 1 <= U64_MAX
    ensures Covers(r, maximumAddress, f) <==>
              r.usable && r.start <= f * 4096 && (f + 1) * 4096 <= r.end && (f + 1) * 4096 <= maximumAddress
  {
    AlignUpLeast(r.start, PAGE, f * PAGE);
    assert f * PAGE % PAGE == 0;
  }

  ghost predicate Usable(regions: seq<Region>, maximumAddress: nat, f: nat) {
    exists k :: 0 <= k < |regions| && Covers(regions[k], maximumAddress, f)
  }

  /** After building, exactly the frames of usable regions are free, and everything else is reserved. */
  method Create(regions: seq<Region>, maximumAddress: nat, storageWords: nat)
    returns (a: Option<Allocator>, error: Option<Error>)
    ensures error == (if maximumAddress + PAGE - 1 > U64_MAX then Some(AddressOverflow)
                      else if storageWords < 2 * (((maximumAddress + PAGE - 1) / PAGE + WORD - 1) / WORD)
                      then Some(StorageTooSmall)
                      else None)
    ensures error.None? <==> a.Some?
    ensures a.Some? ==>
              var x := a.value;
              && x.Valid() && x.frameCount == (maximumAddress + PAGE - 1) / PAGE
              && forall f :: 0 <= f < x.frameCount ==>
                               x.Taken()[f] == x.Kept()[f] == !Usable(regions, maximumAddress, f)
  {
    if maximumAddress + PAGE - 1 > U64_MAX { return None, Some(AddressOverflow); }
    var words := ((maximumAddress + PAGE - 1) / PAGE + WORD - 1) / WORD;
    if storageWords < 2 * words { return None, Some(StorageTooSmall); }
    var x := new Allocator(maximumAddress);
    hide Bits;
    hide CountFree;
    hide Covers;
    var i := 0;
    while i < |regions|
      invariant 0 <= i <= |regions| && x.Valid() && fresh(x) && fresh(x.takenWords) && fresh(x.keptWords)
      invariant x.frameCount == (maximumAddress + PAGE - 1) / PAGE
      invariant forall f :: 0 <= f < x.frameCount ==>
                              x.Taken()[f] == x.Kept()[f] == !Usable(regions[..i], maximumAddress, f)
    {
      AddRegion(x, regions[i], maximumAddress);
      forall f | 0 <= f < x.frameCount
        ensures x.Taken()[f] == x.Kept()[f] == !Usable(regions[..i + 1], maximumAddress, f)
      {
        UsableNext(regions, maximumAddress, i, f);
      }
      i := i + 1;
    }
    assert regions[..i] == regions;
    return Some(x), None;
  }

  /** Frees the frames of one region, if it is usable. */
  method AddRegion(x: Allocator, r: Region, maximumAddress: nat)
    requires x.Valid() && x.frameCount == (maximumAddress + PAGE - 1) / PAGE
    modifies x`freeFrames, x.takenWords, x.keptWords
    ensures x.Valid()
    ensures forall f :: 0 <= f < x.frameCount ==> x.Taken()[f] == (old(x.Taken())[f] && !Covers(r, maximumAddress, f))
    ensures forall f :: 0 <= f < x.frameCount ==> x.Kept()[f] == (old(x.Kept())[f] && !Covers(r, maximumAddress, f))
  {
    hide Bits;
    hide CountFree;
    if r.usable {
      var start := AlignUp(r.start, PAGE);
      if start.Some? {
        x.MarkUsable(start.value, Min(r.end, maximumAddress) / PAGE * PAGE);
      }
    }
  }

  lemma UsableNext(regions: seq<Region>, maximumAddress: nat, i: nat, f: nat)
    requires i < |regions|
    ensures Usable(regions[..i + 1], maximumAddress, f) ==
              (Usable(regions[..i], maximumAddress, f) || Covers(regions[i], maximumAddress, f))
  {
    hide Covers;
    if Usable(regions[..i], maximumAddress, f) {
      var k :| 0 <= k < i && Covers(regions[..i][k], maximumAddress, f);
      assert Covers(regions[..i + 1][k], maximumAddress, f);
    }
    if Covers(regions[i], maximumAddress, f) {
      assert Covers(regions[..i + 1][i], maximumAddress, f);
    }
    if Usable(regions[..i + 1], maximumAddress, f) {
      var k :| 0 <= k < i + 1 && Covers(regions[..i + 1][k], maximumAddress, f);
      assert k < i ==> Covers(regions[..i][k], maximumAddress, f);
    }
  }
}
