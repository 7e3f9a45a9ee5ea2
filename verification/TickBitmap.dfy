/** `tick_bitmap.rs`: the index of initialized ticks, one bit each, 256 to a word. */
module TickBitmap {
  import opened Arithmetic
  import opened Words
  import opened FullMath
  import opened BitMath

  // ------------------------------------------------------- machine arithmetic

  /** Division and remainder round towards zero. */
  function TruncDiv(a: int, b: int): int
    requires b > 0
  {
    if a >= 0 then a / b else -((-a) / b)
  }

  function TruncRem(a: int, b: int): int
    requires b > 0
  {
    a - TruncDiv(a, b) * b
  }

  function ToI16(x: int): int { (x + 0x8000) % 0x1_0000 - 0x8000 }

  function ToU8(x: int): nat { x % 0x100 }

  /** `position`: the word and the bit of a compressed tick. */
  function Position(c: int): (int, nat)
  {
    (ToI16(c / 256), ToU8(TruncRem(c, 256)))
  }

  const SLOTS: int := 0x100_0000

  lemma BitPosition(c: int)
    ensures Position(c).1 == c % 256
  {
  }

  /** Bit b of word w is the compressed tick 256 * w + b, or one a multiple of 2^24 away from it. */
  lemma PositionIs(c: int)
    ensures var (w, b) := Position(c);
            && 0 <= b < 256 && -0x8000 <= w < 0x8000 && (256 * w + b - c) % 0x100_0000 == 0
            && (-0x80_0000 <= c < 0x80_0000 ==> 256 * w + b == c && w == c / 256 && b == c % 256)
  {
    BitPosition(c);
    var w, x := Position(c).0, c / 256;
    var m := (x + 0x8000) / 0x1_0000;
    assert w == x - m * 0x1_0000;
    ModIs(256 * w + Position(c).1 - c, SLOTS, 0, 0 - m);
  }

  /** Two ticks share a bit exactly when they differ by a multiple of 2^24. */
  lemma SharedSlot(c: int, d: int)
    ensures Position(c) == Position(d) <==> (c - d) % SLOTS == 0
  {
    BitPosition(c);
    BitPosition(d);
    SameI16(c / 256, d / 256);
    SplitMultiple(c, d);
  }

  lemma SameI16(a: int, b: int)
    ensures ToI16(a) == ToI16(b) <==> (a - b) % 0x1_0000 == 0
  {
    var x, y := (a + 0x8000) / 0x1_0000, (b + 0x8000) / 0x1_0000;
    assert a - b == (x - y) * 0x1_0000 + (ToI16(a) - ToI16(b));
  }

  lemma SplitMultiple(c: int, d: int)
    ensures (c - d) % SLOTS == 0 <==> c % 256 == d % 256 && (c / 256 - d / 256) % 0x1_0000 == 0
  {
    var k, r := c / 256 - d / 256, c % 256 - d % 256;
    assert c - d == k * 256 + r && -256 < r < 256;
    if (c - d) % SLOTS == 0 {
      DivBounds(c - d, SLOTS);
      var m := (c - d) / SLOTS;
      assert k == m * 0x1_0000 && r == 0;
      ModIs(k, 0x1_0000, 0, m);
    }
    if r == 0 && k % 0x1_0000 == 0 {
      DivBounds(k, 0x1_0000);
      ModIs(c - d, SLOTS, 0, k / 0x1_0000);
    }
  }

  /** `compressed`: the source's adjustment for negative ticks turns truncation into floor. */
  function Compressed(tick: int, spacing: int): int
    requires spacing > 0
  {
    if tick < 0 && TruncRem(tick, spacing) != 0 then TruncDiv(tick, spacing) - 1 else TruncDiv(tick, spacing)
  }

  lemma CompressedIsFloor(tick: int, spacing: int)
    requires spacing > 0
    ensures Compressed(tick, spacing) == tick / spacing
  {
    if tick < 0 {
      var q := (-tick) / spacing;
      DivBounds(-tick, spacing);
      assert (-q) * spacing == -(q * spacing) && (-q - 1) * spacing == -(q * spacing) - spacing;
      if -tick == q * spacing {
        DivIs(tick, spacing, -q);
      } else {
        DivIs(tick, spacing, -q - 1);
      }
    }
  }

  lemma ExactMultiple(tick: int, spacing: int)
    requires spacing > 0
    ensures TruncRem(tick, spacing) == 0 <==> tick % spacing == 0
    ensures tick % spacing == 0 ==> TruncDiv(tick, spacing) == tick / spacing
  {
    CompressedIsFloor(tick, spacing);
    DivBounds(tick, spacing);
    DivBounds(-tick, spacing);
    if tick < 0 && TruncRem(tick, spacing) != 0 {
      var q := tick / spacing;
      assert (q + 1) * spacing == q * spacing + spacing;
    }
  }

  // ------------------------------------------------------------------ flipping

  function Word(words: map<int, u256>, pos: int): u256
  {
    if pos in words then words[pos] else 0
  }

  /** Whether the bit of a compressed tick is set. */
  predicate IsSet(words: map<int, u256>, c: int)
  {
    Bit(Word(words, Position(c).0), Position(c).1)
  }

  function Flipped(words: map<int, u256>, c: int): map<int, u256>
  {
    var (pos, bit) := Position(c);
    FlipFits(Word(words, pos), bit);
    words[pos := BitXor(Word(words, pos), Pow2(bit))]
  }

  lemma FlipFits(w: u256, bit: nat)
    requires bit < 256
    ensures BitXor(w, Pow2(bit)) < TWO256
  {
    Pow2Strict(bit, 256);
    XorFits(w, Pow2(bit), 256);
  }

  /** A flip changes exactly the ticks that share the slot: those a multiple of 2^24 away. */
  lemma FlipChanges(words: map<int, u256>, c: int, d: int)
    ensures IsSet(Flipped(words, c), d) == (IsSet(words, d) != ((c - d) % SLOTS == 0))
  {
    SharedSlot(c, d);
    var (pos, bit) := Position(c);
    XorBit(Word(words, pos), Pow2(bit), Position(d).1);
    PowerBit(bit, Position(d).1);
  }

  /** The compressed ticks that no other one in the index shares a slot with. */
  predicate InIndex(c: int) { -0x80_0000 <= c < 0x80_0000 }

  /** The bitmap agrees with a plain set of compressed ticks: bit b of word w stands for 256 * w + b. */
  ghost predicate Agrees(words: map<int, u256>, ticks: set<int>)
  {
    forall w, b :: -0x8000 <= w < 0x8000 && 0 <= b < 256 ==> (Bit(Word(words, w), b) <==> 256 * w + b in ticks)
  }

  /** The bits that `position` finds are those. */
  lemma AgreesSlots(words: map<int, u256>, ticks: set<int>)
    ensures Agrees(words, ticks) <==> AgreesInside(words, ticks)
  {
    hide Bit, IsSet, Position;
    if Agrees(words, ticks) {
      forall c | InIndex(c) ensures IsSet(words, c) <==> c in ticks {
        SlotIs(words, c, c / 256, c % 256);
        assert Bit(Word(words, c / 256), c % 256) <==> 256 * (c / 256) + c % 256 in ticks;
      }
    }
    if AgreesInside(words, ticks) {
      forall w, b | -0x8000 <= w < 0x8000 && 0 <= b < 256 ensures Bit(Word(words, w), b) <==> 256 * w + b in ticks {
        SlotIs(words, 256 * w + b, w, b);
      }
    }
  }

  lemma SlotIs(words: map<int, u256>, c: int, w: int, b: nat)
    requires -0x8000 <= w < 0x8000 && b < 256 && c == 256 * w + b
    ensures InIndex(c) && (IsSet(words, c) <==> Bit(Word(words, w), b))
  {
    hide Bit, Position;
    PositionIs(c);
  }

  ghost predicate AgreesInside(words: map<int, u256>, ticks: set<int>)
  {
    forall c {:trigger IsSet(words, c)} :: InIndex(c) ==> (IsSet(words, c) <==> c in ticks)
  }

  /** The compressed ticks whose bits are set. */
  ghost function TicksOf(words: map<int, u256>): set<int>
  {
    set w, b | -0x8000 <= w < 0x8000 && 0 <= b < 256 && Bit(Word(words, w), b) :: 256 * w + b
  }

  lemma TicksAgree(words: map<int, u256>)
    ensures Agrees(words, TicksOf(words))
  {
    forall w, b | -0x8000 <= w < 0x8000 && 0 <= b < 256
      ensures Bit(Word(words, w), b) <==> 256 * w + b in TicksOf(words) {
      if 256 * w + b in TicksOf(words) {
        var v, a :| -0x8000 <= v < 0x8000 && 0 <= a < 256 && Bit(Word(words, v), a) && 256 * w + b == 256 * v + a;
        assert v == w && a == b;
      }
    }
  }

  lemma StoredTick(words: map<int, u256>, c: int)
    requires InIndex(c)
    ensures c in TicksOf(words) <==> Bit(Word(words, c / 256), c % 256)
  {
    hide Bit, IsSet, TicksOf, Agrees;
    TicksAgree(words);
    AgreesSlots(words, TicksOf(words));
    SlotIs(words, c, c / 256, c % 256);
  }

  function Toggled(ticks: set<int>, c: int): set<int>
  {
    if c in ticks then ticks - {c} else ticks + {c}
  }

  lemma DistinctSlots(c: int, d: int)
    requires InIndex(c) && InIndex(d)
    ensures (c - d) % SLOTS == 0 <==> c == d
  {
  }

  lemma FlipInIndex(words: map<int, u256>, c: int, d: int)
    requires InIndex(c) && InIndex(d)
    ensures IsSet(Flipped(words, c), d) == (IsSet(words, d) != (c == d))
  {
    FlipChanges(words, c, d);
    DistinctSlots(c, d);
  }

  lemma FlipToggles(words: map<int, u256>, ticks: set<int>, c: int)
    requires Agrees(words, ticks) && InIndex(c)
    ensures Agrees(Flipped(words, c), Toggled(ticks, c))
  {
    hide IsSet, Flipped;
    AgreesSlots(words, ticks);
    AgreesSlots(Flipped(words, c), Toggled(ticks, c));
    forall d | InIndex(d) ensures IsSet(Flipped(words, c), d) <==> d in Toggled(ticks, c) {
      FlipInIndex(words, c, d);
    }
  }

  /** Flipping is toggling exactly inside the index: a flip of any tick outside it changes another
      tick as well, the one in the index that shares its slot. */
  lemma FlipAgreesIff(words: map<int, u256>, ticks: set<int>, c: int)
    requires Agrees(words, ticks)
    ensures Agrees(Flipped(words, c), Toggled(ticks, c)) <==> InIndex(c)
  {
    if InIndex(c) {
      FlipToggles(words, ticks, c);
    } else {
      var d := Alias(c);
      FlipChanges(words, c, d);
      AgreesSlots(words, ticks);
      AgreesSlots(Flipped(words, c), Toggled(ticks, c));
    }
  }

  /** The tick of the index that shares the slot. */
  lemma Alias(c: int) returns (d: int)
    ensures InIndex(d) && (c - d) % SLOTS == 0
  {
    d := (c + 0x80_0000) % SLOTS - 0x80_0000;
    assert c - d == (c + 0x80_0000) / SLOTS * SLOTS;
  }

  /** The HashMap of words that the source passes around by mutable reference. */
  class Bitmap {
    var words: map<int, u256>

    constructor ()
      ensures words == map[] && Agrees(words, {})
    {
      words := map[];
      new;
      EmptyAgrees();
    }

    /** `flip_tick` */
    method FlipTick(tick: int, spacing: int) returns (r: Result<()>)
      requires spacing > 0
      modifies this
      ensures r == if tick % spacing != 0 then Err(TickSpacingError) else Ok(())
      ensures words == if r.Ok? then Flipped(old(words), tick / spacing) else old(words)
    {
      ExactMultiple(tick, spacing);
      if TruncRem(tick, spacing) != 0 {
        return Err(TickSpacingError);
      }
      var (pos, bit) := Position(TruncDiv(tick, spacing));
      var mask := Pow2(bit);
      var word := Word(words, pos);
      FlipFits(word, bit);
      words := words[pos := BitXor(word, mask)];
      return Ok(());
    }
  }

  /** The words after a run of flips, refused ones included. */
  function FlipAll(words: map<int, u256>, flips: seq<int>, spacing: int): map<int, u256>
    requires spacing > 0
  {
    if flips == [] then words
    else
      var before := FlipAll(words, flips[..|flips| - 1], spacing);
      var tick := flips[|flips| - 1];
      if tick % spacing != 0 then before else DivBounds(tick, spacing); Flipped(before, tick / spacing)
  }

  /** How often a tick that shares the slot of compressed tick c is flipped. */
  function SlotFlips(flips: seq<int>, spacing: int, c: int): nat
    requires spacing > 0
  {
    if flips == [] then 0
    else SlotFlips(flips[..|flips| - 1], spacing, c) + (if SharesSlot(flips[|flips| - 1], spacing, c) then 1 else 0)
  }

  predicate SharesSlot(tick: int, spacing: int, c: int)
    requires spacing > 0
  {
    tick % spacing == 0 && (tick / spacing - c) % SLOTS == 0
  }

  /** After any run of flips, the set bits are those whose slot was flipped an odd number of times. */
  lemma {:induction false} FlipsCount(flips: seq<int>, spacing: int, c: int)
    requires spacing > 0
    ensures IsSet(FlipAll(map[], flips, spacing), c) <==> SlotFlips(flips, spacing, c) % 2 == 1
  {
    hide IsSet, Flipped;
    if flips == [] {
      NothingSet(c);
    } else {
      FlipsCount(flips[..|flips| - 1], spacing, c);
      var tick := flips[|flips| - 1];
      if tick % spacing == 0 {
        FlipChanges(FlipAll(map[], flips[..|flips| - 1], spacing), tick / spacing, c);
      }
    }
  }

  lemma NothingSet(c: int)
    ensures !IsSet(map[], c)
  {
    BitOfZero(Position(c).1);
  }

  lemma EmptyAgrees()
    ensures Agrees(map[], {})
  {
    AgreesSlots(map[], {});
    forall c | InIndex(c) ensures IsSet(map[], c) <==> c in {} { NothingSet(c); }
  }

  function Times(flips: seq<int>, tick: int): nat
  {
    if flips == [] then 0 else Times(flips[..|flips| - 1], tick) + (if flips[|flips| - 1] == tick then 1 else 0)
  }

  /** The compressed ticks that a run of flips flips an odd number of times. */
  function OddTicks(flips: seq<int>, spacing: int): set<int>
    requires spacing > 0
  {
    set t | t in flips && t % spacing == 0 && Times(flips, t) % 2 == 1 :: t / spacing
  }

  predicate FlipsInIndex(flips: seq<int>, spacing: int)
    requires spacing > 0
  {
    forall t :: t in flips && t % spacing == 0 ==> InIndex(t / spacing)
  }

  lemma {:induction false} SlotFlipsIsTimes(flips: seq<int>, spacing: int, c: int)
    requires spacing > 0 && InIndex(c) && FlipsInIndex(flips, spacing)
    ensures SlotFlips(flips, spacing, c) == Times(flips, c * spacing)
  {
    if flips == [] {
    } else {
      var tick := flips[|flips| - 1];
      SlotFlipsIsTimes(flips[..|flips| - 1], spacing, c);
      WholeMultiple(tick, spacing, c);
      if tick % spacing == 0 { DistinctSlots(tick / spacing, c); }
    }
  }

  lemma {:induction false} NeverFlipped(flips: seq<int>, tick: int)
    ensures Times(flips, tick) > 0 ==> tick in flips
  {
    if flips == [] {
    } else {
      NeverFlipped(flips[..|flips| - 1], tick);
    }
  }

  /** After any run of flips inside the index, the bitmap is the set of the ticks flipped an odd
      number of times. */
  lemma FlipsAgree(flips: seq<int>, spacing: int)
    requires spacing > 0 && FlipsInIndex(flips, spacing)
    ensures Agrees(FlipAll(map[], flips, spacing), OddTicks(flips, spacing))
  {
    AgreesSlots(FlipAll(map[], flips, spacing), OddTicks(flips, spacing));
    forall c | InIndex(c) ensures IsSet(FlipAll(map[], flips, spacing), c) <==> c in OddTicks(flips, spacing) {
      FlipsCount(flips, spacing, c);
      SlotFlipsIsTimes(flips, spacing, c);
      NeverFlipped(flips, c * spacing);
      WholeMultiple(c * spacing, spacing, c);
      OddTick(flips, spacing, c);
    }
  }

  lemma OddTick(flips: seq<int>, spacing: int, c: int)
    requires spacing > 0 && (c * spacing) % spacing == 0 && (c * spacing) / spacing == c
    ensures c in OddTicks(flips, spacing) <==> c * spacing in flips && Times(flips, c * spacing) % 2 == 1
  {
    if c in OddTicks(flips, spacing) {
      var t :| t in flips && t % spacing == 0 && Times(flips, t) % 2 == 1 && t / spacing == c;
      WholeMultiple(t, spacing, c);
    }
  }

  lemma WholeMultiple(tick: int, spacing: int, c: int)
    requires spacing > 0
    ensures tick == c * spacing <==> tick % spacing == 0 && tick / spacing == c
  {
    DivBounds(tick, spacing);
    if tick == c * spacing { DivIs(tick, spacing, c); }
  }

  // ------------------------------------------------------------------ searching

  /** The bits up to and including `bit`. */
  function LowMask(bit: nat): u256 { WrapAdd(WrapSub(Pow2(bit), 1), Pow2(bit)) }

  /** The bits from `bit` up. */
  function HighMask(bit: nat): u256 { MAX256 - WrapSub(Pow2(bit), 1) }

  lemma MasksAre(bit: nat)
    requires bit < 256
    ensures LowMask(bit) == Pow2(bit + 1) - 1 && HighMask(bit) == TWO256 - Pow2(bit)
  {
    Pow2Mono(bit + 1, 256);
    WrapNear(Pow2(bit) - 1);
    WrapNear(Pow2(bit) - 1 + Pow2(bit));
  }

  lemma {:induction false} AndAtMost(x: nat, y: nat)
    ensures BitAnd(x, y) <= x
  {
    if x > 0 { AndAtMost(x / 2, y / 2); } else if y > 0 { AndAtMost(x, y / 2); }
  }

  function Masked(w: u256, mask: u256): u256
  {
    AndAtMost(w, mask);
    BitAnd(w, mask)
  }

  /** The search downwards in a word: how far to step, and whether a tick is there. */
  function StepDown(w: u256, bit: nat): Result<(nat, bool)>
  {
    DownFrom(Masked(w, LowMask(bit)), bit)
  }

  function DownFrom(masked: u256, bit: nat): Result<(nat, bool)>
  {
    if masked != 0 then
      match MostSignificantBit(masked)
      case Ok(msb) => Ok((ToU8(bit - msb), true))
      case Err(e) => Err(e)
    else Ok((bit, false))
  }

  function StepUp(w: u256, bit: nat): Result<(nat, bool)>
    requires bit < 256
  {
    UpFrom(Masked(w, HighMask(bit)), bit)
  }

  function UpFrom(masked: u256, bit: nat): Result<(nat, bool)>
    requires bit < 256
  {
    if masked != 0 then
      match LeastSignificantBit(masked)
      case Ok(lsb) => Ok((ToU8(lsb - bit), true))
      case Err(e) => Err(e)
    else Ok((0xFF - bit, false))
  }

  /** From a number of steps to a tick. */
  function Landed(step: Result<(nat, bool)>, c: int, up: bool, spacing: int): Result<(int, bool)>
  {
    match step
    case Ok((n, found)) => Ok((if up then (c + n) * spacing else (c - n) * spacing, found))
    case Err(e) => Err(e)
  }

  function NextBelow(words: map<int, u256>, c: int, spacing: int): Result<(int, bool)>
  {
    Landed(StepDown(Word(words, Position(c).0), Position(c).1), c, false, spacing)
  }

  function NextAbove(words: map<int, u256>, c: int, spacing: int): Result<(int, bool)>
  {
    Landed(StepUp(Word(words, Position(c).0), Position(c).1), c, true, spacing)
  }

  /** `next_initialized_tick_within_one_word` */
  function NextWithinWord(words: map<int, u256>, tick: int, spacing: int, lte: bool): Result<(int, bool)>
    requires spacing > 0
  {
    var compressed := Compressed(tick, spacing);
    if lte then NextBelow(words, compressed, spacing) else NextAbove(words, compressed + 1, spacing)
  }

  // ---------------------------------------------------------- the linear scan

  /** Looking at c, c - 1, ... down to c - n in a plain set. */
  function ScanDown(ticks: set<int>, c: int, n: nat): (nat, bool)
    decreases n
  {
    if c in ticks then (0, true)
    else if n == 0 then (0, false)
    else var (k, found) := ScanDown(ticks, c - 1, n - 1); (k + 1, found)
  }

  function ScanUp(ticks: set<int>, c: int, n: nat): (nat, bool)
    decreases n
  {
    if c in ticks then (0, true)
    else if n == 0 then (0, false)
    else var (k, found) := ScanUp(ticks, c + 1, n - 1); (k + 1, found)
  }

  lemma {:induction false} ScanDownFinds(ticks: set<int>, c: int, n: nat, k: nat)
    requires k <= n && forall d :: c - k < d <= c ==> d !in ticks
    ensures c - k in ticks ==> ScanDown(ticks, c, n) == (k, true)
    ensures k == n && c - k !in ticks ==> ScanDown(ticks, c, n) == (n, false)
    decreases k
  {
    if k == 0 {
    } else {
      ScanDownFinds(ticks, c - 1, n - 1, k - 1);
    }
  }

  lemma {:induction false} ScanUpFinds(ticks: set<int>, c: int, n: nat, k: nat)
    requires k <= n && forall d :: c <= d < c + k ==> d !in ticks
    ensures c + k in ticks ==> ScanUp(ticks, c, n) == (k, true)
    ensures k == n && c + k !in ticks ==> ScanUp(ticks, c, n) == (n, false)
    decreases k
  {
    if k == 0 {
    } else {
      ScanUpFinds(ticks, c + 1, n - 1, k - 1);
    }
  }

  lemma LowMaskedBit(w: u256, bit: nat, k: nat)
    requires bit < 256
    ensures Bit(Masked(w, LowMask(bit)), k) == (Bit(w, k) && k <= bit)
  {
    MasksAre(bit);
    AndBit(w, LowMask(bit), k);
    LowMaskBit(bit + 1, k);
  }

  lemma HighMaskedBit(w: u256, bit: nat, k: nat)
    requires bit < 256
    ensures Bit(Masked(w, HighMask(bit)), k) == (Bit(w, k) && bit <= k < 256)
  {
    MasksAre(bit);
    AndBit(w, HighMask(bit), k);
    HighMaskBit(256, bit, k);
  }

  /** masked keeps the bits of w from lo to hi. */
  ghost predicate Keeps(masked: nat, w: nat, lo: int, hi: int)
  {
    forall j: nat :: Bit(masked, j) == (Bit(w, j) && lo <= j <= hi)
  }

  /** Going down from `bit`, k is the distance to the first set bit, or to the end of the word. */
  ghost predicate FirstBelow(w: nat, bit: nat, k: nat, found: bool)
  {
    && k <= bit && found == Bit(w, bit - k) && (!found ==> k == bit)
    && forall j: nat :: bit - k < j <= bit ==> !Bit(w, j)
  }

  ghost predicate FirstAbove(w: nat, bit: nat, k: nat, found: bool)
  {
    && bit + k < 256 && found == Bit(w, bit + k) && (!found ==> bit + k == 255)
    && forall j: nat :: bit <= j < bit + k ==> !Bit(w, j)
  }

  lemma TopOfMasked(w: nat, masked: u256, bit: nat) returns (k: nat, found: bool)
    requires Keeps(masked, w, 0, bit) && bit <= 255
    ensures DownFrom(masked, bit) == Ok((k, found)) && FirstBelow(w, bit, k, found)
  {
    hide Bit;
    found := masked != 0;
    if masked == 0 {
      k := bit;
      forall j: nat | j <= bit ensures !Bit(w, j) { BitOfZero(j); }
    } else {
      var m := TopBit(masked);
      TopBitIsGreatest(masked, m);
      k := bit - m;
      forall j: nat | m < j <= bit ensures !Bit(w, j) { TopBitIsGreatest(masked, j); }
    }
  }

  lemma LastOfMasked(w: nat, masked: u256, bit: nat) returns (k: nat, found: bool)
    requires Keeps(masked, w, bit, 255) && bit <= 255
    ensures UpFrom(masked, bit) == Ok((k, found)) && FirstAbove(w, bit, k, found)
  {
    hide Bit;
    found := masked != 0;
    if masked == 0 {
      k := 255 - bit;
      forall j: nat | bit <= j <= 255 ensures !Bit(w, j) { BitOfZero(j); }
    } else {
      var m := LastBit(masked);
      LastBitIsLeast(masked, m);
      k := m - bit;
      forall j: nat | bit <= j < m ensures !Bit(w, j) { LastBitIsLeast(masked, j); }
    }
  }

  lemma LowMaskKeeps(w: u256, bit: nat)
    requires bit < 256
    ensures Keeps(Masked(w, LowMask(bit)), w, 0, bit)
  {
    forall j: nat ensures Bit(Masked(w, LowMask(bit)), j) == (Bit(w, j) && 0 <= j <= bit) { LowMaskedBit(w, bit, j); }
  }

  lemma HighMaskKeeps(w: u256, bit: nat)
    requires bit < 256
    ensures Keeps(Masked(w, HighMask(bit)), w, bit, 255)
  {
    forall j: nat ensures Bit(Masked(w, HighMask(bit)), j) == (Bit(w, j) && bit <= j <= 255) { HighMaskedBit(w, bit, j); }
  }

  lemma StepDownFinds(w: u256, bit: nat) returns (k: nat, found: bool)
    requires bit < 256
    ensures StepDown(w, bit) == Ok((k, found)) && FirstBelow(w, bit, k, found)
  {
    LowMaskKeeps(w, bit);
    k, found := TopOfMasked(w, Masked(w, LowMask(bit)), bit);
  }

  lemma StepUpFinds(w: u256, bit: nat) returns (k: nat, found: bool)
    requires bit < 256
    ensures StepUp(w, bit) == Ok((k, found)) && FirstAbove(w, bit, k, found)
  {
    HighMaskKeeps(w, bit);
    k, found := LastOfMasked(w, Masked(w, HighMask(bit)), bit);
  }

  /** The bitmap agrees with the set on the word of c. */
  ghost predicate AgreesAround(words: map<int, u256>, ticks: set<int>, c: int)
  {
    forall d {:trigger IsSet(words, d)} :: d / 256 == c / 256 ==> (IsSet(words, d) <==> d in ticks)
  }

  lemma AgreesInIndex(words: map<int, u256>, ticks: set<int>, c: int)
    requires Agrees(words, ticks) && InIndex(c)
    ensures AgreesAround(words, ticks, c)
  {
    AgreesSlots(words, ticks);
    forall d | d / 256 == c / 256 ensures IsSet(words, d) <==> d in ticks {
      assert InIndex(d);
    }
  }

  /** The bits of w are the ticks from `base` on. */
  ghost predicate Holds(w: nat, ticks: set<int>, base: int)
  {
    forall j: nat :: j < 256 ==> (Bit(w, j) <==> base + j in ticks)
  }

  lemma WordHolds(words: map<int, u256>, ticks: set<int>, c: int)
    requires AgreesAround(words, ticks, c)
    ensures Position(c).1 == c % 256 && Holds(Word(words, Position(c).0), ticks, c - c % 256)
  {
    BitPosition(c);
    forall j: nat | j < 256 ensures Bit(Word(words, Position(c).0), j) <==> c - c % 256 + j in ticks {
      WordTick(words, ticks, c, j);
    }
  }

  lemma WordTick(words: map<int, u256>, ticks: set<int>, c: int, j: nat)
    requires AgreesAround(words, ticks, c) && j < 256
    ensures Bit(Word(words, Position(c).0), j) <==> c - c % 256 + j in ticks
  {
    var d := c - c % 256 + j;
    BitPosition(d);
    assert d / 256 == c / 256 && d % 256 == j;
    assert IsSet(words, d) <==> d in ticks;
  }

  lemma BelowScans(w: nat, ticks: set<int>, c: int, bit: nat, k: nat, found: bool)
    requires Holds(w, ticks, c - bit) && bit < 256 && FirstBelow(w, bit, k, found)
    ensures ScanDown(ticks, c, bit) == (k, found)
  {
    forall d | c - k < d <= c ensures d !in ticks { assert !Bit(w, d - (c - bit)); }
    ScanDownFinds(ticks, c, bit, k);
  }

  lemma AboveScans(w: nat, ticks: set<int>, c: int, bit: nat, k: nat, found: bool)
    requires Holds(w, ticks, c - bit) && bit < 256 && FirstAbove(w, bit, k, found)
    ensures ScanUp(ticks, c, 255 - bit) == (k, found)
  {
    forall d | c <= d < c + k ensures d !in ticks { assert !Bit(w, d - (c - bit)); }
    ScanUpFinds(ticks, c, 255 - bit, k);
  }

  /** The masked search downwards is the linear scan of the plain set, to the end of the word. */
  lemma StepDownScans(words: map<int, u256>, ticks: set<int>, c: int)
    requires AgreesAround(words, ticks, c)
    ensures StepDown(Word(words, Position(c).0), Position(c).1) == Ok(ScanDown(ticks, c, c % 256))
  {
    var (pos, bit) := Position(c);
    WordHolds(words, ticks, c);
    var k, found := StepDownFinds(Word(words, pos), bit);
    BelowScans(Word(words, pos), ticks, c, bit, k, found);
  }

  lemma StepUpScans(words: map<int, u256>, ticks: set<int>, c: int)
    requires AgreesAround(words, ticks, c)
    ensures StepUp(Word(words, Position(c).0), Position(c).1) == Ok(ScanUp(ticks, c, 255 - c % 256))
  {
    var (pos, bit) := Position(c);
    WordHolds(words, ticks, c);
    var k, found := StepUpFinds(Word(words, pos), bit);
    AboveScans(Word(words, pos), ticks, c, bit, k, found);
  }

  function PlainBelow(ticks: set<int>, c: int, spacing: int): (int, bool)
  {
    var (n, found) := ScanDown(ticks, c, c % 256);
    ((c - n) * spacing, found)
  }

  function PlainAbove(ticks: set<int>, c: int, spacing: int): (int, bool)
  {
    var (n, found) := ScanUp(ticks, c, 255 - c % 256);
    ((c + n) * spacing, found)
  }

  /** The next initialized tick as a plain set would answer it, or the last tick of the word. */
  function PlainNext(ticks: set<int>, tick: int, spacing: int, lte: bool): (int, bool)
    requires spacing > 0
  {
    if lte then PlainBelow(ticks, tick / spacing, spacing) else PlainAbove(ticks, tick / spacing + 1, spacing)
  }

  lemma BelowIsPlain(words: map<int, u256>, ticks: set<int>, c: int, spacing: int)
    requires AgreesAround(words, ticks, c)
    ensures NextBelow(words, c, spacing) == Ok(PlainBelow(ticks, c, spacing))
  {
    hide AgreesAround, StepDown;
    StepDownScans(words, ticks, c);
  }

  lemma AboveIsPlain(words: map<int, u256>, ticks: set<int>, c: int, spacing: int)
    requires AgreesAround(words, ticks, c)
    ensures NextAbove(words, c, spacing) == Ok(PlainAbove(ticks, c, spacing))
  {
    hide AgreesAround, StepUp;
    StepUpScans(words, ticks, c);
  }

  /** The index agrees with the set: on every bitmap, tick and direction. */
  lemma NextIsPlain(words: map<int, u256>, ticks: set<int>, tick: int, spacing: int, lte: bool)
    requires spacing > 0 && AgreesAround(words, ticks, if lte then tick / spacing else tick / spacing + 1)
    ensures NextWithinWord(words, tick, spacing, lte) == Ok(PlainNext(ticks, tick, spacing, lte))
  {
    CompressedIsFloor(tick, spacing);
    if lte {
      BelowIsPlain(words, ticks, tick / spacing, spacing);
    } else {
      AboveIsPlain(words, ticks, tick / spacing + 1, spacing);
    }
  }

  /** On the words of any pool a search in the index is a linear scan of the ticks whose bits are set. */
  lemma SearchIsScan(words: map<int, u256>, tick: int, spacing: int, lte: bool)
    requires spacing > 0 && InIndex(if lte then tick / spacing else tick / spacing + 1)
    ensures NextWithinWord(words, tick, spacing, lte) == Ok(PlainNext(TicksOf(words), tick, spacing, lte))
  {
    TicksAgree(words);
    AgreesInIndex(words, TicksOf(words), if lte then tick / spacing else tick / spacing + 1);
    NextIsPlain(words, TicksOf(words), tick, spacing, lte);
  }

  /** Bit three of word zero is tick three, which a search from tick five finds. */
  lemma ThirdBitFound(words: map<int, u256>)
    requires words == map[0 := 8]
    ensures NextWithinWord(words, 5, 1, true) == Ok((3, true))
  {
    hide NextWithinWord, TicksOf;
    SearchIsScan(words, 5, 1, true);
    TicksAgree(words);
    EightHasBitThree();
    assert Bit(Word(words, 0), 3) && !Bit(Word(words, 0), 4) && !Bit(Word(words, 0), 5);
  }

  lemma EightHasBitThree()
    ensures Bit(8, 3) && !Bit(8, 4) && !Bit(8, 5)
  {
  }

  /** After any run of flips inside the index, a search answers as a linear scan of the ticks that
      were flipped an odd number of times would. */
  lemma SearchAfterFlips(flips: seq<int>, spacing: int, tick: int, lte: bool)
    requires spacing > 0 && FlipsInIndex(flips, spacing)
    requires InIndex(if lte then tick / spacing else tick / spacing + 1)
    ensures NextWithinWord(FlipAll(map[], flips, spacing), tick, spacing, lte)
            == Ok(PlainNext(OddTicks(flips, spacing), tick, spacing, lte))
  {
    var words, ticks := FlipAll(map[], flips, spacing), OddTicks(flips, spacing);
    FlipsAgree(flips, spacing);
    AgreesInIndex(words, ticks, if lte then tick / spacing else tick / spacing + 1);
    NextIsPlain(words, ticks, tick, spacing, lte);
  }

  // ------------------------------------------------------------------- chaining

  lemma {:induction false} ScanUpMeans(ticks: set<int>, c: int, n: nat)
    ensures var (k, found) := ScanUp(ticks, c, n);
            k <= n && (found <==> c + k in ticks) && forall d :: c <= d < c + k ==> d !in ticks
    decreases n
  {
    if c in ticks || n == 0 {
    } else {
      ScanUpMeans(ticks, c + 1, n - 1);
    }
  }

  lemma {:induction false} ScanDownMeans(ticks: set<int>, c: int, n: nat)
    ensures var (k, found) := ScanDown(ticks, c, n);
            k <= n && (found <==> c - k in ticks) && forall d :: c - k < d <= c ==> d !in ticks
    decreases n
  {
    if c in ticks || n == 0 {
    } else {
      ScanDownMeans(ticks, c - 1, n - 1);
    }
  }

  /** A multiple of the spacing that is an initialized tick. */
  predicate Initialized(ticks: set<int>, spacing: int, x: int)
    requires spacing > 0
  {
    x % spacing == 0 && x / spacing in ticks
  }

  lemma Between(x: int, c: int, e: int, spacing: int)
    requires spacing > 0
    ensures c * spacing < x <= e * spacing ==> c <= x / spacing <= e
    ensures c * spacing < x <= e * spacing && x % spacing == 0 ==> c < x / spacing
    ensures x == e * spacing ==> x % spacing == 0 && x / spacing == e
  {
    DivBounds(x, spacing);
    DivLe(x, spacing, c);
    WholeMultiple(x, spacing, c);
    WholeMultiple(x, spacing, e);
    if x <= e * spacing { DivMono(x, e * spacing, spacing); DivIs(e * spacing, spacing, e); }
  }

  /** Upwards, the answer is above the tick, and no initialized tick is skipped. */
  lemma PlainUp(ticks: set<int>, tick: int, spacing: int, x: int)
    requires spacing > 0
    ensures var (next, found) := PlainNext(ticks, tick, spacing, false);
            tick < next && (tick < x <= next ==> (Initialized(ticks, spacing, x) <==> found && x == next))
  {
    var c := tick / spacing;
    var n := ScanUp(ticks, c + 1, 255 - (c + 1) % 256).0;
    ScanUpMeans(ticks, c + 1, 255 - (c + 1) % 256);
    var e := c + 1 + n;
    DivBounds(tick, spacing);
    MulLe(c + 1, e, spacing);
    assert (c + 1) * spacing == c * spacing + spacing;
    Between(x, c, e, spacing);
    WholeMultiple(x, spacing, x / spacing);
    WholeMultiple(tick, spacing, c);
  }

  /** Downwards, the answer is not above the tick, and no initialized tick is skipped. */
  lemma PlainDown(ticks: set<int>, tick: int, spacing: int, x: int)
    requires spacing > 0
    ensures var (next, found) := PlainNext(ticks, tick, spacing, true);
            next <= tick && (next <= x <= tick ==> (Initialized(ticks, spacing, x) <==> found && x == next))
  {
    var c := tick / spacing;
    var n := ScanDown(ticks, c, c % 256).0;
    ScanDownMeans(ticks, c, c % 256);
    var e := c - n;
    DivBounds(tick, spacing);
    MulLe(e, c, spacing);
    WholeMultiple(x, spacing, e);
    if e * spacing <= x <= tick {
      DivMono(x, tick, spacing);
      DivMono(e * spacing, x, spacing);
      DivIs(e * spacing, spacing, e);
      WholeMultiple(x, spacing, x / spacing);
    }
  }

  lemma BelowRetreats(words: map<int, u256>, c: int, spacing: int)
    requires spacing > 0
    ensures NextBelow(words, c, spacing).Ok? ==> NextBelow(words, c, spacing).value.0 <= c * spacing
  {
    LandsBeyond(StepDown(Word(words, Position(c).0), Position(c).1), c, false, spacing);
  }

  lemma AboveAdvances(words: map<int, u256>, c: int, spacing: int)
    requires spacing > 0
    ensures NextAbove(words, c, spacing).Ok? ==> c * spacing <= NextAbove(words, c, spacing).value.0
  {
    LandsBeyond(StepUp(Word(words, Position(c).0), Position(c).1), c, true, spacing);
  }

  lemma LandsBeyond(step: Result<(nat, bool)>, c: int, up: bool, spacing: int)
    requires spacing > 0
    ensures var r := Landed(step, c, up, spacing);
            r.Ok? ==> if up then c * spacing <= r.value.0 else r.value.0 <= c * spacing
  {
    if step.Ok? {
      MulLe(c, c + step.value.0, spacing);
      MulLe(c - step.value.0, c, spacing);
    }
  }

  lemma StepsAdvance(words: map<int, u256>, tick: int, spacing: int, lte: bool)
    requires spacing > 0
    ensures var r := NextWithinWord(words, tick, spacing, lte);
            r.Ok? ==> if lte then r.value.0 <= tick else tick < r.value.0
  {
    CompressedIsFloor(tick, spacing);
    var c := tick / spacing;
    FloorEdges(tick, spacing);
    if lte { BelowRetreats(words, c, spacing); } else { AboveAdvances(words, c + 1, spacing); }
  }

  lemma FloorEdges(tick: int, spacing: int)
    requires spacing > 0
    ensures tick / spacing * spacing <= tick < (tick / spacing + 1) * spacing
  {
    DivBounds(tick, spacing);
    var c := tick / spacing;
    assert (c + 1) * spacing == c * spacing + spacing;
  }

  /** The initialized ticks met by searching upwards again and again, from a tick to a limit. */
  function WalkUp(words: map<int, u256>, spacing: int, tick: int, limit: int): seq<int>
    requires spacing > 0
    decreases limit - tick
  {
    if tick >= limit then []
    else
      StepsAdvance(words, tick, spacing, false);
      match NextWithinWord(words, tick, spacing, false)
      case Ok((next, found)) =>
        (if found && next <= limit then [next] else []) + WalkUp(words, spacing, next, limit)
      case Err(_) => []
  }

  /** Downwards a search finds its own tick, so the walk goes on one below the answer. */
  function WalkDown(words: map<int, u256>, spacing: int, tick: int, limit: int): seq<int>
    requires spacing > 0
    decreases tick - limit + 1
  {
    if tick < limit then []
    else
      StepsAdvance(words, tick, spacing, true);
      match NextWithinWord(words, tick, spacing, true)
      case Ok((next, found)) =>
        (if found && next >= limit then [next] else []) + WalkDown(words, spacing, next - 1, limit)
      case Err(_) => []
  }

  predicate Increasing(s: seq<int>) { forall i, j :: 0 <= i < j < |s| ==> s[i] < s[j] }

  predicate Decreasing(s: seq<int>) { forall i, j :: 0 <= i < j < |s| ==> s[i] > s[j] }

  /** The members of s are the x with p(x) above lo, up to hi. */
  ghost predicate Lists(s: seq<int>, p: int -> bool, lo: int, hi: int)
  {
    forall x :: x in s <==> lo < x <= hi && p(x)
  }

  ghost predicate OnlyAt(p: int -> bool, lo: int, hi: int, found: bool, at: int)
  {
    forall x :: lo < x <= hi ==> (p(x) <==> found && x == at)
  }

  lemma PrependUp(rest: seq<int>, p: int -> bool, tick: int, next: int, limit: int, found: bool)
    requires Increasing(rest) && Lists(rest, p, next, limit) && tick < next && OnlyAt(p, tick, next, found, next)
    requires tick < limit
    ensures var s := (if found && next <= limit then [next] else []) + rest;
            Increasing(s) && Lists(s, p, tick, limit)
  {
    var s := (if found && next <= limit then [next] else []) + rest;
    forall i | 0 <= i < |rest| ensures next < rest[i] { assert rest[i] in rest; }
    forall x ensures x in s <==> tick < x <= limit && p(x) {
      assert x in s <==> (x == next && found && next <= limit) || x in rest;
      assert x in rest <==> next < x <= limit && p(x);
    }
  }

  lemma PrependDown(rest: seq<int>, p: int -> bool, tick: int, next: int, limit: int, found: bool)
    requires Decreasing(rest) && Lists(rest, p, limit - 1, next - 1) && next <= tick && OnlyAt(p, next - 1, tick, found, next)
    requires limit <= tick
    ensures var s := (if found && next >= limit then [next] else []) + rest;
            Decreasing(s) && Lists(s, p, limit - 1, tick)
  {
    var s := (if found && next >= limit then [next] else []) + rest;
    forall i | 0 <= i < |rest| ensures rest[i] < next { assert rest[i] in rest; }
    forall x ensures x in s <==> limit - 1 < x <= tick && p(x) {
      assert x in s <==> (x == next && found && next >= limit) || x in rest;
      assert x in rest <==> limit - 1 < x <= next - 1 && p(x);
    }
  }

  function Membership(ticks: set<int>, spacing: int): int -> bool
    requires spacing > 0
  {
    x => Initialized(ticks, spacing, x)
  }

  lemma UpStep(words: map<int, u256>, ticks: set<int>, spacing: int, tick: int) returns (next: int, found: bool)
    requires spacing > 0 && Agrees(words, ticks) && InIndex(tick / spacing + 1)
    ensures NextWithinWord(words, tick, spacing, false) == Ok((next, found)) && tick < next
    ensures OnlyAt(Membership(ticks, spacing), tick, next, found, next)
  {
    AgreesInIndex(words, ticks, tick / spacing + 1);
    NextIsPlain(words, ticks, tick, spacing, false);
    next, found := PlainNext(ticks, tick, spacing, false).0, PlainNext(ticks, tick, spacing, false).1;
    PlainUp(ticks, tick, spacing, tick);
    forall x | tick < x <= next ensures Membership(ticks, spacing)(x) <==> found && x == next {
      PlainUp(ticks, tick, spacing, x);
    }
  }

  /** A scan looks no further than it is told. */
  lemma {:induction false} ScanDownWithin(ticks: set<int>, c: int, n: nat)
    ensures ScanDown(ticks, c, n).0 <= n
    decreases n
  {
    if c in ticks || n == 0 {
    } else {
      ScanDownWithin(ticks, c - 1, n - 1);
    }
  }

  /** One search down stays within a word's worth of ticks. */
  lemma DownWidth(words: map<int, u256>, spacing: int, tick: int)
    requires spacing > 0 && InIndex(tick / spacing)
    ensures NextWithinWord(words, tick, spacing, true).Ok?
    ensures tick - NextWithinWord(words, tick, spacing, true).value.0 < 256 * spacing
  {
    hide NextWithinWord, Agrees, AgreesAround, ScanDown;
    var ticks, c := TicksOf(words), tick / spacing;
    TicksAgree(words);
    AgreesInIndex(words, ticks, c);
    NextIsPlain(words, ticks, tick, spacing, true);
    ScanDownWithin(ticks, c, c % 256);
    WithinWord(tick, spacing, c, ScanDown(ticks, c, c % 256).0);
  }

  lemma WithinWord(tick: int, spacing: int, c: int, n: nat)
    requires spacing > 0 && c == tick / spacing && n < 256
    ensures tick - (c - n) * spacing < 256 * spacing
  {
    DivBounds(tick, spacing);
    MulLe(n, 255, spacing);
    assert (c - n) * spacing == c * spacing - n * spacing;
  }

  lemma DownStep(words: map<int, u256>, ticks: set<int>, spacing: int, tick: int) returns (next: int, found: bool)
    requires spacing > 0 && Agrees(words, ticks) && InIndex(tick / spacing)
    ensures NextWithinWord(words, tick, spacing, true) == Ok((next, found)) && next <= tick
    ensures OnlyAt(Membership(ticks, spacing), next - 1, tick, found, next)
  {
    AgreesInIndex(words, ticks, tick / spacing);
    NextIsPlain(words, ticks, tick, spacing, true);
    next, found := PlainNext(ticks, tick, spacing, true).0, PlainNext(ticks, tick, spacing, true).1;
    PlainDown(ticks, tick, spacing, tick);
    forall x | next - 1 < x <= tick ensures Membership(ticks, spacing)(x) <==> found && x == next {
      PlainDown(ticks, tick, spacing, x);
    }
  }

  /** Chained searches meet every initialized tick above the start up to the limit, once, in order. */
  lemma {:induction false} WalkUpVisits(words: map<int, u256>, ticks: set<int>, spacing: int, tick: int, limit: int)
    requires spacing > 0 && Agrees(words, ticks)
    requires tick / spacing + 1 >= -0x80_0000 && limit / spacing + 1 < 0x80_0000
    ensures Increasing(WalkUp(words, spacing, tick, limit))
    ensures Lists(WalkUp(words, spacing, tick, limit), Membership(ticks, spacing), tick, limit)
    decreases limit - tick
  {
    hide Agrees, NextWithinWord;
    if tick >= limit {
    } else {
      DivMono(tick, limit, spacing);
      var next, found := UpStep(words, ticks, spacing, tick);
      DivMono(tick, next, spacing);
      WalkUpVisits(words, ticks, spacing, next, limit);
      PrependUp(WalkUp(words, spacing, next, limit), Membership(ticks, spacing), tick, next, limit, found);
    }
  }

  /** Downwards likewise, the start included. */
  lemma {:induction false} WalkDownVisits(words: map<int, u256>, ticks: set<int>, spacing: int, tick: int, limit: int)
    requires spacing > 0 && Agrees(words, ticks)
    requires tick / spacing < 0x80_0000 && limit / spacing >= -0x80_0000
    ensures Decreasing(WalkDown(words, spacing, tick, limit))
    ensures Lists(WalkDown(words, spacing, tick, limit), Membership(ticks, spacing), limit - 1, tick)
    decreases tick - limit + 1
  {
    hide Agrees, NextWithinWord;
    if tick < limit {
    } else {
      DivMono(limit, tick, spacing);
      var next, found := DownStep(words, ticks, spacing, tick);
      DivMono(next - 1, tick, spacing);
      WalkDownVisits(words, ticks, spacing, next - 1, limit);
      PrependDown(WalkDown(words, spacing, next - 1, limit), Membership(ticks, spacing), tick, next, limit, found);
    }
  }
}
