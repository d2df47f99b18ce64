/**
 * The frame bitmap of kernel/arch/i686/mem.c as a value: one bit per page frame,
 * eight frames to a byte. Frames are named by their number, address / 4096.
 */
module FrameBitmap {
  import opened Machine

  /** INT32_MAX / PAGE_SIZE / 8, rounded down at each division: frames below 0x7fff8000. */
  const BITMAP_BYTES := 65535
  const FRAMES := 8 * BITMAP_BYTES

  /** `1 << bit`. */
  function Mask(bit: nat): bv8
    requires bit < 8
  {
    match bit
    case 0 => 0x01
    case 1 => 0x02
    case 2 => 0x04
    case 3 => 0x08
    case 4 => 0x10
    case 5 => 0x20
    case 6 => 0x40
    case _ => 0x80
  }

  /** `(b >> bit) & 1`, read as a test of the one bit in the mask. */
  predicate TestBit(b: bv8, bit: nat)
    requires bit < 8
  {
    b & Mask(bit) != 0
  }

  function MarkBit(b: bv8, bit: nat, used: bool): bv8
    requires bit < 8
  {
    if used then b | Mask(bit) else b & !Mask(bit)
  }

  /** Marking one bit of a byte, either way, leaves the other seven alone. */
  lemma BitsAreIndependent(b: bv8, i: nat, j: nat, used: bool)
    requires i < 8 && j < 8
    ensures TestBit(MarkBit(b, i, used), j) <==> if i == j then used else TestBit(b, j)
  {
  }

  /** `is_phys_used`, for frame number `f`. */
  predicate Marked(bitmap: seq<bv8>, f: nat)
    requires |bitmap| == BITMAP_BYTES && f < FRAMES
  {
    TestBit(bitmap[f / 8], f % 8)
  }

  /** `set_phys_used`, for frame number `f`. */
  function Mark(bitmap: seq<bv8>, f: nat, used: bool): (r: seq<bv8>)
    requires |bitmap| == BITMAP_BYTES && f < FRAMES
    ensures |r| == BITMAP_BYTES
  {
    bitmap[f / 8 := MarkBit(bitmap[f / 8], f % 8, used)]
  }

  /** The set of frames a bitmap stands for. */
  ghost function Frames(bitmap: seq<bv8>): set<nat>
    requires |bitmap| == BITMAP_BYTES
  {
    set f | 0 <= f < FRAMES && Marked(bitmap, f)
  }

  /** The frames [lo, hi). */
  ghost function FrameRange(lo: nat, hi: nat): (r: set<nat>)
    ensures forall f :: f in r <==> lo <= f < hi
  {
    if lo >= hi then {} else FrameRange(lo, hi - 1) + {hi - 1}
  }

  /** Marking changes one frame and none of the seven that share its byte. */
  lemma MarkRefinesTheSet(bitmap: seq<bv8>, f: nat, used: bool)
    requires |bitmap| == BITMAP_BYTES && f < FRAMES
    ensures Frames(Mark(bitmap, f, used)) == if used then Frames(bitmap) + {f} else Frames(bitmap) - {f}
  {
    forall g: nat | g < FRAMES
      ensures Marked(Mark(bitmap, f, used), g) <==> if g == f then used else Marked(bitmap, g)
    {
      BitsAreIndependent(bitmap[f / 8], f % 8, g % 8, used);
    }
  }
}
