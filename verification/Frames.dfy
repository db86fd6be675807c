/** The frame bitmap of paging.c and the frames that pages hold. */
module Frames {
  import opened Machine

  // ---------------------------------------------------------------- bits of a word

  function Mask(off: nat): bv32
    requires off < 32
  {
    (0x1 as bv32) << off
  }

  /** The mask of bit 0 is 1, and every further one is twice the one before. */
  lemma MaskNumbers(off: nat)
    requires off < 31
    ensures Mask(0) == 1 && Mask(off + 1) == Mask(off) + Mask(off)
  {
  }

  predicate IsSet(w: bv32, off: nat)
    requires off < 32
  {
    w & Mask(off) != 0
  }

  function WithBit(w: bv32, off: nat): bv32
    requires off < 32
  {
    w | Mask(off)
  }

  function WithoutBit(w: bv32, off: nat): bv32
    requires off < 32
  {
    w & !Mask(off)
  }

  const ALL_SET: bv32 := 0xFFFF_FFFF

  lemma MasksDiffer(i: nat, j: nat)
    requires i < 32 && j < 32 && i != j
    ensures Mask(i) & Mask(j) == 0
  {
  }

  lemma MaskNonZero(i: nat)
    requires i < 32
    ensures Mask(i) != 0
  {
  }

  lemma OrBits(w: bv32, m: bv32, x: bv32)
    ensures (w | m) & x == (w & x) | (m & x)
    ensures w | 0 == w && (m != 0 ==> w | m != 0) && m & m == m
  {
  }

  lemma AndNotBits(w: bv32, m: bv32, x: bv32, c: bv32)
    requires c == w & !m
    ensures m & x == 0 ==> c & x == w & x
    ensures c & m == 0
  {
  }

  lemma SetBit(w: bv32, i: nat, j: nat)
    requires i < 32 && j < 32
    ensures IsSet(WithBit(w, i), j) <==> i == j || IsSet(w, j)
  {
    OrBits(w, Mask(i), Mask(j));
    OrBits(w & Mask(j), Mask(j), Mask(j));
    MaskNonZero(j);
    if i != j {
      MasksDiffer(i, j);
    }
  }

  lemma ClearedWord(w: bv32, i: nat, x: bv32, m: bv32, c: bv32)
    requires i < 32 && m == Mask(i) && c == WithoutBit(w, i) && m & x == 0
    ensures c & x == w & x
  {
    AndNotBits(w, m, x, c);
  }

  lemma ClearedBit(w: bv32, i: nat, m: bv32, c: bv32)
    requires i < 32 && m == Mask(i) && c == WithoutBit(w, i)
    ensures c & m == 0
  {
    AndNotBits(w, m, 0, c);
  }

  lemma ClearedMask(w: bv32, i: nat, x: bv32)
    requires i < 32 && Mask(i) & x == 0
    ensures WithoutBit(w, i) & x == w & x
  {
    hide Mask, WithoutBit;
    ClearedWord(w, i, x, Mask(i), WithoutBit(w, i));
  }

  lemma ClearedApart(w: bv32, i: nat, j: nat)
    requires i < 32 && j < 32 && i != j
    ensures WithoutBit(w, i) & Mask(j) == w & Mask(j)
  {
    hide Mask, WithoutBit;
    MasksDiffer(i, j);
    ClearedMask(w, i, Mask(j));
  }

  lemma ClearSame(w: bv32, i: nat)
    requires i < 32
    ensures !IsSet(WithoutBit(w, i), i)
  {
    hide Mask, WithoutBit;
    ClearedBit(w, i, Mask(i), WithoutBit(w, i));
  }

  lemma ClearOther(w: bv32, i: nat, j: nat)
    requires i < 32 && j < 32 && i != j
    ensures IsSet(WithoutBit(w, i), j) <==> IsSet(w, j)
  {
    hide Mask, WithoutBit;
    ClearedApart(w, i, j);
  }

  lemma ClearBit(w: bv32, i: nat, j: nat)
    requires i < 32 && j < 32
    ensures IsSet(WithoutBit(w, i), j) <==> i != j && IsSet(w, j)
  {
    hide Mask, WithoutBit, IsSet;
    if i == j {
      ClearSame(w, i);
    } else {
      ClearOther(w, i, j);
    }
  }

  lemma ExtremeWords(j: nat)
    requires j < 32
    ensures IsSet(ALL_SET, j) && !IsSet(0, j)
  {
  }

  // ---------------------------------------------------------------- the bitmap as a set

  /** The frames whose bit is set. */
  ghost function UsedFrames(words: seq<bv32>): set<int> {
    set f: int | 0 <= f < 32 * |words| && IsSet(words[f / 32], f % 32)
  }

  lemma UsedAfterSet(words: seq<bv32>, f: int)
    requires 0 <= f < 32 * |words|
    ensures UsedFrames(words[f / 32 := WithBit(words[f / 32], f % 32)]) == UsedFrames(words) + {f}
  {
    hide IsSet, Mask, WithBit, WithoutBit;
    var words' := words[f / 32 := WithBit(words[f / 32], f % 32)];
    forall g: int | 0 <= g < 32 * |words|
      ensures IsSet(words'[g / 32], g % 32) <==> g == f || IsSet(words[g / 32], g % 32)
    {
      SetBit(words[g / 32], f % 32, g % 32);
    }
  }

  lemma UsedAfterClear(words: seq<bv32>, f: int)
    requires 0 <= f < 32 * |words|
    ensures UsedFrames(words[f / 32 := WithoutBit(words[f / 32], f % 32)]) == UsedFrames(words) - {f}
  {
    hide IsSet, Mask, WithBit, WithoutBit;
    var words' := words[f / 32 := WithoutBit(words[f / 32], f % 32)];
    forall g: int | 0 <= g < 32 * |words|
      ensures IsSet(words'[g / 32], g % 32) <==> g != f && IsSet(words[g / 32], g % 32)
    {
      ClearBit(words[g / 32], f % 32, g % 32);
    }
  }

  /** The least free frame from f on; None if all up to the limit are used. */
  ghost function LeastFree(used: set<int>, f: int, limit: int): (r: Option<int>)
    ensures r.Some? ==> f <= r.value < limit && r.value !in used && forall g :: f <= g < r.value ==> g in used
    ensures r.None? ==> forall g :: f <= g < limit ==> g in used
    decreases limit - f
  {
    if f >= limit then None else if f !in used then Some(f) else LeastFree(used, f + 1, limit)
  }

  /** Used frames may be skipped in the search for a free one. */
  lemma {:induction false} SkipUsed(used: set<int>, f: int, g: int, limit: int)
    requires f <= g <= limit && forall x :: f <= x < g ==> x in used
    ensures LeastFree(used, f, limit) == LeastFree(used, g, limit)
    decreases g - f
  {
    if f < g {
      SkipUsed(used, f + 1, g, limit);
    }
  }

  // ---------------------------------------------------------------- pages

  /** The bits of a page entry that the kernel sets. */
  datatype Page = Page(present: bool, rw: bool, user: bool, frame: int)

  const EMPTY_PAGE: Page := Page(false, false, false, 0)

  class FrameBitmap {
    const frames: array<bv32>
    const nframes: nat

    ghost predicate Valid() {
      frames.Length == nframes / 32
    }

    ghost function Limit(): int {
      32 * frames.Length
    }

    ghost function Used(): set<int>
      reads frames
    {
      UsedFrames(frames[..])
    }

    constructor (nframes: nat)
      ensures Valid() && this.nframes == nframes && fresh(frames) && Used() == {}
    {
      this.nframes := nframes;
      var words := new bv32[nframes / 32](_ => 0);
      frames := words;
      new;
      forall j: nat | j < 32 ensures !IsSet(0, j) {
        ExtremeWords(j);
      }
    }

    method SetFrame(frameAddr: int)
      requires 0 <= frameAddr && frameAddr / 0x1000 < Limit()
      modifies frames
      ensures Used() == old(Used()) + {frameAddr / 0x1000}
    {
      hide IsSet, Mask, UsedFrames, WithBit, WithoutBit;
      var frame := frameAddr / 0x1000;
      var idx, off := frame / 32, frame % 32;
      UsedAfterSet(frames[..], frame);
      frames[idx] := WithBit(frames[idx], off);
      assert frames[..] == old(frames[..])[idx := WithBit(old(frames[idx]), off)];
    }

    method ClearFrame(frameAddr: int)
      requires 0 <= frameAddr && frameAddr / 0x1000 < Limit()
      modifies frames
      ensures Used() == old(Used()) - {frameAddr / 0x1000}
    {
      hide IsSet, Mask, UsedFrames, WithBit, WithoutBit;
      var frame := frameAddr / 0x1000;
      var idx, off := frame / 32, frame % 32;
      UsedAfterClear(frames[..], frame);
      frames[idx] := WithoutBit(frames[idx], off);
      assert frames[..] == old(frames[..])[idx := WithoutBit(old(frames[idx]), off)];
    }

    method TestFrame(frameAddr: int) returns (r: bool)
      requires 0 <= frameAddr && frameAddr / 0x1000 < Limit()
      ensures r <==> frameAddr / 0x1000 in Used()
    {
      hide IsSet;
      var frame := frameAddr / 0x1000;
      var idx, off := frame / 32, frame % 32;
      r := IsSet(frames[idx], off);
    }

    /** None stands for the missing return statement at the end of first_frame. */
    method FirstFrame() returns (r: Option<int>)
      requires Valid()
      ensures r == LeastFree(Used(), 0, Limit())
    {
      hide IsSet, ALL_SET;
      var i := 0;
      while i < nframes / 32
        invariant 0 <= i <= nframes / 32
        invariant forall f :: 0 <= f < 32 * i ==> f in Used()
      {
        if frames[i] != ALL_SET {
          var j := 0;
          while j < 32
            invariant 0 <= j <= 32
            invariant forall f :: 0 <= f < 32 * i + j ==> f in Used()
          {
            assert (32 * i + j) / 32 == i && (32 * i + j) % 32 == j && frames[..][i] == frames[i];
            if !IsSet(frames[i], j) {
              SkipUsed(Used(), 0, 32 * i + j, Limit());
              return Some(i * 4 * 8 + j);
            }
            j := j + 1;
          }
        } else {
          forall f | 32 * i <= f < 32 * (i + 1) ensures f in Used() {
            ExtremeWords(f % 32);
            assert f / 32 == i && frames[..][i] == frames[i];
          }
        }
        i := i + 1;
      }
      SkipUsed(Used(), 0, Limit(), Limit());
      return None;
    }

    /** alloc_frame. A page with frame number 0 counts as having none, so a free frame is needed then. */
    method AllocFrame(page: Page, isKernel: bool, isWriteable: bool) returns (r: Page)
      requires Valid() && (page.frame == 0 ==> LeastFree(Used(), 0, Limit()).Some?)
      modifies frames
      ensures page.frame != 0 ==> r == page && Used() == old(Used())
      ensures page.frame == 0 ==>
        var f := LeastFree(old(Used()), 0, Limit()).value;
        r == Page(true, isWriteable, !isKernel, f) && Used() == old(Used()) + {f}
    {
      if page.frame != 0 {
        return page;
      }
      var idx := FirstFrame();
      SetFrame(idx.value * 0x1000);
      r := Page(true, isWriteable, !isKernel, idx.value);
    }

    /**
     * free_frame. The source passes the frame number to clear_frame, which expects an address; asMeant passes the
     * address. The present flag of the page stays.
     */
    method FreeFrame(page: Page, asMeant: bool) returns (r: Page)
      requires Valid() && 0 <= page.frame && (page.frame != 0 ==> page.frame < Limit())
      modifies frames
      ensures r == page.(frame := 0)
      ensures Used() == if page.frame == 0 then old(Used())
                        else old(Used()) - {if asMeant then page.frame else page.frame / 0x1000}
    {
      var frame := page.frame;
      if frame == 0 {
        return page;
      }
      ClearFrame(if asMeant then frame * 0x1000 else frame);
      r := page.(frame := 0);
    }
  }
}
