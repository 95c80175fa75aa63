/** inflate's output: a circular window of 32K bytes, flushed each time it fills,
    and the copies that repeat earlier output out of it. */
module InflateWindow {
  import opened Bits

  const WSIZE: nat := 0x8000

  // ------------------------------------------------------------ what a copy means

  /** Section 3.2.3 of RFC 1951: n more bytes, each the one dist before it, even
      when that one is itself part of the copy. */
  function Copied(h: seq<Byte>, dist: nat, n: nat): (r: seq<Byte>)
    requires 1 <= dist <= |h|
    ensures |r| == |h| + n
    decreases n
  {
    if n == 0 then h else Copied(h + [h[|h| - dist]], dist, n - 1)
  }

  /** Copied is characterised by that equation. */
  lemma {:induction false} CopiedMeaning(h: seq<Byte>, dist: nat, n: nat)
    requires 1 <= dist <= |h|
    ensures Copied(h, dist, n)[..|h|] == h
    ensures forall i :: |h| <= i < |h| + n ==> Copied(h, dist, n)[i] == Copied(h, dist, n)[i - dist]
    decreases n
  {
    if n > 0 {
      var h' := h + [h[|h| - dist]];
      CopiedMeaning(h', dist, n - 1);
      var r := Copied(h, dist, n);
      assert r[..|h|] == r[..|h'|][..|h|];
      assert r[|h|] == r[..|h'|][|h|] && r[|h| - dist] == r[..|h'|][|h| - dist];
    }
  }

  lemma {:induction false} CopiedUnique(h: seq<Byte>, dist: nat, n: nat, r: seq<Byte>)
    requires 1 <= dist <= |h| && |r| == |h| + n && r[..|h|] == h
    requires forall i :: |h| <= i < |r| ==> r[i] == r[i - dist]
    ensures r == Copied(h, dist, n)
    decreases n
  {
    if n == 0 {
      assert r == r[..|h|];
    } else {
      assert r[|h|] == r[..|h|][|h| - dist];
      assert r[..|h| + 1] == r[..|h|] + [r[|h|]];
      CopiedUnique(h + [h[|h| - dist]], dist, n - 1, r);
    }
  }

  lemma {:induction false} CopiedMore(h: seq<Byte>, dist: nat, m: nat, n: nat)
    requires 1 <= dist <= |h|
    ensures Copied(Copied(h, dist, m), dist, n) == Copied(h, dist, m + n)
    decreases m
  {
    if m > 0 {
      CopiedMore(h + [h[|h| - dist]], dist, m - 1, n);
    }
  }

  lemma {:induction false} CopiedOne(h: seq<Byte>, dist: nat)
    requires 1 <= dist <= |h|
    ensures Copied(h, dist, 1) == h + [h[|h| - dist]]
  {
    assert Copied(h, dist, 1) == Copied(h + [h[|h| - dist]], dist, 0);
  }

  /** A copy no longer than its distance does not meet itself. */
  lemma {:induction false} CopiedShort(h: seq<Byte>, dist: nat, n: nat)
    requires 1 <= dist <= |h| && n <= dist
    ensures Copied(h, dist, n) == h + h[|h| - dist..|h| - dist + n]
  {
    var r := h + h[|h| - dist..|h| - dist + n];
    forall i | |h| <= i < |r| ensures r[i] == r[i - dist] {
      assert r[i] == h[i - dist];
    }
    CopiedUnique(h, dist, n, r);
  }

  // ------------------------------------------------------------- the window

  /** The slide holds the last 32K bytes of h, the latest of them ending at w. */
  ghost predicate Slides(s: seq<Byte>, w: nat, h: seq<Byte>) {
    && |s| == WSIZE && w <= WSIZE && WSIZE + w <= |h|
    && (forall i :: 0 <= i < w ==> s[i] == h[|h| - w + i])
    && (forall i :: w <= i < WSIZE ==> s[i] == h[|h| - w - WSIZE + i])
  }

  /** Where the byte dist back is. */
  lemma {:induction false} Reach(s: seq<Byte>, w: nat, h: seq<Byte>, dist: nat, d: nat)
    requires Slides(s, w, h) && 1 <= dist <= WSIZE && d < WSIZE && (d == w - dist || d == w - dist + WSIZE)
    ensures s[d] == h[|h| - dist]
  {
  }

  /** One byte stored. */
  lemma {:induction false} SlidesPut(s: seq<Byte>, w: nat, h: seq<Byte>, b: Byte)
    requires Slides(s, w, h) && w < WSIZE
    ensures Slides(s[w := b], w + 1, h + [b])
  {
  }

  /** A whole piece stored. */
  lemma {:induction false} SlidesPiece(s: seq<Byte>, w: nat, h: seq<Byte>, s': seq<Byte>, dist: nat, d: nat, e: nat)
    requires Slides(s, w, h) && 1 <= dist <= WSIZE && (d == w - dist || d == w - dist + WSIZE)
    requires w + e <= WSIZE && d + e <= WSIZE && e <= dist
    requires |s'| == WSIZE && s'[..w] == s[..w] && s'[w + e..] == s[w + e..] && s'[w..w + e] == s[d..d + e]
    requires d < w ==> d + e <= w
    ensures Slides(s', w + e, Copied(h, dist, e))
  {
    CopiedShort(h, dist, e);
    var h' := Copied(h, dist, e);
    forall i | 0 <= i < w + e ensures s'[i] == h'[|h'| - w - e + i] {
      if i < w {
        assert s'[i] == s'[..w][i] == s[..w][i];
      } else {
        assert s'[i] == s'[w..w + e][i - w] == s[d..d + e][i - w];
      }
    }
    forall i | w + e <= i < WSIZE ensures s'[i] == h'[|h'| - w - e - WSIZE + i] {
      assert s'[i] == s'[w + e..][i - w - e] == s[w + e..][i - w - e];
    }
  }

  /** A full window read from its start again. */
  lemma {:induction false} SlidesRound(s: seq<Byte>, h: seq<Byte>)
    requires Slides(s, WSIZE, h)
    ensures Slides(s, 0, h)
  {
  }

  /** out is the output so far but for its last w bytes. */
  ghost predicate Flushed(out: seq<Byte>, h: seq<Byte>, w: nat) {
    WSIZE + w <= |h| && out == h[WSIZE..|h| - w]
  }

  /** memcpy, front to back: right also when the source overlaps the target from
      above. */
  method Memcopy(a: array<Byte>, to: nat, from: nat, n: nat)
    requires to + n <= a.Length && from + n <= a.Length && (from >= to || from + n <= to)
    modifies a
    ensures a[..to] == old(a[..to]) && a[to + n..] == old(a[to + n..]) && a[to..to + n] == old(a[from..from + n])
  {
    for j := 0 to n
      invariant a[..to] == old(a[..to]) && a[to + n..] == old(a[to + n..])
      invariant a[to..to + j] == old(a[from..from + j])
      invariant forall i :: from + j <= i < from + n ==> a[i] == old(a[i])
    {
      a[to + j] := a[from + j];
    }
  }

  /** window, outcnt and what has been written out. history is everything ever
      produced, after the 32K bytes the window started from. */
  class Window {
    const slide: array<Byte>
    var wp: nat
    var out: seq<Byte>
    ghost var history: seq<Byte>

    /** What has been written out and the window's first wp bytes are together
        the output so far. */
    ghost predicate Valid()
      reads this, slide
    {
      Slides(slide[..], wp, history) && wp < WSIZE && Flushed(out, history, wp)
    }

    constructor (slide: array<Byte>)
      requires slide.Length == WSIZE
      ensures Valid() && this.slide == slide && history == slide[..] && out == []
    {
      this.slide, wp, out, history := slide, 0, [], slide[..];
    }

    /** flush_window */
    method FlushWindow(outcnt: nat)
      requires Slides(slide[..], outcnt, history) && Flushed(out, history, outcnt)
      modifies `out
      ensures Flushed(out, history, 0)
    {
      if outcnt == 0 {
        return;
      }
      assert slide[..outcnt] == history[|history| - outcnt..] by {
        assert forall i :: 0 <= i < outcnt ==> slide[..][i] == slide[i];
      }
      out := out + slide[..outcnt];
    }

    /** The end of the output: what is in the window is written out too. */
    method FlushAll()
      requires Valid()
      modifies `out
      ensures Flushed(out, history, 0)
    {
      hide Slides, Flushed;
      FlushWindow(wp);
    }

    /** Store a literal or a stored byte. */
    method Put(b: Byte)
      requires Valid()
      modifies this, slide
      ensures Valid() && history == old(history) + [b]
    {
      SlidesPut(slide[..], wp, history, b);
      ghost var s := slide[..];
      slide[wp] := b;
      assert slide[..] == s[wp := b];
      history := history + [b];
      var w := wp + 1;
      if w == WSIZE {
        FlushWindow(w);
        SlidesRound(slide[..], history);
        w := 0;
      }
      wp := w;
    }

    /** The copy of n bytes from dist back, in pieces that end where the source or
        the target reaches the end of the window. */
    method Copy(length: nat, dist: nat)
      requires Valid() && 1 <= dist <= WSIZE
      modifies this, slide
      ensures Valid() && history == Copied(old(history), dist, length)
    {
      hide *;
      ValidIs();
      var w: nat, n: nat := wp, length;
      var d: nat := (w - dist) % 0x1_0000_0000;
      Started(w, dist);
      ghost var h0, done: nat := history, 0;
      CopiedNone(h0, dist);
      while true
        invariant Slides(slide[..], w, history) && w < WSIZE <= |history| && Flushed(out, history, w)
        invariant n + done == length && history == Copied(h0, dist, done)
        invariant Trails(d, w, dist)
        decreases n
      {
        Masked(d, w, dist);
        d := And(d, WSIZE - 1);
        var e: nat := WSIZE - (if d > w then d else w);
        if e > n { e := n; }
        n := n - e;
        CopiedMore(h0, dist, done, e);
        ghost var w0, h := w, history;
        d, w := CopyPiece(w, d, e, dist);
        CopiedPrefix(out, h, dist, e, w0);
        done := done + e;
        if w == WSIZE {
          FlushWindow(w);
          SlidesRound(slide[..], history);
          w := 0;
        }
        Onward(w0, dist, e, d, w);
        if n == 0 { break; }
      }
      wp := w;
      NowValid();
    }

    lemma {:induction false} ValidIs()
      requires Valid()
      ensures slide.Length == WSIZE && Slides(slide[..], wp, history) && wp < WSIZE <= |history|
      ensures Flushed(out, history, wp)
    {
    }

    lemma {:induction false} NowValid()
      requires Slides(slide[..], wp, history) && wp < WSIZE && Flushed(out, history, wp)
      ensures Valid()
    {
    }

    /** One piece: a block copy where the source is at least its length back, byte
        by byte otherwise. */
    method CopyPiece(w0: nat, d0: nat, e: nat, ghost dist: nat) returns (d: nat, w: nat)
      requires slide.Length == WSIZE && Slides(slide[..], w0, history) && 1 <= dist <= WSIZE && d0 < WSIZE && w0 < WSIZE
      requires (d0 == w0 - dist || d0 == w0 - dist + WSIZE) && w0 + e <= WSIZE && d0 + e <= WSIZE <= |history|
      modifies `history, slide
      ensures Slides(slide[..], w, history) && history == Copied(old(history), dist, e)
      ensures w == w0 + e && d == d0 + e
    {
      hide Copied, Slides;
      if (w0 - d0) % 0x1_0000_0000 >= e {
        ghost var s := slide[..];
        FarEnough(w0, d0, e, dist);
        Memcopy(slide, w0, d0, e);
        SlidesPiece(s, w0, history, slide[..], dist, d0, e);
        history := Copied(history, dist, e);
        w, d := w0 + e, d0 + e;
      } else {
        d, w := CopySlowly(w0, d0, e, dist);
      }
    }

    /** "do it slow to avoid memcpy() overlap" */
    method CopySlowly(w0: nat, d0: nat, e0: nat, ghost dist: nat) returns (d: nat, w: nat)
      requires slide.Length == WSIZE && Slides(slide[..], w0, history) && 1 <= dist <= WSIZE && d0 < WSIZE && w0 < WSIZE && e0 > 0
      requires (d0 == w0 - dist || d0 == w0 - dist + WSIZE) && w0 + e0 <= WSIZE && d0 + e0 <= WSIZE <= |history|
      modifies `history, slide
      ensures Slides(slide[..], w, history) && history == Copied(old(history), dist, e0)
      ensures w == w0 + e0 && d == d0 + e0
    {
      hide Copied, Slides;
      w, d := w0, d0;
      var e: nat := e0;
      ghost var h := history;
      CopiedNone(h, dist);
      while true
        invariant 0 < e <= e0 && w == w0 + e0 - e && d == d0 + e0 - e && WSIZE <= |history|
        invariant Slides(slide[..], w, history) && history == Copied(h, dist, e0 - e)
        decreases e
      {
        ghost var s := slide[..];
        Reach(s, w, history, dist, d);
        SlidesPut(s, w, history, slide[d]);
        CopiedMore(h, dist, e0 - e, 1);
        CopiedOne(history, dist);
        history := history + [slide[d]];
        slide[w] := slide[d];
        assert slide[..] == s[w := s[d]];
        w, d, e := w + 1, d + 1, e - 1;
        if e == 0 { break; }
      }
    }
  }

  lemma {:induction false} CopiedNone(h: seq<Byte>, dist: nat)
    requires 1 <= dist <= |h|
    ensures Copied(h, dist, 0) == h
  {
  }

  /** What was written out stays a prefix of the output. */
  lemma {:induction false} CopiedPrefix(out: seq<Byte>, h: seq<Byte>, dist: nat, e: nat, w: nat)
    requires 1 <= dist <= |h| && Flushed(out, h, w)
    ensures Flushed(out, Copied(h, dist, e), w + e)
  {
    CopiedMeaning(h, dist, e);
    assert h[WSIZE..|h| - w] == Copied(h, dist, e)[..|h|][WSIZE..|h| - w];
  }

  /** d is, but for whole windows, dist behind w. */
  ghost predicate Trails(d: nat, w: nat, dist: nat) {
    d % WSIZE == (w - dist) % WSIZE
  }

  /** d &= WSIZE - 1 */
  lemma {:induction false} Masked(d: nat, w: nat, dist: nat)
    requires Trails(d, w, dist) && w < WSIZE && 1 <= dist <= WSIZE
    ensures var d' := And(d, WSIZE - 1); d' < WSIZE && (d' == w - dist || d' == w - dist + WSIZE)
  {
    Pow2Values();
    Pow2Add(8, 4);
    Pow2Add(12, 3);
    AndMask(d, 15);
  }

  /** The unsigned test: the source lies above the target, or far enough below. */
  lemma {:induction false} FarEnough(w: nat, d: nat, e: nat, dist: nat)
    requires w < WSIZE && d < WSIZE && 1 <= dist <= WSIZE && (d == w - dist || d == w - dist + WSIZE)
    requires (w - d) % 0x1_0000_0000 >= e && w + e <= WSIZE && d + e <= WSIZE
    ensures e <= dist && (d < w ==> d + e <= w) && (d >= w || d + e <= w)
  {
  }

  lemma {:induction false} Onward(w: nat, dist: nat, e: nat, d: nat, w': nat)
    requires w < WSIZE && 1 <= dist <= WSIZE && w + e <= WSIZE
    requires d == w - dist + e || d == w - dist + WSIZE + e
    requires w' == if w + e == WSIZE then 0 else w + e
    ensures Trails(d, w', dist)
  {
  }

  /** The unsigned difference, once masked, is the one meant. */
  lemma {:induction false} Started(w: nat, dist: nat)
    requires w < WSIZE && dist <= WSIZE
    ensures Trails((w - dist) % 0x1_0000_0000, w, dist)
  {
    if w < dist {
      assert (w - dist) % 0x1_0000_0000 == w - dist + 0x1_0000_0000;
      assert w - dist + 0x1_0000_0000 == (w - dist + WSIZE) + 131071 * WSIZE;
    }
  }
}
