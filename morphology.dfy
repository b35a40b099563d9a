/** `cv2.morphologyEx(mask, cv2.MORPH_OPEN, kernel)` with the 3x3 plus-shaped
    kernel [[0,1,0],[1,1,1],[0,1,0]], anchored at its centre, one iteration.

    Border convention: OpenCV's default for morphology (a constant border
    holding `morphologyDefaultBorderValue()`) makes a position outside the
    image read as set during erosion and as unset during dilation, so the
    image edge by itself neither erodes nor dilates anything. */
module GusMorphology {
  import opened GusMasks

  /** The mask at (i, j); a position outside the grid reads as `border`. */
  function Cell(m: Mask, i: int, j: int, border: bool): bool
    requires Rect(m)
  {
    if 0 <= i < |m| && 0 <= j < Width(m) then m[i][j] else border
  }

  /** Erosion at (i, j): the centre and its four orthogonal neighbours (the set
      cells of the kernel) are all set, outside positions counting as set. */
  predicate ErodedAt(m: Mask, i: int, j: int)
    requires Rect(m)
  {
    && Cell(m, i, j, true)
    && Cell(m, i - 1, j, true) && Cell(m, i + 1, j, true)
    && Cell(m, i, j - 1, true) && Cell(m, i, j + 1, true)
  }

  /** Dilation at (i, j): the centre or one of its four orthogonal neighbours is
      set, outside positions counting as unset. */
  predicate DilatedAt(m: Mask, i: int, j: int)
    requires Rect(m)
  {
    || Cell(m, i, j, false)
    || Cell(m, i - 1, j, false) || Cell(m, i + 1, j, false)
    || Cell(m, i, j - 1, false) || Cell(m, i, j + 1, false)
  }

  /** `cv2.erode` with the plus kernel. */
  function Erode(m: Mask): (r: Mask)
    requires Rect(m)
    ensures IsGrid(r, |m|, Width(m)) && Rect(r) && Width(r) == Width(m)
    ensures forall i, j | 0 <= i < |m| && 0 <= j < Width(m) :: r[i][j] == ErodedAt(m, i, j)
  {
    seq(|m|, i requires 0 <= i < |m| =>
      seq(Width(m), j requires 0 <= j < Width(m) => ErodedAt(m, i, j)))
  }

  /** `cv2.dilate` with the plus kernel. */
  function Dilate(m: Mask): (r: Mask)
    requires Rect(m)
    ensures IsGrid(r, |m|, Width(m)) && Rect(r) && Width(r) == Width(m)
    ensures forall i, j | 0 <= i < |m| && 0 <= j < Width(m) :: r[i][j] == DilatedAt(m, i, j)
  {
    seq(|m|, i requires 0 <= i < |m| =>
      seq(Width(m), j requires 0 <= j < Width(m) => DilatedAt(m, i, j)))
  }

  /** Morphological opening: erosion, then dilation with the same kernel. */
  function Open(m: Mask): (r: Mask)
    requires Rect(m)
    ensures IsGrid(r, |m|, Width(m)) && Rect(r) && Width(r) == Width(m)
  {
    Dilate(Erode(m))
  }

  /** Erosion only removes pixels; dilation only adds them. */
  lemma ErodeShrinksDilateGrows(m: Mask)
    requires Rect(m)
    ensures Within(Erode(m), m)
    ensures Within(m, Dilate(m))
  {
  }

  lemma ErodeMono(a: Mask, b: Mask)
    requires Rect(a) && Within(a, b)
    ensures Rect(b) && Within(Erode(a), Erode(b))
  {
    forall i, j | 0 <= i < |a| && 0 <= j < Width(a) && ErodedAt(a, i, j)
      ensures ErodedAt(b, i, j)
    {
    }
  }

  lemma DilateMono(a: Mask, b: Mask)
    requires Rect(a) && Within(a, b)
    ensures Rect(b) && Within(Dilate(a), Dilate(b))
  {
    forall i, j | 0 <= i < |a| && 0 <= j < Width(a) && DilatedAt(a, i, j)
      ensures DilatedAt(b, i, j)
    {
    }
  }

  /** Opening is anti-extensive: every pixel that survives was set before.
      A surviving pixel is reached from an eroded pixel q among its
      neighbours, and the pixel is itself one of q's neighbours. */
  lemma OpenWithin(m: Mask)
    requires Rect(m)
    ensures Within(Open(m), m)
  {
    var e := Erode(m);
    forall i, j | 0 <= i < |m| && 0 <= j < Width(m) && Open(m)[i][j]
      ensures m[i][j]
    {
      assert DilatedAt(e, i, j);
      if Cell(e, i - 1, j, false) {
        assert ErodedAt(m, i - 1, j);
      } else if Cell(e, i + 1, j, false) {
        assert ErodedAt(m, i + 1, j);
      } else if Cell(e, i, j - 1, false) {
        assert ErodedAt(m, i, j - 1);
      } else if Cell(e, i, j + 1, false) {
        assert ErodedAt(m, i, j + 1);
      } else {
        assert ErodedAt(m, i, j);
      }
    }
  }

  /** Opening is monotone under mask inclusion. */
  lemma OpenMono(a: Mask, b: Mask)
    requires Rect(a) && Within(a, b)
    ensures Rect(b) && Within(Open(a), Open(b))
  {
    ErodeMono(a, b);
    DilateMono(Erode(a), Erode(b));
  }

  /** Closing is extensive: eroding the dilation gives back at least the mask. */
  lemma DilateThenErodeGrows(m: Mask)
    requires Rect(m)
    ensures Within(m, Erode(Dilate(m)))
  {
    var d := Dilate(m);
    forall i, j | 0 <= i < |m| && 0 <= j < Width(m) && m[i][j]
      ensures ErodedAt(d, i, j)
    {
      assert DilatedAt(m, i, j);
      assert Cell(d, i - 1, j, true) by {
        if 0 <= i - 1 { assert DilatedAt(m, i - 1, j); }
      }
      assert Cell(d, i + 1, j, true) by {
        if i + 1 < |m| { assert DilatedAt(m, i + 1, j); }
      }
      assert Cell(d, i, j - 1, true) by {
        if 0 <= j - 1 { assert DilatedAt(m, i, j - 1); }
      }
      assert Cell(d, i, j + 1, true) by {
        if j + 1 < Width(m) { assert DilatedAt(m, i, j + 1); }
      }
    }
  }

  /** Opening is idempotent: opening an opened mask changes nothing. */
  lemma OpenIdempotent(m: Mask)
    requires Rect(m)
    ensures Open(Open(m)) == Open(m)
  {
    var e := Erode(m);
    var o := Dilate(e);
    OpenWithin(o);
    DilateThenErodeGrows(e);
    DilateMono(e, Erode(o));
    WithinAntisymmetric(Open(o), o);
  }

  /** A pixel none of whose four orthogonal neighbours is set is off after the
      opening, in any grid of more than one pixel. (In a 1x1 grid the lone
      pixel has no neighbour inside the image and survives: see
      `LonePixelOfOneByOneSurvives`.) */
  lemma IsolatedPixelRemoved(m: Mask, i: int, j: int)
    requires Rect(m) && 0 <= i < |m| && 0 <= j < Width(m)
    requires |m| > 1 || Width(m) > 1
    requires !Cell(m, i - 1, j, false) && !Cell(m, i + 1, j, false)
    requires !Cell(m, i, j - 1, false) && !Cell(m, i, j + 1, false)
    ensures !Open(m)[i][j]
  {
    var e := Erode(m);
    assert !ErodedAt(m, i, j) by {
      if |m| > 1 {
        assert !Cell(m, i - 1, j, true) || !Cell(m, i + 1, j, true);
      } else {
        assert !Cell(m, i, j - 1, true) || !Cell(m, i, j + 1, true);
      }
    }
    assert !Cell(e, i - 1, j, false) by {
      if 0 <= i - 1 { assert !ErodedAt(m, i - 1, j); }
    }
    assert !Cell(e, i + 1, j, false) by {
      if i + 1 < |m| { assert !ErodedAt(m, i + 1, j); }
    }
    assert !Cell(e, i, j - 1, false) by {
      if 0 <= j - 1 { assert !ErodedAt(m, i, j - 1); }
    }
    assert !Cell(e, i, j + 1, false) by {
      if j + 1 < Width(m) { assert !ErodedAt(m, i, j + 1); }
    }
    assert !DilatedAt(e, i, j);
  }

  /** The border convention at work: a set pixel of a 1x1 mask stays set. */
  lemma LonePixelOfOneByOneSurvives()
    ensures Open([[true]]) == [[true]]
  {
    var m: Mask := [[true]];
    assert forall i, j | 0 <= i < |m| && 0 <= j < Width(m) :: m[i][j];
    OpenKeepsFullMask(m);
  }

  /** A mask with every pixel set is left unchanged by the opening. */
  lemma OpenKeepsFullMask(m: Mask)
    requires Rect(m)
    requires forall i, j | 0 <= i < |m| && 0 <= j < Width(m) :: m[i][j]
    ensures Open(m) == m
  {
    var e := Erode(m);
    assert forall i, j | 0 <= i < |m| && 0 <= j < Width(m) :: e[i][j] by {
      forall i, j | 0 <= i < |m| && 0 <= j < Width(m)
        ensures ErodedAt(m, i, j)
      {
      }
    }
    assert forall i, j | 0 <= i < |m| && 0 <= j < Width(m) :: DilatedAt(e, i, j);
    OpenWithin(m);
    WithinAntisymmetric(Open(m), m);
  }
}
