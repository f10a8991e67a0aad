/**
 The window manager (usr/wm.c): which parts of overlapping windows are visible,
 and what the screen shows. A window is above all windows before it.
 */
module Windows {
  import opened Base

  const MAX_RECTS: nat := 32

  datatype Rect = Rect(x: int, y: int, w: int, h: int)

  datatype Window = Window(x: int, y: int, width: int, height: int, pid: int, buffer: seq<nat>)

  predicate In(r: Rect, px: int, py: int) {
    r.x <= px < r.x + r.w && r.y <= py < r.y + r.h
  }

  function Frame(w: Window): Rect {
    Rect(w.x, w.y, w.width, w.height)
  }

  predicate NonEmpty(r: Rect) {
    r.w > 0 && r.h > 0
  }

  ghost predicate Covered(rs: seq<Rect>, px: int, py: int) {
    exists i :: 0 <= i < |rs| && In(rs[i], px, py)
  }

  ghost predicate Disjoint(rs: seq<Rect>) {
    forall i, j, px, py | 0 <= i < j < |rs| && In(rs[i], px, py) :: !In(rs[j], px, py)
  }

  /** The rectangles are non-empty and pairwise disjoint. */
  ghost predicate Tiling(rs: seq<Rect>) {
    Disjoint(rs) && forall i | 0 <= i < |rs| :: NonEmpty(rs[i])
  }

  /** The pieces tile rectangle `r` without rectangle `o`. */
  ghost predicate Tiles(rs: seq<Rect>, r: Rect, o: Rect) {
    Tiling(rs) && forall px, py :: Covered(rs, px, py) <==> In(r, px, py) && !In(o, px, py)
  }

  /** The common part of two rectangles, if its sides are positive. */
  function Meet(a: Rect, b: Rect): Rect {
    var x, y := Max(a.x, b.x), Max(a.y, b.y);
    Rect(x, y, Min(a.x + a.w, b.x + b.w) - x, Min(a.y + a.h, b.y + b.h) - y)
  }

  /** rect_intersect: no rectangle if there is no common point. */
  method RectIntersect(a: Rect, b: Rect) returns (some: bool, out: Rect)
    ensures some <==> exists px, py :: In(a, px, py) && In(b, px, py)
    ensures (some <==> NonEmpty(Meet(a, b))) && (some ==> out == Meet(a, b))
    ensures some ==> NonEmpty(out) && forall px, py :: In(out, px, py) <==> In(a, px, py) && In(b, px, py)
  {
    var x1, y1 := Max(a.x, b.x), Max(a.y, b.y);
    var x2, y2 := Min(a.x + a.w, b.x + b.w), Min(a.y + a.h, b.y + b.h);
    out := Rect(x1, y1, x2 - x1, y2 - y1);
    some := !(x1 >= x2 || y1 >= y2);
    if some {
      assert In(a, x1, y1) && In(b, x1, y1);
    }
  }

  lemma NonEmptyIn(r: Rect)
    requires NonEmpty(r)
    ensures In(r, r.x, r.y)
  {
  }

  /** rect_subtract: at most four pieces that tile what is left of a non-empty rectangle. */
  method RectSubtract(r: Rect, o: Rect, out: array<Rect>) returns (n: nat)
    requires NonEmpty(r) && out.Length == 4
    modifies out
    ensures n <= 4 && Tiles(out[..n], r, o) && out[..n] == Rest(r, o)
  {
    var some, i := RectIntersect(r, o);
    if !some {
      out[0] := r;
      Whole(r, o);
      assert out[..1] == [r];
      return 1;
    }
    n := 0;
    ghost var ps: seq<Rect> := [];
    if i.y > r.y {
      out[n] := Rect(r.x, r.y, r.w, i.y - r.y);
      n := n + 1;
    }
    if i.y + i.h < r.y + r.h {
      out[n] := Rect(r.x, i.y + i.h, r.w, (r.y + r.h) - (i.y + i.h));
      n := n + 1;
    }
    if i.x > r.x {
      out[n] := Rect(r.x, i.y, i.x - r.x, i.h);
      n := n + 1;
    }
    if i.x + i.w < r.x + r.w {
      out[n] := Rect(i.x + i.w, i.y, (r.x + r.w) - (i.x + i.w), i.h);
      n := n + 1;
    }
    NonEmptyIn(i);
    Inside(r, i);
    assert out[..n] == Pieces(r, i);
    PiecesTile(r, o, i);
  }

  lemma Whole(r: Rect, o: Rect)
    requires NonEmpty(r) && !exists px, py :: In(r, px, py) && In(o, px, py)
    ensures Tiles([r], r, o)
  {
    forall px, py ensures Covered([r], px, py) <==> In(r, px, py) && !In(o, px, py) {
      assert [r][0] == r;
    }
  }

  /** Zero or one rectangle, if it has a positive extent. */
  function Some(r: Rect, extent: int): seq<Rect> {
    if extent > 0 then [r] else []
  }

  /** What is left of `r` around the rectangle `i` inside it. */
  function Pieces(r: Rect, i: Rect): seq<Rect> {
    Some(Above(r, i), i.y - r.y) + Some(Below(r, i), (r.y + r.h) - (i.y + i.h))
    + Some(Left(r, i), i.x - r.x) + Some(Right(r, i), (r.x + r.w) - (i.x + i.w))
  }

  /** What rect_subtract leaves of `r`. */
  function Rest(r: Rect, o: Rect): seq<Rect> {
    if NonEmpty(Meet(r, o)) then Pieces(r, Meet(r, o)) else [r]
  }

  /** What a round leaves of all the rectangles. */
  function RestAll(rs: seq<Rect>, o: Rect): seq<Rect> {
    if rs == [] then [] else RestAll(rs[..|rs|-1], o) + Rest(rs[|rs|-1], o)
  }

  lemma RestAllStep(rs: seq<Rect>, o: Rect, k: nat)
    requires k < |rs|
    ensures RestAll(rs[..k+1], o) == RestAll(rs[..k], o) + Rest(rs[k], o)
  {
    assert rs[..k+1][..k] == rs[..k];
  }

  lemma {:induction false} RestAllGrows(rs: seq<Rect>, o: Rect, k: nat)
    requires k <= |rs|
    ensures |RestAll(rs[..k], o)| <= |RestAll(rs, o)|
    decreases |rs| - k
  {
    if k < |rs| {
      RestAllStep(rs, o, k);
      RestAllGrows(rs, o, k + 1);
    } else {
      assert rs[..k] == rs;
    }
  }

  /** The rectangles before window `i` is subtracted, if the arrays were unbounded. */
  function Round(ws: seq<Window>, idx: nat, i: nat): seq<Rect>
    requires idx < i <= |ws|
  {
    if i == idx + 1 then [Frame(ws[idx])] else RestAll(Round(ws, idx, i - 1), Frame(ws[i-1]))
  }

  /** Some round has more rectangles than the arrays have room for. */
  ghost predicate TooMany(ws: seq<Window>, idx: nat)
    requires idx < |ws|
  {
    exists i :: idx < i <= |ws| && |Round(ws, idx, i)| > MAX_RECTS
  }

  lemma {:induction false} RoundEmpty(ws: seq<Window>, idx: nat, i: nat, j: nat)
    requires idx < i <= j <= |ws| && Round(ws, idx, i) == []
    ensures Round(ws, idx, j) == []
    decreases j - i
  {
    hide RestAll, Rest;
    if i < j {
      RestAllNone(Frame(ws[i]));
      assert Round(ws, idx, i + 1) == RestAll(Round(ws, idx, i), Frame(ws[i]));
      RoundEmpty(ws, idx, i + 1, j);
    }
  }

  /** A rectangle whose points all lie in another has its sides within it. */
  lemma Inside(r: Rect, i: Rect)
    requires NonEmpty(i) && forall px, py | In(i, px, py) :: In(r, px, py)
    ensures r.x <= i.x && i.x + i.w <= r.x + r.w && r.y <= i.y && i.y + i.h <= r.y + r.h
  {
    assert In(i, i.x, i.y) && In(i, i.x + i.w - 1, i.y + i.h - 1);
  }

  lemma PiecesTile(r: Rect, o: Rect, i: Rect)
    requires NonEmpty(r) && NonEmpty(i) && forall px, py :: In(i, px, py) <==> In(r, px, py) && In(o, px, py)
    ensures Tiles(Pieces(r, i), r, o)
  {
    Inside(r, i);
    PiecesApart(r, i);
    hide Pieces, Tiling;
    forall px, py ensures Covered(Pieces(r, i), px, py) <==> In(r, px, py) && !In(o, px, py) {
      PiecesCover(r, i, px, py);
      assert In(i, px, py) <==> In(r, px, py) && In(o, px, py);
    }
  }

  /** The four sides of `i` in `r`: above, below, left and right of it. */
  function Above(r: Rect, i: Rect): Rect { Rect(r.x, r.y, r.w, i.y - r.y) }
  function Below(r: Rect, i: Rect): Rect { Rect(r.x, i.y + i.h, r.w, (r.y + r.h) - (i.y + i.h)) }
  function Left(r: Rect, i: Rect): Rect { Rect(r.x, i.y, i.x - r.x, i.h) }
  function Right(r: Rect, i: Rect): Rect { Rect(i.x + i.w, i.y, (r.x + r.w) - (i.x + i.w), i.h) }

  predicate Within(i: Rect, r: Rect) {
    NonEmpty(i) && r.x <= i.x && i.x + i.w <= r.x + r.w && r.y <= i.y && i.y + i.h <= r.y + r.h
  }

  lemma SidesCover(r: Rect, i: Rect, px: int, py: int)
    requires NonEmpty(r) && Within(i, r)
    ensures In(Above(r, i), px, py) || In(Below(r, i), px, py) || In(Left(r, i), px, py) || In(Right(r, i), px, py)
      <==> In(r, px, py) && !In(i, px, py)
    ensures In(Above(r, i), px, py) ==> !In(Below(r, i), px, py) && !In(Left(r, i), px, py) && !In(Right(r, i), px, py)
    ensures In(Below(r, i), px, py) ==> !In(Left(r, i), px, py) && !In(Right(r, i), px, py)
    ensures In(Left(r, i), px, py) ==> !In(Right(r, i), px, py)
  {
  }

  /** The pieces cover what is in `r` but not in `i`. */
  lemma PiecesCover(r: Rect, i: Rect, px: int, py: int)
    requires NonEmpty(r) && Within(i, r)
    ensures Covered(Pieces(r, i), px, py) <==> In(r, px, py) && !In(i, px, py)
  {
    var a, b := Some(Above(r, i), i.y - r.y), Some(Below(r, i), (r.y + r.h) - (i.y + i.h));
    var c, d := Some(Left(r, i), i.x - r.x), Some(Right(r, i), (r.x + r.w) - (i.x + i.w));
    assert Pieces(r, i) == a + b + c + d;
    CoveredSome(Above(r, i), i.y - r.y, px, py);
    CoveredSome(Below(r, i), (r.y + r.h) - (i.y + i.h), px, py);
    CoveredSome(Left(r, i), i.x - r.x, px, py);
    CoveredSome(Right(r, i), (r.x + r.w) - (i.x + i.w), px, py);
    SidesCover(r, i, px, py);
    hide Covered, In, Pieces, Some, Above, Below, Left, Right;
    CoveredJoin(a, b, px, py);
    CoveredJoin(a + b, c, px, py);
    CoveredJoin(a + b + c, d, px, py);
  }

  /** The pieces have no point in common. */
  lemma PiecesApart(r: Rect, i: Rect)
    requires NonEmpty(r) && Within(i, r)
    ensures Tiling(Pieces(r, i))
  {
    var a, b := Some(Above(r, i), i.y - r.y), Some(Below(r, i), (r.y + r.h) - (i.y + i.h));
    var c, d := Some(Left(r, i), i.x - r.x), Some(Right(r, i), (r.x + r.w) - (i.x + i.w));
    assert Pieces(r, i) == a + b + c + d;
    TilingSome(Above(r, i), i.y - r.y);
    TilingSome(Below(r, i), (r.y + r.h) - (i.y + i.h));
    TilingSome(Left(r, i), i.x - r.x);
    TilingSome(Right(r, i), (r.x + r.w) - (i.x + i.w));
    forall px, py
      ensures Covered(a, px, py) ==> !Covered(b, px, py) && !Covered(c, px, py) && !Covered(d, px, py)
      ensures Covered(b, px, py) ==> !Covered(c, px, py) && !Covered(d, px, py)
      ensures Covered(c, px, py) ==> !Covered(d, px, py)
      ensures Covered(a + b, px, py) <==> Covered(a, px, py) || Covered(b, px, py)
      ensures Covered(a + b + c, px, py) <==> Covered(a + b, px, py) || Covered(c, px, py)
    {
      CoveredSome(Above(r, i), i.y - r.y, px, py);
      CoveredSome(Below(r, i), (r.y + r.h) - (i.y + i.h), px, py);
      CoveredSome(Left(r, i), i.x - r.x, px, py);
      CoveredSome(Right(r, i), (r.x + r.w) - (i.x + i.w), px, py);
      SidesCover(r, i, px, py);
      hide Covered, In, Pieces, Some, Above, Below, Left, Right;
      CoveredJoin(a, b, px, py);
      CoveredJoin(a + b, c, px, py);
    }
    hide Covered, Tiling, Pieces, Some, Above, Below, Left, Right;
    TilingJoin(a, b);
    TilingJoin(a + b, c);
    TilingJoin(a + b + c, d);
  }

  lemma CoveredSome(r: Rect, extent: int, px: int, py: int)
    requires extent == r.w || extent == r.h
    ensures Covered(Some(r, extent), px, py) <==> In(r, px, py)
  {
    if extent > 0 {
      assert Some(r, extent)[0] == r;
    }
  }

  lemma CoveredJoin(a: seq<Rect>, b: seq<Rect>, px: int, py: int)
    ensures Covered(a + b, px, py) <==> Covered(a, px, py) || Covered(b, px, py)
  {
    if i :| 0 <= i < |a| && In(a[i], px, py) {
      assert (a + b)[i] == a[i];
    }
    if i :| 0 <= i < |b| && In(b[i], px, py) {
      assert (a + b)[|a| + i] == b[i];
    }
  }

  lemma TilingSome(r: Rect, extent: int)
    requires extent > 0 ==> NonEmpty(r)
    ensures Tiling(Some(r, extent))
  {
  }

  /** Two tilings without a common point are one tiling. */
  lemma TilingJoin(a: seq<Rect>, b: seq<Rect>)
    requires Tiling(a) && Tiling(b) && forall px, py | Covered(a, px, py) :: !Covered(b, px, py)
    ensures Tiling(a + b)
  {
    var ab := a + b;
    forall i, j, px, py | 0 <= i < j < |ab| && In(ab[i], px, py) ensures !In(ab[j], px, py) {
      if i < |a| <= j {
        assert In(a[i], px, py) && Covered(a, px, py) && !Covered(b, px, py);
      }
    }
  }

  /** The rectangles tile what the first `k` of `rs` cover outside `o`. */
  ghost predicate TilesAll(ts: seq<Rect>, rs: seq<Rect>, o: Rect) {
    Tiling(ts) && forall px, py :: Covered(ts, px, py) <==> Covered(rs, px, py) && !In(o, px, py)
  }

  lemma TilesMore(ts: seq<Rect>, rs: seq<Rect>, o: Rect, k: nat, ps: seq<Rect>)
    requires k < |rs| && Tiling(rs) && TilesAll(ts, rs[..k], o) && Tiles(ps, rs[k], o)
    ensures TilesAll(ts + ps, rs[..k+1], o)
  {
    forall px, py
      ensures Covered(ts + ps, px, py) <==> Covered(rs[..k+1], px, py) && !In(o, px, py)
      ensures Covered(ts, px, py) ==> !Covered(ps, px, py)
    {
      CoveredJoin(ts, ps, px, py);
      CoveredJoin(rs[..k], [rs[k]], px, py);
      assert rs[..k+1] == rs[..k] + [rs[k]] && [rs[k]][0] == rs[k];
      if i :| 0 <= i < k && In(rs[..k][i], px, py) {
        assert In(rs[i], px, py) && !In(rs[k], px, py);
      }
    }
    TilingJoin(ts, ps);
  }

  lemma TilesNone(rs: seq<Rect>, o: Rect)
    ensures TilesAll([], rs[..0], o)
  {
  }

  /** One round of compute_visible_rects: the pieces of all rectangles outside `o`, unless there are too many. */
  method SubtractAll(tmp1: array<Rect>, cur: nat, o: Rect, tmp2: array<Rect>) returns (ok: bool, next: nat)
    requires tmp1.Length == tmp2.Length == MAX_RECTS && tmp1 != tmp2 && cur <= MAX_RECTS && Tiling(tmp1[..cur])
    modifies tmp2
    ensures next <= 4 * cur && next <= MAX_RECTS && (4 * cur <= MAX_RECTS ==> ok)
    ensures ok ==> TilesAll(tmp2[..next], tmp1[..cur], o) && tmp2[..next] == RestAll(tmp1[..cur], o)
    ensures !ok ==> |RestAll(tmp1[..cur], o)| > MAX_RECTS
  {
    hide Tiling, Covered, In, TilesAll, Tiles, RestAll, Rest;
    RestAllNone(o);
    ghost var rs := tmp1[..cur];
    next := 0;
    TilesNone(rs, o);
    assert tmp2[..0] == [];
    var r := 0;
    while r < cur
      invariant r <= cur && next <= 4 * r && next <= MAX_RECTS && tmp1[..cur] == rs
      invariant TilesAll(tmp2[..next], rs[..r], o) && tmp2[..next] == RestAll(rs[..r], o)
    {
      RestAllStep(rs, o, r);
      var pieces := new Rect[4](i => Rect(0, 0, 0, 0));
      TilingAt(rs, r);
      var n := RectSubtract(tmp1[r], o, pieces);
      if next + n > MAX_RECTS {
        RestAllGrows(rs, o, r + 1);
        return false, next;
      }
      ghost var ts, ps := tmp2[..next], pieces[..n];
      var k := 0;
      while k < n
        invariant k <= n && next == |ts| + k && |ts| + n <= MAX_RECTS
        invariant tmp2[..next] == ts + ps[..k] && pieces[..n] == ps && tmp1[..cur] == rs
      {
        tmp2[next] := pieces[k];
        next := next + 1;
        k := k + 1;
      }
      assert ps[..n] == ps;
      TilesMore(ts, rs, o, r, ps);
      r := r + 1;
    }
    assert rs[..cur] == rs;
    return true, next;
  }

  lemma RestAllNone(o: Rect)
    ensures RestAll([], o) == []
  {
  }

  lemma TilingAt(rs: seq<Rect>, k: nat)
    requires Tiling(rs) && k < |rs|
    ensures NonEmpty(rs[k])
  {
  }

  /** Window `idx` shows its point (px, py): no window above covers it. */
  ghost predicate Visible(ws: seq<Window>, idx: nat, px: int, py: int)
    requires idx < |ws|
  {
    In(Frame(ws[idx]), px, py) && forall j | idx < j < |ws| :: !In(Frame(ws[j]), px, py)
  }

  /** As if the windows from `k` on were not there. */
  ghost predicate VisibleBelow(ws: seq<Window>, idx: nat, k: nat, px: int, py: int)
    requires idx < |ws|
  {
    In(Frame(ws[idx]), px, py) && forall j | idx < j < k && j < |ws| :: !In(Frame(ws[j]), px, py)
  }

  /** The rectangles tile the part of window `idx` that the windows below `k` leave visible. */
  ghost predicate Shows(rs: seq<Rect>, ws: seq<Window>, idx: nat, k: nat)
    requires idx < |ws|
  {
    Tiling(rs) && forall px, py :: Covered(rs, px, py) <==> VisibleBelow(ws, idx, k, px, py)
  }

  lemma ShowsStart(ws: seq<Window>, idx: nat)
    requires idx < |ws| && NonEmpty(Frame(ws[idx]))
    ensures Shows([Frame(ws[idx])], ws, idx, idx + 1)
  {
    var rs := [Frame(ws[idx])];
    forall px, py ensures Covered(rs, px, py) <==> VisibleBelow(ws, idx, idx + 1, px, py) {
      assert rs[0] == Frame(ws[idx]);
    }
  }

  lemma ShowsStep(rs: seq<Rect>, ts: seq<Rect>, ws: seq<Window>, idx: nat, k: nat)
    requires idx < k < |ws| && Shows(rs, ws, idx, k) && TilesAll(ts, rs, Frame(ws[k]))
    ensures Shows(ts, ws, idx, k + 1)
  {
  }

  lemma ShowsNone(ws: seq<Window>, idx: nat, k: nat)
    requires idx < |ws| && k <= |ws| && Shows([], ws, idx, k)
    ensures Shows([], ws, idx, |ws|)
  {
    forall px, py ensures !VisibleBelow(ws, idx, |ws|, px, py) {
      assert !Covered([], px, py) && !VisibleBelow(ws, idx, k, px, py);
    }
  }

  /**
   compute_visible_rects: rectangles that tile exactly the visible part of the
   window, or -1 exactly where the code would run over one of its arrays of
   rectangles. With at most two windows above the window, it cannot.
   */
  method ComputeVisibleRects(ws: seq<Window>, idx: nat, out: array<Rect>) returns (cur: int)
    requires idx < |ws| && NonEmpty(Frame(ws[idx])) && out.Length == MAX_RECTS
    modifies out
    ensures -1 <= cur <= MAX_RECTS && (|ws| - idx <= 3 ==> cur >= 0) && (cur == -1 <==> TooMany(ws, idx))
    ensures cur >= 0 ==>
      Tiling(out[..cur]) && forall px, py :: Covered(out[..cur], px, py) <==> Visible(ws, idx, px, py)
  {
    hide Tiling, Covered, In, TilesAll, RestAll;
    var tmp1 := new Rect[MAX_RECTS](i => Rect(0, 0, 0, 0));
    var tmp2 := new Rect[MAX_RECTS](i => Rect(0, 0, 0, 0));
    cur := 1;
    tmp1[0] := Frame(ws[idx]);
    ShowsStart(ws, idx);
    assert tmp1[..1] == [Frame(ws[idx])];
    var i := idx + 1;
    while i < |ws|
      invariant idx < i <= |ws| && 0 <= cur <= MAX_RECTS && Shows(tmp1[..cur], ws, idx, i)
      invariant tmp1[..cur] == Round(ws, idx, i) && forall j | idx < j <= i :: |Round(ws, idx, j)| <= MAX_RECTS
      invariant |ws| - idx <= 3 ==> (i == idx + 1 ==> cur <= 1) && (i == idx + 2 ==> cur <= 4)
      decreases |ws| - i
    {
      ghost var rs := tmp1[..cur];
      var ok, next := SubtractAll(tmp1, cur, Frame(ws[i]), tmp2);
      if !ok {
        assert |Round(ws, idx, i + 1)| > MAX_RECTS;
        return -1;
      }
      ghost var ts := tmp2[..next];
      ShowsStep(rs, ts, ws, idx, i);
      cur := next;
      Copy(tmp2, tmp1, cur);
      i := i + 1;
      if cur == 0 {
        assert tmp1[..cur] == [];
        ShowsNone(ws, idx, i);
        forall j | i <= j <= |ws| ensures |Round(ws, idx, j)| <= MAX_RECTS {
          RoundEmpty(ws, idx, i, j);
        }
        break;
      }
    }
    Copy(tmp1, out, cur);
  }

  /** `for(k = 0; k < n; k++) to[k] = from[k];` */
  method Copy(from: array<Rect>, to: array<Rect>, n: nat)
    requires n <= from.Length && n <= to.Length && from != to
    modifies to
    ensures to[..n] == from[..n] && from[..] == old(from[..])
  {
    var k := 0;
    while k < n
      invariant k <= n && to[..k] == from[..k] && from[..] == old(from[..])
    {
      to[k] := from[k];
      k := k + 1;
    }
  }

  // ------------------------------------------------------------- painting

  type Pixels = map<(int, int), nat>

  /** The window has a pixel for each of its points. */
  predicate Sound(w: Window) {
    w.width > 0 && w.height > 0 && |w.buffer| == w.width * w.height
  }

  /** The pixel of window `w` at the point (px, py) of the screen. */
  function Color(w: Window, px: int, py: int): nat
    requires Sound(w) && In(Frame(w), px, py)
  {
    InBuffer(w, px, py);
    w.buffer[(py - w.y) * w.width + (px - w.x)]
  }

  lemma InBuffer(w: Window, px: int, py: int)
    requires Sound(w) && In(Frame(w), px, py)
    ensures 0 <= (py - w.y) * w.width + (px - w.x) < |w.buffer|
  {
    RowMajor(py - w.y, px - w.x, w.width, w.height);
  }

  lemma {:induction false} RowMajor(a: nat, b: nat, w: nat, h: nat)
    requires a < h && b < w
    ensures 0 <= a * w + b < w * h
  {
    if a > 0 {
      RowMajor(a - 1, b, w, h - 1);
    }
  }

  /** `after` shows window `w` at all points of the rectangles and is `before` elsewhere. */
  ghost predicate Painted(before: Pixels, after: Pixels, w: Window, rs: seq<Rect>)
    requires Sound(w)
  {
    forall px, py ::
      if Covered(rs, px, py) && In(Frame(w), px, py) then (px, py) in after && after[(px, py)] == Color(w, px, py)
      else SamePixel(before, after, px, py)
  }

  lemma PaintedJoin(a: Pixels, b: Pixels, c: Pixels, w: Window, rs: seq<Rect>, ts: seq<Rect>)
    requires Sound(w) && Painted(a, b, w, rs) && Painted(b, c, w, ts)
    ensures Painted(a, c, w, rs + ts)
  {
    hide Covered, Color, In;
    forall px, py ensures Covered(rs + ts, px, py) <==> Covered(rs, px, py) || Covered(ts, px, py) {
      CoveredJoin(rs, ts, px, py);
    }
  }

  lemma PaintedAs(a: Pixels, b: Pixels, w: Window, rs: seq<Rect>, ts: seq<Rect>)
    requires Sound(w) && Painted(a, b, w, rs) && forall px, py :: Covered(rs, px, py) <==> Covered(ts, px, py)
    ensures Painted(a, b, w, ts)
  {
    hide Covered, Color, In;
  }

  lemma PaintedNone(a: Pixels, w: Window, r: Rect)
    requires Sound(w) && (r.w <= 0 || r.h <= 0)
    ensures Painted(a, a, w, [r])
  {
    forall px, py ensures !Covered([r], px, py) {
    }
  }

  lemma PaintedPoint(a: Pixels, w: Window, px: int, py: int)
    requires Sound(w) && In(Frame(w), px, py)
    ensures Painted(a, a[(px, py) := Color(w, px, py)], w, [Rect(px, py, 1, 1)])
  {
    hide Color;
    var rs := [Rect(px, py, 1, 1)];
    forall qx, qy ensures Covered(rs, qx, qy) <==> (qx, qy) == (px, py) {
      assert rs[0] == Rect(px, py, 1, 1);
    }
  }

  /** Two rectangles that make up a third. */
  lemma CoveredPair(a: Rect, b: Rect, c: Rect, px: int, py: int)
    requires In(c, px, py) <==> In(a, px, py) || In(b, px, py)
    ensures Covered([a] + [b], px, py) <==> Covered([c], px, py)
  {
    CoveredJoin([a], [b], px, py);
    assert [a][0] == a && [b][0] == b && [c][0] == c;
  }

  /** The window stack and the screen. */
  class Desktop {
    const windows: array<Window>
    var num: nat
    var focused: int
    var fb: Pixels

    ghost predicate Valid()
      reads this, windows
    {
      num <= windows.Length && forall i | 0 <= i < num :: Sound(windows[i])
    }

    constructor (max: nat)
      ensures Valid() && num == 0 && fb == map[] && windows.Length == max && fresh(windows)
    {
      windows := new Window[max](i => Window(0, 0, 0, 0, 0, []));
      num, focused, fb := 0, -1, map[];
    }

    /** One row of a rectangle, in the inner loop of blit_window_rects. */
    method BlitRow(w: Window, rc: Rect, y: int)
      requires Sound(w) && NonEmpty(rc) && 0 <= y < rc.h && forall px, py | In(rc, px, py) :: In(Frame(w), px, py)
      modifies this`fb
      ensures Painted(old(fb), fb, w, [Rect(rc.x, rc.y + y, rc.w, 1)])
    {
      hide Painted, Color;
      PaintedNone(fb, w, Rect(rc.x, rc.y + y, 0, 1));
      var x := 0;
      while x < rc.w
        invariant 0 <= x <= rc.w
        invariant Painted(old(fb), fb, w, [Rect(rc.x, rc.y + y, x, 1)])
      {
        var wx, wy := rc.x - w.x + x, rc.y - w.y + y;
        assert In(rc, rc.x + x, rc.y + y);
        InBuffer(w, rc.x + x, rc.y + y);
        assert (rc.y + y) - w.y == wy && (rc.x + x) - w.x == wx;
        var col := w.buffer[wy * w.width + wx];
        assert col == Color(w, rc.x + x, rc.y + y) by { ColorIs(w, rc.x + x, rc.y + y, wx, wy); }
        PaintedPoint(fb, w, rc.x + x, rc.y + y);
        ghost var fb1 := fb;
        fb := fb[(rc.x + x, rc.y + y) := col];
        PaintedMore(old(fb), fb1, fb, w, Rect(rc.x, rc.y + y, x, 1), Rect(rc.x + x, rc.y + y, 1, 1),
            Rect(rc.x, rc.y + y, x + 1, 1));
        x := x + 1;
      }
    }

    /** The two inner loops of blit_window_rects. */
    method BlitRect(w: Window, rc: Rect)
      requires Sound(w) && NonEmpty(rc) && forall px, py | In(rc, px, py) :: In(Frame(w), px, py)
      modifies this`fb
      ensures Painted(old(fb), fb, w, [rc])
    {
      hide Painted, Color;
      PaintedNone(fb, w, Rect(rc.x, rc.y, rc.w, 0));
      var y := 0;
      while y < rc.h
        invariant 0 <= y <= rc.h && Painted(old(fb), fb, w, [Rect(rc.x, rc.y, rc.w, y)])
      {
        ghost var fb1 := fb;
        BlitRow(w, rc, y);
        PaintedMore(old(fb), fb1, fb, w, Rect(rc.x, rc.y, rc.w, y), Rect(rc.x, rc.y + y, rc.w, 1),
            Rect(rc.x, rc.y, rc.w, y + 1));
        y := y + 1;
      }
    }

    /**
     blit_window_rects: every visible point of window `idx` shows its pixel, and no other point of
     the screen changes.
     */
    method BlitWindowRects(idx: nat) returns (ok: bool)
      requires Valid() && idx < num
      modifies this`fb
      ensures (ok <==> !TooMany(windows[..num], idx)) && (num - idx <= 3 ==> ok)
      ensures ok ==> forall px, py ::
        if Visible(windows[..num], idx, px, py) then (px, py) in fb && fb[(px, py)] == Color(windows[idx], px, py)
        else SamePixel(old(fb), fb, px, py)
    {
      var rects := new Rect[MAX_RECTS](i => Rect(0, 0, 0, 0));
      var n := ComputeVisibleRects(windows[..num], idx, rects);
      if n < 0 {
        return false;
      }
      var w := windows[idx];
      ghost var rs := rects[..n];
      assert forall px, py | Covered(rs, px, py) :: In(Frame(w), px, py);
      PaintedEmpty(fb, w);
      assert rs[..0] == [];
      BlitAll(w, rects, n);
      return true;
    }

    /** The outer loop of blit_window_rects. */
    method BlitAll(w: Window, rects: array<Rect>, n: nat)
      requires Sound(w) && n <= rects.Length && Tiling(rects[..n])
      requires forall px, py | Covered(rects[..n], px, py) :: In(Frame(w), px, py)
      modifies this`fb
      ensures Painted(old(fb), fb, w, rects[..n])
    {
      hide Painted, Color;
      ghost var rs := rects[..n];
      PaintedEmpty(fb, w);
      assert rs[..0] == [];
      var r := 0;
      while r < n
        invariant r <= n && rects[..n] == rs && Painted(old(fb), fb, w, rs[..r])
      {
        ghost var fb1 := fb;
        forall px, py | In(rs[r], px, py) ensures In(Frame(w), px, py) {
          assert Covered(rs, px, py);
        }
        BlitRect(w, rects[r]);
        PaintedJoin(old(fb), fb1, fb, w, rs[..r], [rs[r]]);
        assert rs[..r + 1] == rs[..r] + [rs[r]];
        r := r + 1;
      }
      assert rs[..n] == rs;
    }

    /**
     redraw_all: every covered point of the screen shows the pixel of the topmost
     window there, and the rest of the screen does not change.
     */
    method RedrawAll() returns (ok: bool)
      requires Valid()
      modifies this`fb
      ensures (ok <==> forall i | 0 <= i < num :: !TooMany(windows[..num], i)) && (num <= 3 ==> ok)
      ensures ok ==> forall i, px, py | 0 <= i < num && OnTop(windows[..num], i, px, py) ::
        (px, py) in fb && fb[(px, py)] == PixelOf(windows[i], px, py)
      ensures ok ==>
        forall px, py | (forall i | 0 <= i < num :: !Under(windows[i], px, py)) :: SamePixel(old(fb), fb, px, py)
      ensures forall i, px, py | 0 <= i < num && Under(windows[i], px, py) :: SomeOnTop(windows[..num], px, py)
    {
      ghost var ws := windows[..num];
      PlainWords(ws);
      var i := 0;
      while i < num
        invariant i <= num && forall j | 0 <= j < i :: !TooMany(ws, j)
        invariant forall j, px, py | 0 <= j < i && Visible(ws, j, px, py) ::
          (px, py) in fb && fb[(px, py)] == Color(ws[j], px, py)
        invariant forall px, py | (forall j | 0 <= j < |ws| :: !Visible(ws, j, px, py)) ::
          SamePixel(old(fb), fb, px, py)
      {
        hide Visible, Color, TooMany;
        ghost var fb1 := fb;
        var done := BlitWindowRects(i);
        if !done {
          return false;
        }
        forall j, px, py | 0 <= j < i && Visible(ws, j, px, py) ensures !Visible(ws, i, px, py) {
          OneVisible(ws, j, i, px, py);
        }
        forall px, py | (forall j | 0 <= j < |ws| :: !Visible(ws, j, px, py)) ensures SamePixel(old(fb), fb, px, py) {
          assert SamePixel(old(fb), fb1, px, py) && SamePixel(fb1, fb, px, py);
        }
        i := i + 1;
      }
      return true;
    }

    /** focus_window: the window moves to the top; the order of the others stays. */
    method FocusWindow(idx: nat)
      requires Valid() && idx < num
      modifies this`focused, windows
      ensures Valid() && focused == old(windows[idx]).pid
      ensures windows[..num] == old(windows[..idx]) + old(windows[idx + 1..num]) + [old(windows[idx])]
      ensures windows[num..] == old(windows[num..])
    {
      var tmp := windows[idx];
      var i := idx;
      while i < num - 1
        invariant idx <= i <= num - 1
        invariant forall k | 0 <= k < windows.Length ::
          windows[k] == if idx <= k < i then old(windows[k + 1]) else old(windows[k])
      {
        windows[i] := windows[i + 1];
        i := i + 1;
      }
      windows[num - 1] := tmp;
      focused := tmp.pid;
    }
  }

  ghost predicate SamePixel(before: Pixels, after: Pixels, px: int, py: int) {
    ((px, py) in after <==> (px, py) in before)
      && ((px, py) in before && (px, py) in after ==> after[(px, py)] == before[(px, py)])
  }

  lemma PaintedEmpty(a: Pixels, w: Window)
    requires Sound(w)
    ensures Painted(a, a, w, [])
  {
  }

  /** At most one window is visible at a point. */
  lemma OneVisible(ws: seq<Window>, i: nat, j: nat, px: int, py: int)
    requires i < j < |ws| && Visible(ws, i, px, py)
    ensures !Visible(ws, j, px, py)
  {
  }

  /** The point lies within the window, in plain words. */
  ghost predicate Under(w: Window, px: int, py: int) {
    w.x <= px < w.x + w.width && w.y <= py < w.y + w.height
  }

  /** Window `i` is the topmost one at the point. */
  ghost predicate OnTop(ws: seq<Window>, i: nat, px: int, py: int)
    requires i < |ws|
  {
    Under(ws[i], px, py) && forall j | i < j < |ws| :: !Under(ws[j], px, py)
  }

  ghost predicate SomeOnTop(ws: seq<Window>, px: int, py: int) {
    exists i :: 0 <= i < |ws| && OnTop(ws, i, px, py)
  }

  /** The window's pixel there: its buffer holds the rows one after the other. */
  ghost function PixelOf(w: Window, px: int, py: int): nat {
    var k := (py - w.y) * w.width + (px - w.x);
    if 0 <= k < |w.buffer| then w.buffer[k] else 0
  }

  lemma PlainWords(ws: seq<Window>)
    requires forall i | 0 <= i < |ws| :: Sound(ws[i])
    ensures forall i, px, py | 0 <= i < |ws| :: OnTop(ws, i, px, py) <==> Visible(ws, i, px, py)
    ensures forall i, px, py | 0 <= i < |ws| && Visible(ws, i, px, py) :: PixelOf(ws[i], px, py) == Color(ws[i], px, py)
    ensures forall i, px, py | 0 <= i < |ws| && Under(ws[i], px, py) :: SomeOnTop(ws, px, py)
  {
    forall i, px, py | 0 <= i < |ws| && Visible(ws, i, px, py) ensures PixelOf(ws[i], px, py) == Color(ws[i], px, py) {
      InBuffer(ws[i], px, py);
    }
    forall i, px, py | 0 <= i < |ws| && Under(ws[i], px, py) ensures SomeOnTop(ws, px, py) {
      var j := Topmost(ws, i, px, py);
      assert OnTop(ws, j, px, py);
    }
  }

  /** The window that is visible where window `i` is. */
  lemma {:induction false} Topmost(ws: seq<Window>, i: nat, px: int, py: int) returns (j: nat)
    requires i < |ws| && In(Frame(ws[i]), px, py)
    ensures i <= j < |ws| && Visible(ws, j, px, py)
    decreases |ws| - i
  {
    if k :| i < k < |ws| && In(Frame(ws[k]), px, py) {
      j := Topmost(ws, k, px, py);
    } else {
      j := i;
    }
  }

  lemma ColorIs(w: Window, px: int, py: int, wx: int, wy: int)
    requires Sound(w) && In(Frame(w), px, py) && wx == px - w.x && wy == py - w.y
    ensures 0 <= wy * w.width + wx < |w.buffer| && Color(w, px, py) == w.buffer[wy * w.width + wx]
  {
    InBuffer(w, px, py);
  }

  lemma PaintedMore(a: Pixels, b: Pixels, c: Pixels, w: Window, r: Rect, t: Rect, u: Rect)
    requires Sound(w) && Painted(a, b, w, [r]) && Painted(b, c, w, [t])
    requires forall px, py :: In(u, px, py) <==> In(r, px, py) || In(t, px, py)
    ensures Painted(a, c, w, [u])
  {
    hide Painted, Covered, In;
    PaintedJoin(a, b, c, w, [r], [t]);
    forall px, py ensures Covered([r] + [t], px, py) <==> Covered([u], px, py) {
      CoveredPair(r, t, u, px, py);
    }
    PaintedAs(a, c, w, [r] + [t], [u]);
  }
}
