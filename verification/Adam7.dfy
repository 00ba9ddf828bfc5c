/** Adam7 interlacing (section 8.2 of the PNG specification). */
module Adam7 {
  import opened Powers

  // ---- the seven passes ----

  function XOrig(p: nat): nat
    requires p < 7
  {
    if p == 1 then 4 else if p == 3 then 2 else if p == 5 then 1 else 0
  }

  function YOrig(p: nat): nat
    requires p < 7
  {
    if p == 2 then 4 else if p == 4 then 2 else if p == 6 then 1 else 0
  }

  function XSpc(p: nat): (n: nat)
    requires p < 7
    ensures n >= 1
  {
    if p <= 1 then 8 else if p <= 3 then 4 else if p <= 5 then 2 else 1
  }

  function YSpc(p: nat): (n: nat)
    requires p < 7
    ensures n >= 1
  {
    if p <= 2 then 8 else if p <= 4 then 4 else 2
  }

  /** The width and height of a pass, as the decoder computes them. */
  function PassW(p: nat, w: nat): nat
    requires p < 7 && w >= 1
  {
    (w - XOrig(p) + XSpc(p) - 1) / XSpc(p)
  }

  function PassH(p: nat, h: nat): nat
    requires p < 7 && h >= 1
  {
    (h - YOrig(p) + YSpc(p) - 1) / YSpc(p)
  }

  function OutX(p: nat, i: nat): nat
    requires p < 7
  {
    i * XSpc(p) + XOrig(p)
  }

  function OutY(p: nat, j: nat): nat
    requires p < 7
  {
    j * YSpc(p) + YOrig(p)
  }

  /** The pass a pixel belongs to, by the 8 by 8 pattern of the specification. */
  function PassOf(x: nat, y: nat): (p: nat)
    ensures p < 7
  {
    if y % 2 == 1 then 6
    else if x % 2 == 1 then 5
    else if y % 4 == 2 then 4
    else if x % 4 == 2 then 3
    else if y % 8 == 4 then 2
    else if x % 8 == 4 then 1
    else 0
  }

  /** The place of a pixel within its pass. */
  function InX(p: nat, x: nat): nat
    requires p < 7
  {
    x / XSpc(p)
  }

  function InY(p: nat, y: nat): nat
    requires p < 7
  {
    y / YSpc(p)
  }

  /** A pass column is inside the pass exactly when its pixel is inside the image. */
  lemma ColumnInside(p: nat, w: nat, i: nat)
    requires p < 7 && w >= 1
    ensures i < PassW(p, w) <==> OutX(p, i) < w
  {
    if p <= 1 {
    } else if p <= 3 {
    } else if p <= 5 {
    } else {
    }
  }

  lemma RowInside(p: nat, h: nat, j: nat)
    requires p < 7 && h >= 1
    ensures j < PassH(p, h) <==> OutY(p, j) < h
  {
    if p <= 2 {
    } else if p <= 4 {
    } else {
    }
  }

  lemma Column(p: nat, i: nat, x: nat)
    requires p < 7
    ensures OutX(p, i) == x <==> x % XSpc(p) == XOrig(p) && i == InX(p, x)
  {
    var s, o := XSpc(p), XOrig(p);
    Grid(x, i, s, o);
  }

  lemma Row(p: nat, j: nat, y: nat)
    requires p < 7
    ensures OutY(p, j) == y <==> y % YSpc(p) == YOrig(p) && j == InY(p, y)
  {
    var s, o := YSpc(p), YOrig(p);
    Grid(y, j, s, o);
  }

  lemma Grid(x: nat, i: nat, s: nat, o: nat)
    requires o < s
    ensures i * s + o == x <==> x % s == o && i == x / s
  {
    if i * s + o == x {
      ModUnique(x, i, o, s);
    }
    assert x == (x / s) * s + x % s;
  }

  lemma Residues(x: nat)
    ensures x % 4 == (x % 8) % 4 && x % 2 == (x % 8) % 2 && x % 1 == 0
  {
    var q, r := x / 8, x % 8;
    ModUnique(x, 2 * q + r / 4, r % 4, 4);
    ModUnique(x, 4 * q + r / 2, r % 2, 2);
  }

  /** A pixel is in pass p exactly when both its coordinates lie on the pass's grid. */
  lemma OnGrid(p: nat, x: nat, y: nat)
    requires p < 7
    ensures PassOf(x, y) == p <==> x % XSpc(p) == XOrig(p) && y % YSpc(p) == YOrig(p)
  {
    Residues(x);
    Residues(y);
  }

  /** Pixel (i, j) of pass p lands on (x, y) exactly when p is the pixel's pass and i, j its place there. */
  lemma LandsOn(p: nat, i: nat, j: nat, x: nat, y: nat)
    requires p < 7
    ensures OutX(p, i) == x && OutY(p, j) == y <==> p == PassOf(x, y) && i == InX(p, x) && j == InY(p, y)
  {
    hide OutX, OutY, InX, InY, PassOf, XSpc, YSpc, XOrig, YOrig;
    Column(p, i, x);
    Row(p, j, y);
    OnGrid(p, x, y);
  }

  lemma Distribute(a: nat, b: nat, c: nat)
    ensures a * c + b * c == (a + b) * c
    ensures c * a + c * b == c * (a + b)
  {
  }

  /** The pass sizes add up to the image size. */
  lemma PassSizesSum(w: nat, h: nat)
    requires w >= 1 && h >= 1
    ensures PassW(0, w) * PassH(0, h) + PassW(1, w) * PassH(1, h) + PassW(2, w) * PassH(2, h)
            + PassW(3, w) * PassH(3, h) + PassW(4, w) * PassH(4, h) + PassW(5, w) * PassH(5, h)
            + PassW(6, w) * PassH(6, h) == w * h
  {
    hide PassW, PassH;
    Widths(w);
    Heights(h);
    Distribute(PassW(0, w), PassW(1, w), PassH(0, h));
    Distribute(PassH(0, h), PassH(2, h), PassW(2, w));
    Distribute(PassW(2, w), PassW(3, w), PassH(3, h));
    Distribute(PassH(3, h), PassH(4, h), PassW(4, w));
    Distribute(PassW(4, w), PassW(5, w), PassH(5, h));
    Distribute(PassH(5, h), PassH(6, h), w);
  }

  lemma Halves(n: nat)
    ensures (n + 1) / 2 + n / 2 == n
  {
  }

  lemma Quarters(n: nat)
    ensures (n + 2) / 4 + n / 4 == n / 2
  {
    var m := n / 2;
    Halves(m);
    ModUnique(n, m / 2, 2 * (m % 2) + n % 2, 4);
    ModUnique(n + 2, (m + 1) / 2, 2 * ((m + 1) % 2) + n % 2, 4);
  }

  lemma Eighths(n: nat)
    ensures (n + 4) / 8 + n / 8 == n / 4
  {
    var m := n / 4;
    Halves(m);
    ModUnique(n, m / 2, 4 * (m % 2) + n % 4, 8);
    ModUnique(n + 4, (m + 1) / 2, 4 * ((m + 1) % 2) + n % 4, 8);
  }

  lemma Widths(w: nat)
    requires w >= 1
    ensures PassW(2, w) == PassW(0, w) + PassW(1, w)
    ensures PassW(4, w) == PassW(2, w) + PassW(3, w)
    ensures PassW(6, w) == PassW(4, w) + PassW(5, w) == w
  {
    Eighths(w + 3);
    Quarters(w + 1);
    Halves(w);
  }

  lemma Heights(h: nat)
    requires h >= 1
    ensures PassH(1, h) == PassH(0, h) && PassH(3, h) == PassH(0, h) + PassH(2, h)
    ensures PassH(5, h) == PassH(3, h) + PassH(4, h) && PassH(5, h) + PassH(6, h) == h
  {
    Eighths(h + 3);
    Quarters(h + 1);
    Halves(h);
  }
}
