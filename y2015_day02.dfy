/** Wrapping paper and ribbon for presents (src/years/y2015/day02.rs). */
module GiftWrapping {
  import opened Wrappers
  import opened Text
  import opened Sums

  /** A present's dimensions, in the order the input gives them. */
  datatype GiftBox = GiftBox(length: nat, width: nat, height: nat)

  function Min3(a: int, b: int, c: int): (m: int)
    ensures m <= a && m <= b && m <= c
    ensures m == a || m == b || m == c
  {
    if a <= b && a <= c then a else if b <= c then b else c
  }

  /** `GiftBox::area`: the surface of the box. */
  function Area(g: GiftBox): nat {
    2 * g.length * g.width + 2 * g.width * g.height + 2 * g.height * g.length
  }

  /** `GiftBox::smallest_side`: the area of the smallest face. */
  function SmallestSide(g: GiftBox): (r: nat)
    ensures r <= g.length * g.width && r <= g.width * g.height && r <= g.height * g.length
    ensures r == g.length * g.width || r == g.width * g.height || r == g.height * g.length
  {
    Min3(g.length * g.width, g.width * g.height, g.height * g.length)
  }

  /** `GiftBox::smallest_perimeter`: the perimeter of the smallest face. */
  function SmallestPerimeter(g: GiftBox): (r: nat)
    ensures r <= 2 * (g.length + g.width) && r <= 2 * (g.width + g.height)
      && r <= 2 * (g.height + g.length)
    ensures r == 2 * (g.length + g.width) || r == 2 * (g.width + g.height)
      || r == 2 * (g.height + g.length)
  {
    2 * Min3(g.length + g.width, g.width + g.height, g.height + g.length)
  }

  /** `GiftBox::length_of_ribbon`: the smallest perimeter plus the bow,
      which is as long as the volume. */
  function Ribbon(g: GiftBox): (r: nat)
    ensures r >= Volume(g)
  {
    SmallestPerimeter(g) + Volume(g)
  }

  /** The bow: as long as the volume of the box. */
  function Volume(g: GiftBox): nat {
    var lw: nat := g.length * g.width;
    lw * g.height
  }

  /** The dimensions in ascending order. */
  function Ascending(g: GiftBox): (t: (nat, nat, nat))
    ensures t.0 <= t.1 <= t.2
  {
    var (l, w, h) := (g.length, g.width, g.height);
    if l <= w && w <= h then (l, w, h)
    else if l <= h && h <= w then (l, h, w)
    else if w <= l && l <= h then (w, l, h)
    else if w <= h && h <= l then (w, h, l)
    else if h <= l && l <= w then (h, l, w)
    else (h, w, l)
  }

  /** The sorted dimensions are the dimensions. */
  lemma AscendingPermutes(g: GiftBox)
    ensures var t := Ascending(g);
      multiset{t.0, t.1, t.2} == multiset{g.length, g.width, g.height}
  {
  }

  lemma MulMono(a: nat, b: nat, c: nat)
    requires b <= c
    ensures a * b <= a * c
  {
  }

  lemma FaceOrder(a: nat, b: nat, c: nat)
    requires a <= b <= c
    ensures a * b <= b * c && a * b <= c * a
    ensures a * b == b * a && b * c == c * b && c * a == a * c
  {
    MulMono(b, a, c);
    MulMono(a, b, c);
  }

  lemma MinFirst(x: int, y: int, z: int)
    requires x <= y && x <= z
    ensures Min3(x, y, z) == x && Min3(y, z, x) == x && Min3(z, x, y) == x
    ensures Min3(x, z, y) == x && Min3(z, y, x) == x && Min3(y, x, z) == x
  {
  }

  /** The smallest face is the one spanned by the two shortest
      dimensions, and its perimeter is twice their sum. */
  lemma SmallestFaceIsTwoShortest(g: GiftBox)
    ensures var t := Ascending(g);
      SmallestSide(g) == t.0 * t.1 && SmallestPerimeter(g) == 2 * (t.0 + t.1)
  {
    var l, w, h := g.length, g.width, g.height;
    var t := Ascending(g);
    FaceOrder(t.0, t.1, t.2);
    MinFirst(t.0 * t.1, t.1 * t.2, t.2 * t.0);
    MinFirst(t.0 + t.1, t.1 + t.2, t.2 + t.0);
    if l <= w && w <= h {
      assert t == (l, w, h);
    } else if l <= h && h <= w {
      assert t == (l, h, w);
    } else if w <= l && l <= h {
      assert t == (w, l, h);
    } else if w <= h && h <= l {
      assert t == (w, h, l);
    } else if h <= l && l <= w {
      assert t == (h, l, w);
    } else {
      assert t == (h, w, l);
    }
  }

  /** Area, smallest face and ribbon do not depend on which dimension
      is called length, width or height. */
  lemma RotationInvariant(g: GiftBox)
    ensures var r := GiftBox(g.width, g.height, g.length);
      Area(r) == Area(g) && SmallestSide(r) == SmallestSide(g)
      && SmallestPerimeter(r) == SmallestPerimeter(g) && Ribbon(r) == Ribbon(g)
  {
    var r := GiftBox(g.width, g.height, g.length);
    var l, w, h := g.length, g.width, g.height;
    assert Area(r) == Area(g);
    assert SmallestSide(r) == SmallestSide(g) by { MinRotate(l * w, w * h, h * l); }
    assert SmallestPerimeter(r) == SmallestPerimeter(g) by { MinRotate(l + w, w + h, h + l); }
    VolumeRotate(l, w, h);
  }

  lemma MinRotate(a: int, b: int, c: int)
    ensures Min3(b, c, a) == Min3(a, b, c)
  {
  }

  lemma VolumeRotate(l: nat, w: nat, h: nat)
    ensures Volume(GiftBox(w, h, l)) == Volume(GiftBox(l, w, h))
  {
    var lw := l * w;
    assert w * h * l == lw * h;
  }

  /** One input line "LxWxH": split on 'x', every piece parsed, the first
      three taken as length, width and height (fewer pieces or a piece
      that is not a number is a panic in the source). */
  function ParseGiftBox(line: string): (r: Option<GiftBox>)
    ensures r.Some? <==> ParseAllNats(Split(line, 'x')).Some? && |Split(line, 'x')| >= 3
    ensures r.Some? ==> var pieces := Split(line, 'x');
      ParseNat(pieces[0]) == Some(r.value.length)
      && ParseNat(pieces[1]) == Some(r.value.width)
      && ParseNat(pieces[2]) == Some(r.value.height)
  {
    match ParseAllNats(Split(line, 'x'))
    case None => None
    case Some(ns) =>
      if |ns| < 3 then None else Some(GiftBox(ns[0], ns[1], ns[2]))
  }

  /** The line a present is written as. */
  function Render(g: GiftBox): string {
    NatToString(g.length) + "x" + NatToString(g.width) + "x" + NatToString(g.height)
  }

  /** Parsing a rendered present gives the present back. */
  lemma ParseRender(g: GiftBox)
    ensures ParseGiftBox(Render(g)) == Some(g)
  {
    var pieces := [NatToString(g.length), NatToString(g.width), NatToString(g.height)];
    RenderIsJoin(g);
    NatToStringHasNo(g.length, 'x');
    NatToStringHasNo(g.width, 'x');
    NatToStringHasNo(g.height, 'x');
    SplitJoin(pieces, 'x');
    ParseNatToString(g.length);
    ParseNatToString(g.width);
    ParseNatToString(g.height);
    ParseThree(pieces, g.length, g.width, g.height);
  }

  lemma RenderIsJoin(g: GiftBox)
    ensures Join([NatToString(g.length), NatToString(g.width), NatToString(g.height)], 'x')
      == Render(g)
  {
    var a, b, c := NatToString(g.length), NatToString(g.width), NatToString(g.height);
    var pieces := [a, b, c];
    assert pieces[1..] == [b, c];
    assert [b, c][1..] == [c];
    assert Join([c], 'x') == c;
    assert Join([b, c], 'x') == b + ['x'] + c;
    assert Join(pieces, 'x') == a + ['x'] + (b + ['x'] + c);
  }

  lemma ParseThree(pieces: seq<string>, a: nat, b: nat, c: nat)
    requires |pieces| == 3
    requires ParseNat(pieces[0]) == Some(a) && ParseNat(pieces[1]) == Some(b)
    requires ParseNat(pieces[2]) == Some(c)
    ensures ParseAllNats(pieces) == Some([a, b, c])
  {
    var r := ParseAllNats(pieces);
    assert forall k :: 0 <= k < |pieces| ==> ParseNat(pieces[k]).Some? by {
      forall k | 0 <= k < |pieces| ensures ParseNat(pieces[k]).Some? {
        assert k == 0 || k == 1 || k == 2;
      }
    }
    assert r.value[0] == a && r.value[1] == b && r.value[2] == c;
    assert r.value == [a, b, c];
  }

  /** `parse_input`: every piece of the input split on "\n" is a present. */
  function ParseInput(input: string): (r: Option<seq<GiftBox>>)
    ensures r.Some? ==> |r.value| == |Split(input, '\n')|
  {
    ParseLines(Split(input, '\n'))
  }

  function ParseLines(lines: seq<string>): (r: Option<seq<GiftBox>>)
    ensures r.Some? ==> (|r.value| == |lines|
      && forall k :: 0 <= k < |lines| ==> ParseGiftBox(lines[k]) == Some(r.value[k]))
  {
    if lines == [] then Some([])
    else match (ParseGiftBox(lines[0]), ParseLines(lines[1..]))
      case (Some(g), Some(gs)) => Some([g] + gs)
      case (None, _) => None
      case (_, None) => None
  }

  /** Paper for one present: its surface plus slack of its smallest face. */
  function Paper(g: GiftBox): nat {
    Area(g) + SmallestSide(g)
  }

  /** Part 1: the total paper, `Σ (area + smallest_side)`. */
  function TotalPaper(gs: seq<GiftBox>): (r: nat)
    ensures r == Sum(seq(|gs|, k requires 0 <= k < |gs| => Paper(gs[k]) as int))
  {
    if gs == [] then 0
    else
      var init := gs[..|gs| - 1];
      var r := TotalPaper(init) + Paper(gs[|gs| - 1]);
      assert seq(|gs|, k requires 0 <= k < |gs| => Paper(gs[k]) as int)[..|gs| - 1]
        == seq(|init|, k requires 0 <= k < |init| => Paper(init[k]) as int);
      r
  }

  /** Part 2: the total ribbon, `Σ length_of_ribbon`. */
  function TotalRibbon(gs: seq<GiftBox>): (r: nat)
    ensures r == Sum(seq(|gs|, k requires 0 <= k < |gs| => Ribbon(gs[k]) as int))
  {
    if gs == [] then 0
    else
      var init := gs[..|gs| - 1];
      var r := TotalRibbon(init) + Ribbon(gs[|gs| - 1]);
      assert seq(|gs|, k requires 0 <= k < |gs| => Ribbon(gs[k]) as int)[..|gs| - 1]
        == seq(|init|, k requires 0 <= k < |init| => Ribbon(init[k]) as int);
      r
  }

  /** The totals of a list of presents are the totals of its parts. */
  lemma {:induction false} TotalsAdd(a: seq<GiftBox>, b: seq<GiftBox>)
    ensures TotalPaper(a + b) == TotalPaper(a) + TotalPaper(b)
    ensures TotalRibbon(a + b) == TotalRibbon(a) + TotalRibbon(b)
    decreases |b|
  {
    if b == [] {
      assert a + b == a;
    } else {
      assert (a + b)[..|a + b| - 1] == a + b[..|b| - 1];
      TotalsAdd(a, b[..|b| - 1]);
    }
  }
}
