/** Mode negotiation of the virtual framebuffer, virtfb_check_var in virtfb_platform.c.
    Sizes and offsets are unsigned 32-bit words; sums wrap as they do in C. */
module FbMode {

  const U32 := 0x1_0000_0000
  const EINVAL := 22

  /** The flags of a mode: the two bits the driver looks at, FB_VMODE_CONUPDATE and
      FB_VMODE_YWRAP, and whatever else is set. */
  datatype VMode = VMode(conUpdate: bool, yWrap: bool, others: int)

  function Word(x: int): (r: int)
    ensures 0 <= r < U32
    ensures 0 <= x < U32 ==> r == x
  {
    x % U32
  }

  /** struct fb_bitfield: `length` bits from bit `offset` of a pixel. */
  datatype Field = Field(offset: int, length: int, msbRight: int)

  /** The part of struct fb_var_screeninfo that the driver reads or writes. */
  datatype Mode = Mode(
    vmode: VMode,
    xres: int, yres: int,
    xresVirtual: int, yresVirtual: int,
    xoffset: int, yoffset: int,
    bitsPerPixel: int,
    red: Field, green: Field, blue: Field, transp: Field)

  ghost predicate Words(m: Mode) {
    && 0 <= m.xres < U32 && 0 <= m.yres < U32
    && 0 <= m.xresVirtual < U32 && 0 <= m.yresVirtual < U32
    && 0 <= m.xoffset < U32 && 0 <= m.yoffset < U32
    && 0 <= m.bitsPerPixel < U32
  }

  function Max(a: int, b: int): int {
    if a < b then b else a
  }

  // ----- What the caller gets back ---------------------------------------------------

  predicate Supported(depth: int) {
    depth == 1 || depth == 8 || depth == 16 || depth == 24 || depth == 32
  }

  /** The mode a request is measured against: a console update keeps the panning of the
      mode that is set. */
  function Panned(m: Mode, current: Mode): Mode {
    if m.vmode.conUpdate
    then m.(vmode := m.vmode.(yWrap := true), xoffset := current.xoffset, yoffset := current.yoffset)
    else m
  }

  /** What the driver can show: a window, where it is panned to, inside a virtual screen
      at a depth the driver knows. */
  ghost predicate Acceptable(m: Mode) {
    && m.xres >= 1 && m.yres >= 1
    && m.xresVirtual >= m.xres && m.yresVirtual >= m.yres
    && m.xresVirtual >= m.xoffset + m.xres && m.yresVirtual >= m.yoffset + m.yres
    && Supported(m.bitsPerPixel)
  }

  /** b asks for at least as much as a, at the same panning. */
  ghost predicate AtLeast(b: Mode, a: Mode) {
    && a.xres <= b.xres && a.yres <= b.yres
    && a.xresVirtual <= b.xresVirtual && a.yresVirtual <= b.yresVirtual
    && a.bitsPerPixel <= b.bitsPerPixel
    && a.xoffset == b.xoffset && a.yoffset == b.yoffset && a.vmode == b.vmode
  }

  function Depth(bits: int): int {
    if bits <= 1 then 1 else if bits <= 8 then 8 else if bits <= 16 then 16 else if bits <= 24 then 24 else 32
  }

  function F(offset: int, length: int): Field {
    Field(offset, length, 0)
  }

  /** The colour layout of a depth; 16 bits come with or without an alpha bit. */
  function Coloured(m: Mode): Mode {
    if m.bitsPerPixel <= 8 then m.(red := F(0, 8), green := F(0, 8), blue := F(0, 8), transp := F(0, 0))
    else if m.bitsPerPixel == 16 then
      if m.transp.length != 0 then m.(red := F(0, 5), green := F(5, 5), blue := F(10, 5), transp := F(15, 1))
      else m.(red := F(0, 5), green := F(5, 6), blue := F(11, 5), transp := F(0, 0))
    else if m.bitsPerPixel == 24 then m.(red := F(0, 8), green := F(8, 8), blue := F(16, 8), transp := F(0, 0))
    else m.(red := F(0, 8), green := F(8, 8), blue := F(16, 8), transp := F(24, 8))
  }

  function Sized(m: Mode): Mode {
    var w, h := Max(m.xres, 1), Max(m.yres, 1);
    m.(xres := w, yres := h, xresVirtual := Max(m.xresVirtual, w), yresVirtual := Max(m.yresVirtual, h))
  }

  function Fitted(m: Mode): Mode {
    m.(xresVirtual := Max(m.xresVirtual, Word(m.xoffset + m.xres)),
       yresVirtual := Max(m.yresVirtual, Word(m.yoffset + m.yres)))
  }

  /** The outcome: refused above 32 bits, with the sizes already raised, or the mode with
      its window fitted in and its colours laid out. */
  function Checked(m: Mode, current: Mode): (r: (Mode, int)) {
    var s := Sized(Panned(m, current));
    if s.bitsPerPixel > 32 then (s, -EINVAL)
    else (Coloured(Fitted(s.(bitsPerPixel := Depth(s.bitsPerPixel)))), 0)
  }

  // ----- The driver --------------------------------------------------------------------

  /** struct fb_var_screeninfo, which check_var rewrites in place. */
  class Var {
    var vmode: VMode
    var xres: int
    var yres: int
    var xresVirtual: int
    var yresVirtual: int
    var xoffset: int
    var yoffset: int
    var bitsPerPixel: int
    var red: Field
    var green: Field
    var blue: Field
    var transp: Field

    constructor (m: Mode)
      ensures View() == m
    {
      vmode, xres, yres, xresVirtual, yresVirtual := m.vmode, m.xres, m.yres, m.xresVirtual, m.yresVirtual;
      xoffset, yoffset, bitsPerPixel := m.xoffset, m.yoffset, m.bitsPerPixel;
      red, green, blue, transp := m.red, m.green, m.blue, m.transp;
    }

    function View(): Mode
      reads this
    {
      Mode(vmode, xres, yres, xresVirtual, yresVirtual, xoffset, yoffset, bitsPerPixel, red, green, blue, transp)
    }

    /** virtfb_check_var.  `info` is the mode in force; it may be this very object. */
    method CheckVar(info: Var) returns (status: int)
      requires Words(View()) && Words(info.View())
      modifies this
      ensures (View(), status) == Checked(old(View()), old(info.View()))
      ensures Words(View())
    {
      if vmode.conUpdate {
        vmode := vmode.(yWrap := true);
        xoffset := info.xoffset;
        yoffset := info.yoffset;
      }
      RaiseSizes();
      var known := RoundDepth();
      if !known {
        return -EINVAL;
      }
      FitWindow();
      LayOutColours();
      status := 0;
    }

    method RaiseSizes()
      requires Words(View())
      modifies this`xres, this`yres, this`xresVirtual, this`yresVirtual
      ensures View() == Sized(old(View()))
    {
      if xres == 0 { xres := 1; }
      if yres == 0 { yres := 1; }
      if xres > xresVirtual { xresVirtual := xres; }
      if yres > yresVirtual { yresVirtual := yres; }
    }

    method RoundDepth() returns (known: bool)
      modifies this`bitsPerPixel
      ensures known <==> old(bitsPerPixel) <= 32
      ensures bitsPerPixel == if known then Depth(old(bitsPerPixel)) else old(bitsPerPixel)
    {
      known := true;
      if bitsPerPixel <= 1 {
        bitsPerPixel := 1;
      } else if bitsPerPixel <= 8 {
        bitsPerPixel := 8;
      } else if bitsPerPixel <= 16 {
        bitsPerPixel := 16;
      } else if bitsPerPixel <= 24 {
        bitsPerPixel := 24;
      } else if bitsPerPixel <= 32 {
        bitsPerPixel := 32;
      } else {
        known := false;
      }
    }

    method FitWindow()
      modifies this`xresVirtual, this`yresVirtual
      ensures View() == Fitted(old(View()))
    {
      if xresVirtual < Word(xoffset + xres) { xresVirtual := Word(xoffset + xres); }
      if yresVirtual < Word(yoffset + yres) { yresVirtual := Word(yoffset + yres); }
    }

    method LayOutColours()
      requires Supported(bitsPerPixel)
      modifies this`red, this`green, this`blue, this`transp
      ensures View() == Coloured(old(View()))
    {
      match bitsPerPixel {
        case 1 => SetColours((0, 8), (0, 8), (0, 8), (0, 0));
        case 8 => SetColours((0, 8), (0, 8), (0, 8), (0, 0));
        case 16 =>
          if transp.length != 0 {
            SetColours((0, 5), (5, 5), (10, 5), (15, 1));
          } else {
            SetColours((0, 5), (5, 6), (11, 5), (0, 0));
          }
        case 24 => SetColours((0, 8), (8, 8), (16, 8), (0, 0));
        case 32 => SetColours((0, 8), (8, 8), (16, 8), (24, 8));
        case _ =>
      }
      red := red.(msbRight := 0);
      green := green.(msbRight := 0);
      blue := blue.(msbRight := 0);
      transp := transp.(msbRight := 0);
    }

    method SetColours(r: (int, int), g: (int, int), b: (int, int), t: (int, int))
      modifies this`red, this`green, this`blue, this`transp
      ensures red == Field(r.0, r.1, old(red).msbRight) && green == Field(g.0, g.1, old(green).msbRight)
      ensures blue == Field(b.0, b.1, old(blue).msbRight) && transp == Field(t.0, t.1, old(transp).msbRight)
    {
      red := red.(offset := r.0, length := r.1);
      green := green.(offset := g.0, length := g.1);
      blue := blue.(offset := b.0, length := b.1);
      transp := transp.(offset := t.0, length := t.1);
    }
  }

  // ----- What the outcome is worth --------------------------------------------------------

  /** What a request comes to once panning is settled: for a console update the panning
      of the mode in force, with wrapping set, and else its own. */
  ghost predicate Asks(a: Mode, m: Mode, current: Mode) {
    && a == m.(vmode := a.vmode, xoffset := a.xoffset, yoffset := a.yoffset)
    && (if m.vmode.conUpdate
        then a.xoffset == current.xoffset && a.yoffset == current.yoffset
             && a.vmode.yWrap && a.vmode.conUpdate && a.vmode.others == m.vmode.others
        else a == m)
  }

  /** The window asked for ends within 32 bits. */
  ghost predicate WindowFits(a: Mode) {
    a.xoffset + Max(a.xres, 1) < U32 && a.yoffset + Max(a.yres, 1) < U32
  }

  /** A mode is refused exactly for its depth.  Otherwise the result offers what was asked
      for and nothing acceptable that does so is smaller; the result is acceptable itself
      exactly when the end of the window is a 32-bit number. */
  lemma CheckedIsLeast(m: Mode, current: Mode, asked: Mode)
    requires Words(m) && Words(current) && Asks(asked, m, current)
    ensures Checked(m, current).1 == (if m.bitsPerPixel > 32 then -EINVAL else 0)
    ensures m.bitsPerPixel <= 32 ==> AtLeast(Checked(m, current).0, asked)
    ensures m.bitsPerPixel <= 32 ==> (Acceptable(Checked(m, current).0) <==> WindowFits(asked))
    ensures m.bitsPerPixel <= 32 ==> forall other ::
      Acceptable(other) && Words(other) && AtLeast(other, asked) ==> AtLeast(other, Checked(m, current).0)
  {
    if m.bitsPerPixel <= 32 {
      assert asked == Panned(m, current);
      FittedIsLeast(asked);
      ColoursOnly(Fitted(Sized(asked).(bitsPerPixel := Depth(m.bitsPerPixel))));
    }
  }

  /** Accepted or refused, a console update comes back with the panning in force and
      wrapping set, and any other request with its own; the other flags are its own. */
  lemma CheckedPanning(m: Mode, current: Mode)
    ensures var r := Checked(m, current).0;
      && r.xoffset == (if m.vmode.conUpdate then current.xoffset else m.xoffset)
      && r.yoffset == (if m.vmode.conUpdate then current.yoffset else m.yoffset)
      && r.vmode.conUpdate == m.vmode.conUpdate && r.vmode.others == m.vmode.others
      && r.vmode.yWrap == (m.vmode.yWrap || m.vmode.conUpdate)
  {
  }

  /** A refused request comes back with its sizes raised all the same, each no further
      than needed, and with its own depth and colours. */
  lemma RefusedIsRaised(m: Mode, current: Mode)
    requires Words(m) && m.bitsPerPixel > 32
    ensures var r := Checked(m, current).0;
      && (r.xres == if m.xres == 0 then 1 else m.xres) && (r.yres == if m.yres == 0 then 1 else m.yres)
      && (r.xresVirtual == if m.xresVirtual < r.xres then r.xres else m.xresVirtual)
      && (r.yresVirtual == if m.yresVirtual < r.yres then r.yres else m.yresVirtual)
      && r.bitsPerPixel == m.bitsPerPixel
      && (r.red, r.green, r.blue, r.transp) == (m.red, m.green, m.blue, m.transp)
  {
  }

  /** Where one colour's bits end. */
  function EndOf(f: Field): int {
    f.offset + f.length
  }

  /** The colours of an accepted mode.  Above eight bits red, green, blue and alpha lie
      side by side from bit 0 and fill the pixel; red and blue are equally wide, a third
      of what alpha leaves, and green has the rest.  Alpha is one bit of 16 exactly when
      it was asked for, none of 24 and eight of 32.  Up to eight bits the colours share
      bits 0 to 7, without alpha.  The most significant bit is always on the left. */
  lemma CheckedColours(m: Mode, current: Mode)
    requires m.bitsPerPixel <= 32
    ensures var r := Checked(m, current).0;
      && r.red.offset == 0
      && r.red.msbRight == r.green.msbRight == r.blue.msbRight == r.transp.msbRight == 0
      && (m.bitsPerPixel > 8 ==>
            && r.green.offset == EndOf(r.red) && r.blue.offset == EndOf(r.green)
            && (if r.transp.length > 0 then r.transp.offset == EndOf(r.blue) else r.transp.offset == 0)
            && r.red.length + r.green.length + r.blue.length + r.transp.length == r.bitsPerPixel
            && r.red.length == r.blue.length == (r.bitsPerPixel - r.transp.length) / 3)
      && (r.bitsPerPixel == 16 ==> r.transp.length == if m.transp.length != 0 then 1 else 0)
      && (r.bitsPerPixel == 24 ==> r.transp.length == 0)
      && (r.bitsPerPixel == 32 ==> r.transp.length == 8)
      && (m.bitsPerPixel <= 8 ==>
            && r.red == r.green == r.blue && r.red.length == 8
            && r.transp.offset == r.transp.length == 0)
  {
  }

  lemma FittedIsLeast(asked: Mode)
    requires Words(asked) && asked.bitsPerPixel <= 32
    ensures var r := Fitted(Sized(asked).(bitsPerPixel := Depth(asked.bitsPerPixel)));
      && AtLeast(r, asked)
      && (Acceptable(r) <==> WindowFits(asked))
      && forall other :: Acceptable(other) && Words(other) && AtLeast(other, asked) ==> AtLeast(other, r)
  {
  }

  /** Laying out colours touches nothing that acceptance looks at. */
  lemma ColoursOnly(m: Mode)
    ensures Acceptable(Coloured(m)) <==> Acceptable(m)
    ensures forall a :: (AtLeast(Coloured(m), a) <==> AtLeast(m, a)) && (AtLeast(a, Coloured(m)) <==> AtLeast(a, m))
  {
  }

  lemma ColouredTwice(m: Mode)
    ensures Coloured(Coloured(m)) == Coloured(m)
  {
  }

  /** Checking a checked mode again changes nothing, colours included. */
  lemma CheckedIsStable(m: Mode, current: Mode)
    requires Words(m) && Words(current) && m.bitsPerPixel <= 32
    ensures var r := Checked(m, current).0; Checked(r, current) == (r, 0)
  {
    var asked := Panned(m, current);
    FittedTwice(asked);
    ColouredTwice(Fitted(Sized(asked).(bitsPerPixel := Depth(m.bitsPerPixel))));
  }

  lemma FittedTwice(asked: Mode)
    requires Words(asked) && asked.bitsPerPixel <= 32
    ensures var r := Coloured(Fitted(Sized(asked).(bitsPerPixel := Depth(asked.bitsPerPixel))));
      Fitted(Sized(r).(bitsPerPixel := Depth(r.bitsPerPixel))) == r
  {
  }
}
