/** The parts of the terminal library that the table widget and the application
    state talk to: fixed-width integers, the drawing rectangle, styles, the
    character buffer (as a log of the writes made to it) and the scrollbar
    state. Only their observable interface is modelled here. */
module Terminal {

  const U16_MAX: int := 0xFFFF
  const USIZE_MAX: int := 0xFFFF_FFFF_FFFF_FFFF
  const ISIZE_MIN: int := -0x8000_0000_0000_0000
  const ISIZE_MAX: int := 0x7FFF_FFFF_FFFF_FFFF

  type U16 = x: int | 0 <= x <= U16_MAX
  type USize = x: int | 0 <= x <= USIZE_MAX
  type ISize = x: int | ISIZE_MIN <= x <= ISIZE_MAX

  /** The `as u16` cast of an unsigned length: keeps the low 16 bits. */
  function TruncU16(n: nat): (r: U16)
    ensures n <= U16_MAX ==> r == n
    ensures (r - n) % (U16_MAX + 1) == 0
  {
    n % (U16_MAX + 1)
  }

  /** `u16::saturating_add`. */
  function SaturatingAddU16(a: U16, b: U16): (r: U16)
    ensures r <= a + b
    ensures r == a + b || r == U16_MAX
  {
    if a + b > U16_MAX then U16_MAX else a + b
  }

  /** `+` on u16, which panics on overflow: the sum must fit. */
  function AddU16(a: U16, b: U16): (r: U16)
    requires a + b <= U16_MAX
    ensures a <= r && b <= r && r - a == b
  {
    a + b
  }

  /** A drawing area: origin and size in terminal cells. */
  datatype Rect = Rect(x: U16, y: U16, width: U16, height: U16)

  function Left(r: Rect): U16 { r.x }
  function Top(r: Rect): U16 { r.y }
  /** `Rect::right` adds with saturation: the right edge is x + width, or the
      largest u16 when that does not fit. */
  function Right(r: Rect): (e: U16)
    ensures Left(r) <= e
    ensures r.x + r.width <= U16_MAX ==> e == r.x + r.width
    ensures r.x + r.width > U16_MAX ==> e == U16_MAX
  {
    SaturatingAddU16(r.x, r.width)
  }

  /** `Rect::bottom` adds with saturation, in the same way. */
  function Bottom(r: Rect): (e: U16)
    ensures Top(r) <= e
    ensures r.y + r.height <= U16_MAX ==> e == r.y + r.height
    ensures r.y + r.height > U16_MAX ==> e == U16_MAX
  {
    SaturatingAddU16(r.y, r.height)
  }

  /** The rectangle lies inside the u16 coordinate space (what `Rect::new` ensures
      by clamping), so its right and bottom edges do not saturate. */
  ghost predicate WithinU16(r: Rect)
  {
    r.x + r.width <= U16_MAX && r.y + r.height <= U16_MAX
  }

  /** Styles are opaque handles: only which style goes with which write matters. */
  type Style = nat
  const DefaultStyle: Style := 0

  /** One write into the character buffer: `set_style` paints a rectangle,
      `set_string` puts a string at a cell. */
  datatype Op =
    | Fill(area: Rect, style: Style)
    | Text(x: nat, y: nat, text: string, style: Style)

  /** The frame buffer, seen as the sequence of writes made to it. */
  class Buffer {
    var ops: seq<Op>

    constructor ()
      ensures ops == []
    {
      ops := [];
    }

    method SetStyle(area: Rect, style: Style)
      modifies this
      ensures ops == old(ops) + [Fill(area, style)]
    {
      ops := ops + [Fill(area, style)];
    }

    method SetString(x: nat, y: nat, text: string, style: Style)
      modifies this
      ensures ops == old(ops) + [Text(x, y, text, style)]
    {
      ops := ops + [Text(x, y, text, style)];
    }
  }

  /** The scrollbar's state; `Default` sets every field to 0. */
  datatype ScrollbarState = ScrollbarState(contentLength: USize, position: USize, viewportContentLength: USize)

  const DefaultScrollbar: ScrollbarState := ScrollbarState(0, 0, 0)

  /** `ScrollbarState::position`: the same state at a new position. */
  function WithPosition(s: ScrollbarState, p: USize): (r: ScrollbarState)
    ensures r.position == p
    ensures r.contentLength == s.contentLength && r.viewportContentLength == s.viewportContentLength
  {
    s.(position := p)
  }
}
