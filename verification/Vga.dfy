/** VGA text cells: the 16-bit entries shared by the Winky guest and the philix host. */
module Vga {

  type Cell = bv16
  /** A C `char`, kept as its byte pattern. */
  type Char = bv8
  type Row = seq<Cell>

  const WIDTH: nat := 80
  const HEIGHT: nat := 25
  const CELLS: nat := 2000

  const NEWLINE: Char := 10
  const SPACE: Char := 32
  const LIGHT_GREY_ON_BLACK: bv8 := 7

  /** A signed C char widened to 16 bits. */
  function SignExtend(c: Char): (r: bv16) {
    if c < 0x80 then c as bv16 else 0xff00 | (c as bv16)
  }

  function MakeVgaEntry(c: Char, color: bv8): (e: Cell) {
    SignExtend(c) | ((color as bv16) << 8)
  }

  /** What the host reads back out of a cell. */
  function CharOf(e: Cell): (c: Char) {
    (e & 0xff) as bv8
  }

  function ColorOf(e: Cell): (color: bv8) {
    (e >> 8) as bv8
  }

  /** The character always survives; the colour survives exactly when sign extension did not smear
      over it, that is for 7-bit characters, or when the colour byte is all ones anyway. */
  lemma EntryRoundTrip(c: Char, color: bv8)
    ensures CharOf(MakeVgaEntry(c, color)) == c
    ensures ColorOf(MakeVgaEntry(c, color)) == color <==> c < 0x80 || color == 0xff
  {
  }

  /** What curses is asked to show for a cell. */
  datatype Glyph = Glyph(ch: Char, color: bv8)

  function GlyphOf(e: Cell): (g: Glyph) {
    Glyph(if 32 <= CharOf(e) < 127 then CharOf(e) else 64 /* '@' */, ColorOf(e))
  }

  function Glyphs(row: Row): (g: seq<Glyph>)
    ensures |g| == |row|
  {
    seq(|row|, i requires 0 <= i < |row| => GlyphOf(row[i]))
  }

  function Blank(color: bv8): (e: Cell) {
    MakeVgaEntry(SPACE, color)
  }

  function BlankRow(color: bv8): (r: Row)
    ensures |r| == WIDTH
  {
    seq(WIDTH, _ => Blank(color))
  }

  /** Row `r` of a framebuffer held as one flat sequence of cells. */
  function RowOf(fb: seq<Cell>, r: nat): (row: Row)
    requires |fb| == CELLS && r < HEIGHT
    ensures |row| == WIDTH
  {
    fb[WIDTH * r..WIDTH * r + WIDTH]
  }

  function Rows(fb: seq<Cell>): (rows: seq<Row>)
    requires |fb| == CELLS
    ensures |rows| == HEIGHT
  {
    seq(HEIGHT, r requires 0 <= r < HEIGHT => RowOf(fb, r))
  }
}
