/**
 * The command interpreter: the fixed table from a received byte to the text
 * the controller draws, and the two banner texts drawn at start-up.
 */
module Commands {
  import opened Wrappers
  import opened Graphics

  /** The single text style of the firmware: FONT_6X13 drawn in the On colour. */
  const Style := TextStyle(Font6x13, On)

  const Origin := Point(0, 0)

  /** The start-up banner: two lines, the second 16 pixels below the first. */
  const HelloWorld := Text("Hello world!", Origin, Style, Top)
  const HelloRust := Text("Hello Rust!", Point(0, 16), Style, Top)

  /** The text a command byte asks for, or None for a byte with no meaning. */
  function Resolve(b: bv8): (r: Option<Text>)
    ensures r.Some? <==> b == 1 || b == 2 || b == 3
    ensures r.Some? ==> r.value.position == Origin && r.value.baseline == Top && r.value.style == Style
  {
    if b == 1 then Some(Text("Hello!", Origin, Style, Top))
    else if b == 2 then Some(Text("World!", Origin, Style, Top))
    else if b == 3 then Some(Text("ESP32 + Rust!", Origin, Style, Top))
    else None
  }

  /** The draws that handling byte b makes after the clear: at most one. */
  function Draws(b: bv8): (r: seq<Text>)
    ensures |r| <= 1
    ensures r == [] <==> Resolve(b).None?
    ensures forall i :: 0 <= i < |r| ==> Resolve(b) == Some(r[i])
  {
    match Resolve(b)
    case None => []
    case Some(t) => [t]
  }

  /** The whole table, byte by byte. */
  lemma ResolveTable(b: bv8)
    ensures b == 1 ==> Resolve(b) == Some(Text("Hello!", Point(0, 0), TextStyle(MonoFont(6, 13), On), Top))
    ensures b == 2 ==> Resolve(b) == Some(Text("World!", Point(0, 0), TextStyle(MonoFont(6, 13), On), Top))
    ensures b == 3 ==> Resolve(b) == Some(Text("ESP32 + Rust!", Point(0, 0), TextStyle(MonoFont(6, 13), On), Top))
    ensures b != 1 && b != 2 && b != 3 ==> Resolve(b) == None
  {
  }
}
