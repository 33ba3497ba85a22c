/** The vertex record of vertex.py: identity, position, colour number and colour. */
module Vertices {
  import opened Sequences
  import opened Palette

  /** A position in the plane: the source's pair of floats, only ever stored and copied here. */
  datatype Point = Point(x: real, y: real)

  /** The radius calculate_radius derives from an id, 15 + 5 * log10(id + 1), kept symbolic. */
  datatype Radius = LogRadius(id: int)

  /** What set_custom_color may be handed: a tuple (of ints here) or any other value. */
  datatype ColorArg = Tuple(items: seq<int>) | NotATuple

  /** The record get_display_info returns. */
  datatype DisplayInfo = DisplayInfo(id: int, position: Point, color: Rgb, colorNumber: int, radius: Radius)

  /** The vertex's own palette (light shades), entry k-1 for colour number k. */
  const VertexPalette: seq<Rgb> :=
    [Rgb(255, 120, 120), Rgb(120, 255, 120), Rgb(120, 120, 255), Rgb(255, 255, 120)]

  /** max(1, min(4, c)): the constructor's clamping of a colour number into 1..4. */
  function ClampColorNumber(c: int): (n: int)
    ensures 1 <= n <= 4
    ensures 1 <= c <= 4 ==> n == c
    ensures c < 1 ==> n == 1
    ensures c > 4 ==> n == 4
  {
    var low := if 4 < c then 4 else c;
    if 1 < low then low else 1
  }

  /** The argument set_custom_color accepts: a tuple of exactly three values. */
  predicate IsRgbTuple(arg: ColorArg)
  {
    arg.Tuple? && |arg.items| == 3
  }

  /** Giving set_custom_color a palette colour selects that colour's number again. */
  lemma CustomColorRoundTrip(k: int)
    requires 1 <= k <= 4
    ensures MatchNumber(VertexPalette, VertexPalette[k - 1]) == k
  {
    MatchNumberRoundTrip(VertexPalette, k);
  }

  class Vertex {
    const id: int
    var pos: Point
    var colorNumber: int
    var color: Rgb
    const radius: Radius

    /** Every path keeps the colour number inside 1..4. */
    ghost predicate Valid()
      reads this
    {
      1 <= colorNumber <= 4
    }

    constructor (id: int, pos: Point, colorNumber: int)
      ensures Valid()
      ensures this.id == id && this.pos == pos && this.radius == LogRadius(id)
      ensures this.colorNumber == ClampColorNumber(colorNumber)
      ensures this.color == VertexPalette[this.colorNumber - 1]
    {
      this.id := id;
      this.pos := pos;
      var n := ClampColorNumber(colorNumber);
      this.colorNumber := n;
      this.color := VertexPalette[n - 1];
      this.radius := LogRadius(id);
    }

    /**
     * set_color: accepts exactly the numbers 1..4; anything else is refused
     * and nothing changes. Any vertex may be recoloured: a successful call
     * leaves the number in 1..4 whatever it was before.
     */
    method SetColor(c: int) returns (ok: bool)
      modifies this
      ensures ok ==> Valid()
      ensures old(Valid()) ==> Valid()
      ensures ok <==> 1 <= c <= 4
      ensures ok ==> colorNumber == c && color == VertexPalette[c - 1]
      ensures !ok ==> colorNumber == old(colorNumber) && color == old(color)
      ensures pos == old(pos)
    {
      if 1 <= c <= 4 {
        colorNumber := c;
        color := VertexPalette[c - 1];
        return true;
      }
      return false;
    }

    /**
     * set_custom_color: a 3-tuple becomes the colour, and the colour number
     * becomes the first palette number showing that colour, or 1.
     * Any other argument changes nothing.
     */
    method SetCustomColor(arg: ColorArg)
      modifies this
      ensures IsRgbTuple(arg) ==> Valid()
      ensures old(Valid()) ==> Valid()
      ensures IsRgbTuple(arg) ==>
        && color == Rgb(arg.items[0], arg.items[1], arg.items[2])
        && colorNumber == MatchNumber(VertexPalette, color)
      ensures !IsRgbTuple(arg) ==> colorNumber == old(colorNumber) && color == old(color)
      ensures pos == old(pos)
    {
      if IsRgbTuple(arg) {
        var rgb := Rgb(arg.items[0], arg.items[1], arg.items[2]);
        color := rgb;
        for num := 1 to |VertexPalette| + 1
          invariant forall k :: 0 <= k < num - 1 ==> VertexPalette[k] != rgb
        {
          if VertexPalette[num - 1] == rgb {
            colorNumber := num;
            return;
          }
        }
        colorNumber := 1;
      }
    }

    /** get_display_info: a snapshot of the current fields. */
    function GetDisplayInfo(): (d: DisplayInfo)
      reads this
      ensures d.id == id && d.position == pos && d.radius == radius
      ensures d.color == color && d.colorNumber == colorNumber
    {
      DisplayInfo(id, pos, color, colorNumber, radius)
    }
  }
}
