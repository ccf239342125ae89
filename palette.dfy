/** Turning the target's RGBA bytes into a palette: one colour per pixel, in pixel order. */
module Palette {
  import opened Types

  /** The colour of pixel `p` of an RGBA buffer. */
  function PixelColor(data: seq<Byte>, p: nat): Color
    requires 4 * p + 4 <= |data|
  {
    Color(data[4 * p], data[4 * p + 1], data[4 * p + 2], data[4 * p + 3])
  }

  /** The RGBA bytes a sequence of colours spells out, four per colour. */
  function ColorBytes(colors: seq<Color>): (bytes: seq<Byte>)
    ensures |bytes| == 4 * |colors|
  {
    if colors == [] then []
    else
      var c := colors[|colors| - 1];
      ColorBytes(colors[..|colors| - 1]) + [c.r, c.g, c.b, c.a]
  }

  lemma ColorBytesSnoc(colors: seq<Color>, c: Color)
    ensures ColorBytes(colors + [c]) == ColorBytes(colors) + [c.r, c.g, c.b, c.a]
  {
    assert (colors + [c])[..|colors|] == colors;
  }

  /** The extraction loop: pushes one colour per 4 bytes. The result spells
      the buffer back exactly, so no byte is lost or reordered. */
  method ExtractPalette(targetData: seq<Byte>) returns (colorSamples: seq<Color>)
    requires |targetData| % 4 == 0
    ensures |colorSamples| == |targetData| / 4
    ensures forall p :: 0 <= p < |colorSamples| ==> colorSamples[p] == PixelColor(targetData, p)
    ensures ColorBytes(colorSamples) == targetData
  {
    colorSamples := [];
    var i := 0;
    while i < |targetData|
      invariant i == 4 * |colorSamples| <= |targetData|
      invariant forall p :: 0 <= p < |colorSamples| ==> colorSamples[p] == PixelColor(targetData, p)
      invariant ColorBytes(colorSamples) == targetData[..i]
    {
      var rgba := Color(targetData[i], targetData[i + 1], targetData[i + 2], targetData[i + 3]);
      ColorBytesSnoc(colorSamples, rgba);
      assert targetData[..i + 4] == targetData[..i] + [targetData[i], targetData[i + 1], targetData[i + 2], targetData[i + 3]];
      colorSamples := colorSamples + [rgba];
      i := i + 4;
    }
    assert targetData[..i] == targetData;
  }
}
