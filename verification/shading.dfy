/** Intensity scaling of a colour (`color` in src/render/common.rs): every
    channel is multiplied by the light intensity and cast back to `u8`. */
module Shading {
  import opened Numeric
  import opened Vectors

  /** One channel: `(intensity * f64::from(v)) as u8`. */
  function ScaleChannel(v: Byte, intensity: real): (r: Byte)
    ensures Truncates(r, intensity * v as real, U8_MAX)
  {
    SatU8(intensity * v as real)
  }

  /** `color(color, intensity)`: channel k of the result is channel k of the
      input scaled by the intensity, truncated and saturated into a byte. */
  function Scale(color: Color, intensity: real): (r: Color)
    ensures forall k :: 0 <= k < 3 ==>
      Truncates(r.Channel(k), intensity * color.Channel(k) as real, U8_MAX)
  {
    var r := Color(
      ScaleChannel(color.c0, intensity),
      ScaleChannel(color.c1, intensity),
      ScaleChannel(color.c2, intensity));
    assert forall k :: 0 <= k < 3 ==> r.Channel(k) == ScaleChannel(color.Channel(k), intensity);
    r
  }

  lemma ScaleAt(color: Color, intensity: real, k: nat)
    requires k < 3
    ensures Scale(color, intensity).Channel(k) == ScaleChannel(color.Channel(k), intensity)
  {
  }

  /** Output channel k depends on input channel k alone. */
  lemma ScaleChannelwise(a: Color, b: Color, intensity: real, k: nat)
    requires k < 3 && a.Channel(k) == b.Channel(k)
    ensures Scale(a, intensity).Channel(k) == Scale(b, intensity).Channel(k)
  {
    ScaleAt(a, intensity, k);
    ScaleAt(b, intensity, k);
  }

  /** Full intensity leaves a colour unchanged. */
  lemma ScaleByOne(color: Color)
    ensures Scale(color, 1.0) == color
  {
  }

  /** No light, or light from behind, gives black. */
  lemma ScaleByNonPositive(color: Color, intensity: real)
    requires intensity <= 0.0
    ensures Scale(color, intensity) == Black
  {
    forall k | 0 <= k < 3
      ensures intensity * color.Channel(k) as real <= 0.0
    {
      NonPositiveProduct(intensity, color.Channel(k) as real);
    }
  }

  /** An intensity in [0, 1] never brightens a channel. */
  lemma ScaleDarkens(color: Color, intensity: real)
    requires 0.0 <= intensity <= 1.0
    ensures forall k :: 0 <= k < 3 ==>
      Scale(color, intensity).Channel(k) <= color.Channel(k)
  {
    forall k | 0 <= k < 3
      ensures Scale(color, intensity).Channel(k) <= color.Channel(k)
    {
      ScaleAt(color, intensity, k);
      ScaleAt(color, 1.0, k);
      ChannelMonotone(color.Channel(k), intensity, 1.0);
      ScaleByOne(color);
    }
  }

  /** For a fixed colour, every channel grows with the intensity. */
  lemma ScaleMonotone(color: Color, lo: real, hi: real)
    requires lo <= hi
    ensures forall k :: 0 <= k < 3 ==>
      Scale(color, lo).Channel(k) <= Scale(color, hi).Channel(k)
  {
    forall k | 0 <= k < 3
      ensures Scale(color, lo).Channel(k) <= Scale(color, hi).Channel(k)
    {
      ScaleAt(color, lo, k);
      ScaleAt(color, hi, k);
      ChannelMonotone(color.Channel(k), lo, hi);
    }
  }

  lemma ChannelMonotone(v: Byte, lo: real, hi: real)
    requires lo <= hi
    ensures ScaleChannel(v, lo) <= ScaleChannel(v, hi)
  {
    var c := v as real;
    ProductMonotone(lo, hi, c);
    SatTruncMonotone(lo * c, hi * c, U8_MAX);
  }

  lemma ProductMonotone(lo: real, hi: real, c: real)
    requires lo <= hi && 0.0 <= c
    ensures lo * c <= hi * c
  {
    assert hi * c - lo * c == (hi - lo) * c;
  }

  lemma NonPositiveProduct(t: real, c: real)
    requires t <= 0.0 && 0.0 <= c
    ensures t * c <= 0.0
  {
    ProductMonotone(t, 0.0, c);
  }
}
