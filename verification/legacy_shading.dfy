/** The older intensity scaling (`color` in src/common/render.rs), which reads
    channel 0 only and writes its scaled value to all three channels. */
module LegacyShading {
  import opened Numeric
  import opened Vectors
  import Shading

  /** A grey colour has three equal channels. */
  predicate IsGrey(color: Color) {
    color.c0 == color.c1 == color.c2
  }

  /** `color(color, intensity)`: every channel is `(intensity * color[0]) as u8`. */
  function ScaleGrey(color: Color, intensity: real): (r: Color)
    ensures IsGrey(r)
    ensures Truncates(r.c0, intensity * color.c0 as real, U8_MAX)
  {
    var v := SatU8(intensity * color.c0 as real);
    Color(v, v, v)
  }

  /** Channels 1 and 2 of the input are ignored. */
  lemma ScaleGreyIgnoresOtherChannels(a: Color, b: Color, intensity: real)
    requires a.c0 == b.c0
    ensures ScaleGrey(a, intensity) == ScaleGrey(b, intensity)
  {
  }

  /** Intensity 0 gives black; intensity 1 copies channel 0 everywhere. */
  lemma ScaleGreyEndpoints(color: Color)
    ensures ScaleGrey(color, 0.0) == Black
    ensures ScaleGrey(color, 1.0) == Color(color.c0, color.c0, color.c0)
  {
  }

  /** On a grey input the two variants agree, at every intensity. */
  lemma GreyInputsAgree(color: Color, intensity: real)
    requires IsGrey(color)
    ensures ScaleGrey(color, intensity) == Shading.Scale(color, intensity)
  {
  }

  /** At intensity 1 they agree on exactly the grey inputs. */
  lemma AgreeAtFullIntensityIffGrey(color: Color)
    ensures ScaleGrey(color, 1.0) == Shading.Scale(color, 1.0) <==> IsGrey(color)
  {
    Shading.ScaleByOne(color);
  }

  /** At other intensities agreement does not imply a grey input: at 0 both
      variants return black for every colour. */
  lemma AgreementWithoutGrey()
    ensures ScaleGrey(Color(10, 20, 30), 0.0) == Shading.Scale(Color(10, 20, 30), 0.0)
    ensures !IsGrey(Color(10, 20, 30))
  {
    Shading.ScaleByNonPositive(Color(10, 20, 30), 0.0);
  }
}
