/** A reader for the text the PPM writer produces, used to state what the written
    text means: splitting it at spaces and parsing the numerals gives back the
    dimensions and the red, green and blue bytes of every pixel, in order. */
module PpmDecode {
  import opened Wrappers
  import opened Decimal
  import opened Ppm

  datatype Rgb = Rgb(red: Byte, green: Byte, blue: Byte)

  datatype Image = Image(width: nat, height: nat, maxValue: nat, pixels: seq<Rgb>)

  predicate NoSpace(t: string)
  {
    forall i :: 0 <= i < |t| ==> t[i] != ' '
  }

  lemma DigitsNoSpace(t: string)
    requires IsDigits(t)
    ensures NoSpace(t)
  {
    forall i | 0 <= i < |t| ensures t[i] != ' ' {
      assert IsDigit(t[i]);
    }
  }

  /** The position of the last space in `s`. */
  function LastSpace(s: string): (r: Option<nat>)
    ensures r.Some? ==> r.value < |s| && s[r.value] == ' ' && NoSpace(s[r.value + 1..])
    ensures r.None? ==> NoSpace(s)
    decreases |s|
  {
    if s == [] then None
    else if s[|s| - 1] == ' ' then Some(|s| - 1)
    else
      var r := LastSpace(s[..|s| - 1]);
      assert r.Some? ==> s[r.value + 1..] == s[..|s| - 1][r.value + 1..] + [s[|s| - 1]];
      r
  }

  /** The pieces of `s` between single spaces (empty pieces included). */
  function Split(s: string): (r: seq<string>)
    ensures |r| >= 1
    decreases |s|
  {
    match LastSpace(s)
    case None => [s]
    case Some(i) => Split(s[..i]) + [s[i + 1..]]
  }

  lemma LastSpaceOfJoin(a: string, b: string)
    requires NoSpace(b)
    ensures LastSpace(a + " " + b) == Some(|a|)
  {
    var s := a + " " + b;
    assert s[|a|] == ' ';
    assert forall j :: |a| < j < |s| ==> s[j] == b[j - |a| - 1];
  }

  /** Splitting undoes joining, for tokens without spaces. */
  lemma {:induction false} SplitJoin(ts: seq<string>)
    requires |ts| >= 1
    requires forall i :: 0 <= i < |ts| ==> NoSpace(ts[i])
    ensures Split(JoinSpaces(ts)) == ts
    decreases |ts|
  {
    if |ts| == 1 {
      assert LastSpace(ts[0]).None?;
    } else {
      var init, last := ts[..|ts| - 1], ts[|ts| - 1];
      assert forall i :: 0 <= i < |init| ==> init[i] == ts[i];
      SplitJoin(init);
      var a := JoinSpaces(init);
      var s := a + " " + last;
      LastSpaceOfJoin(a, last);
      calc {
        Split(JoinSpaces(ts));
        Split(s);
        { assert s[..|a|] == a && s[|a| + 1..] == last; }
        Split(a) + [last];
        init + [last];
        ts;
      }
    }
  }

  /** A channel value: a canonical numeral no larger than the declared maximum. */
  function DecodeChannel(t: string, maxValue: nat): Option<Byte>
  {
    match ParseDecimal(t)
    case Some(v) => if v <= maxValue && v < 256 then Some(v) else None
    case None => None
  }

  /** Groups of three channel tokens, read back into pixels. */
  function DecodePixels(ts: seq<string>, maxValue: nat): Option<seq<Rgb>>
    decreases |ts|
  {
    if ts == [] then Some([])
    else if |ts| < 3 then None
    else
      var n := |ts|;
      var ps := DecodePixels(ts[..n - 3], maxValue);
      var r := DecodeChannel(ts[n - 3], maxValue);
      var g := DecodeChannel(ts[n - 2], maxValue);
      var b := DecodeChannel(ts[n - 1], maxValue);
      if ps.Some? && r.Some? && g.Some? && b.Some?
      then Some(ps.value + [Rgb(r.value, g.value, b.value)])
      else None
  }

  /** Reading a plain PPM text with a maximum value between 1 and 255. */
  function DecodePpm(text: string): Option<Image>
  {
    var ts := Split(text);
    if |ts| < 4 || ts[0] != "P3" then None
    else
      var w, h, m := ParseDecimal(ts[1]), ParseDecimal(ts[2]), ParseDecimal(ts[3]);
      if w.None? || h.None? || m.None? || m.value == 0 || m.value > 255 then None
      else
        var ps := DecodePixels(ts[4..], m.value);
        if ps.None? then None else Some(Image(w.value, h.value, m.value, ps.value))
  }

  /** The colour of each chunk, alpha dropped. */
  function PixelsOf(cs: seq<seq<Byte>>): seq<Rgb>
    requires Indexable(cs)
    decreases |cs|
  {
    if cs == [] then []
    else
      var c := cs[|cs| - 1];
      PixelsOf(cs[..|cs| - 1]) + [Rgb(c[0], c[1], c[2])]
  }

  lemma {:induction false} PixelsOfAt(cs: seq<seq<Byte>>)
    requires Indexable(cs)
    ensures |PixelsOf(cs)| == |cs|
    ensures forall k :: 0 <= k < |cs| ==> PixelsOf(cs)[k] == Rgb(cs[k][0], cs[k][1], cs[k][2])
    decreases |cs|
  {
    if cs != [] {
      var init := cs[..|cs| - 1];
      PixelsOfAt(init);
      forall k | 0 <= k < |cs| - 1
        ensures PixelsOf(cs)[k] == Rgb(cs[k][0], cs[k][1], cs[k][2])
      {
        assert cs[k] == init[k];
      }
    }
  }

  lemma DecodeByte(b: Byte)
    ensures DecodeChannel(Dec(b), 255) == Some(b)
  {
    ParseDec(b);
  }

  lemma {:induction false} DecodeChannelTokens(cs: seq<seq<Byte>>)
    requires Indexable(cs)
    ensures DecodePixels(ChannelTokens(cs), 255) == Some(PixelsOf(cs))
    decreases |cs|
  {
    if cs != [] {
      var init, c := cs[..|cs| - 1], cs[|cs| - 1];
      DecodeChannelTokens(init);
      ChannelTokensLength(init);
      var x := ChannelTokens(init);
      var ts := ChannelTokens(cs);
      assert ts == x + [Dec(c[0]), Dec(c[1]), Dec(c[2])];
      assert ts[..|ts| - 3] == x;
      DecodeByte(c[0]);
      DecodeByte(c[1]);
      DecodeByte(c[2]);
    }
  }

  lemma Parse255()
    ensures ParseDecimal("255") == Some(255)
  {
    var s := "255";
    assert s[..2] == "25" && "25"[..1] == "2" && "2"[..0] == "";
    assert IsCanonical(s) && DigitsValue(s) == 255;
  }

  /** None of the written tokens contains a space. */
  lemma ChannelTokensNoSpace(cs: seq<seq<Byte>>)
    requires Indexable(cs)
    ensures forall i :: 0 <= i < |ChannelTokens(cs)| ==> NoSpace(ChannelTokens(cs)[i])
  {
    var xs := ChannelTokens(cs);
    ChannelTokensLength(cs);
    forall i | 0 <= i < |xs| ensures NoSpace(xs[i]) {
      var k, j := i / 3, i % 3;
      ChannelTokenAt(cs, k, j);
      assert 3 * k + j == i;
      DigitsNoSpace(xs[i]);
    }
  }

  lemma TokensNoSpace(width: nat, height: nat, cs: seq<seq<Byte>>)
    requires Indexable(cs)
    ensures forall i :: 0 <= i < |HeaderTokens(width, height) + ChannelTokens(cs)| ==>
              NoSpace((HeaderTokens(width, height) + ChannelTokens(cs))[i])
  {
    var hs, xs := HeaderTokens(width, height), ChannelTokens(cs);
    DigitsNoSpace(hs[1]);
    DigitsNoSpace(hs[2]);
    assert forall i :: 0 <= i < 4 ==> NoSpace(hs[i]);
    ChannelTokensNoSpace(cs);
    forall i | 0 <= i < |hs + xs| ensures NoSpace((hs + xs)[i]) {
      if i < 4 {
        assert (hs + xs)[i] == hs[i];
      } else {
        assert (hs + xs)[i] == xs[i - 4];
      }
    }
  }

  /** What the written text means: reading it back gives the dimensions, the
      maximum value 255 and the colour of every chunk, in chunk order. */
  lemma RoundTrip(width: nat, height: nat, slice: seq<Byte>, text: string)
    requires PpmText(width, height, slice) == Some(text)
    ensures DecodePpm(text) == Some(Image(width, height, 255, PixelsOf(Chunks(slice))))
  {
    var cs := Chunks(slice);
    var ts := HeaderTokens(width, height) + ChannelTokens(cs);
    Layout(width, height, cs);
    TokensNoSpace(width, height, cs);
    SplitJoin(ts);
    assert Split(text) == ts;
    assert ts[4..] == ChannelTokens(cs);
    ParseDec(width);
    ParseDec(height);
    Parse255();
    DecodeChannelTokens(cs);
  }

  /** For a slice of whole pixels, pixel k of the text is bytes 4k, 4k + 1 and
      4k + 2 of the slice, and there are exactly |slice| / 4 of them. */
  lemma RoundTripPixels(width: nat, height: nat, slice: seq<Byte>)
    requires |slice| % 4 == 0
    ensures PpmText(width, height, slice).Some?
    ensures var image := DecodePpm(PpmText(width, height, slice).value);
            image.Some? && image.value.width == width && image.value.height == height &&
            |image.value.pixels| == |slice| / 4 &&
            forall k :: 0 <= k < |slice| / 4 ==>
              image.value.pixels[k] == Rgb(slice[4 * k], slice[4 * k + 1], slice[4 * k + 2])
  {
    var cs := Chunks(slice);
    WholePixels(slice);
    RoundTrip(width, height, slice, PpmText(width, height, slice).value);
    PixelsOfAt(cs);
    forall k | 0 <= k < |slice| / 4
      ensures PixelsOf(cs)[k] == Rgb(slice[4 * k], slice[4 * k + 1], slice[4 * k + 2])
    {
      assert cs[k] == slice[4 * k .. 4 * k + 4];
    }
  }
}
