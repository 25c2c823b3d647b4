/** The plain PPM ("P3") writer: the header `P3 <width> <height> 255`, then for
    every 4-byte RGBA chunk of the mapped buffer ` R G B` in decimal, alpha dropped,
    with no trailing newline. */
module Ppm {
  import opened Wrappers
  import opened Decimal

  /** A byte of the mapped buffer (`u8`). */
  type Byte = n: nat | n < 256

  function Min(a: int, b: int): int
  {
    if a <= b then a else b
  }

  /** `slice.chunks(4)`: consecutive runs of four bytes, the last one shorter when
      the length is not a multiple of four. */
  function Chunks(s: seq<Byte>): (r: seq<seq<Byte>>)
    ensures |r| == (|s| + 3) / 4
    decreases |s|
  {
    if |s| == 0 then [] else if |s| <= 4 then [s] else [s[..4]] + Chunks(s[4..])
  }

  /** Chunk `k` is the run of bytes starting at `4k`, cut short by the end of the slice. */
  lemma {:induction false} ChunkAt(s: seq<Byte>, k: nat)
    requires k < |Chunks(s)|
    ensures 4 * k < |s|
    ensures Chunks(s)[k] == s[4 * k .. Min(4 * k + 4, |s|)]
    decreases k
  {
    if k > 0 {
      ChunkAt(s[4..], k - 1);
      assert s[4..][4 * (k - 1) .. Min(4 * k, |s| - 4)] == s[4 * k .. Min(4 * k + 4, |s|)];
    }
  }

  /** Every chunk is long enough for `rgba[0]`, `rgba[1]` and `rgba[2]`. */
  predicate Indexable(cs: seq<seq<Byte>>)
  {
    forall k :: 0 <= k < |cs| ==> |cs[k]| >= 3
  }

  /** The chunks are exactly the pixels of the slice: when the length is a multiple
      of four, every chunk holds four bytes, starting at byte 4k. */
  lemma WholePixels(s: seq<Byte>)
    requires |s| % 4 == 0
    ensures |Chunks(s)| == |s| / 4
    ensures forall k :: 0 <= k < |s| / 4 ==> Chunks(s)[k] == s[4 * k .. 4 * k + 4]
    ensures Indexable(Chunks(s))
  {
    var cs := Chunks(s);
    forall k | 0 <= k < |s| / 4
      ensures cs[k] == s[4 * k .. 4 * k + 4] && |cs[k]| == 4
    {
      ChunkAt(s, k);
    }
  }

  /** The indexing in the loop never fails exactly when the slice length leaves
      remainder 0 or 3 modulo 4; for lengths 1 and 2 modulo 4 the last chunk is too short. */
  lemma ChunksIndexableIff(s: seq<Byte>)
    ensures Indexable(Chunks(s)) <==> |s| % 4 == 0 || |s| % 4 == 3
  {
    var cs := Chunks(s);
    var m, rem := |s| / 4, |s| % 4;
    assert |s| == 4 * m + rem;
    assert |cs| == if rem == 0 then m else m + 1;
    if rem == 0 || rem == 3 {
      forall k | 0 <= k < |cs| ensures |cs[k]| >= 3 {
        ChunkAt(s, k);
        assert |cs[k]| == Min(4 * k + 4, |s|) - 4 * k;
      }
    } else {
      ChunkAt(s, m);
      assert |cs[m]| == rem;
    }
  }

  /** The header written before the loop. */
  function Header(width: nat, height: nat): string
  {
    "P3 " + Dec(width) + " " + Dec(height) + " 255"
  }

  /** What one iteration writes for the chunk `rgba`: ` R G B`. */
  function Triple(rgba: seq<Byte>): string
    requires |rgba| >= 3
  {
    " " + Dec(rgba[0]) + " " + Dec(rgba[1]) + " " + Dec(rgba[2])
  }

  /** What the loop writes for the chunks `cs`, in order. */
  function BodyText(cs: seq<seq<Byte>>): string
    requires Indexable(cs)
    decreases |cs|
  {
    if cs == [] then "" else BodyText(cs[..|cs| - 1]) + Triple(cs[|cs| - 1])
  }

  /** The text the program writes for `slice`, or `None` where it indexes past the
      end of a short last chunk and panics. */
  function PpmText(width: nat, height: nat, slice: seq<Byte>): Option<string>
  {
    var cs := Chunks(slice);
    if Indexable(cs) then Some(Header(width, height) + BodyText(cs)) else None
  }

  /** The output loop: the header, then one write per chunk. */
  method WritePpm(width: nat, height: nat, slice: seq<Byte>) returns (output: Option<string>)
    ensures output == PpmText(width, height, slice)
  {
    var out := Header(width, height);
    var chunks := Chunks(slice);
    for k := 0 to |chunks|
      invariant Indexable(chunks[..k])
      invariant out == Header(width, height) + BodyText(chunks[..k])
    {
      var rgba := chunks[k];
      if |rgba| < 3 {
        return None;
      }
      BodySnoc(chunks, k);
      Assoc(Header(width, height), BodyText(chunks[..k]), Triple(rgba));
      out := out + Triple(rgba);
    }
    assert chunks[..|chunks|] == chunks;
    return Some(out);
  }

  lemma BodySnoc(cs: seq<seq<Byte>>, k: nat)
    requires k < |cs| && Indexable(cs[..k + 1])
    ensures Indexable(cs[..k])
    ensures BodyText(cs[..k + 1]) == BodyText(cs[..k]) + Triple(cs[k])
  {
    assert cs[..k + 1][..k] == cs[..k];
  }

  lemma Assoc<T>(a: seq<T>, b: seq<T>, c: seq<T>)
    ensures (a + b) + c == a + (b + c)
  {
  }

  /** The text as a space-separated token list. */
  function JoinSpaces(ts: seq<string>): string
    requires |ts| >= 1
    decreases |ts|
  {
    if |ts| == 1 then ts[0] else JoinSpaces(ts[..|ts| - 1]) + " " + ts[|ts| - 1]
  }

  lemma JoinSnoc(ts: seq<string>, t: string)
    requires |ts| >= 1
    ensures JoinSpaces(ts + [t]) == JoinSpaces(ts) + " " + t
  {
    assert (ts + [t])[..|ts|] == ts;
  }

  function HeaderTokens(width: nat, height: nat): seq<string>
  {
    ["P3", Dec(width), Dec(height), "255"]
  }

  /** The channel values the loop writes, three per chunk, alpha left out. */
  function ChannelTokens(cs: seq<seq<Byte>>): seq<string>
    requires Indexable(cs)
    decreases |cs|
  {
    if cs == [] then []
    else
      var c := cs[|cs| - 1];
      ChannelTokens(cs[..|cs| - 1]) + [Dec(c[0]), Dec(c[1]), Dec(c[2])]
  }

  lemma {:induction false} ChannelTokensLength(cs: seq<seq<Byte>>)
    requires Indexable(cs)
    ensures |ChannelTokens(cs)| == 3 * |cs|
    decreases |cs|
  {
    if cs != [] {
      ChannelTokensLength(cs[..|cs| - 1]);
    }
  }

  /** Token 3k + j is channel j of chunk k. */
  lemma {:induction false} ChannelTokenAt(cs: seq<seq<Byte>>, k: nat, j: nat)
    requires Indexable(cs) && k < |cs| && j < 3
    ensures |ChannelTokens(cs)| == 3 * |cs|
    ensures ChannelTokens(cs)[3 * k + j] == Dec(cs[k][j])
    decreases |cs|
  {
    var init := cs[..|cs| - 1];
    var c := cs[|cs| - 1];
    var x := ChannelTokens(init);
    var t := [Dec(c[0]), Dec(c[1]), Dec(c[2])];
    ChannelTokensLength(init);
    assert ChannelTokens(cs) == x + t;
    if k < |cs| - 1 {
      calc {
        ChannelTokens(cs)[3 * k + j];
        x[3 * k + j];
        { ChannelTokenAt(init, k, j); }
        Dec(init[k][j]);
        Dec(cs[k][j]);
      }
    } else {
      assert (x + t)[|x| + j] == t[j];
    }
  }

  /** The header is its four tokens separated by single spaces. */
  lemma HeaderLayout(width: nat, height: nat)
    ensures Header(width, height) == JoinSpaces(HeaderTokens(width, height))
  {
    var w, h := Dec(width), Dec(height);
    JoinSnoc(["P3"], w);
    JoinSnoc(["P3", w], h);
    JoinSnoc(["P3", w, h], "255");
    assert ["P3"] + [w] == ["P3", w];
    assert ["P3", w] + [h] == ["P3", w, h];
    assert ["P3", w, h] + ["255"] == HeaderTokens(width, height);
  }

  /** Three more tokens, each written after a space, extend the joined list. */
  lemma JoinThree(x: seq<string>, d0: string, d1: string, d2: string)
    requires |x| >= 1
    ensures JoinSpaces(x) + " " + d0 + " " + d1 + " " + d2 == JoinSpaces(x + [d0, d1, d2])
  {
    var y0 := x + [d0];
    var y1 := y0 + [d1];
    calc {
      JoinSpaces(x + [d0, d1, d2]);
      { SnocThree(x, d0, d1, d2); }
      JoinSpaces(y1 + [d2]);
      { JoinSnoc(y1, d2); }
      JoinSpaces(y1) + " " + d2;
      { JoinSnoc(y0, d1); }
      JoinSpaces(y0) + " " + d1 + " " + d2;
      { JoinSnoc(x, d0); }
      JoinSpaces(x) + " " + d0 + " " + d1 + " " + d2;
    }
  }

  lemma SnocThree<T>(x: seq<T>, a: T, b: T, c: T)
    ensures x + [a] + [b] + [c] == x + [a, b, c]
  {
  }

  /** The loop's output after a prefix that joins the tokens `hs` joins `hs`
      followed by the channel values. */
  lemma {:induction false} LayoutFrom(hs: seq<string>, cs: seq<seq<Byte>>)
    requires |hs| >= 1 && Indexable(cs)
    ensures JoinSpaces(hs) + BodyText(cs) == JoinSpaces(hs + ChannelTokens(cs))
    decreases |cs|
  {
    if cs == [] {
      assert hs + ChannelTokens(cs) == hs;
    } else {
      var init := cs[..|cs| - 1];
      var c := cs[|cs| - 1];
      LayoutFrom(hs, init);
      var x := hs + ChannelTokens(init);
      var t := [Dec(c[0]), Dec(c[1]), Dec(c[2])];
      Assoc(hs, ChannelTokens(init), t);
      calc {
        JoinSpaces(hs) + BodyText(cs);
        { Assoc(JoinSpaces(hs), BodyText(init), Triple(c)); }
        JoinSpaces(x) + Triple(c);
        { AppendTriple(JoinSpaces(x), c); }
        JoinSpaces(x) + " " + t[0] + " " + t[1] + " " + t[2];
        { JoinThree(x, t[0], t[1], t[2]); }
        JoinSpaces(x + t);
      }
    }
  }

  /** The layout the header and the loop produce together: all tokens separated
      by single spaces, nothing before the first and nothing after the last. */
  lemma Layout(width: nat, height: nat, cs: seq<seq<Byte>>)
    requires Indexable(cs)
    ensures Header(width, height) + BodyText(cs) ==
            JoinSpaces(HeaderTokens(width, height) + ChannelTokens(cs))
  {
    HeaderLayout(width, height);
    LayoutFrom(HeaderTokens(width, height), cs);
  }

  /** Appending one chunk's text is appending its three tokens, each after a space. */
  lemma AppendTriple(a: string, c: seq<Byte>)
    requires |c| >= 3
    ensures a + Triple(c) == a + " " + Dec(c[0]) + " " + Dec(c[1]) + " " + Dec(c[2])
  {
    var d0, d1, d2 := Dec(c[0]), Dec(c[1]), Dec(c[2]);
    Assoc(a, " " + d0 + " " + d1 + " ", d2);
    Assoc(a, " " + d0 + " ", d1);
    Assoc(a, " " + d0, " ");
    Assoc(a, " ", d0);
  }

  /** Two chunks that agree on their length and on the bytes the loop reads. */
  predicate SameColour(c: seq<Byte>, d: seq<Byte>)
  {
    |c| == |d| && forall j :: 0 <= j < |c| && j < 3 ==> c[j] == d[j]
  }

  lemma {:induction false} BodyTextColourOnly(cs: seq<seq<Byte>>, ds: seq<seq<Byte>>)
    requires |cs| == |ds| && Indexable(cs)
    requires forall k :: 0 <= k < |cs| ==> SameColour(cs[k], ds[k])
    ensures Indexable(ds) && BodyText(cs) == BodyText(ds)
    decreases |cs|
  {
    if cs != [] {
      BodyTextColourOnly(cs[..|cs| - 1], ds[..|ds| - 1]);
    }
  }

  /** Alpha never reaches the output: slices that differ only in bytes 4k + 3
      produce the same text, or both panic. */
  lemma AlphaIgnored(width: nat, height: nat, s: seq<Byte>, t: seq<Byte>)
    requires |s| == |t|
    requires forall i :: 0 <= i < |s| && i % 4 != 3 ==> s[i] == t[i]
    ensures PpmText(width, height, s) == PpmText(width, height, t)
  {
    var cs, ds := Chunks(s), Chunks(t);
    forall k | 0 <= k < |cs| ensures SameColour(cs[k], ds[k]) {
      ChunkAt(s, k);
      ChunkAt(t, k);
      forall j | 0 <= j < |cs[k]| && j < 3 ensures cs[k][j] == ds[k][j] {
        assert (4 * k + j) % 4 == j;
        assert cs[k][j] == s[4 * k + j];
      }
    }
    if Indexable(cs) {
      BodyTextColourOnly(cs, ds);
    }
  }
}
