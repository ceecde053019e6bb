/** The LED grid view of `ddp_web_server.py`: `_colors_from_buffer` turns the
    display buffer into one `#rrggbb` string per pixel of a fixed-size strip,
    reading three bytes (red, green, blue) per pixel. */
module WebColors {
  import opened Bytes

  /** `PIXEL_COUNT`: the strip always shows this many pixels. */
  const PixelCount: nat := 30

  /** An unlit pixel. */
  const Black: string := "#000000"

  /** One lowercase hexadecimal digit, as `format(n, "x")` writes it. */
  function HexDigit(n: nat): (c: char)
    requires n < 16
    ensures '0' <= c <= '9' || 'a' <= c <= 'f'
  {
    if n < 10 then ('0' as int + n) as char else ('a' as int + (n - 10)) as char
  }

  /** The value of a lowercase hexadecimal digit, `None` for any other
      character. */
  function DigitValue(c: char): (v: Option<nat>)
    ensures v.Some? ==> v.value < 16
  {
    if '0' <= c <= '9' then Some(c as int - '0' as int)
    else if 'a' <= c <= 'f' then Some(c as int - 'a' as int + 10)
    else None
  }

  /** `f"{b:02x}"`: two lowercase hex digits, high nibble first. */
  function Hex2(b: byte): (h: string)
    ensures |h| == 2
  {
    [HexDigit(b / 16), HexDigit(b % 16)]
  }

  /** `f"#{r:02x}{g:02x}{b:02x}"`. */
  function Color(r: byte, g: byte, b: byte): (c: string)
    ensures |c| == 7 && c[0] == '#'
  {
    "#" + Hex2(r) + Hex2(g) + Hex2(b)
  }

  datatype Rgb = Rgb(r: byte, g: byte, b: byte)

  /** Two lowercase hex digits read back as a byte. */
  function ParseHex2(h: string): Option<byte>
    requires |h| == 2
  {
    match (DigitValue(h[0]), DigitValue(h[1]))
    case (Some(hi), Some(lo)) => Some(hi * 16 + lo)
    case _ => None
  }

  /** A `#rrggbb` string in lowercase read back as its three channels;
      `None` for anything else. */
  function ParseColor(c: string): Option<Rgb>
  {
    if |c| != 7 || c[0] != '#' then None
    else
      match (ParseHex2(c[1..3]), ParseHex2(c[3..5]), ParseHex2(c[5..7]))
      case (Some(r), Some(g), Some(b)) => Some(Rgb(r, g, b))
      case _ => None
  }

  lemma DigitRoundTrip(n: nat)
    requires n < 16
    ensures DigitValue(HexDigit(n)) == Some(n)
  {
  }

  lemma Hex2RoundTrip(b: byte)
    ensures ParseHex2(Hex2(b)) == Some(b)
  {
    DigitRoundTrip(b / 16);
    DigitRoundTrip(b % 16);
  }

  /** Every rendered colour reads back as the channels it was made from, so
      different pixels never render the same. */
  lemma ColorRoundTrip(r: byte, g: byte, b: byte)
    ensures ParseColor(Color(r, g, b)) == Some(Rgb(r, g, b))
  {
    var c := Color(r, g, b);
    assert c[1..3] == Hex2(r) && c[3..5] == Hex2(g) && c[5..7] == Hex2(b);
    Hex2RoundTrip(r);
    Hex2RoundTrip(g);
    Hex2RoundTrip(b);
  }

  lemma HexDigitOfValue(c: char)
    requires DigitValue(c).Some?
    ensures HexDigit(DigitValue(c).value) == c
  {
  }

  lemma Hex2OfValue(h: string)
    requires |h| == 2 && ParseHex2(h).Some?
    ensures Hex2(ParseHex2(h).value) == h
  {
    var hi, lo := DigitValue(h[0]).value, DigitValue(h[1]).value;
    HexDigitOfValue(h[0]);
    HexDigitOfValue(h[1]);
    DivModUnique(hi * 16 + lo, 0x100, 0, hi * 16 + lo);
    assert (hi * 16 + lo) / 16 == hi && (hi * 16 + lo) % 16 == lo;
  }

  /** The other direction: every string `ParseColor` accepts is the
      rendering of the channels it reads. */
  lemma ParseColorExact(c: string)
    requires ParseColor(c).Some?
    ensures var v := ParseColor(c).value; Color(v.r, v.g, v.b) == c
  {
    var v := ParseColor(c).value;
    Hex2OfValue(c[1..3]);
    Hex2OfValue(c[3..5]);
    Hex2OfValue(c[5..7]);
    assert c == [c[0]] + c[1..3] + c[3..5] + c[5..7];
  }

  /** The padding colour is the rendering of an all-zero pixel. */
  lemma BlackIsZero()
    ensures Black == Color(0, 0, 0)
  {
  }

  /** The first `n` pixels of `data`, three bytes each. */
  function Pixels(data: seq<byte>, n: nat): (cs: seq<string>)
    requires 3 * n <= |data|
    ensures |cs| == n
    ensures forall i :: 0 <= i < n ==> cs[i] == Color(data[3 * i], data[3 * i + 1], data[3 * i + 2])
  {
    if n == 0 then [] else Pixels(data, n - 1) + [Color(data[3 * (n - 1)], data[3 * (n - 1) + 1], data[3 * (n - 1) + 2])]
  }

  /** Whether the loop over `range(0, min(len(data), 90), 3)` stays inside
      `data`: otherwise reading the green or blue byte of the last, partial
      pixel raises `IndexError`. */
  predicate Renderable(data: seq<byte>)
  {
    |data| % 3 == 0 || |data| >= 3 * PixelCount
  }

  /** How many pixels carry data: `min(len(data), 90) // 3`. */
  function Lit(data: seq<byte>): nat
  {
    Min(|data|, 3 * PixelCount) / 3
  }

  /** `_colors_from_buffer`: `None` stands for the `IndexError` of a short
      buffer whose length is not a multiple of three.  Otherwise exactly
      `PixelCount` colours: pixel `i` renders bytes `3i`, `3i+1`, `3i+2` while
      those lie in the first 90 bytes of the buffer, and is black after. */
  function ColorsFromBuffer(data: seq<byte>): (r: Option<seq<string>>)
    ensures r.Some? <==> Renderable(data)
    ensures r.Some? ==> |r.value| == PixelCount
    ensures r.Some? ==> forall i :: 0 <= i < PixelCount ==>
      r.value[i] == if 3 * i + 2 < Min(|data|, 3 * PixelCount)
                    then Color(data[3 * i], data[3 * i + 1], data[3 * i + 2])
                    else Black
  {
    if !Renderable(data) then None
    else
      var n := Lit(data);
      Some(Pixels(data, n) + seq(PixelCount - n, _ => Black))
  }

  /** Only the first 90 bytes of the buffer are ever read: a longer buffer
      renders as its 90-byte prefix. */
  lemma OnlyPrefixRead(data: seq<byte>)
    requires |data| >= 3 * PixelCount
    ensures ColorsFromBuffer(data) == ColorsFromBuffer(data[..3 * PixelCount])
  {
    var prefix := data[..3 * PixelCount];
    var a, b := ColorsFromBuffer(data).value, ColorsFromBuffer(prefix).value;
    forall i | 0 <= i < PixelCount
      ensures a[i] == b[i]
    {
      assert 3 * i + 2 < 3 * PixelCount;
      assert prefix[3 * i] == data[3 * i] && prefix[3 * i + 1] == data[3 * i + 1] && prefix[3 * i + 2] == data[3 * i + 2];
    }
    assert |a| == |b|;
    assert a == b;
  }

  /** Reading the view back: each lit pixel parses to its three buffer
      bytes and every other pixel parses to zero. */
  lemma ColorsRecoverBytes(data: seq<byte>)
    requires Renderable(data)
    ensures var r := ColorsFromBuffer(data).value;
      forall i :: 0 <= i < PixelCount ==>
        ParseColor(r[i]) == if i < Lit(data) then Some(Rgb(data[3 * i], data[3 * i + 1], data[3 * i + 2]))
                            else Some(Rgb(0, 0, 0))
  {
    var r := ColorsFromBuffer(data).value;
    forall i | 0 <= i < PixelCount
      ensures ParseColor(r[i]) == if i < Lit(data) then Some(Rgb(data[3 * i], data[3 * i + 1], data[3 * i + 2]))
                                  else Some(Rgb(0, 0, 0))
    {
      if i < Lit(data) {
        ColorRoundTrip(data[3 * i], data[3 * i + 1], data[3 * i + 2]);
      } else {
        BlackIsZero();
        ColorRoundTrip(0, 0, 0);
      }
    }
  }
}
