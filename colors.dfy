/** `cli_utils::colors`: wrapping text in ANSI escape sequences, and a
    ColorString whose `colorized` field is rebuilt in place. */
module Colors {
  datatype Option<T> = None | Some(value: T)

  /** The escape character ESC (0x1b) that starts every sequence. */
  const Esc: char := 27 as char

  const RedCode: string := [Esc] + "[31m"
  const GreenCode: string := [Esc] + "[32m"
  const BlueCode: string := [Esc] + "[34m"
  const BoldCode: string := [Esc] + "[1m"
  /** Appended to every wrapped text; also the prefix `reset` uses. */
  const ResetCode: string := [Esc] + "[0m"

  /** r is s with `prefix` in front and ResetCode behind, so that cutting off
      |prefix| characters at the front and |ResetCode| at the back gives s. */
  predicate Wraps(prefix: string, s: string, r: string) {
    |r| == |prefix| + |s| + |ResetCode| &&
    r[..|prefix|] == prefix &&
    r[|prefix|..|r| - |ResetCode|] == s &&
    r[|r| - |ResetCode|..] == ResetCode
  }

  /** The decomposition is exactly the concatenation prefix + s + ResetCode. */
  lemma WrapsIsConcatenation(prefix: string, s: string, r: string)
    ensures Wraps(prefix, s, r) <==> r == prefix + s + ResetCode
  {
    if Wraps(prefix, s, r) {
      assert r == r[..|prefix|] + r[|prefix|..|r| - |ResetCode|] + r[|r| - |ResetCode|..];
    }
  }

  function Red(s: string): (r: string)
    ensures Wraps(RedCode, s, r)
  {
    RedCode + s + ResetCode
  }

  function Green(s: string): (r: string)
    ensures Wraps(GreenCode, s, r)
  {
    GreenCode + s + ResetCode
  }

  function Blue(s: string): (r: string)
    ensures Wraps(BlueCode, s, r)
  {
    BlueCode + s + ResetCode
  }

  function Bold(s: string): (r: string)
    ensures Wraps(BoldCode, s, r)
  {
    BoldCode + s + ResetCode
  }

  function Reset(s: string): (r: string)
    ensures Wraps(ResetCode, s, r)
  {
    ResetCode + s + ResetCode
  }

  /** The closed set of colours a ColorString can carry. */
  datatype Color = Red | Green | Blue | Bold

  /** The escape sequence that each colour's wrapper puts in front. */
  function Code(c: Color): string {
    match c
    case Red => RedCode
    case Green => GreenCode
    case Blue => BlueCode
    case Bold => BoldCode
  }

  /** What `paint` stores: the wrapper that matches the colour, applied to s. */
  function Painted(c: Color, s: string): (r: string)
    ensures Wraps(Code(c), s, r)
  {
    match c
    case Red => Red(s)
    case Green => Green(s)
    case Blue => Blue(s)
    case Bold => Bold(s)
  }

  /** Removes a known prefix and the trailing ResetCode, if both are there. */
  function Strip(prefix: string, t: string): (r: Option<string>)
    ensures r.Some? <==> |t| >= |prefix| + |ResetCode| && t[..|prefix|] == prefix && t[|t| - |ResetCode|..] == ResetCode
    ensures r.Some? ==> Wraps(prefix, r.value, t)
  {
    if |t| >= |prefix| + |ResetCode| && t[..|prefix|] == prefix && t[|t| - |ResetCode|..] == ResetCode
    then Some(t[|prefix|..|t| - |ResetCode|])
    else None
  }

  /** Stripping the colour's prefix and the reset suffix from a painted text
      gives the text back; the same holds for `reset`. */
  lemma StripPainted(c: Color, s: string)
    ensures Strip(Code(c), Painted(c, s)) == Some(s)
    ensures Strip(ResetCode, Reset(s)) == Some(s)
    ensures |Painted(c, s)| == |Code(c)| + |s| + 4
  {
  }

  /** For one text, no two colours paint the same output, and `reset`
      differs from every colour. */
  lemma PaintedDistinct(c1: Color, c2: Color, s: string)
    ensures c1 != c2 ==> Painted(c1, s) != Painted(c2, s)
    ensures Painted(c1, s) != Reset(s)
  {
    var r1, r2, r0 := Painted(c1, s), Painted(c2, s), Reset(s);
    assert r1[2] == Code(c1)[2] && r1[3] == Code(c1)[3];
    assert r2[2] == Code(c2)[2] && r2[3] == Code(c2)[3];
    assert r0[2] == ResetCode[2];
  }

  /** The strings the colour tests expect. */
  lemma PaintedExamples()
    ensures Painted(Color.Red, "Red") == [Esc] + "[31mRed" + [Esc] + "[0m"
    ensures Painted(Color.Green, "Green") == [Esc] + "[32mGreen" + [Esc] + "[0m"
    ensures Painted(Color.Blue, "Blue") == [Esc] + "[34mBlue" + [Esc] + "[0m"
    ensures Painted(Color.Bold, "Bold") == [Esc] + "[1mBold" + [Esc] + "[0m"
  {
  }

  /** A text with a colour, the text as last painted or reset, and an opacity
      that nothing reads. */
  class ColorString {
    var color: Color
    var text: string
    var colorized: string
    var opacity: real

    /** The struct literal `ColorString { color, string, colorized, opacity }`. */
    constructor (color: Color, text: string, colorized: string, opacity: real)
      ensures this.color == color && this.text == text
      ensures this.colorized == colorized && this.opacity == opacity
    {
      this.color := color;
      this.text := text;
      this.colorized := colorized;
      this.opacity := opacity;
    }

    /** `paint`: overwrites colorized with the text wrapped for the colour.
        (Inside the class the bare names Red, ..., Bold are the colours, so
        the module-level wrappers are reached through `_default`.) */
    method Paint()
      modifies this`colorized
      ensures colorized == Painted(color, text)
      ensures Wraps(Code(color), text, colorized)
      ensures color == old(color) && text == old(text) && opacity == old(opacity)
    {
      match color
      case Red => colorized := _default.Red(text);
      case Green => colorized := _default.Green(text);
      case Blue => colorized := _default.Blue(text);
      case Bold => colorized := _default.Bold(text);
    }

    /** `reset`: overwrites colorized with the reset-wrapped text, whatever
        the colour. */
    method Reset()
      modifies this`colorized
      ensures colorized == _default.Reset(text)
      ensures color == old(color) && text == old(text) && opacity == old(opacity)
    {
      colorized := _default.Reset(text);
    }
  }

  /** Painting twice leaves what painting once left. */
  method PaintTwice(cs: ColorString) returns (once: string, twice: string)
    modifies cs`colorized
    ensures once == twice == cs.colorized == Painted(cs.color, cs.text)
  {
    cs.Paint();
    once := cs.colorized;
    cs.Paint();
    twice := cs.colorized;
  }
}
