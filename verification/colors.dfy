/**
  The closed colour enumeration and its lookup table of Select Graphic
  Rendition foreground parameters (section 8.3.117 of ECMA-48).
 */
module Colors {
  import opened Wrappers

  /** The six colours the writer supports. The set is closed. */
  datatype Color = Red | Green | Blue | Yellow | White | Magenta

  /** `get_color`: the SGR foreground parameter of a colour, as text.
      Every value is two ASCII digits, "3" followed by a digit from 1 to 7. */
  function Code(c: Color): (r: string)
    ensures |r| == 2 && r[0] == '3' && '1' <= r[1] <= '7'
  {
    match c
    case Red => "31"
    case Green => "32"
    case Blue => "34"
    case Yellow => "33"
    case White => "37"
    case Magenta => "35"
  }

  /** The inverse of `Code`: the colour whose parameter is `s`, if any. */
  function ColorOf(s: string): (r: Option<Color>)
  {
    if s == "31" then Some(Red)
    else if s == "32" then Some(Green)
    else if s == "34" then Some(Blue)
    else if s == "33" then Some(Yellow)
    else if s == "37" then Some(White)
    else if s == "35" then Some(Magenta)
    else None
  }

  /** True when `s` is the parameter of one of the six colours. */
  predicate IsCode(s: string) {
    ColorOf(s).Some?
  }

  /** Looking a colour's parameter back up gives the colour. */
  lemma ColorOfCode(c: Color)
    ensures ColorOf(Code(c)) == Some(c)
  {
  }

  /** Whatever `ColorOf` recognises is exactly the parameter of the colour it returns. */
  lemma CodeOfColorOf(s: string)
    ensures ColorOf(s).Some? ==> Code(ColorOf(s).value) == s
  {
  }

  /** `IsCode` holds exactly of the strings in the range of `Code`. */
  lemma IsCodeIffInRange(s: string)
    ensures IsCode(s) <==> exists c :: Code(c) == s
  {
    if IsCode(s) {
      CodeOfColorOf(s);
    }
    if c :| Code(c) == s {
      ColorOfCode(c);
    }
  }

  /** No two colours share a parameter. */
  lemma CodeInjective(a: Color, b: Color)
    ensures Code(a) == Code(b) <==> a == b
  {
    if Code(a) == Code(b) {
      ColorOfCode(a);
      ColorOfCode(b);
    }
  }

  /** The decimal value of a string of ASCII digits. */
  function DecimalValue(s: string): (n: nat)
    requires forall i :: 0 <= i < |s| ==> '0' <= s[i] <= '9'
  {
    if s == [] then 0
    else 10 * DecimalValue(s[..|s| - 1]) + (s[|s| - 1] as int - '0' as int)
  }

  /** The eight foreground colours of ECMA-48, section 8.3.117, in the order
      of their parameters 30 to 37. */
  const ECMA48_FOREGROUND: seq<string> :=
    ["black", "red", "green", "yellow", "blue", "magenta", "cyan", "white"]

  /** The name a colour carries in ECMA-48. */
  function Name(c: Color): string {
    match c
    case Red => "red"
    case Green => "green"
    case Blue => "blue"
    case Yellow => "yellow"
    case White => "white"
    case Magenta => "magenta"
  }

  /** Each parameter is the one ECMA-48 assigns to the colour of that name:
      30 plus the colour's position in the standard's foreground list. */
  lemma CodeFollowsEcma48(c: Color)
    ensures 30 < DecimalValue(Code(c)) <= 37
    ensures ECMA48_FOREGROUND[DecimalValue(Code(c)) - 30] == Name(c)
  {
    var s := Code(c);
    assert s[..1] == "3";
    assert DecimalValue(s[..1]) == 3 by {
      assert s[..1][..0] == [];
    }
  }
}
