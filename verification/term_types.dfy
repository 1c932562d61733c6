/**
  The terminal graphics type (`TermType`, an unsigned 8-bit number with five
  named values) and its text forms: `String`, `EnvValue`, `MarshalText` and
  `UnmarshalText` (rasterm.go).
 */
module TermTypes {
  import Common
  import Text

  /** Go's `TermType uint8`: every 8-bit value is a TermType, named or not. */
  newtype TermType = x: int | 0 <= x < 256

  const None: TermType := 0
  const Kitty: TermType := 1
  const ITerm: TermType := 2
  const Sixel: TermType := 3
  /** `^TermType(0)`: all bits set. */
  const Default: TermType := 255

  /** The five values the package names. */
  predicate IsNamed(t: TermType)
  {
    t == None || t == Kitty || t == ITerm || t == Sixel || t == Default
  }

  /** Name of a type; every unnamed number prints as "none", like None itself. */
  function String(t: TermType): (r: string)
    ensures r == "none" <==> t == None || !IsNamed(t)
  {
    if t == Kitty then "kitty"
    else if t == ITerm then "iterm"
    else if t == Sixel then "sixel"
    else if t == Default then "default"
    else "none"
  }

  /** Value of the override environment variable that selects `t`; Default selects by "". */
  function EnvValue(t: TermType): (r: string)
    ensures t == Default <==> r == ""
    ensures t != Default ==> r == String(t)
  {
    if t == Default then "" else String(t)
  }

  /**
    Text form of a type: the environment value for None, Kitty, ITerm and
    Sixel, empty text for Default, and `UnknownTermType` for every unnamed
    number.
   */
  function MarshalText(t: TermType): (r: Common.Result<string>)
    ensures r.Ok? <==> IsNamed(t)
    ensures r.Err? ==> r.error == Common.UnknownTermType
    ensures r.Ok? && t != Default ==> r.value == String(t)
  {
    if t == None || t == Kitty || t == ITerm || t == Sixel then Common.Ok(EnvValue(t))
    else if t == Default then Common.Ok([])
    else Common.Err(Common.UnknownTermType)
  }

  /**
    Parse the text form, ignoring case. It cannot fail: the empty text is
    Default, "kitty"/"iterm"/"sixel" in any case are their types, and any
    other text, "none" and "default" included, is None.
   */
  function UnmarshalText(buf: string): (t: TermType)
    ensures IsNamed(t)
    ensures t == Default <==> buf == []
    ensures t == Kitty <==> Text.Lower(buf) == "kitty"
    ensures t == ITerm <==> Text.Lower(buf) == "iterm"
    ensures t == Sixel <==> Text.Lower(buf) == "sixel"
    ensures t == None <==> buf != [] && Text.Lower(buf) !in {"kitty", "iterm", "sixel"}
  {
    var s := Text.Lower(buf);
    if s == "kitty" then Kitty
    else if s == "iterm" then ITerm
    else if s == "sixel" then Sixel
    else if s == "" then Default
    else None
  }

  /** Whatever `MarshalText` produces parses back to the value it came from. */
  lemma MarshalRoundTrip(t: TermType)
    requires IsNamed(t)
    ensures MarshalText(t).Ok? && UnmarshalText(MarshalText(t).value) == t
  {
    if t == None {
      ShortOrLongParsesToNone("none");
    } else if t == Kitty {
      LowerFixed("kitty");
    } else if t == ITerm {
      LowerFixed("iterm");
    } else if t == Sixel {
      LowerFixed("sixel");
    }
  }

  /** The printed name of Default does not parse back to Default but to None. */
  lemma DefaultNameParsesToNone()
    ensures UnmarshalText(String(Default)) == None
  {
    ShortOrLongParsesToNone(String(Default));
  }

  /** The three protocol names have five letters: any other non-empty length parses to None. */
  lemma ShortOrLongParsesToNone(buf: string)
    requires buf != [] && |buf| != 5
    ensures UnmarshalText(buf) == None
  {
  }

  /** A string of characters that are their own lower case is its own lower case. */
  lemma LowerFixed(s: string)
    requires forall i :: 0 <= i < |s| ==> Text.LowerChar(s[i]) == s[i]
    ensures Text.Lower(s) == s
  {
  }

  /** Parsing ignores case: upper-case spellings select the same type. */
  lemma UnmarshalIgnoresCase(buf: string)
    ensures UnmarshalText(buf) == UnmarshalText(Text.Lower(buf))
  {
    LowerIdempotent(buf);
  }

  lemma {:induction false} LowerIdempotent(s: string)
    ensures Text.Lower(Text.Lower(s)) == Text.Lower(s)
  {
    var l := Text.Lower(s);
    assert forall i :: 0 <= i < |l| ==> Text.LowerChar(l[i]) == l[i];
  }
}
