/**
  The three protocol encoders of encode.go: when each is available (the
  override variable and the terminal identifiers, plus the terminal probe
  for Sixel) and what each writes for an image.

  Environment variables are passed in as an `Env`; the external image
  codecs are represented by their outcomes on the image (`Image`).
 */
module Encoders {
  import opened Common
  import Text
  import Framing
  import TermQuery

  /**
    The environment values the encoders consult: TERM_GRAPHICS (the
    override), TERM, TERM_PROGRAM and LC_TERMINAL. An unset variable is "".
   */
  datatype Env = Env(termGraphics: string, term: string, termProgram: string, lcTerminal: string)

  /** Everything availability depends on: the environment and the terminal's answers. */
  datatype World = World(env: Env, tty: TermQuery.TtyWorld)

  /** `hasTermGraphics`: the lower-cased override names `typ`. */
  predicate HasTermGraphics(env: Env, typ: string): (b: bool)
    ensures b ==> |env.termGraphics| == |typ|
    ensures b <==> |env.termGraphics| == |typ| &&
                   forall i :: 0 <= i < |typ| ==> Text.LowerChar(env.termGraphics[i]) == typ[i]
  {
    typ == Text.Lower(env.termGraphics)
  }

  /** The override disables graphics altogether. */
  predicate OverrideNone(env: Env)
  {
    HasTermGraphics(env, "none")
  }

  /**
    Kitty is available unless the override is "none", and then when the
    override is "kitty", TERM is xterm-kitty or TERM_PROGRAM is ghostty
    (both compared ignoring case).
   */
  function KittyAvailable(env: Env): (b: bool)
    ensures OverrideNone(env) ==> !b
    ensures HasTermGraphics(env, "kitty") ==> b
    ensures b && !HasTermGraphics(env, "kitty") ==>
              Text.Lower(env.term) == "xterm-kitty" || Text.Lower(env.termProgram) == "ghostty"
    ensures (!OverrideNone(env) &&
             (Text.Lower(env.term) == "xterm-kitty" || Text.Lower(env.termProgram) == "ghostty")) ==> b
  {
    !HasTermGraphics(env, "none") &&
    (HasTermGraphics(env, "kitty") ||
     Text.Lower(env.term) == "xterm-kitty" ||
     Text.Lower(env.termProgram) == "ghostty")
  }

  /**
    iTerm is available unless the override is "none", and then when the
    override is "iterm", TERM is mintty, LC_TERMINAL is iterm2 or
    TERM_PROGRAM is wezterm (ignoring case).
   */
  function ITermAvailable(env: Env): (b: bool)
    ensures OverrideNone(env) ==> !b
    ensures HasTermGraphics(env, "iterm") ==> b
    ensures b && !HasTermGraphics(env, "iterm") ==>
              Text.Lower(env.term) == "mintty" || Text.Lower(env.lcTerminal) == "iterm2" ||
              Text.Lower(env.termProgram) == "wezterm"
    ensures (!OverrideNone(env) &&
             (Text.Lower(env.term) == "mintty" || Text.Lower(env.lcTerminal) == "iterm2" ||
              Text.Lower(env.termProgram) == "wezterm")) ==> b
  {
    !HasTermGraphics(env, "none") &&
    (HasTermGraphics(env, "iterm") ||
     Text.Lower(env.term) == "mintty" ||
     Text.Lower(env.lcTerminal) == "iterm2" ||
     Text.Lower(env.termProgram) == "wezterm")
  }

  /**
    The terminal is probed for Sixel only when the override is neither
    "none" nor "sixel": the `&&` and `||` of `SixelEncoder.Available` skip the probe otherwise.
   */
  predicate SixelProbes(env: Env)
  {
    !HasTermGraphics(env, "none") && !HasTermGraphics(env, "sixel")
  }

  /**
    Sixel is available unless the override is "none", and then when the
    override is "sixel" or the terminal reports Sixel graphics.
   */
  function SixelAvailable(w: World): (b: bool)
    ensures OverrideNone(w.env) ==> !b
    ensures HasTermGraphics(w.env, "sixel") ==> b
    ensures SixelProbes(w.env) ==> (b <==> TermQuery.HasSixelSupport(w.tty))
  {
    !HasTermGraphics(w.env, "none") &&
    (HasTermGraphics(w.env, "sixel") || TermQuery.HasSixelSupport(w.tty))
  }

  /** The three encoders, each with its NoNewline option. */
  datatype Encoder =
    | KittyEncoder(noNewline: bool)
    | ITermEncoder(noNewline: bool)
    | SixelEncoder(noNewline: bool)

  /** `Available` of an encoder. */
  function Available(e: Encoder, w: World): (b: bool)
    ensures OverrideNone(w.env) ==> !b
    ensures e.SixelEncoder? && SixelProbes(w.env) ==> (b <==> TermQuery.HasSixelSupport(w.tty))
  {
    match e
    case KittyEncoder(_) => KittyAvailable(w.env)
    case ITermEncoder(_) => ITermAvailable(w.env)
    case SixelEncoder(_) => SixelAvailable(w)
  }

  /**
    Only a Sixel encoder whose override leaves the question open consults
    the terminal: in every other case two worlds that differ only in the
    terminal give the same answer.
   */
  lemma AvailableWithoutProbe(e: Encoder, env: Env, t1: TermQuery.TtyWorld, t2: TermQuery.TtyWorld)
    requires !(e.SixelEncoder? && SixelProbes(env))
    ensures Available(e, World(env, t1)) == Available(e, World(env, t2))
  {
  }

  /**
    Override precedence: an override of "none" or of a protocol's own name
    decides that protocol's availability whatever the other variables and
    the terminal say.
   */
  lemma OverrideDecides(e: Encoder, w1: World, w2: World)
    requires w1.env.termGraphics == w2.env.termGraphics
    requires OverrideNone(w1.env) ||
             (e.KittyEncoder? && HasTermGraphics(w1.env, "kitty")) ||
             (e.ITermEncoder? && HasTermGraphics(w1.env, "iterm")) ||
             (e.SixelEncoder? && HasTermGraphics(w1.env, "sixel"))
    ensures Available(e, w1) == Available(e, w2)
    ensures Available(e, w1) == !OverrideNone(w1.env)
  {
  }

  /**
    What the external codecs make of one image: whether it is paletted, the
    base64 text of its PNG and of its JPEG encoding (at quality
    DefaultJPEGQuality), and the Sixel codec's output; each may be an error.
   */
  datatype Image = Image(paletted: bool, png: Result<string>, jpeg: Result<string>, sixel: Result<string>)

  /** JPEG quality the iTerm encoder asks for. */
  const DefaultJPEGQuality: nat := 93

  /** What an encoder wrote and the error it returned. */
  datatype Emission = Emission(output: string, err: Option<Error>)

  /** The line ending written after an image unless NoNewline is set. */
  function Newline(noNewline: bool): string
  {
    if noNewline then "" else "\n"
  }

  /** The output without the line ending the encoder may have added. */
  function StripNewline(s: string): string
  {
    if |s| > 0 && s[|s| - 1] == '\n' then s[..|s| - 1] else s
  }

  /** The encoded image the iTerm encoder sends: PNG for a paletted image, JPEG otherwise. */
  function ITermPayload(img: Image): (r: Result<string>)
    ensures img.paletted ==> r == img.png
    ensures !img.paletted ==> r == img.jpeg
  {
    if img.paletted then img.png else img.jpeg
  }

  /**
    `Encode` of an encoder. A codec error is returned before anything is
    written. Otherwise Kitty sends the PNG text in 4096-byte chunks, iTerm
    sends its payload in one inline-file sequence, and Sixel passes the
    codec's output through; each then ends the line unless NoNewline is set.
   */
  function Encode(e: Encoder, img: Image): (r: Emission)
    ensures r.err.Some? ==> r.output == []
    ensures e.KittyEncoder? ==> (r.err.None? <==> img.png.Ok?)
    ensures e.ITermEncoder? ==> (r.err.None? <==> ITermPayload(img).Ok?)
    ensures e.SixelEncoder? ==> (r.err.None? <==> img.sixel.Ok?)
    ensures r.err.None? && !e.noNewline ==> |r.output| > 0 && r.output[|r.output| - 1] == '\n'
    ensures r.err.Some? ==>
              r.err.value == (match e
                              case KittyEncoder(_) => img.png.error
                              case ITermEncoder(_) => ITermPayload(img).error
                              case SixelEncoder(_) => img.sixel.error)
    ensures r.err.None? && e.KittyEncoder? ==>
              r.output == Framing.KittyStream(img.png.value, Framing.KittyChunkSize) + Newline(e.noNewline)
    ensures r.err.None? && e.ITermEncoder? ==>
              r.output == Framing.ITermWrap(ITermPayload(img).value) + Newline(e.noNewline)
    ensures r.err.None? && e.SixelEncoder? ==> r.output == img.sixel.value + Newline(e.noNewline)
    ensures r.err.None? && e.noNewline && !e.SixelEncoder? ==>
              |r.output| > 0 && r.output[|r.output| - 1] in {'\\', Framing.Bel}
  {
    match e
    case KittyEncoder(nn) =>
      (match img.png
       case Err(x) => Emission([], Some(x))
       case Ok(p) =>
         Emission(Framing.KittyStream(p, Framing.KittyChunkSize) + Newline(nn), None))
    case ITermEncoder(nn) =>
      (match ITermPayload(img)
       case Err(x) => Emission([], Some(x))
       case Ok(p) =>
         Emission(Framing.ITermWrap(p) + Newline(nn), None))
    case SixelEncoder(nn) =>
      (match img.sixel
       case Err(x) => Emission([], Some(x))
       case Ok(o) => Emission(o + Newline(nn), None))
  }

  /**
    Round trip through a whole encoder: with the optional line ending
    removed, the Kitty and iTerm decoders recover the encoded image text
    (base64 text holds neither ESC nor BEL).
   */
  lemma EncodeRoundTrip(e: Encoder, img: Image)
    requires !e.SixelEncoder?
    requires e.KittyEncoder? ==> img.png.Ok? && Framing.NoEsc(img.png.value)
    requires e.ITermEncoder? ==> ITermPayload(img).Ok? && Framing.Bel !in ITermPayload(img).value
    ensures e.KittyEncoder? ==> Framing.KittyDecode(StripNewline(Encode(e, img).output)) == Some(img.png.value)
    ensures e.ITermEncoder? ==>
              Framing.ITermUnwrap(StripNewline(Encode(e, img).output)) == Some(ITermPayload(img).value)
  {
    if e.KittyEncoder? {
      var p := img.png.value;
      var s := Framing.KittyStream(p, Framing.KittyChunkSize);
      StripFramed(s, e.noNewline);
      Framing.KittyRoundTrip(p, Framing.KittyChunkSize);
    } else {
      var p := ITermPayload(img).value;
      StripFramed(Framing.ITermWrap(p), e.noNewline);
      Framing.ITermRoundTrip(p);
    }
  }

  /** Stripping the line ending gives back the framed text, which never ends in one itself. */
  lemma StripFramed(s: string, noNewline: bool)
    requires |s| > 0 && s[|s| - 1] != '\n'
    ensures StripNewline(s + Newline(noNewline)) == s
  {
    if !noNewline {
      assert (s + "\n")[..|s|] == s;
    }
  }
}
