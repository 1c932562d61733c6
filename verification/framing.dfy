/**
  Byte framing of the Kitty and iTerm graphics protocols (encode.go): the
  Kitty chunked transmission written by `chunkEncode`, and the single
  inline-file escape sequence of the iTerm encoder. Payloads are the
  base64 text the encoders produce, taken here as opaque strings.

  Each framer has a decoder beside it, so that the framing is shown to lose
  nothing: decoding what a framer wrote gives back its payload.
 */
module Framing {
  import opened Common

  const Esc: char := '\U{1B}'
  const Bel: char := '\U{07}'

  /** Kitty preamble: transmit and display (a=T) a PNG file (f=100), more to come (m=1). */
  const KittyPreamble: string := "\U{1B}_Ga=T,f=100,m=1;\U{1B}\\"

  /** Opening of a Kitty chunk frame, before its continuation flag. */
  const FrameOpen: string := "\U{1B}_Gm="

  /** String terminator closing every Kitty frame: ESC backslash. */
  const FrameClose: string := "\U{1B}\\"

  /** Chunk size the Kitty encoder passes to `chunkEncode`. */
  const KittyChunkSize: nat := 4096

  /** One Kitty chunk frame: the continuation flag (m=1 when true) and the chunk. */
  datatype Frame = Frame(more: bool, chunk: string)

  /** The text of one frame: `ESC _ G m=<0|1> ; <chunk> ESC \`. */
  function FrameText(f: Frame): (t: string)
    ensures |t| == |f.chunk| + 9
  {
    FrameOpen + (if f.more then "1" else "0") + ";" + f.chunk + FrameClose
  }

  /** The frames written one after the other; the text ends in a frame's closing backslash. */
  function Render(fs: seq<Frame>): (r: string)
    ensures fs != [] ==> |r| > 0 && r[|r| - 1] == '\\'
    ensures |r| == |Payload(fs)| + 9 * |fs|
  {
    if fs == [] then [] else FrameText(fs[0]) + Render(fs[1..])
  }

  /** The chunks of a frame list, concatenated in order. */
  function Payload(fs: seq<Frame>): string
  {
    if fs == [] then [] else fs[0].chunk + Payload(fs[1..])
  }

  /** Number of chunks of size `size` needed for `n` bytes: n/size rounded up. */
  function CeilDiv(n: nat, size: nat): nat
    requires size > 0
  {
    (n + size - 1) / size
  }

  /** Every frame but the last says more is coming; the last does not. */
  predicate WellFlagged(fs: seq<Frame>)
  {
    forall k :: 0 <= k < |fs| ==> (fs[k].more <==> k < |fs| - 1)
  }

  /**
    The frames `chunkEncode` writes after its preamble: chunks of `size`
    bytes cut from the front of the payload, the last holding what is left.
    The flag is set while the chunk ends before the payload does.
   */
  function ChunkFrames(buf: string, size: nat): (fs: seq<Frame>)
    requires size > 0
    ensures |fs| == 0 <==> |buf| == 0
    ensures Payload(fs) == buf
    ensures WellFlagged(fs)
    ensures forall k :: 0 <= k < |fs| - 1 ==> |fs[k].chunk| == size
    ensures |fs| > 0 ==> 0 < |fs[|fs| - 1].chunk| <= size
    decreases |buf|
  {
    if |buf| == 0 then []
    else if size < |buf| then
      var rest := ChunkFrames(buf[size..], size);
      var fs := [Frame(true, buf[..size])] + rest;
      assert fs[1..] == rest;
      assert Payload(fs) == buf by {
        assert buf == buf[..size] + buf[size..];
      }
      assert forall k :: 1 <= k < |fs| ==> fs[k] == rest[k - 1];
      fs
    else
      var fs := [Frame(false, buf)];
      assert fs[1..] == [];
      fs
  }

  /** `chunkEncode` writes ceil(n/size) frames after the preamble, none for an empty payload. */
  lemma ChunkCount(buf: string, size: nat)
    requires size > 0
    ensures |ChunkFrames(buf, size)| == CeilDiv(|buf|, size)
  {
    FramesByCutting(buf, size);
    CuttingCount(|buf|, size);
  }

  /** Windows cut off the front of `n` bytes, `size` at a time, until none are left. */
  function Cuts(n: nat, size: nat): nat
    requires size > 0
    decreases n
  {
    if n == 0 then 0 else if n <= size then 1 else 1 + Cuts(n - size, size)
  }

  lemma {:induction false} FramesByCutting(buf: string, size: nat)
    requires size > 0
    ensures |ChunkFrames(buf, size)| == Cuts(|buf|, size)
    decreases |buf|
  {
    if size < |buf| {
      FramesByCutting(buf[size..], size);
    }
  }

  lemma {:induction false} CuttingCount(n: nat, size: nat)
    requires size > 0
    ensures Cuts(n, size) == CeilDiv(n, size)
    decreases n
  {
    if size < n {
      CuttingCount(n - size, size);
      CeilDivStep(n, size);
    } else if n > 0 {
      DivPlusDivisor(n - 1, size);
      assert (n - 1) / size == 0;
    }
  }

  lemma CeilDivStep(n: nat, size: nat)
    requires 0 < size < n
    ensures CeilDiv(n, size) == CeilDiv(n - size, size) + 1
  {
    DivPlusDivisor(n - 1, size);
    assert n + size - 1 == (n - 1) + size;
  }

  lemma DivPlusDivisor(a: nat, b: nat)
    requires b > 0
    ensures (a + b) / b == a / b + 1
  {
    var q, r := a / b, a % b;
    var q', r' := (a + b) / b, (a + b) % b;
    assert a == q * b + r;
    assert a + b == q' * b + r';
    assert (q' - q - 1) * b == r - r' by {
      assert (q' - q - 1) * b == q' * b - q * b - b;
    }
    var d := q' - q - 1;
    if d > 0 {
      MulAtLeast(d, b);
    } else if d < 0 {
      MulAtLeast(-d, b);
    }
  }

  lemma MulAtLeast(d: int, b: int)
    requires d >= 1 && b >= 0
    ensures d * b >= b
  {
    assert d * b == (d - 1) * b + b;
  }

  /** The whole Kitty transmission for a payload: the preamble, then the chunk frames. */
  function KittyStream(buf: string, size: nat): (out: string)
    requires size > 0
    ensures |out| > 0 && out[|out| - 1] == '\\'
    ensures |out| >= |KittyPreamble| && out[..|KittyPreamble|] == KittyPreamble
  {
    KittyPreamble + Render(ChunkFrames(buf, size))
  }

  /**
    `chunkEncode`: the preamble, then one frame per window `buf[i..j]` of
    at most `size` bytes, flag 1 while `j` is short of the end. The Kitty
    encoder passes 4096; with size 0 the loop would not end.
   */
  method ChunkEncode(buf: string, size: nat) returns (out: string)
    requires size > 0
    ensures out == KittyStream(buf, size)
  {
    out := KittyPreamble;
    var n := |buf|;
    var i, j := 0, if size < n then size else n;
    while i < n
      invariant 0 <= i <= j <= n
      invariant j == if i + size < n then i + size else n
      invariant out + Render(ChunkFrames(buf[i..], size)) == KittyStream(buf, size)
      decreases n - i
    {
      var more := j < n;
      Advance(out, buf, size, i, j);
      out := out + FrameText(Frame(more, buf[i..j]));
      i, j := j, if j + size < n then j + size else n;
    }
    assert buf[i..] == [];
  }

  /** Writing the window `buf[i..j]` moves it from the frames to come to the text written. */
  lemma Advance(out: string, buf: string, size: nat, i: nat, j: nat)
    requires size > 0 && i < j <= |buf|
    requires j == if i + size < |buf| then i + size else |buf|
    ensures (out + FrameText(Frame(j < |buf|, buf[i..j]))) + Render(ChunkFrames(buf[j..], size)) ==
              out + Render(ChunkFrames(buf[i..], size))
  {
    FirstFrame(buf, size, i, j);
  }

  /** The window `buf[i..j]` the loop writes is the first of the frames still to come. */
  lemma FirstFrame(buf: string, size: nat, i: nat, j: nat)
    requires size > 0 && i < j <= |buf|
    requires j == if i + size < |buf| then i + size else |buf|
    ensures Render(ChunkFrames(buf[i..], size)) ==
              FrameText(Frame(j < |buf|, buf[i..j])) + Render(ChunkFrames(buf[j..], size))
  {
    var rest := buf[i..];
    assert rest[..j - i] == buf[i..j] && rest[j - i..] == buf[j..];
    var fs := ChunkFrames(rest, size);
    assert fs == [Frame(j < |buf|, buf[i..j])] + ChunkFrames(buf[j..], size);
    assert fs[1..] == ChunkFrames(buf[j..], size);
  }

  /** Position of the first ESC in `s`, or |s| when there is none. */
  function EscIndex(s: string): (k: nat)
    ensures k <= |s|
    ensures forall i :: 0 <= i < k ==> s[i] != Esc
    ensures k < |s| ==> s[k] == Esc
  {
    if s == [] || s[0] == Esc then 0 else 1 + EscIndex(s[1..])
  }

  predicate NoEsc(s: string)
  {
    forall i :: 0 <= i < |s| ==> s[i] != Esc
  }

  /** Read a sequence of Kitty frames that makes up the whole input; None if it is malformed. */
  function ParseFrames(s: string): Option<seq<Frame>>
    decreases |s|
  {
    if s == [] then Some([])
    else if |s| < 7 || s[..5] != FrameOpen || (s[5] != '0' && s[5] != '1') || s[6] != ';' then None
    else
      var body := s[7..];
      var k := EscIndex(body);
      if |body| < k + 2 || body[k..k + 2] != FrameClose then None
      else
        match ParseFrames(body[k + 2..])
        case None => None
        case Some(rest) => Some([Frame(s[5] == '1', body[..k])] + rest)
  }

  /**
    Decoder of a Kitty transmission: the preamble, then well-flagged frames;
    the result is the concatenated chunks.
   */
  function KittyDecode(s: string): Option<string>
  {
    if |s| < |KittyPreamble| || s[..|KittyPreamble|] != KittyPreamble then None
    else
      match ParseFrames(s[|KittyPreamble|..])
      case None => None
      case Some(fs) => if WellFlagged(fs) then Some(Payload(fs)) else None
  }

  /** The first ESC of a chunk followed by its frame's close is the close itself. */
  lemma EscIndexOfFrameTail(chunk: string, tail: string)
    requires NoEsc(chunk)
    ensures EscIndex(chunk + FrameClose + tail) == |chunk|
  {
    var s := chunk + FrameClose + tail;
    assert s[|chunk|] == Esc;
  }

  /** One frame in front of text the parser reads as `rest` is read as that frame, then `rest`. */
  lemma ParseOneFrame(f: Frame, tail: string, rest: seq<Frame>)
    requires NoEsc(f.chunk)
    requires ParseFrames(tail) == Some(rest)
    ensures ParseFrames(FrameText(f) + tail) == Some([f] + rest)
  {
    var s := FrameText(f) + tail;
    FrameHeader(f, tail);
    var body := s[7..];
    var k := |f.chunk|;
    EscIndexOfFrameTail(f.chunk, tail);
    FrameBody(f.chunk, tail);
    assert Frame(s[5] == '1', body[..k]) == f;
  }

  /** The fixed header of a frame: opening, flag digit, ';', then the rest. */
  lemma FrameHeader(f: Frame, tail: string)
    ensures var s := FrameText(f) + tail;
      |s| >= 7 && s[..5] == FrameOpen && s[5] == (if f.more then '1' else '0') && s[6] == ';' &&
      s[7..] == f.chunk + FrameClose + tail
  {
    var s := FrameText(f) + tail;
    var flag := if f.more then "1" else "0";
    assert s == FrameOpen + flag + ";" + (f.chunk + FrameClose + tail);
  }

  /** Cutting a frame body at the end of its chunk. */
  lemma FrameBody(chunk: string, tail: string)
    ensures var body := chunk + FrameClose + tail; var k := |chunk|;
      |body| >= k + 2 && body[..k] == chunk && body[k..k + 2] == FrameClose && body[k + 2..] == tail
  {
  }

  /** Frames whose chunks hold no ESC are read back exactly. */
  lemma {:induction false} ParseRender(fs: seq<Frame>)
    requires forall k :: 0 <= k < |fs| ==> NoEsc(fs[k].chunk)
    ensures ParseFrames(Render(fs)) == Some(fs)
  {
    if fs != [] {
      ParseRender(fs[1..]);
      ParseOneFrame(fs[0], Render(fs[1..]), fs[1..]);
      assert [fs[0]] + fs[1..] == fs;
    }
  }

  /** Every chunk of a payload with no ESC is ESC-free. */
  lemma {:induction false} ChunksNoEsc(buf: string, size: nat)
    requires size > 0 && NoEsc(buf)
    ensures forall k :: 0 <= k < |ChunkFrames(buf, size)| ==> NoEsc(ChunkFrames(buf, size)[k].chunk)
    decreases |buf|
  {
    var fs := ChunkFrames(buf, size);
    if size < |buf| {
      ChunksNoEsc(buf[size..], size);
      assert fs[1..] == ChunkFrames(buf[size..], size);
      forall k | 0 <= k < |fs|
        ensures NoEsc(fs[k].chunk)
      {
        if k > 0 {
          assert fs[k] == fs[1..][k - 1];
        }
      }
    }
  }

  /**
    Round trip of the Kitty framing: a payload free of ESC (base64 text
    always is) is recovered exactly from the transmission.
   */
  lemma KittyRoundTrip(buf: string, size: nat)
    requires size > 0 && NoEsc(buf)
    ensures KittyDecode(KittyStream(buf, size)) == Some(buf)
  {
    var fs := ChunkFrames(buf, size);
    var s := KittyStream(buf, size);
    ChunksNoEsc(buf, size);
    ParseRender(fs);
    assert s[..|KittyPreamble|] == KittyPreamble;
    assert s[|KittyPreamble|..] == Render(fs);
  }

  /** Opening of the iTerm inline-file sequence, `ESC ] 1337 ; File=inline=1 :`. */
  const ITermOpen: string := "\U{1B}]1337;File=inline=1:"

  /** The iTerm framing: the whole payload in one inline-file sequence ended by BEL. */
  function ITermWrap(payload: string): (out: string)
    ensures |out| == |ITermOpen| + |payload| + 1
    ensures out[..|ITermOpen|] == ITermOpen && out[|out| - 1] == Bel
  {
    ITermOpen + payload + [Bel]
  }

  /** Position of the first BEL in `s`, or |s| when there is none. */
  function BelIndex(s: string): (k: nat)
    ensures k <= |s|
    ensures forall i :: 0 <= i < k ==> s[i] != Bel
    ensures k < |s| ==> s[k] == Bel
  {
    if s == [] || s[0] == Bel then 0 else 1 + BelIndex(s[1..])
  }

  /** Decoder of one inline-file sequence: the text between the opening and the first BEL, which must end the input. */
  function ITermUnwrap(s: string): Option<string>
  {
    if |s| < |ITermOpen| || s[..|ITermOpen|] != ITermOpen then None
    else
      var body := s[|ITermOpen|..];
      var k := BelIndex(body);
      if k + 1 == |body| then Some(body[..k]) else None
  }

  /** Round trip of the iTerm framing, for payloads with no BEL (base64 text has none). */
  lemma ITermRoundTrip(payload: string)
    requires forall i :: 0 <= i < |payload| ==> payload[i] != Bel
    ensures ITermUnwrap(ITermWrap(payload)) == Some(payload)
  {
    var s := ITermWrap(payload);
    var body := s[|ITermOpen|..];
    assert body == payload + [Bel];
    var k := BelIndex(body);
    assert k == |payload|;
    assert body[..k] == payload;
  }
}
