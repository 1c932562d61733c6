/**
  Interpretation of a terminal's reply to the Primary Device Attributes
  query (`CSI Ps c`, section 8.3.24 of ECMA-48): the reply is cut into
  maximal runs of decimal digits, each run becomes a number, and Sixel
  graphics are reported when the number 4 appears after the first
  (terminal identifier) position (term_unix.go).
 */
module DeviceAttributes {
  import opened Common

  /** An ASCII decimal digit; Go's `\d` matches only these. */
  predicate IsDigit(b: byte)
  {
    '0' as byte <= b <= '9' as byte
  }

  predicate AllDigits(s: seq<byte>)
  {
    forall i :: 0 <= i < |s| ==> IsDigit(s[i])
  }

  predicate NoDigits(s: seq<byte>)
  {
    forall i :: 0 <= i < |s| ==> !IsDigit(s[i])
  }

  /** Length of the run of digits that starts the input. */
  function DigitPrefix(s: seq<byte>): (k: nat)
    ensures k <= |s|
    ensures AllDigits(s[..k])
    ensures k == |s| || !IsDigit(s[k])
  {
    if s == [] || !IsDigit(s[0]) then 0
    else
      var k := 1 + DigitPrefix(s[1..]);
      assert s[..k] == [s[0]] + s[1..][..k - 1];
      k
  }

  /**
    The text between and around the runs interleaved with the runs:
    `gaps[0] + runs[0] + gaps[1] + runs[1] + ... + runs[n-1] + gaps[n]`.
   */
  function Weave(gaps: seq<seq<byte>>, runs: seq<seq<byte>>): seq<byte>
    requires |gaps| == |runs| + 1
  {
    gaps[0] + (if runs == [] then [] else runs[0] + Weave(gaps[1..], runs[1..]))
  }

  /**
    `runs` are the maximal digit runs of `s`, in order, and `gaps` the text
    around them: the pieces rebuild `s`, every run is a non-empty string of
    digits, no gap holds a digit, and two neighbouring runs are separated by
    at least one non-digit.
   */
  ghost predicate MaximalRuns(s: seq<byte>, gaps: seq<seq<byte>>, runs: seq<seq<byte>>)
  {
    && |gaps| == |runs| + 1
    && Weave(gaps, runs) == s
    && (forall i :: 0 <= i < |runs| ==> |runs[i]| > 0 && AllDigits(runs[i]))
    && (forall i :: 0 <= i < |gaps| ==> NoDigits(gaps[i]))
    && (forall i :: 0 < i < |runs| ==> |gaps[i]| > 0)
  }

  /** Runs of digits paired with the text around them; the runs are what `\d+` finds. */
  datatype Split = Split(gaps: seq<seq<byte>>, runs: seq<seq<byte>>)

  /** Cut a reply into maximal digit runs and the non-digit text around them. */
  function Scan(s: seq<byte>): (r: Split)
    ensures MaximalRuns(s, r.gaps, r.runs)
    ensures s != [] && !IsDigit(s[0]) ==> |r.gaps[0]| > 0
    decreases |s|
  {
    if s == [] then Split([[]], [])
    else if !IsDigit(s[0]) then
      var rest := Scan(s[1..]);
      ExtendGap(s, rest);
      Split([[s[0]] + rest.gaps[0]] + rest.gaps[1..], rest.runs)
    else
      var k := DigitPrefix(s);
      var rest := Scan(s[k..]);
      PrependRun(s, k, rest);
      Split([[]] + rest.gaps, [s[..k]] + rest.runs)
  }

  /** A leading non-digit joins the first gap. */
  lemma ExtendGap(s: seq<byte>, rest: Split)
    requires s != [] && !IsDigit(s[0])
    requires MaximalRuns(s[1..], rest.gaps, rest.runs)
    ensures MaximalRuns(s, [[s[0]] + rest.gaps[0]] + rest.gaps[1..], rest.runs)
  {
    var g0 := [s[0]] + rest.gaps[0];
    var gaps := [g0] + rest.gaps[1..];
    assert forall i :: 0 < i < |g0| ==> g0[i] == rest.gaps[0][i - 1];
    assert forall i :: 0 < i < |gaps| ==> gaps[i] == rest.gaps[i];
    assert gaps[1..] == rest.gaps[1..];
    assert s == [s[0]] + s[1..];
  }

  /** A leading maximal run becomes the first run, after an empty gap. */
  lemma PrependRun(s: seq<byte>, k: nat, rest: Split)
    requires 0 < k <= |s| && AllDigits(s[..k]) && (k == |s| || !IsDigit(s[k]))
    requires MaximalRuns(s[k..], rest.gaps, rest.runs)
    requires s[k..] != [] && !IsDigit(s[k..][0]) ==> |rest.gaps[0]| > 0
    ensures MaximalRuns(s, [[]] + rest.gaps, [s[..k]] + rest.runs)
  {
    if rest.runs != [] {
      assert |Weave(rest.gaps, rest.runs)| >= |rest.runs[0]|;
    }
    MaximalRunsCons([], s[..k], s[k..], rest.gaps, rest.runs);
    assert [] + (s[..k] + s[k..]) == s;
  }

  /** A gap and a run put in front of a decomposition, kept apart from its next run. */
  lemma MaximalRunsCons(g: seq<byte>, r: seq<byte>, t: seq<byte>, gaps: seq<seq<byte>>, runs: seq<seq<byte>>)
    requires NoDigits(g) && |r| > 0 && AllDigits(r)
    requires MaximalRuns(t, gaps, runs)
    requires runs != [] ==> |gaps[0]| > 0
    ensures MaximalRuns(g + (r + t), [g] + gaps, [r] + runs)
  {
    var gs := [g] + gaps;
    var rs := [r] + runs;
    assert gs[1..] == gaps && rs[1..] == runs;
    forall i | 0 < i < |rs|
      ensures |rs[i]| > 0 && AllDigits(rs[i])
    {
      assert rs[i] == runs[i - 1];
    }
    forall i | 0 < i < |gs|
      ensures NoDigits(gs[i])
    {
      assert gs[i] == gaps[i - 1];
    }
    forall i | 0 < i < |rs|
      ensures |gs[i]| > 0
    {
      assert gs[i] == gaps[i - 1];
    }
  }

  /** The maximal digit runs of a reply, in order: `numRE.FindAll(text, -1)`. */
  function DigitRuns(s: seq<byte>): (runs: seq<seq<byte>>)
    ensures forall i :: 0 <= i < |runs| ==> |runs[i]| > 0 && AllDigits(runs[i])
    ensures exists gaps :: MaximalRuns(s, gaps, runs)
  {
    Scan(s).runs
  }

  /** Dropping leading non-digits does not change the runs found. */
  lemma {:induction false} RunsSkipGap(g: seq<byte>, t: seq<byte>)
    requires NoDigits(g)
    ensures Scan(g + t).runs == Scan(t).runs
    decreases |g|
  {
    if g != [] {
      assert (g + t)[0] == g[0];
      assert (g + t)[1..] == g[1..] + t;
      RunsSkipGap(g[1..], t);
    } else {
      assert g + t == t;
    }
  }

  /** A run followed by the end or by a non-digit is found whole. */
  lemma {:induction false} RunsTakeRun(r: seq<byte>, t: seq<byte>)
    requires |r| > 0 && AllDigits(r)
    requires t == [] || !IsDigit(t[0])
    ensures Scan(r + t).runs == [r] + Scan(t).runs
  {
    var s := r + t;
    DigitPrefixOfRun(r, t);
    assert s[..|r|] == r && s[|r|..] == t;
  }

  lemma {:induction false} DigitPrefixOfRun(r: seq<byte>, t: seq<byte>)
    requires AllDigits(r)
    requires t == [] || !IsDigit(t[0])
    ensures DigitPrefix(r + t) == |r|
    decreases |r|
  {
    if r == [] {
      assert r + t == t;
    } else {
      assert (r + t)[1..] == r[1..] + t;
      DigitPrefixOfRun(r[1..], t);
    }
  }

  /**
    The decomposition into maximal runs is unique: any cut of `s` into
    digit runs and digit-free gaps, with neighbouring runs kept apart, has
    exactly the runs `DigitRuns` finds.
   */
  lemma {:induction false} MaximalRunsUnique(s: seq<byte>, gaps: seq<seq<byte>>, runs: seq<seq<byte>>)
    requires MaximalRuns(s, gaps, runs)
    ensures DigitRuns(s) == runs
    decreases |runs|
  {
    if runs == [] {
      assert s == gaps[0] + [];
      RunsSkipGap(gaps[0], []);
    } else {
      var t := Weave(gaps[1..], runs[1..]);
      MaximalRunsTail(s, gaps, runs);
      MaximalRunsUnique(t, gaps[1..], runs[1..]);
      RunsSkipGap(gaps[0], runs[0] + t);
      RunsTakeRun(runs[0], t);
    }
  }

  /** Parameters of a reply, separated by ';'. */
  function JoinParams(ps: seq<seq<byte>>): seq<byte>
    requires |ps| > 0
    decreases |ps|
  {
    if |ps| == 1 then ps[0] else ps[0] + [';' as byte] + JoinParams(ps[1..])
  }

  /**
    A reply of the usual shape, an introducer without digits, non-empty
    decimal parameters separated by ';' and a final part without digits,
    has exactly its parameters as digit runs.
   */
  lemma ReplyRuns(intro: seq<byte>, ps: seq<seq<byte>>, final: seq<byte>)
    requires NoDigits(intro) && NoDigits(final)
    requires |ps| > 0 && forall i :: 0 <= i < |ps| ==> |ps[i]| > 0 && AllDigits(ps[i])
    ensures DigitRuns(intro + JoinParams(ps) + final) == ps
  {
    ParamsRuns(ps, final);
    assert intro + JoinParams(ps) + final == intro + (JoinParams(ps) + final);
    RunsSkipGap(intro, JoinParams(ps) + final);
  }

  lemma {:induction false} ParamsRuns(ps: seq<seq<byte>>, final: seq<byte>)
    requires NoDigits(final)
    requires |ps| > 0 && forall i :: 0 <= i < |ps| ==> |ps[i]| > 0 && AllDigits(ps[i])
    ensures DigitRuns(JoinParams(ps) + final) == ps
    decreases |ps|
  {
    if |ps| == 1 {
      LastParam(ps[0], final);
      assert ps == [ps[0]];
    } else {
      var rest := ps[1..];
      var t := JoinParams(rest) + final;
      assert forall i :: 0 <= i < |rest| ==> rest[i] == ps[i + 1];
      ParamsRuns(rest, final);
      JoinFirst(ps, final);
      ParamStep(ps[0], t);
      assert ps == [ps[0]] + rest;
    }
  }

  /** The last parameter is the last run. */
  lemma LastParam(p: seq<byte>, final: seq<byte>)
    requires |p| > 0 && AllDigits(p) && NoDigits(final)
    ensures DigitRuns(p + final) == [p]
  {
    assert final + [] == final;
    RunsSkipGap(final, []);
    RunsTakeRun(p, final);
  }

  /** A parameter followed by ';' is the first run. */
  lemma ParamStep(p: seq<byte>, t: seq<byte>)
    requires |p| > 0 && AllDigits(p)
    ensures DigitRuns(p + ([';' as byte] + t)) == [p] + DigitRuns(t)
  {
    RunsSkipGap([';' as byte], t);
    RunsTakeRun(p, [';' as byte] + t);
  }

  lemma JoinFirst(ps: seq<seq<byte>>, final: seq<byte>)
    requires |ps| > 1
    ensures JoinParams(ps) + final == ps[0] + ([';' as byte] + (JoinParams(ps[1..]) + final))
  {
  }

  /** Peeling the first gap and run off a maximal decomposition leaves one of the rest. */
  lemma MaximalRunsTail(s: seq<byte>, gaps: seq<seq<byte>>, runs: seq<seq<byte>>)
    requires MaximalRuns(s, gaps, runs) && runs != []
    ensures MaximalRuns(Weave(gaps[1..], runs[1..]), gaps[1..], runs[1..])
    ensures s == gaps[0] + (runs[0] + Weave(gaps[1..], runs[1..]))
    ensures var t := Weave(gaps[1..], runs[1..]); t == [] || !IsDigit(t[0])
  {
    var t := Weave(gaps[1..], runs[1..]);
    assert forall i :: 0 <= i < |runs[1..]| ==> runs[1..][i] == runs[i + 1];
    assert forall i :: 0 <= i < |gaps[1..]| ==> gaps[1..][i] == gaps[i + 1];
    if |gaps[1]| > 0 {
      assert t[0] == gaps[1][0];
    } else {
      assert runs[1..] == [];
      assert t == gaps[1] + [];
    }
  }

  /** Largest value of Go's `int` on a 64-bit platform. */
  const MaxInt: nat := 0x7FFF_FFFF_FFFF_FFFF

  /** Decimal value of a digit string, most significant digit first. */
  function DecimalValue(s: seq<byte>): nat
    requires AllDigits(s)
  {
    if s == [] then 0
    else DecimalValue(s[..|s| - 1]) * 10 + (s[|s| - 1] - '0' as byte) as nat
  }

  /**
    `strconv.Atoi` on a digit run: its decimal value, or MaxInt when that
    does not fit (Atoi then also returns a range error, which is ignored).
   */
  function AtoiValue(s: seq<byte>): (v: nat)
    requires AllDigits(s)
    ensures v <= MaxInt
    ensures DecimalValue(s) <= MaxInt ==> v == DecimalValue(s)
    ensures DecimalValue(s) > MaxInt ==> v == MaxInt
  {
    if DecimalValue(s) <= MaxInt then DecimalValue(s) else MaxInt
  }

  /** The attribute list of a reply: one number per maximal digit run, in order. */
  function Attributes(text: seq<byte>): (attrs: seq<nat>)
    ensures |attrs| == |DigitRuns(text)|
    ensures forall i :: 0 <= i < |attrs| ==> attrs[i] == AtoiValue(DigitRuns(text)[i])
    ensures forall i :: 0 <= i < |attrs| ==> attrs[i] <= MaxInt
  {
    var runs := DigitRuns(text);
    seq(|runs|, i requires 0 <= i < |runs| => AtoiValue(runs[i]))
  }

  /** The attribute list reports Sixel graphics: a 4 at some position after the first. */
  predicate ReportsSixel(attrs: seq<nat>)
  {
    exists i :: 0 < i < |attrs| && attrs[i] == 4
  }

  /** The scan of `hasSixelSupport` over a parsed attribute list. */
  method ScanForSixel(attrs: seq<nat>) returns (found: bool)
    ensures found <==> ReportsSixel(attrs)
    ensures found ==> |attrs| >= 2
  {
    for i := 0 to |attrs|
      invariant forall k :: 0 <= k < i ==> !(0 < k && attrs[k] == 4)
    {
      // position 0 holds the terminal identifier, not a feature
      if 0 < i && attrs[i] == 4 {
        return true;
      }
    }
    return false;
  }

  /** A 4 in the terminal identifier position alone does not report Sixel. */
  lemma IdentifierFourIgnored(rest: seq<nat>)
    requires forall i :: 0 <= i < |rest| ==> rest[i] != 4
    ensures !ReportsSixel([4] + rest)
  {
    var a := [4] + rest;
    forall i | 0 < i < |a|
      ensures a[i] != 4
    {
      assert a[i] == rest[i - 1];
    }
  }
}
