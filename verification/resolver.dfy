/**
  The default encoder of encode.go: it wraps an ordered list of encoders,
  picks the first available one on first use, records
  TermGraphicsNotAvailable when there is none, and keeps that outcome for
  every later call.

  `DefaultEncoder` guards the resolution with a `sync.Once`; here the state
  carries the guard's `ran` flag and every call returns the new state.
 */
module Resolver {
  import opened Common
  import opened Encoders

  /** A default encoder: its list, the once-guard, the chosen encoder and the recorded error. */
  datatype DefaultEncoder = DefaultEncoder(
    encoders: seq<Encoder>,
    ran: bool,
    chosen: Option<Encoder>,
    err: Option<Error>
  )

  /** `NewDefaultEncoder`: nothing resolved yet. */
  function NewDefaultEncoder(v: seq<Encoder>): (d: DefaultEncoder)
    ensures Fresh(d) && d.encoders == v
  {
    DefaultEncoder(v, false, None, None)
  }

  /** Not yet resolved. */
  predicate Fresh(d: DefaultEncoder)
  {
    !d.ran && d.chosen.None? && d.err.None?
  }

  /**
    The states a default encoder can be in: fresh, or resolved with exactly
    one of a chosen encoder from its list or the not-available error.
   */
  predicate Valid(d: DefaultEncoder)
  {
    Fresh(d) ||
    (d.ran &&
     (d.chosen.Some? <==> d.err.None?) &&
     (d.chosen.Some? ==> d.chosen.value in d.encoders) &&
     (d.err.Some? ==> d.err.value == TermGraphicsNotAvailable))
  }

  /** Position of the first available encoder of the list, if any. */
  function FirstAvailable(v: seq<Encoder>, w: World): (r: Option<nat>)
    ensures r.Some? ==> r.value < |v| && Available(v[r.value], w)
    ensures r.Some? ==> forall k :: 0 <= k < r.value ==> !Available(v[k], w)
    ensures r.None? ==> forall k :: 0 <= k < |v| ==> !Available(v[k], w)
  {
    if v == [] then None
    else if Available(v[0], w) then Some(0)
    else
      match FirstAvailable(v[1..], w)
      case None => None
      case Some(i) => Some(i + 1)
  }

  /**
    `init`: take the first available encoder; with none, and no encoder
    chosen before, record TermGraphicsNotAvailable.
   */
  function Init(d: DefaultEncoder, w: World): (r: DefaultEncoder)
    ensures r.encoders == d.encoders && r.ran == d.ran
    ensures r.chosen.Some? && d.chosen.None? ==>
              exists i :: 0 <= i < |d.encoders| && r.chosen.value == d.encoders[i] && Available(d.encoders[i], w)
  {
    match FirstAvailable(d.encoders, w)
    case Some(i) => d.(chosen := Some(d.encoders[i]))
    case None => if d.chosen.None? then d.(err := Some(TermGraphicsNotAvailable)) else d
  }

  /**
    `once.Do(init)`: the first call resolves, every later call leaves the
    state as it is. From a fresh state the choice is the first available
    encoder of the list, and the error is recorded exactly when none is.
   */
  function Resolve(d: DefaultEncoder, w: World): (r: DefaultEncoder)
    requires Valid(d)
    ensures Valid(r) && r.ran && r.encoders == d.encoders
    ensures d.ran ==> r == d
    ensures !d.ran ==> (r.err == Some(TermGraphicsNotAvailable) <==>
                         forall k :: 0 <= k < |d.encoders| ==> !Available(d.encoders[k], w))
    ensures !d.ran && r.chosen.Some? ==>
              exists i :: 0 <= i < |d.encoders| && r.chosen.value == d.encoders[i] &&
                          Available(d.encoders[i], w) &&
                          forall k :: 0 <= k < i ==> !Available(d.encoders[k], w)
  {
    if d.ran then d else Init(d, w).(ran := true)
  }

  /** `Available` of the default encoder: true exactly when an encoder was chosen. */
  function AvailableCall(d: DefaultEncoder, w: World): (r: (DefaultEncoder, bool))
    requires Valid(d)
    ensures r.0 == Resolve(d, w)
    ensures r.1 <==> r.0.chosen.Some?
    ensures !r.1 <==> r.0.err == Some(TermGraphicsNotAvailable)
  {
    var d' := Resolve(d, w);
    (d', d'.chosen.Some? && d'.err.None?)
  }

  /**
    `Encode` of the default encoder: the recorded error, without writing
    anything, when no encoder was chosen; otherwise the chosen encoder's
    output.
   */
  function EncodeCall(d: DefaultEncoder, w: World, img: Image): (r: (DefaultEncoder, Emission))
    requires Valid(d)
    ensures r.0 == Resolve(d, w)
    ensures r.0.chosen.None? ==> r.1 == Emission([], Some(TermGraphicsNotAvailable))
    ensures r.0.chosen.Some? ==> r.1 == Encode(r.0.chosen.value, img)
  {
    var d' := Resolve(d, w);
    if d'.err.Some? then (d', Emission([], d'.err))
    else if d'.chosen.Some? then (d', Encode(d'.chosen.value, img))
    else (d', Emission([], Some(TermGraphicsNotAvailable)))
  }

  /** Answers of successive `Available` calls, each made in its own world. */
  function AvailableCalls(d: DefaultEncoder, ws: seq<World>): (r: (DefaultEncoder, seq<bool>))
    requires Valid(d)
    ensures Valid(r.0) && |r.1| == |ws|
    decreases |ws|
  {
    if ws == [] then (d, [])
    else
      var (d1, b) := AvailableCall(d, ws[0]);
      var (d2, bs) := AvailableCalls(d1, ws[1..]);
      (d2, [b] + bs)
  }

  /**
    Resolution runs at most once: however many `Available` calls follow,
    in whatever worlds, the state stays the one the first call produced and
    every call gives the first call's answer.
   */
  lemma {:induction false} ResolvedOnce(d: DefaultEncoder, ws: seq<World>)
    requires Valid(d) && |ws| > 0
    ensures AvailableCalls(d, ws).0 == Resolve(d, ws[0])
    ensures forall k :: 0 <= k < |ws| ==> AvailableCalls(d, ws).1[k] == AvailableCall(d, ws[0]).1
    decreases |ws|
  {
    var d1 := Resolve(d, ws[0]);
    if |ws| > 1 {
      ResolvedOnce(d1, ws[1..]);
      assert Resolve(d1, ws[1]) == d1;
      var bs := AvailableCalls(d1, ws[1..]).1;
      assert AvailableCalls(d, ws).1 == [AvailableCall(d, ws[0]).1] + bs;
    }
  }

  /** Once resolved, `Encode` gives the same outcome in every world. */
  lemma EncodeAfterResolve(d: DefaultEncoder, w1: World, w2: World, img: Image)
    requires Valid(d) && d.ran
    ensures EncodeCall(d, w1, img) == EncodeCall(d, w2, img)
  {
  }
}
