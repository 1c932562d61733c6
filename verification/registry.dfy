/**
  The package's encoder registry (rasterm.go): Kitty, ITerm and Sixel map
  to their encoders and Default to a default encoder over all three in
  that order; `TermType.Available` and `TermType.Encode` dispatch through
  it, and the package-level `Available` and `Encode` use Default.

  The only state is the default encoder's resolution, carried in a
  `Registry` value that each call returns updated.
 */
module Registry {
  import opened Common
  import opened TermTypes
  import opened Encoders
  import opened Resolver

  /** Priority order of the default encoder: Kitty, then iTerm, then Sixel. */
  const DefaultOrder: seq<Encoder> := [KittyEncoder(false), ITermEncoder(false), SixelEncoder(false)]

  /** A registry entry: one protocol encoder, or the default encoder. */
  datatype Entry = Single(encoder: Encoder) | Composite

  /** `encoders[typ]`: which entry a type has, if any. */
  function Lookup(t: TermType): (r: Option<Entry>)
    ensures r.Some? <==> t == Kitty || t == ITerm || t == Sixel || t == Default
    ensures r == Some(Composite) <==> t == Default
    ensures t == Kitty ==> r == Some(Single(DefaultOrder[0]))
    ensures t == ITerm ==> r == Some(Single(DefaultOrder[1]))
    ensures t == Sixel ==> r == Some(Single(DefaultOrder[2]))
  {
    if t == Kitty then Some(Single(KittyEncoder(false)))
    else if t == ITerm then Some(Single(ITermEncoder(false)))
    else if t == Sixel then Some(Single(SixelEncoder(false)))
    else if t == Default then Some(Composite)
    else None
  }

  /** Package state: the default encoder's resolution. */
  datatype Registry = Registry(default: DefaultEncoder)

  predicate ValidRegistry(reg: Registry)
  {
    Valid(reg.default) && reg.default.encoders == DefaultOrder
  }

  /** The registry as the package's `init` builds it. */
  function InitialRegistry(): (reg: Registry)
    ensures ValidRegistry(reg) && Fresh(reg.default)
  {
    Registry(NewDefaultEncoder(DefaultOrder))
  }

  /**
    `TermType.Available`: false for a type with no entry (None and every
    unnamed number); a protocol encoder answers directly, without touching
    the resolution; Default answers through the memoised resolution.
   */
  function TypeAvailable(t: TermType, reg: Registry, w: World): (r: (Registry, bool))
    requires ValidRegistry(reg)
    ensures ValidRegistry(r.0)
    ensures Lookup(t).None? ==> !r.1 && r.0 == reg
    ensures Lookup(t).Some? && Lookup(t).value.Single? ==>
              r.0 == reg && r.1 == Available(Lookup(t).value.encoder, w)
    ensures t == Default ==> r.0.default == Resolve(reg.default, w) && (r.1 <==> r.0.default.chosen.Some?)
  {
    match Lookup(t)
    case None => (reg, false)
    case Some(Single(e)) => (reg, Available(e, w))
    case Some(Composite) =>
      var (d, b) := AvailableCall(reg.default, w);
      (Registry(d), b)
  }

  /**
    `TermType.Encode`: TermGraphicsNotAvailable, with nothing written, for
    a type with no entry; otherwise the entry's encoder.
   */
  function TypeEncode(t: TermType, reg: Registry, w: World, img: Image): (r: (Registry, Emission))
    requires ValidRegistry(reg)
    ensures ValidRegistry(r.0)
    ensures Lookup(t).None? ==> r.0 == reg && r.1 == Emission([], Some(TermGraphicsNotAvailable))
    ensures Lookup(t).Some? && Lookup(t).value.Single? ==>
              r.0 == reg && r.1 == Encode(Lookup(t).value.encoder, img)
    ensures t == Default ==> r.0.default == Resolve(reg.default, w) && r.1 == EncodeCall(reg.default, w, img).1
  {
    match Lookup(t)
    case None => (reg, Emission([], Some(TermGraphicsNotAvailable)))
    case Some(Single(e)) => (reg, Encode(e, img))
    case Some(Composite) =>
      var (d, em) := EncodeCall(reg.default, w, img);
      (Registry(d), em)
  }

  /** The encoder the default order picks in a world, if any. */
  function Preferred(w: World): Option<Encoder>
  {
    if KittyAvailable(w.env) then Some(KittyEncoder(false))
    else if ITermAvailable(w.env) then Some(ITermEncoder(false))
    else if SixelAvailable(w) then Some(SixelEncoder(false))
    else None
  }

  /**
    Package-level `Available` on a fresh registry: Kitty is preferred to
    iTerm and iTerm to Sixel, the answer is true exactly when one of them
    is available, and the choice is remembered.
   */
  lemma FirstCallPicksByPriority(w: World)
    ensures TypeAvailable(Default, InitialRegistry(), w).0.default.chosen == Preferred(w)
    ensures TypeAvailable(Default, InitialRegistry(), w).1 <==>
              KittyAvailable(w.env) || ITermAvailable(w.env) || SixelAvailable(w)
  {
    var reg := InitialRegistry();
    var d := Resolve(reg.default, w);
    assert Available(DefaultOrder[0], w) == KittyAvailable(w.env);
    assert Available(DefaultOrder[1], w) == ITermAvailable(w.env);
    assert Available(DefaultOrder[2], w) == SixelAvailable(w);
    if d.chosen.Some? {
      var i :| 0 <= i < 3 && d.chosen.value == DefaultOrder[i] && Available(DefaultOrder[i], w) &&
               forall k :: 0 <= k < i ==> !Available(DefaultOrder[k], w);
      assert i == 0 || !Available(DefaultOrder[0], w);
      assert i <= 1 || !Available(DefaultOrder[1], w);
    } else {
      assert forall k :: 0 <= k < 3 ==> !Available(DefaultOrder[k], w);
    }
  }

  /**
    Package-level `Encode` when no protocol is available: exactly
    TermGraphicsNotAvailable and no output.
   */
  lemma NothingAvailableEncodesNothing(reg: Registry, w: World, img: Image)
    requires ValidRegistry(reg)
    requires !TypeAvailable(Default, reg, w).1
    ensures TypeEncode(Default, reg, w, img).1 == Emission([], Some(TermGraphicsNotAvailable))
  {
  }
}
