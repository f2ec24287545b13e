/** What the colour picker's transitions guarantee, and what they do not. */
module EngineProperties {
  import opened Hex
  import opened Luma
  import opened Catalog
  import opened ColorEngine

  /** A lower-case colour string is what `rgbToHex` writes for its channels. */
  lemma HexLiteral(s: string, r: int, g: int, b: int)
    requires WellFormedHex(s) && (forall i :: 1 <= i < 7 ==> IsLowerHexDigit(s[i]))
    requires DecodeHex(s) == Rgb(r, g, b)
    ensures RgbToHex(r, g, b) == s
  {
    CanonicalHexIff(s);
  }

  lemma ResetHex()
    ensures RgbToHex(59, 130, 246) == "#3b82f6"
  {
  }

  lemma InitialChannelsHex()
    ensures RgbToHex(50, 139, 246) == "#328bf6"
  {
  }

  lemma GreenHex()
    ensures RgbToHex(16, 185, 129) == "#10b981"
  {
  }

  /** The effect runs after a handler exactly when a dependency changed and
      the page is not in gradient mode; it only ever writes the background and
      the text colour. */
  lemma EffectGating(s: State, e: Event)
    requires ChannelsInRange(s) && ValidEvent(e)
    ensures var h, t := Handle(s, e), Step(s, e);
      Channels(t) == Channels(h) && t.isGradient == h.isGradient
      && t.currentGradient == h.currentGradient
    ensures var h, t := Handle(s, e), Step(s, e);
      DepsChanged(s, h) && !h.isGradient ==>
        t.backgroundColor == RgbToHex(t.red, t.green, t.blue)
        && t.textColor == TextColorFor(t.red, t.green, t.blue)
    ensures var h, t := Handle(s, e), Step(s, e);
      !DepsChanged(s, h) || h.isGradient ==>
        t.backgroundColor == h.backgroundColor && t.textColor == h.textColor
  {
  }

  /** A slider sets its own channel and nothing else the handler knows of.  In
      gradient mode the page does not react: background, text colour and the
      gradient are untouched.  In solid mode a new value re-derives the
      background and text colour from the channels. */
  lemma SliderStep(s: State, c: Channel, v: int)
    requires ChannelsInRange(s) && IsChannel(v)
    ensures var t := Step(s, Slider(c, v));
      Get(t, c) == v
      && (forall d :: d != c ==> Get(t, d) == Get(s, d))
      && t.isGradient == s.isGradient && t.currentGradient == s.currentGradient
    ensures var t := Step(s, Slider(c, v));
      s.isGradient || v == Get(s, c) ==>
        t.backgroundColor == s.backgroundColor && t.textColor == s.textColor
    ensures var t := Step(s, Slider(c, v));
      !s.isGradient && v != Get(s, c) ==>
        t.backgroundColor == RgbToHex(t.red, t.green, t.blue)
        && t.textColor == TextColorFor(t.red, t.green, t.blue)
  {
  }

  /** Randomize draws new channels and leaves the mode alone; in gradient mode
      background and text colour stay at their gradient values. */
  lemma RandomizeStep(s: State, r: int, g: int, b: int)
    requires ChannelsInRange(s) && IsChannel(r) && IsChannel(g) && IsChannel(b)
    ensures var t := Step(s, Randomize(r, g, b));
      Channels(t) == Rgb(r, g, b)
      && t.isGradient == s.isGradient && t.currentGradient == s.currentGradient
    ensures var t := Step(s, Randomize(r, g, b));
      s.isGradient || Channels(s) == Rgb(r, g, b) ==>
        t.backgroundColor == s.backgroundColor && t.textColor == s.textColor
    ensures var t := Step(s, Randomize(r, g, b));
      !s.isGradient && Channels(s) != Rgb(r, g, b) ==>
        t.backgroundColor == RgbToHex(r, g, b) && t.textColor == TextColorFor(r, g, b)
  {
  }

  /** Reset always returns to (59, 130, 246) in solid mode with no gradient.
      The background becomes `#3b82f6` with white text unless nothing the
      effect watches changed, in which case the previous background and text
      colour stay. */
  lemma ResetStep(s: State)
    requires ChannelsInRange(s)
    ensures var t := Step(s, Reset);
      Channels(t) == Rgb(59, 130, 246) && !t.isGradient && t.currentGradient == ""
    ensures var t := Step(s, Reset);
      s.isGradient || Channels(s) != Rgb(59, 130, 246) ==>
        t.backgroundColor == "#3b82f6" && t.textColor == White
    ensures var t := Step(s, Reset);
      !s.isGradient && Channels(s) == Rgb(59, 130, 246) ==>
        t.backgroundColor == s.backgroundColor && t.textColor == s.textColor
  {
    ResetHex();
  }

  /** Resetting twice is resetting once. */
  lemma ResetIdempotent(s: State)
    requires ChannelsInRange(s)
    ensures Step(Step(s, Reset), Reset) == Step(s, Reset)
  {
  }

  /** Whether applying a preset makes the effect run: it does exactly when the
      page was in gradient mode or showed other channels than the preset's. */
  predicate PresetChanges(s: State, p: PresetColor)
    requires WellFormedHex(p.bg)
  {
    s.isGradient || Channels(s) != DecodeHex(p.bg)
  }

  /** A preset always leaves solid mode with the decoded channels.  When the
      effect runs, the background is the preset's colour lower-cased and the
      text follows the brightness rule; otherwise the catalog's background
      and text are kept verbatim. */
  lemma PresetStep(s: State, p: PresetColor)
    requires ChannelsInRange(s) && WellFormedHex(p.bg)
    ensures var t := Step(s, ApplyPreset(p));
      !t.isGradient && t.currentGradient == "" && Channels(t) == DecodeHex(p.bg)
    ensures var t, c := Step(s, ApplyPreset(p)), DecodeHex(p.bg);
      PresetChanges(s, p) ==>
        t.backgroundColor == LowerAscii(p.bg) && t.textColor == TextColorFor(c.red, c.green, c.blue)
    ensures var t := Step(s, ApplyPreset(p));
      !PresetChanges(s, p) ==> t.backgroundColor == p.bg && t.textColor == p.text
  {
    RgbToHexOfDecode(p.bg);
  }

  /** Applying a preset a second time never makes the effect run, so it
      restores the catalog's own background and text; from then on the preset
      is idempotent. */
  lemma PresetSecondApplication(s: State, p: PresetColor)
    requires ChannelsInRange(s) && WellFormedHex(p.bg)
    ensures var t := Step(Step(s, ApplyPreset(p)), ApplyPreset(p));
      t.backgroundColor == p.bg && t.textColor == p.text
      && !t.isGradient && Channels(t) == DecodeHex(p.bg)
    ensures var t := Step(Step(s, ApplyPreset(p)), ApplyPreset(p));
      Step(t, ApplyPreset(p)) == t
  {
    PresetStep(s, p);
    var t1 := Step(s, ApplyPreset(p));
    PresetStep(t1, p);
  }

  /** Applying a preset twice gives the same state as once exactly when the
      first application did not run the effect, or the preset is already in
      the form the effect writes: a lower-case background whose text colour
      agrees with the brightness rule. */
  lemma PresetIdempotentIff(s: State, p: PresetColor)
    requires ChannelsInRange(s) && WellFormedHex(p.bg)
    ensures var c := DecodeHex(p.bg);
      Step(Step(s, ApplyPreset(p)), ApplyPreset(p)) == Step(s, ApplyPreset(p))
      <==> !PresetChanges(s, p)
           || (RgbToHex(c.red, c.green, c.blue) == p.bg && TextColorFor(c.red, c.green, c.blue) == p.text)
  {
    var c := DecodeHex(p.bg);
    var t1 := Step(s, ApplyPreset(p));
    PresetStep(s, p);
    PresetSecondApplication(s, p);
    RgbToHexOfDecode(p.bg);
    if PresetChanges(s, p) {
      assert t1.backgroundColor == RgbToHex(c.red, c.green, c.blue);
    }
  }

  /** For the catalog, none of whose backgrounds is lower case, applying a
      preset twice equals applying it once only when the page already showed
      that preset's channels in solid mode. */
  lemma CatalogPresetIdempotentIff(s: State, i: int)
    requires ChannelsInRange(s) && 0 <= i < |Presets|
    ensures WellFormedHex(Presets[i].bg)
    ensures var p := Presets[i];
      Step(Step(s, ApplyPreset(p)), ApplyPreset(p)) == Step(s, ApplyPreset(p))
      <==> !s.isGradient && Channels(s) == DecodeHex(p.bg)
  {
    PresetsDecode(i);
    PresetIdempotentIff(s, Presets[i]);
  }

  /** The Green preset from the mounted page: the first click runs the effect
      and shows `#10b981` with black text; the second restores the catalog's
      `#10B981` with white text. */
  lemma GreenPresetTwice()
    ensures var once := Step(Mount(), ApplyPreset(Presets[1]));
      once == State(16, 185, 129, "#10b981", Black, false, "")
    ensures var once := Step(Mount(), ApplyPreset(Presets[1]));
      Step(once, ApplyPreset(Presets[1])) == State(16, 185, 129, "#10B981", White, false, "")
  {
    var m := Mount();
    MountState();
    var p := Presets[1];
    assert p == PresetColor("グリーン", "#10B981", "#FFFFFF");
    assert WellFormedHex(p.bg) by { PresetsDecode(1); }
    assert DecodeHex(p.bg) == Rgb(16, 185, 129);
    assert PresetChanges(m, p);
    EffectGating(m, ApplyPreset(p));
    GreenHex();
    assert TextColorFor(16, 185, 129) == Black;
    PresetSecondApplication(m, p);
  }

  /** A gradient always puts the page in gradient mode with the sentinel
      background, white text and zeroed channels; the effect, even when it
      runs, writes none of them.  So applying a gradient is idempotent. */
  lemma GradientStep(s: State, g: GradientPreset)
    requires ChannelsInRange(s)
    ensures Step(s, ApplyGradient(g)) == State(0, 0, 0, GradientSentinel, White, true, g.gradient)
    ensures Step(Step(s, ApplyGradient(g)), ApplyGradient(g)) == Step(s, ApplyGradient(g))
  {
  }

  /** The first render: the effect replaces the initial `#3b82f6`, which is
      the colour of Reset's channels (59, 130, 246), by the hex of the initial
      channels (50, 139, 246), and keeps white text. */
  lemma MountState()
    ensures Mount() == State(50, 139, 246, "#328bf6", White, false, "")
    ensures Initial.backgroundColor == RgbToHex(59, 130, 246) != Mount().backgroundColor
  {
    InitialChannelsHex();
    ResetHex();
  }

  /** Solid-mode consistency: the background is exactly `rgbToHex` of the
      channels and the text colour follows the brightness rule. */
  predicate Consistent(s: State)
    requires ChannelsInRange(s)
  {
    !s.isGradient ==>
      s.backgroundColor == RgbToHex(s.red, s.green, s.blue)
      && s.textColor == TextColorFor(s.red, s.green, s.blue)
  }

  /** Every event except a preset that does not trigger the effect keeps
      solid-mode consistency. */
  lemma ConsistentPreserved(s: State, e: Event)
    requires ChannelsInRange(s) && ValidEvent(e) && Consistent(s)
    requires e.ApplyPreset? ==> PresetChanges(s, e.preset)
    ensures Consistent(Step(s, e))
  {
  }

  /** The exception is real: the second Green click leaves the mounted page's
      consistent state for one whose background is not `rgbToHex` of the
      channels and whose text disagrees with the brightness rule. */
  lemma PresetBreaksConsistency()
    ensures Consistent(Mount())
    ensures var once := Step(Mount(), ApplyPreset(Presets[1]));
      Consistent(once) && !Consistent(Step(once, ApplyPreset(Presets[1])))
  {
    MountState();
    GreenPresetTwice();
    PresetsDecode(1);
    DecodeRgbToHex(16, 185, 129);
    assert RgbToHex(16, 185, 129) == "#10b981";
  }

  /** The page shows a catalog preset's background and text exactly as listed. */
  predicate ShowsPreset(s: State) {
    exists p :: p in Presets && s.backgroundColor == p.bg && s.textColor == p.text
  }

  /** What every page state reachable through the catalog buttons satisfies.
      In solid mode there is no gradient and the background is a colour string
      the decoder reads back as the channels.  In gradient mode the background
      is the sentinel, the text is white and the gradient is one of the
      catalog's.  The text is always black or white. */
  predicate Coherent(s: State) {
    && ChannelsInRange(s)
    && (s.textColor == Black || s.textColor == White)
    && (!s.isGradient ==>
         s.currentGradient == ""
         && WellFormedHex(s.backgroundColor)
         && DecodeHex(s.backgroundColor) == Channels(s))
    && (s.isGradient ==>
         s.backgroundColor == GradientSentinel && s.textColor == White
         && exists g :: g in Gradients && s.currentGradient == g.gradient)
  }

  /** The second invariant of reachable pages: in solid mode the page is either
      consistent, or shows a catalog preset's background and text verbatim. */
  predicate SolidShown(s: State) {
    ChannelsInRange(s) && (!s.isGradient ==> Consistent(s) || ShowsPreset(s))
  }

  lemma CatalogTextBlackOrWhite(p: PresetColor)
    requires p in Presets
    ensures p.text == Black || p.text == White
  {
  }

  /** After the effect has run in solid mode the state is coherent. */
  lemma EffectCoherent(h: State)
    requires ChannelsInRange(h) && !h.isGradient && h.currentGradient == ""
    ensures Coherent(Effect(h))
  {
  }

  /** After the effect has run in solid mode the state is consistent. */
  lemma EffectConsistent(h: State)
    requires ChannelsInRange(h) && !h.isGradient
    ensures Consistent(Effect(h))
  {
  }

  lemma PresetCoherent(s: State, p: PresetColor)
    requires Coherent(s) && p in Presets && WellFormedHex(p.bg)
    ensures Coherent(Step(s, ApplyPreset(p)))
  {
    CatalogTextBlackOrWhite(p);
    var h := Handle(s, ApplyPreset(p));
    if DepsChanged(s, h) {
      EffectCoherent(h);
    }
  }

  lemma GradientCoherent(s: State, g: GradientPreset)
    requires Coherent(s) && g in Gradients
    ensures Coherent(Step(s, ApplyGradient(g)))
  {
    GradientStep(s, g);
  }

  lemma ResetCoherent(s: State)
    requires Coherent(s)
    ensures Coherent(Step(s, Reset))
  {
    var h := Handle(s, Reset);
    if DepsChanged(s, h) {
      EffectCoherent(h);
    }
  }

  /** In gradient mode, moving the channels keeps the page coherent. */
  lemma GradientChannelsCoherent(s: State, t: State)
    requires Coherent(s) && s.isGradient && t.isGradient && ChannelsInRange(t)
    requires t.backgroundColor == s.backgroundColor && t.textColor == s.textColor
    requires t.currentGradient == s.currentGradient
    ensures Coherent(t)
  {
    var g :| g in Gradients && s.currentGradient == g.gradient;
    assert t.currentGradient == g.gradient;
  }

  /** Moving only the channels, as sliders and Randomize do, and then running
      the gated effect keeps the page coherent. */
  lemma ChannelMoveCoherent(s: State, h: State)
    requires Coherent(s) && ChannelsInRange(h)
    requires h == s.(red := h.red, green := h.green, blue := h.blue)
    ensures Coherent(if DepsChanged(s, h) then Effect(h) else h)
  {
    if !DepsChanged(s, h) {
      assert h == s;
    } else if !h.isGradient {
      EffectCoherent(h);
    } else {
      GradientChannelsCoherent(s, h);
    }
  }

  lemma ChannelsCoherent(s: State, e: Event)
    requires Coherent(s) && (e.Slider? || e.Randomize?) && ValidEvent(e)
    ensures Coherent(Step(s, e))
  {
    var h := Handle(s, e);
    assert h == s.(red := h.red, green := h.green, blue := h.blue);
    ChannelMoveCoherent(s, h);
  }

  lemma StepPreservesCoherent(s: State, e: Event)
    requires Coherent(s) && FromCatalog(e)
    ensures Coherent(Step(s, e))
  {
    match e
    case ApplyPreset(p) => PresetCoherent(s, p);
    case ApplyGradient(g) => GradientCoherent(s, g);
    case Reset => ResetCoherent(s);
    case _ => ChannelsCoherent(s, e);
  }

  /** Whether a solid page is consistent or shows a preset depends only on its
      channels, background and text colour. */
  lemma KeepsShownColour(s: State, t: State)
    requires ChannelsInRange(s) && Channels(t) == Channels(s)
    requires !s.isGradient && !t.isGradient
    requires t.backgroundColor == s.backgroundColor && t.textColor == s.textColor
    requires Consistent(s) || ShowsPreset(s)
    ensures Consistent(t) || ShowsPreset(t)
  {
    assert t.red == s.red && t.green == s.green && t.blue == s.blue;
    if Consistent(s) {
      assert Consistent(t);
    } else {
      var p :| p in Presets && s.backgroundColor == p.bg && s.textColor == p.text;
      assert t.backgroundColor == p.bg && t.textColor == p.text;
    }
  }

  /** A catalog preset leaves the page consistent when the effect runs, and
      showing the preset verbatim when it does not. */
  lemma PresetShown(s: State, p: PresetColor)
    requires ChannelsInRange(s) && p in Presets && WellFormedHex(p.bg)
    ensures SolidShown(Step(s, ApplyPreset(p)))
  {
    var h := Handle(s, ApplyPreset(p));
    if DepsChanged(s, h) {
      EffectConsistent(h);
    } else {
      var t := Step(s, ApplyPreset(p));
      assert t == h;
      assert t.backgroundColor == p.bg && t.textColor == p.text;
      assert ShowsPreset(t);
    }
  }

  lemma ResetShown(s: State)
    requires SolidShown(s)
    ensures SolidShown(Step(s, Reset))
  {
    var h := Handle(s, Reset);
    if DepsChanged(s, h) {
      EffectConsistent(h);
    } else {
      var t := Step(s, Reset);
      assert t == h;
      KeepsShownColour(s, t);
    }
  }

  lemma ChannelsShown(s: State, e: Event)
    requires SolidShown(s) && (e.Slider? || e.Randomize?) && ValidEvent(e)
    ensures SolidShown(Step(s, e))
  {
    var h := Handle(s, e);
    assert h == s.(red := h.red, green := h.green, blue := h.blue);
    if !DepsChanged(s, h) {
      assert Step(s, e) == s;
    } else if !h.isGradient {
      EffectConsistent(h);
    }
  }

  lemma StepPreservesSolidShown(s: State, e: Event)
    requires SolidShown(s) && FromCatalog(e)
    ensures SolidShown(Step(s, e))
  {
    match e
    case ApplyPreset(p) => PresetShown(s, p);
    case ApplyGradient(g) => GradientStep(s, g);
    case Reset => ResetShown(s);
    case _ => ChannelsShown(s, e);
  }

  lemma MountCoherent()
    ensures Coherent(Mount())
    ensures SolidShown(Mount())
  {
    MountState();
    DecodeRgbToHex(50, 139, 246);
    InitialChannelsHex();
  }

  predicate AllFromCatalog(es: seq<Event>) {
    forall i :: 0 <= i < |es| ==> FromCatalog(es[i])
  }

  lemma AllFromCatalogTail(es: seq<Event>)
    requires AllFromCatalog(es) && es != []
    ensures AllFromCatalog(es[1..])
  {
    forall i | 0 <= i < |es[1..]| ensures FromCatalog(es[1..][i]) {
      assert es[1..][i] == es[i + 1];
    }
  }

  lemma {:induction false} RunPreservesCoherent(s: State, es: seq<Event>)
    requires Coherent(s) && AllFromCatalog(es)
    ensures AllValid(es)
    ensures Coherent(Run(s, es))
    decreases |es|
  {
    if es != [] {
      StepPreservesCoherent(s, es[0]);
      AllFromCatalogTail(es);
      RunPreservesCoherent(Step(s, es[0]), es[1..]);
    }
  }

  lemma {:induction false} RunPreservesSolidShown(s: State, es: seq<Event>)
    requires SolidShown(s) && AllFromCatalog(es)
    ensures AllValid(es)
    ensures SolidShown(Run(s, es))
    decreases |es|
  {
    if es != [] {
      StepPreservesSolidShown(s, es[0]);
      AllFromCatalogTail(es);
      RunPreservesSolidShown(Step(s, es[0]), es[1..]);
    }
  }

  /** What a coherent state shows: in solid mode the background re-encodes,
      up to letter case, to the sliders' channels. */
  lemma CoherentShows(t: State)
    requires Coherent(t)
    ensures !t.isGradient ==> LowerAscii(t.backgroundColor) == RgbToHex(t.red, t.green, t.blue)
    ensures t.isGradient ==> t.backgroundColor == GradientSentinel && t.textColor == White
    ensures t.textColor == Black || t.textColor == White
  {
    if !t.isGradient {
      RgbToHexOfDecode(t.backgroundColor);
    }
  }

  /** On every page reachable from the first render through the catalog
      buttons, the sliders and the background agree in solid mode up to
      letter case: re-encoding the background's channels gives the
      background lower-cased.  In solid mode the page is either consistent
      (background `rgbToHex` of the channels, text by the brightness rule) or
      shows a catalog preset's background and text exactly as listed.  The
      text colour is always black or white, and in gradient mode it is white. */
  lemma Reachable(es: seq<Event>)
    requires AllFromCatalog(es)
    ensures AllValid(es)
    ensures var t := Run(Mount(), es);
      !t.isGradient ==> LowerAscii(t.backgroundColor) == RgbToHex(t.red, t.green, t.blue)
    ensures var t := Run(Mount(), es);
      !t.isGradient ==>
        (t.backgroundColor == RgbToHex(t.red, t.green, t.blue) && t.textColor == TextColorFor(t.red, t.green, t.blue))
        || ShowsPreset(t)
    ensures var t := Run(Mount(), es);
      t.isGradient ==> t.backgroundColor == GradientSentinel && t.textColor == White
    ensures var t := Run(Mount(), es);
      t.textColor == Black || t.textColor == White
  {
    MountCoherent();
    RunPreservesCoherent(Mount(), es);
    RunPreservesSolidShown(Mount(), es);
    CoherentShows(Run(Mount(), es));
  }
}
