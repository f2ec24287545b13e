/** The state of `Home` and its transitions.  A user event runs its handler's
    state updates (batched, as React does inside one event), and then the
    `useEffect` reconcile runs only when one of its dependencies — red, green,
    blue, isGradient — differs from the value it had before the event. */
module ColorEngine {
  import opened Hex
  import opened Luma
  import opened Catalog

  datatype State = State(
    red: int,
    green: int,
    blue: int,
    backgroundColor: string,
    textColor: string,
    isGradient: bool,
    currentGradient: string)

  datatype Channel = Red | Green | Blue

  datatype Event =
    | Slider(channel: Channel, value: int)
    | Randomize(newRed: int, newGreen: int, newBlue: int)
    | Reset
    | ApplyPreset(preset: PresetColor)
    | ApplyGradient(gradient: GradientPreset)

  /** The value of one channel, as its slider shows it. */
  function Get(s: State, c: Channel): int {
    match c
    case Red => s.red
    case Green => s.green
    case Blue => s.blue
  }

  function Channels(s: State): Rgb {
    Rgb(s.red, s.green, s.blue)
  }

  predicate ChannelsInRange(s: State) {
    ValidRgb(Channels(s))
  }

  /** What the page can emit: slider values within `min`/`max`, random draws
      `Math.floor(Math.random() * 256)` in [0, 255], and preset backgrounds the
      inline decoder can read. */
  predicate ValidEvent(e: Event) {
    match e
    case Slider(_, v) => IsChannel(v)
    case Randomize(r, g, b) => IsChannel(r) && IsChannel(g) && IsChannel(b)
    case ApplyPreset(p) => WellFormedHex(p.bg)
    case _ => true
  }

  /** The events the rendered buttons actually produce: presets and gradients
      come from the two catalogs. */
  predicate FromCatalog(e: Event) {
    ValidEvent(e) &&
    match e
    case ApplyPreset(p) => p in Presets
    case ApplyGradient(g) => g in Gradients
    case _ => true
  }

  /** The `useState` initial values, before the effect has ever run. */
  const Initial: State := State(50, 139, 246, "#3b82f6", White, false, "")

  /** The body of the `useEffect` reconcile: nothing in gradient mode,
      otherwise background and text derived from the channels. */
  function Effect(s: State): (t: State)
    requires ChannelsInRange(s)
    ensures t.red == s.red && t.green == s.green && t.blue == s.blue
    ensures t.isGradient == s.isGradient && t.currentGradient == s.currentGradient
    ensures s.isGradient ==> t == s
    ensures !s.isGradient ==>
      (WellFormedHex(t.backgroundColor) && DecodeHex(t.backgroundColor) == Rgb(s.red, s.green, s.blue))
    ensures !s.isGradient ==> (t.textColor == Black <==> 299 * s.red + 587 * s.green + 114 * s.blue > 128000)
    ensures !s.isGradient ==> (t.textColor == White <==> 299 * s.red + 587 * s.green + 114 * s.blue <= 128000)
    ensures !s.isGradient ==> forall i :: 1 <= i < 7 ==> IsLowerHexDigit(t.backgroundColor[i])
  {
    if s.isGradient then s
    else
      DecodeRgbToHex(s.red, s.green, s.blue);
      s.(backgroundColor := RgbToHex(s.red, s.green, s.blue),
         textColor := TextColorFor(s.red, s.green, s.blue))
  }

  /** The effect's dependency list `[red, blue, green, isGradient]`: it
      watches the three channels and the mode, and nothing else, so a handler
      may change the background, the text colour or the gradient without
      making the effect run. */
  predicate DepsChanged(prev: State, next: State): (r: bool)
    ensures !r <==> Channels(prev) == Channels(next) && prev.isGradient == next.isGradient
    ensures r ==> prev != next
  {
    prev.red != next.red || prev.blue != next.blue || prev.green != next.green
    || prev.isGradient != next.isGradient
  }

  /** The state updates an event handler makes, before the effect. */
  function Handle(s: State, e: Event): (h: State)
    requires ValidEvent(e)
    ensures ChannelsInRange(s) ==> ChannelsInRange(h)
  {
    match e
    case Slider(Red, v) => s.(red := v)
    case Slider(Green, v) => s.(green := v)
    case Slider(Blue, v) => s.(blue := v)
    case Randomize(r, g, b) => s.(red := r, green := g, blue := b)
    case Reset =>
      s.(isGradient := false, currentGradient := "", red := 59, green := 130, blue := 246)
    case ApplyPreset(p) =>
      var c := DecodeHex(p.bg);
      s.(isGradient := false, currentGradient := "",
         backgroundColor := p.bg, textColor := p.text,
         red := c.red, green := c.green, blue := c.blue)
    case ApplyGradient(g) =>
      s.(isGradient := true, currentGradient := g.gradient,
         textColor := White, backgroundColor := GradientSentinel,
         red := 0, green := 0, blue := 0)
  }

  /** One user event: the handler's updates, then the dependency-gated effect. */
  function Step(s: State, e: Event): (t: State)
    requires ChannelsInRange(s) && ValidEvent(e)
    ensures ChannelsInRange(t)
  {
    var h := Handle(s, e);
    if DepsChanged(s, h) then Effect(h) else h
  }

  /** The first render: the effect always runs on mount, so the page starts
      in solid mode on the initial channels (50, 139, 246), with a background
      that decodes to them and white text, whatever the initial literals. */
  function Mount(): (m: State)
    ensures Channels(m) == Channels(Initial) && !m.isGradient && m.currentGradient == ""
    ensures WellFormedHex(m.backgroundColor) && DecodeHex(m.backgroundColor) == Rgb(50, 139, 246)
    ensures m.textColor == White
  {
    Effect(Initial)
  }

  predicate AllValid(es: seq<Event>) {
    forall i :: 0 <= i < |es| ==> ValidEvent(es[i])
  }

  /** A sequence of events processed one at a time, in order. */
  function Run(s: State, es: seq<Event>): (t: State)
    requires ChannelsInRange(s) && AllValid(es)
    ensures ChannelsInRange(t)
    decreases |es|
  {
    if es == [] then s else Run(Step(s, es[0]), es[1..])
  }
}
