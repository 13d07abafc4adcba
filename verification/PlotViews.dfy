/**
  The view of rust/assets/hep-viewer.js that keeps an SVG in step with its container, its theme and the
  document: `PlotView` with its pending animation frame, its media listener and its freed flag.
 */
module PlotViews {
  import opened Wrappers

  datatype Scheme = Light | Dark | Auto | Unknown(name: string)

  datatype Size = Size(width: int, height: int)

  /** What is in the page: how big it was drawn, and under which theme. */
  datatype Markup = Markup(size: Size, dark: bool)

  datatype Call = SetDark(dark: bool) | ToSvg(size: Size)

  // ---------- Numbers ----------

  /** `Math.round`. */
  function Round(x: real): int {
    (x + 0.5).Floor
  }

  /** `Math.max(1, Math.round(x))`. */
  function Pixels(x: real): (n: int)
    ensures n >= 1
  {
    if Round(x) < 1 then 1 else Round(x)
  }

  /** `n` is `x` rounded to a whole number, but at least one. */
  predicate Nearest(n: int, x: real) {
    if x < 0.5 then n == 1 else n as real - 0.5 <= x < n as real + 0.5
  }

  /** `Math.max(1, Math.round(x))` is the nearest whole number of at least one, and the only one. */
  lemma PixelsAreNearest(x: real, n: int)
    ensures n == Pixels(x) <==> Nearest(n, x)
  {
  }

  /** `a || b || 1` for a measurement and a hint that may be missing. */
  function FirstNonZero(a: real, b: Option<real>): real {
    if a != 0.0 then a else if b.Some? && b.value != 0.0 then b.value else 1.0
  }

  // ---------- The document on the wasm side ----------

  class PlotDocument {
    var alive: bool
    var dark: bool
    var renders: nat                // SvgRender objects not yet freed
    ghost var calls: seq<Call>
    const hintWidth: Option<real>
    const hintHeight: Option<real>

    constructor (hintWidth: Option<real>, hintHeight: Option<real>)
      ensures alive && !dark && renders == 0 && calls == []
    {
      alive, dark, renders, calls := true, false, 0, [];
      this.hintWidth := hintWidth;
      this.hintHeight := hintHeight;
    }

    method SetDark(dark: bool)
      requires alive
      modifies this`dark, this`calls
      ensures this.dark == dark && calls == old(calls) + [Call.SetDark(dark)]
    {
      this.dark := dark;
      calls := calls + [Call.SetDark(dark)];
    }

    method ToSvg(size: Size) returns (markup: Markup)
      requires alive
      modifies this`renders, this`calls
      ensures markup == Markup(size, dark) && renders == old(renders) + 1 && calls == old(calls) + [Call.ToSvg(size)]
    {
      markup := Markup(size, dark);
      renders := renders + 1;
      calls := calls + [Call.ToSvg(size)];
    }

    method FreeRender()
      requires renders > 0
      modifies this`renders
      ensures renders == old(renders) - 1
    {
      renders := renders - 1;
    }

    method Free()
      requires alive
      modifies this`alive
      ensures !alive
    {
      alive := false;
    }
  }

  /** The container's client size when a step looks at it. */
  datatype Measure = Measure(clientWidth: real, clientHeight: real)

  // ---------- The view ----------

  class PlotView {
    const plot: PlotDocument
    const aspect: real              // 0 stands for a missing one
    var markup: Option<Markup>      // the container's content
    var frame: Option<nat>          // _frame
    var pending: set<nat>           // animation frames the browser still owes this view
    var nextFrame: nat
    var listening: bool             // the media query has this view's listener
    var observing: bool             // the resize observer is connected
    var scheme: Scheme
    var lastSize: Option<Size>
    var freed: bool

    /** The page shows the plot at `lastSize` under the theme that is now set. */
    ghost predicate Current()
      reads this, plot
    {
      lastSize.Some? && markup == Some(Markup(lastSize.value, plot.dark))
    }

    ghost predicate Valid()
      reads this, plot
    {
      && plot.renders == 0
      && plot.alive == !freed
      && (!freed ==> pending == if frame.Some? then {frame.value} else {})
      && (freed ==> pending == {} && !observing)
      && (listening <==> !freed && scheme.Auto?)
      && (!freed ==> frame.Some? || Current())
    }

    /** Nothing about the view or its document differs from before. */
    twostate predicate Untouched()
      reads this, plot
    {
      unchanged(this) && unchanged(plot)
    }

    constructor (plot: PlotDocument, aspect: real, scheme: Scheme, autoResize: bool, matches: bool, measure: Measure)
      requires plot.alive && plot.renders == 0 && !scheme.Unknown?
      modifies plot
      ensures this.plot == plot && this.aspect == aspect && this.scheme == scheme
      ensures Valid() && !freed && observing == autoResize
      ensures frame.None? && Current() && lastSize == Some(Measured(measure))
      ensures plot.dark == (scheme.Dark? || (scheme.Auto? && matches))
    {
      this.plot := plot;
      this.aspect := aspect;
      this.scheme := Light;
      markup, frame, lastSize := None, None, None;
      pending, nextFrame := {}, 0;
      listening, observing, freed := false, false, false;
      new;
      var ok := ApplyScheme(scheme, matches);
      observing := autoResize;
      RenderNow(measure);
    }

    function HeightFor(width: int, height: int): int
      requires width >= 1
    {
      if aspect != 0.0 then Pixels(width as real / aspect) else height
    }

    /** The size that the container, or failing that the document, asks for. */
    function Measured(m: Measure): Size {
      var width := Pixels(FirstNonZero(m.clientWidth, plot.hintWidth));
      Size(width, HeightFor(width, Pixels(FirstNonZero(m.clientHeight, plot.hintHeight))))
    }

    /** Sizes spelled out: the nearest whole number, halves upwards, but at least one. */
    lemma SizesAreSpelledOut(m: Measure)
      ensures var s := Measured(m);
        var w := if m.clientWidth != 0.0 then m.clientWidth
                 else if plot.hintWidth.Some? && plot.hintWidth.value != 0.0 then plot.hintWidth.value else 1.0;
        var h := if m.clientHeight != 0.0 then m.clientHeight
                 else if plot.hintHeight.Some? && plot.hintHeight.value != 0.0 then plot.hintHeight.value else 1.0;
        && Nearest(s.width, w)
        && if aspect == 0.0 then Nearest(s.height, h) else Nearest(s.height, s.width as real / aspect)
    {
    }

    method Emit(size: Size)
      requires !freed && plot.alive && plot.renders == 0
      modifies this`markup, this`lastSize, plot
      ensures plot.alive && plot.renders == 0 && plot.dark == old(plot.dark)
      ensures lastSize == Some(size) && Current()
      ensures plot.calls == old(plot.calls) + [ToSvg(size)]
    {
      var rendered := plot.ToSvg(size);
      markup := Some(rendered);
      lastSize := Some(size);
      plot.FreeRender();
    }

    method Draw(width: int, height: int)
      requires Valid() && !freed && width >= 1
      modifies this`markup, this`lastSize, plot
      ensures Valid() && plot.dark == old(plot.dark)
      ensures lastSize == Some(Size(width, HeightFor(width, height)))
      ensures old(lastSize) == lastSize ==> plot.calls == old(plot.calls) && markup == old(markup)
      ensures old(lastSize) != lastSize ==> Current() && plot.calls == old(plot.calls) + [ToSvg(lastSize.value)]
    {
      var h := HeightFor(width, height);
      if lastSize == Some(Size(width, h)) {
        return;
      }
      Emit(Size(width, h));
    }

    method CancelFrame()
      requires frame.Some?
      modifies this`pending
      ensures pending == old(pending) - {frame.value}
    {
      pending := pending - {frame.value};
    }

    method RenderNow(measure: Measure)
      requires plot.renders == 0 && plot.alive == !freed
      requires !freed ==> pending == if frame.Some? then {frame.value} else {}
      requires freed ==> Valid()
      requires listening <==> !freed && scheme.Auto?
      modifies this`markup, this`lastSize, this`frame, this`pending, plot
      ensures Valid() && plot.dark == old(plot.dark)
      ensures if old(freed) then Untouched()
              else frame.None? && Current() && lastSize == Some(Measured(measure))
    {
      if freed {
        return;
      }
      if frame.Some? {
        CancelFrame();
        frame := None;
      }
      Emit(Measured(measure));
    }

    /** At most one frame is ever asked for at a time. */
    method Schedule()
      requires !freed ==> pending == if frame.Some? then {frame.value} else {}
      modifies this`frame, this`pending, this`nextFrame
      ensures freed ==> frame == old(frame) && pending == old(pending)
      ensures !freed ==> frame.Some? && pending == {frame.value}
      ensures !freed && old(frame).Some? ==> frame == old(frame)
    {
      if freed || frame.Some? {
        return;
      }
      frame := Some(nextFrame);
      pending := pending + {nextFrame};
      nextFrame := nextFrame + 1;
    }

    method DetachMedia()
      modifies this`listening
      ensures !listening
    {
      listening := false;
    }

    method ApplyScheme(wanted: Scheme, matches: bool) returns (ok: bool)
      requires plot.renders == 0 && plot.alive == !freed
      requires !freed ==> pending == if frame.Some? then {frame.value} else {}
      modifies this`listening, this`scheme, this`frame, this`pending, this`nextFrame, plot
      ensures ok <==> freed || !wanted.Unknown?
      ensures freed || wanted.Unknown? ==> Untouched()
      ensures !freed && !wanted.Unknown? ==>
                && scheme == wanted && (listening <==> scheme.Auto?)
                && plot.alive && plot.renders == 0
                && plot.dark == (wanted.Dark? || (wanted.Auto? && matches))
                && plot.calls == old(plot.calls) + [SetDark(plot.dark)]
                && frame.Some? && pending == {frame.value}
                && (old(frame).Some? ==> frame == old(frame))
    {
      if freed {
        return true;
      }
      if wanted.Unknown? {
        return false;
      }
      DetachMedia();
      scheme := wanted;
      if wanted.Auto? {
        listening := true;
        plot.SetDark(matches);
      } else {
        plot.SetDark(wanted.Dark?);
      }
      Schedule();
      ok := true;
    }

    // ---------- What callers and the browser do to a view ----------

    method Redraw(measure: Measure)
      requires Valid()
      modifies this`markup, this`lastSize, this`frame, this`pending, plot
      ensures Valid() && freed == old(freed)
      ensures if freed then Untouched() else frame.None? && Current() && lastSize == Some(Measured(measure))
    {
      RenderNow(measure);
    }

    method Resize(width: real, height: real)
      requires Valid()
      modifies this`markup, this`lastSize, plot
      ensures Valid() && freed == old(freed)
      ensures if freed then Untouched() else lastSize == Some(Size(Pixels(width), HeightFor(Pixels(width), Pixels(height))))
      ensures !freed && frame.None? ==> Current()
    {
      if freed {
        return;
      }
      Draw(Pixels(width), Pixels(height));
    }

    /** An unknown scheme throws and changes nothing. */
    method SetColorScheme(wanted: Scheme, matches: bool) returns (ok: bool)
      requires Valid()
      modifies this`listening, this`scheme, this`frame, this`pending, this`nextFrame, plot
      ensures Valid() && freed == old(freed) && (ok <==> freed || !wanted.Unknown?)
      ensures freed || wanted.Unknown? ==> Untouched()
      ensures !freed && !wanted.Unknown? ==>
                && scheme == wanted && frame.Some?
                && plot.dark == (wanted.Dark? || (wanted.Auto? && matches))
    {
      ok := ApplyScheme(wanted, matches);
    }

    /** The listener on the media query; the browser calls it only while it is attached. */
    method OnMedia(matches: bool)
      requires Valid() && listening
      modifies this`frame, this`pending, this`nextFrame, plot
      ensures Valid() && freed == old(freed) && plot.dark == matches && frame.Some?
    {
      plot.SetDark(matches);
      Schedule();
    }

    /** The resize observer: the content box if the entry has one, else the client size. */
    method OnObserved(box: Option<Measure>, client: Measure)
      requires Valid()
      modifies this`markup, this`lastSize, plot
      ensures Valid() && freed == old(freed)
      ensures freed ==> Untouched()
      ensures !freed ==>
                var m := if box.Some? then box.value else client;
                lastSize == Some(Size(Pixels(m.clientWidth), HeightFor(Pixels(m.clientWidth), Pixels(m.clientHeight))))
    {
      if freed {
        return;
      }
      var m := if box.Some? then box.value else client;
      Draw(Pixels(m.clientWidth), Pixels(m.clientHeight));
    }

    /** The animation frame callback; the browser calls it once for a frame that was not cancelled. */
    method OnFrame(id: nat, measure: Measure)
      requires Valid() && id in pending
      modifies this`markup, this`lastSize, this`frame, this`pending, plot
      ensures Valid() && freed == old(freed) && !freed
      ensures frame.None? && Current() && lastSize == Some(Measured(measure)) && markup == Some(Markup(Measured(measure), plot.dark))
    {
      pending := pending - {id};
      frame := None;
      if !freed {
        Emit(Measured(measure));
      }
    }

    method Free()
      requires Valid()
      modifies this`freed, this`pending, this`observing, this`listening, plot`alive
      ensures Valid() && freed
      ensures old(freed) ==> Untouched()
      ensures plot.calls == old(plot.calls)
    {
      if freed {
        return;
      }
      freed := true;
      if frame.Some? {
        CancelFrame();
      }
      observing := false;
      DetachMedia();
      plot.Free();
    }
  }

  /**
    A view of a loaded document.  An unknown scheme throws before anything is attached or drawn; the document
    is then still alive, and only garbage collection can release it.
   */
  method Create(plot: PlotDocument, aspect: real, scheme: Scheme, autoResize: bool, matches: bool, measure: Measure)
    returns (view: Option<PlotView>)
    requires plot.alive && plot.renders == 0
    modifies plot
    ensures view.None? <==> scheme.Unknown?
    ensures view.None? ==> unchanged(plot) && plot.alive
    ensures view.Some? ==>
              var v := view.value;
              && fresh(v) && v.plot == plot && v.scheme == scheme && v.Valid() && !v.freed && v.observing == autoResize
              && v.frame.None? && v.lastSize == Some(v.Measured(measure)) && v.markup == Some(Markup(v.Measured(measure), plot.dark))
              && plot.dark == (scheme.Dark? || (scheme.Auto? && matches))
  {
    if scheme.Unknown? {
      return None;
    }
    var v := new PlotView(plot, aspect, scheme, autoResize, matches, measure);
    return Some(v);
  }

  // ---------- Whole runs ----------

  datatype Event =
    | Redrawn(measure: Measure)
    | Resized(width: real, height: real)
    | SchemeSet(scheme: Scheme, matches: bool)
    | MediaChanged(matches: bool)
    | Observed(box: Option<Measure>, client: Measure)
    | FrameDue(id: nat, measure: Measure)
    | Freed

  /** One event; the browser delivers none to a listener that is detached or for a frame that it does not owe. */
  method Deliver(view: PlotView, e: Event)
    requires view.Valid()
    modifies view, view.plot
    ensures view.Valid() && (old(view.freed) || e.Freed? <==> view.freed)
    ensures old(view.freed) ==> view.plot.calls == old(view.plot.calls) && view.markup == old(view.markup)
  {
    match e
    case Redrawn(m) => view.Redraw(m);
    case Resized(w, h) => view.Resize(w, h);
    case SchemeSet(s, matches) => var _ := view.SetColorScheme(s, matches);
    case MediaChanged(matches) => if view.listening { view.OnMedia(matches); }
    case Observed(box, client) => if view.observing { view.OnObserved(box, client); }
    case FrameDue(id, m) => if id in view.pending { view.OnFrame(id, m); }
    case Freed => view.Free();
  }

  /** Any sequence of events: unless freed the view is current or has its one frame coming, and freed it stays silent. */
  method Run(view: PlotView, events: seq<Event>)
    requires view.Valid()
    modifies view, view.plot
    ensures view.Valid() && (view.freed <==> old(view.freed) || Freed in events)
    ensures !view.freed ==>
              || (view.lastSize.Some? && view.markup == Some(Markup(view.lastSize.value, view.plot.dark)))
              || (view.frame.Some? && view.pending == {view.frame.value})
    ensures view.listening <==> !view.freed && view.scheme.Auto?
    ensures old(view.freed) ==> view.plot.calls == old(view.plot.calls) && view.markup == old(view.markup)
  {
    for i := 0 to |events|
      invariant view.Valid() && (view.freed <==> old(view.freed) || Freed in events[..i])
      invariant old(view.freed) ==> view.plot.calls == old(view.plot.calls) && view.markup == old(view.markup)
    {
      assert events[..i + 1] == events[..i] + [events[i]];
      Deliver(view, events[i]);
    }
    assert events[..|events|] == events;
  }
}
