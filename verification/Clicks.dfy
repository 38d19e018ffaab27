/** The event source (src/simutrans/simevent.cc:59-312): translation of system events, recognition of double and
    triple clicks, and the order in which events are delivered. */
module Clicks {

  const INTERVAL: nat := 400
  const UINT32: nat := 0x1_0000_0000

  // ---------- events ----------

  datatype Class =
    | NoEvent | KeyDown | Text | Click | DoubleClick | TripleClick | Release | Move | Drag | LongPress | System
    | Other(n: nat)

  /** A drag carries the buttons that are held, as a set for the source's bit mask. */
  datatype Payload = Code(code: nat) | Pointer(address: nat) | Held(buttons: set<Button>)

  datatype Point = Point(x: int, y: int)

  datatype Event = Event(cls: Class, payload: Payload, mouse: Point, click: Point, size: Point, buttons: set<Button>,
    modifiers: nat)

  datatype Button = Left | Right | Middle

  /** What the system reports; `Buttons` with `Moved` stands for the button codes without a case of their own. */
  datatype Action = Press(b: Button) | Lift(b: Button) | WheelUp | WheelDown | HeldFinger | Moved

  datatype SysKind =
    | Nothing | Keyboard(key: nat) | Characters(address: nat) | Buttons(a: Action) | MouseMove
    | Window(code: nat, size: Point)

  datatype SysEvent = SysEvent(kind: SysKind, at: Point, held: set<Button>, modifiers: nat)

  const RESIZE: nat := 2
  const WHEEL_UP: nat := 8
  const WHEEL_DOWN: nat := 16

  function ButtonCode(b: Button): nat {
    match b
    case Left => 1
    case Right => 2
    case Middle => 4
  }

  // ---------- what the recogniser is to do ----------

  /** A translated event, when it was read. */
  datatype Timed = Timed(cls: Class, code: nat, time: nat)

  function Elapsed(later: nat, earlier: nat): nat {
    (later - earlier) % UINT32
  }

  /** `b` continues `a`: same button, soon enough. */
  predicate Continues(a: Timed, b: Timed) {
    a.code == b.code && Elapsed(b.time, a.time) <= INTERVAL
  }

  /** How many click-release pairs, each continuing the one before, are complete at the end of a trace
      (of events other than `NoEvent`) whose last event is a click or release of that sequence. */
  function Streak(es: seq<Timed>): nat {
    if |es| == 0 then 0
    else
      var e, before := es[|es| - 1], es[..|es| - 1];
      match e.cls
      case Release => if |before| > 0 && before[|before| - 1].cls.Click? && Continues(before[|before| - 1], e)
        then Streak(before) + 1 else 0
      case Click => if |before| > 0 && before[|before| - 1].cls.Release? && Continues(before[|before| - 1], e)
        then Streak(before) else 0
      case _ => 0
  }

  /** Events that say nothing do not break a sequence. */
  function Spoken(es: seq<Timed>): (r: seq<Timed>)
    ensures forall i :: 0 <= i < |r| ==> !r[i].cls.NoEvent?
  {
    if |es| == 0 then []
    else Spoken(es[..|es| - 1]) + if es[|es| - 1].cls.NoEvent? then [] else [es[|es| - 1]]
  }

  /** The class of the meta-event due after the last event of the trace, if any. */
  function Due(es: seq<Timed>): Class {
    if |es| == 0 || !es[|es| - 1].cls.Release? then NoEvent
    else MetaFor(Streak(Spoken(es)))
  }

  function MetaFor(k: nat): Class {
    if k % 3 == 2 then DoubleClick else if k > 0 && k % 3 == 0 then TripleClick else NoEvent
  }

  /** All meta-events due in the course of a trace. */
  function AllDue(es: seq<Timed>): seq<Class> {
    if |es| == 0 then []
    else AllDue(es[..|es| - 1]) + if Due(es).NoEvent? then [] else [Due(es)]
  }

  /** An unbroken sequence of `2 * k` clicks and releases of one button, starting at `from`. */
  ghost predicate Unbroken(es: seq<Timed>, from: nat, k: nat) {
    && from + 2 * k <= |es|
    && forall i :: 0 <= i < 2 * k ==> Link(es, from, i)
  }

  predicate Link(es: seq<Timed>, from: nat, i: nat)
    requires from + i < |es|
  {
    es[from + i].cls == (if i % 2 == 0 then Click else Release) && (i > 0 ==> Continues(es[from + i - 1], es[from + i]))
  }

  /** The first click of the sequence does not continue an earlier one. */
  predicate Fresh(es: seq<Timed>, from: nat)
    requires from < |es|
  {
    from > 0 && es[from - 1].cls.Release? && Continues(es[from - 1], es[from]) ==> Streak(es[..from]) == 0
  }

  /** What a click and the release that belongs to it do to the streak. */
  lemma StreakPair(before: seq<Timed>, click: Timed, release: Timed)
    requires click.cls.Click? && release.cls.Release? && Continues(click, release)
    ensures Streak(before + [click] + [release]) == 1 +
      if |before| > 0 && before[|before| - 1].cls.Release? && Continues(before[|before| - 1], click)
        then Streak(before) else 0
  {
    hide Streak, Continues;
    StreakNext(before, click);
    StreakNext(before + [click], release);
  }

  lemma StreakNext(es: seq<Timed>, e: Timed)
    ensures Streak(es + [e]) ==
      match e.cls
      case Release => if |es| > 0 && es[|es| - 1].cls.Click? && Continues(es[|es| - 1], e) then Streak(es) + 1 else 0
      case Click => if |es| > 0 && es[|es| - 1].cls.Release? && Continues(es[|es| - 1], e) then Streak(es) else 0
      case _ => 0
  {
    hide Continues;
    assert (es + [e])[..|es|] == es;
  }

  /** After the k-th pair of an unbroken sequence the streak is k. */
  lemma {:induction false} StreakCounts(es: seq<Timed>, from: nat, k: nat)
    requires k > 0 && Unbroken(es, from, k) && Fresh(es, from)
    ensures Streak(es[..from + 2 * k]) == k
  {
    hide Streak, Continues;
    var n := from + 2 * k;
    var before := es[..n - 2];
    assert Link(es, from, 2 * k - 1) && Link(es, from, 2 * k - 2);
    assert es[..n] == before + [es[n - 2]] + [es[n - 1]];
    StreakPair(before, es[n - 2], es[n - 1]);
    if k > 1 {
      assert Link(es, from, 2 * k - 3);
      StreakCounts(es, from, k - 1);
    }
  }

  /** The k-th click-release pair of an unbroken sequence makes a double click exactly when k is 2 modulo 3, and a
      triple click exactly when it is 0 modulo 3. */
  lemma KthPair(es: seq<Timed>, from: nat, k: nat)
    requires k > 0 && Unbroken(Spoken(es), from, k) && from + 2 * k == |Spoken(es)| && Fresh(Spoken(es), from)
    requires |es| > 0 && es[|es| - 1].cls.Release?
    ensures Due(es) == DoubleClick <==> k % 3 == 2
    ensures Due(es) == TripleClick <==> k % 3 == 0
  {
    StreakCounts(Spoken(es), from, k);
    assert Spoken(es)[..from + 2 * k] == Spoken(es);
  }

  /** What the recogniser remembers of a trace. */
  ghost predicate Tracked(es: seq<Timed>, cls: Class, code: nat, time: nat, count: nat) {
    && (cls == NoEvent || cls == Click || cls == Release)
    && count == Streak(es) % 3
    && (cls != NoEvent ==> |es| > 0 && es[|es| - 1] == Timed(cls, code, time))
    && (cls == Release ==> Streak(es) > 0)
    && (cls == NoEvent ==> Streak(es) == 0 && (|es| > 0 ==> !es[|es| - 1].cls.Click?))
  }

  lemma TrackClick(es: seq<Timed>, cls: Class, code: nat, time: nat, count: nat, e: Timed)
    requires Tracked(es, cls, code, time, count) && e.cls.Click?
    ensures cls == Release && code == e.code && Elapsed(e.time, time) <= INTERVAL ==>
      Tracked(es + [e], Click, code, e.time, count)
    ensures !(cls == Release && code == e.code && Elapsed(e.time, time) <= INTERVAL) ==>
      Tracked(es + [e], Click, e.code, e.time, 0)
  {
    assert (es + [e])[..|es|] == es;
  }

  lemma TrackRelease(es: seq<Timed>, code: nat, time: nat, count: nat, e: Timed)
    requires Tracked(es, Click, code, time, count) && e.cls.Release? && code == e.code
    requires Elapsed(e.time, time) <= INTERVAL
    ensures Tracked(es + [e], Release, code, e.time, (count + 1) % 3) && Streak(es + [e]) == Streak(es) + 1
  {
    assert (es + [e])[..|es|] == es;
  }

  lemma TrackOther(es: seq<Timed>, cls: Class, code: nat, time: nat, count: nat, e: Timed)
    requires Tracked(es, cls, code, time, count) && !e.cls.Click?
    requires !(e.cls.Release? && cls == Click && code == e.code && Elapsed(e.time, time) <= INTERVAL)
    ensures cls == NoEvent ==> Tracked(es + [e], NoEvent, code, time, count)
    ensures cls != NoEvent ==> Tracked(es + [e], NoEvent, 0, 0, 0)
    ensures Streak(es + [e]) == 0
  {
    assert (es + [e])[..|es|] == es;
  }

  // ---------- the event source ----------

  class EventSource {
    // statics of the file
    var clickAt: Point
    var isDragging: bool
    var controlShift: nat
    var metaEvent: Event
    var lastMetaClass: Class
    var queued: seq<Event>
    // statics of `fill_event`
    var prevClass: Class
    var prevCode: nat
    var prevTime: nat
    var repeatCount: nat
    var pressedButtons: set<Button>
    var lastMouse: Point
    // history
    ghost var trace: seq<Timed>
    ghost var metas: seq<Event>
    ghost var deliveredMetas: seq<Event>
    ghost var accepted: seq<Event>
    ghost var released: seq<Event>

    /** The recogniser's variables say what the trace says. */
    ghost predicate Tracks()
      reads this`trace, this`prevClass, this`prevCode, this`prevTime, this`repeatCount
    {
      Tracked(Spoken(trace), prevClass, prevCode, prevTime, repeatCount)
    }

    /** Every meta-event that was due has been delivered once, or is the one pending. */
    ghost predicate MetasKept()
      reads this`trace, this`metas, this`deliveredMetas, this`metaEvent
    {
      && metas == deliveredMetas + Pending()
      && Classes(metas) == AllDue(trace)
    }

    ghost function Pending(): seq<Event>
      reads this`metaEvent
    {
      if metaEvent.cls == NoEvent then [] else [metaEvent]
    }

    /** Queued events come out in order; of resizes only the newest is kept. */
    ghost predicate QueueKept()
      reads this`accepted, this`released, this`queued
    {
      QueueInOrder(accepted, released, queued)
    }

    ghost predicate Valid()
      reads this
    {
      Tracks() && MetasKept() && QueueKept()
    }

    constructor (origin: Point)
      ensures Valid() && trace == [] && metas == [] && deliveredMetas == [] && accepted == [] && released == []
      ensures queued == []
      ensures metaEvent.cls == NoEvent
    {
      clickAt, isDragging, controlShift := Point(-1, -1), false, 0;
      metaEvent := Event(NoEvent, Code(0), Point(0, 0), Point(0, 0), Point(0, 0), {}, 0);
      lastMetaClass, queued := NoEvent, [];
      prevClass, prevCode, prevTime, repeatCount, pressedButtons, lastMouse := NoEvent, 0, 0, 0, {}, origin;
      trace, metas, deliveredMetas, accepted, released := [], [], [], [], [];
    }

    /** The translation of a system event. */
    method Translate(into: Event, sys: SysEvent) returns (ev: Event)
      modifies `clickAt, `isDragging, `controlShift, `pressedButtons
      ensures ev.cls == ClassOf(sys, old(lastMouse)) && controlShift == ev.modifiers == sys.modifiers
      ensures ev.mouse == sys.at && ev.click == clickAt
      ensures ev.cls == Click || ev.cls == Release ==> ev.payload == Code(CodeOf(sys))
      ensures clickAt == if ev.cls == Click || ev.cls == LongPress || (ev.cls == Drag && !old(isDragging)) then sys.at
        else old(clickAt)
      ensures isDragging == DraggingAfter(old(isDragging), ev.cls, sys)
      ensures pressedButtons == ButtonsAfter(old(pressedButtons), sys)
    {
      ev := into.(cls := NoEvent, mouse := sys.at, click := clickAt, modifiers := sys.modifiers);
      controlShift := sys.modifiers;
      match sys.kind {
        case Nothing =>
        case Keyboard(key) =>
          ev := ev.(cls := KeyDown, payload := Code(key));
        case Characters(address) =>
          ev := ev.(cls := Text, payload := Pointer(address));
        case Buttons(action) =>
          pressedButtons := sys.held;
          match action {
            case Press(b) =>
              clickAt, isDragging := sys.at, true;
              pressedButtons := pressedButtons + {b};
              ev := ev.(cls := Click, payload := Code(ButtonCode(b)), click := sys.at);
            case WheelUp =>
              clickAt := sys.at;
              ev := ev.(cls := Click, payload := Code(WHEEL_UP), click := sys.at);
            case WheelDown =>
              clickAt := sys.at;
              ev := ev.(cls := Click, payload := Code(WHEEL_DOWN), click := sys.at);
            case Lift(b) =>
              isDragging := false;
              pressedButtons := pressedButtons - {b};
              ev := ev.(cls := Release, payload := Code(ButtonCode(b)));
            case HeldFinger =>
              clickAt := sys.at;
              ev := ev.(cls := LongPress, payload := Code(ButtonCode(Left)), click := sys.at);
            case Moved =>
          }
        case MouseMove =>
          if lastMouse == sys.at {
            ev := ev.(payload := Code(0));
          } else if sys.held != {} {
            ev := ev.(cls := Drag, payload := Held(sys.held));
            if !isDragging {
              clickAt, isDragging := sys.at, true;
              ev := ev.(click := sys.at);
            }
          } else {
            ev := ev.(cls := Move, payload := Code(0));
            isDragging := false;
          }
        case Window(code, size) =>
          ev := ev.(cls := System, payload := Code(code), size := size);
      }
    }

    /** The double and triple click recogniser. */
    method Recognise(ev: Event, currTime: nat)
      requires Tracks() && MetasKept() && metaEvent.cls == NoEvent && currTime < UINT32
      requires ev.cls == Click || ev.cls == Release ==> ev.payload.Code?
      modifies `trace, `metas, `metaEvent, `prevClass, `prevCode, `prevTime, `repeatCount
      ensures Tracks() && MetasKept() && trace == old(trace) + [TimedOf(ev, currTime)]
      ensures metaEvent.cls == Due(trace)
      ensures metaEvent.cls != NoEvent ==> metaEvent == ev.(cls := Due(trace))
    {
      hide Tracks, AllDue, Classes, Due, TimedOf;
      TraceGrows(trace, TimedOf(ev, currTime));
      Track(ev, currTime);
      ClassesSnoc(metas, Pending());
      metas := metas + Pending();
    }

    /** The sequence of clicks and releases is followed up. */
    method Track(ev: Event, currTime: nat)
      requires Tracks() && metaEvent.cls == NoEvent && currTime < UINT32
      requires ev.cls == Click || ev.cls == Release ==> ev.payload.Code?
      modifies `trace, `metaEvent, `prevClass, `prevCode, `prevTime, `repeatCount
      ensures Tracks() && trace == old(trace) + [TimedOf(ev, currTime)] && metaEvent.cls == Due(trace)
      ensures metaEvent.cls != NoEvent ==> metaEvent == ev.(cls := Due(trace))
    {
      hide Streak, Spoken, Tracked, Due, AllDue;
      var code := if ev.payload.Code? then ev.payload.code else 0;
      ghost var now, es := TimedOf(ev, currTime), Spoken(trace);
      TraceGrows(trace, now);
      DueAfter(trace, now);
      trace := trace + [now];
      if ev.cls == Click {
        TrackClick(es, prevClass, prevCode, prevTime, repeatCount, now);
        if prevClass == Release && prevCode == code && Elapsed(currTime, prevTime) <= INTERVAL {
          prevClass, prevTime := Click, currTime;
        } else {
          prevClass, prevCode, prevTime, repeatCount := Click, code, currTime, 0;
        }
      } else if ev.cls == Release && prevClass == Click && prevCode == code && Elapsed(currTime, prevTime) <= INTERVAL {
        TrackRelease(es, prevCode, prevTime, repeatCount, now);
        CountIs(es, prevClass, prevCode, prevTime, repeatCount);
        prevClass, prevTime := Release, currTime;
        repeatCount := repeatCount + 1;
        if repeatCount == 2 {
          metaEvent := ev.(cls := DoubleClick);
        } else if repeatCount == 3 {
          metaEvent := ev.(cls := TripleClick);
          repeatCount := 0;
        }
      } else {
        if ev.cls != NoEvent {
          TrackOther(es, prevClass, prevCode, prevTime, repeatCount, now);
        }
        if ev.cls != NoEvent && prevClass != NoEvent {
          prevClass, prevCode, prevTime, repeatCount := NoEvent, 0, 0, 0;
        }
      }
    }

    /** `fill_event` */
    method FillEvent(into: Event, sys: SysEvent, currTime: nat) returns (ev: Event)
      requires Valid() && metaEvent.cls == NoEvent && currTime < UINT32
      modifies this
      ensures Valid() && queued == old(queued) && accepted == old(accepted) && released == old(released)
      ensures deliveredMetas == old(deliveredMetas) && lastMetaClass == old(lastMetaClass)
      ensures ev.cls == ClassOf(sys, old(lastMouse)) && trace == old(trace) + [TimedOf(ev, currTime)]
      ensures metaEvent.cls == Due(trace)
      ensures metaEvent.cls != NoEvent ==>
        metaEvent.payload == ev.payload && metaEvent.mouse == ev.mouse && metaEvent.click == ev.click
      ensures ev.buttons == pressedButtons == ButtonsAfter(old(pressedButtons), sys)
    {
      hide Tracks, MetasKept, QueueKept, Due;
      ev := Translate(into, sys);
      ClassCode(sys, lastMouse);
      Recognise(ev, currTime);
      ev := ev.(buttons := pressedButtons);
      lastMouse := ev.mouse;
    }

    /** `display_poll_event`: queued events first, then a pending meta-event, and only then the system. */
    method Poll(into: Event, sys: SysEvent, currTime: nat) returns (ev: Event)
      requires Valid() && currTime < UINT32
      modifies this
      ensures Valid() && accepted == old(accepted)
      ensures old(queued) != [] ==>
        && ev == old(queued)[0] && queued == old(queued)[1..] && trace == old(trace) && metaEvent == old(metaEvent)
        && released == old(released) + [ev]
      ensures old(queued) == [] && old(metaEvent).cls != NoEvent ==>
        && ev == old(metaEvent) && metaEvent.cls == NoEvent && lastMetaClass == ev.cls && trace == old(trace)
        && deliveredMetas == old(deliveredMetas) + [ev]
      ensures old(queued) == [] && old(metaEvent).cls == NoEvent ==>
        && trace == old(trace) + [TimedOf(ev, currTime)] && ev.cls == ClassOf(sys, old(lastMouse))
        && metaEvent.cls == Due(trace) && lastMetaClass == NoEvent
      ensures old(queued) != [] || old(metaEvent).cls == NoEvent ==> deliveredMetas == old(deliveredMetas)
    {
      hide Tracks, Due, Spoken, AllDue, Streak, Plain, LastResize;
      if queued != [] {
        ev := queued[0];
        QueueMoves(accepted, released, queued);
        queued := queued[1..];
        released := released + [ev];
      } else if metaEvent.cls != NoEvent {
        ev := metaEvent;
        lastMetaClass := metaEvent.cls;
        metaEvent := metaEvent.(cls := NoEvent);
        deliveredMetas := deliveredMetas + [ev];
      } else {
        lastMetaClass := NoEvent;
        ev := FillEvent(into, sys, currTime);
      }
    }

    /** `queue_event` */
    method QueueEvent(ev: Event)
      requires Valid()
      modifies `queued, `accepted
      ensures Valid() && accepted == old(accepted) + [ev]
      ensures IsResize(ev) ==> queued == Plain(old(queued)) + [ev]
      ensures !IsResize(ev) ==> queued == old(queued) + [ev]
    {
      hide Tracks, MetasKept, Plain, LastResize, QueueInOrder;
      QueueGrows(accepted, released, queued, ev);
      if IsResize(ev) {
        PlainNone();
        var kept: seq<Event> := [];
        var i := 0;
        while i < |queued|
          invariant i <= |queued| && kept == Plain(queued[..i]) && queued == old(queued) && accepted == old(accepted)
        {
          PlainSnoc(queued[..i], queued[i]);
          assert queued[..i + 1] == queued[..i] + [queued[i]];
          if !IsResize(queued[i]) {
            kept := kept + [queued[i]];
          }
          i := i + 1;
        }
        assert queued[..i] == queued;
        queued := kept;
      }
      queued := queued + [ev];
      accepted := accepted + [ev];
    }
  }

  // ---------- auxiliary ----------

  function TimedOf(ev: Event, time: nat): Timed {
    Timed(ev.cls, if ev.payload.Code? then ev.payload.code else 0, time)
  }

  /** Which class a system event is translated to. */
  function ClassOf(sys: SysEvent, lastMouse: Point): Class {
    match sys.kind
    case Nothing => NoEvent
    case Keyboard(_) => KeyDown
    case Characters(_) => Text
    case Buttons(a) => (match a
      case Press(_) => Click
      case WheelUp => Click
      case WheelDown => Click
      case Lift(_) => Release
      case HeldFinger => LongPress
      case Moved => NoEvent)
    case MouseMove => if lastMouse == sys.at then NoEvent else if sys.held != {} then Drag else Move
    case Window(_, _) => System
  }

  function CodeOf(sys: SysEvent): nat {
    if !sys.kind.Buttons? then 0
    else
      match sys.kind.a
      case Press(b) => ButtonCode(b)
      case Lift(b) => ButtonCode(b)
      case WheelUp => WHEEL_UP
      case WheelDown => WHEEL_DOWN
      case _ => 0
  }

  function ButtonsAfter(before: set<Button>, sys: SysEvent): set<Button> {
    if !sys.kind.Buttons? then before
    else
      match sys.kind.a
      case Press(b) => sys.held + {b}
      case Lift(b) => sys.held - {b}
      case _ => sys.held
  }

  /** Dragging begins with a press, or with a drag whose press was never seen; wheels do not count. */
  function DraggingAfter(before: bool, cls: Class, sys: SysEvent): bool {
    if cls == Drag || (sys.kind.Buttons? && sys.kind.a.Press?) then true
    else if cls == Release || cls == Move then false
    else before
  }

  lemma ClassCode(sys: SysEvent, lastMouse: Point)
    ensures ClassOf(sys, lastMouse) != DoubleClick && ClassOf(sys, lastMouse) != TripleClick
  {
  }

  lemma CountIs(es: seq<Timed>, cls: Class, code: nat, time: nat, count: nat)
    requires Tracked(es, cls, code, time, count)
    ensures count == Streak(es) % 3
  {
  }

  lemma DueAfter(es: seq<Timed>, e: Timed)
    ensures !e.cls.Release? ==> Due(es + [e]) == NoEvent
    ensures e.cls.Release? ==> Due(es + [e]) == MetaFor(Streak(Spoken(es) + [e]))
  {
    assert (es + [e])[..|es|] == es;
  }

  lemma ClassesSnoc(es: seq<Event>, more: seq<Event>)
    ensures Classes(es + more) == Classes(es) + Classes(more)
    ensures |more| == 1 ==> Classes(more) == [more[0].cls]
    ensures |more| == 0 ==> Classes(more) == []
  {
  }

  function Classes(es: seq<Event>): (cs: seq<Class>)
    ensures |cs| == |es|
  {
    seq(|es|, i requires 0 <= i < |es| => es[i].cls)
  }

  lemma TraceGrows(es: seq<Timed>, e: Timed)
    ensures (es + [e])[..|es|] == es
    ensures Spoken(es + [e]) == if e.cls.NoEvent? then Spoken(es) else Spoken(es) + [e]
    ensures !e.cls.NoEvent? ==> Spoken(es + [e])[..|Spoken(es)|] == Spoken(es)
    ensures AllDue(es + [e]) == AllDue(es) + if Due(es + [e]).NoEvent? then [] else [Due(es + [e])]
  {
    assert (es + [e])[..|es|] == es;
  }

  predicate IsResize(ev: Event) {
    ev.cls == System && ev.payload == Code(RESIZE)
  }

  function Plain(es: seq<Event>): seq<Event> {
    if |es| == 0 then [] else Plain(es[..|es| - 1]) + if IsResize(es[|es| - 1]) then [] else [es[|es| - 1]]
  }

  /** The newest resize, if any. */
  function LastResize(es: seq<Event>): seq<Event> {
    if |es| == 0 then [] else if IsResize(es[|es| - 1]) then [es[|es| - 1]] else LastResize(es[..|es| - 1])
  }

  lemma PlainNone()
    ensures Plain([]) == []
  {
  }

  lemma PlainSnoc(es: seq<Event>, e: Event)
    ensures Plain(es + [e]) == Plain(es) + if IsResize(e) then [] else [e]
    ensures LastResize(es + [e]) == if IsResize(e) then [e] else LastResize(es)
  {
    assert (es + [e])[..|es|] == es;
  }

  lemma {:induction false} TakeFirst(es: seq<Event>)
    requires |es| > 0
    ensures Plain(es) == (if IsResize(es[0]) then [] else [es[0]]) + Plain(es[1..])
  {
    if |es| > 1 {
      var init := es[..|es| - 1];
      TakeFirst(init);
      assert es[1..][..|es| - 2] == init[1..];
    }
  }

  ghost predicate QueueInOrder(accepted: seq<Event>, released: seq<Event>, queued: seq<Event>) {
    && Plain(accepted) == Plain(released) + Plain(queued)
    && (forall i, j :: 0 <= i < j < |queued| ==> !(IsResize(queued[i]) && IsResize(queued[j])))
    && (forall i :: 0 <= i < |queued| && IsResize(queued[i]) ==> LastResize(accepted) == [queued[i]])
  }

  lemma QueueMoves(accepted: seq<Event>, released: seq<Event>, queued: seq<Event>)
    requires QueueInOrder(accepted, released, queued) && |queued| > 0
    ensures QueueInOrder(accepted, released + [queued[0]], queued[1..])
  {
    hide Plain, LastResize;
    TakeFirst(queued);
    PlainSnoc(released, queued[0]);
  }

  /** A resize replaces the one before. */
  lemma QueueGrows(accepted: seq<Event>, released: seq<Event>, queued: seq<Event>, ev: Event)
    requires QueueInOrder(accepted, released, queued)
    ensures QueueInOrder(accepted + [ev], released, (if IsResize(ev) then Plain(queued) else queued) + [ev])
  {
    hide Plain, LastResize;
    PlainTwice(queued);
    PlainSnoc(queued, ev);
    PlainSnoc(Plain(queued), ev);
    PlainSnoc(accepted, ev);
  }

  /** Without the resizes nothing is left to remove. */
  lemma PlainTwice(es: seq<Event>)
    ensures Plain(Plain(es)) == Plain(es)
    ensures forall i :: 0 <= i < |Plain(es)| ==> !IsResize(Plain(es)[i])
  {
    PlainHasNone(es);
    PlainKeeps(Plain(es));
  }

  lemma {:induction false} PlainHasNone(es: seq<Event>)
    ensures forall i :: 0 <= i < |Plain(es)| ==> !IsResize(Plain(es)[i])
  {
    if |es| > 0 {
      PlainHasNone(es[..|es| - 1]);
    }
  }

  lemma {:induction false} PlainKeeps(es: seq<Event>)
    requires forall i :: 0 <= i < |es| ==> !IsResize(es[i])
    ensures Plain(es) == es
  {
    if |es| > 0 {
      PlainKeeps(es[..|es| - 1]);
      assert es == es[..|es| - 1] + [es[|es| - 1]];
    }
  }
}
