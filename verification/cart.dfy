/**
  The add-to-cart micro-interaction (src/app/anime-5/page.tsx): each button
  runs `idle -> loading -> success -> idle` driven by two timers, notifies
  the page once per accepted click, and launches a floating "+1" animation
  that a third timer removes. The page counts notifications in its badge.
 */
module Cart {

  import opened Wrappers

  datatype ButtonState = Idle | Loading | Success

  datatype FloatingAnimation = FloatingAnimation(id: string, startX: int, startY: int, endX: int, endY: int)

  /**
    A scheduled callback: the 800 ms one that finishes loading, the 1500 ms
    one that returns to idle, and the 1000 ms one that removes an animation.
   */
  datatype Timer = LoadDone | BackToIdle | RemoveFloating(id: string)

  datatype Button = Button(state: ButtonState, floating: seq<FloatingAnimation>, timers: seq<Timer>)

  const IdleButton := Button(Idle, [], [])

  /** The `disabled` attribute of the underlying button. */
  predicate ButtonDisabled(disabledProp: bool, s: ButtonState) {
    disabledProp || s != Idle
  }

  /** `handleClick`: only an enabled idle button starts loading and schedules the 800 ms timer. */
  function Click(b: Button, disabledProp: bool): (r: Button)
    ensures ButtonDisabled(disabledProp, b.state) ==> r == b
    ensures !ButtonDisabled(disabledProp, b.state) ==>
      r.state == Loading && r.floating == b.floating
      && multiset(r.timers) == multiset(b.timers) + multiset{LoadDone}
  {
    if disabledProp || b.state != Idle then b
    else b.(state := Loading, timers := b.timers + [LoadDone])
  }

  /** The removal timer's `filter`: drops exactly the animations with that id, keeping the order of the rest. */
  function RemoveAnimation(fs: seq<FloatingAnimation>, id: string): (r: seq<FloatingAnimation>)
    ensures |r| <= |fs|
    ensures forall a :: a in r <==> a in fs && a.id != id
    ensures (forall a :: a in fs ==> a.id != id) ==> r == fs
  {
    if fs == [] then []
    else if fs[0].id != id then [fs[0]] + RemoveAnimation(fs[1..], id)
    else RemoveAnimation(fs[1..], id)
  }

  /** Removal distributes over concatenation, so the animations that stay keep their order. */
  lemma {:induction false} RemoveAnimationAppend(a: seq<FloatingAnimation>, b: seq<FloatingAnimation>, id: string)
    ensures RemoveAnimation(a + b, id) == RemoveAnimation(a, id) + RemoveAnimation(b, id)
  {
    if a != [] {
      assert (a + b)[0] == a[0] && (a + b)[1..] == a[1..] + b;
      RemoveAnimationAppend(a[1..], b, id);
    } else {
      assert a + b == b;
    }
  }

  /** Removing an animation twice is the same as removing it once. */
  lemma RemoveAnimationIdempotent(fs: seq<FloatingAnimation>, id: string)
    ensures RemoveAnimation(RemoveAnimation(fs, id), id) == RemoveAnimation(fs, id)
  {
  }

  /** Removing after appending a fresh animation with that id gives back the list. */
  lemma RemoveUndoesAppend(fs: seq<FloatingAnimation>, a: FloatingAnimation)
    requires forall x :: x in fs ==> x.id != a.id
    ensures RemoveAnimation(fs + [a], a.id) == fs
  {
    RemoveAnimationAppend(fs, [a], a.id);
    assert RemoveAnimation([a], a.id) == RemoveAnimation([], a.id);
  }

  /** The timer list with entry `i` taken out. */
  function RemoveAt(ts: seq<Timer>, i: nat): (r: seq<Timer>)
    requires i < |ts|
    ensures multiset(r) == multiset(ts) - multiset{ts[i]}
  {
    assert ts == ts[..i] + [ts[i]] + ts[i + 1..];
    ts[..i] + ts[i + 1..]
  }

  /** The outcome of a timer firing; `notified` is whether `onAddToCart` was called. */
  datatype Fired = Fired(button: Button, notified: bool)

  /**
    The 800 ms callback: success, one notification, the floating animation
    when the cart icon was found (`target`), its removal timer, and the
    1500 ms timer back to idle.
   */
  function FinishLoading(b: Button, ts: seq<Timer>, target: Option<FloatingAnimation>): Button {
    match target
    case None => Button(Success, b.floating, ts + [BackToIdle])
    case Some(a) => Button(Success, b.floating + [a], ts + [RemoveFloating(a.id), BackToIdle])
  }

  /** Fires the pending timer at index `i`; an index with no timer does nothing. */
  function FireTimer(b: Button, i: nat, target: Option<FloatingAnimation>): (r: Fired)
    ensures i >= |b.timers| ==> r == Fired(b, false)
    ensures r.notified <==> i < |b.timers| && b.timers[i] == LoadDone
    ensures r.notified ==> r.button.state == Success
    ensures i < |b.timers| && b.timers[i] == LoadDone ==>
      (target.Some? ==> r.button.floating == b.floating + [target.value])
      && (target.None? ==> r.button.floating == b.floating)
    ensures i < |b.timers| && b.timers[i] == LoadDone ==>
      r.button.timers == b.timers[..i] + b.timers[i + 1..]
        + (if target.Some? then [RemoveFloating(target.value.id)] else []) + [BackToIdle]
    ensures i < |b.timers| && b.timers[i] == BackToIdle ==>
      r.button.state == Idle && r.button.floating == b.floating
    ensures i < |b.timers| && b.timers[i].RemoveFloating? ==>
      r.button.state == b.state && r.button.floating == RemoveAnimation(b.floating, b.timers[i].id)
    ensures i < |b.timers| && b.timers[i] != LoadDone ==> r.button.timers == b.timers[..i] + b.timers[i + 1..]
  {
    if i >= |b.timers| then Fired(b, false)
    else
      var ts := RemoveAt(b.timers, i);
      match b.timers[i]
      case LoadDone => Fired(FinishLoading(b, ts, target), true)
      case BackToIdle => Fired(b.(state := Idle, timers := ts), false)
      case RemoveFloating(id) => Fired(b.(floating := RemoveAnimation(b.floating, id), timers := ts), false)
  }

  /** Exactly one 800 ms timer is pending while loading and one 1500 ms timer while showing success. */
  predicate Consistent(b: Button) {
    && multiset(b.timers)[LoadDone] == (if b.state == Loading then 1 else 0)
    && multiset(b.timers)[BackToIdle] == (if b.state == Success then 1 else 0)
  }

  /** A click keeps a button consistent. */
  lemma ClickConsistent(b: Button, disabledProp: bool)
    requires Consistent(b)
    ensures Consistent(Click(b, disabledProp))
  {
  }

  /**
    A timer keeps a button consistent, and on a consistent button the only
    state changes are `loading -> success` (with the one notification) and
    `success -> idle`.
   */
  lemma FireTimerTransitions(b: Button, i: nat, target: Option<FloatingAnimation>)
    requires Consistent(b)
    ensures Consistent(FireTimer(b, i, target).button)
    ensures var r := FireTimer(b, i, target);
      || r.button.state == b.state
      || (b.state == Loading && r.button.state == Success && r.notified)
      || (b.state == Success && r.button.state == Idle)
    ensures FireTimer(b, i, target).notified ==> b.state == Loading
  {
  }

  // ---------------------------------------------------------------------------
  // The page: several buttons share one cart counter

  datatype Page = Page(buttons: seq<Button>, cartCount: nat)

  /** Six product cards and the demonstration button, all idle, and an empty cart. */
  const InitialPage := Page(seq(7, _ => IdleButton), 0)

  /** `CartIcon`: the badge is rendered exactly when the count is positive. */
  predicate BadgeShown(count: nat) {
    count > 0
  }

  datatype PageEvent =
    | Clicked(button: nat, disabledProp: bool)
    | TimerFired(button: nat, timer: nat, target: Option<FloatingAnimation>)

  /** A page step, with whether it accepted a click and whether `handleAddToCart` ran. */
  datatype PageStepResult = PageStepResult(page: Page, accepted: bool, notified: bool)

  function PageStep(p: Page, e: PageEvent): (r: PageStepResult)
    ensures r.page.cartCount == p.cartCount + (if r.notified then 1 else 0)
    ensures |r.page.buttons| == |p.buttons|
    ensures r.accepted ==> e.Clicked? && e.button < |p.buttons| && !e.disabledProp && p.buttons[e.button].state == Idle
    ensures e.Clicked? && e.button < |p.buttons| && !ButtonDisabled(e.disabledProp, p.buttons[e.button].state)
      ==> r.accepted
    ensures r.notified <==>
      e.TimerFired? && e.button < |p.buttons| && e.timer < |p.buttons[e.button].timers|
      && p.buttons[e.button].timers[e.timer] == LoadDone
    ensures e.button >= |p.buttons| ==> r == PageStepResult(p, false, false)
    ensures e.Clicked? && e.button < |p.buttons| ==>
      r.page.buttons == p.buttons[e.button := Click(p.buttons[e.button], e.disabledProp)]
    ensures e.TimerFired? && e.button < |p.buttons| ==>
      r.page.buttons == p.buttons[e.button := FireTimer(p.buttons[e.button], e.timer, e.target).button]
  {
    match e
    case Clicked(i, d) =>
      if i < |p.buttons| then
        var b := p.buttons[i];
        var nb := Click(b, d);
        PageStepResult(p.(buttons := p.buttons[i := nb]), !ButtonDisabled(d, b.state), false)
      else PageStepResult(p, false, false)
    case TimerFired(i, t, target) =>
      if i < |p.buttons| then
        var f := FireTimer(p.buttons[i], t, target);
        PageStepResult(
          Page(p.buttons[i := f.button], p.cartCount + (if f.notified then 1 else 0)),
          false, f.notified)
      else PageStepResult(p, false, false)
  }

  function NumLoading(bs: seq<Button>): nat {
    if bs == [] then 0 else (if bs[0].state == Loading then 1 else 0) + NumLoading(bs[1..])
  }

  lemma {:induction false} NumLoadingUpdate(bs: seq<Button>, i: nat, x: Button)
    requires i < |bs|
    ensures NumLoading(bs[i := x]) + (if bs[i].state == Loading then 1 else 0)
         == NumLoading(bs) + (if x.state == Loading then 1 else 0)
  {
    if i > 0 {
      assert bs[i := x][1..] == bs[1..][i - 1 := x];
      NumLoadingUpdate(bs[1..], i - 1, x);
    } else {
      assert bs[i := x][1..] == bs[1..];
    }
  }

  predicate AllConsistent(p: Page) {
    forall i :: 0 <= i < |p.buttons| ==> Consistent(p.buttons[i])
  }

  /** The page after a run of events, with the number of clicks it accepted. */
  function PageRun(p: Page, events: seq<PageEvent>): (Page, nat)
    decreases |events|
  {
    if events == [] then (p, 0)
    else
      var s := PageStep(p, events[0]);
      var (q, n) := PageRun(s.page, events[1..]);
      (q, n + (if s.accepted then 1 else 0))
  }

  /** One step keeps every button consistent and balances notifications against accepted clicks. */
  lemma PageStepInvariant(p: Page, e: PageEvent)
    requires AllConsistent(p)
    ensures AllConsistent(PageStep(p, e).page)
    ensures var r := PageStep(p, e);
      r.page.cartCount + NumLoading(r.page.buttons)
      == p.cartCount + NumLoading(p.buttons) + (if r.accepted then 1 else 0)
  {
    match e
    case Clicked(i, d) =>
      if i < |p.buttons| {
        ClickConsistent(p.buttons[i], d);
        NumLoadingUpdate(p.buttons, i, Click(p.buttons[i], d));
      }
    case TimerFired(i, t, target) =>
      if i < |p.buttons| {
        FireTimerTransitions(p.buttons[i], t, target);
        NumLoadingUpdate(p.buttons, i, FireTimer(p.buttons[i], t, target).button);
      }
  }

  /**
    Every accepted click is either still loading or has added exactly one
    item to the cart: count plus loading buttons equals accepted clicks.
   */
  lemma {:induction false} CartCountsAcceptedClicks(p: Page, events: seq<PageEvent>)
    requires AllConsistent(p)
    ensures AllConsistent(PageRun(p, events).0)
    ensures PageRun(p, events).0.cartCount + NumLoading(PageRun(p, events).0.buttons)
         == p.cartCount + NumLoading(p.buttons) + PageRun(p, events).1
    ensures PageRun(p, events).0.cartCount >= p.cartCount
    decreases |events|
  {
    if events != [] {
      PageStepInvariant(p, events[0]);
      CartCountsAcceptedClicks(PageStep(p, events[0]).page, events[1..]);
    }
  }

  lemma {:induction false} InitialNumLoading(bs: seq<Button>)
    requires forall i :: 0 <= i < |bs| ==> bs[i] == IdleButton
    ensures NumLoading(bs) == 0
  {
    if bs != [] {
      InitialNumLoading(bs[1..]);
    }
  }

  /**
    From the initial page, the cart count never exceeds the number of
    accepted clicks, and the badge appears only after some click was accepted.
   */
  lemma FromInitialPage(events: seq<PageEvent>)
    ensures PageRun(InitialPage, events).0.cartCount <= PageRun(InitialPage, events).1
    ensures BadgeShown(PageRun(InitialPage, events).0.cartCount) ==> PageRun(InitialPage, events).1 > 0
  {
    InitialNumLoading(InitialPage.buttons);
    CartCountsAcceptedClicks(InitialPage, events);
  }
}
