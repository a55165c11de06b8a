/** The toast notifications of the front end: a configuration merged from
    defaults and per-call overrides, the set of container classes present
    in the page, and the queue of active toasts, oldest first, bounded by
    `maxToasts` by evicting the oldest.

    A toast element is identified by a number handed out in creation order;
    the timers that close toasts are events the caller applies
    (`RemoveToast`), and the 300 ms exit animation is not modelled. */
module Notifications {
  import opened Wrappers

  datatype Config = Config(
    duration: int,
    position: string,
    containerClass: string,
    toastClass: string,
    closeButtonClass: string,
    autoClose: bool,
    showCloseButton: bool,
    maxToasts: int)

  /** A configuration object given by a caller: each key may be present. */
  datatype Overrides = Overrides(
    duration: Option<int>,
    position: Option<string>,
    containerClass: Option<string>,
    toastClass: Option<string>,
    closeButtonClass: Option<string>,
    autoClose: Option<bool>,
    showCloseButton: Option<bool>,
    maxToasts: Option<int>)

  const NO_OVERRIDES := Overrides(None, None, None, None, None, None, None, None)

  const DEFAULT_CONFIG := Config(3000, "bottom-right", "toast-container", "toast", "toast-close", true, true, 5)

  /** `{ ...config, ...custom }`: every key the caller gives wins, every
      other key keeps its value. */
  function Merge(c: Config, o: Overrides): (r: Config)
    ensures r.duration == o.duration.GetOr(c.duration)
    ensures r.position == o.position.GetOr(c.position)
    ensures r.containerClass == o.containerClass.GetOr(c.containerClass)
    ensures r.toastClass == o.toastClass.GetOr(c.toastClass)
    ensures r.closeButtonClass == o.closeButtonClass.GetOr(c.closeButtonClass)
    ensures r.autoClose == o.autoClose.GetOr(c.autoClose)
    ensures r.showCloseButton == o.showCloseButton.GetOr(c.showCloseButton)
    ensures r.maxToasts == o.maxToasts.GetOr(c.maxToasts)
  {
    Config(o.duration.GetOr(c.duration), o.position.GetOr(c.position),
      o.containerClass.GetOr(c.containerClass), o.toastClass.GetOr(c.toastClass),
      o.closeButtonClass.GetOr(c.closeButtonClass), o.autoClose.GetOr(c.autoClose),
      o.showCloseButton.GetOr(c.showCloseButton), o.maxToasts.GetOr(c.maxToasts))
  }

  /** No overrides leave a configuration as it is. */
  lemma MergeNothing(c: Config)
    ensures Merge(c, NO_OVERRIDES) == c
  {
  }

  /** A toast as created: its number, message, class list, whether it has a
      close button, and the delay of its automatic close, if any. */
  datatype Toast = Toast(id: nat, message: string, className: string, closeButton: bool, closesAfter: Option<int>)

  datatype State = State(config: Config, containers: set<string>, active: seq<Toast>, nextId: nat)

  /** The module as loaded: default settings, no container, no toast. */
  const INITIAL := State(DEFAULT_CONFIG, {}, [], 0)

  /** The corner the container is fixed to: the four named positions, and
      bottom right for anything else. */
  function Corner(position: string): (r: (string, string))
    ensures r.0 == "top" <==> position == "top-right" || position == "top-left"
    ensures r.0 != "top" ==> r.0 == "bottom"
    ensures r.1 == "left" <==> position == "top-left" || position == "bottom-left"
    ensures r.1 != "left" ==> r.1 == "right"
  {
    if position == "top-right" then ("top", "right")
    else if position == "top-left" then ("top", "left")
    else if position == "bottom-left" then ("bottom", "left")
    else ("bottom", "right")
  }

  /** `initNotifications(custom)`: the configuration becomes the defaults
      with the caller's keys, and its container is added when the page has
      none of that class. The toasts already shown stay. */
  function InitNotifications(s: State, custom: Overrides): (r: State)
    ensures r.config == Merge(DEFAULT_CONFIG, custom)
    ensures r.containers == s.containers + {r.config.containerClass}
    ensures r.active == s.active && r.nextId == s.nextId
  {
    var c := Merge(DEFAULT_CONFIG, custom);
    s.(config := c, containers := s.containers + {c.containerClass})
  }

  /** Initialising twice with the defaults is initialising once. */
  lemma InitIdempotent(s: State)
    ensures InitNotifications(InitNotifications(s, NO_OVERRIDES), NO_OVERRIDES) == InitNotifications(s, NO_OVERRIDES)
  {
  }

  /** The list with one toast pushed, after the oldest was shifted out when
      the list already held `max` toasts. */
  function Enqueue(active: seq<Toast>, t: Toast, max: int): (r: seq<Toast>)
    ensures |r| >= 1 && r[|r| - 1] == t
    ensures |active| < max ==> r == active + [t]
    ensures |active| >= max && |active| > 0 ==> r == active[1..] + [t]
    ensures |active| == 0 ==> r == [t]
  {
    if |active| >= max && |active| > 0 then active[1..] + [t] else active + [t]
  }

  /** The queue never grows past the larger of its length and the limit
      (and one, since a toast is always added). */
  lemma EnqueueBounded(active: seq<Toast>, t: Toast, max: int)
    ensures |Enqueue(active, t, max)| <= if |active| >= max && |active| >= 1 then |active| else if max >= 1 then max else 1
  {
  }

  /** `toast toast-<type>`. */
  function ClassName(c: Config, kind: string): string {
    c.toastClass + " " + c.toastClass + "-" + kind
  }

  /** Building and queueing the toast once a container was found. */
  function Place(s: State, tc: Config, message: string, kind: string): (r: (State, Toast))
    ensures r.1.id == s.nextId && r.1.message == message && r.1.className == ClassName(tc, kind)
    ensures r.1.closeButton == tc.showCloseButton
    ensures r.1.closesAfter == if tc.autoClose then Some(tc.duration) else None
    ensures r.0.active == Enqueue(s.active, r.1, tc.maxToasts)
    ensures r.0.nextId == s.nextId + 1 && r.0.config == s.config && r.0.containers == s.containers
  {
    var toast := Toast(s.nextId, message, ClassName(tc, kind), tc.showCloseButton,
      if tc.autoClose then Some(tc.duration) else None);
    (s.(active := Enqueue(s.active, toast, tc.maxToasts), nextId := s.nextId + 1), toast)
  }

  /** Outcome of `showToast`: the new state and the toast, or a call that
      keeps calling itself (a stack overflow in the page). */
  datatype Shown = Shown(state: State, toast: Toast) | RecursesForever

  /** `showToast(message, type, custom)` as written: with no container of
      the requested class, the module is initialised with the defaults and
      the call repeats. When the caller asked for another container class,
      the repeated call finds the same page and the same settings, and
      repeats again without end. */
  function ShowToast(s: State, message: string, kind: string, custom: Overrides): (r: Shown)
    ensures r.Shown? ==> r.state.active == Enqueue(s.active, r.toast, Merge(r.state.config, custom).maxToasts)
    ensures r.Shown? ==> r.toast.id == s.nextId && r.state.nextId == s.nextId + 1
    ensures r.RecursesForever? <==>
      Merge(s.config, custom).containerClass !in s.containers
      && Merge(DEFAULT_CONFIG, custom).containerClass !in s.containers + {DEFAULT_CONFIG.containerClass}
  {
    var tc := Merge(s.config, custom);
    if tc.containerClass in s.containers then
      var p := Place(s, tc, message, kind);
      Shown(p.0, p.1)
    else
      var s1 := InitNotifications(s, NO_OVERRIDES);
      var tc1 := Merge(s1.config, custom);
      if tc1.containerClass in s1.containers then
        var p := Place(s1, tc1, message, kind);
        Shown(p.0, p.1)
      else RecursesForever
  }

  /** Why one repetition decides: once initialised with the defaults, the
      state a further repetition would see is the same one. */
  lemma RepeatSeesSameState(s: State, custom: Overrides)
    requires ShowToast(s, "", "", custom).RecursesForever?
    ensures InitNotifications(InitNotifications(s, NO_OVERRIDES), NO_OVERRIDES) == InitNotifications(s, NO_OVERRIDES)
    ensures Merge(InitNotifications(s, NO_OVERRIDES).config, custom).containerClass
      !in InitNotifications(s, NO_OVERRIDES).containers
  {
    InitIdempotent(s);
  }

  /** As written: a first toast asking for a container class the page does
      not have never returns. */
  lemma CustomContainerRecurses(message: string, kind: string)
    ensures ShowToast(INITIAL, message, kind, NO_OVERRIDES.(containerClass := Some("avisos"))).RecursesForever?
  {
    var o := NO_OVERRIDES.(containerClass := Some("avisos"));
    assert Merge(DEFAULT_CONFIG, o).containerClass == "avisos";
    assert "avisos" != DEFAULT_CONFIG.containerClass;
  }

  /** Corrected: a missing container is created under the class the call
      asks for, after the same reset to the defaults. */
  function ShowToastCorrected(s: State, message: string, kind: string, custom: Overrides): (r: Shown)
    ensures r.Shown?
    ensures r.toast.id == s.nextId && r.state.nextId == s.nextId + 1
    ensures ShowToast(s, message, kind, custom).Shown? ==> r == ShowToast(s, message, kind, custom)
  {
    var tc := Merge(s.config, custom);
    if tc.containerClass in s.containers then
      var p := Place(s, tc, message, kind);
      Shown(p.0, p.1)
    else
      var s0 := InitNotifications(s, NO_OVERRIDES);
      var tc1 := Merge(s0.config, custom);
      var s1 := s0.(containers := s0.containers + {tc1.containerClass});
      var p := Place(s1, tc1, message, kind);
      assert tc1.containerClass in s0.containers ==> s1 == s0;
      Shown(p.0, p.1)
  }

  /** `removeToast(toast)` once its exit animation ends: the toast leaves
      the list at its position, if it is still there. */
  function RemoveToast(s: State, id: nat): (r: State)
    ensures r.config == s.config && r.containers == s.containers && r.nextId == s.nextId
    ensures |r.active| == |s.active| - (if exists i :: 0 <= i < |s.active| && s.active[i].id == id then 1 else 0)
  {
    s.(active := RemoveFirst(s.active, id))
  }

  /** `splice(indexOf(toast), 1)`. */
  function RemoveFirst(ts: seq<Toast>, id: nat): (r: seq<Toast>)
    ensures |r| == |ts| - (if exists i :: 0 <= i < |ts| && ts[i].id == id then 1 else 0)
  {
    if ts == [] then []
    else if ts[0].id == id then ts[1..]
    else
      var rest := RemoveFirst(ts[1..], id);
      assert (exists i :: 0 <= i < |ts| && ts[i].id == id) <==> (exists i :: 0 <= i < |ts[1..]| && ts[1..][i].id == id) by {
        if exists i :: 0 <= i < |ts| && ts[i].id == id {
          var i :| 0 <= i < |ts| && ts[i].id == id;
          assert ts[1..][i - 1] == ts[i];
        }
      }
      [ts[0]] + rest
  }

  /** Every toast except those with the number, in order. */
  function Without(ts: seq<Toast>, id: nat): (r: seq<Toast>)
    ensures forall t :: t in r <==> t in ts && t.id != id
  {
    if ts == [] then []
    else if ts[0].id == id then Without(ts[1..], id)
    else [ts[0]] + Without(ts[1..], id)
  }

  predicate Ascending(ts: seq<Toast>) {
    forall i, j :: 0 <= i < j < |ts| ==> ts[i].id < ts[j].id
  }

  /** With numbers in creation order, removing one toast removes exactly
      the toasts with its number and keeps the others in order. */
  lemma {:induction false} RemoveFirstIsWithout(ts: seq<Toast>, id: nat)
    requires Ascending(ts)
    ensures RemoveFirst(ts, id) == Without(ts, id)
  {
    if ts != [] {
      assert Ascending(ts[1..]);
      RemoveFirstIsWithout(ts[1..], id);
      if ts[0].id == id {
        WithoutAbsent(ts[1..], id);
      }
    }
  }

  lemma {:induction false} WithoutAbsent(ts: seq<Toast>, id: nat)
    requires forall i :: 0 <= i < |ts| ==> ts[i].id != id
    ensures Without(ts, id) == ts
  {
    if ts != [] {
      WithoutAbsent(ts[1..], id);
    }
  }

  /** `clearAllToasts`: with a container of the configured class the list
      is emptied; without one nothing happens. */
  function ClearAllToasts(s: State): (r: State)
    ensures s.config.containerClass in s.containers ==> r.active == []
    ensures s.config.containerClass !in s.containers ==> r == s
    ensures r.config == s.config && r.containers == s.containers && r.nextId == s.nextId
  {
    if s.config.containerClass in s.containers then s.(active := []) else s
  }

  /** What the module keeps true: the toasts are listed oldest first, every
      number below the next one, no more toasts than the limit, and a
      toast only once the configured container exists. */
  predicate Sound(s: State) {
    (s.config.containerClass in s.containers || s.active == [])
    && Ascending(s.active)
    && (forall i :: 0 <= i < |s.active| ==> s.active[i].id < s.nextId)
    && |s.active| <= if s.config.maxToasts >= 1 then s.config.maxToasts else 1
  }

  lemma InitialSound()
    ensures Sound(INITIAL)
  {
  }

  /** Showing a toast with the module's own limit keeps the list sound: the
      new toast is the newest and the limit holds. */
  lemma ShowToastSound(s: State, message: string, kind: string)
    requires Sound(s)
    ensures ShowToast(s, message, kind, NO_OVERRIDES).Shown?
    ensures Sound(ShowToast(s, message, kind, NO_OVERRIDES).state)
  {
    MergeNothing(s.config);
    if s.config.containerClass in s.containers {
      PlaceSound(s, message, kind);
    } else {
      var s1 := InitNotifications(s, NO_OVERRIDES);
      MergeNothing(DEFAULT_CONFIG);
      assert Sound(s1);
      PlaceSound(s1, message, kind);
    }
  }

  /** Queueing a toast under the state's own settings keeps it sound. */
  lemma PlaceSound(s: State, message: string, kind: string)
    requires Sound(s) && s.config.containerClass in s.containers
    ensures Sound(Place(s, s.config, message, kind).0)
  {
    var p := Place(s, s.config, message, kind);
    var a := p.0.active;
    assert Ascending(a) by {
      EnqueueAscending(s.active, p.1, s.config.maxToasts);
    }
    assert forall i :: 0 <= i < |a| ==> a[i].id < p.0.nextId by {
      forall i | 0 <= i < |a| ensures a[i].id < p.0.nextId {
        if i < |a| - 1 {
          assert a[i] in s.active;
        }
      }
    }
    EnqueueBounded(s.active, p.1, s.config.maxToasts);
  }

  lemma EnqueueAscending(active: seq<Toast>, t: Toast, max: int)
    requires Ascending(active)
    requires forall i :: 0 <= i < |active| ==> active[i].id < t.id
    ensures Ascending(Enqueue(active, t, max))
  {
    var a := Enqueue(active, t, max);
    forall i, j | 0 <= i < j < |a|
      ensures a[i].id < a[j].id
    {
      if j == |a| - 1 {
        assert a[i] in active;
      } else if |active| >= max && |active| > 0 {
        assert a[i] == active[i + 1] && a[j] == active[j + 1];
      } else {
        assert a[i] == active[i] && a[j] == active[j];
      }
    }
  }

  /** Removing and clearing keep the list sound. */
  lemma RemoveAndClearSound(s: State, id: nat)
    requires Sound(s)
    ensures Sound(RemoveToast(s, id)) && Sound(ClearAllToasts(s))
  {
    RemoveFirstIsWithout(s.active, id);
    WithoutKeepsOrder(s.active, id);
  }

  lemma {:induction false} WithoutKeepsOrder(ts: seq<Toast>, id: nat)
    requires Ascending(ts)
    ensures Ascending(Without(ts, id)) && |Without(ts, id)| <= |ts|
  {
    if ts != [] {
      var tail := ts[1..];
      assert Ascending(tail) by {
        forall i, j | 0 <= i < j < |tail| ensures tail[i].id < tail[j].id {
          assert tail[i] == ts[i + 1] && tail[j] == ts[j + 1];
        }
      }
      WithoutKeepsOrder(tail, id);
      var rest := Without(tail, id);
      if ts[0].id != id {
        assert forall k :: 0 <= k < |rest| ==> ts[0].id < rest[k].id by {
          forall k | 0 <= k < |rest| ensures ts[0].id < rest[k].id {
            assert rest[k] in rest;
            var m :| 0 <= m < |tail| && tail[m] == rest[k];
            assert tail[m] == ts[m + 1];
          }
        }
        ConsAscending(ts[0], rest);
      }
    }
  }

  /** A toast numbered below every toast of an ascending list can head it. */
  lemma ConsAscending(t: Toast, ts: seq<Toast>)
    requires Ascending(ts) && forall k :: 0 <= k < |ts| ==> t.id < ts[k].id
    ensures Ascending([t] + ts)
  {
    var a := [t] + ts;
    forall i, j | 0 <= i < j < |a| ensures a[i].id < a[j].id {
      assert a[j] == ts[j - 1];
      if i > 0 {
        assert a[i] == ts[i - 1];
      }
    }
  }
}
