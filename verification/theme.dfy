/** The light/dark theme. The theme is read from local storage at start-up
    (anything but "light" or "dark", or storage that throws, gives dark).
    Toggling saves the new theme at once, applies it 200 ms later and ends
    the overlay animation 500 ms later. Timers with the same delay fire in
    the order they were set, so the model keeps one queue of pending theme
    applications and a count of pending animation stops. Their firings are
    events. */
module Theme {
  import opened Common

  datatype ThemeName = Light | Dark

  const StorageKey: String := "theme"
  const ApplyDelayMs := 200
  const AnimationMs := 500

  function Name(t: ThemeName): String {
    match t
    case Light => "light"
    case Dark => "dark"
  }

  /** The other theme. */
  function Flip(t: ThemeName): (r: ThemeName)
    ensures r != t
  {
    if t == Light then Dark else Light
  }

  /** Local storage: a string map, or storage that throws on every access
      (disabled cookies, a sandboxed frame). */
  datatype Storage = Available(items: map<String, String>) | Unavailable

  /** `getInitialTheme`: a stored "light" or "dark" is used, anything else
      (nothing stored, another value, an exception) falls back to dark. */
  function ReadTheme(st: Storage): (t: ThemeName)
    ensures st.Available? && StorageKey in st.items && st.items[StorageKey] == "light" ==> t == Light
    ensures t == Light ==> st.Available? && StorageKey in st.items && st.items[StorageKey] == "light"
  {
    if st.Available? && StorageKey in st.items then
      var v := st.items[StorageKey];
      if v == "light" then Light
      else if v == "dark" then Dark
      else Dark
    else Dark
  }

  /** `saveTheme`: a write that fails is ignored. */
  function SaveTheme(st: Storage, t: ThemeName): (r: Storage)
    ensures r.Available? <==> st.Available?
    ensures r.Available? ==> forall k :: k in st.items && k != StorageKey ==> k in r.items && r.items[k] == st.items[k]
  {
    match st
    case Available(items) => Available(items[StorageKey := Name(t)])
    case Unavailable => Unavailable
  }

  /** Reading back what was saved gives the saved theme; without storage it
      gives the default. */
  lemma {:induction false} SaveThenRead(st: Storage, t: ThemeName)
    ensures st.Available? ==> ReadTheme(SaveTheme(st, t)) == t
    ensures st.Unavailable? ==> ReadTheme(SaveTheme(st, t)) == Dark
  {
  }

  /** Flipping twice is the identity. */
  lemma {:induction false} FlipInvolution(t: ThemeName)
    ensures Flip(Flip(t)) == t
  {
  }

  /** The provider's state: the applied theme (the body's class), the theme
      the overlay animates towards, whether the overlay shows, storage, and
      the pending timers. */
  datatype Provider = Provider(
    theme: ThemeName,
    next: ThemeName,
    animating: bool,
    storage: Storage,
    applies: seq<ThemeName>,
    stops: nat)

  datatype Event = Toggle | ApplyFires | StopFires

  /** Start-up: the stored theme is applied and nothing is pending. */
  function Init(st: Storage): (p: Provider)
    ensures p.theme == p.next == ReadTheme(st) && !p.animating && p.applies == [] && p.stops == 0
  {
    var t := ReadTheme(st);
    Provider(t, t, false, st, [], 0)
  }

  /** The class the body carries. */
  function BodyClass(p: Provider): String {
    Name(p.theme)
  }

  function Step(p: Provider, e: Event): Provider
  {
    match e
    case Toggle =>
      var t := Flip(p.theme);
      p.(next := t, animating := true, storage := SaveTheme(p.storage, t),
         applies := p.applies + [t], stops := p.stops + 1)
    case ApplyFires =>
      if |p.applies| == 0 then p else p.(theme := p.applies[0], applies := p.applies[1..])
    case StopFires =>
      if p.stops == 0 then p else p.(animating := false, stops := p.stops - 1)
  }

  function Run(p: Provider, evs: seq<Event>): Provider
    decreases |evs|
  {
    if |evs| == 0 then p else Run(Step(p, evs[0]), evs[1..])
  }

  /** What always holds: storage (when there is any) holds the theme being
      moved to, the last pending application is that theme, nothing pending
      means it is applied, and the overlay shows only while a stop timer is
      pending. */
  predicate Consistent(p: Provider) {
    && (p.storage.Available? ==> ReadTheme(p.storage) == p.next)
    && (|p.applies| > 0 ==> p.applies[|p.applies| - 1] == p.next)
    && (|p.applies| == 0 ==> p.theme == p.next)
    && (p.animating ==> p.stops > 0)
  }

  lemma {:induction false} InitConsistent(st: Storage)
    ensures Consistent(Init(st))
  {
  }

  lemma {:induction false} StepKeepsConsistent(p: Provider, e: Event)
    requires Consistent(p)
    ensures Consistent(Step(p, e))
  {
    match e
    case Toggle =>
      SaveThenRead(p.storage, Flip(p.theme));
    case ApplyFires =>
      if |p.applies| > 0 {
        var q := Step(p, e);
        if |q.applies| > 0 {
          assert q.applies[|q.applies| - 1] == p.applies[|p.applies| - 1];
        }
      }
    case StopFires =>
  }

  lemma {:induction false} RunKeepsConsistent(p: Provider, evs: seq<Event>)
    requires Consistent(p)
    ensures Consistent(Run(p, evs))
    decreases |evs|
  {
    if |evs| > 0 {
      StepKeepsConsistent(p, evs[0]);
      RunKeepsConsistent(Step(p, evs[0]), evs[1..]);
    }
  }

  /** Once every pending application has fired, the theme on screen is the
      one a reload would read back, whatever the presses and firings. */
  lemma {:induction false} SettledThemePersists(st: Storage, evs: seq<Event>)
    requires st.Available?
    requires |Run(Init(st), evs).applies| == 0
    ensures var p := Run(Init(st), evs);
            ReadTheme(p.storage) == p.theme && Init(p.storage).theme == p.theme
  {
    InitConsistent(st);
    RunKeepsConsistent(Init(st), evs);
    RunKeepsStorageKind(Init(st), evs);
  }

  /** Storage neither appears nor disappears. */
  lemma {:induction false} RunKeepsStorageKind(p: Provider, evs: seq<Event>)
    ensures Run(p, evs).storage.Available? <==> p.storage.Available?
    decreases |evs|
  {
    if |evs| > 0 {
      RunKeepsStorageKind(Step(p, evs[0]), evs[1..]);
    }
  }

  /** A press on a settled page shows the other theme after the two timers,
      and ends with the overlay gone. */
  lemma {:induction false} ToggleSwitches(p: Provider)
    requires Consistent(p) && |p.applies| == 0 && p.stops == 0
    ensures var q := Run(p, [Toggle, ApplyFires, StopFires]);
            q.theme == Flip(p.theme) && q.next == q.theme && !q.animating
            && |q.applies| == 0 && q.stops == 0
            && (p.storage.Available? ==> ReadTheme(q.storage) == q.theme)
  {
    var q1 := Step(p, Toggle);
    SaveThenRead(p.storage, Flip(p.theme));
    var q2 := Step(q1, ApplyFires);
    assert q1.applies == [Flip(p.theme)];
    assert q2.applies == [];
    var q3 := Step(q2, StopFires);
    assert Run(p, [Toggle, ApplyFires, StopFires]) == q3 by {
      assert [Toggle, ApplyFires, StopFires][1..] == [ApplyFires, StopFires];
      assert [ApplyFires, StopFires][1..] == [StopFires];
      assert Run(q3, []) == q3;
    }
  }

  /** A second press before the first press's theme is applied reads the
      same, not yet updated, theme: both presses aim at the same theme, so
      two quick presses switch the theme once instead of switching back. */
  lemma {:induction false} QuickSecondPressRepeats(p: Provider)
    requires Consistent(p) && |p.applies| == 0
    ensures var q := Run(p, [Toggle, Toggle, ApplyFires, ApplyFires]);
            q.theme == Flip(p.theme) && |q.applies| == 0
  {
    var t := Flip(p.theme);
    var q1 := Step(p, Toggle);
    var q2 := Step(q1, Toggle);
    assert q2.applies == [t, t];
    var q3 := Step(q2, ApplyFires);
    assert q3.applies == [t];
    var q4 := Step(q3, ApplyFires);
    assert q4.theme == t && q4.applies == [];
    assert Run(p, [Toggle, Toggle, ApplyFires, ApplyFires]) == q4 by {
      var evs := [Toggle, Toggle, ApplyFires, ApplyFires];
      assert evs[1..] == [Toggle, ApplyFires, ApplyFires];
      assert evs[1..][1..] == [ApplyFires, ApplyFires];
      assert evs[1..][1..][1..] == [ApplyFires];
      assert Run(q4, []) == q4;
    }
  }
}
