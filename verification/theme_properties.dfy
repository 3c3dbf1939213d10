/**
 Properties of the theme state machine: laws of `setTheme` and `toggleTheme`,
 an invariant kept by every user action and environment change after mount,
 and how the mount-time reconciliation relates to the early pass of
 `initializeTheme`.
 */
module ThemeProperties {
  import opened Wrappers
  import opened Theme
  import opened ThemeInit

  // ---------------------------------------------------------------------
  // setTheme and toggleTheme

  /** Only the last `setTheme` matters; in particular it is idempotent. */
  lemma SetThemeLastWins(st: ThemeState, a: Theme, b: Theme, env1: bool, env2: bool)
    ensures SetTheme(SetTheme(st, a, env1), b, env2) == SetTheme(st, b, env2)
  {
  }

  lemma SetThemeIdempotent(st: ThemeState, t: Theme, envDark: bool)
    ensures SetTheme(SetTheme(st, t, envDark), t, envDark) == SetTheme(st, t, envDark)
  {
  }

  /** Dark, then light, then dark leaves `dark` in storage. */
  lemma DarkLightDarkStoresDark(st: ThemeState, envDark: bool)
    ensures SetTheme(SetTheme(SetTheme(st, Dark, envDark), Light, envDark), Dark, envDark).storage == Some("dark")
  {
  }

  /** Three toggles from any of the three themes come back to it, in the same
      state a single `setTheme` of that theme would give. */
  lemma ToggleThrice(st: ThemeState, t: Theme, envDark: bool)
    requires st.theme == Name(t)
    ensures Toggle(Toggle(Toggle(st, envDark), envDark), envDark) == SetTheme(st, t, envDark)
  {
  }

  // ---------------------------------------------------------------------
  // The page after mount as a transition system

  /** What can happen once the component is mounted: the user picks a theme,
      the user toggles, or the environment signal changes. */
  datatype Step = Choose(t: Theme) | ToggleStep | EnvChange(matches: bool)

  /** The theme state together with the current environment signal. */
  datatype World = World(st: ThemeState, envDark: bool)

  function Next(w: World, step: Step): World {
    match step
    case Choose(t) => World(SetTheme(w.st, t, w.envDark), w.envDark)
    case ToggleStep => World(Toggle(w.st, w.envDark), w.envDark)
    case EnvChange(m) => World(OnEnvChange(w.st, m), m)
  }

  function Run(w: World, steps: seq<Step>): World
    decreases |steps|
  {
    if |steps| == 0 then w else Run(Next(w, steps[0]), steps[1..])
  }

  /** The invariant after mount: a valid theme, exactly one marker class,
      storage cleared exactly when the theme is `system`, an explicit theme
      stored and shown, and `system` following the environment. */
  predicate Consistent(w: World) {
    && w.st.theme in {"light", "dark", "system"}
    && ExactlyOneMarker(w.st.root)
    && (w.st.storage == None <==> w.st.theme == "system")
    && (w.st.theme != "system" ==> w.st.storage == Some(w.st.theme) && w.st.theme in w.st.root)
    && (w.st.theme == "system" ==> ("dark" in w.st.root <==> w.envDark))
  }

  /** The checked reconciliation establishes the invariant from any state. */
  lemma MountCheckedEstablishes(st: ThemeState, envDark: bool)
    ensures Consistent(World(MountChecked(st, envDark), envDark))
  {
  }

  /** The reconciliation as written establishes it only for a stored value
      the source's `Theme` type admits, or one that reads as false. */
  lemma MountEstablishesIff(st: ThemeState, envDark: bool)
    ensures Consistent(World(Mount(st, envDark), envDark))
        <==> (st.storage == None || st.storage.value in {"", "light", "dark", "system"})
  {
  }

  /** A stored `blue` leaves the root with neither marker and the theme `blue`. */
  lemma MountUncheckedExample()
    ensures var r := Mount(PreMount({}, Some("blue")), true);
      r.theme == "blue" && r.root == {"blue"} && r.storage == Some("blue")
  {
  }

  lemma StepKeepsConsistent(w: World, step: Step)
    requires Consistent(w)
    ensures Consistent(Next(w, step))
    ensures Next(w, step).st.root - Markers == w.st.root - Markers
  {
  }

  /** Every run after mount keeps the invariant and never touches a root
      class other than the two markers. */
  lemma {:induction false} RunKeepsConsistent(w: World, steps: seq<Step>)
    requires Consistent(w)
    ensures Consistent(Run(w, steps))
    ensures Run(w, steps).st.root - Markers == w.st.root - Markers
    decreases |steps|
  {
    if |steps| > 0 {
      StepKeepsConsistent(w, steps[0]);
      RunKeepsConsistent(Next(w, steps[0]), steps[1..]);
    }
  }

  predicate OnlyEnvChanges(steps: seq<Step>) {
    forall k :: 0 <= k < |steps| ==> steps[k].EnvChange?
  }

  /** Environment changes alone never change the theme or storage, and leave
      an explicit choice's root classes as they are. */
  lemma {:induction false} EnvNeverOverrides(w: World, steps: seq<Step>)
    requires OnlyEnvChanges(steps)
    ensures Run(w, steps).st.theme == w.st.theme
    ensures Run(w, steps).st.storage == w.st.storage
    ensures w.st.theme != "system" ==> Run(w, steps).st == w.st
    decreases |steps|
  {
    if |steps| > 0 {
      assert OnlyEnvChanges(steps[1..]) by {
        forall k | 0 <= k < |steps[1..]|
          ensures steps[1..][k].EnvChange?
        {
          assert steps[1..][k] == steps[k + 1];
        }
      }
      EnvNeverOverrides(Next(w, steps[0]), steps[1..]);
    }
  }

  // ---------------------------------------------------------------------
  // The early pass against the mount-time reconciliation

  /** Starting from the same root, the reconciliation as written puts the same
      classes on the root as `initializeTheme` exactly when the stored value
      is absent, empty, `dark`, `light` or `system`. */
  lemma MountAgreesWithInitialize(st: ThemeState, envDark: bool)
    ensures Mount(st, envDark).root == InitializeTheme(st.storage, envDark, st.root)
        <==> (st.storage == None || st.storage.value in {"", "light", "dark", "system"})
  {
  }

  /** The checked reconciliation always agrees with `initializeTheme`. */
  lemma MountCheckedAgreesWithInitialize(st: ThemeState, envDark: bool)
    ensures MountChecked(st, envDark).root == InitializeTheme(st.storage, envDark, st.root)
  {
  }

  /** On page load the early pass runs first and the component mounts on the
      root it left. The mount keeps that root, so no wrong theme flashes,
      exactly when the stored value is absent, empty, `dark`, `light` or
      `system`. */
  lemma PageLoadKeepsEarlyRoot(root: set<string>, storage: Option<string>, envDark: bool)
    ensures var early := InitializeTheme(storage, envDark, root);
      (Mount(PreMount(early, storage), envDark).root == early
       <==> (storage == None || storage.value in {"", "light", "dark", "system"}))
  {
  }
}
