/**
 The `useTheme` composable of src/composables/useTheme.ts as a state machine.
 The state is the current theme, the set of classes on the document root and
 the storage slot `theme`; whether the environment prefers a dark colour
 scheme is an input to each transition.
 */
module Theme {
  import opened Wrappers

  /** The `Theme` type of the source: what callers may pass to `setTheme`. */
  datatype Theme = Dark | Light | System

  function Name(t: Theme): string {
    match t
    case Dark => "dark"
    case Light => "light"
    case System => "system"
  }

  /** At run time the theme is whatever string was last given to `setTheme`:
      the mount path passes the stored string through a type cast unchecked. */
  datatype ThemeState = ThemeState(theme: string, root: set<string>, storage: Option<string>)

  /** The two marker classes `setTheme` and the change listener manage. */
  const Markers: set<string> := {"light", "dark"}

  /** The class the environment signal selects. */
  function SystemClass(envDark: bool): (c: string)
    ensures c in Markers
    ensures c == "dark" <==> envDark
  {
    if envDark then "dark" else "light"
  }

  /** The root carries exactly one of the two markers. */
  predicate ExactlyOneMarker(root: set<string>) {
    ("dark" in root) != ("light" in root)
  }

  /** The state before mount: the theme starts as `system`. */
  function PreMount(root: set<string>, storage: Option<string>): (r: ThemeState)
    ensures r.theme == Name(System)
    ensures r.root == root && r.storage == storage
  {
    ThemeState("system", root, storage)
  }

  /** The body of `setTheme` run on an arbitrary string, as it is when the
      mount path hands it a stored value. */
  function ApplyTheme(st: ThemeState, name: string, envDark: bool): (r: ThemeState)
    ensures r.theme == name
    ensures name == "system" ==> r.storage == None && ("dark" in r.root <==> envDark)
    ensures name != "system" ==> r.storage == Some(name) && name in r.root
    ensures forall c :: c !in Markers && c != name ==> (c in r.root <==> c in st.root)
    ensures name == "system" ==> r.root - Markers == st.root - Markers
    ensures ExactlyOneMarker(r.root) <==> name in {"light", "dark", "system"}
    ensures name !in {"light", "dark", "system"} ==> r.root * Markers == {}
  {
    var cleared := st.root - Markers;
    if name == "system" then ThemeState(name, cleared + {SystemClass(envDark)}, None)
    else ThemeState(name, cleared + {name}, Some(name))
  }

  /** `setTheme(newTheme)`. */
  function SetTheme(st: ThemeState, t: Theme, envDark: bool): (r: ThemeState)
    ensures r.theme == Name(t)
    ensures ExactlyOneMarker(r.root)
    ensures r.root - Markers == st.root - Markers
    ensures t == System ==> r.storage == None && ("dark" in r.root <==> envDark)
    ensures t != System ==> r.storage == Some(Name(t)) && Name(t) in r.root
  {
    ApplyTheme(st, Name(t), envDark)
  }

  /** The theme `toggleTheme` moves to from the current one. */
  function NextTheme(theme: string): (t: Theme)
    ensures Name(t) != theme
    ensures theme == "light" ==> t == Dark
    ensures theme == "dark" ==> t == System
    ensures theme != "light" && theme != "dark" ==> t == Light
  {
    if theme == "light" then Dark
    else if theme == "dark" then System
    else Light
  }

  /** `toggleTheme`: light to dark, dark to system, anything else to light. */
  function Toggle(st: ThemeState, envDark: bool): (r: ThemeState)
    ensures st.theme == "light" ==> r.theme == "dark" && r.storage == Some("dark")
    ensures st.theme == "dark" ==> r.theme == "system" && r.storage == None
    ensures st.theme != "light" && st.theme != "dark" ==> r.theme == "light" && r.storage == Some("light")
    ensures st.theme == "light" ==> "dark" in r.root
    ensures st.theme == "dark" ==> ("dark" in r.root <==> envDark)
    ensures st.theme != "light" && st.theme != "dark" ==> "light" in r.root
    ensures ExactlyOneMarker(r.root)
    ensures r.root - Markers == st.root - Markers
  {
    SetTheme(st, NextTheme(st.theme), envDark)
  }

  /** The body of the `change` listener on the colour-scheme query. */
  function OnEnvChange(st: ThemeState, matches: bool): (r: ThemeState)
    ensures r.theme == st.theme && r.storage == st.storage
    ensures st.theme != "system" ==> r == st
    ensures st.theme == "system" ==>
      && ExactlyOneMarker(r.root)
      && ("dark" in r.root <==> matches)
      && r.root - Markers == st.root - Markers
  {
    if st.theme == "system" then st.(root := st.root - Markers + {SystemClass(matches)})
    else st
  }

  /** The `onMounted` reconciliation as written: any non-empty stored string
      goes to `setTheme`, the empty string and an absent slot select `system`. */
  function Mount(st: ThemeState, envDark: bool): (r: ThemeState)
    ensures st.storage.Some? && st.storage.value != "" ==> r.theme == st.storage.value
    ensures st.storage == None || st.storage == Some("") ==> r == SetTheme(st, System, envDark)
    ensures st.storage == Some("dark") ==> r == SetTheme(st, Dark, envDark)
    ensures st.storage == Some("light") ==> r == SetTheme(st, Light, envDark)
    ensures st.storage == Some("system") ==> r == SetTheme(st, System, envDark)
    ensures st.storage.Some? && st.storage.value !in {"", "light", "dark", "system"} ==>
      r.storage == st.storage && st.storage.value in r.root && r.root * Markers == {}
    ensures st.storage.Some? && st.storage.value !in {"", "light", "dark", "system"} ==>
      r.root == (st.root - Markers) + {st.storage.value}
    ensures ExactlyOneMarker(r.root) <==> (st.storage == None || st.storage.value in {"", "light", "dark", "system"})
  {
    var saved := st.storage;
    if saved.Some? && saved.value != "" then ApplyTheme(st, saved.value, envDark)
    else ApplyTheme(st, "system", envDark)
  }

  /** The reconciliation with the stored value checked: only the exact strings
      `dark` and `light` restore an explicit choice, anything else selects
      `system`. */
  function MountChecked(st: ThemeState, envDark: bool): (r: ThemeState)
    ensures st.storage == Some("dark") ==> r == SetTheme(st, Dark, envDark)
    ensures st.storage == Some("light") ==> r == SetTheme(st, Light, envDark)
    ensures st.storage != Some("dark") && st.storage != Some("light") ==> r == SetTheme(st, System, envDark)
    ensures ExactlyOneMarker(r.root)
  {
    match st.storage
    case Some("dark") => SetTheme(st, Dark, envDark)
    case Some("light") => SetTheme(st, Light, envDark)
    case _ => SetTheme(st, System, envDark)
  }
}
