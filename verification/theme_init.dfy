/**
 The early theme pass `initializeTheme` of src/main.ts, run before the
 application mounts. It reads the storage slot and the environment signal and
 writes only the root classes; it returns nothing else, so the storage slot
 is left as it was.
 */
module ThemeInit {
  import opened Wrappers
  import opened Theme

  /** Only the exact strings `dark` and `light` count as a stored choice;
      anything else falls back to the environment signal. */
  function InitializeTheme(storage: Option<string>, envDark: bool, root: set<string>): (r: set<string>)
    ensures ExactlyOneMarker(r)
    ensures r - Markers == root - Markers
    ensures storage == Some("dark") || storage == Some("light") ==> storage.value in r
    ensures storage != Some("dark") && storage != Some("light") ==> ("dark" in r <==> envDark)
  {
    var systemTheme := SystemClass(envDark);
    var cleared := root - Markers;
    if storage == Some("dark") || storage == Some("light") then cleared + {storage.value}
    else cleared + {systemTheme}
  }
}
