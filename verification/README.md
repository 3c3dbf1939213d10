# Calendar client state: event store and theme preference

This project models the client-side state layer of a calendar web application in Dafny. It has two independent parts.

- **The events store** (`src/stores/events.ts`). It holds an ordered list of calendar events, five modal-visibility flags and the selected event. The model also covers the actions that seed, add, delete and update events, and the setters. An event is a plain object: a map from field name to a JavaScript value (`JsValues.Value`). So the shallow merge `{ ...old, ...patch }` is map override. The id test `event.id === id` is strict equality with a string: a numeric or missing id never matches. `String(event.id)` applied at seeding is modelled for the values a seed can hold (`JsValues.JsString`).
- **The theme preference** (`src/composables/useTheme.ts`, plus `initializeTheme` in `src/main.ts`). This part is a state machine. Its state is the current theme, the set of classes on the document root and the storage slot `theme`. The environment's "prefers dark" signal is a boolean input to each transition. The current theme is kept as a string, because the mount path casts any stored string to a theme unchecked.

Modules: `Wrappers` (Option), `JsValues` (values and `String()`), `EventsStore` (store and actions), `EventsProperties` (reference definitions, id-uniqueness, seeding laws), `Theme` (`useTheme` transitions), `ThemeInit` (`initializeTheme`), `ThemeProperties` (laws, the post-mount invariant, and agreement between the early pass and the mount pass).

The evident intent, which the early pass at `src/main.ts:14` follows, is that the mount-time reconciliation treats every stored string other than `dark`/`light` as absent. The model follows the code instead. The code (`src/composables/useTheme.ts:38-39`) hands any non-empty stored string to `setTheme`. `Theme.Mount` models that as written (see Findings). As a result, the root classes left by the mount pass and by `initializeTheme` agree for a stored empty string and for a stored `system`, as well as for absent, `dark` and `light`. They differ for every other stored string (`ThemeProperties.MountAgreesWithInitialize`).

## Model

| member | source | states |
|---|---|---|
| JsValues.JsString | src/stores/events.ts:10 | `String(v)` returns a string unchanged; a number gives its canonical decimal text (no leading zero, a leading `-` when negative), which reads back as that number |
| JsValues.NatToDecimal | src/stores/events.ts:10 | the decimal text of a number is non-empty, all digits, and has no leading zero |
| JsValues.DecimalRoundTrip | src/stores/events.ts:10 | reading back the decimal text of a number gives the number |
| JsValues.DecimalInjective | src/stores/events.ts:10 | distinct non-negative numbers have distinct decimal texts |
| JsValues.JsStringIntInjective | src/stores/events.ts:10 | distinct numeric ids, negative ones included, give distinct string ids after conversion |
| JsValues.JsStringCollisions | src/stores/events.ts:10 | ids of different types can collide after conversion: the number 1 and the string "1" both give "1", and a missing id gives "undefined" like the string "undefined" |
| JsValues.JsStringIdempotent | src/stores/events.ts:10 | converting an already converted id changes nothing |
| EventsStore.SeedEvent | src/stores/events.ts:8-12 | a seeded event's id is the string form of the original id; its color is the original backgroundColor (undefined if absent); every other field is kept and no field is lost |
| EventsStore.Seed | src/stores/events.ts:7-13 | seeding keeps the length and order; position k holds the seeded form of seed event k |
| EventsStore.InitialStore | src/stores/events.ts:7-20 | the new store holds the seeded events (every original field kept, id converted, color copied), every flag is closed and no event is selected |
| EventsStore.CalendarEvent.Merge | src/stores/events.ts:37 | the shallow merge has the keys of both objects; a field in the patch takes the patch's value and any other field keeps the old value |
| EventsStore.HasIdMeans | src/stores/events.ts:28 | an event matches an id only if it holds an id field whose string form is that id; a missing, numeric or other non-string id never matches |
| EventsStore.FindIndex | src/stores/events.ts:28 | the result is -1 exactly when no event has the id; otherwise it is an index whose event has the id and no earlier event does |
| EventsStore.FirstMatchIsFound | src/stores/events.ts:28 | an index holding the first event with the id is the one the search returns |
| EventsStore.AddEvent | src/stores/events.ts:23-25 | the list grows by one with the argument last and earlier events unchanged; nothing else in the store changes |
| EventsStore.DeleteEvent | src/stores/events.ts:27-32 | with no match the list is unchanged; otherwise exactly the first matching event is removed and the rest keep their order; nothing else in the store changes |
| EventsStore.UpdateEvent | src/stores/events.ts:34-39 | the length is kept and with no match the list is unchanged; at the first match, the keys are the old keys plus the patch keys, patch fields take the patch value and other fields keep the old one; every other index is unchanged |
| EventsStore.SetEventViewOpen | src/stores/events.ts:41-43 | sets its own flag to the value; the other flags, the list and the selection stay the same |
| EventsStore.SetEventAddOpen | src/stores/events.ts:45-47 | sets its own flag to the value; the other flags, the list and the selection stay the same |
| EventsStore.SetEventEditOpen | src/stores/events.ts:49-51 | sets its own flag to the value; the other flags, the list and the selection stay the same |
| EventsStore.SetEventDeleteOpen | src/stores/events.ts:53-55 | sets its own flag to the value; the other flags, the list and the selection stay the same |
| EventsStore.SetAvailabilityCheckerEventAddOpen | src/stores/events.ts:57-59 | sets its own flag to the value; the other flags, the list and the selection stay the same |
| EventsStore.SetSelectedEvent | src/stores/events.ts:61-63 | the selection becomes the argument, not checked against the list; the list and all flags stay the same |
| EventsProperties.SpliceIsRemoveFirst | src/stores/events.ts:28-30 | splicing at the found index equals recursive removal of the first event with the id |
| EventsProperties.AssignIsUpdateFirst | src/stores/events.ts:35-37 | assigning the merge at the found index equals recursive merging into the first event with the id |
| EventsProperties.DeleteIsRemoveFirst | src/stores/events.ts:27-32 | delete agrees with the independent first-match removal for every list |
| EventsProperties.UpdateIsUpdateFirst | src/stores/events.ts:34-39 | update agrees with the independent first-match update for every list |
| EventsProperties.UpdateKeepsIds | src/stores/events.ts:37 | a patch without an id field keeps the sequence of ids, so unique ids stay unique |
| EventsProperties.UpdateWithIdCanDuplicate | src/stores/events.ts:37 | a patch that carries an id can make two events share an id |
| EventsProperties.AddUniqueIff | src/stores/events.ts:23-25 | add keeps ids unique if and only if they were unique and the new id was unused: no check is made |
| EventsProperties.DeleteKeepsUnique | src/stores/events.ts:27-32 | delete keeps unique ids unique |
| EventsProperties.DeleteRemovesId | src/stores/events.ts:27-32 | with unique ids, no event with the deleted id remains |
| EventsProperties.AddThenDelete | src/stores/events.ts:23-32 | adding an event under an unused id and then deleting that id gives back the original store |
| EventsProperties.OnlyFirstOccurrence | src/stores/events.ts:28-37 | with duplicate ids, a later event with the id survives delete and update unchanged |
| EventsProperties.SeedIdempotent | src/stores/events.ts:7-13 | seeding an already seeded list changes nothing |
| EventsProperties.SeedExample | src/stores/events.ts:7-13 | a seed event with numeric id 1 and background `#fff` gives string id `"1"` and color `#fff` |
| Theme.SystemClass | src/composables/useTheme.ts:15 | the environment signal selects one of the two markers, `dark` exactly when it prefers dark |
| Theme.NextTheme | src/composables/useTheme.ts:25-31 | toggling always moves to a different theme: light to dark, dark to system, anything else to light |
| Theme.PreMount | src/composables/useTheme.ts:6 | before mount the theme is `system` and the page's root and storage are untouched |
| Theme.ApplyTheme | src/composables/useTheme.ts:8-22 | for any string: the theme becomes it; `system` clears storage and shows the environment's class; any other string is stored and added as a class; other classes are untouched; exactly one marker remains iff the string is `light`, `dark` or `system`, and for any other string neither marker remains |
| Theme.SetTheme | src/composables/useTheme.ts:8-22 | the theme becomes the argument; exactly one of `light`/`dark` is on the root and other classes are untouched; `system` clears storage and shows `dark` iff the environment prefers dark; `dark`/`light` is stored and shown |
| Theme.Toggle | src/composables/useTheme.ts:24-32 | light goes to dark (stored and shown), dark to system (storage cleared, `dark` shown iff the environment prefers dark), anything else to light (stored and shown); exactly one marker remains and other classes are untouched |
| Theme.OnEnvChange | src/composables/useTheme.ts:45-51 | theme and storage never change; an explicit theme leaves the state as it is; under `system` the root shows exactly the class of the new signal |
| Theme.Mount | src/composables/useTheme.ts:34-43 | absent, empty or `system` storage acts as `setTheme('system')` and stored `dark`/`light` as `setTheme` of that value; any other stored string becomes the theme unchecked, is stored back and added as a root class with no marker left and every other class kept; exactly one marker results iff storage is absent or one of "", `light`, `dark`, `system` |
| Theme.MountChecked | src/composables/useTheme.ts:34-43 | stored `dark`/`light` act as `setTheme` of that value, anything else as `setTheme('system')`; exactly one marker always results |
| ThemeInit.InitializeTheme | src/main.ts:7-19 | exactly one marker results and other classes are untouched; stored `dark`/`light` is shown whatever the environment; anything else shows `dark` iff the environment prefers dark |
| ThemeProperties.SetThemeLastWins | src/composables/useTheme.ts:8-22 | two `setTheme` calls in a row give the state of the second call alone |
| ThemeProperties.SetThemeIdempotent | src/composables/useTheme.ts:8-22 | applying `setTheme` twice with the same argument and environment equals applying it once |
| ThemeProperties.DarkLightDarkStoresDark | src/composables/useTheme.ts:8-22 | choosing dark, then light, then dark leaves `dark` in storage |
| ThemeProperties.ToggleThrice | src/composables/useTheme.ts:24-32 | three toggles from light, dark or system give that theme back, in the state `setTheme` of it gives |
| ThemeProperties.MountCheckedEstablishes | src/composables/useTheme.ts:34-43 | the checked reconciliation establishes the post-mount invariant from any state |
| ThemeProperties.MountEstablishesIff | src/composables/useTheme.ts:34-43 | the reconciliation as written establishes the invariant iff storage is absent or one of "", `light`, `dark`, `system` |
| ThemeProperties.MountUncheckedExample | src/composables/useTheme.ts:35-39 | a stored `blue` becomes the theme and a root class, and neither marker remains |
| ThemeProperties.StepKeepsConsistent | src/composables/useTheme.ts:8-51 | choosing a theme, toggling or an environment change keeps the invariant and leaves non-marker classes alone |
| ThemeProperties.RunKeepsConsistent | src/composables/useTheme.ts:8-51 | every sequence of those steps keeps the invariant: exactly one marker, storage cleared exactly under `system`, and `system` follows the environment |
| ThemeProperties.EnvNeverOverrides | src/composables/useTheme.ts:45-51 | environment changes alone never change theme or storage, and never change anything under an explicit theme |
| ThemeProperties.MountAgreesWithInitialize | src/main.ts:14-18 | on the same root, the mount pass and `initializeTheme` give the same classes iff storage is absent or one of "", `light`, `dark`, `system` |
| ThemeProperties.MountCheckedAgreesWithInitialize | src/main.ts:14-18 | the checked reconciliation and `initializeTheme` always give the same root classes |
| ThemeProperties.PageLoadKeepsEarlyRoot | src/main.ts:7-22 | mounting on the root `initializeTheme` left keeps that root iff storage is absent or one of "", `light`, `dark`, `system` |

## Findings

| source | as written | input that shows it | evidently intended | confidence | as-written member | corrected member |
|---|---|---|---|---|---|---|
| src/composables/useTheme.ts:38-39 | any non-empty stored string is passed to `setTheme` through a type cast, which makes it the theme, adds it as a root class and stores it back | storage `theme` = `"blue"`: the theme becomes `"blue"`, the root gets class `blue`, and neither `light` nor `dark` remains | only the exact strings `dark`/`light` restore a stored choice, as `initializeTheme` does at src/main.ts:14; anything else falls back to `system` | not executed; medium (needs a storage value the application never writes) | Theme.Mount (shown by ThemeProperties.MountUncheckedExample and ThemeProperties.MountEstablishesIff) | Theme.MountChecked (ThemeProperties.MountCheckedEstablishes, ThemeProperties.MountCheckedAgreesWithInitialize) |

## Left out

- Vue `ref` reactivity, the Pinia `defineStore` singleton, `onMounted` scheduling, and registration and lifetime of the `change` listener. Only the listener body is a transition (`Theme.OnEnvChange`). In `ThemeProperties.Run`, the environment signal changes only through that step.
- `window.matchMedia`, `localStorage` and the DOM `classList` are replaced by a boolean input, one `Option<string>` slot (key `theme`) and a `set<string>`.
- Exceptions from storage reads and writes (`getItem`, `setItem`, `removeItem`, or access to `localStorage` itself when storage is blocked) are not modelled. Neither is `classList.add` rejecting a token that is empty or contains whitespace: a stored value such as `"a b"` would make the real `setTheme` throw partway through.
- The constant `systemTheme` computed in the mount callback (src/composables/useTheme.ts:36) is never used, so it has no counterpart.
- JsValues.JsString: numbers are integers only. Fractions, `NaN`, infinities and `-0` are not modelled. Integers of magnitude 10^21 or more (which JavaScript prints in exponent form, such as `1e+21`) are not modelled, and neither are integers beyond 2^53, which are not distinct JavaScript numbers. Other objects carry the text their own `toString` gives.
- ThemeProperties.RunKeepsConsistent and ThemeProperties.EnvNeverOverrides hold for one `useTheme` instance that is the only writer of the root classes and the `theme` storage key. Each call of the composable creates its own theme, mount hook and `change` listener over the same root and key (src/composables/useTheme.ts:5-6, 45). So a second mounted instance still at `system` rewrites the markers on an environment change after the first chose `dark`, and toggling either to `system` clears the key the other relies on. Another browser tab writing the same key is not modelled either.
- The contents of `initialEvents` and the full `CalendarEvent` type come from `@/utils/data`, which is not part of this model. The seed is an arbitrary list, and fields other than `id`, `backgroundColor` and `color` are opaque.
- Object spread is map override. Prototype properties, getters and property order are not modelled. Events are values, which matches the source replacing the updated element rather than mutating it.
- Application bootstrap is not modelled: `createApp`, `createPinia`, `app.mount` and the stylesheet import (src/main.ts:1-4, 24-28).
