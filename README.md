# bkstinfo: snackbar queue and schedule view-model

A Dafny model of the two pieces of sequential state in the "mybk" student-portal
Android client:

- **`SnackbarManager`**, the application-wide list of pending snackbar messages.
  `showMessage` appends a `Message(id, message)`; `setMessageShown(id)` drops
  every message carrying that id. The UI consumer in `MybkAppState` always
  displays the first message and then marks its id shown, so the list is
  consumed as a FIFO queue. Modules `Snackbar` (`snackbar.dfy`) and `AppState`
  (`app_state.dfy`).
- **`SchedulesViewModel`**, the schedule screen's view-model: a cache lookup at
  construction, then a background refresh, observed through the flags
  `isLoading` and `isRefreshing` and the `selectedSemester`. Module `Schedules`
  (`schedules.dfy`). The class's methods are specified by pure transition
  functions over a `ViewState` value; an event sequence (`Run`) strings those
  transitions together so that the invariant "the loader and the refresh
  spinner are never both on, and nothing is selected while loading" can be
  proved for every order of refreshes and completions.

Kotlin's nullable values are the `Option` datatype of module `Nullable`
(`nullable.dfy`). A message id is a `Long`, a 64-bit signed newtype. The
`SemesterSchedule` type is a type parameter `S`, since nothing about its contents
is used.

## Model

| member | source | states |
|---|---|---|
| `Snackbar.SnackbarManager.constructor` | app/src/main/java/com/wonrax/mybk/model/SnackbarManager.kt:16 | the message list starts empty |
| `Snackbar.SnackbarManager.ShowMessage` | app/src/main/java/com/wonrax/mybk/model/SnackbarManager.kt:19-26 | the list grows by exactly one; the new last element is the message with the given id and text; every earlier message keeps its position; distinct ids stay distinct when the new id is fresh |
| `Snackbar.SnackbarManager.SetMessageShown` | app/src/main/java/com/wonrax/mybk/model/SnackbarManager.kt:28-32 | the new list is the filtered one; no message with the id remains; the result is a subsequence of the old list; an absent id changes nothing; distinct ids stay distinct |
| `Snackbar.Without` | app/src/main/java/com/wonrax/mybk/model/SnackbarManager.kt:30 | `filterNot { it.id == id }`: a message is in the result exactly when it was in the input with a different id; the result is never longer, and strictly shorter when the id occurs |
| `Snackbar.WithoutIsSubsequence` | app/src/main/java/com/wonrax/mybk/model/SnackbarManager.kt:30 | the surviving messages keep their original relative order: the result is a subsequence of the input |
| `Snackbar.WithoutCounts` | app/src/main/java/com/wonrax/mybk/model/SnackbarManager.kt:30 | every message with another id survives with its multiplicity; every message with the id is gone, duplicates from id collisions included |
| `Snackbar.WithoutAbsent` | app/src/main/java/com/wonrax/mybk/model/SnackbarManager.kt:30 | marking shown an id that no message carries leaves the list unchanged |
| `Snackbar.WithoutIdempotent` | app/src/main/java/com/wonrax/mybk/model/SnackbarManager.kt:28-32 | marking the same id shown twice equals marking it once |
| `Snackbar.WithoutKeepsDistinct` | app/src/main/java/com/wonrax/mybk/model/SnackbarManager.kt:28-32 | removal preserves the "ids are distinct" invariant |
| `Snackbar.AppendKeepsDistinct` | app/src/main/java/com/wonrax/mybk/model/SnackbarManager.kt:19-26 | appending under an id not yet in the list preserves the "ids are distinct" invariant |
| `Snackbar.ConsumeHeadDequeues` | app/src/main/java/com/wonrax/mybk/model/SnackbarManager.kt:19-32 | with distinct ids, removing the head's id removes exactly the head (the list is a FIFO queue) |
| `Snackbar.ConsumeHeadDropsCollision` | app/src/main/java/com/wonrax/mybk/model/SnackbarManager.kt:28-32 | when a later message shares the head's id, consuming the head removes that later message too, so more than one message leaves the list |
| `AppState.CollisionNeverShown` | app/src/main/java/com/wonrax/mybk/ui/MybkUI.kt:43-56 | a later message that shares the head's id (and is not the same message) never appears among the displayed messages |
| `AppState.ShowNextMessage` | app/src/main/java/com/wonrax/mybk/ui/MybkUI.kt:44-55 | one round of the consumer: nothing is shown exactly when the list is empty; otherwise the head is shown and its id removed; with distinct ids the new list is the old one minus its head |
| `AppState.Drain` | app/src/main/java/com/wonrax/mybk/ui/MybkUI.kt:43-56 | repeating the consumer round shows only queued messages, the oldest one first |
| `AppState.DrainInOrder` | app/src/main/java/com/wonrax/mybk/ui/MybkUI.kt:43-56 | with distinct ids every queued message is shown exactly once, in insertion order |
| `AppState.DrainIsSubsequence` | app/src/main/java/com/wonrax/mybk/ui/MybkUI.kt:43-56 | whatever the ids, the shown messages appear in the order they were queued |
| `Schedules.Initial` | app/src/main/java/com/wonrax/mybk/viewmodel/SchedulesViewModel.kt:16-20 | initially loading, not refreshing, nothing selected; the invariant holds |
| `Schedules.Constructed` | app/src/main/java/com/wonrax/mybk/viewmodel/SchedulesViewModel.kt:22-31 | on a cache hit (which needs a non-empty cached array) the first cached semester is selected, loading ends and the refresh spinner turns on; on a miss loading and the selection are unchanged; the invariant is preserved |
| `Schedules.RefreshStarted` | app/src/main/java/com/wonrax/mybk/viewmodel/SchedulesViewModel.kt:33-34 | refreshing becomes true exactly when loading is already over (or it was already true); nothing else changes; the invariant is preserved |
| `Schedules.RefreshCompleted` | app/src/main/java/com/wonrax/mybk/viewmodel/SchedulesViewModel.kt:36-43 | both flags end false and the invariant holds whatever the prior state; non-null data selects its first semester; null data leaves the selection unchanged |
| `Schedules.RunKeepsInvariant` | app/src/main/java/com/wonrax/mybk/viewmodel/SchedulesViewModel.kt:16-43 | any sequence of refresh starts and completions keeps the two flags from being both true |
| `Schedules.ReachableKeepInvariant` | app/src/main/java/com/wonrax/mybk/viewmodel/SchedulesViewModel.kt:16-43 | every state reached from the initial state by construction (hit or miss) and any admissible sequence of refresh starts and completions satisfies the invariant |
| `Schedules.LoadingNeverResumes` | app/src/main/java/com/wonrax/mybk/viewmodel/SchedulesViewModel.kt:26-42 | `isLoading` is only ever set to false, so once false it stays false |
| `Schedules.PendingRefreshesKeepSelection` | app/src/main/java/com/wonrax/mybk/viewmodel/SchedulesViewModel.kt:33-34 | refreshes that have not completed change neither loading, nor the selection, nor the data |
| `Schedules.CacheMissWaitsForRemote` | app/src/main/java/com/wonrax/mybk/viewmodel/SchedulesViewModel.kt:25-34 | after a cache miss the screen stays loading, with no selection and no refresh spinner, until a fetch completes |
| `Schedules.FetchSettles` | app/src/main/java/com/wonrax/mybk/viewmodel/SchedulesViewModel.kt:36-43 | after any history, a completing fetch leaves both flags false and selects the fetched first semester when data arrived |
| `Schedules.SchedulesViewModel.constructor` | app/src/main/java/com/wonrax/mybk/viewmodel/SchedulesViewModel.kt:16-20 | the fields start in the initial state |
| `Schedules.SchedulesViewModel.Construct` | app/src/main/java/com/wonrax/mybk/viewmodel/SchedulesViewModel.kt:22-31 | the new state is `Constructed` of the old; the invariant is preserved |
| `Schedules.SchedulesViewModel.Update` | app/src/main/java/com/wonrax/mybk/viewmodel/SchedulesViewModel.kt:33-34 | the new state is `RefreshStarted` of the old; the invariant is preserved |
| `Schedules.SchedulesViewModel.FinishUpdate` | app/src/main/java/com/wonrax/mybk/viewmodel/SchedulesViewModel.kt:36-43 | the new state is `RefreshCompleted` of the old; the invariant holds afterwards |

## Left out

- Random ids: `UUID.randomUUID().mostSignificantBits` is replaced by an id parameter of `ShowMessage`. Uniqueness of ids is an assumption of the FIFO lemmas, not a guarantee; `ConsumeHeadDropsCollision` states what happens without it.
- `StateFlow` / `MutableState` observation: the state is a plain field. The `collect` coroutine in `MybkAppState` and its suspension while a snackbar is on screen are not modelled; `ShowNextMessage` is one round of it and `Drain` is repeated rounds with no message queued in between. The snackbar display, its timing and its "OK" action belong to the UI framework.
- Concurrency: `update()` launches its fetch in a background coroutine. The model splits it into `Update` (before the launch) and `FinishUpdate` (the coroutine's body), which may interleave with further `Update` calls in any order (`Run`); simultaneous writes from different threads are not modelled. Each coroutine body is applied as one atomic step: between its assignment of `selectedSemester` (SchedulesViewModel.kt:39) and of `isLoading` (SchedulesViewModel.kt:41) the UI could observe a selection while still loading, so the second half of `Invariant` ("nothing selected while loading") holds only between steps; the first half ("never both flags on") holds at every point, because `isLoading` is only ever set to false. `data` is the repository's own state holder (SchedulesViewModel.kt:24), so in the source it changes as soon as `getRemote` writes it, not only when `FinishUpdate` runs.
- `SchedulesRepository.getLocal` and `getRemote` are not part of this model: their outcomes (the cache flag, the repository's array afterwards) are inputs.
- `Schedules.SchedulesViewModel.Construct`: requires a non-null, non-empty cached array on a cache hit, and `FinishUpdate` requires a non-null fetched array to be non-empty; the Kotlin code would throw at `data.value!![0]` otherwise, and the repository's guarantee about this is not visible.
- `lateinit` fields: `data` is `None` before the Kotlin `constructor(repository)` runs; the exception from reading an uninitialised `lateinit` field (and from calling `update()` before `constructor`) is not modelled.
- `MybkUI`, `CustomSnackbarHost`, `CustomBottomNavigation` and the application bootstrap in `App.kt` are UI composition, navigation options and library initialisation, with no state of their own to model.
