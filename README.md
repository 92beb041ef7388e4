# KeyboardMonitor in Dafny

A model of the in-memory logic of `KeyboardMonitor/KeyboardMonitor.py`, a
global hotkey monitor. The model covers four parts:

- **Shift table and keys** (`keys.dfy`, module `Keys`). `SHIFT_REFLECTOR` is
  built in the same three steps as the source: the 21 punctuation and digit
  pairs, then upper-case letters to lower case, then every pair turned round.
  `Key` keeps the reported name and its shifted counterpart. Two keys are equal
  when the names agree or the first key's counterpart is the second's name.
  Every key of the table is a single character, so the table is a
  `map<char, char>`, and a name is looked up only when it is one character
  long.
- **Slot dictionaries** (`slots.dfy`, module `Slots`). A chord's
  `{id: callback}` dictionary is a sequence of bindings with distinct ids,
  kept in Python's dict insertion order:
  - assigning to an existing id keeps its place;
  - a new id goes last;
  - deleting an id closes the gap.
  Callbacks are opaque handles compared by identity.
- **Chord registry** (`registry.dfy`, module `Registry`). `KEY_REFLECTOR`
  starts with `"ctrl+c"` bound at id 0 to the stop callback. The model gives
  `add`, `register` and the four removal modes of `unregister`, both as
  specification functions and as methods of the `KeyRegistry` class that
  change the table in place:
  - the two removal loops collect the ids to delete first, then delete them
    one by one;
  - an `unregister` that raises returns the exception (`ValueError` or
    `KeyError`) and leaves the table as it was.
- **Reflector table and the monitor** (`reflector.dfy`, `monitor.dfy`).
  `CALLBACK_REFLECTOR` maps a name to a list of callbacks. The monitor keeps
  the list of held keys:
  - a key-down of a key not already held appends it and forms the chord
    string;
  - a key-up scans from the end and pops every equal key;
  - a chord is dispatched when its string is a key of the registry.
  A dispatch (`run_funcs` with `callback`) is described as the sequence of
  calls it makes. The return value of each chord callback is an input.
  Handle 0 stands for the stop callback bound to "ctrl+c"; the callbacks
  users register are handles other than 0.

The model follows the code:
- Where `unregister`'s docstring and its guard differ
  (`KeyboardMonitor/KeyboardMonitor.py:237-239` against `:257-260`), the
  guard's Python truthiness is modelled:
  - a chord `""` counts as no chord;
  - id `0` given together with a callback is accepted and ignored;
  - the id is also ignored whenever a callback is given.
- The docstring's id-only mode (`:244-246`: with no chord, a given id deletes
  its callback) is not what the code does: `unregister(_id=3)` raises
  `ValueError` at `:257-258`, and the model raises it too.
- A chord whose dictionary has become empty is still dispatched, because the
  lookup finds the entry.
- A dispatch iterates the live dictionary with no isolation of callback
  failures, so no snapshot or failure isolation is claimed.

## Model

| member | source | states |
|---|---|---|
| `Keys.Table` | KeyboardMonitor/KeyboardMonitor.py:61-86 | the finished `SHIFT_REFLECTOR`: the literal and letter pairs plus every pair turned round (a definition with no ensures; `TableIsInvolution` and `TableExtendsForward` state its properties) |
| `Keys.Shift` | KeyboardMonitor/KeyboardMonitor.py:92 | `SHIFT_REFLECTOR.get(key, key)`: the table's image of a one-character name, the name itself otherwise (no ensures; `ShiftInvolution` states its properties) |
| `Keys.MakeKey` | KeyboardMonitor/KeyboardMonitor.py:90-92 | `Key(name)`: the name and its shift (no ensures) |
| `Keys.Eq` | KeyboardMonitor/KeyboardMonitor.py:94-97 | `Key.__eq__`: the names agree or the first key's shift is the second's name (no ensures; `EqIff` and `EqIsEquivalence` state its properties) |
| `Keys.Inverse` | KeyboardMonitor/KeyboardMonitor.py:86 | turning an injective map round sends each value back to its key, and every new key was a value |
| `Keys.ForwardIsInjective` | KeyboardMonitor/KeyboardMonitor.py:61-85 | the literal pairs plus the letter pairs are injective and no value is also a key, so turning them round loses nothing |
| `Keys.TableIsInvolution` | KeyboardMonitor/KeyboardMonitor.py:61-86 | the finished table maps every mapped character to a mapped character, back again, and never to itself |
| `Keys.TableExtendsForward` | KeyboardMonitor/KeyboardMonitor.py:85-86 | each pair added before the inverse update stays in the table, and its reverse is added |
| `Keys.ShiftInvolution` | KeyboardMonitor/KeyboardMonitor.py:86-92 | shifting a name twice gives it back; a name shifts to itself exactly when the table does not map it |
| `Keys.ShiftExamples` | KeyboardMonitor/KeyboardMonitor.py:61-92 | "1"↔"!", "a"↔"A", "="↔"+" in both directions, and "ctrl" is its own shift |
| `Keys.EqIff` | KeyboardMonitor/KeyboardMonitor.py:89-97 | two keys are equal exactly when the second's name is the first's name or its shift, and equality is symmetric |
| `Keys.EqIsEquivalence` | KeyboardMonitor/KeyboardMonitor.py:89-97 | key equality is reflexive, symmetric and transitive |
| `Slots.Handles` | KeyboardMonitor/KeyboardMonitor.py:148 | `values()` yields the i-th binding's callback at position i |
| `Slots.Put` | KeyboardMonitor/KeyboardMonitor.py:181 | `d[id] = f` keeps the ids distinct and adds `id` to the bound ids |
| `Slots.PutAsMap` | KeyboardMonitor/KeyboardMonitor.py:181 | after `d[id] = f` the id holds `f` and every other id holds what it held |
| `Slots.PutOrder` | KeyboardMonitor/KeyboardMonitor.py:181 | a new id is appended at the end; an existing id keeps every slot in place |
| `Slots.Remove` | KeyboardMonitor/KeyboardMonitor.py:211 | `del d[id]` keeps the ids distinct, unbinds exactly `id`, and leaves the other slots in their order: the result is the input with that one slot cut out |
| `Slots.RemoveAsMap` | KeyboardMonitor/KeyboardMonitor.py:211 | after `del d[id]` every other id holds what it held |
| `Slots.MaxId` | KeyboardMonitor/KeyboardMonitor.py:180 | `max(ks)` is a bound id and no id exceeds it |
| `Slots.NextId` | KeyboardMonitor/KeyboardMonitor.py:180 | the allocated id is above every bound id, 0 when none is bound, and one above a bound id otherwise |
| `Slots.WithoutFn` | KeyboardMonitor/KeyboardMonitor.py:203-208 | removing the bindings of `f` keeps exactly the bindings not bound to `f`: every binding of the result is a binding of the input with another callback, every such binding stays, and no id is added |
| `Slots.WithoutFnAppend` | KeyboardMonitor/KeyboardMonitor.py:203-208 | removing the bindings of `f` works piece by piece over any split of the dictionary, so the remaining bindings keep their dispatch order |
| `Slots.IdsBoundTo` | KeyboardMonitor/KeyboardMonitor.py:203-206 | the collected ids are distinct and bound, and a binding's id is collected exactly when its callback is `f` |
| `Slots.DropIds` | KeyboardMonitor/KeyboardMonitor.py:207-208 | after deleting a list of ids, an id is bound exactly when it was bound and is not in the list, and every remaining binding is a binding of the input, with its callback |
| `Slots.DropOneMore` | KeyboardMonitor/KeyboardMonitor.py:207-208 | deleting one more id from what is left is the same as dropping it with the others |
| `Slots.DeleteNext` | KeyboardMonitor/KeyboardMonitor.py:207-208 | each deletion of the next collected id is legal (the id is still bound) and extends what has been dropped by exactly that id |
| `Slots.CollectThenDelete` | KeyboardMonitor/KeyboardMonitor.py:203-208 | collecting the ids bound to `f` and then deleting them leaves exactly the bindings not bound to `f`, in order |
| `Registry.InitialTable` | KeyboardMonitor/KeyboardMonitor.py:60 | the registry starts with only "ctrl+c", bound at id 0 to the stop callback |
| `Registry.AddedId` | KeyboardMonitor/KeyboardMonitor.py:179-184 | the id `add` binds: the given id, else the next free id of an existing chord, else 0 (no ensures; `AddedBinds` and `AddedFreshIdGoesLast` state its properties) |
| `Registry.Added` | KeyboardMonitor/KeyboardMonitor.py:177-185 | `add` keeps every chord's ids distinct |
| `Registry.AddedBinds` | KeyboardMonitor/KeyboardMonitor.py:177-185 | `add` binds `f` at its id under the chord (a new chord gets a one-slot dictionary); no other chord and no other id changes |
| `Registry.AddedFreshIdGoesLast` | KeyboardMonitor/KeyboardMonitor.py:178-181 | without an id, an existing chord gets an id above all its ids (0 for an empty dictionary), bound last |
| `Registry.AddedOverwrites` | KeyboardMonitor/KeyboardMonitor.py:179-181 | an explicit id already bound is overwritten in place, and every slot keeps its position |
| `Registry.AddTwiceExample` | KeyboardMonitor/KeyboardMonitor.py:177-185 | two adds without ids to a new chord bind ids 0 and then 1 |
| `Registry.WithoutFnEverywhere` | KeyboardMonitor/KeyboardMonitor.py:219-225 | removing a callback from every chord keeps every chord and keeps ids distinct |
| `Registry.KeyTruthy` | KeyboardMonitor/KeyboardMonitor.py:257 | the chord is given and is not "" (no ensures) |
| `Registry.IdTruthy` | KeyboardMonitor/KeyboardMonitor.py:259 | the id is given and is not 0 (no ensures) |
| `Registry.UnregisteredUnder` | KeyboardMonitor/KeyboardMonitor.py:197-211 | removal under a named chord keeps every chord's ids distinct |
| `Registry.Unregistered` | KeyboardMonitor/KeyboardMonitor.py:257-264 | `unregister`, when it returns, keeps every chord's ids distinct |
| `Registry.UnregisterValueError` | KeyboardMonitor/KeyboardMonitor.py:257-260 | `ValueError` is raised exactly when neither a truthy chord nor a callback is given, or a truthy id comes with a callback; this includes `unregister()`, `unregister(_id=3)` and chord "" alone |
| `Registry.UnregisterZeroIdWithFn` | KeyboardMonitor/KeyboardMonitor.py:259 | with a callback, id 0 behaves as no id at all |
| `Registry.UnregisterWholeChord` | KeyboardMonitor/KeyboardMonitor.py:200-201 | a chord alone deletes the chord's whole entry; an absent chord raises `KeyError` |
| `Registry.UnregisterFnUnderChord` | KeyboardMonitor/KeyboardMonitor.py:202-208 | a chord and a callback leave under that chord exactly the old bindings of other callbacks, in their old order; other chords do not change; an absent chord raises `KeyError` |
| `Registry.UnregisterIdUnderChord` | KeyboardMonitor/KeyboardMonitor.py:210-211 | a chord and an id cut exactly that slot out of the chord's dictionary, the others keeping their order; other chords do not change; an absent chord or id raises `KeyError` |
| `Registry.UnregisterFnEverywhere` | KeyboardMonitor/KeyboardMonitor.py:213-225 | a callback without a chord leaves under every chord exactly the old bindings of other callbacks, in their old order; every chord stays, even if empty; nothing is raised |
| `Registry.AddThenUnregisterId` | KeyboardMonitor/KeyboardMonitor.py:177-211 | adding to a chord without an id and then removing the allocated id gives back the registry as it was |
| `Registry.CollectIds` | KeyboardMonitor/KeyboardMonitor.py:203-206 | the collecting loop gathers exactly the ids bound to `f`, in dictionary order |
| `Registry.KeyRegistry.constructor` | KeyboardMonitor/KeyboardMonitor.py:60 | the shared registry starts as the initial table |
| `Registry.KeyRegistry.Add` | KeyboardMonitor/KeyboardMonitor.py:177-185 | the table becomes `Added` of the old table, with ids still distinct |
| `Registry.KeyRegistry.Register` | KeyboardMonitor/KeyboardMonitor.py:187-195 | registering adds the binding and returns the callback unchanged |
| `Registry.KeyRegistry.DeleteIds` | KeyboardMonitor/KeyboardMonitor.py:207-208 | deleting the collected ids one by one drops exactly those ids from the chord and changes nothing else |
| `Registry.KeyRegistry.DeleteBindingsOf` | KeyboardMonitor/KeyboardMonitor.py:203-208 | collect-then-delete under a chord leaves exactly the bindings not bound to `f` |
| `Registry.KeyRegistry.UnregisterGivenKey` | KeyboardMonitor/KeyboardMonitor.py:197-211 | the table becomes the outcome of removal under the chord, or stays as it was while the `KeyError` is reported |
| `Registry.KeyRegistry.UnregisterUngivenKey` | KeyboardMonitor/KeyboardMonitor.py:213-225 | after the loop over every chord, each chord has lost exactly the bindings of `f` |
| `Registry.KeyRegistry.Unregister` | KeyboardMonitor/KeyboardMonitor.py:227-264 | the table becomes the outcome of `unregister`, or stays as it was while the raised error is reported |
| `Reflector.Selected` | KeyboardMonitor/KeyboardMonitor.py:137-144 | the callbacks `callback(res)` runs: none for None or an unknown name, the name's list otherwise (no ensures; `AppendedSelects`, `RemovedSelects` and `Callback` state its properties) |
| `Reflector.Appended` | KeyboardMonitor/KeyboardMonitor.py:44-52 | `f` goes at the end of the name's list, a new name gets `[f]`, and no other name changes |
| `Reflector.AppendedSelects` | KeyboardMonitor/KeyboardMonitor.py:44-52 | after registering, the name's result selects its old callbacks followed by `f`, and other results select what they did |
| `Reflector.RemovedSelects` | KeyboardMonitor/KeyboardMonitor.py:54-57 | after unregistering, the name's result selects nothing, and other results select what they did |
| `Reflector.CallbackReflector.constructor` | KeyboardMonitor/KeyboardMonitor.py:35 | the reflector table starts empty |
| `Reflector.CallbackReflector.Register` | KeyboardMonitor/KeyboardMonitor.py:44-52 | the lists become `Appended` of the old lists |
| `Reflector.CallbackReflector.Unregister` | KeyboardMonitor/KeyboardMonitor.py:54-57 | the name's entry is gone and nothing else changes; an absent name is a silent no-op |
| `Monitor.EventName` | KeyboardMonitor/KeyboardMonitor.py:152-153 | an event's name, or "None" when it has none (no ensures) |
| `Monitor.Held` | KeyboardMonitor/KeyboardMonitor.py:156 | `mkey in cur_pressed_key`: some held key compares equal with `mkey == held` (no ensures; `HeldEitherOrder` relates the two orders) |
| `Monitor.Join` | KeyboardMonitor/KeyboardMonitor.py:158 | `"+".join`: the names separated by "+" (no ensures) |
| `Monitor.Chord` | KeyboardMonitor/KeyboardMonitor.py:158 | the chord string: the held keys' names joined by "+" (no ensures; `StepKeyDown` and the examples state its values) |
| `Monitor.Released` | KeyboardMonitor/KeyboardMonitor.py:170-175 | the held keys not equal to the released key, in press order (no ensures; `ReleasedMembers`, `ReleasedAppend` and `ReleaseKey` state its properties) |
| `Monitor.Step` | KeyboardMonitor/KeyboardMonitor.py:152-175 | one `_solve` on the held keys: a key-down of a key not held appends it and yields the chord; a key-up releases (no ensures; `StepKeyDown`, `StepKeyUp` and `StepKeepsInvariant` state its properties) |
| `Monitor.Replay` | KeyboardMonitor/KeyboardMonitor.py:270-273 | the held keys after handling the events in order (no ensures; `ReplayKeepsInvariant` states its property) |
| `Monitor.Dispatched` | KeyboardMonitor/KeyboardMonitor.py:159-164 | the chords, in order, whose key-down finds an entry in the registry (no ensures; `DispatchedAreBound` states its property) |
| `Monitor.DispatchTrace` | KeyboardMonitor/KeyboardMonitor.py:147-150 | the calls of `run_funcs`: each chord callback followed by the reflector callbacks its result selects (no ensures; `DispatchRunsEachCallbackOnce` and `RunFuncs` state its properties) |
| `Monitor.Names` | KeyboardMonitor/KeyboardMonitor.py:158 | the i-th name of the chord is the i-th held key's name |
| `Monitor.ReleasedMembers` | KeyboardMonitor/KeyboardMonitor.py:170-175 | after a release, exactly the held keys not equal to the released key stay |
| `Monitor.ReleasedNotHeld` | KeyboardMonitor/KeyboardMonitor.py:170-175 | releasing a key that is not held changes nothing |
| `Monitor.ReleasedKeepsNoTwoEqual` | KeyboardMonitor/KeyboardMonitor.py:170-175 | a release never leaves two equal keys held when there were none |
| `Monitor.StepKeyDown` | KeyboardMonitor/KeyboardMonitor.py:152-158 | a key-down of a held key changes nothing; otherwise the key goes last and the chord is the held names in press order joined by "+" |
| `Monitor.ScanStep` | KeyboardMonitor/KeyboardMonitor.py:170-174 | one step of the reverse scan: popping the key at `idx` when it equals the released key extends the released suffix by one position |
| `Monitor.ReleasedAppend` | KeyboardMonitor/KeyboardMonitor.py:170-175 | releasing works piece by piece over any split of the held keys, so the keys that stay keep their press order |
| `Monitor.HeldEitherOrder` | KeyboardMonitor/KeyboardMonitor.py:156 | on normalised keys, `mkey in held` (which compares `mkey == held`) agrees with the key-up scan's `held == mkey` |
| `Monitor.StepKeyUp` | KeyboardMonitor/KeyboardMonitor.py:170-175 | a key-up yields no chord, removes every held key equal to the released key, keeps all others in press order, and is a no-op when none matches |
| `Monitor.StepKeepsInvariant` | KeyboardMonitor/KeyboardMonitor.py:156-175 | every event keeps the held keys normalised and pairwise unequal |
| `Monitor.ReplayKeepsInvariant` | KeyboardMonitor/KeyboardMonitor.py:156-175 | after any sequence of events, no two held keys are equal |
| `Monitor.DispatchedAreBound` | KeyboardMonitor/KeyboardMonitor.py:158-164 | every dispatched chord is a key of the registry |
| `Monitor.PressCtrl` | KeyboardMonitor/KeyboardMonitor.py:152-157 | pressing "ctrl" with nothing held holds just "ctrl" |
| `Monitor.PressAWithCtrl` | KeyboardMonitor/KeyboardMonitor.py:156-158 | pressing "a" while "ctrl" is held gives the chord "ctrl+a" |
| `Monitor.ChordExample` | KeyboardMonitor/KeyboardMonitor.py:152-158 | pressing "ctrl" and then "a" gives the chord "ctrl+a" |
| `Monitor.ReleaseExample` | KeyboardMonitor/KeyboardMonitor.py:152-175 | pressing "ctrl", releasing it and pressing "a" gives "a", not "ctrl+a" |
| `Monitor.DispatchRunsEachCallbackOnce` | KeyboardMonitor/KeyboardMonitor.py:147-149 | a dispatch runs every chord callback exactly once, in dictionary order |
| `Monitor.UnregisteredFnNeverDispatched` | KeyboardMonitor/KeyboardMonitor.py:213-225 | after removing a callback from every chord, no dispatch of any chord runs it as a chord callback |
| `Monitor.RegisterTwiceDispatchesBoth` | KeyboardMonitor/KeyboardMonitor.py:177-185 | binding `f` and then `g` to a new chord without ids binds ids 0 and 1, and a dispatch runs `f` and then `g` |
| `Monitor.UnregisterFirstOfTwo` | KeyboardMonitor/KeyboardMonitor.py:210-211 | after binding `f` and `g`, removing id 0 leaves only `g` to run |
| `Monitor.KeyboardMonitor.constructor` | KeyboardMonitor/KeyboardMonitor.py:129-135 | a new monitor holds no keys and is not stopped, it is appended to the list of monitors, so `get_total_monitor_num()` (lines 266-268) grows by one |
| `Monitor.KeyboardMonitor.Solve` | KeyboardMonitor/KeyboardMonitor.py:146-175 | the held keys and chord follow `Step`, the held keys stay pairwise unequal, and the dictionary handed to the dispatch is the chord's registry entry exactly when the chord is a key of the registry |
| `Monitor.KeyboardMonitor.ReleaseKey` | KeyboardMonitor/KeyboardMonitor.py:170-175 | the reverse scan with `pop` leaves exactly the held keys not equal to the released key, in order |
| `Monitor.KeyboardMonitor.Stop` | KeyboardMonitor/KeyboardMonitor.py:275-276 | `stop` raises the stop flag and changes nothing else |
| `Monitor.KeyboardMonitor.Run` | KeyboardMonitor/KeyboardMonitor.py:270-273 | a stopped monitor handles nothing; otherwise the held keys and the dispatched chords are those of the whole event sequence |
| `Monitor.KeyboardMonitor.Callback` | KeyboardMonitor/KeyboardMonitor.py:137-144 | `callback(res)` runs, in list order, the callbacks `res` selects: none for None or an unknown name |
| `Monitor.KeyboardMonitor.RunFuncs` | KeyboardMonitor/KeyboardMonitor.py:147-149 | the calls made are each chord callback in dictionary order, each followed by the reflector callbacks its result selects |

## Left out

- Reading events with `keyboard.read_event()` is blocking input from an outside library. `Run` takes the events as a sequence instead.
- Threads are not modelled: one dispatch thread per chord, the `function_threads` list, `stop` joining them, and the `threading.Thread` base class. `Run` reports which chords are dispatched. `RunFuncs` gives the calls a dispatch makes.
- Running the user callbacks is not modelled. The callbacks are foreign code. Their return values are inputs to `RunFuncs`. Their effects are not modelled: the stop callback bound to "ctrl+c", exceptions, and changes to the registries during a dispatch.
- `print(keys)` when `terminal_display_key` is set is output only. The flag is kept but never read.
- The `atexit` hook `final` and the module-level `keyboard_monitor` instance are process lifecycle. `Census` starts empty.
- The order of the chords in `KEY_REFLECTOR` is not kept. No modelled outcome depends on it. The order of ids within a chord is kept.
- `_unregister_ungiven_key`'s `_id` parameter is never used by the source, so `UnregisterUngivenKey` does not take it.
- `CALLBACK_REFLECTOR.get` (`Reflector.CallbackReflector.Get`) has no contract of its own; `Callback`, `AppendedSelects` and `RemovedSelects` state what it selects. Its default is an optional list of handles, not a value of any type as in the source.
- `KEY_REFLECTOR.get` (`Registry.KeyRegistry.Lookup`) and `get_total_monitor_num` (`Monitor.Census.TotalMonitorNum`) have no contracts of their own; `Solve` and the `KeyboardMonitor` constructor state what they return.
- `RTLAST` is unused by the core and is not part of this model. Neither is `main.py`, which only registers examples.
