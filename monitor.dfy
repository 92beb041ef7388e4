/**
 * The monitor: the list of keys currently held, the chord string a key-down
 * produces, the registry lookup that decides whether the chord is dispatched,
 * and the order in which a dispatch runs the chord's callbacks and the
 * reflector callbacks their results select.
 *
 * Events come in as a sequence instead of from a blocking read; a dispatch is
 * reported rather than run on a thread, and the callbacks' return values are
 * inputs.
 */
module Monitor {
  import opened Options
  import opened Keys
  import opened Slots
  import opened Registry
  import opened Reflector

  datatype EventType = KeyDown | KeyUp

  /** A raw keyboard event: the key's name, possibly missing, and its direction. */
  datatype Event = Event(name: Option<string>, eventType: EventType)

  /** The name an event is handled under: a missing name becomes "None". */
  function EventName(e: Event): string
  {
    match e.name
    case None => "None"
    case Some(n) => n
  }

  /**
   * Some held key equals `k`: `k in cur_pressed_key`, which compares with
   * `k.__eq__(held)`.
   */
  predicate Held(pressed: seq<Key>, k: Key)
  {
    exists i | 0 <= i < |pressed| :: Eq(k, pressed[i])
  }

  /** `"+".join(names)`. */
  function Join(names: seq<string>): string
  {
    if names == [] then ""
    else if |names| == 1 then names[0]
    else names[0] + "+" + Join(names[1..])
  }

  /** The names of the held keys, in press order. */
  function Names(pressed: seq<Key>): (r: seq<string>)
    ensures |r| == |pressed| && forall i | 0 <= i < |pressed| :: r[i] == pressed[i].key
  {
    if pressed == [] then [] else [pressed[0].key] + Names(pressed[1..])
  }

  /** The chord string of the held keys. */
  function Chord(pressed: seq<Key>): string
  {
    Join(Names(pressed))
  }

  /** The held keys that do not equal `k`, in their original order. */
  function Released(pressed: seq<Key>, k: Key): seq<Key>
  {
    if pressed == [] then []
    else (if Eq(pressed[0], k) then [] else [pressed[0]]) + Released(pressed[1..], k)
  }

  /** What stays held after a release: exactly the held keys that do not equal the released key. */
  lemma {:induction false} ReleasedMembers(pressed: seq<Key>, k: Key)
    ensures |Released(pressed, k)| <= |pressed|
    ensures forall p | p in Released(pressed, k) :: p in pressed && !Eq(p, k)
    ensures forall p | p in pressed && !Eq(p, k) :: p in Released(pressed, k)
  {
    if pressed != [] {
      ReleasedMembers(pressed[1..], k);
      assert pressed == [pressed[0]] + pressed[1..];
    }
  }

  /** Every held key carries its table counterpart. */
  predicate AllNormalised(pressed: seq<Key>)
  {
    forall p | p in pressed :: Normalised(p)
  }

  /** No held key equals a key pressed after it. */
  predicate NoTwoEqual(pressed: seq<Key>)
  {
    forall i, j | 0 <= i < j < |pressed| :: !Eq(pressed[i], pressed[j])
  }

  /** What one event leaves held, and the chord string when a key-down added a key. */
  datatype StepResult = StepResult(pressed: seq<Key>, chord: Option<string>)

  /** The key-down and key-up branches of `_solve`. */
  function Step(pressed: seq<Key>, e: Event): StepResult
  {
    var k := MakeKey(EventName(e));
    if e.eventType == KeyDown && !Held(pressed, k) then
      StepResult(pressed + [k], Some(Chord(pressed + [k])))
    else if e.eventType == KeyUp then
      StepResult(Released(pressed, k), None)
    else
      StepResult(pressed, None)
  }

  /**
   * A key-down of a key already held changes nothing and yields no chord;
   * otherwise the key goes last and the chord is the held names, in press
   * order, joined by "+".
   */
  lemma StepKeyDown(pressed: seq<Key>, e: Event)
    requires e.eventType == KeyDown
    ensures var k := MakeKey(EventName(e));
      if Held(pressed, k) then Step(pressed, e) == StepResult(pressed, None)
      else
        Step(pressed, e).pressed == pressed + [k]
        && Names(Step(pressed, e).pressed) == Names(pressed) + [EventName(e)]
        && Step(pressed, e).chord == Some(Join(Names(pressed) + [EventName(e)]))
  {
  }

  /** Releasing a key that is not held changes nothing. */
  lemma {:induction false} ReleasedNotHeld(pressed: seq<Key>, k: Key)
    requires forall i | 0 <= i < |pressed| :: !Eq(pressed[i], k)
    ensures Released(pressed, k) == pressed
  {
    if pressed != [] {
      var rest := pressed[1..];
      assert !Eq(pressed[0], k);
      assert forall i | 0 <= i < |rest| :: !Eq(rest[i], k) by {
        forall i | 0 <= i < |rest|
          ensures !Eq(rest[i], k)
        {
          assert rest[i] == pressed[i + 1];
        }
      }
      ReleasedNotHeld(rest, k);
    }
  }

  /**
   * On normalised keys it does not matter which side of the comparison the
   * held key is on: `k in held` agrees with the key-up scan's `held == k`.
   */
  lemma HeldEitherOrder(pressed: seq<Key>, k: Key)
    requires AllNormalised(pressed) && Normalised(k)
    ensures Held(pressed, k) <==> exists i | 0 <= i < |pressed| :: Eq(pressed[i], k)
  {
    forall i | 0 <= i < |pressed|
      ensures Eq(k, pressed[i]) <==> Eq(pressed[i], k)
    {
      assert pressed[i] in pressed;
      EqIff(k, pressed[i]);
    }
  }

  /** Removing the keys equal to `k` leaves no two equal keys behind when there were none. */
  lemma {:induction false} ReleasedKeepsNoTwoEqual(pressed: seq<Key>, k: Key)
    requires NoTwoEqual(pressed)
    ensures NoTwoEqual(Released(pressed, k))
  {
    if pressed != [] {
      var rest := pressed[1..];
      assert NoTwoEqual(rest) by {
        forall i, j | 0 <= i < j < |rest|
          ensures !Eq(rest[i], rest[j])
        {
          assert rest[i] == pressed[i + 1] && rest[j] == pressed[j + 1];
        }
      }
      ReleasedKeepsNoTwoEqual(rest, k);
      ReleasedMembers(rest, k);
      var tail := Released(rest, k);
      if !Eq(pressed[0], k) {
        var r := [pressed[0]] + tail;
        forall i, j | 0 <= i < j < |r|
          ensures !Eq(r[i], r[j])
        {
          if i == 0 {
            assert r[j] == tail[j - 1];
            assert r[j] in rest;
            var m :| 0 <= m < |rest| && rest[m] == r[j];
            assert r[j] == pressed[m + 1];
          } else {
            assert r[i] == tail[i - 1] && r[j] == tail[j - 1];
          }
        }
      }
    }
  }

  /**
   * One step of the reverse scan of a key-up: with the keys after `idx`
   * already released, popping the key at `idx` when it equals `k` releases
   * the keys from `idx` on.
   */
  lemma ScanStep(before: seq<Key>, idx: int, k: Key, pressed: seq<Key>)
    requires 0 <= idx < |before|
    requires pressed == before[..idx + 1] + Released(before[idx + 1..], k)
    ensures pressed[idx] == before[idx]
    ensures (if Eq(before[idx], k) then pressed[..idx] + pressed[idx + 1..] else pressed)
         == before[..idx] + Released(before[idx..], k)
  {
    var rest := Released(before[idx + 1..], k);
    assert pressed[..idx] == before[..idx] && pressed[idx + 1..] == rest;
    assert before[idx..][1..] == before[idx + 1..];
    assert Released(before[idx..], k) == (if Eq(before[idx], k) then [] else [before[idx]]) + rest;
    if !Eq(before[idx], k) {
      assert before[..idx + 1] == before[..idx] + [before[idx]];
    }
  }

  /** Releasing works piece by piece, so the keys that stay keep their press order. */
  lemma {:induction false} ReleasedAppend(p: seq<Key>, q: seq<Key>, k: Key)
    ensures Released(p + q, k) == Released(p, k) + Released(q, k)
  {
    if p != [] {
      assert (p + q)[0] == p[0] && (p + q)[1..] == p[1..] + q;
      ReleasedAppend(p[1..], q, k);
    } else {
      assert p + q == q;
    }
  }

  /**
   * A key-up removes every held key equal to the released key, keeps the
   * others in press order, and is a no-op when none is held.
   */
  lemma StepKeyUp(pressed: seq<Key>, e: Event)
    requires e.eventType == KeyUp
    ensures var k := MakeKey(EventName(e)); var r := Step(pressed, e);
      r.chord == None
      && (forall p | p in r.pressed :: p in pressed && !Eq(p, k))
      && (forall p | p in pressed && !Eq(p, k) :: p in r.pressed)
      && (forall i | 0 <= i <= |pressed| :: r.pressed == Released(pressed[..i], k) + Released(pressed[i..], k))
      && ((forall p | p in pressed :: !Eq(p, k)) ==> r.pressed == pressed)
      && (AllNormalised(pressed) && !Held(pressed, k) ==> r.pressed == pressed)
  {
    var k := MakeKey(EventName(e));
    ReleasedMembers(pressed, k);
    forall i | 0 <= i <= |pressed|
      ensures Released(pressed, k) == Released(pressed[..i], k) + Released(pressed[i..], k)
    {
      assert pressed == pressed[..i] + pressed[i..];
      ReleasedAppend(pressed[..i], pressed[i..], k);
    }
    if forall p | p in pressed :: !Eq(p, k) {
      ReleasedNotHeld(pressed, k);
    }
    if AllNormalised(pressed) && !Held(pressed, k) {
      HeldEitherOrder(pressed, k);
      ReleasedNotHeld(pressed, k);
    }
  }

  /** Every event keeps the held keys normalised and pairwise unequal. */
  lemma StepKeepsInvariant(pressed: seq<Key>, e: Event)
    requires AllNormalised(pressed) && NoTwoEqual(pressed)
    ensures AllNormalised(Step(pressed, e).pressed) && NoTwoEqual(Step(pressed, e).pressed)
  {
    var k := MakeKey(EventName(e));
    if e.eventType == KeyUp {
      ReleasedKeepsNoTwoEqual(pressed, k);
      ReleasedMembers(pressed, k);
    } else if !Held(pressed, k) {
      var p := pressed + [k];
      forall i, j | 0 <= i < j < |p|
        ensures !Eq(p[i], p[j])
      {
        if j == |pressed| {
          assert !Eq(k, pressed[i]) && pressed[i] in pressed;
          EqIff(k, pressed[i]);
        }
      }
    }
  }

  /** The held keys after a sequence of events. */
  function Replay(pressed: seq<Key>, events: seq<Event>): seq<Key>
  {
    if events == [] then pressed
    else Step(Replay(pressed, events[..|events| - 1]), events[|events| - 1]).pressed
  }

  /** The chords a sequence of events dispatches: each new chord string that is a key of the table. */
  function Dispatched(pressed: seq<Key>, events: seq<Event>, t: Table): seq<string>
  {
    if events == [] then []
    else
      var r := Step(Replay(pressed, events[..|events| - 1]), events[|events| - 1]);
      Dispatched(pressed, events[..|events| - 1], t)
        + (if r.chord.Some? && r.chord.value in t then [r.chord.value] else [])
  }

  /** Whatever the events, the held list never holds two equal keys. */
  lemma {:induction false} ReplayKeepsInvariant(pressed: seq<Key>, events: seq<Event>)
    requires AllNormalised(pressed) && NoTwoEqual(pressed)
    ensures AllNormalised(Replay(pressed, events)) && NoTwoEqual(Replay(pressed, events))
  {
    if events != [] {
      ReplayKeepsInvariant(pressed, events[..|events| - 1]);
      StepKeepsInvariant(Replay(pressed, events[..|events| - 1]), events[|events| - 1]);
    }
  }

  /** Every chord a sequence of events dispatches is a key of the table. */
  lemma {:induction false} DispatchedAreBound(pressed: seq<Key>, events: seq<Event>, t: Table)
    ensures forall c | c in Dispatched(pressed, events, t) :: c in t
  {
    if events != [] {
      DispatchedAreBound(pressed, events[..|events| - 1], t);
    }
  }

  /** Pressing "ctrl" with nothing held holds just "ctrl", which is its own shift. */
  lemma PressCtrl()
    ensures Step([], Event(Some("ctrl"), KeyDown)).pressed == [Key("ctrl", "ctrl")]
  {
    ShiftExamples();
    assert MakeKey(EventName(Event(Some("ctrl"), KeyDown))) == Key("ctrl", "ctrl");
    assert !Held([], Key("ctrl", "ctrl"));
  }

  /** The key "a" carries its upper-case counterpart. */
  lemma KeyOfA()
    ensures MakeKey(EventName(Event(Some("a"), KeyDown))) == Key("a", "A")
  {
    ShiftExamples();
  }

  /** The chord of "ctrl" and then "a". */
  lemma ChordOfCtrlA()
    ensures Chord([Key("ctrl", "ctrl"), Key("a", "A")]) == "ctrl+a"
  {
    assert Names([Key("ctrl", "ctrl"), Key("a", "A")]) == ["ctrl", "a"];
    assert Join(["ctrl", "a"]) == "ctrl" + "+" + "a";
  }

  /** Pressing "a" while "ctrl" is held gives the chord "ctrl+a". */
  lemma PressAWithCtrl()
    ensures Step([Key("ctrl", "ctrl")], Event(Some("a"), KeyDown)).chord == Some("ctrl+a")
  {
    var ctrl := Key("ctrl", "ctrl");
    var a := Key("a", "A");
    KeyOfA();
    ChordOfCtrlA();
    assert !Held([ctrl], a) by {
      assert !Eq(ctrl, a);
    }
    assert [ctrl] + [a] == [ctrl, a];
  }

  /** Pressing "ctrl" and then "a" gives the chord "ctrl+a". */
  lemma ChordExample()
    ensures Step(Step([], Event(Some("ctrl"), KeyDown)).pressed, Event(Some("a"), KeyDown)).chord
         == Some("ctrl+a")
  {
    PressCtrl();
    PressAWithCtrl();
  }

  /** Pressing "ctrl", releasing it and pressing "a" gives the chord "a". */
  lemma ReleaseExample()
    ensures Step(Step(Step([], Event(Some("ctrl"), KeyDown)).pressed, Event(Some("ctrl"), KeyUp)).pressed,
                 Event(Some("a"), KeyDown)).chord
         == Some("a")
  {
    ShiftExamples();
    var ctrl := Key("ctrl", "ctrl");
    PressCtrl();
    assert Released([ctrl], ctrl) == [];
    assert Step([ctrl], Event(Some("ctrl"), KeyUp)).pressed == [];
    assert Names([Key("a", "A")]) == ["a"];
  }

  /** One call of a callback during a dispatch: a chord callback, or a reflector callback its result selected. */
  datatype Call = Primary(f: Handle) | Secondary(f: Handle)

  /** The reflector callbacks a result selects, as calls. */
  function Secondaries(fs: seq<Handle>): (r: seq<Call>)
    ensures |r| == |fs| && forall i | 0 <= i < |fs| :: r[i] == Secondary(fs[i])
  {
    if fs == [] then [] else [Secondary(fs[0])] + Secondaries(fs[1..])
  }

  /**
   * `run_funcs`: each chord callback in dictionary order, each followed by
   * the reflector callbacks its result selects; `results[i]` is what the
   * i-th callback returns.
   */
  function DispatchTrace(functions: seq<Binding>, results: seq<Option<string>>, lists: Lists): seq<Call>
    requires |results| == |functions|
  {
    if functions == [] then []
    else
      var n := |functions| - 1;
      DispatchTrace(functions[..n], results[..n], lists)
        + [Primary(functions[n].fn)] + Secondaries(Selected(lists, results[n]))
  }

  /** The chord callbacks among the calls, in order. */
  function Primaries(calls: seq<Call>): seq<Handle>
  {
    if calls == [] then []
    else (if calls[0].Primary? then [calls[0].f] else []) + Primaries(calls[1..])
  }

  lemma {:induction false} PrimariesAppend(a: seq<Call>, b: seq<Call>)
    ensures Primaries(a + b) == Primaries(a) + Primaries(b)
  {
    if a != [] {
      assert (a + b)[0] == a[0] && (a + b)[1..] == a[1..] + b;
      PrimariesAppend(a[1..], b);
      var head := if a[0].Primary? then [a[0].f] else [];
      assert head + (Primaries(a[1..]) + Primaries(b)) == (head + Primaries(a[1..])) + Primaries(b);
    } else {
      assert a + b == b;
    }
  }

  lemma {:induction false} NoPrimaries(fs: seq<Handle>)
    ensures Primaries(Secondaries(fs)) == []
  {
    if fs != [] {
      assert Secondaries(fs)[1..] == Secondaries(fs[1..]);
      NoPrimaries(fs[1..]);
    }
  }

  /** A dispatch runs every chord callback exactly once, in dictionary order. */
  lemma {:induction false} DispatchRunsEachCallbackOnce(functions: seq<Binding>, results: seq<Option<string>>, lists: Lists)
    requires |results| == |functions|
    ensures Primaries(DispatchTrace(functions, results, lists)) == Handles(functions)
  {
    if functions != [] {
      var n := |functions| - 1;
      var front := DispatchTrace(functions[..n], results[..n], lists);
      DispatchRunsEachCallbackOnce(functions[..n], results[..n], lists);
      PrimariesAppend(front + [Primary(functions[n].fn)], Secondaries(Selected(lists, results[n])));
      PrimariesAppend(front, [Primary(functions[n].fn)]);
      NoPrimaries(Selected(lists, results[n]));
      HandlesLast(functions);
    }
  }

  lemma HandlesLast(s: seq<Binding>)
    requires s != []
    ensures Handles(s) == Handles(s[..|s| - 1]) + [s[|s| - 1].fn]
  {
    var h := Handles(s[..|s| - 1]) + [s[|s| - 1].fn];
    assert |h| == |s|;
    forall i | 0 <= i < |s|
      ensures Handles(s)[i] == h[i]
    {
      if i < |s| - 1 {
        assert s[..|s| - 1][i] == s[i];
      }
    }
  }

  /** After `unregister(fnc=f)` without a chord, no dispatch of any chord runs `f` as a chord callback. */
  lemma UnregisteredFnNeverDispatched(t: Table, f: Handle, id: Option<int>, chord: string,
                                      results: seq<Option<string>>, lists: Lists)
    requires ValidTable(t) && !IdTruthy(id)
    requires var r := Unregistered(t, None, Some(f), id); r.Done? && chord in r.table
    requires |results| == |Unregistered(t, None, Some(f), id).table[chord]|
    ensures Primary(f) !in DispatchTrace(Unregistered(t, None, Some(f), id).table[chord], results, lists)
    ensures f !in Primaries(DispatchTrace(Unregistered(t, None, Some(f), id).table[chord], results, lists))
  {
    var s := Unregistered(t, None, Some(f), id).table[chord];
    DispatchRunsEachCallbackOnce(s, results, lists);
    UnregisterFnEverywhere(t, f, id);
    PrimaryInTrace(s, results, lists, f);
  }

  /** A chord callback appears in the trace only when it is bound. */
  lemma {:induction false} PrimaryInTrace(functions: seq<Binding>, results: seq<Option<string>>, lists: Lists, f: Handle)
    requires |results| == |functions|
    ensures Primary(f) in DispatchTrace(functions, results, lists) ==> exists b | b in functions :: b.fn == f
  {
    if functions != [] {
      var n := |functions| - 1;
      PrimaryInTrace(functions[..n], results[..n], lists, f);
      var sec := Secondaries(Selected(lists, results[n]));
      var tr := DispatchTrace(functions[..n], results[..n], lists);
      if Primary(f) in DispatchTrace(functions, results, lists) {
        assert DispatchTrace(functions, results, lists) == tr + [Primary(functions[n].fn)] + sec;
        assert forall c | c in sec :: c.Secondary?;
        if Primary(f) in tr {
          var b :| b in functions[..n] && b.fn == f;
          assert b in functions;
        } else {
          assert functions[n] in functions;
        }
      }
    }
  }

  /** Binding `f` and then `g` to a new chord without ids runs `f` and then `g` when the chord is dispatched. */
  lemma RegisterTwiceDispatchesBoth(t: Table, chord: string, f: Handle, g: Handle,
                                    results: seq<Option<string>>, lists: Lists)
    requires ValidTable(t) && chord !in t && |results| == 2
    ensures var s := Added(Added(t, chord, f, None), chord, g, None)[chord];
      s == [Binding(0, f), Binding(1, g)]
      && Primaries(DispatchTrace(s, results, lists)) == [f, g]
  {
    var t1 := Added(t, chord, f, None);
    assert t1[chord] == [Binding(0, f)];
    PutOrder(t1[chord], 1, g);
    DispatchRunsEachCallbackOnce([Binding(0, f), Binding(1, g)], results, lists);
  }

  /** After binding `f` and `g` to a new chord, removing id 0 under the chord leaves only `g` to run. */
  lemma UnregisterFirstOfTwo(t: Table, chord: string, f: Handle, g: Handle,
                             results: seq<Option<string>>, lists: Lists)
    requires ValidTable(t) && chord !in t && chord != "" && |results| == 1
    ensures var r := Unregistered(Added(Added(t, chord, f, None), chord, g, None), Some(chord), None, Some(0));
      r.Done? && r.table[chord] == [Binding(1, g)]
      && Primaries(DispatchTrace(r.table[chord], results, lists)) == [g]
  {
    var t2 := Added(Added(t, chord, f, None), chord, g, None);
    RegisterTwiceDispatchesBoth(t, chord, f, g, [None, None], lists);
    assert t2[chord] == [Binding(0, f), Binding(1, g)];
    assert 0 in IdSet(t2[chord]);
    assert Remove(t2[chord], 0) == [Binding(1, g)];
    DispatchRunsEachCallbackOnce([Binding(1, g)], results, lists);
  }

  /** `KeyboardMonitor.total_monitor`: every monitor ever constructed, in construction order. */
  class Census {
    var monitors: seq<KeyboardMonitor>

    constructor ()
      ensures monitors == []
    {
      monitors := [];
    }

    /** `get_total_monitor_num()`. */
    function TotalMonitorNum(): (n: nat)
      reads this
    {
      |monitors|
    }
  }

  class KeyboardMonitor {
    var pressed: seq<Key>
    var stopped: bool
    var terminalDisplayKey: bool

    ghost predicate Valid()
      reads this
    {
      AllNormalised(pressed) && NoTwoEqual(pressed)
    }

    /** A new monitor holds no keys, is not stopped, and is counted. */
    constructor (census: Census)
      modifies census
      ensures Valid() && pressed == [] && !stopped && !terminalDisplayKey
      ensures census.monitors == old(census.monitors) + [this]
      ensures census.TotalMonitorNum() == old(census.TotalMonitorNum()) + 1
    {
      pressed := [];
      stopped := false;
      terminalDisplayKey := false;
      new;
      census.monitors := census.monitors + [this];
    }

    /**
     * `_solve`: updates the held keys and reports the chord string a key-down
     * produced and the slot dictionary handed to the dispatch thread: the
     * chord's dictionary when the chord is a key of the registry, even one
     * with no ids left, and None otherwise. The thread's calls are
     * `RunFuncs(fncs.value, …)`.
     */
    method Solve(e: Event, registry: KeyRegistry) returns (chord: Option<string>, fncs: Option<seq<Binding>>)
      requires Valid()
      modifies this
      ensures Valid()
      ensures pressed == Step(old(pressed), e).pressed && chord == Step(old(pressed), e).chord
      ensures fncs.Some? <==> chord.Some? && chord.value in registry.table
      ensures fncs.Some? ==> fncs.value == registry.table[chord.value]
      ensures stopped == old(stopped) && terminalDisplayKey == old(terminalDisplayKey)
    {
      StepKeepsInvariant(pressed, e);
      var name := if e.name.Some? then e.name.value else "None";
      var mkey := MakeKey(name);
      chord, fncs := None, None;
      if e.eventType == KeyDown && !Held(pressed, mkey) {
        pressed := pressed + [mkey];
        var keys := Chord(pressed);
        chord := Some(keys);
        fncs := registry.Lookup(keys);
      } else if e.eventType == KeyUp {
        ReleaseKey(mkey);
      }
    }

    /** The key-up branch of `_solve`: scans the held keys from the last and pops each one equal to `k`. */
    method ReleaseKey(k: Key)
      modifies this
      ensures pressed == Released(old(pressed), k)
      ensures stopped == old(stopped) && terminalDisplayKey == old(terminalDisplayKey)
    {
      ghost var before := pressed;
      var idx := |pressed| - 1;
      assert before[|before|..] == [];
      while idx >= 0
        invariant -1 <= idx < |before|
        invariant pressed == before[..idx + 1] + Released(before[idx + 1..], k)
        invariant stopped == old(stopped) && terminalDisplayKey == old(terminalDisplayKey)
      {
        ScanStep(before, idx, k, pressed);
        if Eq(pressed[idx], k) {
          pressed := pressed[..idx] + pressed[idx + 1..];
        }
        idx := idx - 1;
      }
      assert before[0..] == before;
    }

    /** `stop`: raises the stop flag (waiting for dispatch threads is not modelled). */
    method Stop()
      modifies this
      ensures stopped && pressed == old(pressed) && terminalDisplayKey == old(terminalDisplayKey)
    {
      stopped := true;
    }

    /**
     * `run`: handles the events in order until the stop flag is up, and
     * returns the chords it dispatched.
     */
    method Run(events: seq<Event>, registry: KeyRegistry) returns (dispatched: seq<string>)
      requires Valid()
      modifies this
      ensures Valid() && stopped == old(stopped) && terminalDisplayKey == old(terminalDisplayKey)
      ensures old(stopped) ==> pressed == old(pressed) && dispatched == []
      ensures !old(stopped) ==>
        pressed == Replay(old(pressed), events) && dispatched == Dispatched(old(pressed), events, registry.table)
    {
      dispatched := [];
      var i := 0;
      while !stopped && i < |events|
        invariant 0 <= i <= |events| && Valid() && stopped == old(stopped) && terminalDisplayKey == old(terminalDisplayKey)
        invariant old(stopped) ==> i == 0 && pressed == old(pressed) && dispatched == []
        invariant !old(stopped) ==>
          pressed == Replay(old(pressed), events[..i]) && dispatched == Dispatched(old(pressed), events[..i], registry.table)
      {
        assert events[..i + 1][..i] == events[..i];
        var chord, fncs := Solve(events[i], registry);
        if fncs.Some? {
          dispatched := dispatched + [chord.value];
        }
        i := i + 1;
      }
      if !stopped {
        assert events[..|events|] == events;
      }
    }

    /** `callback(res)`: the reflector callbacks a chord callback's result selects, in the order they run. */
    method Callback(res: Option<string>, reflector: CallbackReflector) returns (invoked: seq<Handle>)
      ensures invoked == Selected(reflector.reflectors, res)
    {
      invoked := [];
      if res.None? {
        return;
      }
      var fncs := reflector.Get(res.value, None);
      if fncs.None? {
        return;
      }
      for i := 0 to |fncs.value|
        invariant invoked == fncs.value[..i]
      {
        invoked := invoked + [fncs.value[i]];
      }
      assert fncs.value[..|fncs.value|] == fncs.value;
    }

    /** `run_funcs(functions)`: the calls a dispatch makes, given each chord callback's result. */
    method RunFuncs(functions: seq<Binding>, results: seq<Option<string>>, reflector: CallbackReflector)
      returns (trace: seq<Call>)
      requires |results| == |functions|
      ensures trace == DispatchTrace(functions, results, reflector.reflectors)
    {
      trace := [];
      for i := 0 to |functions|
        invariant trace == DispatchTrace(functions[..i], results[..i], reflector.reflectors)
      {
        assert functions[..i + 1][..i] == functions[..i] && results[..i + 1][..i] == results[..i];
        var invoked := Callback(results[i], reflector);
        trace := trace + [Primary(functions[i].fn)] + Secondaries(invoked);
      }
      assert functions[..|functions|] == functions && results[..|results|] == results;
    }
  }
}
