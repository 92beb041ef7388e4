/**
 * The chord binding registry KEY_REFLECTOR: chord string to its slot
 * dictionary, shared by every monitor, with `add`, `register` and the
 * removal modes of `unregister`.
 *
 * The order of the chords themselves is not kept (no operation's outcome
 * depends on it); the order of the slots within a chord is.
 */
module Registry {
  import opened Options
  import opened Slots

  type Table = map<string, seq<Binding>>

  /** Every chord's slot dictionary has distinct ids. */
  predicate ValidTable(t: Table)
  {
    forall c | c in t :: UniqueIds(t[c])
  }

  /** The callback bound to "ctrl+c" at start-up: it stops the monitor that dispatches it. Handles of user callbacks are other than this one. */
  const StopHandle: Handle := 0

  /** The registry as the module is loaded: "ctrl+c" bound at id 0 to the stop callback. */
  function InitialTable(): (t: Table)
    ensures ValidTable(t) && t.Keys == {"ctrl+c"} && AsMap(t["ctrl+c"]) == map[0 := StopHandle]
  {
    map["ctrl+c" := [Binding(0, StopHandle)]]
  }

  /** The id `add` binds to: the one given, else one above the largest, else 0. */
  function AddedId(t: Table, chord: string, id: Option<int>): int
  {
    match id
    case Some(i) => i
    case None => if chord in t then NextId(t[chord]) else 0
  }

  /** The registry after `add(chord, f, id)`. */
  function Added(t: Table, chord: string, f: Handle, id: Option<int>): (r: Table)
    requires ValidTable(t)
    ensures ValidTable(r)
  {
    var slot := AddedId(t, chord, id);
    if chord in t then t[chord := Put(t[chord], slot, f)] else t[chord := [Binding(slot, f)]]
  }

  /**
   * `add` binds `f` at its id under the chord, and no other chord and no
   * other id of that chord changes.
   */
  lemma AddedBinds(t: Table, chord: string, f: Handle, id: Option<int>)
    requires ValidTable(t)
    ensures Added(t, chord, f, id).Keys == t.Keys + {chord}
    ensures forall c | c in t && c != chord :: Added(t, chord, f, id)[c] == t[c]
    ensures AsMap(Added(t, chord, f, id)[chord])
         == (if chord in t then AsMap(t[chord]) else map[])[AddedId(t, chord, id) := f]
  {
    if chord in t {
      PutAsMap(t[chord], AddedId(t, chord, id), f);
    }
  }

  /**
   * Without an id, `add` to an existing chord picks an id above every id the
   * chord has (0 when it has none) and binds it last in dispatch order.
   */
  lemma AddedFreshIdGoesLast(t: Table, chord: string, f: Handle)
    requires ValidTable(t) && chord in t
    ensures forall b | b in t[chord] :: b.id < AddedId(t, chord, None)
    ensures t[chord] == [] ==> AddedId(t, chord, None) == 0
    ensures Added(t, chord, f, None)[chord] == t[chord] + [Binding(AddedId(t, chord, None), f)]
  {
    var n := AddedId(t, chord, None);
    IdSetMembers(t[chord]);
    PutOrder(t[chord], n, f);
  }

  /** With an id already bound, `add` replaces its callback and every slot keeps its place. */
  lemma AddedOverwrites(t: Table, chord: string, f: Handle, i: int)
    requires ValidTable(t) && chord in t && i in IdSet(t[chord])
    ensures |Added(t, chord, f, Some(i))[chord]| == |t[chord]|
    ensures forall j | 0 <= j < |t[chord]| :: Added(t, chord, f, Some(i))[chord][j].id == t[chord][j].id
  {
    PutOrder(t[chord], i, f);
  }

  /** Adding twice without ids to a new chord binds ids 0 and then 1, in that order. */
  lemma AddTwiceExample(t: Table, chord: string, f: Handle)
    requires ValidTable(t) && chord !in t
    ensures Added(Added(t, chord, f, None), chord, f, None)[chord] == [Binding(0, f), Binding(1, f)]
  {
    var t1 := Added(t, chord, f, None);
    assert t1[chord] == [Binding(0, f)];
    PutOrder(t1[chord], 1, f);
  }

  datatype Error = ValueError | KeyError

  /** What `unregister` does: the new registry, or the exception it raises (leaving the registry as it was). */
  datatype Outcome = Done(table: Table) | Raised(error: Error)

  /** Python truthiness of the optional chord: None and "" are false. */
  predicate KeyTruthy(key: Option<string>)
  {
    key.Some? && key.value != ""
  }

  /** Python truthiness of the optional id: None and 0 are false. */
  predicate IdTruthy(id: Option<int>)
  {
    id.Some? && id.value != 0
  }

  /** Every binding of `f` removed from every chord; chords left empty stay. */
  function WithoutFnEverywhere(t: Table, f: Handle): (r: Table)
    requires ValidTable(t)
    ensures ValidTable(r)
    ensures r.Keys == t.Keys
  {
    map c | c in t :: WithoutFn(t[c], f)
  }

  /** `_unregister_given_key`: removal under one named chord. */
  function UnregisteredUnder(t: Table, key: string, fnc: Option<Handle>, id: Option<int>): (r: Outcome)
    requires ValidTable(t)
    ensures r.Done? ==> ValidTable(r.table)
  {
    if fnc.None? && id.None? then
      if key in t then Done(t - {key}) else Raised(KeyError)
    else if fnc.Some? then
      if key in t then Done(t[key := WithoutFn(t[key], fnc.value)]) else Raised(KeyError)
    else
      if key in t && id.value in IdSet(t[key]) then Done(t[key := Remove(t[key], id.value)])
      else Raised(KeyError)
  }

  /** `unregister(key, fnc, _id)`: the argument checks, then removal under one chord or under all. */
  function Unregistered(t: Table, key: Option<string>, fnc: Option<Handle>, id: Option<int>): (r: Outcome)
    requires ValidTable(t)
    ensures r.Done? ==> ValidTable(r.table)
  {
    if !(KeyTruthy(key) || fnc.Some?) then Raised(ValueError)
    else if IdTruthy(id) && fnc.Some? then Raised(ValueError)
    else if key.Some? then UnregisteredUnder(t, key.value, fnc, id)
    else Done(WithoutFnEverywhere(t, fnc.value))
  }

  /**
   * `unregister` raises ValueError exactly when neither a truthy chord nor a
   * callback is given, or a truthy id comes with a callback.
   */
  lemma UnregisterValueError(t: Table, key: Option<string>, fnc: Option<Handle>, id: Option<int>)
    requires ValidTable(t)
    ensures Unregistered(t, key, fnc, id) == Raised(ValueError)
        <==> (!KeyTruthy(key) && fnc.None?) || (IdTruthy(id) && fnc.Some?)
    ensures Unregistered(t, None, None, None) == Raised(ValueError)
    ensures Unregistered(t, None, None, Some(3)) == Raised(ValueError)
    ensures Unregistered(t, Some(""), None, None) == Raised(ValueError)
  {
  }

  /** Given a callback, id 0 is treated as no id at all (any other id is rejected). */
  lemma UnregisterZeroIdWithFn(t: Table, key: Option<string>, f: Handle)
    requires ValidTable(t)
    ensures Unregistered(t, key, Some(f), Some(0)) == Unregistered(t, key, Some(f), None)
  {
  }

  /** With a chord and nothing else, the whole chord goes; a missing chord raises KeyError. */
  lemma UnregisterWholeChord(t: Table, key: string)
    requires ValidTable(t) && key != ""
    ensures key in t ==> Unregistered(t, Some(key), None, None) == Done(t - {key})
    ensures key !in t ==> Unregistered(t, Some(key), None, None) == Raised(KeyError)
  {
  }

  /**
   * With a chord and a callback, every binding of the callback under that
   * chord goes, the other bindings stay in order, and no other chord changes;
   * a missing chord raises KeyError.
   */
  lemma UnregisterFnUnderChord(t: Table, key: string, f: Handle, id: Option<int>)
    requires ValidTable(t) && !IdTruthy(id)
    ensures key !in t ==> Unregistered(t, Some(key), Some(f), id) == Raised(KeyError)
    ensures key in t ==> Unregistered(t, Some(key), Some(f), id).Done?
    ensures key in t ==>
      var r := Unregistered(t, Some(key), Some(f), id).table;
      r.Keys == t.Keys
      && (forall c | c in t && c != key :: r[c] == t[c])
      && (forall b | b in r[key] :: b in t[key] && b.fn != f)
      && (forall b | b in t[key] && b.fn != f :: b in r[key])
      && (forall i | 0 <= i <= |t[key]| :: r[key] == WithoutFn(t[key][..i], f) + WithoutFn(t[key][i..], f))
  {
    if key in t {
      forall i | 0 <= i <= |t[key]|
        ensures WithoutFn(t[key], f) == WithoutFn(t[key][..i], f) + WithoutFn(t[key][i..], f)
      {
        assert t[key] == t[key][..i] + t[key][i..];
        WithoutFnAppend(t[key][..i], t[key][i..], f);
      }
    }
  }

  /** With a chord and an id only, exactly that id goes; a missing chord or id raises KeyError. */
  lemma UnregisterIdUnderChord(t: Table, key: string, i: int)
    requires ValidTable(t) && key != ""
    ensures !(key in t && i in IdSet(t[key])) ==> Unregistered(t, Some(key), None, Some(i)) == Raised(KeyError)
    ensures key in t && i in IdSet(t[key]) ==>
      Unregistered(t, Some(key), None, Some(i)).Done?
      && var r := Unregistered(t, Some(key), None, Some(i)).table;
      r.Keys == t.Keys
      && (forall c | c in t && c != key :: r[c] == t[c])
      && AsMap(r[key]) == AsMap(t[key]) - {i}
      && forall j | 0 <= j < |t[key]| && t[key][j].id == i :: r[key] == t[key][..j] + t[key][j + 1..]
  {
    if key in t && i in IdSet(t[key]) {
      RemoveAsMap(t[key], i);
    }
  }

  /**
   * Without a chord, a callback loses every binding under every chord, every
   * chord stays (even if left empty), the id is ignored and nothing is raised.
   */
  lemma UnregisterFnEverywhere(t: Table, f: Handle, id: Option<int>)
    requires ValidTable(t) && !IdTruthy(id)
    ensures Unregistered(t, None, Some(f), id).Done?
    ensures
      var r := Unregistered(t, None, Some(f), id).table;
      r.Keys == t.Keys
      && (forall c, b | c in r && b in r[c] :: b in t[c] && b.fn != f)
      && (forall c, b | c in t && b in t[c] && b.fn != f :: b in r[c])
      && (forall c, i | c in t && 0 <= i <= |t[c]| :: r[c] == WithoutFn(t[c][..i], f) + WithoutFn(t[c][i..], f))
  {
    forall c, i | c in t && 0 <= i <= |t[c]|
      ensures WithoutFn(t[c], f) == WithoutFn(t[c][..i], f) + WithoutFn(t[c][i..], f)
    {
      assert t[c] == t[c][..i] + t[c][i..];
      WithoutFnAppend(t[c][..i], t[c][i..], f);
    }
  }

  /** Binding a callback and then removing it by id under the same chord restores the chord's dictionary. */
  lemma AddThenUnregisterId(t: Table, chord: string, f: Handle)
    requires ValidTable(t) && chord in t && chord != ""
    ensures
      var i := AddedId(t, chord, None);
      var r := Unregistered(Added(t, chord, f, None), Some(chord), None, Some(i));
      r.Done? && r.table == t
  {
    var i := AddedId(t, chord, None);
    var t1 := Added(t, chord, f, None);
    AddedBinds(t, chord, f, None);
    RemoveAddedId(t, chord, f);
    assert Unregistered(t1, Some(chord), None, Some(i)) == Done(t1[chord := t[chord]]);
    assert t1[chord := t[chord]] == t;
  }

  /** Under the chord itself, deleting the id `add` just allocated gives back the old dictionary. */
  lemma RemoveAddedId(t: Table, chord: string, f: Handle)
    requires ValidTable(t) && chord in t
    ensures AddedId(t, chord, None) in IdSet(Added(t, chord, f, None)[chord])
    ensures Remove(Added(t, chord, f, None)[chord], AddedId(t, chord, None)) == t[chord]
  {
    var i := AddedId(t, chord, None);
    var s := t[chord];
    AddedFreshIdGoesLast(t, chord, f);
    IdSetMembers(s);
    assert Added(t, chord, f, None)[chord] == s + [Binding(i, f)];
    RemoveAppended(s, Binding(i, f));
  }

  /** Deleting the id just appended gives back the dictionary before the append. */
  lemma {:induction false} RemoveAppended(s: seq<Binding>, b: Binding)
    requires UniqueIds(s) && b.id !in IdSet(s) && UniqueIds(s + [b])
    ensures b.id in IdSet(s + [b]) && Remove(s + [b], b.id) == s
  {
    if s == [] {
    } else {
      assert (s + [b])[1..] == s[1..] + [b];
      assert s[0].id != b.id;
      RemoveAppended(s[1..], b);
    }
  }

  /** The ids bound to `f`, gathered in dictionary order before anything is deleted. */
  method CollectIds(slots: seq<Binding>, f: Handle) returns (deleteIds: seq<int>)
    requires UniqueIds(slots)
    ensures deleteIds == IdsBoundTo(slots, f)
  {
    deleteIds := [];
    var i := 0;
    assert slots[0..] == slots;
    while i < |slots|
      invariant 0 <= i <= |slots| && UniqueIds(slots[i..])
      invariant deleteIds + IdsBoundTo(slots[i..], f) == IdsBoundTo(slots, f)
    {
      assert slots[i..][1..] == slots[i + 1..];
      if slots[i].fn == f {
        deleteIds := deleteIds + [slots[i].id];
      }
      i := i + 1;
    }
    assert slots[|slots|..] == [] && deleteIds + [] == deleteIds;
  }

  /** The shared registry object; its methods change the table in place. */
  class KeyRegistry {
    var table: Table

    ghost predicate Valid()
      reads this
    {
      ValidTable(table)
    }

    constructor ()
      ensures Valid() && table == InitialTable()
    {
      table := map["ctrl+c" := [Binding(0, StopHandle)]];
    }

    /** The slot dictionary of a chord, or None: `KEY_REFLECTOR.get(chord, None)`. */
    function Lookup(chord: string): (r: Option<seq<Binding>>)
      reads this
    {
      if chord in table then Some(table[chord]) else None
    }

    /** `add(new_key, fnc, _id)`. */
    method Add(newKey: string, fnc: Handle, id: Option<int>)
      requires Valid()
      modifies this
      ensures Valid()
      ensures table == Added(old(table), newKey, fnc, id)
    {
      if newKey in table {
        var slot: int;
        if id.None? {
          var ks := table[newKey];
          slot := if ks == [] then 0 else MaxId(ks) + 1;
        } else {
          slot := id.value;
        }
        table := table[newKey := Put(table[newKey], slot, fnc)];
      } else {
        var slot := if id.None? then 0 else id.value;
        table := table[newKey := [Binding(slot, fnc)]];
      }
    }

    /** `register(refl_str, _id)(fnc)`: adds the binding and hands the callback back unchanged. */
    method Register(reflStr: string, id: Option<int>, fnc: Handle) returns (r: Handle)
      requires Valid()
      modifies this
      ensures Valid()
      ensures r == fnc && table == Added(old(table), reflStr, fnc, id)
    {
      Add(reflStr, fnc, id);
      r := fnc;
    }

    /** Delete the given ids, one after another, from a chord's dictionary. */
    method DeleteIds(chord: string, ids: seq<int>)
      requires Valid() && chord in table
      requires Distinct(ids) && forall x | x in ids :: x in IdSet(table[chord])
      modifies this
      ensures Valid()
      ensures table == old(table)[chord := DropIds(old(table)[chord], ids)]
    {
      var slots := table[chord];
      DropNone(slots);
      assert ids[..0] == [];
      var j := 0;
      while j < |ids|
        invariant 0 <= j <= |ids|
        invariant table == old(table)[chord := DropIds(slots, ids[..j])]
      {
        DeleteNext(slots, ids, j);
        table := table[chord := Remove(table[chord], ids[j])];
        j := j + 1;
      }
      assert ids[..|ids|] == ids;
    }

    /** Collect the ids bound to `f` under a chord, then delete each of them. */
    method DeleteBindingsOf(chord: string, f: Handle)
      requires Valid() && chord in table
      modifies this
      ensures Valid()
      ensures table == old(table)[chord := WithoutFn(old(table)[chord], f)]
    {
      var deleteIds := CollectIds(table[chord], f);
      CollectThenDelete(table[chord], f);
      DeleteIds(chord, deleteIds);
    }

    /** `_unregister_given_key(key, fnc, _id)`. */
    method UnregisterGivenKey(key: string, fnc: Option<Handle>, id: Option<int>) returns (raised: Option<Error>)
      requires Valid()
      modifies this
      ensures Valid()
      ensures match UnregisteredUnder(old(table), key, fnc, id)
        case Done(t) => raised == None && table == t
        case Raised(e) => raised == Some(e) && table == old(table)
    {
      raised := None;
      if fnc.None? && id.None? {
        if key !in table {
          return Some(KeyError);
        }
        table := table - {key};
      } else if fnc.Some? {
        if key !in table {
          return Some(KeyError);
        }
        DeleteBindingsOf(key, fnc.value);
      } else {
        if key !in table || id.value !in IdSet(table[key]) {
          return Some(KeyError);
        }
        table := table[key := Remove(table[key], id.value)];
      }
    }

    /** `_unregister_ungiven_key(fnc)`: every chord in turn loses the bindings of `fnc`. */
    method UnregisterUngivenKey(fnc: Handle)
      requires Valid()
      modifies this
      ensures Valid()
      ensures table == WithoutFnEverywhere(old(table), fnc)
    {
      var todo := table.Keys;
      while todo != {}
        invariant Valid()
        invariant table.Keys == old(table).Keys && todo <= table.Keys
        invariant forall c | c in table ::
          table[c] == if c in todo then old(table)[c] else WithoutFn(old(table)[c], fnc)
        decreases todo
      {
        var c :| c in todo;
        DeleteBindingsOf(c, fnc);
        todo := todo - {c};
      }
    }

    /** `unregister(key, fnc, _id)`: None when it returns, the exception when it raises. */
    method Unregister(key: Option<string>, fnc: Option<Handle>, id: Option<int>) returns (raised: Option<Error>)
      requires Valid()
      modifies this
      ensures Valid()
      ensures match Unregistered(old(table), key, fnc, id)
        case Done(t) => raised == None && table == t
        case Raised(e) => raised == Some(e) && table == old(table)
    {
      if !(KeyTruthy(key) || fnc.Some?) {
        return Some(ValueError);
      }
      if IdTruthy(id) && fnc.Some? {
        return Some(ValueError);
      }
      if key.Some? {
        raised := UnregisterGivenKey(key.value, fnc, id);
      } else {
        UnregisterUngivenKey(fnc.value);
        raised := None;
      }
    }
  }
}
