/**
 * CALLBACK_REFLECTOR: the table, shared by every monitor, from a name to the
 * list of callbacks run when a chord callback returns that name.
 */
module Reflector {
  import opened Options
  import opened Slots

  type Lists = map<string, seq<Handle>>

  /** The lists after `register(name)(f)`: `f` goes at the end of the name's list, a new name gets `[f]`. */
  function Appended(m: Lists, name: string, f: Handle): (r: Lists)
    ensures r.Keys == m.Keys + {name}
    ensures r[name] == (if name in m then m[name] else []) + [f]
    ensures forall n | n in m && n != name :: r[n] == m[n]
  {
    if name in m then m[name := m[name] + [f]] else m[name := [f]]
  }

  /** The callbacks `callback(res)` runs, in list order: none for None or for a name not registered. */
  function Selected(m: Lists, res: Option<string>): seq<Handle>
  {
    match res
    case None => []
    case Some(name) => if name in m then m[name] else []
  }

  /** Registering under a name adds `f` as the last callback that name selects, and changes no other name. */
  lemma AppendedSelects(m: Lists, name: string, f: Handle, res: Option<string>)
    ensures res == Some(name) ==> Selected(Appended(m, name, f), res) == Selected(m, res) + [f]
    ensures res != Some(name) ==> Selected(Appended(m, name, f), res) == Selected(m, res)
  {
  }

  /** After `unregister(name)` the name selects nothing, and no other name changes. */
  lemma RemovedSelects(m: Lists, name: string, res: Option<string>)
    ensures res == Some(name) ==> Selected(m - {name}, res) == []
    ensures res != Some(name) ==> Selected(m - {name}, res) == Selected(m, res)
  {
  }

  class CallbackReflector {
    var reflectors: Lists

    constructor ()
      ensures reflectors == map[]
    {
      reflectors := map[];
    }

    /** `get(name, default)`: the name's list, or the default when the name is not registered. */
    function Get(name: string, default: Option<seq<Handle>>): (r: Option<seq<Handle>>)
      reads this
    {
      if name in reflectors then Some(reflectors[name]) else default
    }

    /** `register(name)(fnc)`. */
    method Register(name: string, fnc: Handle)
      modifies this
      ensures reflectors == Appended(old(reflectors), name, fnc)
    {
      if name in reflectors {
        reflectors := reflectors[name := reflectors[name] + [fnc]];
      } else {
        reflectors := reflectors[name := [fnc]];
      }
    }

    /** `unregister(name)`: the whole entry goes; a name not registered is left alone. */
    method Unregister(name: string)
      modifies this
      ensures reflectors == old(reflectors) - {name}
      ensures name !in old(reflectors) ==> reflectors == old(reflectors)
    {
      if name in reflectors {
        reflectors := reflectors - {name};
      }
    }
  }
}
