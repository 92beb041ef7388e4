/**
 * The per-chord dictionary of KEY_REFLECTOR: slot id to callback, in the
 * insertion order a Python dict keeps. It is a sequence of bindings with
 * distinct ids; assigning to an id already present keeps its position,
 * assigning a new id appends, and deleting closes the gap.
 *
 * Callbacks are opaque handles compared by identity, as the source compares
 * functions with `==`.
 */
module Slots {

  /** An opaque callback; two handles are the same callback exactly when equal. */
  type Handle = nat

  datatype Binding = Binding(id: int, fn: Handle)

  /** The ids bound in a sequence of bindings. */
  function IdSet(s: seq<Binding>): set<int>
  {
    if s == [] then {} else {s[0].id} + IdSet(s[1..])
  }

  /** No id occurs twice: the shape of a dict's key set. */
  predicate UniqueIds(s: seq<Binding>)
  {
    s == [] || (s[0].id !in IdSet(s[1..]) && UniqueIds(s[1..]))
  }

  /** The dictionary the bindings stand for (with distinct ids, each id maps to its one callback). */
  function AsMap(s: seq<Binding>): map<int, Handle>
  {
    if s == [] then map[] else AsMap(s[1..])[s[0].id := s[0].fn]
  }

  /** The callbacks in dictionary order: what `dict.values()` yields. */
  function Handles(s: seq<Binding>): (r: seq<Handle>)
    ensures |r| == |s| && forall i | 0 <= i < |s| :: r[i] == s[i].fn
  {
    if s == [] then [] else [s[0].fn] + Handles(s[1..])
  }

  /** An id is bound exactly when some binding carries it. */
  lemma {:induction false} IdSetMembers(s: seq<Binding>)
    ensures forall i | 0 <= i < |s| :: s[i].id in IdSet(s)
    ensures forall id | id in IdSet(s) :: exists i | 0 <= i < |s| :: s[i].id == id
  {
    if s != [] {
      IdSetMembers(s[1..]);
      forall id | id in IdSet(s)
        ensures exists i | 0 <= i < |s| :: s[i].id == id
      {
        if id != s[0].id {
          var j :| 0 <= j < |s[1..]| && s[1..][j].id == id;
          assert s[j + 1].id == id;
        }
      }
    }
  }

  lemma {:induction false} AsMapKeys(s: seq<Binding>)
    ensures AsMap(s).Keys == IdSet(s)
  {
    if s != [] {
      AsMapKeys(s[1..]);
    }
  }

  /** `d[id] = f`: an id already present keeps its place, a new id goes last. */
  function Put(s: seq<Binding>, id: int, f: Handle): (r: seq<Binding>)
    requires UniqueIds(s)
    ensures UniqueIds(r)
    ensures IdSet(r) == IdSet(s) + {id}
  {
    if s == [] then [Binding(id, f)]
    else if s[0].id == id then
      assert ([Binding(id, f)] + s[1..])[1..] == s[1..];
      [Binding(id, f)] + s[1..]
    else
      var r' := Put(s[1..], id, f);
      assert ([s[0]] + r')[1..] == r';
      [s[0]] + r'
  }

  /** After `d[id] = f` the id holds `f` and every other id holds what it held. */
  lemma {:induction false} PutAsMap(s: seq<Binding>, id: int, f: Handle)
    requires UniqueIds(s)
    ensures AsMap(Put(s, id, f)) == AsMap(s)[id := f]
  {
    if s != [] {
      if s[0].id == id {
        assert ([Binding(id, f)] + s[1..])[1..] == s[1..];
      } else {
        var r := Put(s[1..], id, f);
        PutAsMap(s[1..], id, f);
        assert ([s[0]] + r)[1..] == r;
      }
    }
  }

  /** `d[id] = f` appends a new id at the end and leaves an existing id where it was. */
  lemma {:induction false} PutOrder(s: seq<Binding>, id: int, f: Handle)
    requires UniqueIds(s)
    ensures id !in IdSet(s) ==> Put(s, id, f) == s + [Binding(id, f)]
    ensures id in IdSet(s) ==> |Put(s, id, f)| == |s| && forall i | 0 <= i < |s| :: Put(s, id, f)[i].id == s[i].id
  {
    if s != [] && s[0].id != id {
      PutOrder(s[1..], id, f);
      assert s == [s[0]] + s[1..];
    }
  }

  /** `del d[id]` for an id that is present: the binding goes, the rest keep their order. */
  function Remove(s: seq<Binding>, id: int): (r: seq<Binding>)
    requires UniqueIds(s) && id in IdSet(s)
    ensures UniqueIds(r)
    ensures IdSet(r) == IdSet(s) - {id}
    ensures forall j | 0 <= j < |s| && s[j].id == id :: r == s[..j] + s[j + 1..]
  {
    if s[0].id == id then
      IdSetMembers(s[1..]);
      assert forall j | 0 < j < |s| :: s[j] == s[1..][j - 1];
      s[1..]
    else
      var r' := Remove(s[1..], id);
      assert ([s[0]] + r')[1..] == r';
      RemoveCons(s, id, r');
      [s[0]] + r'
  }

  /** Putting back the first binding in front of the rest with `id` removed is `s` with `id` removed. */
  lemma RemoveCons(s: seq<Binding>, id: int, r': seq<Binding>)
    requires s != [] && s[0].id != id
    requires forall j | 0 <= j < |s[1..]| && s[1..][j].id == id :: r' == s[1..][..j] + s[1..][j + 1..]
    ensures forall j | 0 <= j < |s| && s[j].id == id :: [s[0]] + r' == s[..j] + s[j + 1..]
  {
    forall j | 0 <= j < |s| && s[j].id == id
      ensures [s[0]] + r' == s[..j] + s[j + 1..]
    {
      assert s[1..][j - 1] == s[j];
      assert s[1..][..j - 1] == s[1..j] && s[1..][j..] == s[j + 1..];
      assert s[..j] == [s[0]] + s[1..j];
    }
  }

  /** After `del d[id]` the id is unbound and every other id holds what it held. */
  lemma {:induction false} RemoveAsMap(s: seq<Binding>, id: int)
    requires UniqueIds(s) && id in IdSet(s)
    ensures AsMap(Remove(s, id)) == AsMap(s) - {id}
  {
    if s[0].id == id {
      AsMapKeys(s[1..]);
    } else {
      var r := Remove(s[1..], id);
      RemoveAsMap(s[1..], id);
      assert ([s[0]] + r)[1..] == r;
    }
  }

  /** The bindings that are not bound to `f`, in their original order. */
  function WithoutFn(s: seq<Binding>, f: Handle): (r: seq<Binding>)
    ensures UniqueIds(s) ==> UniqueIds(r)
    ensures IdSet(r) <= IdSet(s)
    ensures forall b | b in r :: b in s && b.fn != f
    ensures forall b | b in s && b.fn != f :: b in r
  {
    if s == [] then []
    else
      var rest := WithoutFn(s[1..], f);
      if s[0].fn == f then rest
      else
        assert ([s[0]] + rest)[1..] == rest;
        [s[0]] + rest
  }

  /** Removing the bindings of `f` works piece by piece, so the bindings that stay keep their order. */
  lemma {:induction false} WithoutFnAppend(p: seq<Binding>, q: seq<Binding>, f: Handle)
    ensures WithoutFn(p + q, f) == WithoutFn(p, f) + WithoutFn(q, f)
  {
    if p != [] {
      assert (p + q)[0] == p[0] && (p + q)[1..] == p[1..] + q;
      WithoutFnAppend(p[1..], q, f);
    } else {
      assert p + q == q;
    }
  }

  /** The largest id of a non-empty sequence of bindings. */
  function MaxId(s: seq<Binding>): (m: int)
    requires s != []
    ensures m in IdSet(s)
    ensures forall i | 0 <= i < |s| :: s[i].id <= m
  {
    if |s| == 1 then s[0].id
    else
      var m' := MaxId(s[1..]);
      if s[0].id > m' then s[0].id else m'
  }

  /** The id `add` allocates: one above the largest id, or 0 when there is none. */
  function NextId(s: seq<Binding>): (n: int)
    ensures forall i | 0 <= i < |s| :: s[i].id < n
    ensures s == [] ==> n == 0
    ensures s != [] ==> n - 1 in IdSet(s)
  {
    if s == [] then 0 else MaxId(s) + 1
  }

  /** No value occurs twice in a sequence of ids. */
  predicate Distinct(d: seq<int>)
  {
    forall a, b | 0 <= a < b < |d| :: d[a] != d[b]
  }

  /** The ids bound to `f`, in dictionary order: what the source collects before deleting. */
  function IdsBoundTo(s: seq<Binding>, f: Handle): (d: seq<int>)
    requires UniqueIds(s)
    ensures forall x | x in d :: x in IdSet(s)
    ensures Distinct(d)
    ensures forall i | 0 <= i < |s| :: s[i].id in d <==> s[i].fn == f
  {
    if s == [] then []
    else
      var rest := IdsBoundTo(s[1..], f);
      IdSetMembers(s[1..]);
      assert forall i | 1 <= i < |s| :: s[i] == s[1..][i - 1];
      if s[0].fn == f then
        assert forall x | x in [s[0].id] + rest :: x == s[0].id || x in rest;
        [s[0].id] + rest
      else rest
  }

  /** The bindings whose ids are not in `d`, in their original order. */
  function DropIds(s: seq<Binding>, d: seq<int>): (r: seq<Binding>)
    requires UniqueIds(s)
    ensures UniqueIds(r)
    ensures forall x :: x in IdSet(r) <==> x in IdSet(s) && x !in d
    ensures forall b | b in r :: b in s
  {
    if s == [] then []
    else
      var rest := DropIds(s[1..], d);
      if s[0].id in d then rest
      else
        assert ([s[0]] + rest)[1..] == rest;
        [s[0]] + rest
  }

  /** Dropping no ids keeps every binding. */
  lemma {:induction false} DropNone(s: seq<Binding>)
    requires UniqueIds(s)
    ensures DropIds(s, []) == s
  {
    if s != [] {
      DropNone(s[1..]);
    }
  }

  /** Deleting one more id from what is left is dropping that id as well. */
  lemma {:induction false} DropOneMore(s: seq<Binding>, d: seq<int>, x: int)
    requires UniqueIds(s) && x in IdSet(s) && x !in d
    ensures Remove(DropIds(s, d), x) == DropIds(s, d + [x])
  {
    if s[0].id == x {
      DropNothing(s[1..], d, x);
    } else {
      DropOneMore(s[1..], d, x);
    }
  }

  /** Deleting the next id of a list of distinct bound ids extends what has been dropped by that id. */
  lemma DeleteNext(s: seq<Binding>, d: seq<int>, j: int)
    requires UniqueIds(s) && Distinct(d) && forall x | x in d :: x in IdSet(s)
    requires 0 <= j < |d|
    ensures d[j] in IdSet(DropIds(s, d[..j]))
    ensures Remove(DropIds(s, d[..j]), d[j]) == DropIds(s, d[..j + 1])
  {
    assert d[..j + 1] == d[..j] + [d[j]];
    assert d[j] !in d[..j];
    DropOneMore(s, d[..j], d[j]);
  }

  /** Adding an id that is not bound to the dropped ones changes nothing. */
  lemma {:induction false} DropNothing(s: seq<Binding>, d: seq<int>, x: int)
    requires UniqueIds(s) && x !in IdSet(s)
    ensures DropIds(s, d + [x]) == DropIds(s, d)
  {
    if s != [] {
      DropNothing(s[1..], d, x);
    }
  }

  /** Dropping exactly the ids bound to `f` leaves the bindings not bound to `f`. */
  lemma {:induction false} DropMatching(s: seq<Binding>, d: seq<int>, f: Handle)
    requires UniqueIds(s)
    requires forall i | 0 <= i < |s| :: s[i].id in d <==> s[i].fn == f
    ensures DropIds(s, d) == WithoutFn(s, f)
  {
    if s != [] {
      assert forall i | 1 <= i < |s| :: s[i] == s[1..][i - 1];
      DropMatching(s[1..], d, f);
    }
  }

  /** Collecting the ids bound to `f` and then deleting them removes exactly the bindings of `f`. */
  lemma CollectThenDelete(s: seq<Binding>, f: Handle)
    requires UniqueIds(s)
    ensures DropIds(s, IdsBoundTo(s, f)) == WithoutFn(s, f)
  {
    DropMatching(s, IdsBoundTo(s, f), f);
  }
}
