/** Deferred fixups, as data. A shared-resource fixup is a chain of callbacks composed one
    registration at a time; an external-reference fixup list is kept flat. Running a
    callback is modelled by the write it makes into the object graph. */
module Fixups {
  import opened Content

  /** A place in the object graph that a callback fills in (a field of the caller's object). */
  type SlotId = nat

  /** What a shared-resource callback does with the resolved object: store it in a slot. */
  datatype SharedAction = StoreResource(slot: SlotId)

  /** The composed callback held for one resource id: the first registration alone, or a
      closure that runs the previous composition and then one more callback. */
  datatype SharedFixup = Single(action: SharedAction) | Then(previous: SharedFixup, next: SharedAction)

  /** An external-reference callback: the `ExternalReference<T>` whose `Filename` it sets,
      and `typeof(T)`, which it checks the resolved target type against. */
  datatype ExternalFixup = ExternalFixup(slot: SlotId, expected: TypeId)

  /** A write a callback makes into the object graph. */
  datatype Write = SetResource(slot: SlotId, value: Value) | SetFilename(slot: SlotId, filename: string)

  /** One call of ReadSharedResource that registered a callback. */
  datatype Registration = Registration(id: string, action: SharedAction)

  // ----- shared-resource fixups -----

  /** The callbacks a composition runs, in the order it runs them. */
  function Flatten(f: SharedFixup): (s: seq<SharedAction>)
    ensures |s| >= 1
  {
    match f
    case Single(a) => [a]
    case Then(prev, a) => Flatten(prev) + [a]
  }

  /** The fixup stored for an id after one more registration. */
  function Compose(previous: Option<SharedFixup>, action: SharedAction): (f: SharedFixup)
    ensures previous.None? ==> Flatten(f) == [action]
    ensures previous.Some? ==> Flatten(f) == Flatten(previous.value) + [action]
  {
    match previous
    case None => Single(action)
    case Some(prev) => Then(prev, action)
  }

  /** Each callback stores `v` in its slot. */
  function StoreAll(actions: seq<SharedAction>, v: Value): (ws: seq<Write>)
    ensures |ws| == |actions|
    ensures forall i :: 0 <= i < |ws| ==> ws[i] == SetResource(actions[i].slot, v)
  {
    if actions == [] then [] else [SetResource(actions[0].slot, v)] + StoreAll(actions[1..], v)
  }

  /** Invoking a composed callback with the resolved object: the nested closures run the
      earlier composition first, then the callback added last, so the callbacks
      registered run in order, once each. */
  function RunComposed(f: SharedFixup, v: Value): (ws: seq<Write>)
    ensures ws == StoreAll(Flatten(f), v)
  {
    match f
    case Single(a) => [SetResource(a.slot, v)]
    case Then(prev, a) => RunComposed(prev, v) + [SetResource(a.slot, v)]
  }

  /** Ids registered so far, in order of first registration (the order in which the
      fixup dictionary enumerates them). */
  function Ids(regs: seq<Registration>): (ids: seq<string>)
    ensures Distinct(ids)
    ensures forall k :: k in ids <==> k in IdSet(regs)
    decreases |regs|
  {
    if regs == [] then []
    else
      var prior := Ids(regs[..|regs| - 1]);
      var id := regs[|regs| - 1].id;
      assert IdSet(regs) == IdSet(regs[..|regs| - 1]) + {id};
      if id in prior then prior else prior + [id]
  }

  function IdSet(regs: seq<Registration>): set<string> {
    set r | r in regs :: r.id
  }

  /** The callbacks registered for `id`, in registration order. */
  function ActionsFor(regs: seq<Registration>, id: string): seq<SharedAction>
    decreases |regs|
  {
    if regs == [] then []
    else
      var prior := ActionsFor(regs[..|regs| - 1], id);
      if regs[|regs| - 1].id == id then prior + [regs[|regs| - 1].action] else prior
  }

  lemma {:induction false} NoActionsForUnregistered(regs: seq<Registration>, id: string)
    requires id !in IdSet(regs)
    ensures ActionsFor(regs, id) == []
    decreases |regs|
  {
    if regs != [] {
      assert IdSet(regs) == IdSet(regs[..|regs| - 1]) + {regs[|regs| - 1].id};
      NoActionsForUnregistered(regs[..|regs| - 1], id);
    }
  }

  /** The state of the shared-resource fixup dictionary after the registrations `regs`:
      it enumerates ids in order of first registration, and each id's composition runs
      exactly the callbacks registered for that id. */
  ghost predicate Consistent(regs: seq<Registration>, order: seq<string>, fixups: map<string, SharedFixup>) {
    order == Ids(regs) &&
    (forall k :: k in fixups <==> k in order) &&
    (forall k :: k in fixups ==> Flatten(fixups[k]) == ActionsFor(regs, k))
  }

  function Lookup(fixups: map<string, SharedFixup>, id: string): Option<SharedFixup> {
    if id in fixups then Some(fixups[id]) else None
  }

  /** One more registration keeps the dictionary consistent with the history. */
  lemma RegisterKeepsConsistent(regs: seq<Registration>, order: seq<string>,
                                fixups: map<string, SharedFixup>, id: string, action: SharedAction)
    requires Consistent(regs, order, fixups)
    ensures Consistent(regs + [Registration(id, action)],
                       if id in fixups then order else order + [id],
                       fixups[id := Compose(Lookup(fixups, id), action)])
  {
    var regs' := regs + [Registration(id, action)];
    assert regs'[..|regs'| - 1] == regs;
    if id !in fixups {
      NoActionsForUnregistered(regs, id);
    }
  }

  /** What replaying the fixup dictionary against the resource table writes: each id's
      composed callback, in enumeration order, with that id's resource. */
  function ReplayShared(order: seq<string>, fixups: map<string, SharedFixup>, table: map<string, Value>): (ws: seq<Write>)
    requires forall k :: k in order ==> k in fixups && k in table
    ensures forall k, w :: k in order && w in RunComposed(fixups[k], table[k]) ==> w in ws
    ensures forall w :: w in ws ==> exists k :: k in order && w in RunComposed(fixups[k], table[k])
  {
    if order == [] then []
    else RunComposed(fixups[order[0]], table[order[0]]) + ReplayShared(order[1..], fixups, table)
  }

  /** Replaying two runs of ids one after the other replays their concatenation. */
  lemma {:induction false} ReplaySharedAppend(o1: seq<string>, o2: seq<string>,
                                              fixups: map<string, SharedFixup>, table: map<string, Value>)
    requires forall k :: k in o1 + o2 ==> k in fixups && k in table
    ensures ReplayShared(o1 + o2, fixups, table) == ReplayShared(o1, fixups, table) + ReplayShared(o2, fixups, table)
    decreases |o1|
  {
    if o1 != [] {
      assert (o1 + o2)[1..] == o1[1..] + o2;
      ReplaySharedAppend(o1[1..], o2, fixups, table);
    } else {
      assert o1 + o2 == o2;
    }
  }

  /** The first id of `order` that the table lacks. */
  function FirstMissing(order: seq<string>, table: map<string, Value>): (r: Option<nat>)
    ensures r.None? <==> forall k :: k in order ==> k in table
    ensures r.Some? ==> r.value < |order| && order[r.value] !in table &&
                        forall i :: 0 <= i < r.value ==> order[i] in table
  {
    if order == [] then None
    else if order[0] !in table then Some(0)
    else match FirstMissing(order[1..], table)
      case None => None
      case Some(i) => Some(i + 1)
  }

  /** Replaying one more id appends that id's writes to what was written so far. */
  lemma ReplayOneMore(written: seq<Write>, order: seq<string>, fixups: map<string, SharedFixup>,
                      table: map<string, Value>, i: nat)
    requires i < |order| && forall k :: k in order[..i + 1] ==> k in fixups && k in table
    ensures written + ReplayShared(order[..i], fixups, table) + RunComposed(fixups[order[i]], table[order[i]]) ==
            written + ReplayShared(order[..i + 1], fixups, table)
  {
    assert order[..i + 1] == order[..i] + [order[i]];
    ReplaySharedAppend(order[..i], [order[i]], fixups, table);
  }

  /** The id the replay stops at: every id before it has a resource and it has none. */
  lemma {:induction false} FirstMissingAt(order: seq<string>, table: map<string, Value>, i: nat)
    requires i < |order| && order[i] !in table
    requires forall k :: k in order[..i] ==> k in table
    ensures FirstMissing(order, table) == Some(i)
  {
    assert order[i] in order;
    assert forall j :: 0 <= j < i ==> order[j] == order[..i][j];
  }

  /** The writes the replay makes before it stops: every id's composed callback, in
      enumeration order, up to the first id that has no resource. */
  function ReplayWrites(order: seq<string>, fixups: map<string, SharedFixup>, table: map<string, Value>): (ws: seq<Write>)
    requires forall k :: k in order ==> k in fixups
    ensures (forall k :: k in order ==> k in table) ==> ws == ReplayShared(order, fixups, table)
  {
    if order == [] || order[0] !in table then []
    else RunComposed(fixups[order[0]], table[order[0]]) + ReplayWrites(order[1..], fixups, table)
  }

  /** When the replay stops at the `i`-th id, it has run exactly the fixups of the ids
      before it. */
  lemma {:induction false} ReplayWritesUpTo(order: seq<string>, fixups: map<string, SharedFixup>,
                                            table: map<string, Value>, i: nat)
    requires forall k :: k in order ==> k in fixups
    requires i <= |order| && (forall k :: k in order[..i] ==> k in table)
    requires i < |order| ==> order[i] !in table
    ensures ReplayWrites(order, fixups, table) == ReplayShared(order[..i], fixups, table)
    decreases i
  {
    if i > 0 {
      assert order[0] in order[..i];
      assert order[..i][1..] == order[1..][..i - 1];
      assert forall k :: k in order[1..][..i - 1] ==> k in order[..i];
      ReplayWritesUpTo(order[1..], fixups, table, i - 1);
    }
  }

  /** One write per registration, in registration order. */
  function Writes(regs: seq<Registration>, table: map<string, Value>): seq<Write>
    requires forall r :: r in regs ==> r.id in table
    decreases |regs|
  {
    if regs == [] then []
    else
      var last := regs[|regs| - 1];
      Writes(regs[..|regs| - 1], table) + [SetResource(last.action.slot, table[last.id])]
  }

  /** The writes of the ids in `keys`, grouped by id. */
  function Blocks(keys: seq<string>, regs: seq<Registration>, table: map<string, Value>): seq<Write>
    requires forall k :: k in keys ==> k in table
  {
    if keys == [] then []
    else StoreAll(ActionsFor(regs, keys[0]), table[keys[0]]) + Blocks(keys[1..], regs, table)
  }

  lemma {:induction false} ReplayIsBlocks(regs: seq<Registration>, order: seq<string>,
                                          fixups: map<string, SharedFixup>, table: map<string, Value>)
    requires forall k :: k in order ==> k in fixups && k in table
    requires forall k :: k in fixups ==> Flatten(fixups[k]) == ActionsFor(regs, k)
    ensures ReplayShared(order, fixups, table) == Blocks(order, regs, table)
  {
    if order != [] {
      ReplayIsBlocks(regs, order[1..], fixups, table);
    }
  }

  lemma {:induction false} BlocksAppend(k1: seq<string>, k2: seq<string>, regs: seq<Registration>, table: map<string, Value>)
    requires forall k :: k in k1 + k2 ==> k in table
    ensures Blocks(k1 + k2, regs, table) == Blocks(k1, regs, table) + Blocks(k2, regs, table)
  {
    if k1 != [] {
      assert (k1 + k2)[1..] == k1[1..] + k2;
      BlocksAppend(k1[1..], k2, regs, table);
    } else {
      assert k1 + k2 == k2;
    }
  }

  lemma StoreAllAppend(a: seq<SharedAction>, b: seq<SharedAction>, v: Value)
    ensures StoreAll(a + b, v) == StoreAll(a, v) + StoreAll(b, v)
  {
  }

  lemma ActionsForSnoc(regs: seq<Registration>, r: Registration, id: string)
    ensures ActionsFor(regs + [r], id) == ActionsFor(regs, id) + (if r.id == id then [r.action] else [])
  {
    var regs' := regs + [r];
    assert regs'[..|regs'| - 1] == regs;
  }

  predicate Distinct(keys: seq<string>) {
    forall i, j :: 0 <= i < j < |keys| ==> keys[i] != keys[j]
  }

  /** Distinctness, one element at a time. */
  predicate NoDuplicates(keys: seq<string>) {
    keys == [] || (keys[0] !in keys[1..] && NoDuplicates(keys[1..]))
  }

  lemma {:induction false} DistinctHasNoDuplicates(keys: seq<string>)
    requires Distinct(keys)
    ensures NoDuplicates(keys)
  {
    if keys != [] {
      forall i, j | 0 <= i < j < |keys[1..]| ensures keys[1..][i] != keys[1..][j] {
        assert keys[1..][i] == keys[i + 1] && keys[1..][j] == keys[j + 1];
      }
      forall i | 0 <= i < |keys[1..]| ensures keys[1..][i] != keys[0] {
        assert keys[1..][i] == keys[i + 1];
      }
      DistinctHasNoDuplicates(keys[1..]);
    }
  }

  /** A block for an id other than the new registration's is unchanged by it. */
  lemma {:induction false} BlocksUnaffected(keys: seq<string>, regs: seq<Registration>, r: Registration, table: map<string, Value>)
    requires forall k :: k in keys ==> k in table
    requires r.id !in keys
    ensures Blocks(keys, regs + [r], table) == Blocks(keys, regs, table)
  {
    if keys != [] {
      ActionsForSnoc(regs, r, keys[0]);
      BlocksUnaffected(keys[1..], regs, r, table);
    }
  }

  /** Adding a registration adds its write to the block of its id and leaves the other
      blocks as they were. */
  lemma {:induction false} BlocksExtend(keys: seq<string>, regs: seq<Registration>, r: Registration, table: map<string, Value>)
    requires forall k :: k in keys ==> k in table
    requires NoDuplicates(keys) && r.id in keys
    ensures multiset(Blocks(keys, regs + [r], table))
            == multiset(Blocks(keys, regs, table)) + multiset{SetResource(r.action.slot, table[r.id])}
    decreases |keys|, 1
  {
    if keys[0] == r.id {
      BlocksExtendHere(keys, regs, r, table);
    } else {
      BlocksExtendLater(keys, regs, r, table);
    }
  }

  lemma {:induction false} BlocksExtendHere(keys: seq<string>, regs: seq<Registration>, r: Registration, table: map<string, Value>)
    requires forall k :: k in keys ==> k in table
    requires NoDuplicates(keys) && keys != [] && keys[0] == r.id
    ensures multiset(Blocks(keys, regs + [r], table))
            == multiset(Blocks(keys, regs, table)) + multiset{SetResource(r.action.slot, table[r.id])}
  {
    var k, rest := keys[0], keys[1..];
    var w := SetResource(r.action.slot, table[r.id]);
    ActionsForSnoc(regs, r, k);
    var before := StoreAll(ActionsFor(regs, k), table[k]);
    StoreAllAppend(ActionsFor(regs, k), [r.action], table[k]);
    assert StoreAll(ActionsFor(regs + [r], k), table[k]) == before + [w];
    BlocksUnaffected(rest, regs, r, table);
    assert Blocks(keys, regs + [r], table) == before + [w] + Blocks(rest, regs, table);
  }

  lemma {:induction false} BlocksExtendLater(keys: seq<string>, regs: seq<Registration>, r: Registration, table: map<string, Value>)
    requires forall k :: k in keys ==> k in table
    requires NoDuplicates(keys) && r.id in keys && keys[0] != r.id
    ensures multiset(Blocks(keys, regs + [r], table))
            == multiset(Blocks(keys, regs, table)) + multiset{SetResource(r.action.slot, table[r.id])}
    decreases |keys|, 0
  {
    var k, rest := keys[0], keys[1..];
    ActionsForSnoc(regs, r, k);
    assert ActionsFor(regs, k) + [] == ActionsFor(regs, k);
    assert keys == [k] + rest;
    BlocksExtend(rest, regs, r, table);
  }

  /** Grouping the writes by id loses none and adds none: the grouped replay holds
      exactly one write per registration. */
  lemma {:induction false} BlocksAreWrites(regs: seq<Registration>, table: map<string, Value>)
    requires forall r :: r in regs ==> r.id in table
    ensures forall k :: k in Ids(regs) ==> k in table
    ensures multiset(Blocks(Ids(regs), regs, table)) == multiset(Writes(regs, table))
    decreases |regs|
  {
    assert forall k :: k in IdSet(regs) ==> k in table;
    if regs != [] {
      var prefix, r := regs[..|regs| - 1], regs[|regs| - 1];
      assert regs == prefix + [r];
      assert forall x :: x in prefix ==> x in regs;
      BlocksAreWrites(prefix, table);
      BlocksAreWritesStep(prefix, r, table);
    }
  }

  /** The inductive step of BlocksAreWrites: one more registration, new id or known. */
  lemma BlocksAreWritesStep(prefix: seq<Registration>, r: Registration, table: map<string, Value>)
    requires r.id in table
    requires forall k :: k in Ids(prefix) ==> k in table
    requires multiset(Blocks(Ids(prefix), prefix, table)) == multiset(Writes(prefix, table))
    ensures multiset(Blocks(Ids(prefix + [r]), prefix + [r], table)) == multiset(Writes(prefix + [r], table))
  {
    var regs := prefix + [r];
    assert regs[..|regs| - 1] == prefix && regs[|regs| - 1] == r;
    assert Writes(regs, table) == Writes(prefix, table) + [SetResource(r.action.slot, table[r.id])];
    if r.id !in Ids(prefix) {
      BlocksNewId(prefix, r, table);
    } else {
      assert Ids(regs) == Ids(prefix);
      DistinctHasNoDuplicates(Ids(prefix));
      BlocksExtend(Ids(prefix), prefix, r, table);
    }
  }

  /** A registration under a new id appends that id's one-write block. */
  lemma BlocksNewId(prefix: seq<Registration>, r: Registration, table: map<string, Value>)
    requires r.id in table && r.id !in Ids(prefix)
    requires forall k :: k in Ids(prefix) ==> k in table
    ensures Ids(prefix + [r]) == Ids(prefix) + [r.id]
    ensures Blocks(Ids(prefix + [r]), prefix + [r], table)
            == Blocks(Ids(prefix), prefix, table) + [SetResource(r.action.slot, table[r.id])]
  {
    var regs := prefix + [r];
    var keys := Ids(prefix);
    assert regs[..|regs| - 1] == prefix && regs[|regs| - 1] == r;
    BlocksUnaffected(keys, prefix, r, table);
    BlocksAppend(keys, [r.id], regs, table);
    NoActionsForUnregistered(prefix, r.id);
    ActionsForSnoc(prefix, r, r.id);
    assert Blocks([r.id], regs, table) == [SetResource(r.action.slot, table[r.id])];
  }

  /** The property the register-then-replay design rests on: when every registered id
      has a resource, the replay runs every registered callback exactly once, with that
      id's resource. */
  lemma ReplayRunsEachRegistrationOnce(regs: seq<Registration>, order: seq<string>,
                                       fixups: map<string, SharedFixup>, table: map<string, Value>)
    requires Consistent(regs, order, fixups)
    requires forall k :: k in order ==> k in table
    ensures forall r :: r in regs ==> r.id in table
    ensures multiset(ReplayShared(order, fixups, table)) == multiset(Writes(regs, table))
  {
    assert forall r :: r in regs ==> r.id in IdSet(regs);
    ReplayIsBlocks(regs, order, fixups, table);
    BlocksAreWrites(regs, table);
  }

  // ----- external-reference fixups -----

  /** What invoking an id's callback list did: the writes made, and whether every
      callback ran. */
  datatype Invocation = Invocation(writes: seq<Write>, completed: bool)

  /** Invoking an id's callback list, in list order, with the resolved type and absolute
      filename. Each callback throws unless the type is the one it expects, and otherwise
      sets its reference's Filename; the first throw ends the invocation after the writes
      of the callbacks before it. */
  function RunExternal(fixups: seq<ExternalFixup>, ty: TypeId, filename: string): (r: Invocation)
    ensures r.completed <==> forall i :: 0 <= i < |fixups| ==> fixups[i].expected == ty
    ensures |r.writes| <= |fixups| && (r.completed ==> |r.writes| == |fixups|)
    ensures forall i :: 0 <= i < |r.writes| ==>
              fixups[i].expected == ty && r.writes[i] == SetFilename(fixups[i].slot, filename)
    ensures !r.completed ==> |r.writes| < |fixups| && fixups[|r.writes|].expected != ty
    decreases |fixups|
  {
    if fixups == [] then Invocation([], true)
    else if fixups[0].expected != ty then Invocation([], false)
    else
      var rest := RunExternal(fixups[1..], ty, filename);
      Invocation([SetFilename(fixups[0].slot, filename)] + rest.writes, rest.completed)
  }

  /** The writes of the callbacks before the first one that expects another type are
      what RunExternal yields; it completes when no callback does. */
  lemma RunExternalUpTo(fixups: seq<ExternalFixup>, ty: TypeId, filename: string, ws: seq<Write>)
    requires |ws| <= |fixups|
    requires forall i :: 0 <= i < |ws| ==> fixups[i].expected == ty && ws[i] == SetFilename(fixups[i].slot, filename)
    requires |ws| < |fixups| ==> fixups[|ws|].expected != ty
    ensures RunExternal(fixups, ty, filename) == Invocation(ws, |ws| == |fixups|)
  {
    var r := RunExternal(fixups, ty, filename);
    if |ws| == |fixups| {
      assert r.completed;
    } else {
      assert !r.completed;
      assert |r.writes| == |ws|;
    }
    assert r.writes == ws;
  }

  /** The callback lists after one more ReadExternalReference for `id`. */
  function AddExternal(refs: map<string, seq<ExternalFixup>>, id: string, f: ExternalFixup): (refs': map<string, seq<ExternalFixup>>)
    ensures id in refs' && refs'[id] == (if id in refs then refs[id] else []) + [f]
    ensures forall k :: k != id ==> (k in refs' <==> k in refs) && (k in refs ==> refs'[k] == refs[k])
  {
    refs[id := (if id in refs then refs[id] else []) + [f]]
  }
}
