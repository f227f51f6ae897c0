/**
 The table of JavaScript values that a Go program refers to (lib/wasm/wasm_exec.js):
 ids with reference counts, a reverse map and a pool of free ids.
 */
module Refs {

  // a JavaScript value; finite and infinite nonzero numbers are named by their bits
  datatype Js =
    | NaN | Zero | NegZero | Nonzero(bits: nat)
    | Undefined | Null | Bool(b: bool)
    | Object(id: nat) | Str(s: string) | Symbol(id: nat) | Function(id: nat)

  const GLOBAL_THIS: Js := Object(0)
  const THE_GO: Js := Object(1)

  // eight bytes of memory: a number that is not NaN, or a NaN with a type flag and an id
  datatype Slot = Float(x: Js) | Boxed(flag: nat, id: nat)

  // a reference count; the seeded values have infinitely many references
  datatype Count = Fin(n: nat) | Infinite

  // the keys of a JavaScript Map do not tell -0 from 0
  function Canon(v: Js): Js { if v == NegZero then Zero else v }

  function TypeFlag(v: Js): nat {
    match v
    case Object(_) => 1
    case Str(_) => 2
    case Symbol(_) => 3
    case Function(_) => 4
    case _ => 0
  }

  const SEEDS: seq<Js> := [NaN, Zero, Null, Bool(true), Bool(false), GLOBAL_THIS, THE_GO]

  const SEED_IDS: map<Js, nat> :=
    map[Zero := 1, Null := 2, Bool(true) := 3, Bool(false) := 4, GLOBAL_THIS := 5, THE_GO := 6]

  lemma SeedsOk()
    ensures |SEEDS| == 7
    ensures forall v :: v in SEED_IDS ==> !Direct(v) && v != NegZero && 1 <= SEED_IDS[v] < 7 && SEEDS[SEED_IDS[v]] == v
    ensures forall i :: 1 <= i < 7 ==> SEEDS[i] in SEED_IDS && SEED_IDS[SEEDS[i]] == i
  {
  }

  // values that storeValue writes without an id
  predicate Direct(v: Js) { v == NaN || v.Nonzero? || v == Undefined }

  // ----- the tables, as values

  predicate Referenced(counts: seq<Count>, id: nat) { 7 <= id < |counts| && counts[id] != Fin(0) }

  // the seeded ids are there for good, the others are counted
  ghost predicate CountsOk(values: seq<Js>, counts: seq<Count>) {
    && |counts| == |values| >= 7
    && (forall i :: 0 <= i < 7 ==> counts[i] == Infinite && values[i] == SEEDS[i])
    && (forall i :: 7 <= i < |counts| ==> counts[i].Fin?)
  }

  // how many references there are to an id that is not seeded
  function RefCount(counts: seq<Count>, id: nat): nat {
    if 7 <= id < |counts| && counts[id].Fin? then counts[id].n else 0
  }

  // the pool lists the ids without references, each once
  ghost predicate PoolOk(counts: seq<Count>, pool: seq<nat>) {
    && (forall k :: 0 <= k < |pool| ==> 7 <= pool[k] < |counts| && counts[pool[k]] == Fin(0))
    && (forall k, j :: 0 <= k < j < |pool| ==> pool[k] != pool[j])
    && (forall i :: 7 <= i < |counts| && counts[i] == Fin(0) ==> i in pool)
  }

  // ids inverts values on the seeded and referenced ids
  ghost predicate IdsOk(values: seq<Js>, counts: seq<Count>, ids: map<Js, nat>) {
    && |counts| == |values|
    && (forall v :: v in ids ==>
          && !Direct(v) && v != NegZero && 1 <= ids[v] < |values| && values[ids[v]] == v
          && (ids[v] < 7 || Referenced(counts, ids[v])))
    && (forall i: nat :: i < |values| && (1 <= i < 7 || Referenced(counts, i)) ==>
        values[i] in ids && ids[values[i]] == i)
  }

  // a pooled id is taken into use
  lemma TakePooled(counts: seq<Count>, pool: seq<nat>)
    requires PoolOk(counts, pool) && pool != []
    ensures var id := pool[|pool| - 1];
            7 <= id < |counts| && counts[id] == Fin(0) && PoolOk(counts[id := Fin(1)], pool[..|pool| - 1])
  {
    var id, rest := pool[|pool| - 1], pool[..|pool| - 1];
    assert pool == rest + [id];
  }

  lemma TakeNew(counts: seq<Count>, pool: seq<nat>)
    requires PoolOk(counts, pool) && pool == [] && |counts| >= 7
    ensures PoolOk(counts + [Fin(1)], [])
  {
    forall i | 7 <= i < |counts| ensures counts[i] != Fin(0) { assert i !in pool; }
  }

  lemma GivePooled(counts: seq<Count>, pool: seq<nat>, id: nat)
    requires PoolOk(counts, pool) && 7 <= id < |counts| && counts[id] == Fin(1)
    ensures PoolOk(counts[id := Fin(0)], pool + [id])
  {
    var c, p := counts[id := Fin(0)], pool + [id];
    forall i | 7 <= i < |c| && c[i] == Fin(0) ensures i in p {
      if i != id { assert i in pool; } else { assert p[|pool|] == id; }
    }
  }

  lemma KeepPooled(counts: seq<Count>, pool: seq<nat>, id: nat, c: Count)
    requires PoolOk(counts, pool) && id < |counts| && counts[id] != Fin(0) && c != Fin(0)
    ensures PoolOk(counts[id := c], pool)
  {
  }

  // a value gets an id that nothing refers to
  lemma AddId(values: seq<Js>, counts: seq<Count>, ids: map<Js, nat>, values': seq<Js>, counts': seq<Count>, v: Js,
              id: nat)
    requires IdsOk(values, counts, ids) && v !in ids && !Direct(v) && v != NegZero
    requires 7 <= id < |values'| == |counts'| && |values| <= |values'|
    requires (id < |values| ==> counts[id] == Fin(0)) && |values'| <= |values| + 1
    requires |values'| > |values| ==> id == |values|
    requires values'[id] == v && counts'[id] == Fin(1)
    requires forall i :: 0 <= i < |values| && i != id ==> values'[i] == values[i] && counts'[i] == counts[i]
    ensures IdsOk(values', counts', ids[v := id])
  {
    var ids' := ids[v := id];
    forall u | u in ids'
      ensures !Direct(u) && u != NegZero && 1 <= ids'[u] < |values'|
      ensures values'[ids'[u]] == u && (ids'[u] < 7 || Referenced(counts', ids'[u]))
    {
      if u != v { assert u in ids; }
    }
    forall i: nat | i < |values'| && (1 <= i < 7 || Referenced(counts', i))
      ensures values'[i] in ids' && ids'[values'[i]] == i
    {
      if i != id { assert 1 <= i < 7 || Referenced(counts, i); }
    }
  }

  lemma DropId(values: seq<Js>, counts: seq<Count>, ids: map<Js, nat>, id: nat)
    requires IdsOk(values, counts, ids) && 7 <= id < |values| && counts[id] == Fin(1)
    ensures IdsOk(values[id := Null], counts[id := Fin(0)], ids - {values[id]})
  {
    var v, values', counts', ids' := values[id], values[id := Null], counts[id := Fin(0)], ids - {values[id]};
    assert Referenced(counts, id);
    forall u | u in ids'
      ensures !Direct(u) && u != NegZero && 1 <= ids'[u] < |values'|
      ensures values'[ids'[u]] == u && (ids'[u] < 7 || Referenced(counts', ids'[u]))
    {
      assert u in ids && ids[u] != id;
    }
    forall i: nat | i < |values'| && (1 <= i < 7 || Referenced(counts', i))
      ensures values'[i] in ids' && ids'[values'[i]] == i
    {
      assert i != id && (1 <= i < 7 || Referenced(counts, i));
      assert values[i] != v;
    }
  }

  lemma KeepIds(values: seq<Js>, counts: seq<Count>, ids: map<Js, nat>, id: nat, c: Count)
    requires IdsOk(values, counts, ids) && id < |counts| && counts[id] != Fin(0) && c != Fin(0)
    ensures IdsOk(values, counts[id := c], ids)
  {
    forall i: nat | i < |values| ensures Referenced(counts[id := c], i) <==> Referenced(counts, i) {}
  }

  class Table {
    var values: seq<Js>
    var counts: seq<Count>
    var ids: map<Js, nat>
    var pool: seq<nat>

    ghost predicate Valid()
      reads this
    {
      CountsOk(values, counts) && PoolOk(counts, pool) && IdsOk(values, counts, ids)
    }

    constructor ()
      ensures Valid() && forall id :: RefCount(counts, id) == 0
    {
      values, counts, ids, pool := SEEDS, seq(7, _ => Infinite), SEED_IDS, [];
      SeedsOk();
    }

    function LoadValue(s: Slot): Js
      reads this`values
    {
      Load(values, s)
    }

    // the first reference to a value without an id: a pooled id or a new one
    method Introduce(v: Js) returns (id: nat)
      requires Valid() && v !in ids && !Direct(v) && v != NegZero
      modifies this
      ensures Valid() && 7 <= id < |values| && values[id] == v && RefCount(old(counts), id) == 0
      ensures forall i: nat :: RefCount(counts, i) == RefCount(old(counts), i) + if i == id then 1 else 0
      ensures forall i :: 0 <= i < |old(values)| && i != id ==> i < |values| && values[i] == old(values)[i]
    {
      ghost var values0, counts0, ids0 := values, counts, ids;
      if |pool| > 0 {
        TakePooled(counts, pool);
        id := pool[|pool| - 1];
        pool := pool[..|pool| - 1];
        values, counts := values[id := v], counts[id := Fin(1)];
      } else {
        TakeNew(counts, pool);
        id := |values|;
        values, counts := values + [v], counts + [Fin(1)];
      }
      hide PoolOk;
      AddId(values0, counts0, ids0, values, counts, v, id);
      hide IdsOk;
      ids := ids[v := id];
    }

    // one more reference to an id in use
    method Retain(id: nat)
      requires Valid() && id < |counts| && counts[id] != Fin(0)
      modifies this`counts
      ensures Valid()
      ensures forall i: nat :: RefCount(counts, i) == RefCount(old(counts), i) + if i == id >= 7 then 1 else 0
    {
      if counts[id].Fin? {
        KeepPooled(counts, pool, id, Fin(counts[id].n + 1));
        KeepIds(values, counts, ids, id, Fin(counts[id].n + 1));
        hide PoolOk, IdsOk;
        counts := counts[id := Fin(counts[id].n + 1)];
      }
    }

    /** What is stored can be loaded again, -0 as 0; a value with an id then has one
        reference more. No referenced id changes its value. */
    method StoreValue(v: Js) returns (s: Slot)
      requires Valid()
      modifies this
      ensures Valid() && LoadValue(s) == Canon(v)
      ensures Direct(v) ==> counts == old(counts) && values == old(values) && (s.Boxed? ==> s.id == 0)
      ensures !Direct(v) ==> s.Boxed? && s.flag == TypeFlag(v)
      ensures s.Boxed? ==> s.id < |values|
      ensures forall i: nat ::
                RefCount(counts, i) == RefCount(old(counts), i) + if s.Boxed? && i == s.id >= 7 then 1 else 0
      ensures forall i: nat :: i < |old(values)| && (i < 7 || RefCount(old(counts), i) > 0) ==>
                i < |values| && values[i] == old(values)[i]
    {
      if v.Nonzero? { return Float(v); }
      if v == NaN { return Boxed(0, 0); }
      if v == Undefined { return Float(Zero); }
      var key := Canon(v);
      var id;
      if key in ids {
        id := ids[key];
        Retain(id);
      } else {
        hide PoolOk, IdsOk;
        id := Introduce(key);
      }
      s := Boxed(TypeFlag(v), id);
    }

    // the last reference to id is gone
    method Free(id: nat)
      requires Valid() && 7 <= id < |counts| && counts[id] == Fin(1)
      modifies this
      ensures Valid() && values == old(values)[id := Null]
      ensures counts == old(counts)[id := Fin(0)] && pool == old(pool) + [id]
    {
      GivePooled(counts, pool, id);
      DropId(values, counts, ids, id);
      hide PoolOk, IdsOk;
      counts := counts[id := Fin(0)];
      var v := values[id];
      values := values[id := Null];
      ids := ids - {v};
      pool := pool + [id];
    }

    /** One reference less; the last one frees the id, never a seeded one. */
    method FinalizeRef(id: nat)
      requires Valid() && (id < 7 || RefCount(counts, id) > 0)
      modifies this
      ensures Valid() && |values| == |old(values)|
      ensures forall i: nat :: RefCount(counts, i) == RefCount(old(counts), i) - if i == id >= 7 then 1 else 0
      ensures pool == old(pool) + if id >= 7 && RefCount(counts, id) == 0 then [id] else []
      ensures forall i: nat :: i < |values| && (i < 7 || RefCount(counts, i) > 0) ==> values[i] == old(values)[i]
    {
      if counts[id].Infinite? { return; }
      var n := counts[id].n - 1;
      if n == 0 {
        Free(id);
      } else {
        KeepPooled(counts, pool, id, Fin(n));
        KeepIds(values, counts, ids, id, Fin(n));
        counts := counts[id := Fin(n)];
      }
      hide PoolOk, IdsOk;
    }
  }

  // ----- any run in which Go finalizes each reference at most once

  datatype Op = Store(v: Js) | Finalize(k: nat)  // the k-th of the references in hand

  // the references in hand, each with the value it was made for
  datatype Ref = Ref(slot: Slot, v: Js)

  // how many of them refer to an id
  function InHand(refs: seq<Ref>, id: nat): nat {
    if refs == [] then 0 else InHand(refs[1..], id) + if refs[0].slot.Boxed? && refs[0].slot.id == id then 1 else 0
  }

  lemma {:induction false} CountSplit(a: seq<Ref>, b: seq<Ref>, id: nat)
    ensures InHand(a + b, id) == InHand(a, id) + InHand(b, id)
  {
    if a == [] {
      assert a + b == b;
    } else {
      CountSplit(a[1..], b, id);
      assert (a + b)[1..] == a[1..] + b;
    }
  }

  lemma CountWithout(refs: seq<Ref>, k: nat, id: nat)
    requires k < |refs|
    ensures InHand(refs, id) ==
            InHand(refs[..k] + refs[k + 1..], id) + if refs[k].slot.Boxed? && refs[k].slot.id == id then 1 else 0
  {
    CountSplit(refs[..k], refs[k..], id);
    CountSplit(refs[..k], refs[k + 1..], id);
    assert refs == refs[..k] + refs[k..] && refs[k..][1..] == refs[k + 1..];
  }

  lemma CountWith(refs: seq<Ref>, ref: Ref, id: nat)
    ensures InHand(refs + [ref], id) == InHand(refs, id) + if ref.slot.Boxed? && ref.slot.id == id then 1 else 0
  {
    CountSplit(refs, [ref], id);
    assert [ref][1..] == [];
  }

  function Load(values: seq<Js>, s: Slot): Js {
    match s
    case Float(x) => if x == Zero then Undefined else x
    case Boxed(_, id) => if id < |values| then values[id] else Undefined
  }

  ghost predicate AllLoad(values: seq<Js>, refs: seq<Ref>) {
    forall k :: 0 <= k < |refs| ==>
      Load(values, refs[k].slot) == Canon(refs[k].v)
      && (refs[k].slot.Boxed? ==> refs[k].slot.id < |values|)
  }

  // each id has exactly the references in hand
  ghost predicate Tallied(counts: seq<Count>, refs: seq<Ref>) {
    forall id: nat :: id >= 7 ==> RefCount(counts, id) == InHand(refs, id)
  }

  // referenced ids keep their values, so references keep loading
  lemma StillLoad(values: seq<Js>, values': seq<Js>, refs: seq<Ref>, counts: seq<Count>)
    requires AllLoad(values, refs) && Tallied(counts, refs)
    requires forall i: nat :: i < |values| && (i < 7 || RefCount(counts, i) > 0) ==>
               i < |values'| && values'[i] == values[i]
    ensures AllLoad(values', refs)
  {
    forall k | 0 <= k < |refs|
      ensures Load(values', refs[k].slot) == Canon(refs[k].v) && (refs[k].slot.Boxed? ==> refs[k].slot.id < |values'|)
    {
      if refs[k].slot.Boxed? { CountWithout(refs, k, refs[k].slot.id); }
    }
  }

  /** Throughout any run, every reference in hand loads the value it was made for,
      and every id that is not seeded has as many references as are in hand. */
  method Session(ops: seq<Op>) returns (refs: seq<Ref>, t: Table)
    ensures t.Valid() && Tallied(t.counts, refs) && AllLoad(t.values, refs)
  {
    t := new Table();
    refs := [];
    for i := 0 to |ops|
      invariant t.Valid() && fresh(t) && Tallied(t.counts, refs) && AllLoad(t.values, refs)
    {
      match ops[i] {
        case Store(v) => refs := StoreOne(t, refs, v);
        case Finalize(k) => if k < |refs| { refs := FinalizeOne(t, refs, k); }
      }
    }
  }

  method StoreOne(t: Table, refs: seq<Ref>, v: Js) returns (refs': seq<Ref>)
    requires t.Valid() && Tallied(t.counts, refs) && AllLoad(t.values, refs)
    modifies t
    ensures t.Valid() && Tallied(t.counts, refs') && AllLoad(t.values, refs')
  {
    hide CountsOk, PoolOk, IdsOk, InHand, RefCount;
    var s := t.StoreValue(v);
    StillLoad(old(t.values), t.values, refs, old(t.counts));
    refs' := refs + [Ref(s, v)];
    forall id: nat | id >= 7 ensures RefCount(t.counts, id) == InHand(refs', id) { CountWith(refs, Ref(s, v), id); }
  }

  method FinalizeOne(t: Table, refs: seq<Ref>, k: nat) returns (refs': seq<Ref>)
    requires t.Valid() && Tallied(t.counts, refs) && AllLoad(t.values, refs) && k < |refs|
    modifies t
    ensures t.Valid() && Tallied(t.counts, refs') && AllLoad(t.values, refs')
  {
    hide CountsOk, PoolOk, IdsOk, InHand, RefCount;
    var s := refs[k].slot;
    refs' := refs[..k] + refs[k + 1..];
    assert AllLoad(t.values, refs');
    if s.Boxed? {
      CountWithout(refs, k, s.id);
      t.FinalizeRef(s.id);
    }
    forall id: nat | id >= 7 ensures RefCount(t.counts, id) == InHand(refs', id) { CountWithout(refs, k, id); }
    StillLoad(old(t.values), t.values, refs', t.counts);
  }
}
