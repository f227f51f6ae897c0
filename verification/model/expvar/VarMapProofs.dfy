/**
 The key list of an expvar.Map stays strictly sorted and inside the map, over every
 run; and exactly one kind of step can put an entry into the map that the key list
 will never show.
 */
module VarMapProofs {
  import opened Common
  import opened VarMap

  // ----- the key list

  lemma {:induction false} PositionSplits(keys: seq<Key>, k: Key)
    requires StrictlySorted(keys)
    ensures var i := Position(keys, k);
            (forall j :: 0 <= j < i ==> keys[j] < k) && (forall j :: i <= j < |keys| ==> keys[j] >= k)
    ensures Found(keys, k) <==> k in keys
  {
    if keys != [] && keys[0] < k {
      PositionSplits(keys[1..], k);
      var i := Position(keys, k);
      assert forall j :: 1 <= j < |keys| ==> keys[j] == keys[1..][j - 1];
    }
  }

  lemma SortedSplice(a: seq<Key>, k: Key, c: seq<Key>)
    requires StrictlySorted(a + c) && (forall j :: 0 <= j < |a| ==> a[j] < k) && (forall j :: 0 <= j < |c| ==> k < c[j])
    ensures StrictlySorted(a + [k] + c)
  {
    var r := a + [k] + c;
    forall i, j | 0 <= i < j < |r| ensures r[i] < r[j] {
      var i', j' := if i < |a| then i else i - 1, if j < |a| then j else j - 1;
      if i != |a| && j != |a| { assert r[i] == (a + c)[i'] && r[j] == (a + c)[j']; }
    }
  }

  // a key put where the smaller keys end
  lemma InsertedKeeps(keys: seq<Key>, k: Key)
    requires StrictlySorted(keys) && k !in keys
    ensures var i := Position(keys, k); StrictlySorted(keys[..i] + [k] + keys[i..])
    ensures var i := Position(keys, k); forall x :: x in keys[..i] + [k] + keys[i..] <==> x == k || x in keys
  {
    PositionSplits(keys, k);
    hide Position, StrictlySorted;
    var i := Position(keys, k);
    var a, c := keys[..i], keys[i..];
    assert keys == a + c == a + [] + c;
    SortedSplice(a, k, c);
    forall x ensures x in a + [k] + c <==> x == k || x in keys {
      SplicedMember(a, [k], c, x);
      SplicedMember(a, [], c, x);
    }
  }

  lemma SplicedMember(a: seq<Key>, b: seq<Key>, c: seq<Key>, x: Key)
    ensures x in a + b + c <==> x in a || x in b || x in c
  {
  }

  lemma SortedWithout(a: seq<Key>, k: Key, c: seq<Key>)
    requires StrictlySorted(a + [k] + c)
    ensures StrictlySorted(a + [] + c)
  {
    var r, q := a + [k] + c, a + [] + c;
    forall i, j | 0 <= i < j < |q| ensures q[i] < q[j] {
      var i', j' := if i < |a| then i else i + 1, if j < |a| then j else j + 1;
      assert r[i'] == q[i] && r[j'] == q[j];
    }
  }

  lemma RemovedKeeps(keys: seq<Key>, k: Key)
    requires StrictlySorted(keys) && k in keys
    ensures StrictlySorted(Removed(keys, k)) && (forall x :: x in Removed(keys, k) <==> x != k && x in keys)
  {
    PositionSplits(keys, k);
    hide Position;
    var i := Position(keys, k);
    var a, c := keys[..i], keys[i + 1..];
    assert keys == a + [k] + c && Removed(keys, k) == a + [] + c;
    assert k !in a && k !in c;
    SortedWithout(a, k, c);
    hide StrictlySorted, Removed;
    forall x ensures x in Removed(keys, k) <==> x != k && x in keys {
      SplicedMember(a, [k], c, x);
      SplicedMember(a, [], c, x);
    }
  }

  lemma {:induction false} SortedIsItself(keys: seq<Key>)
    requires StrictlySorted(keys)
    ensures Sorted(keys) == keys
  {
    if keys != [] {
      var s, k := keys[..|keys| - 1], keys[|keys| - 1];
      SortedIsItself(s);
      PositionSplits(s, k);
      assert Position(s, k) == |s|;
      assert s[..|s|] + [k] + s[|s|..] == keys;
    }
  }

  // Publish: sorting the list with a new key at its end inserts the key
  lemma AppendedThenSorted(keys: seq<Key>, k: Key)
    requires StrictlySorted(keys) && k !in keys
    ensures StrictlySorted(Sorted(keys + [k])) && (forall x :: x in Sorted(keys + [k]) <==> x == k || x in keys)
  {
    assert (keys + [k])[..|keys|] == keys;
    SortedIsItself(keys);
    InsertedKeeps(keys, k);
  }

  // ----- the invariant

  // between LoadOrStore and the insertion into keys
  predicate Pending(pc: Pc, k: Key) {
    (pc.WantKey? || pc.AddKey? || pc.AppendKey?) && pc.k == k
  }

  predicate HoldsLock(pc: Pc) {
    pc.AddKey? || pc.AppendKey? || pc.SortKeys? || pc.DropKey? || pc.DropEntry? || pc.Unlock?
  }

  // the list without a key that Publish has appended and not yet sorted in
  predicate Unsorted(s: State) {
    s.writer.Some? && s.writer.value < |s.threads| && s.threads[s.writer.value].SortKeys?
  }

  function Settled(s: State): seq<Key> {
    if Unsorted(s) && s.keys != [] then s.keys[..|s.keys| - 1] else s.keys
  }

  predicate ThreadOk(s: State, t: nat)
    requires t < |s.threads|
  {
    var pc := s.threads[t];
    && (HoldsLock(pc) <==> s.writer == Some(t))
    && (pc.Visit? <==> t in s.readers)
    && (pc.WantKey? || pc.AddKey? || pc.AppendKey? ==> pc.k in s.m && pc.k !in s.keys)
    && (pc.SortKeys? ==> s.keys != [] && s.keys[|s.keys| - 1] == pc.k && pc.k in s.m && pc.k !in s.keys[..|s.keys| - 1])
    && (pc.DropEntry? ==> pc.k in s.m && pc.k !in s.keys)
  }

  // no two threads insert the same key, and none inserts one that is being deleted
  predicate Apart(s: State, t: nat, u: nat)
    requires t < |s.threads| && u < |s.threads|
  {
    var a, b := s.threads[t], s.threads[u];
    && (a.WantKey? || a.AddKey? || a.AppendKey? ==> !Pending(b, a.k))
    && (a.DropEntry? || a.SortKeys? ==> !Pending(b, a.k))
  }

  ghost predicate Inv(s: State) {
    && StrictlySorted(Settled(s))
    && (forall k :: k in s.keys ==> k in s.m)
    && (s.writer.Some? ==> s.writer.value < |s.threads| && s.readers == {})
    && (forall t :: t in s.readers ==> t < |s.threads|)
    && (forall t {:trigger ThreadOk(s, t)} | 0 <= t < |s.threads| :: ThreadOk(s, t))
    && (forall t, u {:trigger Apart(s, t, u)} | 0 <= t < |s.threads| && 0 <= u < |s.threads| && t != u ::
        Apart(s, t, u))
  }

  // ----- one step of a thread

  // how a step changes the key list: only the lock holder's own key comes or goes
  ghost predicate KeysMoved(s: State, s': State, pc: Pc) {
    && StrictlySorted(Settled(s'))
    && (forall x :: x in s'.keys <==>
        (x in s.keys && !(pc.DropKey? && x == pc.k)) || ((pc.AddKey? || pc.AppendKey?) && x == pc.k))
  }

  predicate ChangesKeys(pc: Pc) { pc.AddKey? || pc.DropKey? || pc.AppendKey? || pc.SortKeys? }

  lemma KeysStay(s: State, t: nat, made: Value)
    requires Enabled(s, Tick(t, made)) && !ChangesKeys(s.threads[t]) && ThreadOk(s, t)
    requires s.writer.Some? ==> s.writer.value < |s.threads| && ThreadOk(s, s.writer.value)
    ensures Apply(s, Tick(t, made)).keys == s.keys && Settled(Apply(s, Tick(t, made))) == Settled(s)
  {
  }

  lemma AddKeyStep(s: State, t: nat, made: Value)
    requires Enabled(s, Tick(t, made)) && s.threads[t].AddKey? && ThreadOk(s, t) && StrictlySorted(s.keys)
    ensures KeysMoved(s, Apply(s, Tick(t, made)), s.threads[t])
  {
    InsertedKeeps(s.keys, s.threads[t].k);
    PositionSplits(s.keys, s.threads[t].k);
    hide Position, StrictlySorted;
  }

  lemma DropKeyStep(s: State, t: nat, made: Value)
    requires Enabled(s, Tick(t, made)) && s.threads[t].DropKey? && ThreadOk(s, t) && StrictlySorted(s.keys)
    ensures KeysMoved(s, Apply(s, Tick(t, made)), s.threads[t])
  {
    var k := s.threads[t].k;
    PositionSplits(s.keys, k);
    if Found(s.keys, k) { RemovedKeeps(s.keys, k); }
    hide Position, StrictlySorted, Removed;
  }

  lemma AppendStep(s: State, t: nat, made: Value)
    requires Enabled(s, Tick(t, made)) && s.threads[t].AppendKey? && ThreadOk(s, t) && StrictlySorted(Settled(s))
    ensures KeysMoved(s, Apply(s, Tick(t, made)), s.threads[t])
  {
    hide StrictlySorted, Sorted, Inserted, Removed, Found;
    assert Apply(s, Tick(t, made)).keys[..|s.keys|] == s.keys;
  }

  lemma SortStep(s: State, t: nat, made: Value)
    requires Enabled(s, Tick(t, made)) && s.threads[t].SortKeys? && ThreadOk(s, t) && StrictlySorted(Settled(s))
    ensures KeysMoved(s, Apply(s, Tick(t, made)), s.threads[t])
  {
    hide StrictlySorted, Sorted, Inserted, Removed, Found;
    var keys, k := Settled(s), s.threads[t].k;
    assert s.keys == keys + [k];
    AppendedThenSorted(keys, k);
  }

  lemma KeysStep(s: State, t: nat, made: Value)
    requires Inv(s) && Enabled(s, Tick(t, made))
    ensures KeysMoved(s, Apply(s, Tick(t, made)), s.threads[t])
  {
    var pc := s.threads[t];
    assert ThreadOk(s, t);
    assert pc.AddKey? || pc.DropKey? ==> Settled(s) == s.keys;
    if s.writer.Some? { assert ThreadOk(s, s.writer.value); }
    hide StrictlySorted, Apply, Settled, ThreadOk;
    if pc.AddKey? { AddKeyStep(s, t, made); }
    else if pc.DropKey? { DropKeyStep(s, t, made); }
    else if pc.AppendKey? { AppendStep(s, t, made); }
    else if pc.SortKeys? { SortStep(s, t, made); }
    else { KeysStay(s, t, made); }
  }

  lemma FoundIsIn(s: State, t: nat, k: Key)
    requires Inv(s) && t < |s.threads| && s.threads[t].DropKey?
    ensures Found(s.keys, k) <==> k in s.keys
  {
    assert ThreadOk(s, t);
    PositionSplits(s.keys, k);
  }

  lemma ActorStep(s: State, t: nat, made: Value)
    requires Enabled(s, Tick(t, made)) && ThreadOk(s, t) && KeysMoved(s, Apply(s, Tick(t, made)), s.threads[t])
    requires forall k :: k in s.keys ==> k in s.m
    requires s.threads[t].DropKey? ==> (Found(s.keys, s.threads[t].k) <==> s.threads[t].k in s.keys)
    ensures ThreadOk(Apply(s, Tick(t, made)), t)
  {
    hide StrictlySorted, Sorted, Inserted, Removed, Found, Settled;
    if s.threads[t].AppendKey? { assert Apply(s, Tick(t, made)).keys[..|s.keys|] == s.keys; }
  }

  lemma OtherStep(s: State, t: nat, made: Value, u: nat)
    requires Enabled(s, Tick(t, made)) && ThreadOk(s, t) && KeysMoved(s, Apply(s, Tick(t, made)), s.threads[t])
    requires u < |s.threads| && u != t && ThreadOk(s, u) && Apart(s, t, u) && Apart(s, u, t)
    ensures ThreadOk(Apply(s, Tick(t, made)), u)
  {
    hide StrictlySorted, Sorted, Inserted, Removed, Found, Settled;
  }

  lemma ThreadStep(s: State, t: nat, made: Value, u: nat)
    requires Inv(s) && Enabled(s, Tick(t, made)) && u < |s.threads|
    requires KeysMoved(s, Apply(s, Tick(t, made)), s.threads[t])
    ensures ThreadOk(Apply(s, Tick(t, made)), u)
  {
    assert ThreadOk(s, t) && ThreadOk(s, u);
    if s.threads[t].DropKey? { FoundIsIn(s, t, s.threads[t].k); }
    if u != t { assert Apart(s, t, u) && Apart(s, u, t); }
    hide ThreadOk, Apart, Apply, KeysMoved, Found, Pending;
    if u == t { ActorStep(s, t, made); } else { OtherStep(s, t, made, u); }
  }

  lemma ApartStep(s: State, t: nat, made: Value, u: nat, w: nat)
    requires Inv(s) && Enabled(s, Tick(t, made)) && u < |s.threads| && w < |s.threads| && u != w
    ensures Apart(Apply(s, Tick(t, made)), u, w)
  {
    hide StrictlySorted, Sorted, Inserted, Removed, Found, Settled;
    if s.threads[t].DropKey? { FoundIsIn(s, t, s.threads[t].k); }
    assert Apart(s, u, w) && Apart(s, w, u) && ThreadOk(s, u) && ThreadOk(s, w) && ThreadOk(s, t);
  }

  lemma TickKeepsInv(s: State, t: nat, made: Value)
    requires Inv(s) && Enabled(s, Tick(t, made))
    ensures Inv(Apply(s, Tick(t, made)))
  {
    var s' := Apply(s, Tick(t, made));
    KeysStep(s, t, made);
    assert ThreadOk(s, t);
    forall u: nat | u < |s'.threads| ensures ThreadOk(s', u) { ThreadStep(s, t, made, u); }
    forall u: nat, w: nat | u < |s'.threads| && w < |s'.threads| && u != w
      ensures Apart(s', u, w)
    {
      ApartStep(s, t, made, u, w);
    }
  }

  lemma StartKeepsInv(s: State, c: Call)
    requires Inv(s)
    ensures Inv(Apply(s, Start(c)))
  {
    var s' := Apply(s, Start(c));
    assert Settled(s') == Settled(s);
    forall u: nat | u < |s'.threads| ensures ThreadOk(s', u) {
      if u < |s.threads| { assert ThreadOk(s, u); }
    }
    forall u: nat, w: nat | u < |s'.threads| && w < |s'.threads| && u != w ensures Apart(s', u, w) {
      if u < |s.threads| && w < |s.threads| { assert Apart(s, u, w); }
    }
  }

  lemma StepKeepsInv(s: State, step: Step)
    requires Inv(s) && Enabled(s, step)
    ensures Inv(Apply(s, step))
  {
    hide Inv, Apply, Enabled;
    match step
    case Start(c) => StartKeepsInv(s, c);
    case Tick(t, made) => TickKeepsInv(s, t, made);
  }

  lemma {:induction false} RunInv(run: seq<State>, steps: seq<Step>, i: nat)
    requires IsRun(run, steps) && i < |run|
    ensures Inv(run[i])
  {
    if i > 0 {
      RunInv(run, steps, i - 1);
      StepKeepsInv(run[i - 1], steps[i - 1]);
    }
  }

  // ----- what callers see

  /** Except inside Publish, between its append and its sort, keys is strictly
      sorted, hence free of duplicates; and every key is in m. */
  lemma KeysSorted(run: seq<State>, steps: seq<Step>, i: nat)
    requires IsRun(run, steps) && i < |run|
    ensures (forall t :: 0 <= t < |run[i].threads| ==> !run[i].threads[t].SortKeys?) ==> StrictlySorted(run[i].keys)
    ensures forall k :: k in run[i].keys ==> k in run[i].m
  {
    RunInv(run, steps, i);
  }

  /** While Do runs, the key list is sorted, does not change, and every key it has
      yet to visit stays in m: f never sees a missing entry. */
  lemma DoSeesEntries(run: seq<State>, steps: seq<Step>, i: nat, t: nat)
    requires IsRun(run, steps) && i < |run| && t < |run[i].threads| && run[i].threads[t].Visit?
    ensures StrictlySorted(run[i].keys) && forall k :: k in run[i].keys ==> k in run[i].m
    ensures i < |steps| ==> run[i + 1].keys == run[i].keys && forall k :: k in run[i].m ==> k in run[i + 1].m
  {
    RunInv(run, steps, i);
    assert ThreadOk(run[i], t);
    if i < |steps| && steps[i].Tick? { assert ThreadOk(run[i], steps[i].t); }
  }

  // ----- entries that the key list never shows

  // a thread that is inserting k or deleting it
  predicate WorksOn(pc: Pc, k: Key) { Pending(pc, k) || (pc.DropEntry? && pc.k == k) }

  ghost predicate Orphan(s: State, k: Key) {
    && k in s.m && k !in s.keys
    && forall t :: 0 <= t < |s.threads| ==> !WorksOn(s.threads[t], k)
  }

  // Set, having found the key present, stores after a Delete has removed it
  predicate StoresAbsent(s: State, step: Step, k: Key) {
    step.Tick? && step.t < |s.threads| && s.threads[step.t].Store? && s.threads[step.t].k == k && k !in s.m
  }

  // how one tick changes what m, keys and the acting thread say of k
  lemma EntryStep(s: State, t: nat, made: Value, k: Key)
    requires Inv(s) && Enabled(s, Tick(t, made))
    ensures var s', pc := Apply(s, Tick(t, made)), s.threads[t];
            && (k in s'.m <==>
                (k in s.m && pc != DropEntry(k)) || (k !in s.m && (pc.TryStore? || pc.Store?) && pc.k == k))
            && (k in s'.keys <==> (k in s.keys && pc != DropKey(k)) || ((pc.AddKey? || pc.AppendKey?) && pc.k == k))
            && |s'.threads| == |s.threads|
            && (WorksOn(s'.threads[t], k) <==>
                  || (pc.TryStore? && pc.k == k && k !in s.m)
                  || (pc.WantKey? && pc.k == k)
                  || (pc == DropKey(k) && k in s.keys))
  {
    KeysStep(s, t, made);
    if s.threads[t].DropKey? { FoundIsIn(s, t, s.threads[t].k); }
    MapStep(s, t, made, k);
    WorkStep(s, t, made, k);
    hide Inv, Apply, WorksOn, Settled, StrictlySorted;
  }

  lemma MapStep(s: State, t: nat, made: Value, k: Key)
    requires Enabled(s, Tick(t, made))
    ensures var s', pc := Apply(s, Tick(t, made)), s.threads[t];
            k in s'.m <==> (k in s.m && pc != DropEntry(k)) || (k !in s.m && (pc.TryStore? || pc.Store?) && pc.k == k)
  {
    hide Inserted, Removed, Sorted, Found;
  }

  lemma WorkStep(s: State, t: nat, made: Value, k: Key)
    requires Enabled(s, Tick(t, made))
    requires (s.threads[t].DropKey? ==> (Found(s.keys, s.threads[t].k) <==> s.threads[t].k in s.keys))
    ensures var s', pc := Apply(s, Tick(t, made)), s.threads[t];
            && |s'.threads| == |s.threads|
            && (WorksOn(s'.threads[t], k) <==>
                  || (pc.TryStore? && pc.k == k && k !in s.m)
                  || (pc.WantKey? && pc.k == k)
                  || (pc == DropKey(k) && k in s.keys))
  {
    hide Inserted, Removed, Sorted, Found;
  }

  // a thread that works on k says where k is
  lemma WorkerKnows(s: State, t: nat, k: Key)
    requires Inv(s) && t < |s.threads| && WorksOn(s.threads[t], k)
    ensures k in s.m && k !in s.keys
  {
    assert ThreadOk(s, t);
  }

  lemma OrphanStays(s: State, step: Step, k: Key)
    requires Inv(s) && Enabled(s, step) && Orphan(s, k)
    ensures Orphan(Apply(s, step), k)
  {
    if step.Tick? {
      EntryStep(s, step.t, step.made, k);
      assert !WorksOn(s.threads[step.t], k);
      Bystanders(s, step.t, step.made);
      hide Inv, Apply;
    }
  }

  lemma Bystanders(s: State, t: nat, made: Value)
    requires Enabled(s, Tick(t, made))
    ensures var s' := Apply(s, Tick(t, made));
            |s'.threads| == |s.threads| && forall u :: 0 <= u < |s.threads| && u != t ==> s'.threads[u] == s.threads[u]
  {
    hide Inserted, Removed, Sorted, Found;
  }

  lemma OrphanBorn(s: State, step: Step, k: Key)
    requires Inv(s) && Enabled(s, step) && !Orphan(s, k)
    ensures Orphan(Apply(s, step), k) <==> StoresAbsent(s, step, k)
  {
    var s' := Apply(s, step);
    if step.Start? {
      assert forall t :: 0 <= t < |s.threads| ==> s'.threads[t] == s.threads[t];
    } else {
      var t := step.t;
      EntryStep(s, t, step.made, k);
      Bystanders(s, t, step.made);
      forall u | 0 <= u < |s.threads| && WorksOn(s.threads[u], k)
        ensures k in s.m && k !in s.keys
      {
        WorkerKnows(s, u, k);
      }
      assert k in s.keys ==> k in s.m;
      hide Inv, Apply;
      if k in s.m && k !in s.keys {
        var w :| 0 <= w < |s.threads| && WorksOn(s.threads[w], k);
        assert w != t ==> WorksOn(s'.threads[w], k);
      } else if k !in s.m && StoresAbsent(s, step, k) {
        forall u | 0 <= u < |s.threads| ensures !WorksOn(s'.threads[u], k) {}
      }
    }
  }

  lemma OrphanStep(run: seq<State>, steps: seq<Step>, j: nat, k: Key)
    requires IsRun(run, steps) && j < |steps|
    ensures Orphan(run[j + 1], k) <==> Orphan(run[j], k) || StoresAbsent(run[j], steps[j], k)
  {
    RunInv(run, steps, j);
    hide Inv, Apply, Enabled, Orphan, StoresAbsent;
    if Orphan(run[j], k) { OrphanStays(run[j], steps[j], k); } else { OrphanBorn(run[j], steps[j], k); }
  }

  /** An entry is lost to the key list, for good, exactly when some Set has stored
      a key that was absent at that moment. */
  lemma {:induction false} OrphanIffStoredAbsent(run: seq<State>, steps: seq<Step>, i: nat, k: Key)
    requires IsRun(run, steps) && i < |run|
    ensures Orphan(run[i], k) <==> exists j :: 0 <= j < i && StoresAbsent(run[j], steps[j], k)
  {
    assert |run| == |steps| + 1 && (i == 0 ==> !Orphan(run[i], k));
    hide IsRun, Orphan, StoresAbsent;
    if i > 0 {
      OrphanIffStoredAbsent(run, steps, i - 1, k);
      OrphanStep(run, steps, i - 1, k);
    }
  }

  // thread t has looked k up in Set and found it, and is about to store
  predicate AboutToStore(s: State, t: nat, k: Key) { t < |s.threads| && s.threads[t].Store? && s.threads[t].k == k }

  // a Delete removes the entry of k
  predicate Deletes(s: State, step: Step, k: Key) {
    step.Tick? && step.t < |s.threads| && s.threads[step.t] == DropEntry(k)
  }

  // a thread comes to its store only from a lookup that found the key
  lemma ComesToStore(s: State, step: Step, t: nat, k: Key)
    requires Enabled(s, step) && AboutToStore(Apply(s, step), t, k)
    ensures AboutToStore(s, t, k) || k in Apply(s, step).m
    ensures k !in Apply(s, step).m ==> k !in s.m || Deletes(s, step, k)
  {
    hide Inserted, Removed, Sorted, Found;
  }

  // while the Set of k was between its lookup and its store, a Delete of k removed the entry
  lemma {:induction false} DeletedBetween(run: seq<State>, steps: seq<Step>, p: nat, t: nat, k: Key) returns (l: nat)
    requires IsRun(run, steps) && p < |run| && AboutToStore(run[p], t, k) && k !in run[p].m
    ensures l < p && AboutToStore(run[l], t, k) && Deletes(run[l], steps[l], k)
    decreases p
  {
    hide Enabled, Apply;
    assert p > 0;
    ComesToStore(run[p - 1], steps[p - 1], t, k);
    if Deletes(run[p - 1], steps[p - 1], k) {
      l := p - 1;
    } else {
      l := DeletedBetween(run, steps, p - 1, t, k);
    }
  }

  /** If no Delete removes k while a Set of k is between its lookup and its store, no
      entry of k is lost. */
  lemma NoRaceNoLoss(run: seq<State>, steps: seq<Step>, i: nat, k: Key)
    requires IsRun(run, steps) && i < |run|
    requires forall l: nat, t: nat :: l < i && AboutToStore(run[l], t, k) ==> !Deletes(run[l], steps[l], k)
    ensures !Orphan(run[i], k)
  {
    OrphanIffStoredAbsent(run, steps, i, k);
    if j :| 0 <= j < i && StoresAbsent(run[j], steps[j], k) {
      var l := DeletedBetween(run, steps, j, steps[j].t, k);
      assert false;
    }
  }

  predicate Quiet(s: State) { forall t :: 0 <= t < |s.threads| ==> s.threads[t].Done? || s.threads[t].Panicked? }

  /** When all calls have returned, Do shows exactly the entries of m, unless some
      Set has stored an absent key. */
  lemma DoShowsAll(run: seq<State>, steps: seq<Step>, i: nat)
    requires IsRun(run, steps) && i < |run| && Quiet(run[i])
    ensures (forall k :: k in run[i].m <==> k in run[i].keys) <==>
            forall k, j :: 0 <= j < i ==> !StoresAbsent(run[j], steps[j], k)
  {
    KeysSorted(run, steps, i);
    forall k
      ensures (k in run[i].m && k !in run[i].keys) <==> exists j :: 0 <= j < i && StoresAbsent(run[j], steps[j], k)
    {
      OrphanIffStoredAbsent(run, steps, i, k);
      hide IsRun, StoresAbsent;
      assert Orphan(run[i], k) <==> k in run[i].m && k !in run[i].keys;
    }
  }

  // ----- the lost entry

  lemma Extend(run: seq<State>, steps: seq<Step>, step: Step) returns (run': seq<State>, steps': seq<Step>)
    requires IsRun(run, steps) && Enabled(run[|run| - 1], step)
    ensures run' == run + [Apply(run[|run| - 1], step)] && steps' == steps + [step] && IsRun(run', steps')
  {
    hide Enabled, Apply;
    run', steps' := run + [Apply(run[|run| - 1], step)], steps + [step];
    forall i | 0 <= i < |steps'| ensures Enabled(run'[i], steps'[i]) && run'[i + 1] == Apply(run'[i], steps'[i]) {
      if i < |steps| { assert run'[i + 1] == run[i + 1]; }
    }
  }

  // one Set puts key 7 into the map
  lemma OneKey() returns (run: seq<State>, steps: seq<Step>)
    ensures IsRun(run, steps) && |run| == 7
    ensures run[6] == State(map[7 := 1], [7], None, {}, [Done])
  {
    run, steps := [Initial()], [];
    assert IsRun(run, steps);
    hide IsRun;
    run, steps := Extend(run, steps, Start(CallSet(7, 1)));
    run, steps := Extend(run, steps, Tick(0, 0));
    run, steps := Extend(run, steps, Tick(0, 0));
    run, steps := Extend(run, steps, Tick(0, 0));
    run, steps := Extend(run, steps, Tick(0, 0));
    run, steps := Extend(run, steps, Tick(0, 0));
  }

  /** A Set that finds the key, a Delete that removes it, and then the store of the
      Set: the key is in m, not in keys, and all calls have returned. */
  lemma LostEntry() returns (run: seq<State>, steps: seq<Step>)
    ensures IsRun(run, steps) && |run| == 15 && Quiet(run[14])
    ensures 7 in run[14].m && run[14].keys == []
  {
    hide IsRun;
    run, steps := OneKey();
    run, steps := Extend(run, steps, Start(CallSet(7, 2)));
    run, steps := Extend(run, steps, Tick(1, 0));
    run, steps := Extend(run, steps, Start(CallDelete(7)));
    run, steps := Extend(run, steps, Tick(2, 0));
    run, steps := Extend(run, steps, Tick(2, 0));
    run, steps := Extend(run, steps, Tick(2, 0));
    run, steps := Extend(run, steps, Tick(2, 0));
    run, steps := Extend(run, steps, Tick(1, 0));
  }
}
