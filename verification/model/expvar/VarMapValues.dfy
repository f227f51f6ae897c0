/**
 The values of an expvar.Map over every run: where each one comes from, that a Set
 puts its value there, and that Do visits every key.
 */
module VarMapValues {
  import opened Common
  import opened VarMap
  import opened VarMapProofs

  // ----- which call a thread serves

  predicate Serves(c: Call, pc: Pc) {
    match c
    case CallSet(k, v) =>
      pc in {Load(k, Set(v)), TryStore(k, Set(v)), Store(k, v), WantKey(k, Set(v)), AddKey(k), Unlock, Done}
    case CallAdd(k) => pc in {Load(k, Add), TryStore(k, Add), WantKey(k, Add), AddKey(k), Unlock, Done}
    case CallPublish(k, v) =>
      pc in {TryStore(k, Publish(v)), WantKey(k, Publish(v)), AppendKey(k), SortKeys(k), Unlock, Done, Panicked}
    case CallDelete(k) => pc in {WantDelete(k), DropKey(k), DropEntry(k), Unlock, Done}
    case CallDo => pc == WantDo || pc.Visit? || pc == Done
  }

  // a thread goes on serving its call
  lemma ServesOn(s: State, t: nat, made: Value, c: Call)
    requires Enabled(s, Tick(t, made)) && Serves(c, s.threads[t])
    ensures t < |Apply(s, Tick(t, made)).threads| && Serves(c, Apply(s, Tick(t, made)).threads[t])
  {
    hide Inserted, Removed, Sorted, Found;
  }

  lemma OthersStay(s: State, step: Step, t: nat)
    requires Enabled(s, step) && t < |s.threads| && (step.Tick? ==> step.t != t)
    ensures t < |Apply(s, step).threads| && Apply(s, step).threads[t] == s.threads[t]
  {
    hide Inserted, Removed, Sorted, Found;
  }

  lemma NewThread(s: State, step: Step, t: nat)
    requires Enabled(s, step) && |s.threads| <= t < |Apply(s, step).threads|
    ensures step.Start? && t == |s.threads| && Serves(step.call, Apply(s, step).threads[t])
  {
    hide Inserted, Removed, Sorted, Found;
  }

  // the call that thread t serves, and the step at which it began
  lemma {:induction false} CallOf(run: seq<State>, steps: seq<Step>, i: nat, t: nat) returns (l: nat)
    requires IsRun(run, steps) && i < |run| && t < |run[i].threads|
    ensures l < i && steps[l].Start? && |run[l].threads| == t && Serves(steps[l].call, run[i].threads[t])
    decreases i
  {
    assert i > 0;
    hide Apply, Enabled, Serves;
    var s, step := run[i - 1], steps[i - 1];
    if t >= |s.threads| {
      l := i - 1;
      NewThread(s, step, t);
    } else {
      l := CallOf(run, steps, i - 1, t);
      ServesStep(s, step, t, steps[l].call);
    }
  }

  // ----- where the entries come from

  // the step puts v at k
  predicate Puts(s: State, step: Step, k: Key, v: Value) {
    step.Tick? && step.t < |s.threads| &&
    match s.threads[step.t]
    case TryStore(x, op) => x == k && k !in s.m && v == if op.Add? then step.made else op.v
    case Store(x, y) => x == k && y == v
    case _ => false
  }

  lemma EntryMoves(s: State, step: Step, k: Key)
    requires Enabled(s, step)
    ensures var m, m' := s.m, Apply(s, step).m;
            && (k in m' && !(k in m && m'[k] == m[k]) ==> Puts(s, step, k, m'[k]))
            && (forall v :: Puts(s, step, k, v) ==> k in m' && m'[k] == v)
            && (k in m && k !in m' ==> Deletes(s, step, k)) && (Deletes(s, step, k) ==> k !in m')
  {
    hide Inserted, Removed, Sorted, Found;
  }

  // the call asks for v at k; an Add that finds the key new asks for a new variable, made in the step
  predicate AsksFor(c: Call, k: Key, v: Value, made: Value) {
    c == CallSet(k, v) || c == CallPublish(k, v) || (c == CallAdd(k) && v == made)
  }

  lemma PutsForCall(s: State, step: Step, k: Key, v: Value, c: Call)
    requires Puts(s, step, k, v) && Serves(c, s.threads[step.t])
    ensures AsksFor(c, k, v, step.made)
  {
  }

  /** Every entry was put there by a call that asked for exactly this value at this
      key, and since then no step has put or deleted anything at the key. */
  lemma {:induction false} EntryFromCall(run: seq<State>, steps: seq<Step>, i: nat, k: Key) returns (j: nat, l: nat)
    requires IsRun(run, steps) && i < |run| && k in run[i].m
    ensures l < j < i && Puts(run[j], steps[j], k, run[i].m[k])
    ensures steps[l].Start? && |run[l].threads| == steps[j].t && AsksFor(steps[l].call, k, run[i].m[k], steps[j].made)
    ensures forall p: nat :: j < p < i ==> !Deletes(run[p], steps[p], k)
    ensures forall p: nat, v :: j < p < i && Puts(run[p], steps[p], k, v) ==> v == run[i].m[k]
    decreases i
  {
    assert i > 0;
    hide Apply, Enabled, Puts, Serves, AsksFor, Deletes;
    var s, step := run[i - 1], steps[i - 1];
    EntryMoves(s, step, k);
    if Puts(s, step, k, run[i].m[k]) {
      j := i - 1;
      PutsTick(s, step, k, run[i].m[k]);
      l := CallOf(run, steps, i - 1, step.t);
      PutsForCall(s, step, k, run[i].m[k], steps[l].call);
    } else {
      j, l := EntryFromCall(run, steps, i - 1, k);
    }
  }

  lemma PutsTick(s: State, step: Step, k: Key, v: Value)
    requires Puts(s, step, k, v)
    ensures step.Tick? && step.t < |s.threads|
  {
  }

  // ----- when a call does its work

  lemma {:induction false} ThreadsGrow(run: seq<State>, steps: seq<Step>, l: nat, i: nat)
    requires IsRun(run, steps) && l <= i < |run|
    ensures |run[l].threads| <= |run[i].threads|
    decreases i
  {
    if l < i {
      ThreadsGrow(run, steps, l, i - 1);
      hide Apply, Enabled;
      GrowsOrStays(run[i - 1], steps[i - 1]);
    }
  }

  lemma GrowsOrStays(s: State, step: Step)
    requires Enabled(s, step)
    ensures |s.threads| <= |Apply(s, step).threads|
  {
    hide Inserted, Removed, Sorted, Found;
  }

  // the step of thread t that took it from a state that is not reached to one that is
  lemma {:induction false} TurningPoint(run: seq<State>, steps: seq<Step>, l: nat, i: nat, t: nat, reached: Pc -> bool)
    returns (j: nat)
    requires IsRun(run, steps) && l <= i < |run| && t < |run[l].threads| <= |run[i].threads|
    requires !reached(run[l].threads[t]) && reached(run[i].threads[t])
    ensures l <= j < i && steps[j].Tick? && steps[j].t == t
    ensures t < |run[j].threads| && t < |run[j + 1].threads|
    ensures !reached(run[j].threads[t]) && reached(run[j + 1].threads[t])
    decreases i
  {
    hide Apply, Enabled;
    ThreadsGrow(run, steps, l, i - 1);
    if reached(run[i - 1].threads[t]) {
      j := TurningPoint(run, steps, l, i - 1, t, reached);
    } else {
      j := i - 1;
      if !(steps[j].Tick? && steps[j].t == t) { OthersStay(run[j], steps[j], t); }
    }
  }

  // ----- a Set puts its value

  // the thread is past its store
  predicate Stored(pc: Pc) { pc.WantKey? || pc.AddKey? || pc.Unlock? || pc.Done? }

  lemma SetStep(s: State, t: nat, made: Value, k: Key, v: Value)
    requires Enabled(s, Tick(t, made)) && Serves(CallSet(k, v), s.threads[t])
    ensures t < |Apply(s, Tick(t, made)).threads|
    ensures Stored(Apply(s, Tick(t, made)).threads[t]) ==> Stored(s.threads[t]) || Puts(s, Tick(t, made), k, v)
  {
    hide Inserted, Removed, Sorted, Found;
  }

  lemma StartsUnstored(s: State, step: Step, t: nat, k: Key, v: Value)
    requires Enabled(s, step) && |s.threads| == t && step == Start(CallSet(k, v))
    ensures t < |Apply(s, step).threads| && !Stored(Apply(s, step).threads[t])
  {
  }

  /** A Set that has returned has put its value at its key in one of its steps. */
  lemma {:induction false} SetPutsValue(run: seq<State>, steps: seq<Step>, i: nat, l: nat, k: Key, v: Value)
    returns (j: nat)
    requires IsRun(run, steps) && l < i < |run| && steps[l] == Start(CallSet(k, v))
    requires |run[l].threads| < |run[i].threads| && Stored(run[i].threads[|run[l].threads|])
    ensures l < j < i && steps[j].Tick? && steps[j].t == |run[l].threads| && Puts(run[j], steps[j], k, v)
    ensures k in run[j + 1].m && run[j + 1].m[k] == v
  {
    var t := |run[l].threads|;
    hide Apply, Enabled, Puts, Serves, Stored;
    StartsUnstored(run[l], steps[l], t, k, v);
    j := TurningPoint(run, steps, l + 1, i, t, Stored);
    ServesSince(run, steps, l, j);
    SetOn(run[j], steps[j], t, k, v);
  }

  lemma SetOn(s: State, step: Step, t: nat, k: Key, v: Value)
    requires Enabled(s, step) && t < |s.threads| && Serves(CallSet(k, v), s.threads[t])
    requires t < |Apply(s, step).threads| && Stored(Apply(s, step).threads[t])
    ensures || Stored(s.threads[t])
            || (step.Tick? && step.t == t && Puts(s, step, k, v) && k in Apply(s, step).m && Apply(s, step).m[k] == v)
  {
    hide Apply, Enabled, Puts, Serves, Stored;
    EntryMoves(s, step, k);
    if step.Tick? && step.t == t { SetStep(s, t, step.made, k, v); } else { OthersStay(s, step, t); }
  }

  // the thread that a call began serves that call
  lemma {:induction false} ServesSince(run: seq<State>, steps: seq<Step>, l: nat, i: nat)
    requires IsRun(run, steps) && l < i < |run| && steps[l].Start?
    ensures |run[l].threads| < |run[i].threads| && Serves(steps[l].call, run[i].threads[|run[l].threads|])
    decreases i
  {
    hide Apply, Enabled, Serves;
    if l == i - 1 {
      GrowsByOne(run[l], steps[l]);
      NewThread(run[l], steps[l], |run[l].threads|);
    } else {
      ServesSince(run, steps, l, i - 1);
      ServesStep(run[i - 1], steps[i - 1], |run[l].threads|, steps[l].call);
    }
  }

  lemma ServesStep(s: State, step: Step, t: nat, c: Call)
    requires Enabled(s, step) && t < |s.threads| && Serves(c, s.threads[t])
    ensures t < |Apply(s, step).threads| && Serves(c, Apply(s, step).threads[t])
  {
    hide Apply, Enabled, Serves;
    if step.Tick? && step.t == t { ServesOn(s, t, step.made, c); } else { OthersStay(s, step, t); }
  }

  lemma GrowsByOne(s: State, step: Step)
    requires Enabled(s, step) && step.Start?
    ensures |Apply(s, step).threads| == |s.threads| + 1
  {
  }

  // ----- a Publish puts its value or finds the name in use

  // the thread has put its value
  predicate Published(pc: Pc) { pc.WantKey? || pc.AppendKey? || pc.SortKeys? || pc.Unlock? || pc.Done? }

  predicate HasPanicked(pc: Pc) { pc.Panicked? }

  lemma PublishOn(s: State, step: Step, t: nat, k: Key, v: Value)
    requires Enabled(s, step) && t < |s.threads| && Serves(CallPublish(k, v), s.threads[t])
    ensures t < |Apply(s, step).threads|
    ensures Published(Apply(s, step).threads[t]) ==>
              Published(s.threads[t]) || (step.Tick? && step.t == t && Puts(s, step, k, v) && k !in s.m)
    ensures Apply(s, step).threads[t].Panicked? ==>
              s.threads[t].Panicked? || (step.Tick? && step.t == t && k in s.m && Apply(s, step).m == s.m)
  {
    hide Inserted, Removed, Sorted, Found;
  }

  lemma StartsUnpublished(s: State, step: Step, t: nat, k: Key, v: Value)
    requires Enabled(s, step) && |s.threads| == t && step == Start(CallPublish(k, v))
    ensures t < |Apply(s, step).threads|
    ensures !Published(Apply(s, step).threads[t]) && !Apply(s, step).threads[t].Panicked?
  {
  }

  /** A Publish that has returned put its value under a name that was not in use, and
      one that panicked found the name in use and changed nothing. */
  lemma {:induction false} PublishPutsOrPanics(run: seq<State>, steps: seq<Step>, i: nat, l: nat, k: Key, v: Value)
    returns (j: nat)
    requires IsRun(run, steps) && l < i < |run| && steps[l] == Start(CallPublish(k, v))
    requires |run[l].threads| < |run[i].threads|
    requires var pc := run[i].threads[|run[l].threads|]; Published(pc) || pc.Panicked?
    ensures l < j < i && steps[j].Tick? && steps[j].t == |run[l].threads|
    ensures if Published(run[i].threads[|run[l].threads|]) then Puts(run[j], steps[j], k, v) && k !in run[j].m
            else k in run[j].m && run[j + 1].m == run[j].m
  {
    var t := |run[l].threads|;
    hide Apply, Enabled, Puts, Serves, Published;
    StartsUnpublished(run[l], steps[l], t, k, v);
    if Published(run[i].threads[t]) {
      j := TurningPoint(run, steps, l + 1, i, t, Published);
    } else {
      j := TurningPoint(run, steps, l + 1, i, t, HasPanicked);
    }
    ServesSince(run, steps, l, j);
    PublishOn(run[j], steps[j], t, k, v);
  }

  // ----- a Delete removes the entry or finds no key

  // in this step thread t, a Delete of k, finds no key, or removes the entry after the key
  predicate TakesOut(s: State, step: Step, t: nat, k: Key)
    requires Enabled(s, step)
  {
    && step.Tick? && step.t == t
    && (|| (s.threads[t] == DropKey(k) && k !in s.keys && Apply(s, step).m == s.m)
        || (s.threads[t] == DropEntry(k) && k in s.m && k !in s.keys && k !in Apply(s, step).m))
  }

  // the thread has done its work
  predicate Over(pc: Pc) { pc.Unlock? || pc.Done? }

  lemma DeleteOn(s: State, step: Step, t: nat, k: Key)
    requires Inv(s) && Enabled(s, step) && t < |s.threads| && Serves(CallDelete(k), s.threads[t])
    ensures t < |Apply(s, step).threads|
    ensures Over(Apply(s, step).threads[t]) ==> Over(s.threads[t]) || TakesOut(s, step, t, k)
  {
    assert ThreadOk(s, t);
    if s.threads[t].DropKey? { FoundIsIn(s, t, k); }
    hide Inv, Inserted, Removed, Sorted, Found;
  }

  lemma StartsUndone(s: State, step: Step, t: nat, k: Key)
    requires Enabled(s, step) && |s.threads| == t && step == Start(CallDelete(k))
    ensures t < |Apply(s, step).threads| && !Over(Apply(s, step).threads[t])
  {
  }

  /** A Delete that has returned has in one of its steps removed the entry, after the
      key, or found no such key. */
  lemma {:induction false} DeleteTakesOut(run: seq<State>, steps: seq<Step>, i: nat, l: nat, k: Key) returns (j: nat)
    requires IsRun(run, steps) && l < i < |run| && steps[l] == Start(CallDelete(k))
    requires |run[l].threads| < |run[i].threads| && Over(run[i].threads[|run[l].threads|])
    ensures l < j < i && TakesOut(run[j], steps[j], |run[l].threads|, k)
  {
    var t := |run[l].threads|;
    hide Inv, Apply, Enabled, TakesOut, Serves, Over;
    StartsUndone(run[l], steps[l], t, k);
    j := TurningPoint(run, steps, l + 1, i, t, Over);
    ServesSince(run, steps, l, j);
    RunInv(run, steps, j);
    DeleteOn(run[j], steps[j], t, k);
  }

  // ----- Do

  lemma VisitStep(s: State, step: Step, t: nat)
    requires Enabled(s, step) && t < |Apply(s, step).threads| && Apply(s, step).threads[t].Visit?
    ensures Apply(s, step).threads[t] == Visit(0)
            || (t < |s.threads| && s.threads[t] == Apply(s, step).threads[t])
            || (step.Tick? && step.t == t && t < |s.threads| && s.threads[t].Visit?
                && s.threads[t].i + 1 == Apply(s, step).threads[t].i && s.threads[t].i < |s.keys|)
  {
    hide Inserted, Removed, Sorted, Found;
  }

  // before state i, Do thread t called f for the key at position p
  ghost predicate Shown(run: seq<State>, steps: seq<Step>, i: nat, t: nat, p: nat)
    requires IsRun(run, steps) && i < |run|
  {
    exists l: nat :: l < i && ShowsAt(run[l], steps[l], t, p, run[i].keys)
  }

  predicate ShowsAt(s: State, step: Step, t: nat, p: nat, keys: seq<Key>) {
    && step.Tick? && step.t == t < |s.threads| && s.threads[t] == Visit(p)
    && s.keys == keys && p < |keys| && keys[p] in s.m
  }

  lemma ShownOn(run: seq<State>, steps: seq<Step>, i: nat, t: nat, p: nat)
    requires IsRun(run, steps) && i + 1 < |run| && Shown(run, steps, i, t, p) && run[i + 1].keys == run[i].keys
    ensures Shown(run, steps, i + 1, t, p)
  {
    hide ShowsAt, IsRun;
  }

  /** A Do calls f for the keys one after the other, each with an entry: when it comes
      to position n it has done so for all before n, and it ends only past the last. */
  lemma {:induction false} DoVisitsAll(run: seq<State>, steps: seq<Step>, i: nat, t: nat)
    requires IsRun(run, steps) && i < |run| && t < |run[i].threads| && run[i].threads[t].Visit?
    ensures run[i].threads[t].i <= |run[i].keys|
    ensures forall p: nat :: p < run[i].threads[t].i ==> Shown(run, steps, i, t, p)
    ensures i < |steps| && steps[i].Tick? && steps[i].t == t && run[i + 1].threads[t] == Done ==>
              run[i].threads[t].i == |run[i].keys|
    decreases i
  {
    assert i > 0;
    DoLeaves(run[i], t);
    hide Apply, Enabled, Shown;
    VisitStep(run[i - 1], steps[i - 1], t);
    if run[i].threads[t].i > 0 {
      DoVisitsAll(run, steps, i - 1, t);
      DoSeesEntries(run, steps, i - 1, t);
      forall p: nat | p < run[i].threads[t].i ensures Shown(run, steps, i, t, p) {
        if p < run[i - 1].threads[t].i {
          ShownOn(run, steps, i - 1, t, p);
        } else {
          assert run[i - 1].threads[t] == Visit(p) && run[i - 1].keys[p] in run[i - 1].keys;
          ShownNow(run, steps, i, t, p);
        }
      }
    }
  }

  lemma ShownNow(run: seq<State>, steps: seq<Step>, i: nat, t: nat, p: nat)
    requires IsRun(run, steps) && 0 < i < |run| && ShowsAt(run[i - 1], steps[i - 1], t, p, run[i].keys)
    ensures Shown(run, steps, i, t, p)
  {
    hide ShowsAt, IsRun;
  }

  lemma DoLeaves(s: State, t: nat)
    requires t < |s.threads| && s.threads[t].Visit?
    ensures forall made :: Enabled(s, Tick(t, made)) && t < |Apply(s, Tick(t, made)).threads| ==>
              (Apply(s, Tick(t, made)).threads[t] == Done ==> s.threads[t].i >= |s.keys|)
  {
    hide Inserted, Removed, Sorted, Found;
  }
}
