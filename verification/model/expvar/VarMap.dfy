/**
 expvar.Map under concurrent Set, Add, AddFloat, Delete, Do and Publish, as a step
 machine: one step per operation on the sync.Map or on the key lock. Keys are
 numbered in string order; values are opaque.
 */
module VarMap {
  import opened Common

  type Key = int
  type Value = nat

  // ----- the sorted key list

  ghost predicate StrictlySorted(keys: seq<Key>) {
    forall i, j :: 0 <= i < j < |keys| ==> keys[i] < keys[j]
  }

  // slices.BinarySearch: how many keys are smaller, in a sorted list the place of k
  function Position(keys: seq<Key>, k: Key): (i: nat)
    ensures i <= |keys|
  {
    if keys == [] || keys[0] >= k then 0 else 1 + Position(keys[1..], k)
  }

  predicate Found(keys: seq<Key>, k: Key) {
    var i := Position(keys, k);
    i < |keys| && keys[i] == k
  }

  function Inserted(keys: seq<Key>, k: Key): seq<Key> {
    if Found(keys, k) then keys
    else var i := Position(keys, k); keys[..i] + [k] + keys[i..]
  }

  function Removed(keys: seq<Key>, k: Key): seq<Key> {
    var i := Position(keys, k);
    if i < |keys| && keys[i] == k then keys[..i] + keys[i + 1..] else keys
  }

  // slices.Sort
  function Sorted(keys: seq<Key>): seq<Key> {
    if keys == [] then []
    else
      var s, k := Sorted(keys[..|keys| - 1]), keys[|keys| - 1];
      var i := Position(s, k);
      s[..i] + [k] + s[i..]
  }

  // ----- threads

  // who inserts: Set, Add or AddFloat through addKey, Publish by itself
  datatype Op = Set(v: Value) | Add | Publish(v: Value)

  datatype Pc =
    | Load(k: Key, op: Op)          // m.Load
    | TryStore(k: Key, op: Op)      // m.LoadOrStore
    | Store(k: Key, v: Value)       // m.Store
    | WantKey(k: Key, op: Op)       // the key was new: take keysMu
    | AddKey(k: Key)                // search and insert
    | AppendKey(k: Key)             // Publish: append without a search
    | SortKeys(k: Key)
    | WantDelete(k: Key)            // take keysMu
    | DropKey(k: Key)               // search and delete from keys
    | DropEntry(k: Key)             // m.Delete
    | Unlock
    | WantDo                        // take keysMu for reading
    | Visit(i: nat)                 // m.Load of keys[i], then f
    | Done
    | Panicked                      // Publish of a name in use

  datatype State = State(m: map<Key, Value>, keys: seq<Key>, writer: Option<nat>, readers: set<nat>, threads: seq<Pc>)

  function Initial(): State { State(map[], [], None, {}, []) }

  datatype Call =
    | CallSet(k: Key, v: Value) | CallAdd(k: Key) | CallPublish(k: Key, v: Value) | CallDelete(k: Key) | CallDo

  function Begin(c: Call): Pc {
    match c
    case CallSet(k, v) => Load(k, Set(v))
    case CallAdd(k) => Load(k, Add)
    case CallPublish(k, v) => TryStore(k, Publish(v))
    case CallDelete(k) => WantDelete(k)
    case CallDo => WantDo
  }

  datatype Step = Start(call: Call) | Tick(t: nat, made: Value)

  predicate Enabled(s: State, step: Step) {
    match step
    case Start(_) => true
    case Tick(t, _) =>
      t < |s.threads| &&
      match s.threads[t]
      case WantKey(_, _) => s.writer.None? && s.readers == {}
      case WantDelete(_) => s.writer.None? && s.readers == {}
      case WantDo => s.writer.None?
      case Done => false
      case Panicked => false
      case _ => true
  }

  function Go(s: State, t: nat, pc: Pc): State
    requires t < |s.threads|
  {
    s.(threads := s.threads[t := pc])
  }

  // what m holds for a key that an operation finds new; made stands for new(Int) or new(Float)
  function NewValue(op: Op, made: Value): Value { if op.Add? then made else op.v }

  function Apply(s: State, step: Step): State
    requires Enabled(s, step)
  {
    match step
    case Start(c) => s.(threads := s.threads + [Begin(c)])
    case Tick(t, made) =>
      match s.threads[t]
      case Load(k, op) =>
        if k !in s.m then Go(s, t, TryStore(k, op))
        else if op.Set? then Go(s, t, Store(k, op.v))
        else Go(s, t, Done)
      case TryStore(k, op) =>
        if k !in s.m then Go(s.(m := s.m[k := NewValue(op, made)]), t, WantKey(k, op))
        else if op.Set? then Go(s, t, Store(k, op.v))
        else if op.Publish? then Go(s, t, Panicked)
        else Go(s, t, Done)
      case Store(k, v) => Go(s.(m := s.m[k := v]), t, Done)
      case WantKey(k, op) => Go(s.(writer := Some(t)), t, if op.Publish? then AppendKey(k) else AddKey(k))
      case AddKey(k) => Go(s.(keys := Inserted(s.keys, k)), t, Unlock)
      case AppendKey(k) => Go(s.(keys := s.keys + [k]), t, SortKeys(k))
      case SortKeys(_) => Go(s.(keys := Sorted(s.keys)), t, Unlock)
      case WantDelete(k) => Go(s.(writer := Some(t)), t, DropKey(k))
      case DropKey(k) =>
        if Found(s.keys, k) then Go(s.(keys := Removed(s.keys, k)), t, DropEntry(k)) else Go(s, t, Unlock)
      case DropEntry(k) => Go(s.(m := s.m - {k}), t, Unlock)
      case Unlock => Go(s.(writer := None), t, Done)
      case WantDo => Go(s.(readers := s.readers + {t}), t, Visit(0))
      case Visit(i) =>
        if i < |s.keys| then Go(s, t, Visit(i + 1)) else Go(s.(readers := s.readers - {t}), t, Done)
      case Done => s
      case Panicked => s
  }

  ghost predicate IsRun(run: seq<State>, steps: seq<Step>) {
    && |run| == |steps| + 1 && run[0] == Initial()
    && forall i :: 0 <= i < |steps| ==> Enabled(run[i], steps[i]) && run[i + 1] == Apply(run[i], steps[i])
  }
}
