/**
 iter.Pull: a push iterator turned into next and stop. The iterator runs as a
 coroutine that hands control back inside yield; switching to a finished coroutine
 is a fatal error, and no sequence of calls comes to that.
 */
module Pull {
  import opened Common

  // how seq ends: it returns, or it panics (or calls Goexit) with a value
  datatype Ending = Returns | Panics(value: nat)

  /** A push iterator: the values it pushes while yield says true, how it ends after
      the last one, and how it ends once yield has said false. What it pushes after
      that has no effect. */
  datatype Iterator<V> = Iterator(values: seq<V>, end: Ending, onStop: Ending)

  // where the coroutine stands
  datatype Pc = NotStarted | InYield | Finished

  // what next reports: the zero value and false is Over; Propagated is a panic of seq, Misuse one of Pull
  datatype Outcome<V> = Value(v: V) | Over | Propagated(value: nat) | Misuse

  class Pull<V> {
    const it: Iterator<V>
    // the pull record; None stands for the zero value
    var v: Option<V>
    var ok: bool
    var done: bool
    var yieldNext: bool
    var seqDone: bool
    var panicValue: Option<nat>
    // the coroutine: how many values it has pushed, and where it is
    var pushed: nat
    var pc: Pc

    // between calls: the coroutine is finished exactly when the iterator is done
    ghost predicate Valid()
      reads this
    {
      && pushed <= |it.values|
      && (done <==> pc == Finished)
      && (!done ==> !yieldNext && panicValue.None?)
      && (pc == NotStarted ==> pushed == 0)
    }

    constructor (it: Iterator<V>)
      ensures Valid() && this.it == it && pushed == 0 && !done
    {
      this.it := it;
      v, ok, done, yieldNext, seqDone, panicValue, pushed, pc := None, false, false, false, false, None, 0, NotStarted;
    }

    // seq is over; the deferred function invalidates the iterator
    method Complete(e: Ending)
      modifies this`v, this`ok, this`seqDone, this`panicValue, this`done, this`pc
      ensures done && pc == Finished
      ensures panicValue == if e.Panics? then Some(e.value) else old(panicValue)
      ensures e.Returns? ==> v == None && !ok && seqDone
      ensures e.Panics? ==> v == old(v) && ok == old(ok) && seqDone == old(seqDone)
    {
      if e.Returns? {
        v, ok, seqDone := None, false, true;
      } else {
        panicValue := Some(e.value);
      }
      done, pc := true, Finished;
    }

    // coroswitch: run the coroutine until it switches back or ends
    method Switch()
      requires pc != Finished && pushed <= |it.values| && (yieldNext || done)
      modifies this
      ensures pushed <= |it.values|
      ensures old(done) ==> done && pc == Finished && pushed == old(pushed)
      ensures old(done) ==>
                panicValue == if old(pc) == InYield && it.onStop.Panics? then Some(it.onStop.value) else old(panicValue)
      ensures !old(done) && old(pushed) < |it.values| ==>
                && pushed == old(pushed) + 1 && v == Some(it.values[old(pushed)]) && ok && !done && !yieldNext
                && pc == InYield
                && panicValue == old(panicValue)
      ensures !old(done) && old(pushed) == |it.values| ==> done && pc == Finished && pushed == old(pushed)
      ensures !old(done) && old(pushed) == |it.values| && it.end.Returns? ==> !ok && panicValue == old(panicValue)
      ensures !old(done) && old(pushed) == |it.values| && it.end.Panics? ==> panicValue == Some(it.end.value)
    {
      if done {
        if pc == NotStarted { pc := Finished; } else { Complete(it.onStop); }
      } else if pushed < |it.values| {
        // yield(values[pushed])
        yieldNext := false;
        v, ok := Some(it.values[pushed]), true;
        pushed, pc := pushed + 1, InYield;
      } else {
        Complete(it.end);
      }
    }

    method Next() returns (r: Outcome<V>)
      requires Valid()
      modifies this
      ensures Valid()
      ensures old(done) ==> r == Over && done && pushed == old(pushed)
      ensures !old(done) && old(pushed) < |it.values| ==>
                r == Value(it.values[old(pushed)]) && pushed == old(pushed) + 1 && !done
      ensures !old(done) && old(pushed) == |it.values| ==>
                done && pushed == old(pushed) && r == if it.end.Panics? then Propagated(it.end.value) else Over
    {
      if done { return Over; }
      if yieldNext { return Misuse; }
      yieldNext := true;
      Switch();
      if panicValue.Some? { return Propagated(panicValue.value); }
      return if ok && v.Some? then Value(v.value) else Over;
    }

    method Stop() returns (r: Outcome<V>)
      requires Valid()
      modifies this
      ensures Valid() && done && pushed == old(pushed)
      ensures r == if !old(done) && old(pc) == InYield && it.onStop.Panics? then Propagated(it.onStop.value) else Over
    {
      if !done {
        done := true;
        Switch();
        if panicValue.Some? { return Propagated(panicValue.value); }
      }
      return Over;
    }
  }

  // ----- any sequence of calls

  datatype Call = CallNext | CallStop

  // the values among the answers
  function Values<V>(rs: seq<Outcome<V>>): seq<V> {
    if rs == [] then []
    else Values(rs[..|rs| - 1]) + (if rs[|rs| - 1].Value? then [rs[|rs| - 1].v] else [])
  }

  function Nexts(calls: seq<Call>): nat {
    if calls == [] then 0 else Nexts(calls[..|calls| - 1]) + (if calls[|calls| - 1] == CallNext then 1 else 0)
  }

  lemma ValuesAppend<V>(rs: seq<Outcome<V>>, r: Outcome<V>)
    ensures Values(rs + [r]) == Values(rs) + if r.Value? then [r.v] else []
  {
    assert (rs + [r])[..|rs|] == rs;
  }

  lemma NextsAppend(calls: seq<Call>, c: Call)
    ensures Nexts(calls + [c]) == Nexts(calls) + if c == CallNext then 1 else 0
  {
    assert (calls + [c])[..|calls|] == calls;
  }

  // this answer, or this call, ends the iteration
  predicate Ends<V>(c: Call, r: Outcome<V>) { c == CallStop || !r.Value? }

  // the values so far, and how many were asked for
  ghost predicate Counted<V>(it: Iterator<V>, calls: seq<Call>, rs: seq<Outcome<V>>, pushed: nat, done: bool) {
    && pushed <= |it.values| && Values(rs) == it.values[..pushed]
    && (CallStop !in calls ==> pushed == Min(Nexts(calls), |it.values|) && (done <==> Nexts(calls) > |it.values|))
  }

  // nothing follows the end
  ghost predicate Silent<V>(calls: seq<Call>, rs: seq<Outcome<V>>, done: bool) {
    && |rs| == |calls| && (forall k :: 0 <= k < |rs| ==> rs[k] != Misuse)
    && (forall k :: 0 <= k < |rs| && Ends(calls[k], rs[k]) ==> done)
    && (forall k, j :: 0 <= k < j < |rs| && Ends(calls[k], rs[k]) ==> rs[j] == Over)
  }

  // what one call of next or stop does
  ghost predicate Answered<V>(it: Iterator<V>, c: Call, r: Outcome<V>, pushed: nat, done: bool, pushed': nat,
                              done': bool) {
    && pushed <= |it.values| && r != Misuse && (done ==> done' && r == Over && pushed' == pushed)
    && (c == CallStop ==> done' && pushed' == pushed && !r.Value?)
    && (c == CallNext && !done && pushed < |it.values| ==>
        r == Value(it.values[pushed]) && pushed' == pushed + 1 && !done')
    && (c == CallNext && !done && pushed == |it.values| ==> !r.Value? && pushed' == pushed && done')
  }

  lemma CountedStep<V>(it: Iterator<V>, calls: seq<Call>, rs: seq<Outcome<V>>, pushed: nat, done: bool,
                       c: Call, r: Outcome<V>, pushed': nat, done': bool)
    requires Counted(it, calls, rs, pushed, done) && Answered(it, c, r, pushed, done, pushed', done')
    ensures Counted(it, calls + [c], rs + [r], pushed', done')
  {
    ValuesAppend(rs, r);
    NextsAppend(calls, c);
    hide Values, Nexts;
    assert CallStop !in calls + [c] ==> CallStop !in calls && c == CallNext by {
      assert CallStop in calls ==> CallStop in calls + [c];
      assert (calls + [c])[|calls|] == c;
    }
  }

  lemma SilentStep<V>(it: Iterator<V>, calls: seq<Call>, rs: seq<Outcome<V>>, pushed: nat, done: bool,
                      c: Call, r: Outcome<V>, pushed': nat, done': bool)
    requires Silent(calls, rs, done) && Answered(it, c, r, pushed, done, pushed', done')
    ensures Silent(calls + [c], rs + [r], done')
  {
    var cs, qs := calls + [c], rs + [r];
    assert forall k :: 0 <= k < |rs| ==> cs[k] == calls[k] && qs[k] == rs[k];
  }

  /** Whatever the calls, the values returned are a prefix of those the iterator
      pushes; without a stop, as many as were asked for, or all; once an answer
      signals the end, no value follows. */
  method Session<V>(it: Iterator<V>, calls: seq<Call>) returns (rs: seq<Outcome<V>>)
    ensures |rs| == |calls| && Values(rs) <= it.values
    ensures CallStop !in calls ==> |Values(rs)| == Min(Nexts(calls), |it.values|)
    ensures forall i, j :: 0 <= i < j < |rs| && Ends(calls[i], rs[i]) ==> rs[j] == Over
    ensures forall i :: 0 <= i < |rs| ==> rs[i] != Misuse
  {
    var p := new Pull(it);
    rs := [];
    var i := 0;
    assert calls[..0] == [] && calls[..|calls|] == calls;
    AtFirst(it);
    hide Counted, Silent, Values, Nexts, Ends;
    while i < |calls|
      invariant i <= |calls| && p.Valid() && fresh(p) && p.it == it
      invariant Counted(it, calls[..i], rs, p.pushed, p.done) && Silent(calls[..i], rs, p.done)
    {
      ghost var pushed, done := p.pushed, p.done;
      var r;
      if calls[i] == CallNext { r := p.Next(); } else { r := p.Stop(); }
      CountedStep(it, calls[..i], rs, pushed, done, calls[i], r, p.pushed, p.done);
      SilentStep(it, calls[..i], rs, pushed, done, calls[i], r, p.pushed, p.done);
      assert calls[..i + 1] == calls[..i] + [calls[i]];
      rs := rs + [r];
      i := i + 1;
    }
    AtLast(it, calls, rs, p.pushed, p.done);
  }

  lemma AtFirst<V>(it: Iterator<V>)
    ensures Counted(it, [], [], 0, false) && Silent<V>([], [], false)
  {
  }

  lemma AtLast<V>(it: Iterator<V>, calls: seq<Call>, rs: seq<Outcome<V>>, pushed: nat, done: bool)
    requires Counted(it, calls, rs, pushed, done) && Silent(calls, rs, done)
    ensures |rs| == |calls| && Values(rs) <= it.values
    ensures CallStop !in calls ==> |Values(rs)| == Min(Nexts(calls), |it.values|)
    ensures forall i, j :: 0 <= i < j < |rs| && Ends(calls[i], rs[i]) ==> rs[j] == Over
    ensures forall i :: 0 <= i < |rs| ==> rs[i] != Misuse
  {
    hide Values, Nexts;
  }
}
