/**
 Why `KvThreads.RunIsSerial` leaves out a `MultiPut` into the first bucket, which it never locks
 (kvstore/kvstore/concurrent_kvstore.cpp:111-115): next to one `Append`, every such call has a run
 that no serial order explains.
 */
module KvRace {
  import opened Wrappers
  import opened DbMap
  import opened KvOps
  import opened KvThreads

  // ---- Putting runs together ----

  lemma {:induction false} RunConcat(h: Hasher, a: World, es: seq<Event>, b: World, fs: seq<Event>, c: World)
    requires Run(h, a, es, b) && Run(h, b, fs, c)
    ensures Run(h, a, es + fs, c)
    decreases |es|
  {
    hide After, Enabled;
    if es == [] {
      assert es + fs == fs;
    } else {
      RunConcat(h, After(h, a, es[0]), es[1..], b, fs, c);
      assert (es + fs)[1..] == es[1..] + fs;
    }
  }

  lemma OneStep(h: Hasher, w: World, e: Event)
    requires Enabled(h, w, e)
    ensures Run(h, w, [e], After(h, w, e))
  {
    hide After, Enabled;
    assert [e][1..] == [];
  }

  lemma StepThenRun(h: Hasher, w: World, e: Event, es: seq<Event>, w': World)
    requires Enabled(h, w, e) && Run(h, After(h, w, e), es, w')
    ensures Run(h, w, [e] + es, w')
  {
    OneStep(h, w, e);
    RunConcat(h, w, [e], After(h, w, e), es, w');
  }

  ghost predicate OnlyMoves(es: seq<Event>) {
    forall e :: e in es ==> e.Move?
  }

  function WithPhase(w: World, t: nat, phase: Phase): seq<Thread>
    requires t < |w.threads|
  {
    w.threads[t := Thread(w.threads[t].op, phase)]
  }

  // ---- One thread runs on while the others stand still ----

  lemma {:induction false} BodyRun(h: Hasher, w: World, t: nat, c: map<string, string>) returns (es: seq<Event>, w': World)
    requires t < |w.threads| && w.threads[t].phase.Body? && Holds(w.store, h, c)
    ensures var f := Finish(w.threads[t].op, w.threads[t].phase.l, c);
            && Run(h, w, es, w') && OnlyMoves(es)
            && w'.threads == WithPhase(w, t, Unlocking(0, f.1)) && Holds(w'.store, h, f.0)
    decreases var th := w.threads[t];
              if th.phase.Body? && th.phase.l.i <= Accesses(th.op) then Accesses(th.op) - th.phase.l.i else 0
  {
    var op, l := w.threads[t].op, w.threads[t].phase.l;
    var w1 := After(h, w, Move(t));
    if Next(op, l).Answer? {
      es, w' := [Move(t)], w1;
      OneStep(h, w, Move(t));
      AnswerIsFinish(op, l, c);
    } else {
      var c1 := MapAfter(h, w, c, Move(t));
      AccessHolds(h, w, c, t);
      hide Holds, Run, Locks;
      var fs;
      fs, w' := BodyRun(h, w1, t, c1);
      es := [Move(t)] + fs;
      StepThenRun(h, w, Move(t), fs, w');
      assert w'.threads == WithPhase(w, t, w'.threads[t].phase);
    }
  }

  lemma AccessHolds(h: Hasher, w: World, c: map<string, string>, t: nat)
    requires t < |w.threads| && w.threads[t].phase.Body? && Holds(w.store, h, c)
    requires !Next(w.threads[t].op, w.threads[t].phase.l).Answer?
    ensures var w1, c1 := After(h, w, Move(t)), MapAfter(h, w, c, Move(t));
            && Holds(w1.store, h, c1) && w1.threads[t].phase.Body? && w1.threads == WithPhase(w, t, w1.threads[t].phase)
            && w1.threads[t].phase.l.i == w.threads[t].phase.l.i + 1
            && Finish(w.threads[t].op, w1.threads[t].phase.l, c1) == Finish(w.threads[t].op, w.threads[t].phase.l, c)
  {
    match Next(w.threads[t].op, w.threads[t].phase.l)
    case Read(k) => assert Look(w.store, h, k) == Find(c, k);
    case Write(k, v) => PutHolds(w.store, h, c, k, v);
    case Remove(k) => DropHolds(w.store, h, c, k);
  }

  /** No other thread holds a lock that `t` needs. */
  ghost predicate Alone(h: Hasher, w: World, t: nat)
    requires t < |w.threads|
  {
    forall u: nat, b :: u < |w.threads| && u != t && b in Locks(h, w.threads[t].op) ==> b !in Held(h, w.threads[u])
  }

  lemma {:induction false} LockRun(h: Hasher, w: World, t: nat) returns (es: seq<Event>, w': World)
    requires t < |w.threads| && w.threads[t].phase.Waiting? && w.threads[t].phase.n <= |Locks(h, w.threads[t].op)|
    requires Alone(h, w, t)
    ensures Run(h, w, es, w') && OnlyMoves(es) && w'.threads == WithPhase(w, t, Body(START)) && w'.store == w.store
    decreases if w.threads[t].phase.Waiting? then |Locks(h, w.threads[t].op)| - w.threads[t].phase.n else 0
  {
    hide Locks;
    var n, locks := w.threads[t].phase.n, Locks(h, w.threads[t].op);
    assert n < |locks| ==> locks[n] in locks;
    assert CanMove(h, w, t);
    var w1 := After(h, w, Move(t));
    if n == |locks| {
      es, w' := [Move(t)], w1;
      OneStep(h, w, Move(t));
    } else {
      var fs;
      fs, w' := LockRun(h, w1, t);
      es := [Move(t)] + fs;
      StepThenRun(h, w, Move(t), fs, w');
    }
  }

  lemma {:induction false} UnlockRun(h: Hasher, w: World, t: nat) returns (es: seq<Event>, w': World)
    requires t < |w.threads| && w.threads[t].phase.Unlocking? && w.threads[t].phase.n <= |Locks(h, w.threads[t].op)|
    ensures Run(h, w, es, w') && OnlyMoves(es) && w'.store == w.store
    ensures w'.threads == WithPhase(w, t, Done(w.threads[t].phase.reply))
    decreases if w.threads[t].phase.Unlocking? then |Locks(h, w.threads[t].op)| - w.threads[t].phase.n else 0
  {
    hide Locks;
    var w1 := After(h, w, Move(t));
    if w.threads[t].phase.n == |Locks(h, w.threads[t].op)| {
      es, w' := [Move(t)], w1;
      OneStep(h, w, Move(t));
    } else {
      var fs;
      fs, w' := UnlockRun(h, w1, t);
      es := [Move(t)] + fs;
      StepThenRun(h, w, Move(t), fs, w');
    }
  }

  /** From all locks held, or from the middle of the body, to the end. */
  lemma RunToEnd(h: Hasher, w: World, t: nat, c: map<string, string>) returns (es: seq<Event>, w': World)
    requires t < |w.threads| && w.threads[t].phase.Body? && Holds(w.store, h, c)
    ensures var f := Finish(w.threads[t].op, w.threads[t].phase.l, c);
            Run(h, w, es, w') && OnlyMoves(es) && w'.threads == WithPhase(w, t, Done(f.1)) && Holds(w'.store, h, f.0)
  {
    hide Holds, Finish, Locks, Run;
    var w1;
    es, w1 := BodyRun(h, w, t, c);
    var fs;
    fs, w' := UnlockRun(h, w1, t);
    RunConcat(h, w, es, w1, fs, w');
    es := es + fs;
  }

  /** A thread that nobody is in the way of does its whole operation. */
  lemma RunWhole(h: Hasher, w: World, t: nat, c: map<string, string>) returns (es: seq<Event>, w': World)
    requires t < |w.threads| && w.threads[t].phase == Waiting(0) && Alone(h, w, t) && Holds(w.store, h, c)
    ensures var f := Apply(c, w.threads[t].op);
            Run(h, w, es, w') && OnlyMoves(es) && w'.threads == WithPhase(w, t, Done(f.1)) && Holds(w'.store, h, f.0)
  {
    hide Holds, Finish, Locks, Run, Apply, Alone;
    var w1;
    es, w1 := LockRun(h, w, t);
    var fs;
    fs, w' := RunToEnd(h, w1, t, c);
    BodyIsApply(w.threads[t].op, c);
    RunConcat(h, w, es, w1, fs, w');
    es := es + fs;
  }

  // ---- The race ----

  lemma {:induction false} PutAllLast(m: map<string, string>, m': map<string, string>, keys: seq<string>,
                                      values: seq<string>, k: string)
    requires |keys| == |values| && (k in keys || Find(m, k) == Find(m', k))
    ensures Find(PutAll(m, keys, values), k) == Find(PutAll(m', keys, values), k)
    ensures k in keys ==> k in PutAll(m, keys, values)
    decreases |keys|
  {
    if keys != [] {
      PutAllLast(m[keys[0] := values[0]], m'[keys[0] := values[0]], keys[1..], values[1..], k);
      if k in keys && k !in keys[1..] { PutAllKeeps(m[keys[0] := values[0]], keys[1..], values[1..], k); }
    }
  }

  lemma {:induction false} PutAllKeeps(m: map<string, string>, keys: seq<string>, values: seq<string>, k: string)
    requires |keys| == |values| && k in m
    ensures k in PutAll(m, keys, values)
    decreases |keys|
  {
    if keys != [] { PutAllKeeps(m[keys[0] := values[0]], keys[1..], values[1..], k); }
  }

  lemma StoreWith(h: Hasher, k: string, v: string) returns (s: Store)
    ensures Holds(s, h, map[k := v])
  {
    var e: Store := seq(BUCKET_COUNT, _ => []);
    assert Holds(e, h, map[]);
    PutHolds(e, h, map[], k, v);
    s := DbMap.Put(e, h, k, v);
    assert map[][k := v] == map[k := v];
  }

  /** The `Append` has read the old value and holds the lock of the first bucket. */
  lemma AppendReads(h: Hasher, w: World, k: string, v: string, u: string) returns (es: seq<Event>, w': World)
    requires w.threads == [] && Holds(w.store, h, map[k := u])
    ensures Run(h, w, es, w') && (forall e :: e in es && e.Call? ==> e.op == Append(k, v)) && w'.store == w.store
    ensures w'.threads == [Thread(Append(k, v), Body(Local(1, [u])))]
  {
    hide Run, After, Enabled, Alone, Look, Holds;
    var op := Append(k, v);
    FirstCall(h, w, op);
    var w1 := After(h, w, Call(op));
    var fs, w2 := LockRun(h, w1, 0);
    assert w2.threads == [Thread(op, Body(START))];
    LookAt(w.store, h, map[k := u], k);
    ReadStep(h, w2, k, v, u);
    w' := After(h, w2, Move(0));
    OneStep(h, w2, Move(0));
    RunConcat(h, w1, fs, w2, [Move(0)], w');
    StepThenRun(h, w, Call(op), fs + [Move(0)], w');
    es := [Call(op)] + (fs + [Move(0)]);
  }

  lemma FirstCall(h: Hasher, w: World, op: Op)
    requires w.threads == []
    ensures Enabled(h, w, Call(op)) && After(h, w, Call(op)).threads == [Thread(op, Waiting(0))]
    ensures After(h, w, Call(op)).store == w.store && Alone(h, After(h, w, Call(op)), 0)
  {
  }

  lemma ReadStep(h: Hasher, w: World, k: string, v: string, u: string)
    requires w.threads == [Thread(Append(k, v), Body(START))] && Look(w.store, h, k) == Some(u)
    ensures Enabled(h, w, Move(0)) && After(h, w, Move(0)).store == w.store
    ensures After(h, w, Move(0)).threads == [Thread(Append(k, v), Body(Local(1, [u])))]
  {
    assert Continue(START, Some(u)) == Local(1, [u]);
  }

  ghost predicate CallsOnly(es: seq<Event>, op: Op, other: Op) {
    forall e :: e in es && e.Call? ==> e.op == op || e.op == other
  }

  /** With the `Append` in the middle, nobody is in the way of a `MultiPut` that is called then. */
  lemma CalledBeside(h: Hasher, w: World, op: Op, k: string, u: string) returns (w': World)
    requires op.MultiPut? && BucketOf(h, k) == 0 && w.threads == [Thread(Append(k, "b"), Body(Local(1, [u])))]
    ensures w' == After(h, w, Call(op)) && Enabled(h, w, Call(op)) && w'.store == w.store && Alone(h, w', 1)
    ensures w'.threads == [Thread(Append(k, "b"), Body(Local(1, [u]))), Thread(op, Waiting(0))]
  {
    w' := After(h, w, Call(op));
    FirstUnlocked(h, op);
    assert Held(h, w'.threads[0]) == [0];
  }

  /** The second operation from beginning to end, then the rest of the first. */
  lemma WholeThenRest(h: Hasher, w: World, op: Op, k: string, u: string)
    returns (es: seq<Event>, w1: World, fs: seq<Event>, w': World)
    requires w.threads == [Thread(Append(k, "b"), Body(Local(1, [u]))), Thread(op, Waiting(0))]
    requires Alone(h, w, 1) && Holds(w.store, h, map[k := u])
    ensures Run(h, w, es, w1) && Run(h, w1, fs, w') && OnlyMoves(es) && OnlyMoves(fs)
    ensures |w'.threads| == 2 && w'.threads[0].op == Append(k, "b") && w'.threads[1].op == op
    ensures w'.threads[0].phase.Done? && w'.threads[1].phase.Done? && Look(w'.store, h, k) == Some(u + "b")
  {
    hide Run, Apply, Finish, Locks, Alone, Holds;
    var m0 := map[k := u];
    es, w1 := RunWhole(h, w, 1, m0);
    var c := Apply(m0, op).0;
    assert w1.threads[0] == w.threads[0];
    fs, w' := RunToEnd(h, w1, 0, c);
    AppendFinish(k, u, c);
    LookAt(w'.store, h, c[k := u + "b"], k);
  }

  lemma LookAt(s: Store, h: Hasher, m: map<string, string>, k: string)
    requires Holds(s, h, m)
    ensures Look(s, h, k) == Find(m, k)
  {
  }

  /** Read by the `Append`, written by the `MultiPut`, written by the `Append`. */
  lemma RaceRun(h: Hasher, op: Op, k: string, u: string) returns (w: World, es: seq<Event>, w': World)
    requires op.MultiPut? && |op.keys| == |op.values| && k in op.keys && BucketOf(h, k) == 0
    ensures Initial(h, w, map[k := u]) && Run(h, w, es, w') && CallsOnly(es, Append(k, "b"), op)
    ensures |w'.threads| == 2 && w'.threads[0].op == Append(k, "b") && w'.threads[1].op == op
    ensures w'.threads[0].phase.Done? && w'.threads[1].phase.Done? && Look(w'.store, h, k) == Some(u + "b")
  {
    hide Run, After, Enabled, Holds, Look, Alone, CallsOnly, OnlyMoves;
    var s := StoreWith(h, k, u);
    w := World(s, []);
    var es1, w1 := AppendReads(h, w, k, "b", u);
    var w2 := CalledBeside(h, w1, op, k, u);
    var es2, w3, es3;
    es2, w3, es3, w' := WholeThenRest(h, w2, op, k, u);
    es := ThreeRuns(h, w, es1, w1, op, es2, w3, es3, w');
    CallsOfThree(es1, Append(k, "b"), op, es2, es3);
  }

  lemma CallsOfThree(es1: seq<Event>, first: Op, op: Op, es2: seq<Event>, es3: seq<Event>)
    requires (forall e :: e in es1 && e.Call? ==> e.op == first) && OnlyMoves(es2) && OnlyMoves(es3)
    ensures CallsOnly(es1 + ([Call(op)] + es2) + es3, first, op)
  {
  }

  /** A run, a call, and two runs more. */
  lemma ThreeRuns(h: Hasher, w: World, es1: seq<Event>, w1: World, op: Op, es2: seq<Event>, w3: World, es3: seq<Event>, w': World)
    returns (es: seq<Event>)
    requires Enabled(h, w1, Call(op))
    requires Run(h, w, es1, w1) && Run(h, After(h, w1, Call(op)), es2, w3) && Run(h, w3, es3, w')
    ensures Run(h, w, es, w') && es == es1 + ([Call(op)] + es2) + es3
  {
    hide Run, After;
    StepThenRun(h, w1, Call(op), es2, w3);
    RunConcat(h, w, es1, w1, [Call(op)] + es2, w3);
    RunConcat(h, w, es1 + ([Call(op)] + es2), w3, es3, w');
    es := es1 + ([Call(op)] + es2) + es3;
  }

  lemma AppendFinish(k: string, u: string, c: map<string, string>)
    ensures Finish(Append(k, "b"), Local(1, [u]), c).0 == c[k := u + "b"]
  {
    var op, l := Append(k, "b"), Local(1, [u]);
    assert Next(op, l) == Write(k, u + "b");
    assert Next(op, Continue(l, None)).Answer?;
  }

  lemma FirstUnlocked(h: Hasher, op: Op)
    requires op.MultiPut?
    ensures 0 !in Locks(h, op)
  {
    UptoMembers(1, BUCKET_COUNT, 0);
    assert Locks(h, op) == AllButFirst();
  }

  /** Neither order of the two operations leads to what the race left behind. */
  lemma NoOrder(h: Hasher, op: Op, k: string, last: string, u: string, w: World, log: seq<Entry>)
    requires op.MultiPut? && |op.keys| == |op.values| && k in op.keys
    requires Find(PutAll(map[], op.keys, op.values), k) == Some(last) && u == last + "a"
    requires |w.threads| == 2 && w.threads[0].op == Append(k, "b") && w.threads[1].op == op
    requires w.threads[0].phase.Done? && w.threads[1].phase.Done? && Look(w.store, h, k) == Some(u + "b")
    ensures !Explains(h, w, map[k := u], log)
  {
    var m0 := map[k := u];
    assert |u + "b"| == |last| + 2;
    if Explains(h, w, m0, log) {
      TwoEntries(h, w, m0, log);
      var m1 := Replay(m0, log[..1]);
      assert log[..1][..0] == [] && log[..2] == log && log[..1][0] == log[0];
      assert m1 == Apply(m0, log[0].op).0;
      assert Replay(m0, log) == Apply(m1, log[1].op).0;
      assert Look(w.store, h, k) == Find(Replay(m0, log), k);
      PutAllLast(m0, map[], op.keys, op.values, k);
      PutAllLast(m1, map[], op.keys, op.values, k);
    }
  }

  lemma {:induction false} AtMost(log: seq<Entry>, n: nat)
    requires forall i: nat :: i < |log| ==> log[i].t < n
    requires forall i: nat, j: nat :: i < j < |log| ==> log[i].t != log[j].t
    ensures |log| <= n
    decreases n
  {
    assert log == [] || log[0].t < n;
    if q: nat :| q < |log| && log[q].t == n - 1 {
      AtMost(log[..q] + log[q + 1..], n - 1);
    } else if n > 0 {
      AtMost(log, n - 1);
    }
  }

  /** A log that explains two finished operations has an entry for each and no more. */
  lemma TwoEntries(h: Hasher, w: World, m0: map<string, string>, log: seq<Entry>)
    requires Explains(h, w, m0, log) && |w.threads| == 2
    requires w.threads[0].phase.Done? && w.threads[1].phase.Done?
    ensures |log| == 2 && {log[0].t, log[1].t} == {0, 1}
    ensures log[0].op == w.threads[log[0].t].op && log[1].op == w.threads[log[1].t].op
    ensures Holds(w.store, h, Replay(m0, log))
  {
    hide Replay, Apply, Serial;
    var i: nat :| i < |log| && log[i] == Entry(0, w.threads[0].op, w.threads[0].phase.reply);
    var j: nat :| j < |log| && log[j] == Entry(1, w.threads[1].op, w.threads[1].phase.reply);
    AtMost(log, 2);
  }

  ghost predicate CallsOk(h: Hasher, es: seq<Event>, op: Op) {
    forall e :: e in es && e.Call? ==> e.op == op || Covered(h, e.op)
  }

  /** Exactly the covered operations are safe beside any covered operations. */
  ghost predicate AlwaysSerial(h: Hasher, op: Op) {
    forall w, es, w', m0 ::
      Initial(h, w, m0) && Run(h, w, es, w') && CallsOk(h, es, op) ==>
        exists log :: Explains(h, w', m0, log)
  }

  lemma CoveredSerial(h: Hasher, op: Op, w: World, es: seq<Event>, w': World, m0: map<string, string>)
    requires Covered(h, op) && Initial(h, w, m0) && Run(h, w, es, w') && CallsOk(h, es, op)
    ensures exists log :: Explains(h, w', m0, log)
  {
    hide Run, Explains, Initial, Covered, LogOf;
    RunIsSerial(h, w, es, w', m0);
    assert Explains(h, w', m0, LogOf(h, m0, w, [], es));
  }

  /** A run of an operation that is not covered, beside an `Append`, that no serial order explains. */
  lemma UncoveredRun(h: Hasher, op: Op)
    returns (w: World, es: seq<Event>, w': World, m0: map<string, string>)
    requires !Covered(h, op)
    ensures Initial(h, w, m0) && Run(h, w, es, w') && CallsOk(h, es, op)
    ensures forall log :: !Explains(h, w', m0, log)
  {
    hide Run, Explains, Initial, PutAll;
    var k :| k in op.keys && BucketOf(h, k) == 0;
    PutAllLast(map[], map[], op.keys, op.values, k);
    var last := PutAll(map[], op.keys, op.values)[k];
    var u := last + "a";
    m0 := map[k := u];
    w, es, w' := RaceRun(h, op, k, u);
    forall log ensures !Explains(h, w', m0, log) { NoOrder(h, op, k, last, u, w', log); }
    assert Covered(h, Append(k, "b"));
  }

  lemma CoveredExact(h: Hasher, op: Op)
    ensures AlwaysSerial(h, op) <==> Covered(h, op)
    ensures AlwaysSerial(h, op) <==>
              (op.MultiPut? && |op.keys| == |op.values| ==> forall k :: k in op.keys ==> h(k) % 60 != 0)
  {
    hide Run, Explains, Initial, Covered, CallsOk, AlwaysSerial;
    CoveredHash(h, op);
    CoveredAlways(h, op);
  }

  lemma CoveredHash(h: Hasher, op: Op)
    ensures Covered(h, op) <==>
              (op.MultiPut? && |op.keys| == |op.values| ==> forall k :: k in op.keys ==> h(k) % 60 != 0)
  {
    forall k ensures BucketOf(h, k) == 0 <==> h(k) % 60 == 0 { BucketExact(h, k, 0); }
  }

  lemma CoveredAlways(h: Hasher, op: Op)
    ensures AlwaysSerial(h, op) <==> Covered(h, op)
  {
    hide Run, Explains, Initial, Covered, CallsOk;
    if Covered(h, op) {
      forall w, es, w', m0 | Initial(h, w, m0) && Run(h, w, es, w') && CallsOk(h, es, op)
        ensures exists log :: Explains(h, w', m0, log)
      {
        CoveredSerial(h, op, w, es, w', m0);
      }
    } else {
      var w, es, w', m0 := UncoveredRun(h, op);
    }
  }
}
