/**
 Any number of threads running the operations of kvstore/kvstore/concurrent_kvstore.cpp:6-126 at once.

 An operation takes its bucket locks one by one, shared or exclusive, accesses the store one lookup,
 insertion or removal at a time, and gives the locks back.  Every interleaving of these steps has the
 effect and the answers of one serial order of the operations on a plain map: the order in which
 they came to hold all their locks.
 */
module KvThreads {
  import opened Wrappers
  import opened DbMap
  import opened KvOps

  datatype Phase =
    | Waiting(n: nat)                     // holds its first `n` locks
    | Body(l: Local)                      // holds all its locks
    | Unlocking(n: nat, reply: Reply)     // has given back its first `n` locks
    | Done(reply: Reply)

  datatype Thread = Thread(op: Op, phase: Phase)

  datatype World = World(store: Store, threads: seq<Thread>)

  function Held(h: Hasher, t: Thread): seq<nat> {
    var locks := Locks(h, t.op);
    match t.phase
    case Waiting(n) => if n <= |locks| then locks[..n] else []
    case Body(_) => locks
    case Unlocking(n, _) => if n <= |locks| then locks[n..] else []
    case Done(_) => []
  }

  /** Bucket `b` may be locked by thread `t`: shared locks exclude only exclusive ones. */
  predicate Available(h: Hasher, w: World, t: nat, b: nat)
    requires t < |w.threads|
  {
    forall u: nat :: u < |w.threads| && u != t && b in Held(h, w.threads[u]) ==>
      !Exclusive(w.threads[t].op) && !Exclusive(w.threads[u].op)
  }

  predicate CanMove(h: Hasher, w: World, t: nat) {
    t < |w.threads| &&
    match w.threads[t].phase
    case Waiting(n) => var locks := Locks(h, w.threads[t].op); n < |locks| ==> Available(h, w, t, locks[n])
    case Done(_) => false
    case _ => true
  }

  // ---- Who waits for whom ----

  /** Thread `u` has taken the `i`-th of its locks and not given it back. */
  predicate HoldsLock(h: Hasher, u: Thread, i: nat) {
    i < |Locks(h, u.op)| &&
    (u.phase.Body? || (u.phase.Waiting? && i < u.phase.n <= |Locks(h, u.op)|) || (u.phase.Unlocking? && i >= u.phase.n))
  }

  /** A lookup: its locks are shared. */
  predicate Reads(op: Op) { op.Get? || op.MultiGet? }

  /** A thread waits exactly while another has its next lock and one of the two is no lookup. */
  lemma WaitsExactly(h: Hasher, w: World, t: nat)
    requires t < |w.threads| && !w.threads[t].phase.Done?
    ensures !CanMove(h, w, t) <==>
              && w.threads[t].phase.Waiting? && w.threads[t].phase.n < |Locks(h, w.threads[t].op)|
              && exists u: nat, i: nat ::
                   && u < |w.threads| && u != t && HoldsLock(h, w.threads[u], i)
                   && Locks(h, w.threads[u].op)[i] == Locks(h, w.threads[t].op)[w.threads[t].phase.n]
                   && !(Reads(w.threads[t].op) && Reads(w.threads[u].op))
  {
    hide Locks;
    if w.threads[t].phase.Waiting? && w.threads[t].phase.n < |Locks(h, w.threads[t].op)| {
      var b := Locks(h, w.threads[t].op)[w.threads[t].phase.n];
      forall u: nat | u < |w.threads|
        ensures b in Held(h, w.threads[u]) <==> exists i: nat :: HoldsLock(h, w.threads[u], i) && Locks(h, w.threads[u].op)[i] == b
      {
        HeldAt(h, w.threads[u], b);
      }
    }
  }

  lemma HeldAt(h: Hasher, u: Thread, b: nat)
    ensures b in Held(h, u) <==> exists i: nat :: HoldsLock(h, u, i) && Locks(h, u.op)[i] == b
  {
    hide Locks;
    var locks, held := Locks(h, u.op), Held(h, u);
    if b in held {
      var j: nat :| j < |held| && held[j] == b;
      var i := if u.phase.Unlocking? then u.phase.n + j else j;
      assert HoldsLock(h, u, i) && locks[i] == b;
    }
    if i: nat :| HoldsLock(h, u, i) && locks[i] == b {
      assert held[if u.phase.Unlocking? then i - u.phase.n else i] == b;
    }
  }

  /** Two lookups never make each other wait, wherever the other one is. */
  lemma ReadersShare(h: Hasher, w: World, t: nat, u: nat, phase: Phase)
    requires t < |w.threads| && u < |w.threads| && t != u
    requires (w.threads[t].op.Get? || w.threads[t].op.MultiGet?) && (w.threads[u].op.Get? || w.threads[u].op.MultiGet?)
    ensures CanMove(h, World(w.store, w.threads[u := Thread(w.threads[u].op, phase)]), t) <==> CanMove(h, w, t)
  {
    hide Held, Locks;
    var w' := World(w.store, w.threads[u := Thread(w.threads[u].op, phase)]);
    forall b ensures Available(h, w', t, b) <==> Available(h, w, t, b) {
      assert forall x: nat :: x < |w.threads| && x != u ==> w'.threads[x] == w.threads[x];
    }
  }

  // ---- The steps of a thread ----

  function MoveThread(h: Hasher, s: Store, t: Thread): (Store, Phase) {
    match t.phase
    case Waiting(n) => (s, if n < |Locks(h, t.op)| then Waiting(n + 1) else Body(START))
    case Body(l) =>
      (match Next(t.op, l)
       case Read(k) => (s, Body(Continue(l, Look(s, h, k))))
       case Write(k, v) => (DbMap.Put(s, h, k, v), Body(Continue(l, None)))
       case Remove(k) => (Drop(s, h, k), Body(Continue(l, None)))
       case Answer(r) => (s, Unlocking(0, r)))
    case Unlocking(n, r) => (s, if n < |Locks(h, t.op)| then Unlocking(n + 1, r) else Done(r))
    case Done(r) => (s, Done(r))
  }

  datatype Event = Call(op: Op) | Move(t: nat)

  predicate Enabled(h: Hasher, w: World, e: Event) {
    match e
    case Call(_) => true
    case Move(t) => CanMove(h, w, t)
  }

  function After(h: Hasher, w: World, e: Event): World
    requires Enabled(h, w, e)
  {
    match e
    case Call(op) => World(w.store, w.threads + [Thread(op, Waiting(0))])
    case Move(t) =>
      var (s, phase) := MoveThread(h, w.store, w.threads[t]);
      World(s, w.threads[t := Thread(w.threads[t].op, phase)])
  }

  ghost predicate Run(h: Hasher, w: World, es: seq<Event>, w': World)
    decreases |es|
  {
    if es == [] then w' == w
    else Enabled(h, w, es[0]) && Run(h, After(h, w, es[0]), es[1..], w')
  }

  // ---- The serial order ----

  datatype Entry = Entry(t: nat, op: Op, reply: Reply)

  /** The map after the operations of the log, one after the other. */
  function Replay(m: map<string, string>, log: seq<Entry>): map<string, string>
    decreases |log|
  {
    if log == [] then m else Apply(Replay(m, log[..|log| - 1]), log[|log| - 1].op).0
  }

  /** Every operation in the log got the answer that the plain map gives at its place. */
  ghost predicate Serial(m: map<string, string>, log: seq<Entry>) {
    forall i: nat :: i < |log| ==> log[i].reply == Apply(Replay(m, log[..i]), log[i].op).1
  }

  /** An operation enters the log when it holds all its locks. */
  function LogAfter(h: Hasher, m0: map<string, string>, w: World, log: seq<Entry>, e: Event): seq<Entry>
    requires Enabled(h, w, e)
  {
    if e.Move? && w.threads[e.t].phase == Waiting(|Locks(h, w.threads[e.t].op)|) then
      log + [Entry(e.t, w.threads[e.t].op, Apply(Replay(m0, log), w.threads[e.t].op).1)]
    else log
  }

  function MapAfter(h: Hasher, w: World, c: map<string, string>, e: Event): map<string, string>
    requires Enabled(h, w, e)
  {
    if e.Move? && w.threads[e.t].phase.Body? then
      match Next(w.threads[e.t].op, w.threads[e.t].phase.l)
      case Write(k, v) => c[k := v]
      case Remove(k) => c - {k}
      case _ => c
    else c
  }

  // ---- The invariant ----

  ghost predicate LocksOk(h: Hasher, w: World) {
    && (forall t: nat :: t < |w.threads| ==>
          && (w.threads[t].phase.Waiting? ==> w.threads[t].phase.n <= |Locks(h, w.threads[t].op)|)
          && (w.threads[t].phase.Unlocking? ==> w.threads[t].phase.n <= |Locks(h, w.threads[t].op)|))
    && (forall t: nat, u: nat, b: nat ::
          t < |w.threads| && u < |w.threads| && t != u && b in Held(h, w.threads[t]) && b in Held(h, w.threads[u]) ==>
          !Exclusive(w.threads[t].op) && !Exclusive(w.threads[u].op))
  }

  /** The thread is in its body and holds the bucket of `k` exclusively. */
  predicate Pending(h: Hasher, t: Thread, k: string) {
    t.phase.Body? && Exclusive(t.op) && BucketOf(h, k) in Locks(h, t.op)
  }

  ghost predicate KeyOk(h: Hasher, w: World, c: map<string, string>, m: map<string, string>, k: string) {
    && (forall t: nat :: t < |w.threads| && Pending(h, w.threads[t], k) ==>
          Find(m, k) == Find(Finish(w.threads[t].op, w.threads[t].phase.l, c).0, k))
    && ((forall t: nat :: t < |w.threads| ==> !Pending(h, w.threads[t], k)) ==> Find(m, k) == Find(c, k))
  }

  /** The answer a thread has, or will come to, on the store as it is now. */
  ghost predicate ReplyOk(t: Thread, c: map<string, string>, r: Reply) {
    match t.phase
    case Waiting(_) => false
    case Body(l) => Finish(t.op, l, c).1 == r
    case Unlocking(_, r') => r' == r
    case Done(r') => r' == r
  }

  predicate Logged(log: seq<Entry>, t: nat) {
    exists i: nat :: i < |log| && log[i].t == t
  }

  ghost predicate LogOk(w: World, c: map<string, string>, log: seq<Entry>) {
    && (forall i: nat :: i < |log| ==>
          && log[i].t < |w.threads| && log[i].op == w.threads[log[i].t].op
          && ReplyOk(w.threads[log[i].t], c, log[i].reply))
    && (forall i: nat, j: nat :: i < j < |log| ==> log[i].t != log[j].t)
    && (forall t: nat :: t < |w.threads| && !w.threads[t].phase.Waiting? ==> Logged(log, t))
  }

  ghost predicate AllCovered(h: Hasher, w: World) {
    forall t: nat :: t < |w.threads| ==> Covered(h, w.threads[t].op)
  }

  ghost predicate Inv(h: Hasher, w: World, c: map<string, string>, m0: map<string, string>, log: seq<Entry>) {
    && LocksOk(h, w)
    && AllCovered(h, w)
    && Holds(w.store, h, c)
    && LogOk(w, c, log)
    && Serial(m0, log)
    && forall k :: KeyOk(h, w, c, Replay(m0, log), k)
  }

  // ---- Every step keeps the invariant ----

  lemma SerialAppend(m0: map<string, string>, log: seq<Entry>, e: Entry)
    requires Serial(m0, log) && e.reply == Apply(Replay(m0, log), e.op).1
    ensures Serial(m0, log + [e]) && Replay(m0, log + [e]) == Apply(Replay(m0, log), e.op).0
  {
    var log' := log + [e];
    assert log'[..|log|] == log;
    forall i: nat | i < |log'| ensures log'[i].reply == Apply(Replay(m0, log'[..i]), log'[i].op).1 {
      if i < |log| { assert log'[..i] == log[..i]; }
    }
  }

  function Moved(w: World, t: nat, s: Store, phase: Phase): World
    requires t < |w.threads|
  {
    World(s, w.threads[t := Thread(w.threads[t].op, phase)])
  }

  lemma CallKeeps(h: Hasher, w: World, c: map<string, string>, m0: map<string, string>, log: seq<Entry>, op: Op)
    requires Inv(h, w, c, m0, log) && Covered(h, op)
    ensures Inv(h, After(h, w, Call(op)), c, m0, log)
  {
    hide Finish, Apply, Locks, Covered, Serial, Replay, Holds;
    var w' := After(h, w, Call(op));
    assert forall t: nat :: t < |w.threads| ==> w'.threads[t] == w.threads[t];
    assert Held(h, w'.threads[|w.threads|]) == [];
    forall k ensures KeyOk(h, w', c, Replay(m0, log), k) {
      assert KeyOk(h, w, c, Replay(m0, log), k);
      if forall t: nat :: t < |w'.threads| ==> !Pending(h, w'.threads[t], k) {
        assert forall t: nat :: t < |w.threads| ==> !Pending(h, w.threads[t], k) by {
          forall t: nat | t < |w.threads| ensures !Pending(h, w.threads[t], k) {
            assert !Pending(h, w'.threads[t], k);
          }
        }
      }
    }
  }

  /** A thread that ends up with no lock but those it had, and one that was available. */
  lemma LocksKept(h: Hasher, w: World, t: nat, s: Store, phase: Phase, extra: seq<nat>)
    requires LocksOk(h, w) && t < |w.threads|
    requires var th' := Thread(w.threads[t].op, phase);
             && (phase.Waiting? ==> phase.n <= |Locks(h, th'.op)|) && (phase.Unlocking? ==> phase.n <= |Locks(h, th'.op)|)
             && (forall b :: b in Held(h, th') ==> b in Held(h, w.threads[t]) || b in extra)
    requires forall b :: b in extra ==> Available(h, w, t, b)
    ensures LocksOk(h, Moved(w, t, s, phase))
  {
    hide Locks, Held;
  }

  /** Moving between states without a body leaves the map side alone. */
  lemma QuietKeys(h: Hasher, w: World, c: map<string, string>, m: map<string, string>, t: nat, phase: Phase, k: string)
    requires t < |w.threads| && !phase.Body? && KeyOk(h, w, c, m, k)
    requires Pending(h, w.threads[t], k) ==> Find(m, k) == Find(c, k)
    ensures KeyOk(h, Moved(w, t, w.store, phase), c, m, k)
  {
    hide Finish, Locks;
    var w' := Moved(w, t, w.store, phase);
    if forall u: nat :: u < |w'.threads| ==> !Pending(h, w'.threads[u], k) {
      forall u: nat | u < |w.threads| && u != t ensures !Pending(h, w.threads[u], k) {
        assert !Pending(h, w'.threads[u], k);
      }
    }
  }

  /** Taking one more lock. */
  lemma LockKeeps(h: Hasher, w: World, c: map<string, string>, m0: map<string, string>, log: seq<Entry>, t: nat)
    requires Inv(h, w, c, m0, log) && CanMove(h, w, t)
    requires w.threads[t].phase.Waiting? && w.threads[t].phase.n < |Locks(h, w.threads[t].op)|
    ensures Inv(h, After(h, w, Move(t)), c, m0, log)
  {
    hide Finish, Apply, Locks, Covered, Serial, Replay, Holds;
    var n, locks := w.threads[t].phase.n, Locks(h, w.threads[t].op);
    var w' := Moved(w, t, w.store, Waiting(n + 1));
    forall b | b in locks[..n + 1] ensures b in locks[..n] || b in [locks[n]] {
      assert locks[..n + 1] == locks[..n] + [locks[n]];
    }
    LocksKept(h, w, t, w.store, Waiting(n + 1), [locks[n]]);
    forall k ensures KeyOk(h, w', c, Replay(m0, log), k) {
      QuietKeys(h, w, c, Replay(m0, log), t, Waiting(n + 1), k);
    }
    LogKept(h, w, c, log, t, Waiting(n + 1));
  }

  lemma LogKept(h: Hasher, w: World, c: map<string, string>, log: seq<Entry>, t: nat, phase: Phase)
    requires LogOk(w, c, log) && t < |w.threads| && w.threads[t].phase.Waiting? == phase.Waiting?
    requires forall r :: ReplyOk(w.threads[t], c, r) ==> ReplyOk(Thread(w.threads[t].op, phase), c, r)
    ensures LogOk(Moved(w, t, w.store, phase), c, log)
  {
    hide Finish, ReplyOk;
  }

  /** Giving a lock back, and being done. */
  lemma UnlockKeeps(h: Hasher, w: World, c: map<string, string>, m0: map<string, string>, log: seq<Entry>, t: nat)
    requires Inv(h, w, c, m0, log) && CanMove(h, w, t) && w.threads[t].phase.Unlocking?
    ensures Inv(h, After(h, w, Move(t)), c, m0, log)
  {
    hide Finish, Apply, Locks, Covered, Serial, Replay, Holds;
    var n, r, locks := w.threads[t].phase.n, w.threads[t].phase.reply, Locks(h, w.threads[t].op);
    var phase := if n < |locks| then Unlocking(n + 1, r) else Done(r);
    forall b | n < |locks| && b in locks[n + 1..] ensures b in locks[n..] {
      assert locks[n..] == [locks[n]] + locks[n + 1..];
    }
    LocksKept(h, w, t, w.store, phase, []);
    forall k ensures KeyOk(h, Moved(w, t, w.store, phase), c, Replay(m0, log), k) {
      QuietKeys(h, w, c, Replay(m0, log), t, phase, k);
    }
    LogKept(h, w, c, log, t, phase);
  }

  lemma AnswerIsFinish(op: Op, l: Local, c: map<string, string>)
    ensures Next(op, l).Answer? ==> Finish(op, l, c) == (c, Next(op, l).reply)
  {
  }

  lemma HeldAll(h: Hasher, op: Op, l: Local, r: Reply)
    ensures Held(h, Thread(op, Unlocking(0, r))) == Held(h, Thread(op, Body(l))) == Locks(h, op)
    ensures Held(h, Thread(op, Waiting(|Locks(h, op)|))) == Locks(h, op)
  {
    hide Locks;
  }

  lemma PendingKey(h: Hasher, w: World, c: map<string, string>, m: map<string, string>, t: nat, k: string)
    requires KeyOk(h, w, c, m, k) && t < |w.threads|
    ensures Pending(h, w.threads[t], k) ==>
              Find(m, k) == Find(Finish(w.threads[t].op, w.threads[t].phase.l, c).0, k)
  {
    hide Finish, Locks;
  }

  /** The body is over: its answer is the one foretold, and nothing of it is pending any more. */
  lemma AnswerKeeps(h: Hasher, w: World, c: map<string, string>, m0: map<string, string>, log: seq<Entry>, t: nat)
    requires Inv(h, w, c, m0, log) && CanMove(h, w, t) && w.threads[t].phase.Body?
    requires Next(w.threads[t].op, w.threads[t].phase.l).Answer?
    ensures Inv(h, After(h, w, Move(t)), c, m0, log)
  {
    hide Finish, Apply, Locks, Covered, Serial, Replay, Holds, Next, LocksOk, LogOk, KeyOk;
    var op, l := w.threads[t].op, w.threads[t].phase.l;
    var r := Next(op, l).reply;
    AnswerIsFinish(op, l, c);
    HeldAll(h, op, l, r);
    LocksKept(h, w, t, w.store, Unlocking(0, r), []);
    forall k ensures KeyOk(h, Moved(w, t, w.store, Unlocking(0, r)), c, Replay(m0, log), k) {
      PendingKey(h, w, c, Replay(m0, log), t, k);
      QuietKeys(h, w, c, Replay(m0, log), t, Unlocking(0, r), k);
    }
    LogKept(h, w, c, log, t, Unlocking(0, r));
  }

  /** The map changed at most at `k0`, which thread `t` alone may touch. */
  ghost predicate OwnChange(h: Hasher, op: Op, c: map<string, string>, c': map<string, string>, k0: string) {
    c' == c || (Exclusive(op) && BucketOf(h, k0) in Locks(h, op) && forall k :: k != k0 ==> Find(c', k) == Find(c, k))
  }

  /** What another thread is about to do is not affected. */
  lemma OthersUndisturbed(h: Hasher, w: World, c: map<string, string>, c': map<string, string>, t: nat, u: nat, k0: string)
    requires LocksOk(h, w) && AllCovered(h, w) && t < |w.threads| && u < |w.threads| && t != u
    requires w.threads[t].phase.Body? && w.threads[u].phase.Body? && OwnChange(h, w.threads[t].op, c, c', k0)
    ensures var op, l := w.threads[u].op, w.threads[u].phase.l;
            && Finish(op, l, c').1 == Finish(op, l, c).1
            && (forall k :: Find(c', k) == Find(c, k) ==> Find(Finish(op, l, c').0, k) == Find(Finish(op, l, c).0, k))
    ensures c' != c ==> BucketOf(h, k0) !in Locks(h, w.threads[u].op)
  {
    var op := w.threads[u].op;
    assert BucketOf(h, k0) in Held(h, w.threads[t]) && BucketOf(h, k0) in Held(h, w.threads[u]) ==>
             !Exclusive(w.threads[t].op);
    hide Finish, Locks, Next;
    CoveredLocks(h, op);
    forall k | Touches(op, k) ensures Find(c', k) == Find(c, k) {
      assert BucketOf(h, k) in Locks(h, op);
    }
    FinishFrame(op, w.threads[u].phase.l, c', c);
  }

  lemma BodyKey(h: Hasher, w: World, c: map<string, string>, m: map<string, string>, t: nat, s': Store, l': Local,
                c': map<string, string>, k0: string, k: string)
    requires LocksOk(h, w) && AllCovered(h, w) && KeyOk(h, w, c, m, k) && t < |w.threads| && w.threads[t].phase.Body?
    requires Finish(w.threads[t].op, l', c') == Finish(w.threads[t].op, w.threads[t].phase.l, c)
    requires OwnChange(h, w.threads[t].op, c, c', k0)
    ensures KeyOk(h, Moved(w, t, s', Body(l')), c', m, k)
  {
    hide Finish, Locks, LocksOk, AllCovered;
    var w' := Moved(w, t, s', Body(l'));
    forall u: nat | u < |w'.threads| && Pending(h, w'.threads[u], k)
      ensures Find(m, k) == Find(Finish(w'.threads[u].op, w'.threads[u].phase.l, c').0, k)
    {
      assert Pending(h, w.threads[u], k);
      if u != t { OthersUndisturbed(h, w, c, c', t, u, k0); }
    }
    if forall u: nat :: u < |w'.threads| ==> !Pending(h, w'.threads[u], k) {
      forall u: nat | u < |w.threads| ensures !Pending(h, w.threads[u], k) {
        assert !Pending(h, w'.threads[u], k);
      }
    }
  }

  lemma BodyLog(h: Hasher, w: World, c: map<string, string>, log: seq<Entry>, t: nat, s': Store, l': Local,
                c': map<string, string>, k0: string)
    requires LocksOk(h, w) && AllCovered(h, w) && LogOk(w, c, log) && t < |w.threads| && w.threads[t].phase.Body?
    requires Finish(w.threads[t].op, l', c') == Finish(w.threads[t].op, w.threads[t].phase.l, c)
    requires OwnChange(h, w.threads[t].op, c, c', k0)
    ensures LogOk(Moved(w, t, s', Body(l')), c', log)
  {
    hide Finish, Locks, LocksOk, AllCovered, OwnChange;
    var w' := Moved(w, t, s', Body(l'));
    forall i: nat | i < |log| ensures ReplyOk(w'.threads[log[i].t], c', log[i].reply) {
      var u := log[i].t;
      assert ReplyOk(w.threads[u], c, log[i].reply);
      if u != t && w.threads[u].phase.Body? { OthersUndisturbed(h, w, c, c', t, u, k0); }
    }
  }

  /** One access of a body to the store. */
  lemma BodyKeeps(h: Hasher, w: World, c: map<string, string>, m0: map<string, string>, log: seq<Entry>, t: nat,
                  s': Store, l': Local, c': map<string, string>, k0: string)
    requires Inv(h, w, c, m0, log) && t < |w.threads| && w.threads[t].phase.Body? && Holds(s', h, c')
    requires Finish(w.threads[t].op, l', c') == Finish(w.threads[t].op, w.threads[t].phase.l, c)
    requires OwnChange(h, w.threads[t].op, c, c', k0)
    ensures Inv(h, Moved(w, t, s', Body(l')), c', m0, log)
  {
    hide Finish, Apply, Locks, Covered, Serial, Replay, Holds, OwnChange;
    LocksKept(h, w, t, s', Body(l'), []);
    forall k ensures KeyOk(h, Moved(w, t, s', Body(l')), c', Replay(m0, log), k) {
      BodyKey(h, w, c, Replay(m0, log), t, s', l', c', k0, k);
    }
    BodyLog(h, w, c, log, t, s', l', c', k0);
  }

  lemma AccessKeeps(h: Hasher, w: World, c: map<string, string>, m0: map<string, string>, log: seq<Entry>, t: nat)
    requires Inv(h, w, c, m0, log) && CanMove(h, w, t) && w.threads[t].phase.Body?
    requires !Next(w.threads[t].op, w.threads[t].phase.l).Answer?
    ensures Inv(h, After(h, w, Move(t)), MapAfter(h, w, c, Move(t)), m0, log)
  {
    var op, l := w.threads[t].op, w.threads[t].phase.l;
    var c' := MapAfter(h, w, c, Move(t));
    var (s', phase) := MoveThread(h, w.store, w.threads[t]);
    CoveredLocks(h, op);
    TouchedNext(op, l);
    hide Locks, Apply, Serial, Replay, LogOk, LocksOk, KeyOk;
    match Next(op, l) {
      case Read(k) =>
        assert Look(w.store, h, k) == Find(c, k);
        BodyKeeps(h, w, c, m0, log, t, s', phase.l, c', k);
      case Write(k, v) =>
        PutHolds(w.store, h, c, k, v);
        assert BucketOf(h, k) in Locks(h, op);
        BodyKeeps(h, w, c, m0, log, t, s', phase.l, c', k);
      case Remove(k) =>
        DropHolds(w.store, h, c, k);
        assert BucketOf(h, k) in Locks(h, op);
        BodyKeeps(h, w, c, m0, log, t, s', phase.l, c', k);
    }
  }

  lemma TouchedNext(op: Op, l: Local)
    ensures match Next(op, l)
            case Read(k) => Touches(op, k)
            case Write(k, _) => Touches(op, k) && Exclusive(op)
            case Remove(k) => Touches(op, k) && Exclusive(op)
            case Answer(_) => true
  {
  }

  /** Where a thread holds the bucket's lock, nobody else has a write pending. */
  lemma NobodyPending(h: Hasher, w: World, c: map<string, string>, m: map<string, string>, t: nat, k: string)
    requires LocksOk(h, w) && t < |w.threads| && w.threads[t].phase == Waiting(|Locks(h, w.threads[t].op)|)
    requires KeyOk(h, w, c, m, k) && BucketOf(h, k) in Locks(h, w.threads[t].op)
    ensures Find(m, k) == Find(c, k)
    ensures forall u: nat :: u < |w.threads| ==> !Pending(h, w.threads[u], k)
  {
    hide Locks, Finish;
    assert BucketOf(h, k) in Held(h, w.threads[t]);
    forall u: nat | u < |w.threads| ensures !Pending(h, w.threads[u], k) {
      if u != t && w.threads[u].phase.Body? && BucketOf(h, k) in Locks(h, w.threads[u].op) {
        assert BucketOf(h, k) in Held(h, w.threads[u]);
      }
    }
  }

  lemma EnterKey(h: Hasher, w: World, c: map<string, string>, m: map<string, string>, t: nat, k: string)
    requires LocksOk(h, w) && t < |w.threads| && w.threads[t].phase == Waiting(|Locks(h, w.threads[t].op)|)
    requires Covered(h, w.threads[t].op) && KeyOk(h, w, c, m, k)
    requires forall k :: Touches(w.threads[t].op, k) ==> Find(c, k) == Find(m, k)
    ensures KeyOk(h, Moved(w, t, w.store, Body(START)), c, Finish(w.threads[t].op, START, m).0, k)
  {
    hide Locks, Finish, LocksOk, Covered, Touches, Held;
    var op := w.threads[t].op;
    var w' := Moved(w, t, w.store, Body(START));
    CoveredLocks(h, op);
    FinishFrame(op, START, c, m);
    FinishFrame(op, START, m, m);
    if BucketOf(h, k) in Locks(h, op) { NobodyPending(h, w, c, m, t, k); }
    forall u: nat | u < |w.threads| && u != t ensures Pending(h, w'.threads[u], k) <==> Pending(h, w.threads[u], k) {}
    if forall u: nat :: u < |w'.threads| ==> !Pending(h, w'.threads[u], k) {
      forall u: nat | u < |w.threads| ensures !Pending(h, w.threads[u], k) {
        assert !Pending(h, w'.threads[u], k);
      }
      assert !Pending(h, w'.threads[t], k);
    }
  }

  lemma EnterLog(h: Hasher, w: World, c: map<string, string>, log: seq<Entry>, t: nat, r: Reply)
    requires LogOk(w, c, log) && t < |w.threads| && w.threads[t].phase.Waiting?
    requires Finish(w.threads[t].op, START, c).1 == r
    ensures LogOk(Moved(w, t, w.store, Body(START)), c, log + [Entry(t, w.threads[t].op, r)])
  {
    hide Finish;
    var w', log' := Moved(w, t, w.store, Body(START)), log + [Entry(t, w.threads[t].op, r)];
    assert log'[|log|].t == t;
    forall u: nat | u < |w'.threads| && !w'.threads[u].phase.Waiting? ensures Logged(log', u) {
      if u != t {
        assert Logged(log, u);
        var i: nat :| i < |log| && log[i].t == u;
        assert log'[i].t == u;
      }
    }
    forall i: nat | i < |log| ensures log[i].t != t {
      assert ReplyOk(w.threads[log[i].t], c, log[i].reply);
    }
  }

  /** Holding all its locks, the operation takes its place in the serial order. */
  lemma EnterKeeps(h: Hasher, w: World, c: map<string, string>, m0: map<string, string>, log: seq<Entry>, t: nat)
    requires Inv(h, w, c, m0, log) && t < |w.threads| && w.threads[t].phase == Waiting(|Locks(h, w.threads[t].op)|)
    ensures Inv(h, After(h, w, Move(t)), c, m0, LogAfter(h, m0, w, log, Move(t)))
  {
    hide Finish, Apply, Locks, Covered, Serial, Replay, Holds, LogOk, KeyOk, LocksOk, Touches, Held;
    var op, m := w.threads[t].op, Replay(m0, log);
    CoveredLocks(h, op);
    HeldAll(h, op, START, Reply(true, []));
    forall k | Touches(op, k) ensures Find(c, k) == Find(m, k) { NobodyPending(h, w, c, m, t, k); }
    BodyIsApply(op, m);
    FinishFrame(op, START, c, m);
    var e := Entry(t, op, Apply(m, op).1);
    SerialAppend(m0, log, e);
    EnterLog(h, w, c, log, t, e.reply);
    LocksKept(h, w, t, w.store, Body(START), []);
    var w' := Moved(w, t, w.store, Body(START));
    forall k ensures KeyOk(h, w', c, Replay(m0, log + [e]), k) { EnterKey(h, w, c, m, t, k); }
  }

  lemma StepKeeps(h: Hasher, w: World, c: map<string, string>, m0: map<string, string>, log: seq<Entry>, e: Event)
    requires Inv(h, w, c, m0, log) && Enabled(h, w, e) && (e.Call? ==> Covered(h, e.op))
    ensures Inv(h, After(h, w, e), MapAfter(h, w, c, e), m0, LogAfter(h, m0, w, log, e))
  {
    hide Inv, Apply, Locks, Finish;
    match e
    case Call(op) => CallKeeps(h, w, c, m0, log, op);
    case Move(t) =>
      match w.threads[t].phase {
        case Waiting(n) =>
          PhaseBound(h, w, c, m0, log, t);
          if n < |Locks(h, w.threads[t].op)| {
            LockKeeps(h, w, c, m0, log, t);
          } else {
            EnterKeeps(h, w, c, m0, log, t);
          }
        case Body(l) =>
          if Next(w.threads[t].op, l).Answer? {
            AnswerKeeps(h, w, c, m0, log, t);
          } else {
            AccessKeeps(h, w, c, m0, log, t);
          }
        case Unlocking(_, _) => UnlockKeeps(h, w, c, m0, log, t);
      }
  }

  lemma PhaseBound(h: Hasher, w: World, c: map<string, string>, m0: map<string, string>, log: seq<Entry>, t: nat)
    requires Inv(h, w, c, m0, log) && t < |w.threads| && w.threads[t].phase.Waiting?
    ensures w.threads[t].phase.n <= |Locks(h, w.threads[t].op)|
  {
  }

  // ---- Whole runs ----

  ghost predicate CallsCovered(h: Hasher, es: seq<Event>) {
    forall e :: e in es && e.Call? ==> Covered(h, e.op)
  }

  /** No one has begun, and the store holds `m0`. */
  ghost predicate Initial(h: Hasher, w: World, m0: map<string, string>) {
    w.threads == [] && Holds(w.store, h, m0)
  }

  ghost predicate Extends(log: seq<Entry>, log': seq<Entry>) {
    |log| <= |log'| && log'[..|log|] == log
  }

  lemma LogGrows(h: Hasher, m0: map<string, string>, w: World, log: seq<Entry>, e: Event, log': seq<Entry>)
    requires Enabled(h, w, e) && Extends(LogAfter(h, m0, w, log, e), log')
    ensures Extends(log, log')
  {
    hide Apply, Locks, Enabled, Replay;
    var log1 := LogAfter(h, m0, w, log, e);
    assert log1[..|log|] == log;
    assert log'[..|log|] == log1[..|log|];
  }

  /** The state after a run, and the log it has written. */
  function Reached(h: Hasher, w: World, es: seq<Event>): World
    decreases |es|
  {
    if es == [] || !Enabled(h, w, es[0]) then w else Reached(h, After(h, w, es[0]), es[1..])
  }

  function LogOf(h: Hasher, m0: map<string, string>, w: World, log: seq<Entry>, es: seq<Event>): seq<Entry>
    decreases |es|
  {
    if es == [] || !Enabled(h, w, es[0]) then log
    else LogOf(h, m0, After(h, w, es[0]), LogAfter(h, m0, w, log, es[0]), es[1..])
  }

  lemma {:induction false} RunKeeps(h: Hasher, w: World, es: seq<Event>, w': World, c: map<string, string>,
                                    m0: map<string, string>, log: seq<Entry>)
    returns (c': map<string, string>)
    requires Inv(h, w, c, m0, log) && Run(h, w, es, w') && CallsCovered(h, es)
    ensures Inv(h, w', c', m0, LogOf(h, m0, w, log, es)) && Extends(log, LogOf(h, m0, w, log, es))
    decreases |es|
  {
    c' := c;
    if es != [] {
      hide Inv, After, MapAfter, Apply, Locks, Covered, LogAfter, Enabled, Extends;
      assert es[0] in es;
      StepKeeps(h, w, c, m0, log, es[0]);
      forall e | e in es[1..] && e.Call? ensures Covered(h, e.op) { assert e in es; }
      var log1 := LogAfter(h, m0, w, log, es[0]);
      c' := RunKeeps(h, After(h, w, es[0]), es[1..], w', MapAfter(h, w, c, es[0]), m0, log1);
      LogGrows(h, m0, w, log, es[0], LogOf(h, m0, w, log, es));
    } else {
      assert log[..|log|] == log;
    }
  }

  lemma CutStep(es: seq<Event>, k: nat)
    requires 0 < k <= |es|
    ensures es[..k] != [] && es[..k][0] == es[0] && es[..k][1..] == es[1..][..k - 1] && es[1..][k - 1..] == es[k..]
  {
  }

  /** A run may be cut in two anywhere. */
  lemma {:induction false} RunCut(h: Hasher, w: World, es: seq<Event>, w': World, m0: map<string, string>, log: seq<Entry>, k: nat)
    requires Run(h, w, es, w') && k <= |es|
    ensures var w1 := Reached(h, w, es[..k]);
            && Run(h, w, es[..k], w1) && Run(h, w1, es[k..], w')
            && LogOf(h, m0, w, log, es) == LogOf(h, m0, w1, LogOf(h, m0, w, log, es[..k]), es[k..])
    decreases k
  {
    hide Enabled, After, LogAfter;
    if k == 0 {
      assert es[..0] == [] && es[0..] == es;
    } else {
      CutStep(es, k);
      RunCut(h, After(h, w, es[0]), es[1..], w', m0, LogAfter(h, m0, w, log, es[0]), k - 1);
    }
  }

  /** What a run has done is explained by a serial order: every finished operation is in it once,
      with its answer, and when all are finished the store holds the map it leads to. */
  ghost predicate Explains(h: Hasher, w: World, m0: map<string, string>, log: seq<Entry>) {
    && Serial(m0, log)
    && (forall i: nat :: i < |log| ==> log[i].t < |w.threads| && log[i].op == w.threads[log[i].t].op)
    && (forall i: nat, j: nat :: i < j < |log| ==> log[i].t != log[j].t)
    && (forall t: nat :: t < |w.threads| && w.threads[t].phase.Done? ==>
          exists i: nat :: i < |log| && log[i] == Entry(t, w.threads[t].op, w.threads[t].phase.reply))
    && ((forall t: nat :: t < |w.threads| ==> w.threads[t].phase.Done?) ==> Holds(w.store, h, Replay(m0, log)))
  }

  lemma InvExplains(h: Hasher, w: World, c: map<string, string>, m0: map<string, string>, log: seq<Entry>)
    requires Inv(h, w, c, m0, log)
    ensures Explains(h, w, m0, log)
  {
    hide Finish, Apply, Locks, Covered, Serial, Replay;
    forall t: nat | t < |w.threads| && w.threads[t].phase.Done?
      ensures exists i: nat :: i < |log| && log[i] == Entry(t, w.threads[t].op, w.threads[t].phase.reply)
    {
      assert Logged(log, t);
      var i: nat :| i < |log| && log[i].t == t;
      assert ReplyOk(w.threads[t], c, log[i].reply);
      assert log[i] == Entry(t, w.threads[t].op, w.threads[t].phase.reply);
    }
    if forall t: nat :: t < |w.threads| ==> w.threads[t].phase.Done? {
      var m := Replay(m0, log);
      forall k ensures Look(w.store, h, k) == Find(m, k) {
        assert KeyOk(h, w, c, m, k);
        assert Look(w.store, h, k) == Find(c, k);
      }
    }
  }

  lemma StartOk(h: Hasher, w: World, m0: map<string, string>)
    requires Initial(h, w, m0)
    ensures Inv(h, w, m0, m0, [])
  {
  }

  /** Serializability of every run in which no `MultiPut` writes to the first bucket. */
  lemma RunIsSerial(h: Hasher, w: World, es: seq<Event>, w': World, m0: map<string, string>)
    requires Initial(h, w, m0) && Run(h, w, es, w') && CallsCovered(h, es)
    ensures Explains(h, w', m0, LogOf(h, m0, w, [], es))
  {
    hide Inv, Run, Explains, Initial, LogOf;
    StartOk(h, w, m0);
    var c := RunKeeps(h, w, es, w', m0, m0, []);
    InvExplains(h, w', c, m0, LogOf(h, m0, w, [], es));
  }

  /** At `w` the one operation was finished and the other not yet called. */
  predicate FinishedBefore(w: World, a: Entry, b: Entry) {
    a.t < |w.threads| <= b.t && w.threads[a.t].phase.Done?
  }

  /** The order of the log respects what happened before `w`. */
  ghost predicate InTime(w: World, log: seq<Entry>) {
    forall i: nat, j: nat :: i < |log| && j < |log| && FinishedBefore(w, log[i], log[j]) ==> i < j
  }

  /** Linearizability: the one serial order that explains the run respects real time throughout.  At
      every point of the run, what was finished before another operation was called comes before it. */
  lemma RunIsLinear(h: Hasher, w: World, es: seq<Event>, w': World, m0: map<string, string>)
    requires Initial(h, w, m0) && Run(h, w, es, w') && CallsCovered(h, es)
    ensures var log := LogOf(h, m0, w, [], es);
            && Explains(h, w', m0, log)
            && forall k: nat :: k <= |es| ==> InTime(Reached(h, w, es[..k]), log)
  {
    hide Inv, Run, Explains, Initial, LogOf, Reached, InTime;
    RunIsSerial(h, w, es, w', m0);
    forall k: nat | k <= |es| ensures InTime(Reached(h, w, es[..k]), LogOf(h, m0, w, [], es)) {
      CutInTime(h, w, es, w', m0, k);
    }
  }

  lemma CutInTime(h: Hasher, w: World, es: seq<Event>, w': World, m0: map<string, string>, k: nat)
    requires Initial(h, w, m0) && Run(h, w, es, w') && CallsCovered(h, es) && k <= |es|
    ensures InTime(Reached(h, w, es[..k]), LogOf(h, m0, w, [], es))
  {
    hide Inv, Run, Initial, LogOf, Reached, Covered, FinishedBefore;
    StartOk(h, w, m0);
    RunCut(h, w, es, w', m0, [], k);
    var w1 := Reached(h, w, es[..k]);
    var log1, log := LogOf(h, m0, w, [], es[..k]), LogOf(h, m0, w, [], es);
    var c1 := RunKeeps(h, w, es[..k], w1, m0, m0, []);
    var c2 := RunKeeps(h, w1, es[k..], w', c1, m0, log1);
    forall i: nat, j: nat | i < |log| && j < |log| && FinishedBefore(w1, log[i], log[j]) ensures i < j {
      OrderKept(h, w1, c1, log1, w', c2, log, m0, i, j);
    }
  }

  lemma OrderKept(h: Hasher, w1: World, c1: map<string, string>, log1: seq<Entry>, w2: World, c2: map<string, string>,
                  log: seq<Entry>, m0: map<string, string>, i: nat, j: nat)
    requires Inv(h, w1, c1, m0, log1) && Inv(h, w2, c2, m0, log) && Extends(log1, log)
    requires i < |log| && j < |log| && FinishedBefore(w1, log[i], log[j])
    ensures i < j
  {
    hide Inv;
    DoneLogged(h, w1, c1, m0, log1);
    assert Logged(log1, log[i].t);
    var k: nat :| k < |log1| && log1[k].t == log[i].t;
    assert forall q: nat :: q < |log1| ==> log[..|log1|][q] == log1[q];
    EntriesDistinct(h, w2, c2, m0, log, i, k);
  }

  lemma DoneLogged(h: Hasher, w: World, c: map<string, string>, m0: map<string, string>, log: seq<Entry>)
    requires Inv(h, w, c, m0, log)
    ensures forall i: nat :: i < |log| ==> log[i].t < |w.threads|
    ensures forall t: nat :: t < |w.threads| && w.threads[t].phase.Done? ==> Logged(log, t)
  {
  }

  lemma EntriesDistinct(h: Hasher, w: World, c: map<string, string>, m0: map<string, string>, log: seq<Entry>, i: nat, j: nat)
    requires Inv(h, w, c, m0, log) && i < |log| && j < |log| && log[i].t == log[j].t
    ensures i == j
  {
  }

  // ---- No deadlock ----

  lemma StepLocks(h: Hasher, w: World, e: Event)
    requires LocksOk(h, w) && Enabled(h, w, e)
    ensures LocksOk(h, After(h, w, e))
  {
    hide Finish, Apply, Locks, Next;
    match e
    case Call(op) =>
      var w' := After(h, w, e);
      assert forall t: nat :: t < |w.threads| ==> w'.threads[t] == w.threads[t];
      assert Held(h, w'.threads[|w.threads|]) == [];
    case Move(t) =>
      var (s, phase) := MoveThread(h, w.store, w.threads[t]);
      var locks := Locks(h, w.threads[t].op);
      match w.threads[t].phase {
        case Waiting(n) =>
          if n < |locks| {
            assert locks[..n + 1] == locks[..n] + [locks[n]];
            LocksKept(h, w, t, s, phase, [locks[n]]);
          } else {
            assert locks[..n] == locks;
            LocksKept(h, w, t, s, phase, []);
          }
        case Body(l) => LocksKept(h, w, t, s, phase, []);
        case Unlocking(n, _) =>
          if n < |locks| { assert locks[n..] == [locks[n]] + locks[n + 1..]; }
          LocksKept(h, w, t, s, phase, []);
      }
  }

  /** The thread waits for a lock. */
  predicate Wants(h: Hasher, t: Thread) {
    t.phase.Waiting? && t.phase.n < |Locks(h, t.op)|
  }

  function Wanted(h: Hasher, t: Thread): nat
    requires Wants(h, t)
  {
    Locks(h, t.op)[t.phase.n]
  }

  /** Of the first `n` threads, one that waits for the highest bucket. */
  lemma {:induction false} HighestWanted(h: Hasher, w: World, n: nat) returns (t: nat)
    requires n <= |w.threads| && exists u: nat :: u < n && Wants(h, w.threads[u])
    ensures t < n && Wants(h, w.threads[t])
    ensures forall u: nat :: u < n && Wants(h, w.threads[u]) ==> Wanted(h, w.threads[u]) <= Wanted(h, w.threads[t])
    decreases n
  {
    hide Wants, Wanted;
    if exists u: nat :: u < n - 1 && Wants(h, w.threads[u]) {
      t := HighestWanted(h, w, n - 1);
      if Wants(h, w.threads[n - 1]) && Wanted(h, w.threads[n - 1]) > Wanted(h, w.threads[t]) { t := n - 1; }
    } else {
      t := n - 1;
    }
  }

  /** While some operation is not finished, some thread can go on. */
  lemma SomeoneMoves(h: Hasher, w: World)
    requires LocksOk(h, w) && exists t: nat :: t < |w.threads| && !w.threads[t].phase.Done?
    ensures exists t: nat :: CanMove(h, w, t)
  {
    if t: nat :| t < |w.threads| && !w.threads[t].phase.Done? && !Wants(h, w.threads[t]) {
      assert CanMove(h, w, t);
    } else {
      var v: nat :| v < |w.threads| && !w.threads[v].phase.Done?;
      assert Wants(h, w.threads[v]);
      var t := HighestWanted(h, w, |w.threads|);
      HighestMoves(h, w, t);
    }
  }

  /** All locks a waiting thread has are lower than the one it wants. */
  lemma HeldIsLower(h: Hasher, t: Thread, b: nat)
    requires Wants(h, t)
    ensures b in Held(h, t) ==> b < Wanted(h, t)
  {
    hide Locks;
    LocksAscend(h, t.op);
    var locks, n := Locks(h, t.op), t.phase.n;
    assert Held(h, t) == locks[..n] && Wanted(h, t) == locks[n];
    hide Held, Wanted, Wants;
    forall i: nat | i < n ensures locks[..n][i] < locks[n] {
      assert locks[i] < locks[n];
    }
  }

  lemma HighestMoves(h: Hasher, w: World, t: nat)
    requires t < |w.threads| && Wants(h, w.threads[t])
    requires forall u: nat :: u < |w.threads| ==> w.threads[u].phase.Done? || Wants(h, w.threads[u])
    requires forall u: nat :: u < |w.threads| && Wants(h, w.threads[u]) ==>
               Wanted(h, w.threads[u]) <= Wanted(h, w.threads[t])
    ensures CanMove(h, w, t)
  {
    hide Locks;
    var b := Wanted(h, w.threads[t]);
    forall u: nat | u < |w.threads| && u != t ensures b !in Held(h, w.threads[u]) {
      if Wants(h, w.threads[u]) {
        HeldIsLower(h, w.threads[u], b);
      }
    }
  }

  /** No reachable state is deadlocked, whatever operations are called. */
  lemma {:induction false} NoDeadlock(h: Hasher, w: World, es: seq<Event>, w': World)
    requires LocksOk(h, w) && Run(h, w, es, w')
    ensures LocksOk(h, w')
    ensures (exists t: nat :: t < |w'.threads| && !w'.threads[t].phase.Done?) ==> exists t: nat :: CanMove(h, w', t)
    decreases |es|
  {
    hide LocksOk, CanMove;
    if es != [] {
      StepLocks(h, w, es[0]);
      NoDeadlock(h, After(h, w, es[0]), es[1..], w');
    } else if exists t: nat :: t < |w'.threads| && !w'.threads[t].phase.Done? {
      SomeoneMoves(h, w');
    }
  }
}
