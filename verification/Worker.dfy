/**
 * The worker of a blueprint: one thread that takes messages from a queue
 * (src/nfvcl/blueprints_ng/lcm/blueprint_worker.py).
 */
module Worker {
  import opened Wrappers
  import opened Seqs

  datatype Kind = Day0 | Day2 | Day2ByName | Stop

  /** The function to call when the message is done; it may raise. */
  datatype Callback = Callback(id: nat, raises: bool)

  /** The payload is None for a day-2 call without a body. */
  datatype Message = Message(kind: Kind, path: string, payload: Option<string>, callback: Option<Callback>)

  datatype Operation = Idle | Deploying | RunningDay2 | Destroying

  datatype Status = Status(operation: Operation, error: bool)

  /** What the database holds: the status and the history of day-2 payloads. */
  datatype Saved = Saved(status: Status, calls: seq<string>)

  datatype Reply = Done | Failed | Gone

  datatype Fire = Fire(id: nat, reply: Reply)

  /** An operation that was run on the blueprint for a message, and whether it succeeded. */
  datatype Performed = Performed(message: Message, ok: bool)

  /** A message taken from the queue, whether its operation succeeded, and what was left behind. */
  datatype Handled = Handled(message: Message, ok: bool, status: Status, saved: Saved)

  datatype Ending = Waiting | Stopped | Died

  // ----------------------------------------------------------------- properties

  /** The message ends the thread by an exception: its callback raises or destroying fails. */
  predicate Kills(m: Message, ok: bool) {
    (m.kind.Stop? && !ok) || (m.callback.Some? && m.callback.value.raises)
  }

  predicate Last(h: Handled) {
    h.message.kind.Stop? || Kills(h.message, h.ok)
  }

  /** The calls of the callback: one, but two when the first raises and is taken for a failure. */
  function FiredBy(m: Message, ok: bool): seq<Fire> {
    match m.callback
    case None => []
    case Some(c) =>
      if m.kind.Stop? then (if ok then [Fire(c.id, Gone)] else [])
      else if !ok then [Fire(c.id, Failed)]
      else if c.raises then [Fire(c.id, Done), Fire(c.id, Failed)]
      else [Fire(c.id, Done)]
  }

  function FiredAll(hs: seq<Handled>): seq<Fire> {
    if hs == [] then [] else FiredAll(hs[..|hs| - 1]) + FiredBy(hs[|hs| - 1].message, hs[|hs| - 1].ok)
  }

  function Messages(hs: seq<Handled>): seq<Message> {
    seq(|hs|, i requires 0 <= i < |hs| => hs[i].message)
  }

  function Outcomes(hs: seq<Handled>): seq<Performed> {
    seq(|hs|, i requires 0 <= i < |hs| => Performed(hs[i].message, hs[i].ok))
  }

  /** What one callback was told, in order. */
  function Replies(fs: seq<Fire>, id: nat): seq<Reply> {
    if fs == [] then []
    else Replies(fs[..|fs| - 1], id) + if fs[|fs| - 1].id == id then [fs[|fs| - 1].reply] else []
  }

  /**
   * The callback of a message is told Gone iff a STOP has destroyed the blueprint, Done iff another
   * operation succeeded, and Failed iff it failed, or succeeded and the callback raised on Done.
   */
  ghost predicate Told(fs: seq<Fire>, m: Message, ok: bool) {
    match m.callback
    case None => true
    case Some(c) =>
      Replies(fs, c.id) == if m.kind.Stop? then (if ok then [Gone] else [])
                           else if !ok then [Failed]
                           else if c.raises then [Done, Failed]
                           else [Done]
  }

  /** The payload that the history of day-2 calls takes, even when the call then fails. */
  function Recorded(m: Message): seq<string> {
    if m.kind.Day2? && m.payload.Some? then [m.payload.value] else []
  }

  function Payloads(hs: seq<Handled>): seq<string> {
    if hs == [] then [] else Payloads(hs[..|hs| - 1]) + Recorded(hs[|hs| - 1].message)
  }

  /** What a message that does not end the thread leaves: it is saved, and idle iff it succeeded. */
  predicate Settled(h: Handled) {
    && h.saved.status == h.status
    && h.status.error == !h.ok
    && h.status.operation == (if h.ok then Idle else if h.message.kind.Day0? then Deploying else RunningDay2)
  }

  class BlueprintWorker {
    var queue: seq<Message>
    var status: Status
    var calls: seq<string>
    var saved: Saved
    var fired: seq<Fire>
    var performed: seq<Performed>
    ghost var log: seq<Handled>

    constructor ()
      ensures queue == [] && fired == [] && performed == [] && log == [] && calls == []
      ensures saved == Saved(status, calls)
    {
      queue, status, calls, fired, performed, log := [], Status(Idle, false), [], [], [], [];
      saved := Saved(Status(Idle, false), []);
    }

    method PutMessage(m: Message)
      modifies this`queue
      ensures queue == old(queue) + [m]
    {
      queue := queue + [m];
    }

    method ToDb()
      modifies this`saved
      ensures saved == Saved(status, calls)
    {
      saved := Saved(status, calls);
    }

    /** Calls the callback, if there is one; false when it raises. */
    method Reply(m: Message, reply: Reply) returns (ok: bool)
      modifies this`fired
      ensures m.callback.None? ==> ok && fired == old(fired)
      ensures m.callback.Some? ==> ok == !m.callback.value.raises
      ensures m.callback.Some? ==> fired == old(fired) + [Fire(m.callback.value.id, reply)]
    {
      ok := true;
      if m.callback.Some? {
        fired := fired + [Fire(m.callback.value.id, reply)];
        ok := !m.callback.value.raises;
      }
    }

    /** The operation of the blueprint: create, a day-2 function or destroy. */
    method Operate(m: Message) returns (ok: bool)
      modifies this`performed
      ensures performed == old(performed) + [Performed(m, ok)]
    {
      ok := *;
      performed := performed + [Performed(m, ok)];
    }

    /**
     * A DAY0 or DAY2 message; `handled` says whether its operation succeeded, `alive` that nothing
     * escaped. The callback is told that outcome; one that raises when told a success is told a failure.
     */
    method HandleOperation(m: Message) returns (handled: bool, alive: bool)
      requires !m.kind.Stop?
      modifies this`status, this`calls, this`saved, this`fired, this`performed
      ensures performed == old(performed) + [Performed(m, handled)]
      ensures m.callback.None? ==> fired == old(fired)
      ensures m.callback.Some? ==>
                && var c := m.callback.value;
                && (!handled ==> fired == old(fired) + [Fire(c.id, Failed)])
                && (handled && !c.raises ==> fired == old(fired) + [Fire(c.id, Done)])
                && (handled && c.raises ==> fired == old(fired) + [Fire(c.id, Done), Fire(c.id, Failed)])
      ensures fired == old(fired) + FiredBy(m, handled)
      ensures calls == old(calls) + Recorded(m)
      ensures alive == !Kills(m, handled)
      ensures alive ==> Settled(Handled(m, handled, status, saved)) && saved.calls == calls
      ensures !alive ==> status.error && saved.status == status.(error := false) && saved.calls == old(calls)
    {
      status := Status(if m.kind.Day0? then Deploying else RunningDay2, false);
      ToDb();
      if m.kind.Day2? && m.payload.Some? { calls := calls + [m.payload.value]; }
      handled := Operate(m);
      if handled {
        alive := Reply(m, Done);
        if alive {
          status := Status(Idle, false);
          ToDb();
          return;
        }
      }
      status := status.(error := true);
      alive := Reply(m, Failed);
      if alive { ToDb(); }
    }

    /** A STOP message: its callback is called with the id once the blueprint is destroyed, else not at all. */
    method HandleStop(m: Message) returns (destroyed: bool, alive: bool)
      requires m.kind.Stop?
      modifies this`status, this`fired, this`performed
      ensures performed == old(performed) + [Performed(m, destroyed)]
      ensures fired == if m.callback.Some? && destroyed then old(fired) + [Fire(m.callback.value.id, Gone)]
                       else old(fired)
      ensures fired == old(fired) + FiredBy(m, destroyed)
      ensures alive == !Kills(m, destroyed)
      ensures status == Status(Destroying, false)
    {
      status := Status(Destroying, false);
      destroyed := Operate(m);
      if !destroyed { return destroyed, false; }
      alive := Reply(m, Gone);
    }

    /** The next message of the queue. */
    method HandleNext() returns (end: Ending, ghost h: Handled)
      requires queue != []
      modifies this
      ensures log == old(log) + [h] && old(queue) == [h.message] + queue
      ensures performed == old(performed) + [Performed(h.message, h.ok)]
      ensures fired == old(fired) + FiredBy(h.message, h.ok) && calls == old(calls) + Recorded(h.message)
      ensures end == EndOf(h)
      ensures !Last(h) ==> Settled(h) && h.saved.calls == calls
    {
      var m := queue[0];
      queue := queue[1..];
      var ok, alive;
      if m.kind.Stop? {
        ok, alive := HandleStop(m);
        end := if alive then Stopped else Died;
      } else {
        ok, alive := HandleOperation(m);
        end := if alive then Waiting else Died;
      }
      h := Handled(m, ok, status, saved);
      log := log + [h];
    }

    /**
     * The thread, until it has stopped, has died or waits for a message. Messages leave the queue in
     * their order, up to the first that ends the thread, and the operation of each is run. Callbacks
     * that are all different are told the outcomes, each that of its own message.
     */
    method Listen() returns (end: Ending)
      requires calls == Payloads(log) && fired == FiredAll(log)
      modifies this
      ensures |old(log)| <= |log| && log[..|old(log)|] == old(log)
      ensures Messages(log[|old(log)|..]) + queue == old(queue)
      ensures performed == old(performed) + Outcomes(log[|old(log)|..])
      ensures fired == FiredAll(log) && calls == Payloads(log)
      ensures DistinctCallbacks(Messages(log)) ==>
                forall i :: 0 <= i < |log| ==> Told(fired, log[i].message, log[i].ok)
      ensures Ran(log, |old(log)|, end)
      ensures end.Waiting? ==> queue == []
    {
      ghost var (n, was) := (|log|, queue);
      end := Waiting;
      while queue != [] && end.Waiting?
        invariant n <= |log| && log[..n] == old(log)
        invariant Messages(log[n..]) + queue == was
        invariant performed == old(performed) + Outcomes(log[n..])
        invariant fired == FiredAll(log) && calls == Payloads(log)
        invariant Ran(log, n, end)
        decreases |queue|
      {
        ghost var before := log;
        ghost var h;
        end, h := HandleNext();
        RanExtends(before, n, h);
        LogExtends(before, n, h);
        Regroup(Messages(before[n..]), h.message, queue);
        Associate(old(performed), Outcomes(before[n..]), [Performed(h.message, h.ok)]);
      }
      if DistinctCallbacks(Messages(log)) { AllTold(log); }
    }
  }

  /** From position n on, every message but the last was settled; the last says how the thread ended. */
  ghost predicate Ran(log: seq<Handled>, n: nat, end: Ending) {
    && n <= |log|
    && if |log| == n then end.Waiting?
       else
         var (before, h) := (log[..|log| - 1], log[|log| - 1]);
         && Ran(before, n, Waiting)
         && end == EndOf(h)
         && (!Last(h) ==> Settled(h) && h.saved.calls == Payloads(log))
  }

  lemma RanMeans(log: seq<Handled>, n: nat, end: Ending)
    requires Ran(log, n, end)
    ensures forall i :: n <= i < |log| ==> (Last(log[i]) <==> i == |log| - 1 && !end.Waiting?)
    ensures forall i :: n <= i < |log| && !Last(log[i]) ==> Settled(log[i])
    ensures forall i :: n <= i < |log| && !Last(log[i]) ==> log[i].saved.calls == Payloads(log[..i + 1])
    ensures !end.Waiting? ==> n < |log| && end == EndOf(log[|log| - 1])
  {
    forall i | n <= i < |log|
      ensures Last(log[i]) <==> i == |log| - 1 && !end.Waiting?
      ensures !Last(log[i]) ==> Settled(log[i]) && log[i].saved.calls == Payloads(log[..i + 1])
    {
      RanMeansAt(log, n, end, i);
    }
  }

  lemma {:induction false} RanMeansAt(log: seq<Handled>, n: nat, end: Ending, i: nat)
    requires Ran(log, n, end) && n <= i < |log|
    ensures Last(log[i]) <==> i == |log| - 1 && !end.Waiting?
    ensures !Last(log[i]) ==> Settled(log[i]) && log[i].saved.calls == Payloads(log[..i + 1])
  {
    var m := |log| - 1;
    if i == m {
      assert log[..m + 1] == log;
    } else {
      RanMeansAt(log[..m], n, Waiting, i);
      assert log[..m][i] == log[i] && log[..m][..i + 1] == log[..i + 1];
    }
  }

  function EndOf(h: Handled): Ending {
    if Kills(h.message, h.ok) then Died else if h.message.kind.Stop? then Stopped else Waiting
  }

  lemma {:induction false} RanExtends(log: seq<Handled>, n: nat, h: Handled)
    requires Ran(log, n, Waiting)
    requires !Last(h) ==> Settled(h) && h.saved.calls == Payloads(log) + Recorded(h.message)
    ensures Ran(log + [h], n, EndOf(h))
  {
    assert (log + [h])[..|log|] == log;
  }

  lemma {:induction false} LogExtends(log: seq<Handled>, n: nat, h: Handled)
    requires n <= |log|
    ensures FiredAll(log + [h]) == FiredAll(log) + FiredBy(h.message, h.ok)
    ensures Payloads(log + [h]) == Payloads(log) + Recorded(h.message)
    ensures Messages((log + [h])[n..]) == Messages(log[n..]) + [h.message]
    ensures Outcomes((log + [h])[n..]) == Outcomes(log[n..]) + [Performed(h.message, h.ok)]
    ensures (log + [h])[..n] == log[..n]
  {
    hide FiredBy, Recorded;
    assert (log + [h])[..|log|] == log;
    assert (log + [h])[n..] == log[n..] + [h];
    PartsAppend(log[n..], h);
  }

  lemma PartsAppend(hs: seq<Handled>, h: Handled)
    ensures Messages(hs + [h]) == Messages(hs) + [h.message]
    ensures Outcomes(hs + [h]) == Outcomes(hs) + [Performed(h.message, h.ok)]
  {
  }

  // ------------------------------------------------------------- over a whole run

  /** The messages up to and with the first STOP. */
  function UpToStop(ms: seq<Message>): seq<Message> {
    if ms == [] then [] else if ms[0].kind.Stop? then [ms[0]] else [ms[0]] + UpToStop(ms[1..])
  }

  /** No callback raises and no destroy fails. */
  ghost predicate Sound(hs: seq<Handled>) {
    forall i :: 0 <= i < |hs| ==> !Kills(hs[i].message, hs[i].ok)
  }

  ghost predicate DistinctCallbacks(ms: seq<Message>) {
    forall i, j :: 0 <= i < j < |ms| && ms[i].callback.Some? && ms[j].callback.Some? ==>
                     ms[i].callback.value.id != ms[j].callback.value.id
  }

  /**
   * What a sound run of the thread processes: exactly the messages up to the first STOP, in order,
   * the rest staying in the queue.
   */
  lemma ProcessesUpToStop(ms: seq<Message>, hs: seq<Handled>, queue: seq<Message>, end: Ending)
    requires Messages(hs) + queue == ms && Sound(hs)
    requires Ran(hs, 0, end) && (end.Waiting? ==> queue == [])
    ensures Messages(hs) == UpToStop(ms)
  {
    RanMeans(hs, 0, end);
    StopsAtFirst(hs, queue, end);
  }

  lemma {:induction false} StopsAtFirst(hs: seq<Handled>, queue: seq<Message>, end: Ending)
    requires forall i :: 0 <= i < |hs| ==> (hs[i].message.kind.Stop? <==> i == |hs| - 1 && !end.Waiting?)
    requires if end.Waiting? then queue == [] else hs != []
    ensures Messages(hs) == UpToStop(Messages(hs) + queue)
  {
    if hs != [] {
      var (rest, ms) := (hs[1..], Messages(hs) + queue);
      assert ms[0] == hs[0].message;
      assert ms[1..] == Messages(rest) + queue;
      if hs[0].message.kind.Stop? {
        assert Messages(hs) == [ms[0]];
      } else {
        StopsAtFirst(rest, queue, end);
        assert Messages(hs) == [ms[0]] + Messages(rest);
      }
    } else {
      assert Messages(hs) + queue == [];
    }
  }

  predicate Has(m: Message, id: nat) {
    m.callback.Some? && m.callback.value.id == id
  }

  lemma {:induction false} RepliesAppend(a: seq<Fire>, b: seq<Fire>, id: nat)
    ensures Replies(a + b, id) == Replies(a, id) + Replies(b, id)
  {
    if b == [] {
      assert a + b == a;
    } else {
      assert (a + b)[..|a + b| - 1] == a + b[..|b| - 1];
      RepliesAppend(a, b[..|b| - 1], id);
    }
  }

  lemma {:induction false} RepliesHave(fs: seq<Fire>, id: nat, r: Reply)
    ensures r in Replies(fs, id) <==> Fire(id, r) in fs
  {
    if fs != [] {
      RepliesHave(fs[..|fs| - 1], id, r);
      assert fs == fs[..|fs| - 1] + [fs[|fs| - 1]];
    }
  }

  /** The calls for one message tell its callback the outcome, and nobody else anything. */
  lemma FiredByTells(m: Message, ok: bool, id: nat)
    ensures !Has(m, id) ==> Replies(FiredBy(m, ok), id) == []
    ensures Told(FiredBy(m, ok), m, ok)
  {
    var f := FiredBy(m, ok);
    if |f| >= 1 { OneReply(f[0], id); OneReply(f[0], f[0].id); }
    if |f| == 2 {
      OneReply(f[1], id);
      OneReply(f[1], f[1].id);
      RepliesAppend([f[0]], [f[1]], id);
      RepliesAppend([f[0]], [f[1]], f[0].id);
      assert f == [f[0]] + [f[1]];
    }
  }

  lemma OneReply(f: Fire, id: nat)
    ensures Replies([f], id) == if f.id == id then [f.reply] else []
  {
    assert [f][..0] == [];
  }

  lemma {:induction false} NoneFired(hs: seq<Handled>, id: nat)
    requires forall j :: 0 <= j < |hs| ==> !Has(hs[j].message, id)
    ensures Replies(FiredAll(hs), id) == []
  {
    if hs != [] {
      var h := hs[|hs| - 1];
      NoneFired(hs[..|hs| - 1], id);
      RepliesAppend(FiredAll(hs[..|hs| - 1]), FiredBy(h.message, h.ok), id);
      FiredByTells(h.message, h.ok, id);
    }
  }

  /** Where one message alone has that callback, its calls are all there are. */
  lemma {:induction false} OnlyItsCalls(hs: seq<Handled>, id: nat, i: nat)
    requires i < |hs| && forall j :: 0 <= j < |hs| && j != i ==> !Has(hs[j].message, id)
    ensures Replies(FiredAll(hs), id) == Replies(FiredBy(hs[i].message, hs[i].ok), id)
  {
    hide FiredBy, Replies;
    var (rest, h) := (hs[..|hs| - 1], hs[|hs| - 1]);
    RepliesAppend(FiredAll(rest), FiredBy(h.message, h.ok), id);
    if i < |rest| {
      OnlyItsCalls(rest, id, i);
      FiredByTells(h.message, h.ok, id);
    } else {
      NoneFired(rest, id);
    }
  }

  lemma AllTold(hs: seq<Handled>)
    requires DistinctCallbacks(Messages(hs))
    ensures forall i :: 0 <= i < |hs| ==> Told(FiredAll(hs), hs[i].message, hs[i].ok)
  {
    forall i | 0 <= i < |hs| ensures Told(FiredAll(hs), hs[i].message, hs[i].ok) { ToldAt(hs, i); }
  }

  lemma ToldAt(hs: seq<Handled>, i: nat)
    requires DistinctCallbacks(Messages(hs)) && i < |hs|
    ensures Told(FiredAll(hs), hs[i].message, hs[i].ok)
  {
    if hs[i].message.callback.Some? {
      var id := hs[i].message.callback.value.id;
      NobodyElseHas(hs, i);
      OnlyItsCalls(hs, id, i);
      FiredByTells(hs[i].message, hs[i].ok, id);
    }
  }

  lemma NobodyElseHas(hs: seq<Handled>, i: nat)
    requires DistinctCallbacks(Messages(hs)) && i < |hs| && hs[i].message.callback.Some?
    ensures forall j :: 0 <= j < |hs| && j != i ==> !Has(hs[j].message, hs[i].message.callback.value.id)
  {
    assert forall j :: 0 <= j < |hs| ==> Messages(hs)[j] == hs[j].message;
  }

  /**
   * The calls of a whole run whose callbacks are all different: the callback of a message is told a
   * success iff its operation succeeded, a failure iff it failed or the callback raised on the success,
   * and then after it, and the end of the blueprint iff it was destroyed for that message.
   */
  lemma ToldExactlyWhen(hs: seq<Handled>, fired: seq<Fire>, i: nat)
    requires DistinctCallbacks(Messages(hs)) && i < |hs| && hs[i].message.callback.Some?
    requires fired == FiredAll(hs)
    ensures var (m, ok, c) := (hs[i].message, hs[i].ok, hs[i].message.callback.value);
            && (Fire(c.id, Done) in fired <==> !m.kind.Stop? && ok)
            && (Fire(c.id, Failed) in fired <==> !m.kind.Stop? && (!ok || c.raises))
            && (Fire(c.id, Gone) in fired <==> m.kind.Stop? && ok)
            && (!m.kind.Stop? && ok && c.raises ==> Replies(fired, c.id) == [Done, Failed])
  {
    ToldAt(hs, i);
    var id := hs[i].message.callback.value.id;
    RepliesHave(fired, id, Done);
    RepliesHave(fired, id, Failed);
    RepliesHave(fired, id, Gone);
  }

  /** Nobody is called but the callbacks of the messages. */
  lemma OnlyCallbacksFired(hs: seq<Handled>, f: Fire)
    requires f in FiredAll(hs)
    ensures exists i :: 0 <= i < |hs| && Has(hs[i].message, f.id)
  {
    RepliesHave(FiredAll(hs), f.id, f.reply);
    if forall i :: 0 <= i < |hs| ==> !Has(hs[i].message, f.id) { NoneFired(hs, f.id); }
  }

  /** Each callback of a processed operation is called exactly once iff none of a success raises. */
  lemma CallbackOnceExactlyWhen(hs: seq<Handled>, i: nat)
    requires DistinctCallbacks(Messages(hs)) && i < |hs| && hs[i].message.callback.Some?
    ensures var h := hs[i];
            |Replies(FiredAll(hs), h.message.callback.value.id)| == 1 <==>
            if h.message.kind.Stop? then h.ok else !(h.ok && h.message.callback.value.raises)
  {
    ToldAt(hs, i);
  }
}
