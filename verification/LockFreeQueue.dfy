/**
 * The queue object itself (LockFreeQueue.h): one array updated in place. Each method is the
 * uninterrupted run of one side of the step machine, and so a bounded first-in first-out list.
 */
module LockFreeQueues {
  import opened Bytes
  import opened Ring
  import opened SpscQueue

  class LockFreeQueue<T(0)> {
    const buf: array<T>
    var head: nat
    var tail: nat
    ghost var accepted: seq<T>
    ghost var taken: seq<T>

    ghost function Machine(): State<T>
      reads this, buf
    {
      State(buf[..], head, tail, Resting, Waiting, accepted, taken)
    }

    ghost predicate Valid()
      reads this, buf
    {
      Inv(Machine())
    }

    ghost function Queued(): seq<T>
      requires Valid()
      reads this, buf
    {
      ContentsIs(Machine());
      Contents(Machine())
    }

    constructor (capacity: nat)
      requires capacity > 0
      ensures Valid() && fresh(buf) && buf.Length == capacity + 1 && Queued() == []
    {
      buf := new T[capacity + 1];
      head, tail := 0, 0;
      accepted, taken := [], [];
    }

    method TryPush(cmd: T) returns (ok: bool)
      requires Valid()
      modifies this, buf
      ensures Valid()
      ensures ok == (|old(Queued())| < buf.Length - 1)
      ensures Queued() == if ok then old(Queued()) + [cmd] else old(Queued())
      ensures Machine() == Run(old(Machine()), seq(if ok then 4 else 2, _ => Produce(cmd))).0
    {
      ghost var s := Machine();
      SoloPush(s, cmd);
      InvIndexed(s);
      hide Inv, Contents, Run;
      IndexedBounds(s);
      var next := Next(head, buf.Length);
      if next == tail {
        return false;
      }
      buf[head] := cmd;
      head := next;
      accepted := accepted + [cmd];
      ok := true;
      assert buf[..] == s.slots[s.head := cmd];
    }

    method TryPop() returns (r: Option<T>)
      requires Valid()
      modifies this
      ensures Valid()
      ensures r.Some? == (old(Queued()) != [])
      ensures if r.Some? then old(Queued()) == [r.value] + Queued() else Queued() == old(Queued())
      ensures Machine() == Run(old(Machine()), seq(if r.Some? then 4 else 2, _ => Consume)).0
    {
      ghost var s := Machine();
      SoloPop(s);
      InvIndexed(s);
      hide Inv, Contents, Run;
      IndexedBounds(s);
      if tail == head {
        return None;
      }
      r := Some(buf[tail]);
      taken := taken + [buf[tail]];
      tail := Next(tail, buf.Length);
    }

    method Size() returns (n: nat)
      requires Valid()
      ensures n == |Queued()| < buf.Length
    {
      ContentsIs(Machine());
      n := Distance(head, tail, buf.Length);
    }

    /** Discards everything; the discarded items count as taken. */
    method Clear()
      requires Valid()
      modifies this`tail, this`taken
      ensures Valid() && Queued() == []
    {
      tail := head;
      taken := accepted;
    }
  }

  lemma RunRepeated<T>(s: State<T>, a: Action<T>, n: nat)
    requires |s.slots| >= 2
    ensures Run(s, seq(n + 1, _ => a)).0 == Run(Step(s, a).0, seq(n, _ => a)).0
    ensures Run(s, seq(0, _ => a)).0 == s
  {
    assert seq(n + 1, _ => a)[1..] == seq(n, _ => a);
  }

  /** One side alone, from rest: the push of four steps, or the refusal of two. */
  lemma SoloPush<T>(s: State<T>, cmd: T)
    requires |s.slots| >= 2 && Inv(s) && s.producer == Resting
    ensures InRange(s)
    ensures var ok := Next(s.head, |s.slots|) != s.tail;
            var t := Run(s, seq(if ok then 4 else 2, _ => Produce(cmd))).0;
            && t == (if ok then s.(slots := s.slots[s.head := cmd], head := Next(s.head, |s.slots|),
                                   accepted := s.accepted + [cmd])
                     else s)
            && Inv(t) && InRange(t)
            && ok == (|Contents(s)| < Capacity(s))
            && Contents(t) == if ok then Contents(s) + [cmd] else Contents(s)
  {
    hide Inv, Run, Contents, Next;
    var a := Produce(cmd);
    var s1 := Step(s, a).0;
    var s2 := Step(s1, a).0;
    StepIsFifo(s, a);
    StepIsFifo(s1, a);
    if s2.producer.Roomy? {
      var s3 := Step(s2, a).0;
      StepIsFifo(s2, a);
      StepIsFifo(s3, a);
      RunRepeated(s, a, 3);
      RunRepeated(s1, a, 2);
      RunRepeated(s2, a, 1);
      RunRepeated(s3, a, 0);
      RunRepeated(Step(s3, a).0, a, 0);
    } else {
      RunRepeated(s, a, 1);
      RunRepeated(s1, a, 0);
      RunRepeated(s2, a, 0);
    }
  }

  lemma SoloPop<T>(s: State<T>)
    requires |s.slots| >= 2 && Inv(s) && s.consumer == Waiting
    ensures InRange(s)
    ensures var ok := s.tail != s.head;
            var t := Run(s, seq(if ok then 4 else 2, _ => Consume)).0;
            && t == (if ok then s.(tail := Next(s.tail, |s.slots|), taken := s.taken + [s.slots[s.tail]]) else s)
            && Inv(t) && InRange(t)
            && ok == (Contents(s) != [])
            && (if ok then Contents(s) == [s.slots[s.tail]] + Contents(t) else Contents(t) == Contents(s))
  {
    hide Inv, Run, Contents, Next;
    var a := Consume;
    var s1 := Step(s, a).0;
    var s2 := Step(s1, a).0;
    StepIsFifo(s, a);
    StepIsFifo(s1, a);
    if s2.consumer.Ready? {
      var s3 := Step(s2, a).0;
      StepIsFifo(s2, a);
      StepIsFifo(s3, a);
      RunRepeated(s, a, 3);
      RunRepeated(s1, a, 2);
      RunRepeated(s2, a, 1);
      RunRepeated(s3, a, 0);
      RunRepeated(Step(s3, a).0, a, 0);
    } else {
      RunRepeated(s, a, 1);
      RunRepeated(s1, a, 0);
      RunRepeated(s2, a, 0);
    }
  }
}
