/** The contract both queue back-ends implement: a bounded FIFO. */
module Fifo {

  datatype Fifo<T> = Fifo(cap: nat, items: seq<T>)

  datatype Op<T> = Enqueue(item: T) | Dequeue | Size

  datatype Reply<T> = Accepted | Refused | Delivered(item: T) | Length(n: nat)

  function Apply<T>(q: Fifo<T>, op: Op<T>): (r: (Fifo<T>, Reply<T>)) {
    match op
    case Enqueue(item) =>
      if |q.items| >= q.cap then (q, Refused)
      else (q.(items := q.items + [item]), Accepted)
    case Dequeue =>
      if q.items == [] then (q, Refused)
      else (q.(items := q.items[1..]), Delivered(q.items[0]))
    case Size => (q, Length(|q.items|))
  }

  /** Each operation in plain terms: refused exactly when there is no room, or nothing to take;
      otherwise at the back, or from the front; and the size is the number of items. */
  lemma ApplyIs<T>(q: Fifo<T>, x: T, rest: seq<T>)
    ensures Apply(q, Enqueue(x)).1 == (if |q.items| < q.cap then Accepted else Refused)
    ensures |q.items| < q.cap ==> Apply(q, Enqueue(x)).0 == Fifo(q.cap, q.items + [x])
    ensures |q.items| >= q.cap ==> Apply(q, Enqueue(x)).0 == q
    ensures q.items == [x] + rest ==> Apply(q, Dequeue) == (Fifo(q.cap, rest), Delivered(x))
    ensures q.items == [] ==> Apply(q, Dequeue) == (q, Refused)
    ensures Apply(q, Size) == (q, Length(|q.items|))
  {
    if q.items == [x] + rest { assert q.items[1..] == rest; }
  }

  lemma RunSnoc<T>(q: Fifo<T>, ops: seq<Op<T>>, op: Op<T>)
    ensures Run(q, []) == (q, [])
    ensures var (q1, replies) := Run(q, ops);
            Run(q, ops + [op]) == (Apply(q1, op).0, replies + [Apply(q1, op).1])
  {
    assert (ops + [op])[..|ops|] == ops;
  }

  /** All operations in order, and the replies. */
  function Run<T>(q: Fifo<T>, ops: seq<Op<T>>): (r: (Fifo<T>, seq<Reply<T>>))
    ensures |r.1| == |ops|
  {
    if ops == [] then (q, [])
    else
      var (q1, replies) := Run(q, ops[..|ops| - 1]);
      var (q2, reply) := Apply(q1, ops[|ops| - 1]);
      (q2, replies + [reply])
  }

  /** The items the replies say were taken in. */
  function AcceptedItems<T>(ops: seq<Op<T>>, replies: seq<Reply<T>>): seq<T>
    requires |ops| == |replies|
  {
    if ops == [] then []
    else
      var n := |ops| - 1;
      AcceptedItems(ops[..n], replies[..n])
      + (if ops[n].Enqueue? && replies[n].Accepted? then [ops[n].item] else [])
  }

  /** The items the replies say were handed out. */
  function DeliveredItems<T>(replies: seq<Reply<T>>): seq<T> {
    if replies == [] then []
    else
      var n := |replies| - 1;
      DeliveredItems(replies[..n]) + (if replies[n].Delivered? then [replies[n].item] else [])
  }

  /** Conservation and order over any run: what was stored and what was accepted since, in
      order, is what was delivered followed by what is stored now; and the bound holds. */
  lemma {:induction false} RunConserves<T>(q: Fifo<T>, ops: seq<Op<T>>)
    requires |q.items| <= q.cap
    ensures var (q', replies) := Run(q, ops);
            && q'.cap == q.cap && |q'.items| <= q.cap
            && q.items + AcceptedItems(ops, replies) == DeliveredItems(replies) + q'.items
  {
    if ops != [] {
      var n := |ops| - 1;
      RunConserves(q, ops[..n]);
      var (q1, replies) := Run(q, ops[..n]);
      var (q2, reply) := Apply(q1, ops[n]);
      assert (replies + [reply])[..n] == replies;
      var a, d := AcceptedItems(ops[..n], replies), DeliveredItems(replies);
      match reply {
        case Accepted =>
          var x := [ops[n].item];
          assert q.items + (a + x) == (q.items + a) + x;
          assert d + (q1.items + x) == (d + q1.items) + x;
        case Delivered(item) =>
          assert q1.items == [item] + q2.items;
          assert d + ([item] + q2.items) == (d + [item]) + q2.items;
        case _ =>
          assert a + [] == a && d + [] == d;
      }
    }
  }
}
