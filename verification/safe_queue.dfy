/** The monitor queue between the listener and a worker: each operation holds the mutex throughout. */
module SafeQueues {
  import opened Bytes

  /** A null pointer is `None`. */
  function Pushed<T>(q: seq<T>, value: Option<T>): seq<T> {
    match value case None => q case Some(x) => q + [x]
  }

  function Front<T>(q: seq<T>): Option<T> { if q == [] then None else Some(q[0]) }

  function Popped<T>(q: seq<T>): seq<T> { if q == [] then q else q[1..] }

  /** Values leave in the order in which they came, each once. */
  lemma {:induction false} FirstInFirstOut<T>(q: seq<T>, pushed: seq<T>, n: nat)
    requires n <= |q| + |pushed|
    ensures PopMany(PushMany(q, pushed), n) == (q + pushed)[n..]
    ensures FrontsOf(PushMany(q, pushed), n) == (q + pushed)[..n]
    decreases n
  {
    PushManyIs(q, pushed);
    if n > 0 {
      FirstInFirstOut(q, pushed, n - 1);
      var left := PopMany(PushMany(q, pushed), n - 1);
      assert left[0] == (q + pushed)[n - 1];
      assert left[1..] == (q + pushed)[n..];
      assert (q + pushed)[..n] == (q + pushed)[..n - 1] + [(q + pushed)[n - 1]];
    }
  }

  function PushMany<T>(q: seq<T>, values: seq<T>): seq<T>
    decreases |values|
  {
    if values == [] then q else PushMany(Pushed(q, Some(values[0])), values[1..])
  }

  lemma {:induction false} PushManyIs<T>(q: seq<T>, values: seq<T>)
    ensures PushMany(q, values) == q + values
    decreases |values|
  {
    if values != [] {
      PushManyIs(Pushed(q, Some(values[0])), values[1..]);
      assert q + [values[0]] + values[1..] == q + values;
    } else {
      assert q + values == q;
    }
  }

  function PopMany<T>(q: seq<T>, n: nat): seq<T> { if n == 0 then q else Popped(PopMany(q, n - 1)) }

  /** What `n` calls of pop return. */
  function FrontsOf<T>(q: seq<T>, n: nat): seq<T> {
    if n == 0 then []
    else
      match Front(PopMany(q, n - 1))
      case None => FrontsOf(q, n - 1)
      case Some(x) => FrontsOf(q, n - 1) + [x]
  }

  class SafeQueue<T> {
    var queue: seq<T>

    constructor ()
      ensures queue == []
    {
      queue := [];
    }

    method Push(value: Option<T>) returns (ok: bool)
      modifies this
      ensures ok == value.Some? && queue == Pushed(old(queue), value)
    {
      if value.None? {
        return false;
      }
      queue := queue + [value.value];
      ok := true;
    }

    method Pop() returns (value: Option<T>)
      modifies this
      ensures value == Front(old(queue)) && queue == Popped(old(queue))
    {
      value := None;
      if queue != [] {
        value := Some(queue[0]);
        queue := queue[1..];
      }
    }

    method FrontValue() returns (value: Option<T>)
      ensures value == Front(queue)
    {
      value := None;
      if |queue| > 0 {
        value := Some(queue[0]);
      }
    }

    /** Pops and frees until nothing is left. */
    method Clear() returns (freed: seq<T>)
      modifies this
      ensures queue == [] && freed == old(queue)
    {
      freed := [];
      while |queue| > 0
        invariant freed + queue == old(queue)
        decreases |queue|
      {
        var value := Pop();
        freed := freed + [value.value];
      }
    }
  }
}
