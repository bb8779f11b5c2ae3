/** The three-slot ring of chat messages that wait for the LLM; a fourth message pushes out the oldest. */
module UserQueue {
  import opened Wire

  const SLOTS: byte := 3

  type Message = seq<byte>

  /** The ideal queue. */
  function Pushed(q: seq<Message>, m: Message): seq<Message> {
    (if |q| >= SLOTS then q[1..] else q) + [m]
  }

  /** Slot numbers wrap after the third. */
  function Around(i: nat): (s: nat)
    ensures i < 2 * SLOTS ==> s < SLOTS
  {
    if i >= SLOTS then i - SLOTS else i
  }

  class Ring {
    const slots: array<Message>
    var head: byte
    var tail: byte
    var count: byte

    ghost predicate Valid()
      reads this
    {
      && slots.Length == SLOTS
      && head < SLOTS && count <= SLOTS
      && tail == Around(head + count)
    }

    /** The messages from the oldest to the newest. */
    ghost function Contents(): (q: seq<Message>)
      requires Valid()
      reads this, slots
      ensures |q| == count
    {
      var h, n := head, count;
      seq(n, i requires 0 <= i < n reads slots => slots[Around(h + i)])
    }

    constructor ()
      ensures Valid() && fresh(slots) && Contents() == []
    {
      slots := new Message[SLOTS](_ => []);
      head, tail, count := 0, 0, 0;
    }

    method Enqueue(m: Message)
      requires Valid()
      modifies this, slots
      ensures Valid() && Contents() == Pushed(old(Contents()), m)
    {
      if count >= SLOTS {
        DropHead();
      }
      Append(m);
    }

    /** Callers look at the count first. */
    method LoadHead() returns (m: Message)
      requires Valid() && count > 0
      modifies this
      ensures Valid() && [m] + Contents() == old(Contents())
    {
      m := slots[head];
      assert Contents()[0] == slots[Around(head + 0)] == m;
      DropHead();
    }

    method Append(m: Message)
      requires Valid() && count < SLOTS
      modifies this, slots
      ensures Valid() && Contents() == old(Contents()) + [m]
    {
      slots[tail] := m;
      AdvanceTail();
      count := count + 1;
      assert Contents()[count - 1] == slots[Around(head + (count - 1))] == m;
      forall j | 0 <= j < count - 1 ensures Contents()[j] == old(Contents())[j] {
        assert Around(head + j) != old(tail);
        assert old(Contents())[j] == old(slots[Around(head + j)]);
      }
    }

    method DropHead()
      requires Valid() && count > 0
      modifies this
      ensures Valid() && Contents() == old(Contents())[1..]
    {
      AdvanceHead();
      count := count - 1;
      forall j | 0 <= j < count ensures Contents()[j] == old(Contents())[j + 1] {
        assert Around(head + j) == Around(old(head) + (j + 1));
        assert old(Contents())[j + 1] == old(slots[Around(head + (j + 1))]);
      }
    }

    method AdvanceHead()
      requires head < SLOTS
      modifies `head
      ensures head == Around(old(head) + 1)
    {
      head := head + 1;
      if head >= SLOTS {
        head := 0;
      }
    }

    method AdvanceTail()
      requires tail < SLOTS
      modifies `tail
      ensures tail == Around(old(tail) + 1)
    {
      tail := tail + 1;
      if tail >= SLOTS {
        tail := 0;
      }
    }
  }

  // ---- runs ----

  datatype Operation = Enqueue(m: Message) | Load

  function Enqueued(ops: seq<Operation>): seq<Message> {
    if ops == [] then [] else
    var e := ops[|ops| - 1];
    Enqueued(ops[..|ops| - 1]) + if e.Load? then [] else [e.m]
  }

  function Held(ops: seq<Operation>): seq<Message> {
    if ops == [] then [] else
    var q, e := Held(ops[..|ops| - 1]), ops[|ops| - 1];
    if e.Enqueue? then Pushed(q, e.m) else if q == [] then q else q[1..]
  }

  function Loaded(ops: seq<Operation>): seq<Message> {
    if ops == [] then [] else
    var q, e := Held(ops[..|ops| - 1]), ops[|ops| - 1];
    Loaded(ops[..|ops| - 1]) + if e.Load? && q != [] then [q[0]] else []
  }

  /** Loads happen only while something is queued. */
  predicate Possible(ops: seq<Operation>) {
    ops != [] ==>
      && Possible(ops[..|ops| - 1])
      && (ops[|ops| - 1].Load? ==> Held(ops[..|ops| - 1]) != [])
  }

  /** The ring, driven by any possible sequence of operations, reads out what the ideal queue would. */
  method Drive(r: Ring, ops: seq<Operation>) returns (loaded: seq<Message>)
    requires r.Valid() && r.Contents() == [] && Possible(ops)
    modifies r, r.slots
    ensures r.Valid() && r.Contents() == Held(ops) && loaded == Loaded(ops)
  {
    hide Pushed;
    loaded := [];
    for i := 0 to |ops|
      invariant r.Valid() && r.Contents() == Held(ops[..i]) && loaded == Loaded(ops[..i])
    {
      PossibleSoFar(ops, i + 1);
      assert ops[..i + 1][..i] == ops[..i];
      if ops[i].Enqueue? {
        r.Enqueue(ops[i].m);
      } else {
        assert |r.Contents()| > 0;
        var m := r.LoadHead();
        loaded := loaded + [m];
      }
    }
    assert ops[..|ops|] == ops;
  }

  lemma {:induction false} PossibleSoFar(ops: seq<Operation>, k: nat)
    requires Possible(ops) && k <= |ops|
    ensures Possible(ops[..k])
    decreases |ops|
  {
    if k == |ops| {
      assert ops[..k] == ops;
    } else {
      PossibleSoFar(ops[..|ops| - 1], k);
      assert ops[..|ops| - 1][..k] == ops[..k];
    }
  }

  /** How many of the enqueued messages have left the queue. */
  function Gone(ops: seq<Operation>): int {
    |Enqueued(ops)| - |Held(ops)|
  }

  /** Where in arrival order each loaded message was. */
  function LoadedAt(ops: seq<Operation>): seq<int> {
    if ops == [] then [] else
    LoadedAt(ops[..|ops| - 1]) + if ops[|ops| - 1].Load? then [Gone(ops[..|ops| - 1])] else []
  }

  /** The queue is the end of the list of arrivals. */
  predicate Newest(q: seq<Message>, e: seq<Message>) {
    |q| <= SLOTS && |q| <= |e| && q == e[|e| - |q|..]
  }

  lemma NewestPushed(q: seq<Message>, e: seq<Message>, m: Message)
    requires Newest(q, e)
    ensures Newest(Pushed(q, m), e + [m])
    ensures |e| - |q| <= |e + [m]| - |Pushed(q, m)|
  {
    var k := |e| - |q|;
    assert q + [m] == (e + [m])[k..] by { assert (e + [m])[k..] == e[k..] + [m]; }
    if |q| >= SLOTS {
      assert q[1..] + [m] == (q + [m])[1..] == (e + [m])[k..][1..] == (e + [m])[k + 1..];
    }
  }

  lemma NewestPopped(q: seq<Message>, e: seq<Message>)
    requires Newest(q, e) && q != []
    ensures Newest(q[1..], e) && q[0] == e[|e| - |q|]
  {
    var k := |e| - |q|;
    assert q[1..] == e[k..][1..] == e[k + 1..];
  }

  lemma {:induction false} HoldsTheNewest(ops: seq<Operation>)
    requires Possible(ops)
    ensures Newest(Held(ops), Enqueued(ops))
  {
    hide Newest, Pushed;
    if ops == [] {
      NothingYet();
    } else {
      var init, op := ops[..|ops| - 1], ops[|ops| - 1];
      HoldsTheNewest(init);
      if op.Enqueue? {
        NewestPushed(Held(init), Enqueued(init), op.m);
      } else {
        NewestPopped(Held(init), Enqueued(init));
        assert Enqueued(init) + [] == Enqueued(init);
      }
    }
  }

  lemma NothingYet()
    ensures Newest([], [])
  {}

  /** What was loaded stood among the arrivals where LoadedAt says, each later than the one before. */
  predicate InOrder(loaded: seq<Message>, at: seq<int>, e: seq<Message>, gone: int) {
    && |at| == |loaded|
    && (forall i :: 0 <= i < |at| ==> 0 <= at[i] < gone && at[i] < |e| && loaded[i] == e[at[i]])
    && (forall i, j :: 0 <= i < j < |at| ==> at[i] < at[j])
  }

  lemma InOrderPushed(loaded: seq<Message>, at: seq<int>, e: seq<Message>, gone: int, m: Message, gone': int)
    requires InOrder(loaded, at, e, gone) && gone <= gone'
    ensures InOrder(loaded + [], at + [], e + [m], gone')
  {}

  lemma InOrderLoaded(loaded: seq<Message>, at: seq<int>, e: seq<Message>, gone: int)
    requires InOrder(loaded, at, e, gone) && 0 <= gone < |e|
    ensures InOrder(loaded + [e[gone]], at + [gone], e + [], gone + 1)
  {}

  lemma {:induction false} LoadsInOrder(ops: seq<Operation>)
    requires Possible(ops)
    ensures InOrder(Loaded(ops), LoadedAt(ops), Enqueued(ops), Gone(ops))
  {
    hide Newest, Pushed, InOrder;
    if ops == [] {
      NothingLoaded();
    } else {
      var init, op := ops[..|ops| - 1], ops[|ops| - 1];
      LoadsInOrder(init);
      HoldsTheNewest(init);
      if op.Enqueue? {
        NewestPushed(Held(init), Enqueued(init), op.m);
        InOrderPushed(Loaded(init), LoadedAt(init), Enqueued(init), Gone(init), op.m, Gone(ops));
      } else {
        NewestPopped(Held(init), Enqueued(init));
        GoneInside(init);
        InOrderLoaded(Loaded(init), LoadedAt(init), Enqueued(init), Gone(init));
      }
    }
  }

  lemma NothingLoaded()
    ensures InOrder([], [], [], 0)
  {}

  lemma GoneInside(ops: seq<Operation>)
    requires Newest(Held(ops), Enqueued(ops))
    ensures 0 <= Gone(ops) <= |Enqueued(ops)| && |Enqueued(ops)| - SLOTS <= Gone(ops)
  {}

  /**
   * The queue always holds the newest arrivals, at most three, and what was loaded came out in
   * arrival order, each message at most once.
   */
  lemma FirstInFirstOut(ops: seq<Operation>)
    requires Possible(ops)
    ensures var e, at := Enqueued(ops), LoadedAt(ops);
            && |e| - 3 <= Gone(ops) <= |e| && 0 <= Gone(ops)
            && Held(ops) == e[Gone(ops)..]
            && |at| == |Loaded(ops)|
            && (forall i :: 0 <= i < |at| ==> 0 <= at[i] < Gone(ops) && Loaded(ops)[i] == e[at[i]])
            && (forall i, j :: 0 <= i < j < |at| ==> at[i] < at[j])
  {
    hide Held, Enqueued, Loaded, LoadedAt;
    HoldsTheNewest(ops);
    LoadsInOrder(ops);
  }

  /** Arrivals minus loads. */
  function Backlog(ops: seq<Operation>): int {
    |Enqueued(ops)| - |Loaded(ops)|
  }

  predicate AlwaysFits(ops: seq<Operation>) {
    ops != [] ==> AlwaysFits(ops[..|ops| - 1]) && Backlog(ops) <= SLOTS
  }

  /** No message is lost exactly when the backlog never exceeded the three slots. */
  lemma LosslessExactly(ops: seq<Operation>)
    requires Possible(ops)
    ensures Loaded(ops) + Held(ops) == Enqueued(ops) <==> AlwaysFits(ops)
  {
    CountsExactly(ops);
    if AlwaysFits(ops) {
      NothingLost(ops);
    }
  }

  lemma {:induction false} CountsExactly(ops: seq<Operation>)
    requires Possible(ops)
    ensures |Held(ops)| <= Backlog(ops) && |Held(ops)| <= SLOTS
    ensures |Held(ops)| == Backlog(ops) <==> AlwaysFits(ops)
  {
    if ops != [] {
      CountsExactly(ops[..|ops| - 1]);
    }
  }

  lemma {:induction false} NothingLost(ops: seq<Operation>)
    requires Possible(ops) && AlwaysFits(ops)
    ensures Loaded(ops) + Held(ops) == Enqueued(ops)
  {
    if ops != [] {
      var init := ops[..|ops| - 1];
      NothingLost(init);
      CountsExactly(init);
      CountsExactly(ops);
      if ops[|ops| - 1].Load? {
        assert Held(init) == [Held(init)[0]] + Held(ops);
      }
    }
  }
}
