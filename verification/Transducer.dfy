/** What the encoder and the decoder have in common: a machine that takes its input one item at a
    time and writes into a buffer that may fill up, together with the same machine unbounded. */
module Transducer {
  datatype Status = Ok | MoreOutput | IllegalInput

  /** What a call leaves behind: state, input taken, output written, result. */
  datatype Run<S, O> = Run(st: S, read: nat, out: seq<O>, status: Status)

  /** `step` handles one item with some room left; `next` and `emit` are the same step with no
      bound on the room; `inv` holds in the reachable states. */
  datatype Machine<!S, !I, !O> = Machine(
    step: (S, I, int) -> Run<S, O>,
    next: (S, I) -> S,
    emit: (S, I) -> seq<O>,
    inv: S -> bool)

  function Then<S, O>(a: Run<S, O>, b: Run<S, O>): Run<S, O> {
    Run(b.st, a.read + b.read, a.out + b.out, b.status)
  }

  /** One call: stop at the first item that is not fully handled. */
  function Feed<S, I, O>(m: Machine<S, I, O>, st: S, xs: seq<I>, room: int): Run<S, O>
    decreases xs
  {
    if xs == [] then Run(st, 0, [], Ok)
    else
      var r := m.step(st, xs[0], room);
      if r.status != Ok then r else Then(r, Feed(m, r.st, xs[1..], room - |r.out|))
  }

  /** The unbounded machine: its output and its final state. */
  function Output<S, I, O>(m: Machine<S, I, O>, st: S, xs: seq<I>): seq<O>
    decreases xs
  {
    if xs == [] then [] else m.emit(st, xs[0]) + Output(m, m.next(st, xs[0]), xs[1..])
  }

  function After<S, I, O>(m: Machine<S, I, O>, st: S, xs: seq<I>): S
    decreases xs
  {
    if xs == [] then st else After(m, m.next(st, xs[0]), xs[1..])
  }

  // ---- The laws a bounded step owes to the unbounded one ----

  /** A step that succeeds is the unbounded step; one that stops has taken nothing and written
      only a prefix of what is still to be written when the same item comes again. */
  ghost predicate StepRefines<S, I, O>(m: Machine<S, I, O>, st: S, x: I, room: int) {
    var r := m.step(st, x, room);
    && m.inv(r.st)
    && (r.status == Ok ==> r.read == 1 && r.st == m.next(st, x) && r.out == m.emit(st, x))
    && (r.status != Ok ==>
          && r.status == MoreOutput && r.read == 0
          && m.next(r.st, x) == m.next(st, x) && m.emit(st, x) == r.out + m.emit(r.st, x))
    && (|m.emit(st, x)| <= room ==> r.status == Ok)
  }

  ghost predicate Lawful<S(!new), I(!new), O>(m: Machine<S, I, O>) {
    forall st, x, room :: m.inv(st) ==> StepRefines(m, st, x, room)
  }

  // ---- Splitting the input ----

  lemma ThenAssociates<S, O>(a: Run<S, O>, b: Run<S, O>, c: Run<S, O>)
    ensures Then(Then(a, b), c) == Then(a, Then(b, c))
  {
    assert (a.out + b.out) + c.out == a.out + (b.out + c.out);
  }

  /** Two calls do what one call on the joined input does. */
  lemma {:induction false} FeedSplit<S, I, O>(m: Machine<S, I, O>, st: S, a: seq<I>, b: seq<I>, room: int)
    ensures var r := Feed(m, st, a, room);
            Feed(m, st, a + b, room) == if r.status != Ok then r else Then(r, Feed(m, r.st, b, room - |r.out|))
    decreases a
  {
    if a == [] {
      assert a + b == b;
    } else {
      var r := m.step(st, a[0], room);
      assert (a + b)[1..] == a[1..] + b;
      if r.status == Ok {
        var room' := room - |r.out|;
        var ra := Feed(m, r.st, a[1..], room');
        FeedSplit(m, r.st, a[1..], b, room');
        ThenAssociates(r, ra, Feed(m, ra.st, b, room' - |ra.out|));
      }
    }
  }

  /** A call that gets through `i` items goes on with the next one. */
  lemma FeedOneMore<S, I, O>(m: Machine<S, I, O>, st: S, xs: seq<I>, i: nat, room: int)
    requires i < |xs| && Feed(m, st, xs[..i], room).status == Ok
    ensures var r := Feed(m, st, xs[..i], room);
            Feed(m, st, xs[..i + 1], room) == Then(r, m.step(r.st, xs[i], room - |r.out|))
  {
    var r := Feed(m, st, xs[..i], room);
    assert xs[..i + 1] == xs[..i] + [xs[i]];
    FeedSplit(m, st, xs[..i], [xs[i]], room);
    var e := m.step(r.st, xs[i], room - |r.out|);
    assert e.out + [] == e.out;
  }

  /** A call on a longer input does at least what the call on the shorter one does. */
  lemma FeedGrows<S, I, O>(m: Machine<S, I, O>, st: S, xs: seq<I>, i: nat, k: nat, room: int)
    requires i <= k <= |xs|
    ensures var r, r' := Feed(m, st, xs[..i], room), Feed(m, st, xs[..k], room);
            |r.out| <= |r'.out| && (r.status != Ok ==> r' == r)
  {
    assert xs[..k] == xs[..i] + xs[i..k];
    FeedSplit(m, st, xs[..i], xs[i..k], room);
  }

  /** From a point inside the input, the next `k` items extend the call. */
  lemma FeedSegment<S, I, O>(m: Machine<S, I, O>, st: S, st': S, xs: seq<I>, i: nat, k: nat, out: seq<O>, room: int)
    requires i + k <= |xs| && Feed(m, st, xs[..i], room) == Run(st', i, out, Ok)
    ensures var r, all := Feed(m, st', xs[i..][..k], room - |out|), Feed(m, st, xs, room);
            && |out + r.out| <= |all.out|
            && (r.status != Ok ==> all == Then(Run(st', i, out, Ok), r))
            && (r.status == Ok ==> Feed(m, st, xs[..i + k], room) == Run(r.st, i + r.read, out + r.out, Ok))
  {
    assert xs[..i + k] == xs[..i] + xs[i..][..k];
    FeedSplit(m, st, xs[..i], xs[i..][..k], room);
    assert xs[..|xs|] == xs;
    FeedGrows(m, st, xs, i + k, |xs|, room);
  }

  /** Work done before the first item that the step itself would do may be done ahead. */
  lemma FeedPrelude<S, I, O>(m: Machine<S, I, O>, st: S, pre: Run<S, O>, xs: seq<I>, room: int)
    requires xs != []
    requires pre.status == Ok ==> m.step(st, xs[0], room) == Then(pre, m.step(pre.st, xs[0], room - |pre.out|))
    requires pre.status != Ok ==> m.step(st, xs[0], room) == pre
    ensures Feed(m, st, xs, room) ==
            if pre.status != Ok then pre else Then(pre, Feed(m, pre.st, xs, room - |pre.out|))
  {
    if pre.status == Ok {
      var e := m.step(pre.st, xs[0], room - |pre.out|);
      if e.status == Ok {
        ThenAssociates(pre, e, Feed(m, e.st, xs[1..], room - |pre.out + e.out|));
      }
    }
  }

  lemma {:induction false} OutputSplit<S, I, O>(m: Machine<S, I, O>, st: S, a: seq<I>, b: seq<I>)
    ensures Output(m, st, a + b) == Output(m, st, a) + Output(m, After(m, st, a), b)
    ensures After(m, st, a + b) == After(m, After(m, st, a), b)
    decreases a
  {
    if a == [] {
      assert a + b == b;
    } else {
      assert (a + b)[1..] == a[1..] + b;
      OutputSplit(m, m.next(st, a[0]), a[1..], b);
    }
  }

  // ---- Bounded calls against the unbounded machine ----

  /** Whatever the room, a call writes the beginning of the unbounded output and leaves a state
      from which the input it did not take yields exactly the rest. */
  lemma {:induction false} FeedResumes<S(!new), I(!new), O>(m: Machine<S, I, O>, st: S, xs: seq<I>, room: int)
    requires Lawful(m) && m.inv(st)
    ensures var r := Feed(m, st, xs, room);
            && m.inv(r.st) && r.read <= |xs|
            && (r.status == Ok ==> r.read == |xs|)
            && r.status != IllegalInput
            && Output(m, st, xs) == r.out + Output(m, r.st, xs[r.read..])
            && After(m, st, xs) == After(m, r.st, xs[r.read..])
    decreases xs
  {
    if xs != [] {
      var r := m.step(st, xs[0], room);
      assert StepRefines(m, st, xs[0], room);
      if r.status == Ok {
        FeedResumes(m, r.st, xs[1..], room - |r.out|);
        var r' := Feed(m, r.st, xs[1..], room - |r.out|);
        assert xs[1..][r'.read..] == xs[1 + r'.read..];
      } else {
        assert xs[0..] == xs;
      }
    }
  }

  /** A call completes without passing the end of its buffer exactly when all it has to write
      fits, and then it is the unbounded machine. */
  lemma {:induction false} FeedFits<S(!new), I(!new), O>(m: Machine<S, I, O>, st: S, xs: seq<I>, room: nat)
    requires Lawful(m) && m.inv(st)
    ensures var r := Feed(m, st, xs, room);
            && ((r.status == Ok && |r.out| <= room) <==> |Output(m, st, xs)| <= room)
            && (r.status == Ok ==> r == Run(After(m, st, xs), |xs|, Output(m, st, xs), Ok))
    decreases xs
  {
    FeedResumes(m, st, xs, room);
    if xs != [] && |Output(m, st, xs)| <= room {
      var r := m.step(st, xs[0], room);
      assert StepRefines(m, st, xs[0], room);
      FeedFits(m, r.st, xs[1..], room - |r.out|);
    }
  }

  // ---- One buffer after another ----

  /** The caller's loop: hand in what was not taken, with the next buffer. */
  function Session<S, I, O>(m: Machine<S, I, O>, st: S, xs: seq<I>, rooms: seq<int>): Run<S, O>
    decreases rooms
  {
    if rooms == [] then Run(st, 0, [], if xs == [] then Ok else MoreOutput)
    else
      var r := Feed(m, st, xs, rooms[0]);
      if r.status == Ok || r.read > |xs| then r else Then(r, Session(m, r.st, xs[r.read..], rooms[1..]))
  }

  lemma {:induction false} SessionResumes<S(!new), I(!new), O>(m: Machine<S, I, O>, st: S, xs: seq<I>, rooms: seq<int>)
    requires Lawful(m) && m.inv(st)
    ensures var r := Session(m, st, xs, rooms);
            && m.inv(r.st) && r.read <= |xs|
            && (r.status == Ok ==> r == Run(After(m, st, xs), |xs|, Output(m, st, xs), Ok))
            && Output(m, st, xs) == r.out + Output(m, r.st, xs[r.read..])
            && After(m, st, xs) == After(m, r.st, xs[r.read..])
    decreases rooms
  {
    hide Feed, Lawful;
    if rooms != [] {
      var r := Feed(m, st, xs, rooms[0]);
      FeedResumes(m, st, xs, rooms[0]);
      if r.status != Ok {
        SessionResumes(m, r.st, xs[r.read..], rooms[1..]);
        var r' := Session(m, r.st, xs[r.read..], rooms[1..]);
        assert xs[r.read..][r'.read..] == xs[r.read + r'.read..];
      }
    }
  }
}
