/** What runs of a conversation browser do, read off the list of events alone. */
module ConversationRuns {
  import opened ConversationModel

  // ---- Activity ----

  /** A message asks for a batch exactly if the browser is active, and is not displayed at once. */
  lemma AppendAsks(v: View, m: Message)
    ensures var v' := Step(v, Append(m));
            && (v'.pending <==> v.pending || v.active)
            && v'.callbacks == v.callbacks + (if v.active && !v.pending then 1 else 0)
            && v'.shown == v.shown && v'.queue == v.queue + [m]
  {
  }

  /** Until a new browser is activated it displays nothing and asks for nothing. */
  lemma {:induction false} InactiveShowsNothing(v: View, es: seq<Event>)
    requires v.shown == [] && !v.pending && !v.active && v.callbacks == 0
    requires forall i :: 0 <= i < |es| ==> !(es[i].Activate? && es[i].value)
    ensures var v' := Run(v, es); v'.shown == [] && !v'.pending && !v'.active && v'.callbacks == 0
    decreases es
  {
    if es != [] {
      assert !(es[0].Activate? && es[0].value);
      InactiveShowsNothing(Step(v, es[0]), es[1..]);
    }
  }

  lemma NewShowsNothing(es: seq<Event>)
    requires forall i :: 0 <= i < |es| ==> !(es[i].Activate? && es[i].value)
    ensures var v := Run(NEW, es); v.shown == [] && !v.pending && v.callbacks == 0
  {
    InactiveShowsNothing(NEW, es);
  }

  /** Activation displays the head of the queue in the same step, unless a batch is under way or
      there is nothing to display; and then it displays nothing. */
  lemma ActivationShows(v: View, value: bool, timing: Timing)
    ensures var v' := Step(v, Activate(value, timing));
            && v'.active == value
            && if value && v.queue != [] && !v.pending
               then |v.shown| < |v'.shown| && v'.shown[|v.shown|].message == v.queue[0] && v.shown <= v'.shown
               else v'.shown == v.shown && v'.queue == v.queue && v'.pending == v.pending && v'.callbacks == v.callbacks
  {
  }

  // ---- The document ----

  function AppendedBy(es: seq<Event>): seq<Message> {
    if es == [] then [] else (if es[0].Append? then [es[0].message] else []) + AppendedBy(es[1..])
  }

  predicate IsStop(e: Event) {
    e.StateChange? && e.stopped
  }

  predicate IsLoad(e: Event) {
    IsStop(e) && e.conversation
  }

  predicate NoInit(es: seq<Event>) {
    forall i :: 0 <= i < |es| ==> !es[i].Init?
  }

  /** The first stop at the conversation page that is not the first stop of all, which may have come
      before; or the end if there is none. */
  function FirstLoad(es: seq<Event>, stopped: bool): (j: nat)
    ensures j <= |es|
  {
    if es == [] then 0
    else if stopped && IsLoad(es[0]) then 0
    else 1 + FirstLoad(es[1..], stopped || IsStop(es[0]))
  }

  lemma {:induction false} FirstLoadIsFirst(es: seq<Event>, stopped: bool)
    ensures var j := FirstLoad(es, stopped);
            && (j < |es| ==> IsLoad(es[j]) && (stopped || exists i :: 0 <= i < j && IsStop(es[i])))
            && forall k :: 0 <= k < j && IsLoad(es[k]) ==> !stopped && forall i :: 0 <= i < k ==> !IsStop(es[i])
  {
    hide IsLoad, IsStop;
    if es != [] && !(stopped && IsLoad(es[0])) {
      FirstLoadIsFirst(es[1..], stopped || IsStop(es[0]));
      assert forall k :: 1 <= k < |es| ==> es[k] == es[1..][k - 1];
      assert forall i :: 0 <= i < |es[1..]| ==> es[1..][i] == es[i + 1];
    }
  }

  /** What has been appended since the last reset, if it is all displayed or queued. */
  function Content(v: View): seq<Message> {
    Messages(v.shown) + v.queue
  }

  /** Without a listener there is no reset, and every message is displayed or queued. */
  lemma {:induction false} NotListening(v: View, es: seq<Event>)
    requires Sound(v) && !v.listening && NoInit(es)
    ensures !Run(v, es).listening && Content(Run(v, es)) == Content(v) + AppendedBy(es)
    decreases es
  {
    if es == [] {
      Associates(Content(v), [], []);
    } else {
      hide *;
      NoInitRest(es);
      OneEvent(v, es, false);
      StepContent(v, es[0]);
      NotListening(Step(v, es[0]), es[1..]);
      Associates(Content(v), if es[0].Append? then [es[0].message] else [], AppendedBy(es[1..]));
    }
  }

  lemma NoInitRest(es: seq<Event>)
    requires NoInit(es) && es != []
    ensures !es[0].Init? && NoInit(es[1..])
  {
  }

  /** One event, without `init`. */
  lemma StepContent(v: View, e: Event)
    requires Sound(v) && !e.Init?
    ensures Sound(Step(v, e))
    ensures var v' := Step(v, e);
            if v.listening && v.loadState != 0 && IsLoad(e) then !v'.listening && Content(v') == []
            else
              && v'.listening == v.listening && Content(v') == Content(v) + (if e.Append? then [e.message] else [])
              && (v.listening ==> (v'.loadState != 0 <==> v.loadState != 0 || IsStop(e)))
  {
    hide Chunk, Entries, Messages;
    StepSound(v, e);
    NoMessages();
  }

  lemma NoMessages()
    ensures Messages([]) == []
  {
  }

  /** The definitions, one event on. */
  lemma OneEvent(v: View, es: seq<Event>, stopped: bool)
    requires es != []
    ensures var e, rest := es[0], es[1..];
            && Run(v, es) == Run(Step(v, e), rest)
            && AppendedBy(es) == (if e.Append? then [e.message] else []) + AppendedBy(rest)
            && FirstLoad(es, stopped) == if stopped && IsLoad(e) then 0 else 1 + FirstLoad(rest, stopped || IsStop(e))
  {
    hide Step;
  }

  lemma Later<T>(xs: seq<T>, j: nat)
    requires j + 1 < |xs|
    ensures xs[1..][j + 1..] == xs[j + 2..]
  {
  }

  lemma Associates<T>(a: seq<T>, b: seq<T>, c: seq<T>)
    ensures (a + b) + c == a + (b + c) && a + [] == a && [] + c == c
  {
  }

  lemma {:induction false} Listening(v: View, es: seq<Event>)
    requires Sound(v) && v.listening && NoInit(es)
    ensures var v', j := Run(v, es), FirstLoad(es, v.loadState != 0);
            && (v'.listening <==> j == |es|)
            && Content(v') == if j == |es| then Content(v) + AppendedBy(es) else AppendedBy(es[j + 1..])
    decreases es
  {
    if es == [] {
      Associates(Content(v), [], []);
    } else {
      hide *;
      NoInitRest(es);
      OneEvent(v, es, v.loadState != 0);
      StepContent(v, es[0]);
      var v1, rest := Step(v, es[0]), es[1..];
      Associates(Content(v), if es[0].Append? then [es[0].message] else [], AppendedBy(rest));
      if v.loadState != 0 && IsLoad(es[0]) {
        NotListening(v1, rest);
        Associates([], [], AppendedBy(rest));
      } else {
        Listening(v1, rest);
        var j := FirstLoad(rest, v1.loadState != 0);
        if j < |rest| {
          Later(es, j);
        }
      }
    }
  }

  /** After `init` and until the next one: the listener is gone exactly if the conversation page has
      stopped loading, and that not as the first page to stop; and displayed and queued together are
      the messages appended since, or, if that has not happened, all that there were and these. */
  lemma DocumentLoads(v: View, es: seq<Event>)
    requires Sound(v) && NoInit(es)
    ensures var v', j := Run(v, [Init] + es), FirstLoad(es, false);
            && (v'.listening <==> j == |es|)
            && Content(v') == if j == |es| then Content(v) + AppendedBy(es) else AppendedBy(es[j + 1..])
  {
    hide Messages, Content, Step, Sound, NoInit, FirstLoad, AppendedBy;
    StepSound(v, Init);
    RunJoin(v, [Init], es);
    RunOne(v, Init);
    InitListens(v);
    Listening(Step(v, Init), es);
  }

  lemma InitListens(v: View)
    ensures var v' := Step(v, Init); Content(v') == Content(v) && v'.listening && v'.loadState == 0
  {
  }

  /** After a reset and until the next `init`, displayed and queued together are exactly the messages
      appended in between. */
  lemma AfterReset(v: View, a: seq<Event>, reset: Event, b: seq<Event>)
    requires Sound(v) && Resets(Run(v, a), reset) && NoInit(b)
    ensures Content(Run(v, a + [reset] + b)) == AppendedBy(b)
  {
    hide Messages, Step;
    QueueOrder(v, a);
    StepContent(Run(v, a), reset);
    RunJoin(v, a + [reset], b);
    RunJoin(v, a, [reset]);
    RunOne(Run(v, a), reset);
    NotListening(Step(Run(v, a), reset), b);
    assert [] + AppendedBy(b) == AppendedBy(b);
  }

  /** A new browser that is never initialised keeps every message. */
  lemma NothingLost(es: seq<Event>)
    requires NoInit(es)
    ensures Content(Run(NEW, es)) == AppendedBy(es)
  {
    NotListening(NEW, es);
    assert [] + AppendedBy(es) == AppendedBy(es);
  }

  function ResetsIn(v: View, es: seq<Event>): nat
    decreases es
  {
    if es == [] then 0 else (if Resets(v, es[0]) then 1 else 0) + ResetsIn(Step(v, es[0]), es[1..])
  }

  function InitsIn(es: seq<Event>): nat {
    if es == [] then 0 else (if es[0].Init? then 1 else 0) + InitsIn(es[1..])
  }

  lemma {:induction false} EachInitResetsOnce(v: View, es: seq<Event>)
    ensures ResetsIn(v, es) + (if Run(v, es).listening then 1 else 0) <= InitsIn(es) + if v.listening then 1 else 0
    decreases es
  {
    hide Entries, Chunk;
    if es != [] {
      EachInitResetsOnce(Step(v, es[0]), es[1..]);
    }
  }

  /** The resets of a new browser never outnumber its initialisations. */
  lemma ResetsAreInits(es: seq<Event>)
    ensures ResetsIn(NEW, es) <= InitsIn(es)
  {
    EachInitResetsOnce(NEW, es);
  }

  // ---- Destruction ----

  lemma {:induction false} DestroyedStays(v: View, es: seq<Event>)
    requires v.destroyed
    ensures Run(v, es).destroyed
    decreases es
  {
    if es != [] {
      DestroyedStays(Step(v, es[0]), es[1..]);
    }
  }

  /** A second `destroy` changes nothing, whatever has happened since the first. */
  lemma DestroyedOnce(v: View, a: seq<Event>, b: seq<Event>)
    ensures Run(v, a + [Destroy] + b + [Destroy]) == Run(v, a + [Destroy] + b)
  {
    hide Run;
    RunJoin(v, a + [Destroy] + b, [Destroy]);
    RunJoin(v, a + [Destroy], b);
    RunJoin(v, a, [Destroy]);
    RunOne(Run(v, a), Destroy);
    DestroyedStays(Step(Run(v, a), Destroy), b);
    RunOne(Run(v, a + [Destroy] + b), Destroy);
  }

  // ---- Draining ----

  /** With more than two milliseconds left whenever it asks, one callback displays everything. */
  lemma FastDrain(v: View, timing: Timing)
    requires Sound(v) && v.pending && forall k :: 0 <= k ==> timing(k) > 2
    ensures var v' := Step(v, Callback(timing)); v'.queue == [] && !v'.pending && Messages(v'.shown) == v.appended
  {
    hide Messages;
    FullChunk(timing, 0, |v.queue|);
    StepSound(v, Callback(timing));
    var v' := Step(v, Callback(timing));
    assert Messages(v'.shown) + [] == Messages(v'.shown);
  }

  lemma {:induction false} FullChunk(timing: Timing, k: nat, n: nat)
    requires forall i :: 0 <= i ==> timing(i) > 2
    ensures Chunk(timing, k, n) == n
    decreases n
  {
    if n != 0 {
      FullChunk(timing, k + 1, n - 1);
    }
  }

  /** However the batch is cut, the last message of it is the only one that may scroll. */
  lemma {:induction false} OnlyLastScrolls(v: View, timings: seq<Timing>)
    requires Sound(v) && v.pending && |v.queue| <= |timings|
    ensures var v' := Drain(v, timings);
            && |v'.shown| == |v.shown| + |v.queue| && v.shown <= v'.shown
            && forall i :: |v.shown| <= i < |v'.shown| ==> (v'.shown[i].noAutoScroll <==> i + 1 < |v'.shown|)
    decreases timings
  {
    var v1 := Step(v, Callback(timings[0]));
    StepSound(v, Callback(timings[0]));
    if v1.pending {
      OnlyLastScrolls(v1, timings[1..]);
    }
  }
}
