/** The message queue of a conversation browser as a plain first-in first-out queue, driven by
    events, and what holds over every run. */
module ConversationModel {
  datatype Message = Message(text: string, context: bool, firstUnread: bool)

  /** A displayed message, and whether scrolling to it was suppressed. */
  datatype Entry = Entry(message: Message, noAutoScroll: bool)

  /** What the idle callback may ask: the milliseconds left at its k-th question. */
  type Timing = nat -> int

  /** `appended` and `shown` count from the last reset; `callbacks` are the idle callbacks that have
      been requested and not yet come. */
  datatype View = View(
    appended: seq<Message>, shown: seq<Entry>, queue: seq<Message>,
    pending: bool, active: bool, callbacks: nat,
    loadState: int, listening: bool, destroyed: bool)

  datatype Event =
    | Append(message: Message)
    | Activate(value: bool, timing: Timing)
    | Callback(timing: Timing)
    | Init
    | Destroy
    | StateChange(stopped: bool, conversation: bool)

  const NEW := View([], [], [], false, false, 0, 0, false, false)

  /** How many of `n` queued messages one call displays: one at least, and another for each time
      more than two milliseconds are left. */
  function Chunk(timing: Timing, k: nat, n: nat): (c: nat)
    ensures c <= n && (0 < n ==> 0 < c)
    decreases n
  {
    if n == 0 then 0 else 1 + if timing(k) > 2 then Chunk(timing, k + 1, n - 1) else 0
  }

  lemma ChunkOne(timing: Timing, k: nat, n: nat)
    ensures Chunk(timing, k, n) == if n == 0 then 0 else 1 + if timing(k) > 2 then Chunk(timing, k + 1, n - 1) else 0
  {
  }

  /** The first `k` of the queue as displayed: only the last message of the queue may scroll. */
  function Entries(queue: seq<Message>, k: nat): seq<Entry>
    requires k <= |queue|
  {
    seq(k, j requires 0 <= j < k => Entry(queue[j], j + 1 < |queue|))
  }

  function Messages(entries: seq<Entry>): seq<Message> {
    seq(|entries|, j requires 0 <= j < |entries| => entries[j].message)
  }

  /** One chunk: what is left over is left to another callback. */
  function Display(v: View, timing: Timing): View {
    var k := Chunk(timing, 0, |v.queue|);
    var rest := v.queue[k..];
    v.(shown := v.shown + Entries(v.queue, k), queue := rest,
       pending := rest != [], callbacks := if rest != [] then v.callbacks + 1 else v.callbacks)
  }

  function Step(v: View, e: Event): View {
    match e
    case Append(m) =>
      var v1 := v.(appended := v.appended + [m], queue := v.queue + [m]);
      if v.active && !v.pending then v1.(pending := true, callbacks := v.callbacks + 1) else v1
    case Activate(value, timing) =>
      var v1 := v.(active := value);
      if value && v.queue != [] && !v.pending then Display(v1, timing) else v1
    case Callback(timing) =>
      if v.callbacks == 0 then v
      else
        var v1 := v.(callbacks := v.callbacks - 1);
        if v.pending then Display(v1, timing) else v1
    case Init => v.(pending := false, loadState := 0, listening := true)
    case Destroy => if v.destroyed then v else v.(pending := false, destroyed := true)
    case StateChange(stopped, conversation) =>
      if !v.listening || !stopped then v
      else if v.loadState == 0 then v.(loadState := 1)
      else if !conversation then v
      else v.(appended := [], shown := [], queue := [], pending := false, listening := false)
  }

  function Run(v: View, es: seq<Event>): View
    decreases es
  {
    if es == [] then v else Run(Step(v, es[0]), es[1..])
  }

  // ---- What every run keeps ----

  /** Every message appended since the last reset is displayed or queued, in order and once; a set
      flag has a callback under way and messages to show. */
  predicate Sound(v: View) {
    && v.appended == Messages(v.shown) + v.queue
    && (v.pending ==> 0 < v.callbacks && v.queue != [])
  }

  /** An active browser with the flag clear has nothing left to show. */
  predicate Settled(v: View) {
    v.active && !v.pending ==> v.queue == []
  }

  lemma MessagesJoin(a: seq<Entry>, b: seq<Entry>)
    ensures Messages(a + b) == Messages(a) + Messages(b)
  {
  }

  lemma EntriesMessages(queue: seq<Message>, k: nat)
    requires k <= |queue|
    ensures Messages(Entries(queue, k)) == queue[..k] && queue == queue[..k] + queue[k..]
  {
  }

  lemma EntriesMore(queue: seq<Message>, k: nat)
    requires k < |queue|
    ensures Entries(queue, k + 1) == Entries(queue, k) + [Entry(queue[k], k + 1 < |queue|)]
  {
  }

  lemma DisplaySound(v: View, timing: Timing)
    requires v.appended == Messages(v.shown) + v.queue
    ensures Sound(Display(v, timing)) && Settled(Display(v, timing))
  {
    hide Entries, Messages, Chunk;
    var k := Chunk(timing, 0, |v.queue|);
    EntriesMessages(v.queue, k);
    MessagesJoin(v.shown, Entries(v.queue, k));
    assert Messages(v.shown) + (v.queue[..k] + v.queue[k..]) == Messages(v.shown) + v.queue[..k] + v.queue[k..];
  }

  lemma StepSound(v: View, e: Event)
    requires Sound(v)
    ensures Sound(Step(v, e))
  {
    match e
    case Append(m) => assert v.appended + [m] == Messages(v.shown) + (v.queue + [m]);
    case Activate(value, timing) => DisplaySound(v.(active := value), timing);
    case Callback(timing) =>
      if 0 < v.callbacks {
        DisplaySound(v.(callbacks := v.callbacks - 1), timing);
      }
    case _ =>
  }

  /** Queue order, over every interleaving of events with any time budgets: what is displayed is a
      prefix of what was appended since the last reset, and the rest is queued. */
  lemma {:induction false} QueueOrder(v: View, es: seq<Event>)
    requires Sound(v)
    ensures var v' := Run(v, es);
            && Sound(v') && Messages(v'.shown) <= v'.appended
            && v'.queue == v'.appended[|v'.shown|..]
    decreases es
  {
    if es != [] {
      StepSound(v, es[0]);
      QueueOrder(Step(v, es[0]), es[1..]);
    }
  }

  /** In particular from a new browser on. */
  lemma QueueOrderFromNew(es: seq<Event>)
    ensures Messages(Run(NEW, es).shown) + Run(NEW, es).queue == Run(NEW, es).appended
    ensures Run(NEW, es).pending ==> 0 < Run(NEW, es).callbacks && Run(NEW, es).queue != []
  {
    QueueOrder(NEW, es);
  }

  lemma {:induction false} RunJoin(v: View, a: seq<Event>, b: seq<Event>)
    ensures Run(v, a + b) == Run(Run(v, a), b)
    decreases a
  {
    hide Step;
    if a == [] {
      assert a + b == b;
    } else {
      assert (a + b)[1..] == a[1..] + b;
      RunJoin(Step(v, a[0]), a[1..], b);
    }
  }

  // ---- Progress ----

  /** The event empties the queue because the conversation document has loaded. */
  predicate Resets(v: View, e: Event) {
    e.StateChange? && e.stopped && e.conversation && v.listening && v.loadState != 0
  }

  /** `init` and `destroy` clear the flag in the middle of a batch. */
  predicate Interrupts(v: View, e: Event) {
    (e.Init? || (e.Destroy? && !v.destroyed)) && v.active && v.queue != []
  }

  /** A message for an active browser, any change of activity, and a reset see to the queue. */
  predicate Settles(v: View, e: Event) {
    (e.Append? && v.active) || e.Activate? || Resets(v, e)
  }

  /** What each event does: a browser is settled after it exactly if the event settles it, or it was
      settled and the event is no interruption. */
  lemma StepSettles(v: View, e: Event)
    requires Sound(v)
    ensures Settled(Step(v, e)) <==> Settles(v, e) || (Settled(v) && !Interrupts(v, e))
  {
    hide Display, Messages;
    match e
    case Activate(value, timing) => DisplaySettled(v.(active := value), timing);
    case Callback(timing) =>
      if 0 < v.callbacks {
        DisplaySettled(v.(callbacks := v.callbacks - 1), timing);
      }
    case _ =>
  }

  lemma DisplaySettled(v: View, timing: Timing)
    ensures Settled(Display(v, timing))
  {
    hide Entries;
  }

  /** No interruption from the given event on. */
  ghost predicate Undisturbed(v: View, es: seq<Event>, from: nat) {
    forall j :: from <= j < |es| ==> !Interrupts(Run(v, es[..j]), es[j])
  }

  /** The event settles the browser, and there is no interruption after it. */
  ghost predicate SettledAt(v: View, es: seq<Event>, i: nat) {
    i < |es| && Settles(Run(v, es[..i]), es[i]) && Undisturbed(v, es, i + 1)
  }

  /** Over every run: the browser is settled at the end exactly if some event settled it, or it was
      settled to begin with, and no `init` or `destroy` has interrupted a batch since. */
  lemma {:induction false} RunSettles(v: View, es: seq<Event>)
    requires Sound(v)
    ensures Settled(Run(v, es)) <==> (exists i :: SettledAt(v, es, i)) || (Settled(v) && Undisturbed(v, es, 0))
    decreases |es|
  {
    hide Settled, Settles, Interrupts, Step, Sound;
    if es != [] {
      var n := |es| - 1;
      var init, e := es[..n], es[n];
      RunSettles(v, init);
      QueueOrder(v, init);
      StepSettles(Run(v, init), e);
      assert es == init + [e] && es[..n] == init;
      RunJoin(v, init, [e]);
      RunOne(Run(v, init), e);
      forall i | 0 <= i <= n ensures Undisturbed(v, es, i) <==> Undisturbed(v, init, i) && !Interrupts(Run(v, init), e) {
        UndisturbedMore(v, es, i);
      }
      forall i | 0 <= i < n ensures SettledAt(v, es, i) <==> SettledAt(v, init, i) && !Interrupts(Run(v, init), e) {
        assert es[..i] == init[..i] && es[i] == init[i];
      }
      assert SettledAt(v, es, n) <==> Settles(Run(v, init), e);
      SettlesIsNoInterruption(Run(v, init), e);
    }
  }

  lemma UndisturbedMore(v: View, es: seq<Event>, from: nat)
    requires es != [] && from < |es|
    ensures var init, e := es[..|es| - 1], es[|es| - 1];
            Undisturbed(v, es, from) <==> Undisturbed(v, init, from) && !Interrupts(Run(v, init), e)
  {
    hide Interrupts, Run;
    var init := es[..|es| - 1];
    assert forall j :: 0 <= j < |init| ==> es[..j] == init[..j] && es[j] == init[j];
  }

  lemma SettlesIsNoInterruption(v: View, e: Event)
    ensures Settles(v, e) ==> !Interrupts(v, e)
  {
  }

  lemma RunOne(v: View, e: Event)
    ensures Run(v, [e]) == Step(v, e)
  {
    assert [e][1..] == [];
  }

  /** Queue progress: once the conversation document has loaded, and until another `init` or
      `destroy`, an active browser whose flag is clear between events has an empty queue. */
  lemma QueueProgress(v: View, a: seq<Event>, reset: Event, b: seq<Event>)
    requires Sound(v) && Resets(Run(v, a), reset)
    requires forall i :: 0 <= i < |b| ==> !b[i].Init? && !b[i].Destroy?
    ensures var v' := Run(v, a + [reset] + b); v'.active && !v'.pending ==> v'.queue == []
  {
    hide Step, Sound, Resets;
    var es, n := a + [reset] + b, |a|;
    assert es[..n] == a && es[n] == reset && forall j :: n < j < |es| ==> es[j] == b[j - n - 1];
    assert Settles(Run(v, es[..n]), es[n]);
    assert SettledAt(v, es, n);
    RunSettles(v, es);
  }

  /** The same for a run from a settled browser, as a new one is. */
  lemma ProgressFromSettled(v: View, es: seq<Event>)
    requires Sound(v) && Settled(v) && forall i :: 0 <= i < |es| ==> !es[i].Init? && !es[i].Destroy?
    ensures Settled(Run(v, es))
  {
    hide Step, Sound, Settled;
    RunSettles(v, es);
  }

  // ---- Callbacks ----

  /** The callbacks to come that no batch has asked for any longer. */
  function Strays(v: View): int {
    v.callbacks - if v.pending then 1 else 0
  }

  /** A batch under way is given up. */
  predicate Abandons(v: View, e: Event) {
    v.pending && (e.Init? || (e.Destroy? && !v.destroyed) || Resets(v, e))
  }

  /** A callback comes and finds nothing to do. */
  predicate Idles(v: View, e: Event) {
    e.Callback? && 0 < v.callbacks && !v.pending
  }

  function Abandoned(v: View, es: seq<Event>): nat
    decreases es
  {
    if es == [] then 0 else (if Abandons(v, es[0]) then 1 else 0) + Abandoned(Step(v, es[0]), es[1..])
  }

  function Idled(v: View, es: seq<Event>): nat
    decreases es
  {
    if es == [] then 0 else (if Idles(v, es[0]) then 1 else 0) + Idled(Step(v, es[0]), es[1..])
  }

  lemma StepStrays(v: View, e: Event)
    ensures Strays(Step(v, e)) == Strays(v) + (if Abandons(v, e) then 1 else 0) - if Idles(v, e) then 1 else 0
  {
    hide Entries, Chunk;
  }

  /** Over every run no callback is lost or asked for twice: there is one for the batch under way and
      one for each batch given up whose callback has not come since. */
  lemma {:induction false} CallbacksAddUp(v: View, es: seq<Event>)
    ensures Strays(Run(v, es)) == Strays(v) + Abandoned(v, es) - Idled(v, es)
    decreases es
  {
    hide Step, Abandons, Idles, Strays;
    if es != [] {
      StepStrays(v, es[0]);
      CallbacksAddUp(Step(v, es[0]), es[1..]);
    }
  }

  /** If no batch is given up, a new browser has a callback to come exactly while the flag is set, and
      never two. */
  lemma OneCallback(es: seq<Event>)
    requires Abandoned(NEW, es) == 0
    ensures Run(NEW, es).callbacks == if Run(NEW, es).pending then 1 else 0
  {
    hide Step, Run, Abandoned, Idled;
    CallbacksAddUp(NEW, es);
    QueueOrder(NEW, es);
  }

  // ---- Draining ----

  /** Idle callbacks one after another until the flag is clear. */
  function Drain(v: View, timings: seq<Timing>): View
    decreases timings
  {
    if timings == [] || !v.pending then v else Drain(Step(v, Callback(timings[0])), timings[1..])
  }

  /** With nothing appended, as many callbacks as there are messages display them all, however
      little time each is given; and there is always a callback to come. */
  lemma {:induction false} Drains(v: View, timings: seq<Timing>)
    requires Sound(v) && v.pending && |v.queue| <= |timings|
    ensures var v' := Drain(v, timings);
            !v'.pending && v'.queue == [] && Messages(v'.shown) == v.appended && v'.appended == v.appended
    decreases timings
  {
    var v1 := Step(v, Callback(timings[0]));
    StepSound(v, Callback(timings[0]));
    assert |v1.queue| < |v.queue|;
    if v1.pending {
      Drains(v1, timings[1..]);
    } else {
      assert Messages(v1.shown) + [] == Messages(v1.shown);
    }
  }

  /** One message per callback is all that the worst budget gives. */
  lemma {:induction false} SlowDrain(v: View, timings: seq<Timing>)
    requires Sound(v) && v.pending && |timings| < |v.queue| && forall i, k :: 0 <= i < |timings| && 0 <= k ==> timings[i](k) <= 2
    ensures var v' := Drain(v, timings); v'.pending && v'.queue == v.queue[|timings|..]
    decreases timings
  {
    if timings != [] {
      var v1 := Step(v, Callback(timings[0]));
      StepSound(v, Callback(timings[0]));
      assert timings[0](0) <= 2;
      assert v1.queue == v.queue[1..];
      SlowDrain(v1, timings[1..]);
    }
  }
}
