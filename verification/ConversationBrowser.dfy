/** MozConversationBrowser: the queue as the code keeps it, an array with an index that is only cut
    back when everything has been shown, proved to behave as the plain queue. */
module ConversationBrowser {
  import opened ConversationModel

  class ConversationBrowser {
    var messageDisplayPending: bool
    var pendingMessages: seq<Message>
    var nextPendingMessageIndex: nat
    var pendingMessagesDisplayed: nat
    var docShellIsActive: bool
    var loadState: int
    var listening: bool
    var destroyed: bool
    // The document shown, the idle callbacks under way, and all messages since the last reset.
    var log: seq<Entry>
    var callbacks: nat
    ghost var appended: seq<Message>

    /** Between events: the displayed count is the next index, and the array is empty once all of it
        has been shown. */
    ghost predicate Valid()
      reads this
    {
      && pendingMessagesDisplayed == nextPendingMessageIndex
      && Ready()
    }

    /** The array holds a message to show, or nothing. */
    ghost predicate Ready()
      reads this
    {
      nextPendingMessageIndex < |pendingMessages| || (pendingMessages == [] && nextPendingMessageIndex == 0)
    }

    ghost function Queue(): seq<Message>
      reads this
    {
      if nextPendingMessageIndex <= |pendingMessages| then pendingMessages[nextPendingMessageIndex..] else []
    }

    ghost function View(): View
      reads this
    {
      ConversationModel.View(appended, log, Queue(), messageDisplayPending, docShellIsActive, callbacks,
                             loadState, listening, destroyed)
    }

    constructor ()
      ensures Valid() && View() == NEW
    {
      messageDisplayPending, pendingMessages := false, [];
      nextPendingMessageIndex, pendingMessagesDisplayed := 0, 0;
      docShellIsActive, loadState, listening, destroyed := false, 0, false, false;
      log, callbacks, appended := [], 0, [];
    }

    method RequestIdleCallback()
      modifies this`callbacks
      ensures callbacks == old(callbacks) + 1
    {
      callbacks := callbacks + 1;
    }

    method DisplayMessage(message: Message, noAutoScroll: bool)
      modifies this`log
      ensures log == old(log) + [Entry(message, noAutoScroll)]
    {
      log := log + [Entry(message, noAutoScroll)];
    }

    method AppendMessage(message: Message)
      requires Valid()
      modifies this
      ensures Valid() && View() == Step(old(View()), Append(message))
    {
      pendingMessages := pendingMessages + [message];
      appended := appended + [message];
      if docShellIsActive {
        StartDelayed();
      }
    }

    method SetIsActive(value: bool, timing: Timing)
      requires Valid()
      modifies this
      ensures Valid() && View() == Step(old(View()), Activate(value, timing))
    {
      docShellIsActive := value;
      if value && |pendingMessages| != 0 {
        StartNow(timing);
      }
    }

    /** startDisplayingPendingMessages(true) */
    method StartDelayed()
      requires Valid() && Queue() != []
      modifies this`messageDisplayPending, this`callbacks
      ensures messageDisplayPending
      ensures callbacks == if old(messageDisplayPending) then old(callbacks) else old(callbacks) + 1
    {
      if messageDisplayPending {
        return;
      }
      messageDisplayPending := true;
      RequestIdleCallback();
    }

    /** startDisplayingPendingMessages(false) */
    method StartNow(timing: Timing)
      requires Valid() && Queue() != []
      modifies this
      ensures Valid()
      ensures View() == if old(messageDisplayPending) then old(View()) else Display(old(View()), timing)
    {
      if messageDisplayPending {
        return;
      }
      messageDisplayPending := true;
      DisplayPendingMessages(timing);
    }

    method GetNextPendingMessage() returns (message: seq<Message>)
      requires Ready()
      modifies this`pendingMessages, this`nextPendingMessageIndex
      ensures Ready()
      ensures message + Queue() == old(Queue()) && |message| == if old(Queue()) == [] then 0 else 1
      ensures Queue() != [] ==> nextPendingMessageIndex == old(nextPendingMessageIndex) + 1
    {
      var length := |pendingMessages|;
      if nextPendingMessageIndex == length {
        return [];
      }
      message := [pendingMessages[nextPendingMessageIndex]];
      nextPendingMessageIndex := nextPendingMessageIndex + 1;
      if nextPendingMessageIndex == length {
        pendingMessages := [];
        nextPendingMessageIndex := 0;
      }
    }

    /** One round of the loop below: the next message is displayed, if there is one. */
    method DisplayNext(max: nat) returns (shown: bool)
      requires Ready()
      modifies this`pendingMessages, this`nextPendingMessageIndex, this`pendingMessagesDisplayed, this`log
      ensures Ready() && shown == (old(Queue()) != [])
      ensures !shown ==> Queue() == [] && log == old(log) && pendingMessagesDisplayed == old(pendingMessagesDisplayed)
      ensures shown ==>
                && Queue() == old(Queue())[1..] && pendingMessagesDisplayed == old(pendingMessagesDisplayed) + 1
                && log == old(log) + [Entry(old(Queue())[0], old(pendingMessagesDisplayed) + 1 < max)]
      ensures Queue() != [] ==> nextPendingMessageIndex == old(nextPendingMessageIndex) + 1
    {
      var message := GetNextPendingMessage();
      if message == [] {
        return false;
      }
      pendingMessagesDisplayed := pendingMessagesDisplayed + 1;
      DisplayMessage(message[0], pendingMessagesDisplayed < max);
      return true;
    }

    /** The do-while loop of displayPendingMessages. */
    method DisplayChunk(timing: Timing, max: nat)
      requires Valid() && max == |pendingMessages|
      modifies this`pendingMessages, this`nextPendingMessageIndex, this`pendingMessagesDisplayed, this`log
      ensures var queue, k := old(Queue()), Chunk(timing, 0, |old(Queue())|);
              && Queue() == queue[k..] && log == old(log) + Entries(queue, k)
              && pendingMessagesDisplayed == old(pendingMessagesDisplayed) + k
      ensures Ready() && (Queue() != [] ==> nextPendingMessageIndex == pendingMessagesDisplayed)
    {
      hide Entries, Chunk;
      ghost var queue, from := Queue(), nextPendingMessageIndex;
      var asked := 0;
      var more := true;
      NoEntries(queue);
      assert queue != [] ==> from + |queue| == max;
      hide Ready;
      while more
        invariant Ready() && asked <= |queue| && Queue() == queue[asked..]
        invariant log == old(log) + Entries(queue, asked)
        invariant pendingMessagesDisplayed == from + asked && (Queue() != [] ==> nextPendingMessageIndex == from + asked)
        invariant Chunk(timing, 0, |queue|) == asked + if more then Chunk(timing, asked, |queue| - asked) else 0
        decreases |queue| - asked, more
      {
        ChunkOne(timing, asked, |queue| - asked);
        var shown := DisplayNext(max);
        if !shown {
          break;
        }
        EntriesMore(queue, asked);
        more := timing(asked) > 2;
        asked := asked + 1;
      }
    }

    method DisplayPendingMessages(timing: Timing)
      requires Valid()
      modifies this
      ensures Valid()
      ensures View() == if old(messageDisplayPending) then Display(old(View()), timing) else old(View())
    {
      hide Entries, Chunk;
      if !messageDisplayPending {
        return;
      }
      var max := |pendingMessages|;
      DisplayChunk(timing, max);
      if pendingMessagesDisplayed < max {
        RequestIdleCallback();
        return;
      }
      messageDisplayPending := false;
      pendingMessagesDisplayed := 0;
    }

    /** The idle callback, when one is under way. */
    method IdleCallback(timing: Timing)
      requires Valid()
      modifies this
      ensures Valid() && View() == Step(old(View()), Callback(timing))
    {
      if callbacks == 0 {
        return;
      }
      callbacks := callbacks - 1;
      DisplayPendingMessages(timing);
    }

    method InitConversation()
      requires Valid()
      modifies this
      ensures Valid() && View() == Step(old(View()), Init)
    {
      messageDisplayPending := false;
      loadState := 0;
      listening := true;
    }

    method DestroyBrowser()
      requires Valid()
      modifies this
      ensures Valid() && View() == Step(old(View()), Destroy)
    {
      if destroyed {
        return;
      }
      destroyed := true;
      messageDisplayPending := false;
    }

    /** onStateChange, while the listener is registered. */
    method OnStateChange(stopped: bool, conversation: bool)
      requires Valid()
      modifies this
      ensures Valid() && View() == Step(old(View()), StateChange(stopped, conversation))
    {
      if !listening || !stopped {
        return;
      }
      if loadState == 0 {
        loadState := 1;
        return;
      }
      if !conversation {
        return;
      }
      log := [];
      appended := [];
      listening := false;
      messageDisplayPending := false;
      pendingMessages := [];
      nextPendingMessageIndex := 0;
      pendingMessagesDisplayed := 0;
    }
  }

  lemma NoEntries(queue: seq<Message>)
    ensures Entries(queue, 0) == []
  {
  }
}
