/**
 * The consumer of the snackbar queue in `MybkAppState`: whenever the list is
 * non-empty it displays the first message and then marks that message's id
 * as shown.
 */
module AppState {
  import opened Nullable
  import opened Snackbar

  /**
   * The messages displayed, in order, when the consumer keeps taking the head
   * of `ms` until the list is empty and nothing new is queued meanwhile.
   */
  function Drain(ms: seq<Message>): (shown: seq<Message>)
    ensures forall m :: m in shown ==> m in ms
    ensures ms != [] ==> shown != [] && shown[0] == ms[0]
    decreases |ms|
  {
    if ms == [] then []
    else
      assert ms[0] in ms;
      [ms[0]] + Drain(Without(ms, ms[0].id))
  }

  /** With distinct ids every queued message is displayed once, in insertion order. */
  lemma {:induction false} DrainInOrder(ms: seq<Message>)
    requires DistinctIds(ms)
    ensures Drain(ms) == ms
    decreases |ms|
  {
    if ms != [] {
      ConsumeHeadDequeues(ms);
      DrainInOrder(ms[1..]);
    }
  }

  /** Whatever the ids, the displayed messages keep the order in which they were queued. */
  lemma {:induction false} DrainIsSubsequence(ms: seq<Message>)
    ensures IsSubsequence(Drain(ms), ms)
    decreases |ms|
  {
    if ms != [] {
      var rest := Without(ms, ms[0].id);
      assert rest == Without(ms[1..], ms[0].id);
      DrainIsSubsequence(rest);
      WithoutIsSubsequence(ms[1..], ms[0].id);
      SubsequenceTransitive(Drain(rest), rest, ms[1..]);
    }
  }

  /**
   * A later message that shares the head's id, without being the same
   * message, is never displayed.
   */
  lemma CollisionNeverShown(ms: seq<Message>, k: nat)
    requires 0 < k < |ms| && ms[k].id == ms[0].id && ms[k] != ms[0]
    ensures ms[k] !in Drain(ms)
  {
  }

  /**
   * One round of the consumer: display the head (if any), then mark its id
   * shown. The display itself is left to the UI framework.
   */
  method ShowNextMessage(manager: SnackbarManager) returns (shown: Option<Message>)
    modifies manager
    ensures shown.None? <==> old(manager.messages) == []
    ensures shown.Some? ==> shown.value == old(manager.messages)[0]
    ensures shown.Some? ==> manager.messages == Without(old(manager.messages), shown.value.id)
    ensures shown.None? ==> manager.messages == []
    ensures Drain(old(manager.messages))
            == (if shown.Some? then [shown.value] else []) + Drain(manager.messages)
    ensures old(DistinctIds(manager.messages)) && shown.Some? ==>
              manager.messages == old(manager.messages)[1..]
  {
    if manager.messages == [] {
      shown := None;
    } else {
      var message := manager.messages[0];
      shown := Some(message);
      if DistinctIds(manager.messages) {
        ConsumeHeadDequeues(manager.messages);
      }
      manager.SetMessageShown(message.id);
    }
  }
}
