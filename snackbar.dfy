/**
 * The application-wide queue of snackbar messages (`SnackbarManager`).
 * Messages are appended by `ShowMessage` and removed, by id, by
 * `SetMessageShown`; the UI always displays the oldest one.
 */
module Snackbar {

  /** Kotlin's 64-bit signed `Long`, the type of a message id. */
  newtype Long = x: int | -0x8000_0000_0000_0000 <= x < 0x8000_0000_0000_0000

  /** One pending snackbar: its id and the text to display. */
  datatype Message = Message(id: Long, message: string)

  /** Some message in `ms` carries `id`. */
  predicate Mentions(ms: seq<Message>, id: Long) {
    exists m :: m in ms && m.id == id
  }

  /** No two messages in `ms` share an id. */
  predicate DistinctIds(ms: seq<Message>) {
    forall i, j :: 0 <= i < j < |ms| ==> ms[i].id != ms[j].id
  }

  /** `s` is obtained from `t` by deleting zero or more elements. */
  predicate IsSubsequence<T(==)>(s: seq<T>, t: seq<T>)
    decreases |t|
  {
    if s == [] then true
    else if t == [] then false
    else (s[0] == t[0] && IsSubsequence(s[1..], t[1..])) || IsSubsequence(s, t[1..])
  }

  /**
   * The list that `filterNot { it.id == id }` leaves: exactly the messages
   * whose id differs, in their original relative order.
   */
  function Without(ms: seq<Message>, id: Long): (r: seq<Message>)
    ensures forall m :: m in r <==> m in ms && m.id != id
    ensures |r| <= |ms|
    ensures Mentions(ms, id) ==> |r| < |ms|
  {
    if ms == [] then []
    else if ms[0].id == id then Without(ms[1..], id)
    else
      assert Mentions(ms, id) ==> Mentions(ms[1..], id) by {
        if Mentions(ms, id) {
          var m :| m in ms && m.id == id;
          assert m != ms[0];
          assert ms == [ms[0]] + ms[1..];
        }
      }
      [ms[0]] + Without(ms[1..], id)
  }

  /** Filtering keeps the surviving messages in their original relative order. */
  lemma {:induction false} WithoutIsSubsequence(ms: seq<Message>, id: Long)
    ensures IsSubsequence(Without(ms, id), ms)
  {
    if ms != [] {
      WithoutIsSubsequence(ms[1..], id);
    }
  }

  /** A subsequence of a subsequence of `c` is a subsequence of `c`. */
  lemma {:induction false} SubsequenceTransitive<T>(a: seq<T>, b: seq<T>, c: seq<T>)
    requires IsSubsequence(a, b) && IsSubsequence(b, c)
    ensures IsSubsequence(a, c)
    decreases |c|
  {
    if a == [] {
    } else if b[0] == c[0] && IsSubsequence(b[1..], c[1..]) {
      if a[0] == b[0] && IsSubsequence(a[1..], b[1..]) {
        SubsequenceTransitive(a[1..], b[1..], c[1..]);
      } else {
        SubsequenceTransitive(a, b[1..], c[1..]);
      }
    } else {
      SubsequenceTransitive(a, b, c[1..]);
    }
  }

  /** Removing an id that no message carries leaves the list as it was. */
  lemma {:induction false} WithoutAbsent(ms: seq<Message>, id: Long)
    requires !Mentions(ms, id)
    ensures Without(ms, id) == ms
  {
    if ms != [] {
      assert ms[0] in ms;
      assert forall m :: m in ms[1..] ==> m in ms;
      WithoutAbsent(ms[1..], id);
    }
  }

  /** Marking the same id shown twice has the effect of marking it once. */
  lemma {:induction false} WithoutIdempotent(ms: seq<Message>, id: Long)
    ensures Without(Without(ms, id), id) == Without(ms, id)
  {
    WithoutAbsent(Without(ms, id), id);
  }

  /**
   * Multiplicities: every message whose id differs survives as often as it
   * occurred, every message with the id disappears, duplicates included.
   */
  lemma {:induction false} WithoutCounts(ms: seq<Message>, id: Long, m: Message)
    ensures multiset(Without(ms, id))[m] == if m.id == id then 0 else multiset(ms)[m]
  {
    if ms != [] {
      assert ms == [ms[0]] + ms[1..];
      WithoutCounts(ms[1..], id, m);
    }
  }

  /** With distinct ids, removing the head's id removes the head and nothing else. */
  lemma {:induction false} ConsumeHeadDequeues(ms: seq<Message>)
    requires ms != [] && DistinctIds(ms)
    ensures Without(ms, ms[0].id) == ms[1..]
  {
    forall m | m in ms[1..] ensures m.id != ms[0].id {
      var k :| 0 <= k < |ms[1..]| && ms[1..][k] == m;
      assert ms[k + 1] == m;
    }
    WithoutAbsent(ms[1..], ms[0].id);
  }

  /**
   * With an id collision, consuming the head also discards a later message
   * that was never displayed: that message is gone, so more than one element
   * leaves the list.
   */
  lemma ConsumeHeadDropsCollision(ms: seq<Message>, k: nat)
    requires 0 < k < |ms| && ms[k].id == ms[0].id
    ensures ms[k] !in Without(ms, ms[0].id)
    ensures |Without(ms, ms[0].id)| < |ms| - 1
  {
  }

  /** Prepending a message whose id is new to a distinct list keeps it distinct. */
  lemma ConsKeepsDistinct(x: Message, s: seq<Message>)
    requires DistinctIds(s) && forall m :: m in s ==> m.id != x.id
    ensures DistinctIds([x] + s)
  {
  }

  /** Removing messages keeps the ids distinct. */
  lemma {:induction false} WithoutKeepsDistinct(ms: seq<Message>, id: Long)
    requires DistinctIds(ms)
    ensures DistinctIds(Without(ms, id))
  {
    if ms != [] {
      WithoutKeepsDistinct(ms[1..], id);
      if ms[0].id != id {
        forall m | m in Without(ms[1..], id) ensures m.id != ms[0].id {
          var k :| 0 <= k < |ms[1..]| && ms[1..][k] == m;
          assert ms[k + 1] == m;
        }
        ConsKeepsDistinct(ms[0], Without(ms[1..], id));
      }
    }
  }

  /** Appending a message with a fresh id keeps the ids distinct. */
  lemma AppendKeepsDistinct(ms: seq<Message>, id: Long, message: string)
    requires DistinctIds(ms) && !Mentions(ms, id)
    ensures DistinctIds(ms + [Message(id, message)])
  {
  }

  /** The singleton that holds the pending messages. */
  class SnackbarManager {
    var messages: seq<Message>

    /** The list starts empty. */
    constructor ()
      ensures messages == []
    {
      messages := [];
    }

    /**
     * Queues `message` under `id` (the caller supplies what
     * `UUID.randomUUID().mostSignificantBits` would give).
     */
    method ShowMessage(id: Long, message: string)
      modifies this
      ensures messages == old(messages) + [Message(id, message)]
      ensures |messages| == |old(messages)| + 1
      ensures messages[|messages| - 1] == Message(id, message)
      ensures messages[..|old(messages)|] == old(messages)
      ensures old(DistinctIds(messages)) && !old(Mentions(messages, id)) ==> DistinctIds(messages)
    {
      if DistinctIds(messages) && !Mentions(messages, id) {
        AppendKeepsDistinct(messages, id, message);
      }
      messages := messages + [Message(id, message)];
    }

    /** Removes every message carrying `messageId`. */
    method SetMessageShown(messageId: Long)
      modifies this
      ensures messages == Without(old(messages), messageId)
      ensures !Mentions(messages, messageId)
      ensures IsSubsequence(messages, old(messages))
      ensures !old(Mentions(messages, messageId)) ==> messages == old(messages)
      ensures old(DistinctIds(messages)) ==> DistinctIds(messages)
    {
      if !Mentions(messages, messageId) {
        WithoutAbsent(messages, messageId);
      }
      if DistinctIds(messages) {
        WithoutKeepsDistinct(messages, messageId);
      }
      WithoutIsSubsequence(messages, messageId);
      messages := Without(messages, messageId);
    }
  }
}
