/** The task buffer of the `useSQS` hook: a growing sequence of task messages with a
    cursor `index` on the current task. Each React state update is modelled as one
    sequential step on a `TaskBuffer` object. */
module UseSqs {
  import opened Messages

  /** How few tasks may be left from the cursor on before more are requested. */
  const Margin := 3

  /** How far ahead of the cursor `inject` puts a message. */
  const InjectOffset := 3

  /** The cursor invariant: `index` is never negative, and it points into the buffer
      unless both are still at their initial state (`index == 0`, possibly empty). */
  predicate CursorValid(len: nat, index: int)
  {
    0 <= index && (index == 0 || index < len)
  }

  /** `next` is handed out only when a task follows the current one. */
  predicate NextOffered(len: nat, index: int)
  {
    len > index + 1
  }

  /** `prev` is handed out only when `index` is truthy, that is, non-zero. */
  predicate PrevOffered(index: int)
  {
    index != 0
  }

  /** JavaScript truthiness of the current queue URL: absent and empty are falsy. */
  predicate QueuePresent(currentQueue: Option<string>)
  {
    currentQueue.Some? && currentQueue.value != ""
  }

  /** The condition of the refill effect: credentials and a current queue are present
      and at most `Margin` tasks are left counting the current one. */
  predicate RefillDue(hasCredentials: bool, currentQueue: Option<string>, len: nat, index: int)
  {
    hasCredentials && len - index <= Margin && QueuePresent(currentQueue)
  }

  /** Taking `next` where it is offered keeps the cursor inside the buffer. */
  lemma NextKeepsCursor(len: nat, index: int)
    requires CursorValid(len, index) && NextOffered(len, index)
    ensures CursorValid(len, index + 1) && index + 1 < len
  {
  }

  /** Taking `prev` where it is offered never makes the cursor negative. */
  lemma PrevKeepsCursor(len: nat, index: int)
    requires CursorValid(len, index) && PrevOffered(index)
    ensures CursorValid(len, index - 1) && 0 <= index - 1
  {
  }

  /** Growing the buffer never invalidates the cursor. */
  lemma GrowthKeepsCursor(len: nat, len': nat, index: int)
    requires CursorValid(len, index) && len <= len'
    ensures CursorValid(len', index)
  {
  }

  /** The cursor is never left stranded: whenever `next` is not offered and the queue
      can be reached, a refill is due. */
  lemma StrandedMeansRefill(hasCredentials: bool, currentQueue: Option<string>, len: nat, index: int)
    requires CursorValid(len, index)
    requires hasCredentials && QueuePresent(currentQueue)
    ensures !NextOffered(len, index) ==> RefillDue(hasCredentials, currentQueue, len, index)
  {
  }

  /** Conversely, when the queue can be reached and no refill is due, more than
      `Margin` tasks lie from the cursor on: `next` is offered and `inject` lands at
      exactly `index + InjectOffset`, without clamping. */
  lemma StockedWhenNotDue(hasCredentials: bool, currentQueue: Option<string>, len: nat, index: int)
    requires CursorValid(len, index)
    requires hasCredentials && QueuePresent(currentQueue)
    requires !RefillDue(hasCredentials, currentQueue, len, index)
    ensures NextOffered(len, index)
    ensures index + InjectOffset < len && Clamp(index + InjectOffset, len) == index + InjectOffset
  {
  }

  /** `inject` with a valid cursor grows the buffer by exactly one, puts the message at
      `min(index + 3, |s|)`, keeps every old message (removing the new slot gives `s`
      back, and the multiset grows by the message alone), and leaves the current message
      and the two after it where they were. */
  lemma {:induction false} InjectKeepsWindow<T>(s: seq<T>, index: int, m: T)
    requires CursorValid(|s|, index)
    ensures Clamp(index + InjectOffset, |s|) == if index + InjectOffset < |s| then index + InjectOffset else |s|
    ensures |Spliced(s, index + InjectOffset, m)| == |s| + 1
    ensures Spliced(s, index + InjectOffset, m)[Clamp(index + InjectOffset, |s|)] == m
    ensures Spliced(s, index + InjectOffset, m)[..Clamp(index + InjectOffset, |s|)] +
            Spliced(s, index + InjectOffset, m)[Clamp(index + InjectOffset, |s|) + 1..] == s
    ensures multiset(Spliced(s, index + InjectOffset, m)) == multiset(s) + multiset{m}
    ensures forall i :: index <= i < index + InjectOffset && i < |s| ==>
              Spliced(s, index + InjectOffset, m)[i] == s[i]
  {
    var p := Clamp(index + InjectOffset, |s|);
    InsertKeepsOthers(s, p, m);
  }

  /** The `message_id`s of a sequence of messages. */
  function IdsOf(ms: seq<Message>): (r: set<MessageId>)
  {
    set i | 0 <= i < |ms| :: ms[i].messageId
  }

  class TaskBuffer {
    /** The received (and injected) task messages, oldest first. */
    var buffer: seq<Message>
    /** The cursor on the current task. */
    var index: int
    /** The next position of the fresh-id supply. */
    var nextId: MessageId
    /** Every `message_id` assigned on receipt so far. */
    ghost var issued: set<MessageId>

    ghost predicate Valid()
      reads this
    {
      CursorValid(|buffer|, index) &&
      forall x :: x in issued ==> x < nextId
    }

    /** The hook's initial state: an empty buffer and `index == 0`. */
    constructor ()
      ensures Valid()
      ensures buffer == [] && index == 0 && issued == {}
    {
      buffer := [];
      index := 0;
      nextId := 0;
      issued := {};
    }

    /** Whether the hook hands out `next`. */
    predicate CanNext()
      reads this
    {
      NextOffered(|buffer|, index)
    }

    /** Whether the hook hands out `prev`. */
    predicate CanPrev()
      reads this
    {
      PrevOffered(index)
    }

    /** `next`: move the cursor one task forward. */
    method Next()
      requires Valid() && CanNext()
      modifies this
      ensures Valid()
      ensures index == old(index) + 1 && index < |buffer|
      ensures buffer == old(buffer) && nextId == old(nextId) && issued == old(issued)
    {
      NextKeepsCursor(|buffer|, index);
      index := index + 1;
    }

    /** `prev`: move the cursor one task back. */
    method Prev()
      requires Valid() && CanPrev()
      modifies this
      ensures Valid()
      ensures index == old(index) - 1 && 0 <= index
      ensures buffer == old(buffer) && nextId == old(nextId) && issued == old(issued)
    {
      PrevKeepsCursor(|buffer|, index);
      index := index - 1;
    }

    /** `inject`: insert `message` `InjectOffset` slots ahead of the cursor (clamped
        to the end), keeping the cursor and every other message. */
    method Inject(message: Message)
      requires Valid()
      modifies this
      ensures Valid()
      ensures buffer == Spliced(old(buffer), old(index) + InjectOffset, message)
      ensures |buffer| == |old(buffer)| + 1
      ensures multiset(buffer) == multiset(old(buffer)) + multiset{message}
      ensures Clamp(old(index) + InjectOffset, |old(buffer)|) ==
              if old(index) + InjectOffset < |old(buffer)| then old(index) + InjectOffset else |old(buffer)|
      ensures buffer[Clamp(old(index) + InjectOffset, |old(buffer)|)] == message
      ensures buffer[..Clamp(old(index) + InjectOffset, |old(buffer)|)] +
              buffer[Clamp(old(index) + InjectOffset, |old(buffer)|) + 1..] == old(buffer)
      ensures forall i :: index <= i < index + InjectOffset && i < |old(buffer)| ==>
                buffer[i] == old(buffer)[i]
      ensures index == old(index) && nextId == old(nextId) && issued == old(issued)
    {
      InjectKeepsWindow(buffer, index, message);
      buffer := Spliced(buffer, index + InjectOffset, message);
    }

    /** The `then` of `getMessages`: a response carrying `Messages` has its bodies
        stamped with fresh ids and appended (an empty batch appends nothing); a response
        without `Messages` changes nothing and asks for a retry. */
    method Receive(response: Option<seq<Body>>) returns (retry: bool)
      requires Valid()
      modifies this
      ensures Valid()
      ensures retry == response.None?
      ensures index == old(index)
      ensures old(buffer) <= buffer
      ensures response.None? ==>
                buffer == old(buffer) && nextId == old(nextId) && issued == old(issued)
      ensures response.Some? ==>
                buffer == old(buffer) + Stamp(response.value, old(nextId)) &&
                nextId == old(nextId) + |response.value| &&
                issued == old(issued) + IdsOf(buffer[|old(buffer)|..])
      ensures forall i :: |old(buffer)| <= i < |buffer| ==> buffer[i].messageId !in old(issued)
      ensures forall i, j :: |old(buffer)| <= i < j < |buffer| ==> buffer[i].messageId != buffer[j].messageId
    {
      match response
      case None =>
        retry := true;
      case Some(bodies) =>
        var stamped := Stamp(bodies, nextId);
        StampFresh(bodies, nextId);
        StampAvoidsIssued(bodies, nextId, issued);
        GrowthKeepsCursor(|buffer|, |buffer| + |stamped|, index);
        buffer := buffer + stamped;
        assert buffer[|old(buffer)|..] == stamped;
        issued := issued + IdsOf(stamped);
        nextId := nextId + |bodies|;
        retry := false;
    }

    /** The refill effect: request messages when `RefillDue` holds, and hand whatever
        the queue answers to `Receive`. */
    method Refill(hasCredentials: bool, currentQueue: Option<string>, response: Option<seq<Body>>)
      returns (requested: bool, retry: bool)
      requires Valid()
      modifies this
      ensures Valid()
      ensures requested == RefillDue(hasCredentials, currentQueue, |old(buffer)|, old(index))
      ensures !requested ==>
                !retry && buffer == old(buffer) && nextId == old(nextId) && issued == old(issued)
      ensures requested ==> retry == response.None?
      ensures requested && response.Some? ==>
                buffer == old(buffer) + Stamp(response.value, old(nextId)) &&
                nextId == old(nextId) + |response.value| &&
                issued == old(issued) + IdsOf(buffer[|old(buffer)|..])
      ensures requested && response.None? ==>
                buffer == old(buffer) && nextId == old(nextId) && issued == old(issued)
      ensures index == old(index) && old(buffer) <= buffer
      ensures forall i :: |old(buffer)| <= i < |buffer| ==> buffer[i].messageId !in old(issued)
      ensures forall i, j :: |old(buffer)| <= i < j < |buffer| ==> buffer[i].messageId != buffer[j].messageId
    {
      requested := RefillDue(hasCredentials, currentQueue, |buffer|, index);
      retry := false;
      if requested {
        retry := Receive(response);
      }
    }
  }
}
