/** Values handled by the task buffer of the `useSQS` hook: the decoded body of a
    queue message, the task message the hook keeps, JavaScript's `Array.prototype.slice`
    with its clamping of indices, the spread-of-two-slices insertion that `inject`
    performs, and the stamping of received bodies with fresh `message_id`s. */
module Messages {

  datatype Option<+T> = None | Some(value: T)

  /** A `message_id` handed out on receipt. The hook draws a random UUID; the model
      draws from a counter, which is what makes freshness provable. */
  type MessageId = nat

  /** The parsed JSON body of a queue message. Only its optional queue-side `id`
      (a location id, which may repeat across messages) matters here. */
  datatype Body = Body(id: Option<string>)

  /** A task message as the hook stores it: its own `message_id` plus the optional
      queue-side `id`. The `ack` closure is I/O and is not part of the model. */
  datatype Message = Message(messageId: MessageId, id: Option<string>)

  /** How `slice` turns a relative index into an absolute one: a negative index
      counts back from the end, and the result is clamped to `0..len`. An index that
      already lies in `0..len` means itself. */
  function Clamp(rel: int, len: nat): (r: nat)
    ensures r <= len
    ensures 0 <= rel <= len ==> r == rel
  {
    if rel < 0 then (if len + rel < 0 then 0 else len + rel)
    else if rel > len then len
    else rel
  }

  /** Laws of `slice`'s index rule itself: clamping twice changes nothing more, and a
      negative index within reach names the same slot as its count from the start,
      `len + rel`. `inject` only ever passes `index + 3 >= 3`, so the negative case
      documents `slice` rather than a path the hook takes. */
  lemma ClampLaws(rel: int, len: nat)
    ensures Clamp(Clamp(rel, len), len) == Clamp(rel, len)
    ensures rel < 0 && 0 <= len + rel ==> Clamp(rel, len) == Clamp(len + rel, len)
  {
  }

  /** `s.slice(begin, end)`: the elements from the clamped `begin` up to, not including,
      the clamped `end`, in order; none when the two cross. Sliced from the start it is
      a prefix of `s`; sliced to (or past) the end it is a suffix. */
  function JsSlice<T>(s: seq<T>, begin: int, end: int): (r: seq<T>)
    ensures |r| <= |s|
    ensures begin == 0 ==> r == s[..Clamp(end, |s|)]
    ensures end >= |s| ==> r == s[Clamp(begin, |s|)..]
  {
    var from, to := Clamp(begin, |s|), Clamp(end, |s|);
    if from < to then s[from..to] else []
  }

  /** The two slices `inject` spreads, `slice(0, at)` and `slice(at)`, split `s` at one
      point for every `at`, negative or past the end included. */
  lemma JsSliceSplit<T>(s: seq<T>, at: int)
    ensures JsSlice(s, 0, at) == s[..Clamp(at, |s|)]
    ensures JsSlice(s, at, |s|) == s[Clamp(at, |s|)..]
    ensures JsSlice(s, 0, at) + JsSlice(s, at, |s|) == s
  {
    var p := Clamp(at, |s|);
    assert JsSlice(s, 0, at) == s[..p];
    assert JsSlice(s, at, |s|) == s[p..];
    assert s[..p] + s[p..] == s;
  }

  /** `[...s.slice(0, at), m, ...s.slice(at)]`, the buffer update of `inject`. Because
      the two slices split `s` at one point, the splice puts `m` at the clamped position
      `Clamp(at, |s|)` and keeps everything else around it. */
  function Spliced<T>(s: seq<T>, at: int, m: T): (r: seq<T>)
    ensures r == s[..Clamp(at, |s|)] + [m] + s[Clamp(at, |s|)..]
  {
    JsSliceSplit(s, at);
    JsSlice(s, 0, at) + [m] + JsSlice(s, at, |s|)
  }

  /** Inserting one element: the length grows by exactly one, the new element is at
      `p`, everything before `p` stays where it was, everything from `p` on moves up by
      one slot, and deleting slot `p` gives back the original sequence (so all old
      elements keep their relative order). */
  lemma {:induction false} InsertKeepsOthers<T>(s: seq<T>, p: nat, m: T)
    requires p <= |s|
    ensures |s[..p] + [m] + s[p..]| == |s| + 1
    ensures (s[..p] + [m] + s[p..])[p] == m
    ensures forall i :: 0 <= i < p ==> (s[..p] + [m] + s[p..])[i] == s[i]
    ensures forall i :: p <= i < |s| ==> (s[..p] + [m] + s[p..])[i + 1] == s[i]
    ensures (s[..p] + [m] + s[p..])[..p] + (s[..p] + [m] + s[p..])[p + 1..] == s
    ensures multiset(s[..p] + [m] + s[p..]) == multiset(s) + multiset{m}
  {
    var r := s[..p] + [m] + s[p..];
    assert r[..p] == s[..p];
    assert r[p + 1..] == s[p..];
    assert s[..p] + s[p..] == s;
    calc {
      multiset(r);
      multiset(s[..p]) + multiset{m} + multiset(s[p..]);
      multiset(s[..p] + s[p..]) + multiset{m};
      { assert s[..p] + s[p..] == s; }
      multiset(s) + multiset{m};
    }
  }

  /** Gives each received body its own `message_id`, drawn in order from `first`,
      as the `map` over the received messages does. */
  function Stamp(bodies: seq<Body>, first: MessageId): (r: seq<Message>)
    ensures |r| == |bodies|
    ensures forall i :: 0 <= i < |r| ==> r[i].messageId == first + i && r[i].id == bodies[i].id
    decreases |bodies|
  {
    if bodies == [] then []
    else [Message(first, bodies[0].id)] + Stamp(bodies[1..], first + 1)
  }

  /** Receiving two batches one after the other stamps and appends exactly what
      receiving their concatenation at once would: ids continue where the first batch
      left off, and order is kept across batches. */
  lemma {:induction false} StampConcat(a: seq<Body>, b: seq<Body>, first: MessageId)
    ensures Stamp(a + b, first) == Stamp(a, first) + Stamp(b, first + |a|)
    decreases |a|
  {
    if a == [] {
      assert a + b == b;
    } else {
      assert (a + b)[1..] == a[1..] + b;
      StampConcat(a[1..], b, first + 1);
    }
  }

  /** Ids stamped on receipt are distinct from each other, even when the queue-side
      ids repeat, and lie in the range `first .. first + |bodies|` of the supply. */
  lemma StampFresh(bodies: seq<Body>, first: MessageId)
    ensures forall i, j :: 0 <= i < j < |bodies| ==>
              Stamp(bodies, first)[i].messageId != Stamp(bodies, first)[j].messageId
    ensures forall i :: 0 <= i < |bodies| ==>
              first <= Stamp(bodies, first)[i].messageId < first + |bodies|
  {
  }

  /** Ids stamped from a supply position above every id issued so far are none of them. */
  lemma StampAvoidsIssued(bodies: seq<Body>, first: MessageId, issued: set<MessageId>)
    requires forall x :: x in issued ==> x < first
    ensures forall i :: 0 <= i < |bodies| ==> Stamp(bodies, first)[i].messageId !in issued
  {
  }
}
