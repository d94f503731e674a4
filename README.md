# useSQS task buffer, modelled in Dafny

The annotation tool hands out work as messages on a queue. In the browser, the
`useSQS` hook keeps the received task messages in a buffer and a cursor `index` on
the task the annotator is looking at. This project models that buffer and cursor:

- stepping forward and back (`next`, `prev`), each offered only when it keeps the
  cursor in range;
- appending a received batch, where every message gets its own `message_id`;
- inserting (`inject`) one message three slots ahead of the cursor;
- the refill rule, which requests more messages when at most `margin = 3` tasks are
  left counting the current one.

Module `Messages` (`messages.dfy`) holds the values. It defines the message record
(`message_id` plus an optional queue-side `id`) and JavaScript's `slice` with its
index clamping. It also defines the splice that `inject` performs and the stamping
of received bodies with ids drawn from a fresh-id supply. Module `UseSqs`
(`use_sqs.dfy`) holds the class `TaskBuffer`. It has the hook's `buffer` and `index`
state, the id supply, and one method per state update.

The class invariant is `0 <= index && (index == 0 || index < |buffer|)`. Every
method keeps it, together with "every id issued on receipt is below the supply
position".

Model decisions:

- In the code, a retry is scheduled only when the queue's response has no
  `Messages` field at all. A response with an empty `Messages` array appends
  nothing and schedules no retry. The model follows the code: a response is
  `Option<seq<Body>>`, and only `None` asks for a retry.
- `crypto.randomUUID` becomes a counter (`nextId`). The ghost set `issued` records
  every id handed out on receipt. Ids of injected messages are whatever the
  caller supplies.
- `next` and `prev` carry `requires CanNext()` / `requires CanPrev()`. The hook
  hands out `undefined` in their place otherwise, so no caller can take them.
- `credentials` is a boolean. `currentQueue` is an `Option<string>` whose
  truthiness is "present and non-empty".

## Model

| member | source | states |
|---|---|---|
| Messages.Clamp | src/useSQS.tsx:89-91 | `slice`'s index rule as a function: the result always lies in `0..len`, and an index already in `0..len` means itself |
| Messages.ClampLaws | src/useSQS.tsx:89-91 | laws of `slice`'s index rule itself: clamping is idempotent, and a negative index within reach names the same slot as its count from the start, `len + rel` (the hook only passes `index + 3 >= 3`) |
| Messages.JsSlice | src/useSQS.tsx:89-91 | `slice(begin, end)` is never longer than `s`; `slice(0, end)` is the prefix of `s` up to the clamped `end`, and a slice to (or past) the end is the suffix from the clamped `begin` |
| Messages.JsSliceSplit | src/useSQS.tsx:89-91 | for every integer `at`, `s.slice(0, at)` is the prefix up to the clamped `at`, `s.slice(at)` the rest, and together they give back `s` |
| Messages.Spliced | src/useSQS.tsx:88-92 | for every `at`, `[...s.slice(0, at), m, ...s.slice(at)]` equals `s[..p] + [m] + s[p..]` with `p` the clamped `at`: the new message goes in at one point and the rest of `s` is split around it |
| Messages.InsertKeepsOthers | src/useSQS.tsx:88-92 | inserting at `p` grows the length by exactly one, keeps every element before `p`, moves every later one up by one, gives back the original when slot `p` is removed, and adds exactly `m` to the multiset |
| Messages.Stamp | src/useSQS.tsx:38-51 | received bodies become messages in the order received, each keeping its queue-side `id`, with `message_id`s `first, first+1, …` |
| Messages.StampConcat | src/useSQS.tsx:38-70 | receiving two batches in turn stamps and appends the same messages as receiving their concatenation once: order is kept across batches and ids continue where the first batch stopped |
| Messages.StampFresh | src/useSQS.tsx:48-51 | ids stamped on one receipt are pairwise distinct even when queue-side ids repeat, and lie in `first .. first + |bodies|` |
| Messages.StampAvoidsIssued | src/useSQS.tsx:48-51 | ids stamped from a supply position above every issued id are none of the issued ids |
| UseSqs.NextKeepsCursor | src/useSQS.tsx:97 | when `next` is offered (`|buffer| > index + 1`), `index + 1` is still a valid cursor and inside the buffer |
| UseSqs.PrevKeepsCursor | src/useSQS.tsx:98 | when `prev` is offered (`index != 0`), `index - 1` is still a valid cursor and not negative |
| UseSqs.GrowthKeepsCursor | src/useSQS.tsx:70 | growing the buffer never invalidates the cursor |
| UseSqs.StrandedMeansRefill | src/useSQS.tsx:82 | with credentials and a queue present, whenever `next` is not offered a refill is due |
| UseSqs.StockedWhenNotDue | src/useSQS.tsx:82 | with credentials and a queue present and no refill due, `next` is offered and `inject` lands at exactly `index + 3` without clamping |
| UseSqs.InjectKeepsWindow | src/useSQS.tsx:87-93 | with a valid cursor, `inject`'s splice grows the buffer by one, puts the message at `min(index + 3, |buffer|)`, gives the old buffer back when that slot is removed, adds only the message to the multiset, and leaves the current message and the two after it in place |
| UseSqs.CursorValid | src/useSQS.tsx:20-22 | the cursor invariant kept by every update: `index` is never negative and points into the buffer unless it is the initial `0` |
| UseSqs.NextOffered | src/useSQS.tsx:97 | `next` is handed out exactly when `|buffer| > index + 1` |
| UseSqs.PrevOffered | src/useSQS.tsx:98 | `prev` is handed out exactly when `index` is truthy, that is, non-zero |
| UseSqs.QueuePresent | src/useSQS.tsx:82 | JavaScript truthiness of `currentQueue`: present and not the empty string |
| UseSqs.RefillDue | src/useSQS.tsx:82 | the refill effect's condition: credentials present, `|buffer| - index <= margin` with `margin = 3`, and a current queue present |
| UseSqs.TaskBuffer.Valid | src/useSQS.tsx:18-20 | the object invariant: `CursorValid` on `buffer` and `index`, and every id issued on receipt lies below the supply position |
| UseSqs.TaskBuffer.CanNext | src/useSQS.tsx:97 | `NextOffered` on the object's own `buffer` and `index` |
| UseSqs.TaskBuffer.CanPrev | src/useSQS.tsx:98 | `PrevOffered` on the object's own `index` |
| UseSqs.TaskBuffer.constructor | src/useSQS.tsx:18-20 | the initial state is an empty buffer with `index == 0` and satisfies the invariant |
| UseSqs.TaskBuffer.Next | src/useSQS.tsx:21 | offered only when `CanNext()`; increments `index`, which stays inside the buffer; nothing else changes |
| UseSqs.TaskBuffer.Prev | src/useSQS.tsx:22 | offered only when `CanPrev()`; decrements `index`, which stays non-negative; nothing else changes |
| UseSqs.TaskBuffer.Inject | src/useSQS.tsx:87-93 | the new buffer is the splice at `index + 3`, with the message at `min(index + 3, |buffer|)`; one longer, same messages plus the new one; removing the new slot gives the old buffer; the current message and the two after it are unchanged; `index` is unchanged |
| UseSqs.TaskBuffer.Receive | src/useSQS.tsx:36-74 | a response with `Messages` appends the stamped batch (in order, old buffer as prefix), advances the id supply by the batch size and records the new ids as issued; each new id is fresh against all ids issued before and distinct within the batch; a response without `Messages` changes nothing and asks for a retry; the buffer never shrinks and `index` never moves |
| UseSqs.TaskBuffer.Refill | src/useSQS.tsx:79-85 | a receive is requested exactly when credentials and a queue are present and `|buffer| - index <= 3`; without a request nothing changes; with one, the outcome is `Receive`'s: the stamped batch is appended with the supply advanced and its ids recorded as issued, fresh against every earlier receipt and distinct within the batch, or, on retry, nothing changes |

## Left out

- Queue calls `getFromQueue`, `deleteFromQueue` and `refreshVisibility` and their request objects: these are calls into a managed service. The queue's answer is an input to `Receive` / `Refill`.
- The 30 s visibility-renewal interval and the 5 s retry timer: both are timer plumbing. A retry is modelled only as "no state change, retry requested".
- Failed receives: `getFromQueue(...).then(...)` has no rejection handler, so a failed request leaves the buffer unchanged and schedules no retry. A body that fails `JSON.parse` throws inside the `map` and drops the whole batch the same way. In the model both have the effect of the response `Some([])`: nothing changes and no retry is asked for. The renewal intervals already started for that batch are not modelled. The two cases still differ in the hook: an empty `Messages` array goes through `setBuffer` with a new (equal) array, so the effect, which depends on `buffer`, runs again and requests at once if the refill condition still holds; a failed request or parse never calls `setBuffer`, so nothing is requested again until `index`, `credentials` or `currentQueue` changes. The model does not re-run the effect on its own; a caller calls `Refill` again.
- The asynchronous `ack` closure and its logging: it is I/O whose errors are swallowed, so `Message` has no `ack` field.
- `JSON.parse` of message bodies: a body is the record `Body(id)`. `crypto.randomUUID`: ids come from a counter supply, so distinctness is certain in the model where the hook relies on UUIDs being random.
- React mechanics (`useState`, `useCallback`, effect dependency lists, the never-updated `retryCount`, `console.log`): each state update is one sequential method call. A callback that captured a stale `index` is not modelled.
- Overlapping receives: the effect can fire again while an earlier request is still pending, so two batches may arrive for one shortfall. The model performs each request and its response as one step; `StampConcat` shows that two batches arriving in turn give the same buffer as one combined batch.
- Messages.StampFresh: freshness is stated only for ids assigned on receipt. `inject` accepts a caller's message with any `message_id`, and the model does not claim buffer-wide uniqueness.
- src/Location.tsx is not part of this model: it is map rendering and a GraphQL mutation, with floating-point bounds and a clock-dependent toggle.
- src/Categories.tsx is not part of this model: it is a React context provider whose only logic is a default pick of the first category.
- amplify/data/resource copy.ts is not part of this model: it is a declarative GraphQL schema.
