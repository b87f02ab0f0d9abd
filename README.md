# Message framing, thread-safe deque and network-thread owner, in Dafny

This project models three sequential pieces of a C++ asynchronous TCP
networking framework, and proves properties of the model.

- **`Net::Message`** (`Messages.Message`, specified by `Framing`). A message
  is a header (`m_id`, `m_size`, `m_internal_id`) plus a byte body used as a
  stack. `push_back*` appends at the tail and `extract*` removes from the
  tail. A string travels as its bytes followed by an 8-byte `Size_type`
  length. Every exception is a `Fail`/`Err` value, and the model keeps the
  exact state the C++ code leaves behind when it throws. The pure functions
  in `Framing` describe each operation on a `Msg` value. Each class method is
  tied to its function, and the lemmas there prove:
  - one push, one extract, and any run of mixed `uint64_t`, string and
    fixed-layout fields all round-trip;
  - every mutation keeps `m_size` equal to the body length;
  - each error case raises the right exception.
- **`Network::Thread_safe_deque`** (`Deques.Deque`). Seen from one thread at a
  time, it is a sequence that the methods change in place. Every operation
  holds the same lock for the whole call, so the lock is dropped.
- **`Net::Net_user`** (`NetUsers.NetUser`, specified by `NetUsers.Lifecycle`).
  It holds the stop flag and three abstractions: whether the thread handle is
  joinable, whether the `asio::io_context` is stopped, and how many jobs were
  posted. Its inbound-queue helpers work over the deque model.

Points where the code's behaviour is surprising or differs from what its
names promise. The model follows the code in each case except `count()`:

- Pushing or extracting zero bytes throws `std::out_of_range`. The cause is
  `m_body.at(size)` on a vector of exactly that size. So an empty string can
  never be pushed, and a stored length of 0 cannot be extracted.
- The string operations break the rule that every other failed push or
  extract keeps: a failure leaves the body unchanged.
  `push_back<std::string_view>` is not atomic. If the bytes fit but the
  8-byte length does not, the bytes stay in the body. `extract<std::string>`
  is not atomic either: it removes the 8 length bytes before it finds that
  too few bytes remain.
- `Thread_safe_deque::count` calls `std::deque::count`, which does not exist.
  The template therefore fails to compile as soon as `count()` is
  instantiated. `Deques.Deque.Count` models the evident intent, the element
  count.
- `in_queue_pop_front` calls `pop_back`, so the inbound queue is drained
  newest first (see Findings).

`Message_header.h` is not part of this model. `Header_size_type` is taken to
be a 32-bit unsigned integer, and only `MAX_SIZE < 2^64` is used. Header
equality is field-by-field equality. The message id and internal id are type
parameters. The `Network_framework` copy of `Thread_safe_deque.h` is not part
of this model either; it is assumed to behave like the `Networking_training`
copy.

## Model

| member | source | states |
|---|---|---|
| `Framing.CheckedCast` | Network_framework/Source/Message/Message.h:209-218 | the cast succeeds exactly when the value fits the target type, and then yields the value unchanged; otherwise it is `length_error` |
| `Framing.WithBody` | Network_framework/Source/Message/Message.h:45 | after the body changes, `m_size` is set to the new body length and the id and internal id are kept |
| `Framing.DecodeEncodeUint64` | Network_framework/Source/Message/Message.h:21 | reading back the 8 bytes of a `Size_type` gives the number |
| `Framing.EncodeDecodeUint64` | Network_framework/Source/Message/Message.h:21 | any 8 bytes are the image of the number they decode to |
| `Framing.SizeCodecIsCodec` | Network_framework/Source/Message/Message.h:95-104 | the `Size_type` byte copy has width 8, and decoding its bytes gives the value back |
| `Framing.PushBytes` | Network_framework/Source/Message/Message.h:32-46 | succeeds iff the buffer is non-empty and the new length is at most `MAX_SIZE`; then the body is the old body followed by the buffer and `m_size` is the new length; on failure the message is unchanged; the size invariant is kept |
| `Framing.ExtractBytes` | Network_framework/Source/Message/Message.h:75-87 | succeeds iff 0 < n <= body length; then it returns the last n bytes, leaves the prefix, and sets `m_size` to its length; on failure the message is unchanged |
| `Framing.PushValue` | Network_framework/Source/Message/Message.h:54-59 | pushing a value's bytes keeps `m_size` equal to the body length |
| `Framing.ExtractValue` | Network_framework/Source/Message/Message.h:95-104 | extracting a value keeps `m_size` equal to the body length |
| `Framing.PushText` | Network_framework/Source/Message/Message.h:61-72 | succeeds iff the string is non-empty and it fits together with its 8-byte length; then the body is the old body, then the string's bytes, then their count as a little-endian `Size_type`, and `m_size` is the new length; `m_size` equals the body length whether or not it throws |
| `Framing.ExtractText` | Network_framework/Source/Message/Message.h:106-113 | on any body: succeeds iff the body holds at least 8 bytes and the count L stored in its last 8 satisfies 0 < L <= the bytes before them; then it returns the L bytes just before the count and leaves the body before them, with `m_size` its length; `m_size` equals the body length whether or not it throws |
| `Framing.FramingErrors` | Network_framework/Source/Message/Message.h:32-87 | overflow is `length_error` (checked first); an empty push is `out_of_range`; asking for more than the body holds is `length_error`; extracting 0 bytes is `out_of_range`; each leaves the message unchanged |
| `Framing.TextFramingErrors` | Network_framework/Source/Message/Message.h:61-113 | a string that does not fit throws `length_error` before anything is pushed, and a body shorter than a count throws `length_error` before anything is extracted; both leave the message unchanged |
| `Framing.BytesRoundTrip` | Network_framework/Source/Message/Message.h:32-87 | extracting as many bytes as were just pushed returns them and restores the whole message, header included |
| `Framing.ExtractPushRoundTrip` | Network_framework/Source/Message/Message.h:75-87 | pushing back the bytes just extracted restores the message |
| `Framing.ValueRoundTrip` | Network_framework/Source/Message/Message.h:54-104 | `push_back(x)` then `extract<T>()` returns x and restores the message, for any type whose byte copy round-trips |
| `Framing.StringRoundTrip` | Network_framework/Source/Message/Message.h:61-113 | for a non-empty string that fits with its length field, `push_back(s)` then `extract<std::string>()` returns s and restores the message |
| `Framing.EmptyStringNotPushed` | Network_framework/Source/Message/Message.h:61-66 | pushing an empty string throws `out_of_range`, the length field is never pushed, and the message is unchanged |
| `Framing.StringPushNotAtomic` | Network_framework/Source/Message/Message.h:61-66 | when the bytes fit but the length field does not, the push throws `length_error` and the string's bytes remain in the body |
| `Framing.StringExtractNotAtomic` | Network_framework/Source/Message/Message.h:106-113 | when the stored length exceeds the bytes left, `length_error` is thrown after the 8 length bytes were removed and `m_size` shrank by 8 |
| `Framing.EmptyStringNotExtracted` | Network_framework/Source/Message/Message.h:106-113 | a stored length of 0 throws `out_of_range`, also after the 8 length bytes were removed |
| `Framing.MessageEquality` | Network_framework/Source/Message/Message.h:131-134 | two messages are equal iff their headers are equal and their bodies agree in length and byte for byte, so one differing byte makes them unequal |
| `Framing.FieldRoundTrip` | Network_framework/Source/Message/Message.h:54-113 | one `uint64_t`, non-empty string, or value of a type whose byte copy round-trips, pushed and then extracted as its own type, comes back; the message is restored and grew by exactly the field's width in between |
| `Framing.FieldsRoundTrip` | Network_framework/Source/Message/Message.h:54-113 | any run of `uint64_t`, non-empty string and fixed-layout fields (of one further type whose byte copy round-trips) that fits, pushed in order and then extracted in exactly the reverse order, yields the fields in reverse order and restores the message |
| `Messages.Message.constructor` | Network_framework/Source/Message/Message.h:220-223 | a new message has an empty body, `m_size` 0 (the header default, assumed) and the given id and internal id |
| `Messages.Message.PushBackBuffer` | Network_framework/Source/Message/Message.h:32-46 | changes the object exactly as `PushBytes` says, keeping the size invariant |
| `Messages.Message.PushBack` | Network_framework/Source/Message/Message.h:54-59 | changes the object exactly as `PushValue` says |
| `Messages.Message.PushBackString` | Network_framework/Source/Message/Message.h:61-72 | changes the object exactly as `PushText` says: the bytes, then the length field |
| `Messages.Message.ExtractToBuffer` | Network_framework/Source/Message/Message.h:75-87 | returns and removes exactly what `ExtractBytes` says |
| `Messages.Message.Extract` | Network_framework/Source/Message/Message.h:95-104 | returns and removes exactly what `ExtractValue` says |
| `Messages.Message.ExtractString` | Network_framework/Source/Message/Message.h:106-113 | returns and removes exactly what `ExtractText` says: the length field first, then the bytes |
| `Messages.Message.Equals` | Network_framework/Source/Message/Message.h:131-134 | `==` holds iff the two messages have the same value, which is header and body |
| `Messages.Message.NotEquals` | Network_framework/Source/Message/Message.h:136-139 | `!=` holds iff the two values differ |
| `Messages.Message.SetInternalId` | Network_framework/Source/Message/Message.h:145-154 | afterwards `get_internal_id` returns the new value; the id, the size and the body are unchanged |
| `Messages.Message.SetId` | Network_framework/Source/Message/Message.h:156-164 | afterwards `get_id` returns the new value; the internal id, the size and the body are unchanged |
| `Messages.Message.Clear` | Network_framework/Source/Message/Message.h:166-170 | empties the body and zeroes `m_size`; `m_id` and `m_internal_id` are unchanged |
| `Messages.Message.IsEmpty` | Network_framework/Source/Message/Message.h:172-175 | the body is empty exactly when the header's size field is 0 |
| `Messages.Message.BodySize` | Network_framework/Source/Message/Message.h:192-195 | the body length equals the header's size field and is at most `MAX_SIZE` |
| `Messages.StringExchange` | Network_framework/Source/Message/Message.h:61-113 | a non-empty string pushed onto a fresh message is extracted back unchanged, and the message ends empty |
| `Messages.EmptyStringExchange` | Network_framework/Source/Message/Message.h:61-66 | pushing an empty string onto a fresh message throws `out_of_range` and leaves it empty |
| `Deques.Deque.constructor` | Networking_training/Networking/Utility/Thread_safe_deque.h:12 | a new deque is empty |
| `Deques.Deque.Front` | Networking_training/Networking/Utility/Thread_safe_deque.h:20-24 | on a non-empty deque, returns the first element and changes nothing |
| `Deques.Deque.Back` | Networking_training/Networking/Utility/Thread_safe_deque.h:26-30 | on a non-empty deque, returns the last element and changes nothing |
| `Deques.Deque.PushFront` | Networking_training/Networking/Utility/Thread_safe_deque.h:32-36 | the contents become the item followed by the old contents |
| `Deques.Deque.PushBack` | Networking_training/Networking/Utility/Thread_safe_deque.h:38-42 | the contents become the old contents followed by the item |
| `Deques.Deque.Empty` | Networking_training/Networking/Utility/Thread_safe_deque.h:44-48 | true iff the contents are the empty sequence |
| `Deques.Deque.Count` | Networking_training/Networking/Utility/Thread_safe_deque.h:50-54 | the number of elements, which is 0 iff the deque is empty |
| `Deques.Deque.Clear` | Networking_training/Networking/Utility/Thread_safe_deque.h:56-60 | the contents become empty |
| `Deques.Deque.PopFront` | Networking_training/Networking/Utility/Thread_safe_deque.h:62-68 | on a non-empty deque, returns the first element and leaves the rest; the element followed by the new contents is the old contents |
| `Deques.Deque.PopBack` | Networking_training/Networking/Utility/Thread_safe_deque.h:70-76 | on a non-empty deque, returns the last element and leaves the prefix; the new contents followed by the element is the old contents |
| `Deques.ProduceThenConsume` | Networking_training/Networking/Utility/Thread_safe_deque.h:38-68 | items pushed at the back and drained with `empty()` and `pop_front` come out exactly once each, in insertion order |
| `NetUsers.Start` | Network_framework/Source/Net_user/Net_user.h:38-49 | start succeeds iff no thread is joinable; then the flag is clear, a thread is joinable, the context is not stopped and no job is lost; otherwise it throws `runtime_error` and nothing changes |
| `NetUsers.Stop` | Network_framework/Source/Net_user/Net_user.h:52-62 | afterwards the flag is set and posted jobs are kept; if the flag was clear, the context is stopped and the thread joined, otherwise nothing changes |
| `NetUsers.GiveJob` | Network_framework/Source/Net_user/Net_user.h:79-85 | a job is accepted iff the flag is clear, and then exactly one more job is posted; otherwise it throws `runtime_error` and nothing changes |
| `NetUsers.StartThreadThrows` | Network_framework/Source/Net_user/Net_user.h:38-49 | start when the `std::thread` constructor throws: on a non-joinable handle it throws `system_error` with the flag already clear, the context restarted and still no thread; on a joinable one it throws `runtime_error` and nothing changes |
| `NetUsers.StopJoinThrows` | Network_framework/Source/Net_user/Net_user.h:52-62 | stop when `join` throws: the flag ends set and joinability is unchanged; it throws `system_error` exactly when the flag was clear and the thread joinable; with the flag already set, nothing happens |
| `NetUsers.TransitionsKeepConsistent` | Network_framework/Source/Net_user/Net_user.h:38-85 | start, stop and give_asio_job all keep "stop flag set iff no joinable thread" |
| `NetUsers.NoJobBeforeStart` | Network_framework/Source/Net_user/Net_user.h:79-97 | a new Net_user's stop flag is set, so `give_asio_job` throws `runtime_error` and changes nothing |
| `NetUsers.StartOutcome` | Network_framework/Source/Net_user/Net_user.h:38-50 | start succeeds iff no thread is joinable; then the flag is clear, a thread is running and the context is not stopped; otherwise it throws `runtime_error` and changes nothing |
| `NetUsers.StopIdempotent` | Network_framework/Source/Net_user/Net_user.h:52-62 | after stop the flag is set and no thread is joinable, and stopping again changes nothing |
| `NetUsers.Restart` | Network_framework/Source/Net_user/Net_user.h:38-62 | after a successful start and a stop, start succeeds again |
| `NetUsers.RunKeepsConsistent` | Network_framework/Source/Net_user/Net_user.h:38-97 | any sequence of start, stop and job calls from a consistent state ends in a consistent state |
| `NetUsers.JobAcceptedIffRunning` | Network_framework/Source/Net_user/Net_user.h:38-97 | in every state reachable from a new Net_user, a job is accepted exactly while a worker thread is joinable |
| `NetUsers.ThreadCreationFailureAcceptsJobs` | Network_framework/Source/Net_user/Net_user.h:38-85 | if the `std::thread` constructor throws, the stop flag is already clear and no thread exists; this breaks "stop flag set iff no joinable thread", and `give_asio_job` accepts jobs while no thread exists to run them; they wait for a later successful start |
| `NetUsers.StuckStateIsPermanent` | Network_framework/Source/Net_user/Net_user.h:38-85 | once the stop flag is set while the thread is still joinable, no sequence of start, stop and job calls changes the state |
| `NetUsers.JoinFailureIsPermanent` | Network_framework/Source/Net_user/Net_user.h:52-62 | if `join` throws during stop, the flag stays set with the thread still joinable; after any further calls, start throws `runtime_error` and every job is refused; a program reaches this only if the job that called stop catches the exception, since otherwise it ends the program |
| `NetUsers.NetUser.constructor` | Network_framework/Source/Net_user/Net_user.h:94-97 | a new Net_user has its stop flag set, no joinable thread, a context that is not stopped, no posted jobs, and an empty inbound queue |
| `NetUsers.NetUser.IsInQueueEmpty` | Network_framework/Source/Net_user/Net_user.h:23-26 | true iff the inbound deque is empty |
| `NetUsers.NetUser.InQueuePopFront` | Network_framework/Source/Net_user/Net_user.h:28-31 | as written: removes and returns the LAST (newest) inbound message |
| `NetUsers.NetUser.InQueuePopOldest` | Network_framework/Source/Net_user/Net_user.h:28-31 | as intended: removes and returns the first (oldest) inbound message |
| `NetUsers.NetUser.InQueuePushBack` | Network_framework/Source/Net_user/Net_user.h:33-36 | appends the message at the back of the inbound deque |
| `NetUsers.NetUser.StartAsioThread` | Network_framework/Source/Net_user/Net_user.h:38-50 | changes the state exactly as `Start` says and keeps the flag/thread invariant |
| `NetUsers.NetUser.StopAsioThread` | Network_framework/Source/Net_user/Net_user.h:52-62 | changes the state exactly as `Stop` says and keeps the flag/thread invariant |
| `NetUsers.NetUser.GiveAsioJob` | Network_framework/Source/Net_user/Net_user.h:79-85 | changes the state exactly as `GiveJob` says: one more posted job while running, else `runtime_error` |
| `NetUsers.DrainAsWritten` | Network_framework/Source/Net_user/Net_user.h:23-36 | messages fed by `in_queue_push_back` and drained with `in_queue_pop_front` reach the application in reverse arrival order |
| `NetUsers.DrainIntended` | Network_framework/Source/Net_user/Net_user.h:23-36 | drained from the front instead, they reach the application in arrival order |
| `NetUsers.AsWrittenReordersTwo` | Network_framework/Source/Net_user/Net_user.h:28-31 | two distinct messages a, b are handed over as b, a, which is not their arrival order |
| `NetUsers.LifecycleScenario` | Network_framework/Source/Net_user/Net_user.h:38-97 | on one Net_user: a job before start is refused, the first start succeeds, a job is accepted, a second start is refused, two stops are harmless, a job after stop is refused, and a restart succeeds |

## Left out

- `Deques.Deque.Count`: models the element count the source evidently means. As written, `m_queue.count()` names no member of `std::deque`, so the template does not compile once `count()` is used.
- `Messages.Message.constructor`: takes the id and internal id as arguments. It also assumes a fresh header's `m_size` is 0. Both defaults live in `Message_header.h`, which is not part of this model; `Message.h:220` only declares the header.
- `Framing.FieldsRoundTrip`: a run of fields may mix `uint64_t`, strings and values of one further fixed-layout type `T`, not several different such types at once. Each single push and extract of any type is covered by `Framing.ValueRoundTrip`.
- `NetUsers.NetUser.StartAsioThread`: assumes the `std::thread` constructor does not throw. The throwing case is modelled separately by `NetUsers.StartThreadThrows`, with its consequence in `NetUsers.ThreadCreationFailureAcceptsJobs`.
- `NetUsers.NetUser.StopAsioThread`: assumes `join` does not throw. Since `join` is only called on a joinable handle, it can throw only when a job on the worker thread stops its own Net_user; uncaught, that ends the program. The throwing case is modelled separately by `NetUsers.StopJoinThrows`, with its consequence in `NetUsers.JoinFailureIsPermanent`.
- `NetUsers.RunKeepsConsistent`: holds for runs of the normal start, stop and job calls only. It assumes that thread creation and `join` never throw; either failure breaks consistency or leaves the Net_user stuck.
- `NetUsers.JobAcceptedIffRunning`: holds under the same assumption that thread creation and `join` never throw.
- `NetUsers.NetUser.GiveAsioJob`: records only the number of jobs posted. The job itself, and running it on the `asio::io_context`, are left out.
- The `std::mutex`/`scoped_lock` locking of the deque. It only matters under concurrency and has no sequential effect.
- The deque destructor, which calls `clear()`. Dafny has no destructors.
- The worker loop `asio_thread`, the data race on the plain-`bool` stop flag, and the `io_context` `run`/`stop`/`restart`/`post` calls. The thread, the context and its jobs are abstract booleans and a counter.
- The socket, resolver and acceptor factories. They are foreign library calls.
- `on_notification`, an empty virtual hook.
- `operator<<` printing to an `ostream`. It is I/O.
- The `operator<<`/`operator>>` push and extract shorthands. Each one calls `push_back`/`extract` and adds nothing.
- `header_data`/`body_data`. They hand out raw pointers.
- `get_header`. It returns the header, which the model exposes as the `header` field.
- `header_size`. It is `sizeof(Message_header)`, which is not known here.
- `resize_body`, which is public. Calling it directly breaks `m_size == body length`, and every modelled operation keeps that invariant.
- The byte reinterpretation of arbitrary types. `push_back<T>`/`extract<T>` work through any `Codec` whose decode inverts its encode. Only `Size_type` is given concretely, little-endian, and the host byte order is not modelled.
- The wrap-around of `size + buffer_size` in `size_t`. Model integers are unbounded, and that sum cannot wrap for any buffer that exists.
- Allocation failure (`std::bad_alloc`) in `resize_body`, and in `std::string::resize` for an absurd stored length.
- `Network_client/Main.cpp`: the example console application.
- `Client_connection.h`: a thin wrapper over the `Net_connection` base, which is not part of this model. Its only logic stores an id when the socket is open and then starts reading, and hands incoming messages to a stored callback.
- The legacy `Network_framework/Networking/Net_user/Net_user.h` and `Callback_interface.h`: declarations and interfaces with no behaviour of their own.

## Findings

| source | as written | input that shows it | evidently intended | confidence | as-written member | corrected member |
|---|---|---|---|---|---|---|
| Network_framework/Source/Net_user/Net_user.h:28-31 | `in_queue_pop_front` returns `m_in_queue.pop_back()`. The inbound queue is fed by `in_queue_push_back`, so it is drained newest first. | messages a then b arrive; the application is handed b, then a | take the front (`pop_front`), so that one connection's messages are handled in arrival order | high; not executed | `NetUsers.DrainAsWritten` | `NetUsers.DrainIntended` |
