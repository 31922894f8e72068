# Verification of upy-android's core

This project models the stateful core of upy-android in Dafny and proves what its
comments, documentation and tests promise. Each part takes the form of its source: the
C, C++ and Kotlin that updates state is classes and methods with loops, each proved
against a specification function; protocols between threads are state machines in which
one load, store or locked section is one step and a schedule is any sequence of steps.

| files | part |
|---|---|
| `Ring`, `Queue`, `QueueInterleaving` | the lock-free queue, called by one thread and by two |
| `FrameBuffer`, `FrameBufferPool`, `FrameBufferLayout`, `FrameBufferRuns` | the frame-buffer pool over two queues: code, memory, whole runs |
| `Utf8`, `OutputCapture` | the bounded capture of a script's output |
| `StdinFifo`, `StdinRuns`, `Doorbell` | the interpreter's input and what wakes it |
| `TerminalText`, `TerminalLog`, `TerminalMeaning` | the terminal transcript |
| `HttpInterrupt` | the Interrupt handshake of the http module |
| `Rotation`, `Display` | the pixel loops of camera and display |
| `LitertRegistry` | LiteRT handles and the tensor buffers of one run |
| `AdbReply` | the reply parser of the adb tools |
| `FairLock` | the fair spin lock |
| `LicenseText`, `Licenses`, `LicenseCopies` | the licence page generator: its text operations, its loop, which copies it replaces |

`dafny verify dfyconfig.toml` checks everything.

## Where the code does less than it says

Each of these is proved for all inputs, with the exact condition.

- A pool of more than three buffers places them after the two queues, aligned, but its
  size leaves out that alignment. A dynamic pool overruns its block unless the padding
  is 0 (`FrameBufferLayout.BigPoolEnd`; 48 bytes too many for 5 buffers with 8-byte
  pointers and 64-byte alignment, `PaddingOn64Bit`).
- A dynamic resize that finds no memory has freed the old block; a pool of up to three
  buffers goes on handing out buffers in it (`FrameBuffer.AcquireAfterFailedResize`), a
  larger one has lost its queues (`FrameBuffer.Resize`).
- The triple-buffer release checks that one buffer is free and swaps later. The frame the
  consumer has peeked is taken from it when it released another one in between
  (`FrameBufferRuns.SwapAfterCheckIff`).
- Buffers are lost by an acquire without PEEK and duplicated by a release with it
  (`FrameBufferRuns.ConservedIff`), and CHECK_LAST keeps a free buffer only for two or
  three buffers (`FreeBufferAlwaysExistsIff`).
- Output of exactly 131071 bytes is marked "[truncated]" although nothing was cut,
  unless it ends in ".[truncated]" itself (`OutputCapture.ShownUnchangedIff`; the comment
  in the source says "probably").
- The comment promises 1 to 4 dots before that mark. Output that is not UTF-8 can have
  more, up to nothing but dots (`OutputCapture.DotsIff`, `NothingButDots`).
- A chunk boundary inside a surrogate pair makes the line count 2 bytes less, while the
  line is kept (`TerminalMeaning.SessionMeaning`, `ChunkingIff`, `SplitPairCountsLess`).
- The http help text promises that Interrupt ends the call with KeyboardInterrupt. If the
  script has already handled the exception when the interrupter sets `cancelled` or reads
  `active`, the script's next call is cancelled too and ends in another error. A call is
  safe from that exactly when every earlier interrupter is past its read of `active`, or
  some Interrupt is outstanding (`HttpInterrupt.CancelledCallRaisesIff`).
- The fair lock needs callers that unlock only while they hold it: exactly an unlock by
  an outside thread whose tid is still stored lets two in (`FairLock.StrayUnlockIff`).
  The plain `mutex_try_lock` gives the lock to its last owner again
  (`PlainTryLockRepeats`). The fair one refuses a thread with tid 0 although nobody has
  had the lock yet (`FairTryLockIff`). The fair one refuses a thread with tid 0 although nobody has
  had the lock yet (`FairTryLockIff`). The fair one refuses a thread with tid 0 although nobody has
  had the lock yet (`FairTryLockIff`). The fair one refuses a thread with tid 0 although nobody has
  had the lock yet (`FairTryLockIff`). The fair one refuses a thread with tid 0 although nobody has
  had the lock yet (`FairTryLockIff`).
- The adb parser takes a tail of the output for a field when the reply lacks that field,
  and is misled by the marker in the output (`AdbReply.RoundTripIff`).
- A copy of the licence stays in the page, word for word, when its header was mentioned
  before it with no end mark between, or when other whitespace than a space stands in its
  title, although whitespace was to be ignored (`LicenseCopies.CopyReplacedIff`,
  `CopyAfterMentionStays`, `BrokenCopyStays`).
- The display's margin is cleared to alpha 0, transparent, where the comment says opaque
  black (`Display.OpaqueExactlyInside`).

## Model

| member | source | states |
|---|---|---|
| `Ring.FullIff` | upy-android/native-bringup/my-overrides/openmv/queue.c:92-98 | the ring refuses a push exactly when all slots but the spare one hold items |
| `Ring.PushWindow` | upy-android/native-bringup/my-overrides/openmv/queue.c:100-102 | the slot write alone changes nothing that is queued; advancing tail appends the item |
| `Ring.PopWindow` | upy-android/native-bringup/my-overrides/openmv/queue.c:119-126 | the head slot holds the oldest item, and advancing head removes just that item |
| `Queue.Queue.constructor` | upy-android/native-bringup/my-overrides/openmv/queue.c:35-43 | a new queue is empty, with room for capacity items |
| `Queue.Queue.Flush` | upy-android/native-bringup/my-overrides/openmv/queue.c:64-76 | flushing empties the queue |
| `Queue.Queue.Push` | upy-android/native-bringup/my-overrides/openmv/queue.c:78-106 | push appends and says true, or, for a NULL item or a full queue, changes nothing and says false |
| `Queue.Queue.Pop` | upy-android/native-bringup/my-overrides/openmv/queue.c:108-130 | pop gives the oldest item, and takes it unless it only peeks; NULL exactly when empty |
| `Queue.Queue.IsEmpty` | upy-android/native-bringup/my-overrides/openmv/queue.c:132-146 | head equals tail exactly when nothing is queued |
| `Queue.Queue.Size` | upy-android/native-bringup/my-overrides/openmv/queue.c:148-168 | the size is the number of queued items, wrapped or not |
| `Queue.Swap` | upy-android/native-bringup/my-overrides/openmv/queue.c:173-190 | the newest item of one queue and the oldest of the other change places, all others stay; an empty queue stays empty and gives what was left in its slot; the replaced newest is returned |
| `QueueInterleaving.ProducerRefines` | upy-android/native-bringup/my-overrides/openmv/queue.c:78-106 | each single load, slot write and store of push keeps the invariant and is an atomic FIFO step; the slot written is outside head..tail and is not the one a consumer is reading |
| `QueueInterleaving.ConsumerRefines` | upy-android/native-bringup/my-overrides/openmv/queue.c:108-146 | each single step of pop, its emptiness test included, keeps the invariant and is an atomic FIFO step |
| `QueueInterleaving.StepRefines` | upy-android/native-bringup/my-overrides/openmv/queue.c:78-130 | every step of either thread is one step of the atomic bounded FIFO or none; a thread gets its report exactly at the step that ends its call |
| `QueueInterleaving.RunConserves` | upy-android/native-bringup/my-overrides/openmv/queue.c:78-130 | over every schedule, items popped plus items left equal items there at first plus items pushed, in order |
| `QueueInterleaving.FifoInEveryInterleaving` | upy-android/native-bringup/my-overrides/openmv/queue.c:78-130 | from an initialised queue: popped followed by queued equals pushed, in order, in every interleaving, and at most capacity items are queued |
| `QueueInterleaving.Linearizable` | upy-android/native-bringup/my-overrides/openmv/queue.c:78-130 | over every schedule the answers, in order, are those of one atomic FIFO; each falls inside its call and fits what was asked (`PushIsAnswered`, `PopIsAnswered`) |
| `QueueInterleaving.PushIsAnswered` | upy-android/native-bringup/my-overrides/openmv/queue.c:78-106 | in every state and schedule, a push that starts is answered within three of its own steps, as pushed or refused, for the item it was called with |
| `QueueInterleaving.PopIsAnswered` | upy-android/native-bringup/my-overrides/openmv/queue.c:108-146 | in every state and schedule, a pop or peek that starts is answered within four of its own steps: a pop with an item it takes, a peek with one it leaves, or either with empty |
| `FrameBuffer.FrameBuffer.constructor` | upy-android/native-bringup/my-overrides/openmv/framebuffer.c:54-76 | before the first resize there is no buffer and both queues act as empty and full |
| `FrameBuffer.FrameBuffer.Flush` | upy-android/native-bringup/my-overrides/openmv/framebuffer.c:136-160 | every buffer is reset and free, once, in pool order; none is used; no push fails |
| `FrameBuffer.FrameBuffer.Resize` | upy-android/native-bringup/my-overrides/openmv/framebuffer.c:162-209 | succeeds exactly when memory is found (dynamic) or large enough, leaving a flushed pool of count slots; a failure keeps the sizes, but a dynamic block is gone, and with it the queues of more than three buffers, while smaller ones stay as they were |
| `FrameBuffer.AcquireAfterFailedResize` | upy-android/native-bringup/my-overrides/openmv/framebuffer.c:172-221 | after a dynamic resize without memory a pool of up to three buffers, its raw block freed, still hands out the same buffers |
| `FrameBuffer.FrameBuffer.Acquire` | upy-android/native-bringup/my-overrides/openmv/framebuffer.c:219-231 | hands out the oldest buffer of the chosen queue, taking it unless it peeks |
| `FrameBuffer.FrameBuffer.KeepLast` | upy-android/native-bringup/my-overrides/openmv/framebuffer.c:236-248 | CHECK_LAST with one free buffer: a double buffer keeps it, a triple buffer swaps it for the newest used one, or for what the slot still holds when none is used; the buffer that is then free is reset, and no other |
| `FrameBuffer.FrameBuffer.Move` | upy-android/native-bringup/my-overrides/openmv/framebuffer.c:250-263 | otherwise a buffer is taken and put into the other queue, or nothing happens when there is none |
| `FrameBuffer.FrameBuffer.PutBack` | upy-android/native-bringup/my-overrides/openmv/framebuffer.c:250-261 | the buffer joins the other queue, reset when it becomes free, and pixfmt is invalidated |
| `FrameBuffer.FrameBuffer.Release` | upy-android/native-bringup/my-overrides/openmv/framebuffer.c:233-264 | the whole release: result, both queues, the header cleared and pixfmt |
| `FrameBufferLayout.AlignToBounds` | upy-android/native-bringup/my-overrides/openmv/framebuffer.c:167-167 | the alignment macro gives the least multiple at or above its argument |
| `FrameBufferLayout.SlotsDisjoint` | upy-android/native-bringup/my-overrides/openmv/framebuffer.c:126-134 | slots do not overlap, stay before the pool end and hold frame_size bytes each |
| `FrameBufferLayout.SlotsAligned` | upy-android/native-bringup/my-overrides/openmv/framebuffer.c:126-134 | in an aligned block every slot is aligned, with less than one alignment unit added to each frame |
| `FrameBufferLayout.SmallPoolFits` | upy-android/native-bringup/my-overrides/openmv/framebuffer.c:121-129 | up to three buffers the pool starts at the raw block and ends inside it, and the queues fit the static memory for three |
| `FrameBufferLayout.BigPoolEnd` | upy-android/native-bringup/my-overrides/openmv/framebuffer.c:121-209 | above three buffers the pool ends at min_size plus the padding after the queues, so it fits a block of exactly min_size only when that padding is 0 |
| `FrameBufferLayout.PaddingOn64Bit` | upy-android/native-bringup/my-overrides/openmv/framebuffer.c:121-124 | with 8-byte pointers and 64-byte lines the padding is 0 exactly for counts divisible by 4; for 5 it is 48 |
| `FrameBufferRuns.ConservedIff` | upy-android/native-bringup/my-overrides/openmv/framebuffer.c:219-264 | an operation keeps each buffer in exactly one queue if and only if an acquire peeks, a release takes, or nothing is there to take; the push inside release then has room |
| `FrameBufferRuns.BuffersConserved` | upy-android/native-bringup/my-overrides/openmv/framebuffer.c:136-264 | over every run that acquires with PEEK and releases without it, each pool buffer is queued exactly once |
| `FrameBufferRuns.ProduceKeepsOrder` | upy-android/native-bringup/my-overrides/openmv/framebuffer.c:236-259 | the used queue stays in production order, its head keeps its frame and, with three buffers, its last is the newest frame |
| `FrameBufferRuns.TurnKeepsGood` | upy-android/native-bringup/my-overrides/openmv/framebuffer.c:136-264 | conservation and production order survive every turn of producer and consumer |
| `FrameBufferRuns.PeekedFrameStays` | upy-android/native-bringup/my-overrides/openmv/framebuffer.c:219-264 | a frame that the consumer peeked stays at the head, unchanged, whatever the producer does, each release being one step |
| `FrameBufferRuns.SwapAfterCheckIff` | upy-android/native-bringup/my-overrides/openmv/framebuffer.c:236-244 | with the consumer running between the check and the swap: the frame it peeked last survives the swap if and only if two buffers are still used; with one left that one becomes free; the buffers are conserved |
| `FrameBufferRuns.SwapOfNothing` | upy-android/native-bringup/my-overrides/openmv/framebuffer.c:236-244 | with none left, a buffer is lost unless the slot happens to hold the one just written |
| `FrameBufferRuns.ReleaseBeforeSwap` | upy-android/native-bringup/my-overrides/openmv/framebuffer.c:236-244 | one release in between is enough |
| `FrameBufferRuns.WrittenBufferStays` | upy-android/native-bringup/my-overrides/openmv/framebuffer.c:219-264 | the buffer the producer writes stays the first free one, and out of the used queue, whatever the consumer does meanwhile |
| `FrameBufferRuns.FlushDuringWrite` | upy-android/native-bringup/my-overrides/openmv/framebuffer.c:136-160 | a flush meanwhile makes another buffer the first free one, unless the one being written is buffer 0 |
| `FrameBufferRuns.FreeRunsOut` | upy-android/native-bringup/my-overrides/openmv/framebuffer.c:236-259 | with any other number of buffers, as many frames as there are free buffers leave none |
| `FrameBufferRuns.FreeBufferAlwaysExistsIff` | upy-android/native-bringup/my-overrides/openmv/framebuffer.c:236-259 | after every run a free buffer exists, if and only if the pool has two or three buffers |
| `Utf8.PrefixValidIff` | upy-android/native-bringup/my-overrides/mphalport.c:37-41 | a prefix of valid UTF-8 is valid if and only if the text ends there or the next byte is no continuation byte |
| `Utf8.CharStartNear` | upy-android/native-bringup/my-overrides/mphalport.c:38-41 | the start of a character is at most 3 bytes before any of its bytes |
| `Utf8.ValidIff` | upy-android/native-bringup/my-overrides/mphalport.c:37-41 | text is valid if and only if it is the encoding of some sequence of code points, as section 3 of RFC 3629 writes them; continuation bytes are those it gives to all but the first byte |
| `OutputCapture.OutputCapture.Clear` | upy-android/native-bringup/my-overrides/mphalport.c:26-28 | nothing is captured any more |
| `OutputCapture.OutputCapture.Write` | upy-android/native-bringup/my-overrides/mphalport.c:155-168 | the buffer gains the longest prefix of the write that fits; the callback sees all of it |
| `OutputCapture.OutputCapture.Get` | upy-android/native-bringup/my-overrides/mphalport.c:30-47 | returns the captured bytes, or, when full, the truncated form, which also replaces them; the NUL is written behind |
| `OutputCapture.OutputCapture.FillTail` | upy-android/native-bringup/my-overrides/mphalport.c:42-43 | dots from pos on, and the marker over their end |
| `OutputCapture.StoredIsPrefix` | upy-android/native-bringup/my-overrides/mphalport.c:155-168 | however the output is cut into writes, the buffer holds its first 131071 bytes |
| `OutputCapture.CutMeaning` | upy-android/native-bringup/my-overrides/mphalport.c:38-41 | the cut is the last character boundary at or before len-12, at most 3 bytes back |
| `OutputCapture.TruncatedMeaning` | upy-android/native-bringup/my-overrides/mphalport.c:31-44 | of output that is valid UTF-8, truncation keeps the longest run of whole characters, then 1 to 4 dots and the marker: valid UTF-8 of the same length |
| `OutputCapture.TruncatedTwice` | upy-android/native-bringup/my-overrides/mphalport.c:37-44 | truncating a truncated buffer changes nothing |
| `OutputCapture.CutNearIff` | upy-android/native-bringup/my-overrides/mphalport.c:38-41 | for any bytes, the cut is at most 3 bytes back if and only if one of the last four up to it is no continuation byte |
| `OutputCapture.DotsIff` | upy-android/native-bringup/my-overrides/mphalport.c:31-44 | for any bytes in a full buffer, 1 to 4 dots are shown exactly then, and more otherwise |
| `OutputCapture.NothingButDots` | upy-android/native-bringup/my-overrides/mphalport.c:37-44 | a full buffer of continuation bytes is shown as nothing but dots and the marker |
| `OutputCapture.OutputIsValidUtf8` | upy-android/native-bringup/my-overrides/mphalport.c:30-47 | for every sequence of writes of valid UTF-8, what is read is all of it or valid UTF-8 of full length, and reading again gives the same |
| `OutputCapture.TruncatedSameIff` | upy-android/native-bringup/my-overrides/mphalport.c:37-44 | a full buffer is left as it is exactly when it ends in ".[truncated]" already |
| `OutputCapture.ShownUnchangedIff` | upy-android/native-bringup/my-overrides/mphalport.c:30-47 | for every sequence of writes, the output is shown as it is if and only if it is shorter than 131071 bytes, or has exactly that many and ends in ".[truncated]" |
| `StdinFifo.StdinFifo.SetWaiting` | upy-android/native-bringup/my-overrides/mphalport.c:191-198 | the callback hears only changes, so true and false alternate |
| `StdinFifo.StdinFifo.ScriptActive` | upy-android/native-bringup/my-overrides/mphalport.c:202-210 | start and end of a script empty the FIFO; the end also stops the waiting state |
| `StdinFifo.StdinFifo.Clear` | upy-android/native-bringup/my-overrides/mphalport.c:212-216 | clearing empties the FIFO, wherever head stands |
| `StdinFifo.StdinFifo.Push` | upy-android/native-bringup/my-overrides/mphalport.c:219-236 | -1 without a script; else all of the data, or as much as fills the 64 KB, is appended and its length returned |
| `StdinFifo.StdinFifo.ReadAvailable` | upy-android/native-bringup/my-overrides/mphalport.c:238-248 | a read returns and removes the first bytes, up to max |
| `StdinFifo.StdinFifo.PollReadable` | upy-android/native-bringup/my-overrides/mphalport.c:269-277 | readable exactly when a byte is queued |
| `StdinRuns.StepKeepsInv` | upy-android/native-bringup/my-overrides/mphalport.c:202-248 | the record of who accepted which byte stays right at every call; bytes go out only while a script is active |
| `StdinRuns.ScriptsReadTheirOwnInput` | upy-android/native-bringup/my-overrides/mphalport.c:202-248 | over every sequence of calls, each byte a script reads was pushed while that script was active, in order and once |
| `StdinRuns.NothingLostWithoutClear` | upy-android/native-bringup/my-overrides/mphalport.c:219-248 | while a script stays active and nothing clears, it reads exactly what was accepted, with no gap |
| `StdinRuns.Call` | upy-android/native-bringup/my-overrides/mphalport.c:202-248 | the steps of these runs are what the calls of the class do: same content, same bytes read, and the number a push returns |
| `Doorbell.StepKeepsInv` | upy-android/native-bringup/my-overrides/mphalport.c:118-137 | every step keeps: work to do under a sleeping or about-to-sleep reader means a ring is in the eventfd or about to come |
| `Doorbell.RunKeepsInv` | upy-android/native-bringup/my-overrides/mphalport.c:118-137 | the same over whole schedules |
| `Doorbell.NoLostWakeUp` | upy-android/native-bringup/my-overrides/mphalport.c:219-267 | in every schedule of any number of pushers and interrupters the interpreter sleeps over input or a pending Interrupt only while one of them has yet to ring |
| `Doorbell.ReadGoesOn` | upy-android/native-bringup/my-overrides/mphalport.c:251-267 | whatever happens, a read goes on until it has taken one byte or raised the pending exception, and does not spin: without a ring it stays asleep |
| `Doorbell.OutsideTheRead` | upy-android/app/src/main/cpp/engine_jni.cpp:158-194 | after an answer the next read may begin, other waits may take the ring, scripts may start and end and the exception may be handled: the schedules above have all of these |
| `Doorbell.WakesUpAlone` | upy-android/native-bringup/my-overrides/mphalport.c:251-267 | once they have all rung, a read that is under way or starts now takes one byte or raises the pending exception within 4 steps |
| `Doorbell.RingsInTime` | upy-android/native-bringup/my-overrides/mphalport.c:219-236 | every push and every Interrupt, in any state and schedule, has rung after one or two steps of its own; the Interrupt has emptied the FIFO before |
| `Doorbell.StaleRing` | upy-android/native-bringup/my-overrides/mphalport.c:104-106 | a stale ring costs one pass of the loop and is gone |
| `HttpInterrupt.InterpKeepsInv` | upy-android/app/src/main/java/eu/kdvelectronics/upyandroid/http/HttpShim.kt:63-75 | each interpreter step around begin and execute keeps what every outstanding Interrupt relies on |
| `HttpInterrupt.InterrupterKeepsInv` | upy-android/app/src/main/java/eu/kdvelectronics/upyandroid/http/HttpShim.kt:182-185 | so does each step of cancel |
| `HttpInterrupt.StepKeepsInv` | upy-android/app/src/main/cpp/http_module.cpp:22-61 | so does each step of the script, begin_call and the error path |
| `HttpInterrupt.RunKeepsInv` | upy-android/app/src/main/java/eu/kdvelectronics/upyandroid/http/HttpShim.kt:63-75 | so does every schedule |
| `HttpInterrupt.PendingIff` | upy-android/app/src/main/cpp/engine_jni.cpp:170-194 | in every schedule the pending exception is set if and only if some Interrupt is outstanding: the one flag stands for all of them |
| `HttpInterrupt.NoLostInterrupt` | upy-android/app/src/main/java/eu/kdvelectronics/upyandroid/http/HttpShim.kt:41-48 | in every schedule a finished Interrupt was raised, or belongs to an earlier script, or is pending with any call in or about to enter execute cancelled |
| `HttpInterrupt.InterruptFinishes` | upy-android/app/src/main/cpp/engine_jni.cpp:193-202 | an Interrupt sent in any state sets the pending exception at once and has finished after three more steps of its thread, in every schedule |
| `HttpInterrupt.InterruptEndsTheCall` | upy-android/app/src/main/cpp/engine_jni.cpp:193-202 | the interpreter alone then raises KeyboardInterrupt within 6 steps, wherever the script was |
| `HttpInterrupt.UndisturbedCall` | upy-android/app/src/main/java/eu/kdvelectronics/upyandroid/http/HttpShim.kt:63-75 | a call that no Interrupt disturbs runs and ends as it does by itself, whatever the calls before left in cancelled and active |
| `HttpInterrupt.CallGoesOn` | upy-android/app/src/main/java/eu/kdvelectronics/upyandroid/http/HttpShim.kt:63-75 | in every schedule active names the call exactly from its publication to its end, and a call ends only by itself, by raising the pending exception or its own error, or by being refused before |
| `HttpInterrupt.RefusedCall` | upy-android/app/src/main/cpp/http_module.cpp:22-61 | a call refused for its arguments ends without having been published, with an error or without |
| `HttpInterrupt.NextScript` | upy-android/app/src/main/cpp/engine_jni.cpp:170-194 | no Interrupt reaches from one script into the next: what is outstanding at its start is forgotten |
| `HttpInterrupt.NothingElseCancels` | upy-android/app/src/main/cpp/http_module.cpp:56-61 | once every earlier Interrupt is past its read of active, only an Interrupt that is still pending can cancel the call |
| `HttpInterrupt.CancelledCallRaisesIff` | upy-android/app/src/main/java/eu/kdvelectronics/upyandroid/http/HttpShim.kt:176-185 | for every reachable state in which a call may begin: whatever happens then, a cancelled call ends in KeyboardInterrupt, if and only if some Interrupt is outstanding already or every earlier Interrupt's thread is past its read of active |
| `HttpInterrupt.LateInterrupter` | upy-android/app/src/main/java/eu/kdvelectronics/upyandroid/http/HttpShim.kt:182-185 | an Interrupt already handled, whose thread is not past that read, can cancel the next call and let it end in another error |
| `HttpInterrupt.LateCancel` | upy-android/app/src/main/cpp/http_module.cpp:296-296 | such a state is reachable, so the promise of the help text fails |
| `FairLock.NextKeepsExclusive` | upy-android/native-bringup/my-overrides/openmv/mutex.c:37-68 | each load, test-and-set, store and clear keeps that only the last winner may be inside |
| `FairLock.NextKeepsAlternating` | upy-android/native-bringup/my-overrides/openmv/mutex.c:52-60 | a thread past the fair tid check is never the last winner, however the others lock |
| `FairLock.AtMostOneHolder` | upy-android/native-bringup/my-overrides/openmv/mutex.c:37-68 | in every schedule where threads unlock only what they hold, at most one is inside, however they lock |
| `FairLock.NeverTwiceInARow` | upy-android/native-bringup/my-overrides/openmv/mutex.c:44-60 | in every schedule, mixed ones included, two acquisitions in a row by one thread never happen through the fair try_lock |
| `FairLock.LockReturnsWithTheLock` | upy-android/native-bringup/my-overrides/openmv/mutex.c:37-42 | mutex_lock goes on trying in every schedule until it wins, and wins at its first test-and-set of a clear flag |
| `FairLock.TryLockEnds` | upy-android/native-bringup/my-overrides/openmv/mutex.c:44-60 | a try_lock ends at its test-and-set, with the lock exactly when the flag is clear then |
| `FairLock.WinnerHolds` | upy-android/native-bringup/my-overrides/openmv/mutex.c:37-60 | whoever wins the test-and-set holds the lock at its next step, with its tid stored |
| `FairLock.FairTryLockIff` | upy-android/native-bringup/my-overrides/openmv/mutex.c:52-60 | the fair try_lock of a free lock reaches its test-and-set if and only if another thread had the lock last, or none had it and the tid is not 0 |
| `FairLock.UnlockFrees` | upy-android/native-bringup/my-overrides/openmv/mutex.c:62-68 | in every reachable state the unlock of the holder frees the lock at its second step, whatever the others do in between |
| `FairLock.StrayUnlockIff` | upy-android/native-bringup/my-overrides/openmv/mutex.c:62-68 | in every state that a disciplined schedule reaches, one unlock by t lets two threads in, sooner or later, if and only if t is outside and its tid is the one stored |
| `FairLock.StrayUnlockLetsTwoIn` | upy-android/native-bringup/my-overrides/openmv/mutex.c:62-68 | the two threads and their steps, for every such state |
| `FairLock.PlainTryLockRepeats` | upy-android/native-bringup/my-overrides/openmv/mutex.c:44-60 | whenever the lock is free and its last owner outside, the plain try_lock gives it to that owner again, where the fair one refuses |
| `TerminalText.SizeOfConcat` | upy-android/app/src/main/java/eu/kdvelectronics/upyandroid/TerminalLog.kt:65-65 | UTF-8 size is additive over a cut, but for 2 bytes when the cut splits a surrogate pair |
| `TerminalText.SizeIsEncoded` | upy-android/app/src/main/java/eu/kdvelectronics/upyandroid/TerminalLog.kt:65-65 | that size is the length of the UTF-8 encoding of the code points, an unpaired surrogate being "?" |
| `TerminalLog.TerminalLog.Append` | upy-android/app/src/main/java/eu/kdvelectronics/upyandroid/TerminalLog.kt:43-60 | the loop over newlines adds each piece, evicts and publishes |
| `TerminalLog.TerminalLog.AppendPiece` | upy-android/app/src/main/java/eu/kdvelectronics/upyandroid/TerminalLog.kt:62-74 | a piece joins the open last line or starts a line, and is counted |
| `TerminalLog.TerminalLog.EnforceCap` | upy-android/app/src/main/java/eu/kdvelectronics/upyandroid/TerminalLog.kt:82-86 | lines go from the front until both caps hold or one line is left |
| `TerminalLog.TerminalLog.Clear` | upy-android/app/src/main/java/eu/kdvelectronics/upyandroid/TerminalLog.kt:98-103 | the log is empty |
| `TerminalLog.AddAllConcat` | upy-android/app/src/main/java/eu/kdvelectronics/upyandroid/TerminalLog.kt:51-57 | before eviction, two chunks give the lines of their concatenation |
| `TerminalLog.EvictEarly` | upy-android/app/src/main/java/eu/kdvelectronics/upyandroid/TerminalLog.kt:82-86 | evicting after each chunk evicts nothing that would have stayed |
| `TerminalLog.ChunkingDoesNotMatter` | upy-android/app/src/main/java/eu/kdvelectronics/upyandroid/TerminalLog.kt:44-86 | append(a) then append(b) leaves exactly the lines and byte count of append(a + b), when no surrogate pair is split |
| `TerminalLog.SessionIsOneChunk` | upy-android/app/src/main/java/eu/kdvelectronics/upyandroid/TerminalLog.kt:44-86 | so does a whole session of chunks |
| `TerminalMeaning.LinesAreUnique` | upy-android/app/src/main/java/eu/kdvelectronics/upyandroid/TerminalLog.kt:51-74 | a text has only one list of lines |
| `TerminalMeaning.EvictsFewest` | upy-android/app/src/main/java/eu/kdvelectronics/upyandroid/TerminalLog.kt:76-86 | eviction removes the fewest front lines after which both caps hold or one line is left |
| `TerminalMeaning.LinesOfText` | upy-android/app/src/main/java/eu/kdvelectronics/upyandroid/TerminalLog.kt:44-74 | the lines of a chunk are its text split at newlines, each with its UTF-8 size |
| `TerminalMeaning.EvictOnce` | upy-android/app/src/main/java/eu/kdvelectronics/upyandroid/TerminalLog.kt:82-86 | over every session, evicting after each chunk leaves what evicting once at the end does |
| `TerminalMeaning.SessionMeaning` | upy-android/app/src/main/java/eu/kdvelectronics/upyandroid/TerminalLog.kt:43-86 | after every session the log is the lines of all output less the fewest front lines, and totalBytes the sum of their counts; each count is the line's size as UTF-8 less 2 for every chunk boundary inside one of its pairs |
| `TerminalMeaning.SessionSizes` | upy-android/app/src/main/java/eu/kdvelectronics/upyandroid/TerminalLog.kt:62-74 | so the counts are exact in every session that splits no pair |
| `TerminalMeaning.LastLine` | upy-android/app/src/main/java/eu/kdvelectronics/upyandroid/TerminalLog.kt:93-96 | after every session that printed anything, the last line, which lastLineText returns, is what was written after the last newline but a final one |
| `TerminalMeaning.EnforceTwoMore` | upy-android/app/src/main/java/eu/kdvelectronics/upyandroid/TerminalLog.kt:82-86 | two logs that differ by 2 bytes in one line are equal after eviction if and only if that line is gone |
| `TerminalMeaning.SplitPairShows` | upy-android/app/src/main/java/eu/kdvelectronics/upyandroid/TerminalLog.kt:44-86 | a pair cut in two shows in the log exactly while the line with it is kept |
| `TerminalMeaning.AppendKeepsCounted` | upy-android/app/src/main/java/eu/kdvelectronics/upyandroid/TerminalLog.kt:62-86 | totalBytes stays the sum of the lines' sizes, which ChunkingIff asks of the log |
| `TerminalMeaning.ChunkingIff` | upy-android/app/src/main/java/eu/kdvelectronics/upyandroid/TerminalLog.kt:44-86 | for any two chunks at all: they leave the log of their concatenation if and only if they split no pair, or what the second adds to the line with the pair breaks a cap at once, said in the sizes of the open line and of the chunks |
| `TerminalMeaning.SplitPairCountsLess` | upy-android/app/src/main/java/eu/kdvelectronics/upyandroid/TerminalLog.kt:65-73 | the two halves of U+1F600 in two chunks count 2 bytes instead of 4 |
| `Rotation.StrideIsSource` | upy-android/app/src/main/cpp/camera_module.cpp:88-102 | the index start + ox * step is in bounds and is the source pixel of the rotation that `TurnsClockwise` describes |
| `Rotation.TurnsClockwise` | upy-android/app/src/main/cpp/camera_module.cpp:88-102 | pixel (x, y) of a W x H image goes to (H-1-y, x) for 90, to (W-1-x, H-1-y) for 180, to (y, W-1-x) for 270: clockwise, with width and height exchanged where they must be |
| `Rotation.RotateGrayRow` | upy-android/app/src/main/cpp/camera_module.cpp:113-117 | a row of the output gets its pixels |
| `Rotation.RotateGray` | upy-android/app/src/main/cpp/camera_module.cpp:104-119 | the loops write the image turned clockwise (`TurnsClockwise`), every pixel of it |
| `Rotation.RotateRgbaRow` | upy-android/app/src/main/cpp/camera_module.cpp:127-132 | the same for four-byte pixels |
| `Rotation.RotateRgbaToRgb565` | upy-android/app/src/main/cpp/camera_module.cpp:121-134 | the loops write the converted pixels, turned clockwise (`TurnsClockwise`) |
| `Rotation.SourceComposes` | upy-android/app/src/main/cpp/camera_module.cpp:88-98 | on coordinates, rotating by a and then b is rotating by (a + b) mod 360 |
| `Rotation.RotationsCompose` | upy-android/app/src/main/cpp/camera_module.cpp:88-119 | the same on whole images, with width and height swapped where needed |
| `Rotation.RotatingBackRestores` | upy-android/app/src/main/cpp/camera_module.cpp:88-119 | rotating by rot and then by 360 - rot gives the image back |
| `Rotation.IndexIsBijection` | upy-android/app/src/main/cpp/camera_module.cpp:88-102 | every source pixel is read by exactly one output pixel |
| `Display.StepMeaning` | upy-android/app/src/main/cpp/display_module.cpp:93-96 | step is the least power of two at which the image fits the buffer |
| `Display.ComputeStep` | upy-android/app/src/main/cpp/display_module.cpp:92-96 | the doubling loop ends and finds that step |
| `Display.UpscaleFactor` | upy-android/app/src/main/cpp/display_module.cpp:36-47 | the loop finds the largest of 1, 2, 4 and 8 that fits |
| `Display.ReadInBounds` | upy-android/app/src/main/cpp/display_module.cpp:113-127 | every pixel read lies in the image, for all flips and transpose |
| `Display.ReadMapping` | upy-android/app/src/main/cpp/display_module.cpp:110-127 | the pixel read is the logical coordinate, mirrored in each direction where exactly one of the two flips is on, and swapped if transposed |
| `Display.ReadIsOriented` | upy-android/app/src/main/cpp/display_module.cpp:110-127 | so it is that pixel of the transposed and mirrored image |
| `Display.ReadPixel` | upy-android/app/src/main/cpp/display_module.cpp:113-138 | the nested conditions read that pixel |
| `Display.DrawBlock` | upy-android/app/src/main/cpp/display_module.cpp:140-147 | the inner loops colour one block and nothing else |
| `Display.DrawOutput` | upy-android/app/src/main/cpp/display_module.cpp:140-147 | block by block, a buffer pixel changes exactly when it shows that output pixel |
| `Display.DrawAll` | upy-android/app/src/main/cpp/display_module.cpp:106-149 | the clearing and the loops draw every step-th pixel of the image as it is seen into its block, and nothing else |
| `Display.ComputeLayout` | upy-android/app/src/main/cpp/display_module.cpp:89-104 | step, size, factor and offsets are those of the layout, whose rectangle lies in the buffer and whose sizes `Centred` pins |
| `Display.DisplayWrite` | upy-android/app/src/main/cpp/display_module.cpp:89-149 | afterwards each buffer pixel in the centred rectangle holds its source pixel and all others are 0; that no sampled pixel is missing is `SampleIsShown` |
| `Display.Centred` | upy-android/app/src/main/cpp/display_module.cpp:89-104 | the picture has as many pixels as there are multiples of step in the image; margins differ by at most one pixel; step and factor are the powers of two that fit, and neither could be better |
| `Display.SampleIsShown` | upy-android/app/src/main/cpp/display_module.cpp:106-149 | every step-th pixel of the image as it is seen is on screen, at its place, as a block of factor x factor |
| `Display.AllIsShown` | upy-android/app/src/main/cpp/display_module.cpp:106-149 | an image that fits the buffer is on screen with every one of its pixels |
| `Display.FlipsCancel` | upy-android/app/src/main/cpp/display_module.cpp:110-127 | a flip of the display object and the same flip of the hint cancel, with and without transpose |
| `Display.DrawsTheOrientedImage` | upy-android/app/src/main/cpp/display_module.cpp:89-149 | drawing with flags is drawing the transposed and mirrored image without any |
| `Display.OpaqueExactlyInside` | upy-android/app/src/main/cpp/display_module.cpp:106-138 | the pixels of the rectangle have alpha 255 and all others alpha 0 |
| `Display.RgbaBytes` | upy-android/app/src/main/cpp/display_module.cpp:138-138 | the four bytes of a drawn pixel are red, green, blue and 255, from the lowest |
| `LitertRegistry.KeepOne` | upy-android/app/src/main/cpp/litert_module.cpp:86-93 | unlinking one node leaves the others in order |
| `LitertRegistry.Registry.Add` | upy-android/app/src/main/cpp/litert_module.cpp:73-80 | a new node is linked in front |
| `LitertRegistry.Registry.Remove` | upy-android/app/src/main/cpp/litert_module.cpp:82-95 | the node is unlinked, wherever it is; a null or unknown one changes nothing |
| `LitertRegistry.Registry.TakeAll` | upy-android/app/src/main/cpp/litert_module.cpp:845-852 | the loop takes every node, in order, and leaves an empty list |
| `LitertRegistry.Litert.CreateBufferSet` | upy-android/app/src/main/cpp/litert_module.cpp:400-418 | every buffer the bridge created is registered; without these the list is as before |
| `LitertRegistry.Litert.CloseBufferSet` | upy-android/app/src/main/cpp/litert_module.cpp:420-431 | each buffer of the set is closed once, in order, and unlinked |
| `LitertRegistry.Litert.CreateBoth` | upy-android/app/src/main/cpp/litert_module.cpp:610-613 | whichever create raises, exactly the buffers created so far are in the two sets |
| `LitertRegistry.Litert.UseBuffers` | upy-android/app/src/main/cpp/litert_module.cpp:615-652 | the first failing check, write, run or read decides the outcome; the model runs at most once |
| `LitertRegistry.OutcomeOf` | upy-android/app/src/main/cpp/litert_module.cpp:605-652 | run returns exactly when both creates, the count, all writes, the run and all reads succeed; otherwise the first of them that fails is what it raises |
| `LitertRegistry.Litert.RunOnBuffers` | upy-android/app/src/main/cpp/litert_module.cpp:587-659 | for every outcome the buffer registry is as before and each created buffer is closed exactly once |
| `LitertRegistry.Litert.Run` | upy-android/app/src/main/cpp/litert_module.cpp:587-659 | and the registries of models and environments are untouched |
| `LitertRegistry.Litert.CloseAll` | upy-android/app/src/main/cpp/litert_module.cpp:841-869 | each remaining handle is closed once, environments last, and all lists are empty |
| `AdbReply.AdbClient.Parse` | tools/_upy_adb_core.py:57-87 | the loop of content_call computes the reply and sets the three globals only for a run reply |
| `AdbReply.IdentifierIff` | tools/_upy_adb_core.py:17-17 | a field value is made of ASCII letters, digits and underscores and does not start with a digit |
| `AdbReply.ParseRun` | tools/_upy_adb_core.py:57-87 | for a printed run reply the three globals are the values of its fields, and empty for the fields it lacks |
| `AdbReply.SearchFindsLast` | tools/_upy_adb_core.py:17-17 | a field at the end, perhaps before one newline, is what the expression finds |
| `AdbReply.PeelFields` | tools/_upy_adb_core.py:75-80 | the loop takes off exactly the printed fields, in any order, and goes on with what is left |
| `AdbReply.MarkerFound` | tools/_upy_adb_core.py:57-62 | the last marker is the printed one unless the output has one itself |
| `AdbReply.ParseWithoutMarker` | tools/_upy_adb_core.py:57-84 | without the marker in the output, the reply is the output less what looks like further fields |
| `AdbReply.ParseWithMarker` | tools/_upy_adb_core.py:59-84 | with it, the output is always cut short |
| `AdbReply.RoundTripIff` | tools/_upy_adb_core.py:57-87 | output and fields come back if and only if the output has no marker and no tail that looks like a missing field |
| `AdbReply.LooksLikeFieldIff` | tools/_upy_adb_core.py:17-17 | that tail, in words: ", key=identifier", perhaps before one newline, for a key absent from the reply |
| `AdbReply.ParseOthers` | tools/_upy_adb_core.py:67-87 | a printed error comes back word for word unless it has the marker, an empty Bundle is empty output; neither touches the globals |
| `AdbReply.UnparseableIff` | tools/_upy_adb_core.py:57-87 | a text is refused if and only if it is not a Bundle of one of the three kinds after its last marker |
| `AdbReply.PeelsAtMostThree` | tools/_upy_adb_core.py:76-80 | the loop takes off at most three fields |
| `LicenseText.NormIsWords` | upy-android/native-bringup/gen-licenses.py:25-26 | norm gives the words of the text joined by single spaces, https read as http |
| `LicenseText.NormEqualIff` | upy-android/native-bringup/gen-licenses.py:25-26 | two texts are equal after norm if and only if they have the same words |
| `LicenseText.SpaceIff` | upy-android/native-bringup/gen-licenses.py:25-26 | whitespace, for norm and strip, is one of 29 characters |
| `LicenseText.HttpsIsHttp` | upy-android/native-bringup/gen-licenses.py:25-26 | one https:// read as http:// anywhere in a text makes no difference to norm |
| `LicenseText.WithoutHttps` | upy-android/native-bringup/gen-licenses.py:25-26 | and a text without https:// is not changed by that step |
| `Licenses.SearchIsLeftmost` | upy-android/native-bringup/gen-licenses.py:29-33 | the search finds the leftmost header |
| `Licenses.ApacheSpan` | upy-android/native-bringup/gen-licenses.py:29-37 | the span lies in the text and is not empty, so pos grows |
| `Licenses.AppendixSpan` | upy-android/native-bringup/gen-licenses.py:40-48 | only whitespace stands between start and the appendix |
| `Licenses.Turns` | upy-android/native-bringup/gen-licenses.py:115-133 | the loop ends, and its spans follow one another inside the text |
| `Licenses.ReplaceCopies` | upy-android/native-bringup/gen-licenses.py:113-136 | the page of a component is, piece by piece and in order: a kept piece, escaped, without the newlines at its ends, between pre tags; the link with its reference for a copy of the licence; nothing for the rest. The copies are counted |
| `Licenses.SegmentsAreText` | upy-android/native-bringup/gen-licenses.py:115-136 | kept and dropped pieces concatenate to the text |
| `Licenses.TurnsDropCopies` | upy-android/native-bringup/gen-licenses.py:119-130 | each span dropped matches its reference after norm |
| `Licenses.NothingElseIsLost` | upy-android/native-bringup/gen-licenses.py:115-136 | for every text and references: all pieces together are the text, and each dropped one is whitespace, a copy of the licence or of the appendix |
| `LicenseCopies.SpanInSlice` | upy-android/native-bringup/gen-licenses.py:29-37 | a span found in part of the text is the one found in the text from there on |
| `LicenseCopies.HeaderIff` | upy-android/native-bringup/gen-licenses.py:18-18 | a recognised header is the title, one or more whitespace characters, and the version |
| `LicenseCopies.FirstFindInKeptIsNoCopy` | upy-android/native-bringup/gen-licenses.py:115-136 | the first span the generator would find in a kept piece is no copy of the licence |
| `LicenseCopies.ReplacesIff` | upy-android/native-bringup/gen-licenses.py:115-133 | which stretches the turns of the loop replace, by induction over the turns |
| `LicenseCopies.CopyReplacedIff` | upy-android/native-bringup/gen-licenses.py:6-8 | for every text and every stretch of it: it becomes the link if and only if it equals the reference after norm, starts with a recognised header, ends with the first end mark after it, does not start in the appendix of an earlier replaced copy, and every header before it (not in such an appendix) has an end mark between itself and it |
| `LicenseCopies.AppendixDroppedIff` | upy-android/native-bringup/gen-licenses.py:40-130 | for every text and every stretch of it: it is dropped as an appendix if and only if it follows, after whitespace, a copy that became the link, starts within 200 and ends within 2500 characters, at the first end mark, and equals the reference after norm |
| `LicenseCopies.CopyAfterMentionStays` | upy-android/native-bringup/gen-licenses.py:115-133 | every copy that is replaced on its own stays word for word behind a mention of the licence |
| `LicenseCopies.NoHeaderNotReplaced` | upy-android/native-bringup/gen-licenses.py:29-37 | a stretch that starts with no recognised header is never replaced, whatever its words |
| `LicenseCopies.BrokenCopyStays` | upy-android/native-bringup/gen-licenses.py:18-26 | every copy that is replaced stays when any whitespace but a space stands in its title, although norm makes the two the same |
| `Licenses.EscapeReadsBack` | upy-android/native-bringup/gen-licenses.py:51-52 | the HTML escape of a kept piece can be read back exactly |
| `Licenses.EscapeIsHarmless` | upy-android/native-bringup/gen-licenses.py:51-52 | the escape has none of the characters that mean something in HTML, but for & at the start of one of the five references |
| `Licenses.EntitiesMean` | upy-android/native-bringup/gen-licenses.py:51-52 | the five references stand for the five characters |

## Left out

- Weak memory ordering: atomics and volatiles are sequentially consistent, the plain slot accesses included.
- The framebuffer operations under concurrency: each is one step in `FrameBufferRuns`, but for a consumer between the check and the swap of a release; `queue_swap` itself is one step, as the source calls it safe only under special conditions.
- Queue.Swap: a slot that was never written holds an arbitrary value, and what a caller does with it is not modelled; FrameBufferRuns.ConservedIff shows that disciplined runs never read one.
- FrameBuffer.FrameBuffer.Acquire: requires queues that still exist, as do the flush and the release; after a failed dynamic resize those of more than three buffers lie in freed memory, and what the code would read there is not modelled.
- Callers of the frame-buffer pool: this port has none that acquires and releases in a loop, so `FrameBufferRuns` states the discipline it needs.
- FrameBuffer.FrameBuffer.Resize: `size_t` overflow of the sizes is not modelled, and buffers are named by index, so writing through one into its neighbour is covered by `FrameBufferLayout` only; NULL is address 0, and a NULL block of a size other than 0 counts as memory there.
- Data-cache maintenance, the preview and the other fields of `framebuffer_t`.
- OutputCapture.OutputCapture.Get: a write between two reads of a full buffer stores nothing, so only that case is covered by reading twice.
- The eventfd that could not be created (20 ms slices), waits with a timeout, `ppoll` errors, and sleep durations.
- `mp_event_wait_indefinite` is not part of this model: it handles pending exceptions and then waits for the doorbell, as assumed in `Doorbell`.
- Line building in `mp_android_readline`, and the waiting announcements inside `mp_hal_stdin_rx_chr`.
- Doorbell.NoLostWakeUp: counts the queued bytes and leaves their values to `StdinFifo`.
- HttpInterrupt.NoLostInterrupt: a call is only its identity and whether it is cancelled; what okhttp does, response limits and the choice among OSError, MemoryError and ValueError are not modelled, and `osErrors` stands for all three.
- Starvation in the spin lock, and the wrap-around of thread ids.
- TerminalLog.TerminalLog.Append: Kotlin's 32-bit `totalBytes` is a mathematical integer; the wrapper object around each published snapshot is left out.
- The image conversions of imlib: `COLOR_R8_G8_B8_TO_RGB565` and the display's reading of a source pixel as red, green and blue are parameters of the proofs.
- Display.DisplayWrite: starts once the window is locked; 32-bit overflow of the step loop for extreme aspect ratios is not modelled, nor are the two returns when there is no window.
- Camera state around the rotation: opening, closing, waiting for a frame.
- LitertRegistry.Litert.Run: what the bridge does is a plan of successes and failures; `malloc` failures, the freeing of nodes and a null entry in a buffer set are left out.
- The registries of tflite and mqtt, which are the same list.
- AdbReply.AdbClient.Parse: the subprocess, its timeouts, the decoding of its output, and the wording of error messages are left out.
- Licenses.ReplaceCopies: one component's text; the splitting of the two input files into sections and components, the choice of the reference texts, and the page around it are left out.
- Licenses.NothingElseIsLost: is about the pieces; a kept piece is printed without the newlines at its ends, as the source strips them.
- JNI, Compose UI, settings, ssh, mqtt, location, imu and example scripts.
