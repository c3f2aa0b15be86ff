# SeedStone, modelled and proved

SeedStone is a store that speaks the Redis protocol. This project models the parts of it whose
correctness is hardest to see from the code, and proves what those parts promise:

- **The keyspace table** (`Words`, `Cursors`, `Tables`, `Keyspaces`, `KeyspaceProofs`, `Scans`,
  `Walks`, `Runs`, `Figures`, `Dicts`). A chained hash table that doubles incrementally, with two tables alive
  while buckets migrate; running figures for size, memory and deadlines; and a cursor walk in
  reverse binary order. `Keyspaces` is the table as a value, `Dicts.Dict` the object that updates its
  fields in place, each method proved equal to the value-level operation. A cursor is read through
  its bit reversal, so a step of the walk is "go to the end of an aligned block of the hash space".
  `Figures` holds the running figures, growth and clock to numbers over the plain map.
- **`SCAN`** (`ShardScans`, `Crossings`, `ScanClients`, `ScanBounds`, `ScanCalls`, `QuietWalks`). The
  walk lifted to one client's cycle over many shards, with mutations between any two envelopes.
- **The RESP2 codec** (`Decimals`, `Resp`, `Spellings`, `RespMachine`, `RespChunks`, `RespLimits`,
  `RespRoundTrip`, `RespGrammar`, `RespDecoder`, `RespStream`). `Spellings` is the grammar, apart from
  any reader or writer; `RespMachine` says what a decoder makes of bytes, and `RespGrammar` that this
  is the grammar exactly; `RespDecoder.Decoding` and `RespStream.Decoder` are the resumable decoder
  with its offsets, half-read elements, stack and compaction, proved to be that machine.
- **The pipelined connection** (`Routing`, `Pools`, `Connections`, `Sessions`, `Exchanges`). Chunked
  execution against serving requests one at a time, the executors' grouped dispatch against
  dispatching in order, decoder and connection together as a function from the bytes read to the
  bytes written, and what those bytes are for every reply and on both sides of the gate.
- **Byte algorithms** (`Glob`, `GlobMeanings`, `Crc`, `Records`). The one-star matcher against a declarative meaning,
  the sixteen-row CRC against the bit-at-a-time loop, and the log record format.
- **Two protocols of the simulator** (`Sweep`, `Durability`). The bounded in-order parallel sweep as a
  step system, and the states a crash may leave.

Conventions. Machine words are naturals below 2^64 with every bit operation written out by halving;
sizes and counters are naturals, and no counter is ever taken below zero. The seeded hash is an
arbitrary function. Time enters as a parameter. A `Valid` predicate is the invariant of a class;
`State`, `Where` or `Owed` is the value it stands for.

Where documentation and code differ, the model follows the code:

- The decoder is documented to give the same verdict however bytes are split. It does exactly when a
  frame is allowed at least one byte (`RespChunks.ChunkingIsInvisibleIff`).
- The encoder documents that a simple or error text must hold neither a carriage return nor a line
  feed. What the decoder needs is only that the two do not follow one another
  (`RespRoundTrip.TextGoesRoundIff`).
- Pruning a crash history is documented as dropping what is unreachable. It changes no answer for the
  durable points it was pruned at and every later one. For an earlier point, or for none known, which
  `crates/seedstone-sim/src/model/crash.rs:164-168` asks for, it can; `Durability.PruningIsInvisibleIff`
  says exactly when, and `Durability.PruningForgets` gives a run of four writes.
- A sweep accepts every range that does not overflow the seed space. It keeps its laws exactly when
  the range and one draw beyond it a started worker fit the 64-bit counter (`Sweep.SweepIsSafeIff`).

## Model

| member | source | states |
|---|---|---|
| `Cursors.AdvanceReachesBlockEnd` | crates/seedstone-core/src/dict.rs:850-853 | Read backwards, the next cursor is exactly the start of the block after the one the cursor is in, and zero exactly past the last block |
| `Cursors.SameBucketSameBlock` | crates/seedstone-core/src/dict.rs:823-827 | Two hashes select the same bucket exactly when they lie in the same aligned block of the reversed hash space |
| `Scans.StepReachesBlockEnd` | crates/seedstone-core/src/dict.rs:652-695 | With one table or two, a step of the walk ends where the cursor's block of the smaller table ends, returns a cursor within its mask, and returns zero exactly past the last block |
| `Scans.StepCovers` | crates/seedstone-core/src/dict.rs:652-695 | A step visits every stored key between its cursor and the cursor it returns, whichever table holds it |
| `Scans.VisitsAreStored` | crates/seedstone-core/src/dict.rs:652-695 | A step visits only entries the table holds, under their own hash |
| `KeyspaceProofs.InsertRefines` | crates/seedstone-core/src/dict.rs:401-455 | An insert is a map update; placement, counters and load stay exact through the migration step it pays for and the doubling it may start |
| `KeyspaceProofs.RemoveRefines` | crates/seedstone-core/src/dict.rs:458-481 | A remove is a map removal, counters exact, present or not |
| `KeyspaceProofs.SetDeadlineRefines` | crates/seedstone-core/src/dict.rs:276-291 | Setting a deadline changes that entry's deadline and nothing else, in whichever table it is |
| `KeyspaceProofs.TouchRefines` | crates/seedstone-core/src/dict.rs:305-316 | A touch stamps that entry from the wrapping clock and changes nothing else |
| `KeyspaceProofs.RehashKeeps` | crates/seedstone-core/src/dict.rs:551-582 | Any number of migration steps leaves the abstract map as it was, and the invariant with it |
| `KeyspaceProofs.MigrateDrains` | crates/seedstone-core/src/dict.rs:551-582 | Migrating a range of buckets empties exactly that range of the old table and leaves its other buckets as they were |
| `KeyspaceProofs.FlagIsSound` | crates/seedstone-core/src/dict.rs:276-291 | While the flag says no entry holds a deadline, none does |
| `Runs.ApplyRefines` | crates/seedstone-core/src/dict.rs:243-582 | Every operation keeps the invariant and is the same operation on a plain map |
| `Runs.RunRefines` | crates/seedstone-core/src/dict.rs:243-582 | Every run of operations is the same run on a plain map from key to entry; after it keys are unique across both tables, every slot is in the bucket its hash selects, the figures equal a full recount (which `Figures` gives in numbers over the map), and the load is within one entry a doubling of one |
| `Runs.CycleVisitsEveryKeyThatStays` | crates/seedstone-core/src/dict.rs:594-695 | For every interleaving of operations with a walk begun at zero and ended by zero, every key present throughout is visited, however often the table doubled |
| `Runs.RestOfCycleVisits` | crates/seedstone-core/src/dict.rs:594-695 | The same from any cursor on: what lies at or after it is visited before the cycle ends |
| `Runs.CycleIsShort` | crates/seedstone-core/src/dict.rs:616-641 | Without a clear, a cycle makes at most as many calls as the table it ends on has buckets |
| `Runs.CycleEnds` | crates/seedstone-core/src/dict.rs:616-641 | Left alone, a walk from any cursor ends its cycle |
| `Runs.NeverShrinks` | crates/seedstone-core/src/dict.rs:780-789 | Only a clear makes the table smaller |
| `Figures.MemoryIsExact` | crates/seedstone-core/src/dict.rs:153-170 | In every valid keyspace the memory figure is 24 a bucket of each table and, over the keys of the plain map, 96 and the bytes of key and value |
| `Figures.InsertMovesMemory` | crates/seedstone-core/src/dict.rs:401-455 | An insert moves the figure by its own bytes, or by new value less old value where it overwrites, and by the tables it made or was done with |
| `Figures.RemoveMovesMemory` | crates/seedstone-core/src/dict.rs:458-481 | A removal gives back exactly what the entry was charged, and tables it was done with |
| `Figures.DeadlinesAreExact` | crates/seedstone-core/src/dict.rs:276-291 | The deadline figure is the number of keys of the map that have a deadline |
| `Figures.FlagRemembers` | crates/seedstone-core/src/dict.rs:276-291 | Over every run from a new keyspace, the flag is set exactly when some deadline was given since it was last new, cleared or emptied by a removal |
| `Figures.EveryKeyAfter` | crates/seedstone-core/src/dict.rs:243-582 | What every operation leaves every key, the one it names and all others, entry by entry |
| `Figures.ClockCountsTouches` | crates/seedstone-core/src/dict.rs:305-316 | Over every run without a clear the clock is the touches counted modulo 2^32, whether they found their key or not |
| `Figures.LaterTouchIsLater` | crates/seedstone-core/src/dict.rs:305-316 | Of two keys touched one after the other the later has the later stamp, until the clock wraps |
| `Figures.StartsWithEight` | crates/seedstone-core/src/dict.rs:223-235 | A new keyspace is one table of eight buckets, accounted at 192 bytes |
| `Figures.StepDrainsExactly` | crates/seedstone-core/src/dict.rs:551-582 | A migration step drains exactly the next buckets asked for or all that are left, touches no other, and leaves one table of twice the buckets exactly when none is left |
| `Figures.InsertGrows` | crates/seedstone-core/src/dict.rs:401-455 | An insert begins a doubling exactly when none is under way and entries are as many as buckets; one under way it takes one bucket further; otherwise it leaves the tables alone |
| `Figures.RemoveMigrates` | crates/seedstone-core/src/dict.rs:458-481 | A removal takes a migration under way one bucket further and does nothing else to the tables |
| `Dicts.Dict.constructor` | crates/seedstone-core/src/dict.rs:223-235 | A new keyspace satisfies the invariant and holds nothing |
| `Dicts.Dict.Get` | crates/seedstone-core/src/dict.rs:243-249 | Finds a key exactly when the abstract map has it, and answers its entry |
| `Dicts.Dict.SetDeadline` | crates/seedstone-core/src/dict.rs:276-291 | Reports whether the key was there, and redates it in the map |
| `Dicts.Dict.Touch` | crates/seedstone-core/src/dict.rs:305-316 | Stamps the key in the map with the advanced clock |
| `Dicts.Dict.Insert` | crates/seedstone-core/src/dict.rs:401-455 | The map gains or overwrites the key, and the fields are those of the value-level insert |
| `Dicts.Dict.Remove` | crates/seedstone-core/src/dict.rs:458-481 | The map loses the key and the entry it held is answered |
| `Dicts.Dict.Clear` | crates/seedstone-core/src/dict.rs:499-501 | The keyspace is as new |
| `Dicts.Dict.RehashStep` | crates/seedstone-core/src/dict.rs:551-582 | The loop over buckets migrates exactly the value-level amount and leaves the map alone |
| `Dicts.Dict.StartRehash` | crates/seedstone-core/src/dict.rs:780-789 | The second table has twice the buckets and is empty, and its memory is counted |
| `Dicts.Dict.Scan` | crates/seedstone-core/src/dict.rs:652-695 | The visiting loop over both tables visits and returns what the step is defined to, and ends after at most two rounds |
| `Dicts.Dict.SampleOldest` | crates/seedstone-core/src/dict.rs:351-393 | From any cursor, aligned or not, answers none exactly when there is no key but the spared one; otherwise a stored key whose stamp is least among those of the buckets walked, which are enough for the sample or all there are |
| `Dicts.Dict.Examine` | crates/seedstone-core/src/dict.rs:368-388 | Keeps the least stamp over everything examined, never counting or choosing the spared key |
| `Dicts.Dict.ExpireStep` | crates/seedstone-core/src/dict.rs:746-772 | Under any expiry policy reports only keys due on a sweep, none twice, and every due key in the stretch it walked; when neither a deadline was set nor undated keys are taken it walks nothing and no key has a deadline |
| `Walks.WalkCovers` | crates/seedstone-core/src/dict.rs:652-695 | Up to a budget of steps visit every stored key from the cursor to where they stop |
| `Walks.WalkBounds` | crates/seedstone-core/src/dict.rs:652-695 | Such a run takes between one step and its budget, stops short only at the end of the cycle, and leaves a cursor of at most 48 bits |
| `Walks.WalkDistinct` | crates/seedstone-core/src/dict.rs:652-695 | Over an unchanging keyspace it visits no key twice, two tables included |
| `Walks.LapVisitsEverything` | crates/seedstone-core/src/dict.rs:351-393 | As many steps as there are buckets in both tables go round past every stored key, from any cursor |
| `ShardScans.ScanStep` | crates/seedstone-core/src/shard/apply.rs:668-704 | Under any expiry policy a shard's step answers the cursor and the bucket count of a bounded run, with the keys among what it visited, in order, that are not due on a read and match, and changes nothing |
| `ShardScans.Report` | crates/seedstone-core/src/shard/apply.rs:684-694 | A bucket's keys are kept exactly when they are not due on a read and the pattern, if any, accepts them |
| `Crossings.UnpackPack` | crates/seedstone-service/src/walk.rs:38-51 | Packing gives back the shard always, and the shard's cursor exactly when it fits 48 bits |
| `Crossings.PackUnpack` | crates/seedstone-service/src/walk.rs:38-51 | Every 64-bit cursor is some shard and cursor, and packs back to itself |
| `Crossings.PackIs` | crates/seedstone-service/src/walk.rs:38-51 | A cursor is the shard times 2^48 and the shard's own cursor, both ways |
| `Crossings.ZeroIsTheStart` | crates/seedstone-service/src/walk.rs:38-51 | Zero names the start of the first shard and nothing else packs to it |
| `Crossings.ZeroMeansSpent` | crates/seedstone-service/src/walk.rs:177-184 | A call that is over answers zero exactly when the last shard is spent, and otherwise exactly where it stopped |
| `Crossings.Crossing.Begin` | crates/seedstone-service/src/walk.rs:105-130 | A cursor is refused exactly when it names a shard there is not; otherwise the call resumes where the cursor points, and stopped at once would answer that very cursor |
| `Crossings.Crossing.Wants` | crates/seedstone-service/src/walk.rs:138-147 | A step is asked for exactly while the call is not finished, has fewer keys than its target and has budget; it is for a shard there is, from exactly the place the call's answer would unpack to; once none is asked for, the answer is zero exactly when the last shard is spent |
| `Crossings.Crossing.Feed` | crates/seedstone-service/src/walk.rs:155-171 | For any answer fed, a budget left shrinks, the shard never goes down, and the call is finished exactly by the last shard's zero; a call in range stays in range for every cursor a shard answers |
| `Crossings.Crossing.Finish` | crates/seedstone-service/src/walk.rs:177-184 | From any state the answer is where the call would resume with the keys gathered; it is zero for a call that is over exactly when finished, and any other answer unpacks to where the call stopped |
| `ScanCalls.Scan` | crates/seedstone-service/src/fan_out.rs:339-390 | A cursor for a missing shard, and only that, is refused as invalid; the first shard that does not answer ends the call; otherwise the page is the call's, with at most one envelope a shard. Before its last envelope it had fewer keys than the count asked for, at least one; it stops short of the end only with that many keys or with exactly 1024 buckets visited, and never visits more |
| `ScanCalls.Dispatch` | crates/seedstone-service/src/fan_out.rs:355-381 | One envelope feeds the call the shard's own answer and spends budget |
| `ScanClients.WalkHandsOverEveryKeyThatStays` | crates/seedstone-service/src/walk.rs:38-184 | A client that repeats the call from zero until zero, with anything changing between envelopes, is handed every key that stayed in its shard live and matching |
| `ScanClients.StepMovesOn` | crates/seedstone-service/src/walk.rs:155-171 | Every envelope moves the call strictly on: later in its shard with the budget spent, to the next shard, or to the end from the last shard |
| `ScanClients.WalkNeverGoesBack` | crates/seedstone-service/src/fan_out.rs:339-390 | The client's place never goes back, calls and answers do not move it, and zero comes back exactly when the last shard is spent |
| `ScanClients.WalkEnds` | crates/seedstone-service/src/walk.rs:132-171 | From any point of a walk over shards left alone, a client that goes on asking comes to the end, whatever key target it asks for at each call and whenever it calls |
| `ScanBounds.WalkIsShort` | crates/seedstone-service/src/walk.rs:132-184 | Whatever changes between envelopes short of a clear, and however its calls are sized, a walk from zero has taken no more envelopes than the shards now have buckets |
| `ScanClients.AnswerIsHonest` | crates/seedstone-core/src/shard/apply.rs:668-704 | Every key an envelope brings was stored, not due on a read by the node's policy, and accepted by the pattern if there is one |
| `QuietWalks.QuietWalkHandsOverEachOnce` | crates/seedstone-service/src/walk.rs:86-184 | Over shards nobody changes, a whole walk hands over exactly the keys some shard has that pass, and none twice |
| `QuietWalks.QuietRunKeepsTotal` | crates/seedstone-service/src/walk.rs:155-184 | However calls are sized, what was handed over and what is ahead always make up the same sequence |
| `QuietWalks.CycleIsExact` | crates/seedstone-core/src/dict.rs:594-695 | A whole cycle has every stored key, nothing else, and none twice |
| `Resp.Encode` | crates/seedstone-resp/src/lib.rs:85-94 | The stack walk writes exactly the recursive wire form of any frame, of any depth |
| `Resp.EncodeOne` | crates/seedstone-resp/src/lib.rs:97-141 | A frame's own bytes are appended and an array's elements are left on the stack in reverse |
| `Decimals.DecimalRoundTrip` | crates/seedstone-resp/src/lib.rs:224-247 | Every 64-bit integer printed reads back as itself |
| `Decimals.DecimalIsPlain` | crates/seedstone-resp/src/lib.rs:97-141 | No number is written with a leading zero, nor zero with a minus |
| `Spellings.WireSpells` | crates/seedstone-resp/src/lib.rs:97-141 | What is written spells the frame in the grammar: type byte by number, field, payload of the declared length, line ends, and elements in order |
| `Spellings.ParsesWhatIsWritten` | crates/seedstone-resp/src/lib.rs:224-247 | A field parses to a number exactly when it is digits worth that number with at most one minus, within 64 bits |
| `RespChunks.ChunkingIsInvisible` | crates/seedstone-resp/src/lib.rs:865-914 | Two ways of splitting the same bytes deliver the same frames, reach the same verdict and leave the decoder in the same state |
| `RespChunks.ChunkingIsInvisibleIff` | crates/seedstone-resp/src/lib.rs:462-523 | That holds for all bytes and splittings exactly when a frame is allowed at least one byte |
| `RespChunks.SplitLineEndIsRefused` | crates/seedstone-resp/src/lib.rs:508-523 | With no byte allowed, an empty line split in two is refused where it is skipped whole |
| `RespChunks.NextExtends` | crates/seedstone-resp/src/lib.rs:462-482 | More bytes never take back a frame or a refusal, and a decoder that waits goes on from where it waits |
| `RespChunks.StuckOverLimitIsRefused` | crates/seedstone-resp/src/lib.rs:462-482 | Refusing a frame still arriving refuses nothing any continuation could have completed |
| `RespLimits.AdvanceKeepsOk` | crates/seedstone-resp/src/lib.rs:600-741 | Every element keeps the charge equal to the recursive cost of all frames held, within the limit, with nesting within 64 |
| `RespLimits.DrainKeepsOk` | crates/seedstone-resp/src/lib.rs:399-416 | Over any bytes, every frame delivered is one the protocol accepts and fits in memory, and so is all that is held |
| `RespLimits.DeliveredWithinBytes` | crates/seedstone-resp/src/lib.rs:793-801 | A frame delivered took no more wire bytes than a frame may, empty lines before it aside |
| `RespRoundTrip.RoundTrip` | crates/seedstone-resp/src/lib.rs:1043-1050 | The wire form of any frame within the limits, followed by any bytes, is read back as the frame and takes exactly its own length |
| `RespRoundTrip.ProperPrefixWaits` | crates/seedstone-resp/src/lib.rs:1001-1005 | Every proper prefix of it asks for more |
| `RespGrammar.DeliveredIff` | crates/seedstone-resp/src/lib.rs:462-741 | A frame is delivered, with these bytes left, exactly when the bytes are empty lines, a spelling of it no longer than a frame may be, and those bytes, and it is within 64 levels, 16 MiB a payload, 2^20 elements an array, 64-bit integers, UTF-8 texts and the memory limit |
| `RespRoundTrip.SpelledIsDelivered` | crates/seedstone-resp/src/lib.rs:462-741 | Any spelling of a frame within the limits, leading zeros and all, is delivered as that frame and takes exactly its own bytes, whatever follows |
| `RespGrammar.DeliveredIsSpelled` | crates/seedstone-resp/src/lib.rs:462-741 | Whatever is delivered was spelled: empty lines, a spelling of the frame, and exactly the bytes left |
| `RespGrammar.HeldOnce` | crates/seedstone-resp/src/lib.rs:462-741 | No bytes can be read as two different frames within the limits |
| `RespGrammar.BadPayloadEndIsRefused` | crates/seedstone-resp/src/lib.rs:645-670 | At any depth, a payload followed by any two bytes but a line end is refused whatever follows |
| `RespGrammar.UnknownTypeIsRefused` | crates/seedstone-resp/src/lib.rs:488-523 | At any depth, a byte no frame begins with is refused whatever follows; an empty line only passes between frames |
| `RespGrammar.BadLengthIsRefused` | crates/seedstone-resp/src/lib.rs:548-593 | A payload length that is no number, is below minus one, is over 16 MiB or is more than memory allows is refused on its own line |
| `RespGrammar.BadCountIsRefused` | crates/seedstone-resp/src/lib.rs:548-593 | An array count that is no number, is negative, is over 2^20, opens a level past the 64th or is more than memory allows is refused on its own line |
| `RespGrammar.BadIntegerIsRefused` | crates/seedstone-resp/src/lib.rs:548-593 | An integer that is no number of 64 bits is refused |
| `RespGrammar.BadTextIsRefused` | crates/seedstone-resp/src/lib.rs:548-593 | A simple or error text that is not UTF-8 is refused |
| `RespRoundTrip.ConversationInChunks` | crates/seedstone-resp/src/lib.rs:882-914 | Frames written one after another are read back as those frames in whatever chunks they arrive |
| `RespRoundTrip.TextGoesRoundIff` | crates/seedstone-resp/src/lib.rs:41-52 | A simple or error text within the limits goes round, whatever follows it, exactly when no line end is inside it |
| `RespRoundTrip.WireWithinCost` | crates/seedstone-resp/src/lib.rs:273-281 | A frame is never smaller in memory than on the wire |
| `RespDecoder.Decoding.FindCrlf` | crates/seedstone-resp/src/lib.rs:680-699 | A resumed search finds the first line end of the element, having looked at each byte once |
| `RespDecoder.Decoding.FinishBulk` | crates/seedstone-resp/src/lib.rs:645-670 | A bulk waits without looking, and completes or is refused on its line end |
| `RespDecoder.Decoding.SkipEmptyLines` | crates/seedstone-resp/src/lib.rs:508-523 | Skipped lines change no later frame and count towards none |
| `RespDecoder.Decoding.ReadTyped` | crates/seedstone-resp/src/lib.rs:488-593 | Resumed or fresh, the element read is the one at the front of the unread bytes |
| `RespDecoder.Decoding.ReadLineAt` | crates/seedstone-resp/src/lib.rs:548-593 | A found line is the element its type byte says, or a priced bulk header, or refused |
| `RespDecoder.Decoding.PlaceElement` | crates/seedstone-resp/src/lib.rs:706-741 | The loop attaches an element through every array it fills, charging each, as the recursive placement does |
| `RespDecoder.Decoding.Charge` | crates/seedstone-resp/src/lib.rs:765-784 | The charge never passes the limit and is refused exactly when it would; a charge exact but for this frame is exact with it, and a refusal records nothing |
| `RespDecoder.Decoding.Step` | crates/seedstone-resp/src/lib.rs:462-482 | From any half-read state, delivers, waits or refuses exactly as the unread bytes say |
| `RespDecoder.Decoding.ShiftBack` | crates/seedstone-resp/src/lib.rs:449-456 | Rebasing after a cut keeps every offset, and what is understood, meaning the same bytes |
| `RespStream.Decoder.Feed` | crates/seedstone-resp/src/lib.rs:882-885 | Fed bytes follow the unread ones, and compaction moves no meaning |
| `RespStream.Decoder.Compact` | crates/seedstone-resp/src/lib.rs:927-939 | Only bytes of delivered frames are dropped, and all of them |
| `RespStream.Decoder.TryNext` | crates/seedstone-resp/src/lib.rs:904-914 | Answers the next frame of the unread bytes; in all, no more bytes are looked at than were fed, but for one a call |
| `RespStream.Decoder.Buffered` | crates/seedstone-resp/src/lib.rs:979-981 | The bytes of the frame under way already understood, and those still unread |
| `RespStream.TakeAll` | crates/seedstone-service/src/connection.rs:569-667 | Taking frames until none is whole gives every frame the bytes hold, then the verdict |
| `RespStream.Converse` | crates/seedstone-resp/src/lib.rs:865-914 | A whole conversation in any chunks gives the frames and verdict of the bytes fed whole, looking at no more bytes than that plus one a frame and one a chunk |
| `RespStream.Parse` | crates/seedstone-resp/src/lib.rs:1043-1050 | One frame from the start of a slice with the bytes it took, or more wanted, or a refusal |
| `Routing.GatheredMeans` | crates/seedstone-service/src/fan_out.rs:556-572 | Replies fold to entries exactly when every one is a value or its absence; otherwise the first other reply decides the answer |
| `Routing.GatheredFound` | crates/seedstone-service/src/fan_out.rs:556-572 | Then there is one entry a reply, its frame, in order |
| `Routing.FoldReplies` | crates/seedstone-service/src/fan_out.rs:556-572 | The fold's loop gives that answer, and refuses a count that is not the one expected |
| `Routing.FanOut` | crates/seedstone-service/src/fan_out.rs:497-535 | The two loops come to the sum and the sliced array that `SumMeans`, `ArrayOfFound` and `ArrayOfOther` give the meaning of |
| `Routing.SumMeans` | crates/seedstone-service/src/fan_out.rs:499-509 | When every command answers a count, a sum runs every command and answers their saturating total; otherwise it answers the first other reply and runs nothing behind it |
| `Routing.TotalIsTheSum` | crates/seedstone-service/src/fan_out.rs:499-509 | Counts none of which is negative total their plain sum, or the largest 64-bit integer where that is smaller |
| `Routing.ArrayOfFound` | crates/seedstone-service/src/fan_out.rs:510-533 | When every command finds a value or its absence, slicing is invisible: every command runs and there is one frame for each, in order, over any number of slices |
| `Routing.ArrayOfOther` | crates/seedstone-service/src/fan_out.rs:510-533 | Otherwise the first other reply decides the answer, and what has run is exactly the slices up to and including its own |
| `Routing.BoundedArrayIsOneFold` | crates/seedstone-service/src/fan_out.rs:497-535 | A multi-key read within one slice is its commands in order and one fold of their replies |
| `Pools.DispatchMany` | crates/seedstone-core/src/shard/pool.rs:954-992 | Scattered by executor, run in any interleaving and gathered by position, a batch leaves the store and gives the replies of its commands one after another, with a command for an executor that refused its share unavailable in its place |
| `Pools.GroupedIsInTurn` | crates/seedstone-core/src/shard/pool.rs:954-992 | The states any complete interleaving leaves, and the reply each recorded position leads to, are those of dispatching in order |
| `Pools.EveryScheduleAgrees` | crates/seedstone-core/src/shard/pool.rs:954-992 | In every interleaving each executor ends where its own bucket alone ends |
| `Pools.OthersAreServed` | crates/seedstone-core/src/shard/pool.rs:976-989 | Executors that refuse their share cost a batch exactly their own commands: they stay as they were and those are unavailable, and every other executor ends, and every other command is answered, as if none had refused |
| `Pools.Scatter` | crates/seedstone-core/src/shard/pool.rs:960-974 | Buckets hold each executor's commands in batch order, and each position says where its reply will be |
| `Pools.Gather` | crates/seedstone-core/src/shard/pool.rs:164-198 | One reply a command, taken from its recorded position: unavailable where there is none, or where it was taken before |
| `Pools.PoolIsFaithful` | crates/seedstone-core/src/shard/pool.rs:317-337 | A pool that dispatches batches grouped, by any choice of complete schedules, is a faithful router: a batch is its commands dispatched one at a time |
| `Pools.SomeScheduleCompletes` | crates/seedstone-core/src/shard/pool.rs:954-992 | Every batch has a complete schedule, so such a choice exists |
| `Connections.StrangerTouchesNothing` | crates/seedstone-service/src/dispatch.rs:96-128 | Over any requests, a peer that never authenticates never changes the store, asks for a stop or becomes authenticated |
| `Connections.EntryInRange` | crates/seedstone-service/src/connection.rs:229-249 | Every slot's batch entries are in range |
| `Connections.TakeFrame` | crates/seedstone-service/src/connection.rs:745-783 | A slot is answered from replies nobody took before, or as unavailable or unrenderable where they are missing |
| `Connections.Connection.EmitChunk` | crates/seedstone-service/src/connection.rs:712-807 | With any router, one dispatch and then the frame each slot takes from what came back, in request order; with a faithful router nothing owed changes |
| `Connections.Connection.PushCommand` | crates/seedstone-service/src/connection.rs:577-590 | A command batched is owed exactly what it would answer behind everything ahead of it, and the batch goes out at 128 |
| `Connections.Connection.PushSpan` | crates/seedstone-service/src/connection.rs:591-624 | So is a bounded multi-key read, which never carries the batch past 128 |
| `Connections.Connection.PushReady` | crates/seedstone-service/src/connection.rs:642-652 | A frame known already is owed behind everything ahead of it, and the store is untouched |
| `Connections.Connection.RunAlone` | crates/seedstone-service/src/connection.rs:625-641 | A request that walks or broadcasts runs after everything ahead of it |
| `Connections.Connection.RunFanOut` | crates/seedstone-service/src/connection.rs:625-641 | A larger or summed request runs after everything ahead of it |
| `Connections.Connection.Handle` | crates/seedstone-service/src/connection.rs:569-665 | Each request comes to what serving it alone comes to, and with any router earns one frame, a stop none |
| `Connections.Connection.Drain` | crates/seedstone-service/src/connection.rs:556-690 | Any sequence of requests leaves the store, flag and frames of serving them one at a time, and earns a number of frames no router can change |
| `Connections.Connection.Pass` | crates/seedstone-service/src/connection.rs:359-388 | So does a pass with its last chunk emitted and flushed; bytes that are no frame are refused behind everything earned; what is written is exactly the frames; and with any router the connection is left exactly after a parting request or a refusal |
| `Connections.Connection.AppendFrame` | crates/seedstone-service/src/connection.rs:789-813 | Frames go out whole and in order across writes at the high-water mark |
| `Sessions.ServeStream` | crates/seedstone-service/src/connection.rs:320-442 | However the bytes fell into reads, frames and chunks, the bytes written, the store and the flag are those of every frame in the bytes as a whole served one at a time, and then the refusal if they hold no further frame and no request left first; where a frame is allowed no byte, of the frames the reads deliver |
| `Sessions.ServeRead` | crates/seedstone-service/src/connection.rs:359-425 | One read serves exactly the frames its bytes complete and refuses behind them exactly when they cannot go on, with the decoder left where the bytes leave it |
| `Exchanges.CommandIsAnswered` | crates/seedstone-service/src/reply.rs:156-196 | The bytes an authenticated peer is sent for one command, by its reply, in numbers: an absent value, a value, a removal, a count, a status, an error |
| `Exchanges.CommandSends` | crates/seedstone-service/src/reply.rs:156-196 | One command runs on the store and sends exactly its reply's bytes, and changes nothing else of the connection |
| `Exchanges.PipelineSends` | crates/seedstone-service/src/connection.rs:556-690 | A pipeline of commands runs in order and sends its replies' bytes one after another |
| `Exchanges.SessionSends` | crates/seedstone-service/src/connection.rs:320-442 | Bytes in, bytes out: commands as they are written on the wire are answered with exactly their replies' bytes in order |
| `Exchanges.SessionRefuses` | crates/seedstone-service/src/connection.rs:666-690 | Bytes that can be no frame are answered the refusal behind every request's frames, unless a request left first; bytes that only stop short are not |
| `Exchanges.RepliesApart` | crates/seedstone-service/src/reply.rs:156-196 | A peer tells any two values, absences, counts or one-line errors apart by their bytes, whatever follows them |
| `Exchanges.ReadManySends` | crates/seedstone-service/src/fan_out.rs:510-533 | A multi-key read of any number of keys sends one array of every value or absence in order |
| `Exchanges.ReadManyFails` | crates/seedstone-service/src/fan_out.rs:510-533 | One with a shard that fails sends that shard's error alone, after exactly the slices of 128 up to the failure have run |
| `Exchanges.RemoveManySends` | crates/seedstone-service/src/fan_out.rs:499-509 | A multi-key removal sends how many of its keys were there |
| `Exchanges.RemoveManyFails` | crates/seedstone-service/src/fan_out.rs:499-509 | One that fails at a key sends that error, with nothing behind the key run |
| `Exchanges.SlotIsAnswered` | crates/seedstone-service/src/connection.rs:745-783 | With any router, a slot sends its own reply's bytes, an error where its reply is missing, and for a whole run of values one array |
| `Exchanges.SpanFails` | crates/seedstone-service/src/connection.rs:757-783 | A run with a failure behind values sends that failure's error |
| `Exchanges.StrangerIsAnswered` | crates/seedstone-service/src/dispatch.rs:110-128 | What a peer that has not authenticated is answered: a right attempt its own frame with the flag set for everything behind it, a wrong one its own frame and nothing else, a goodbye its frame and the end, a refusal its frame, a handshake its own text, and everything else the general one with the connection kept |
| `Exchanges.MemberIsAnswered` | crates/seedstone-service/src/connection.rs:642-665 | An authenticated peer stays so whatever it tries; a goodbye hangs up behind its frame, a stop with no frame and the stop asked for |
| `Glob.Matches` | crates/seedstone-core/src/glob.rs:24-72 | True exactly when the declarative meaning of the pattern accepts the subject, within (subject + 1) times (pattern + 1) rounds |
| `Glob.Backtrack` | crates/seedstone-core/src/glob.rs:78-88 | After a failed attempt there was a later match to find exactly if the remembered star, begun one byte further on, matches there or later still; with no star there is none |
| `Glob.ClassHit` | crates/seedstone-core/src/glob.rs:101-137 | The loop over a class decides membership and where the class ends, unclosed classes, escapes and reversed ranges included |
| `GlobMeanings.QuestionTakesAny` | crates/seedstone-core/src/glob.rs:24-72 | `?` takes any one byte |
| `GlobMeanings.StarTakesAnyRun` | crates/seedstone-core/src/glob.rs:24-72 | `*` takes any run of bytes, none included |
| `GlobMeanings.EscapeIsLiteral` | crates/seedstone-core/src/glob.rs:24-72 | A byte behind a backslash is itself |
| `GlobMeanings.PlainIsItself` | crates/seedstone-core/src/glob.rs:24-72 | A pattern with no special byte accepts exactly itself |
| `GlobMeanings.ClassTakesMembers` | crates/seedstone-core/src/glob.rs:101-137 | A class takes its members and no other byte |
| `GlobMeanings.NegatedTakesTheOthers` | crates/seedstone-core/src/glob.rs:101-137 | A negated class takes every byte but its members |
| `GlobMeanings.RangeTakesBetween` | crates/seedstone-core/src/glob.rs:101-137 | A range takes what lies between its ends, in either order |
| `GlobMeanings.NegationIsComplement` | crates/seedstone-core/src/glob.rs:101-137 | Whatever is between the brackets, closed or not, exactly one of a class and its negation takes a byte, and both leave the same rest of the pattern |
| `Crc.Crc32` | crates/seedstone-core/src/log.rs:214-234 | For every length the table checksum is the bit-at-a-time checksum |
| `Crc.CrcTables` | crates/seedstone-core/src/log.rs:182-202 | Row k is a byte advanced through k more zero bytes |
| `Crc.Block` | crates/seedstone-core/src/log.rs:218-229 | Sixteen bytes folded through sixteen rows are the sixteen bytes taken one bit at a time |
| `Crc.AlteredByteAltersChecksum` | crates/seedstone-core/src/log.rs:660-674 | Changing any one byte of any data changes its checksum |
| `Crc.CheckValue` | crates/seedstone-core/src/log.rs:545-549 | The checksum of 123456789 is 0xCBF43926, the check value of CRC-32/ISO-HDLC |
| `Records.RecordRoundTrip` | crates/seedstone-core/src/log.rs:281-376 | A record followed by anything decodes to itself and its length, exactly when its body is within the ceiling; otherwise it is damage |
| `Records.ProperPrefixNeedsMore` | crates/seedstone-core/src/log.rs:332-376 | Every proper prefix of a record needs more |
| `Records.LogRoundTrip` | crates/seedstone-core/src/log.rs:332-376 | A log of records, whatever follows it, reads back as exactly those records and then whatever follows |
| `Records.AlteredBodyIsDamage` | crates/seedstone-core/src/log.rs:332-376 | Any single altered body byte decodes as damage |
| `Records.AlteredChecksumIsDamage` | crates/seedstone-core/src/log.rs:332-376 | So does any single altered checksum byte |
| `Records.AlteredLogReadsUpTo` | crates/seedstone-core/src/log.rs:332-376 | Altering any one body or checksum byte of the k-th record of a log leaves exactly the k records before it readable |
| `Records.RecordBytes` | crates/seedstone-core/src/log.rs:281-307 | A record byte by byte: 0xA5, body length, checksum, shard and sequence number least byte first, and the payload |
| `Records.LogStops` | crates/seedstone-core/src/log.rs:332-339 | Behind whole records, nothing means more may come, a zero byte ends the log, and any byte but 0xA5 is damage of one byte |
| `Records.DeclaredLengthDecides` | crates/seedstone-core/src/log.rs:340-363 | A declared length under 10 or over 64 MiB is damage before any of the body is looked at, and any other is waited for |
| `Records.EncodeRecord` | crates/seedstone-core/src/log.rs:281-307 | The buffer patched in place holds the record's encoding behind what was there |
| `Records.DecodeRecord` | crates/seedstone-core/src/log.rs:332-376 | The branches answer what the format says of any bytes |
| `Durability.CandidatesAreExact` | crates/seedstone-sim/src/durability.rs:312-323 | The candidates are exactly the states some cut of the landed writes leaves, if it keeps every write acknowledged before the durable point |
| `Durability.PruningIsInvisibleIff` | crates/seedstone-sim/src/durability.rs:284-323 | For every run of writes and every durable point, known or not, the pruned history answers as the whole one exactly when nothing was dropped, or a write still kept is durable by then, or the last write dropped is the durable one and left the key absent |
| `Durability.PruningIsInvisible` | crates/seedstone-sim/src/durability.rs:284-291 | So pruning changes no answer for any durable point at or after those pruned at |
| `Durability.PruningForgets` | crates/seedstone-sim/src/model/crash.rs:164-168 | A run of four writes after which a state that may be on disk is no longer answered, both for an earlier durable point and for none known |
| `Durability.SlotHistory.Record` | crates/seedstone-sim/src/durability.rs:284-291 | The history gains the write and drops exactly what is before its durable base |
| `Durability.SlotHistory.RecordUnacknowledged` | crates/seedstone-sim/src/durability.rs:295-297 | At every durable point the write the history rests on stays the one it was, and the candidates gain this state and nothing else |
| `Durability.SlotHistory.LastBase` | crates/seedstone-sim/src/durability.rs:300-304 | The last acknowledged write before the durable point, if any |
| `Durability.SlotHistory.CandidateStates` | crates/seedstone-sim/src/durability.rs:312-323 | Answers the candidates of the history |
| `Sweep.SweepIsSafe` | crates/seedstone-sim/src/sweep.rs:201-303 | In every interleaving, panics included, the seeds reported are the first of the range in order, each once; no waiting seed is below the head; and no more than the window have begun and not been reported; for every range whose seeds and one draw a worker fit the counter |
| `Sweep.SweepIsSafeIff` | crates/seedstone-sim/src/sweep.rs:217-258 | For every range a sweep accepts, all its runs are safe exactly when the seeds and one draw a started worker fit the 64-bit counter: otherwise some run draws a seed already reported |
| `Sweep.WindowIsReached` | crates/seedstone-sim/src/sweep.rs:79-143 | The bound is exact: behind a slow first seed another worker gets as far as 4096 seeds begun and not reported |
| `Sweep.SweepEnds` | crates/seedstone-sim/src/sweep.rs:201-303 | No run is longer than ten steps a seed, one a worker and one; it stops only with every party finished; and then, short of a panic, the whole range is reported and nothing is pending |
| `Sweep.StepKeepsInv` | crates/seedstone-sim/src/sweep.rs:90-194 | Every step of every party keeps each drawn, unreported seed in exactly one place, and the gate behind the collector |
| `Sweep.SomePartyCanStep` | crates/seedstone-sim/src/sweep.rs:82-143 | Until every party has finished some party can step: the holder of the head seed is never held back |
| `Sweep.DrawTakesTheNext` | crates/seedstone-sim/src/sweep.rs:251-258 | The wrapping counter hands out the range in order and then only values outside it |

## Left out

- `Runs.RunRefines`: an insert requires fewer than 2^47 entries, the point past which a table could outgrow the 48 bits a packed cursor leaves a shard; the source has no such check and no machine reaches it.
- `Sweep.SweepEnds`: a range whose seeds and started workers together pass 2^64 is excluded; there the counter comes round and the law fails (`Sweep.SweepIsSafeIff`).
- `Sweep.SweepIsSafe`: the same range is excluded, by the exact condition of `Sweep.SweepIsSafeIff`.
- `Sessions.ServeStream`: one connection is served alone; commands other connections interleave between two of its own are not modelled. A read's frames are all decoded before they are served, where the code decodes them one by one; what follows a parting request is dropped either way.
- `Pools.DispatchMany`: an executor that takes its share answers all of it, and executors share nothing; the node-wide memory figure they evict by is not modelled.
- `ScanCalls.Scan`: nothing changes a shard during the method's one call; `ScanClients` has the changes between envelopes.
- `ShardScans.ScanStep`: the policy says what is due and not in what order buckets are walked, which is reverse binary always.
- SipHash, reference-counted bytes, buffer capacities and shedding: library behaviour.
- Sockets, futures, timers, write failures and the order tasks are polled in; `frame_to_action` and its option parsing are an arbitrary function from frames to actions.
- UTF-8 validity is an arbitrary predicate and the size of a frame in memory an arbitrary number.
- `KEYS`, broadcasts, `INFO`, `HELLO` and `CONFIG`: a connection takes each as a function of the store.
- Refusal texts, command labels, error counters and log lines.
- `SlotHistory`'s `observed` and `keep_only`, which rest on their callers in the crash model.
- The shard's other commands, eviction, the log writer, recovery and checkpoints.
- The simulated workload, planted faults, benchmarks, site and scripts.
