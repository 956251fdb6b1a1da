# Block scheduling, contract lookup and confirmation hashes, in Dafny

This project models three small, deterministic parts of a permissioned
blockchain node written in Go, and proves properties of them.

- **The round-robin block schedule** (`BlockTimeCounter`,
  `packages/protocols/generation_queue.go`). Time after the first block is cut
  into slots of one `duration`. Slot `k` belongs to node position
  `k mod numberNodes`. From the time alone the counter answers four questions.
  Which slot is it (`Queue`)? Whose turn is it (`NodePosition`,
  `TimeToGenerate`)? When is a node's next turn (`NextTime`)? Has a node
  already produced a block for this turn (`RangesByTime`,
  `BlockForTimeExists`)? Times and durations are integers counting
  nanoseconds, as Go's `time.Duration` does. `time.Unix(0, 0)` is 0. Go's
  truncating `/` and `%` are written out in module `GoInt`, because Dafny's
  are Euclidean. This matters at `t == start`, where the source divides
  `-1ns` by the duration.
- **Contract lookup and the transaction-field encoder** (`packages/smart/smart.go`).
  The virtual machine's object tree is a value: its name-indexed `Objects`
  map and its ordered `Children`. `GetContract`, `GetContractById` and
  `GetFunc` are lookups into it. `TxJson` is a method; its loop is the
  method `RenderLines` and the `switch` inside the loop is `FieldLine`.
  It renders each declared tx field of type `string`, `int64` or `[]uint8`
  into a JSON-like object literal, in declaration order. It is proved equal
  to the specification function `Encode`, and the lemmas are stated about
  `Encode`. The renderings it uses (`%d`, `hex.EncodeToString`,
  `strings.Join`) are in module `Format`. `Decimal` and `Hex` have inverses
  (`ParseDecimal`, `Unhex`). `Join` has none, because the source does not
  escape and a value may itself contain `",\r\n"`. It is characterised by
  its length, its two ends and the two-part case.
- **The confirmation responder** (`TCPServer.Type4`,
  `packages/tcpserver/type4.go`). It returns the stored hash of a block, or
  32 zero bytes when the block cannot be read or has an empty hash.

Go's `(value, error)` results are modelled as `Reply(value, err)` pairs, not
as a sum type. The source returns a value beside every error, and callers can
see it: `TimeToGenerate` returns `position == nodePosition` even beside
`TimeError`. A function needs `duration != 0` or `numberNodes != 0` only
on the paths where Go divides by it, and would panic otherwise.
`GetContractById` needs `id >= 0`. `TxJson` needs a value of the declared
type for every rendered field (`Smart.TxJsonReady`). When `Extend` is nil,
as `GetContract` and `GetContractById` return it, Go panics at the
dereference `*(*contract).Extend` on the first rendered field, whatever its
type. The model reads a nil `Extend` as the empty map, which the
precondition then rejects (`Smart.NilExtendRendersNothing`). With a non-nil
`Extend`, a mistyped `[]uint8` value panics at the `.([]byte)` assertion.
For `string` and `int64` fields Go does not panic: `fmt.Sprintf` formats
junk such as `%!s(<nil>)` or `%!d(string=…)`. The precondition excludes
those junk-formatting cases as well.

Where the code and the design description of the system disagree, the model
follows the code:

- **Slot boundaries.** The design describes slots as `[start + k·d, start + (k+1)·d)`.
  The code computes `(t - start - 1ns) / d`, so slot `k > 0` is
  `(start + k·d, start + (k+1)·d]`. When `d > 1ns`, slot 0 also holds
  `start` itself. With 1ns slots, `Queue(start)` is `(-1, nil)`.
- **Entry separator.** The design's encoding example separates entries with
  a bare `,`, as in `{"amount": 500,"pub": "abcd"}`. The code joins entries
  with `",\r\n"`.
- **Missing or mistyped fields.** The design says these fail with an
  encoding error. The code has no such error: Go either panics or formats
  junk. The model makes typed values a precondition (`Smart.TxJsonReady`).
- **Duplicate-block window.** The design derives the window from the slot
  index. The code derives it from the node position. This is reported under
  Findings.

Files: `wrappers.dfy` (Option), `go_int.dfy` (Go's integer division and
`byte`), `generation_queue.dfy`, `format.dfy`, `smart.dfy`, `type4.dfy`.

## Model

| member | source | states |
|---|---|---|
| `GoInt.Quo` | packages/protocols/generation_queue.go:38 | Go's `/`: the quotient truncated toward zero; equals Euclidean division for non-negative operands and is bracketed by `|q|·|b| <= |a| < (|q|+1)·|b|` |
| `GoInt.Rem` | packages/protocols/generation_queue.go:48 | Go's `%`: `a == Quo(a,b)·b + r`, `|r| < |b|`, `r` has the sign of the dividend, and equals Dafny's `%` for non-negative operands |
| `GenerationQueue.Queue` | packages/protocols/generation_queue.go:32-39 | error `(-1, TimeError)` exactly when `t` is before `start`; otherwise no error, a non-negative index `k` with `start + k·d < t <= start + (k+1)·d` for `t > start`, and 0 at `t == start` when `d > 1ns` |
| `GenerationQueue.QueueOfSlot` | packages/protocols/generation_queue.go:38 | every time in `(start + k·d, start + (k+1)·d]`, `k >= 0`, has queue number `k` with no error |
| `GenerationQueue.NodePosition` | packages/protocols/generation_queue.go:41-49 | Queue's error is propagated with -1; otherwise the position is Go's `Queue % numberNodes`, in `[0, numberNodes)` and equal to the Euclidean remainder once the queue is non-negative |
| `GenerationQueue.SameSlotSamePosition` | packages/protocols/generation_queue.go:42-49 | two times in the same slot `k` have the same queue number and the same node position, `k mod numberNodes` |
| `GenerationQueue.SlotOffset` | packages/protocols/generation_queue.go:86-91 | for a valid position and a queue number of at least -1 the offset `d` is in `1..numberNodes`, never 0, and is a full round when the node owns the current slot |
| `GenerationQueue.SlotOffsetReachesOwner` | packages/protocols/generation_queue.go:86-91 | from slot `queue >= -1`, `queue + offset` is the first later slot owned by the position: owned (`mod numberNodes == p`), non-negative, and no slot in between owned |
| `GenerationQueue.NextTime` | packages/protocols/generation_queue.go:77-94 | `(Unix(0,0), WrongNodePositionError)` when `nodePosition >= numberNodes`; `(Unix(0,0), TimeError)` before `start`; otherwise no error and `start + d·(queue + offset) + 1ms` |
| `GenerationQueue.NextSlotOwnedByNode` | packages/protocols/generation_queue.go:86-93 | the slot `NextTime` aims at is later than the current one, non-negative, owned by the node (`mod numberNodes == p`), and no slot in between is owned by it |
| `GenerationQueue.NextTimeIsLater` | packages/protocols/generation_queue.go:93 | for a valid position and positive duration, `NextTime` succeeds and is strictly later than `t` |
| `GenerationQueue.NextTimeInSlot` | packages/protocols/generation_queue.go:93 | with `duration >= 1ms`, `NextTime` is exactly `start + k·d + 1ms` for the aimed-at slot `k >= 0`, hence inside slot `k` |
| `GenerationQueue.NextTimeBelongsToNode` | packages/protocols/generation_queue.go:82-93 | with `duration >= 1ms`, the instant `NextTime` returns has the aimed-at queue number and node position `p`, with no error |
| `GenerationQueue.TimeToGenerate` | packages/protocols/generation_queue.go:109-116 | `(false, WrongNodePositionError)` when `nodePosition >= numberNodes`; before `start`, `TimeError` beside the comparison `-1 == nodePosition`; otherwise no error and true exactly when Go's `Queue % numberNodes` equals the position |
| `GenerationQueue.ExactlyOneTurn` | packages/protocols/generation_queue.go:109-116 | from `start` on (duration above 1ns), the owner `NodePosition(at)` is a valid position whose turn it is, and every other valid position gets `(false, nil)` |
| `GenerationQueue.NextTimeAfterOwnTurn` | packages/protocols/generation_queue.go:86-93 | when it is the node's turn now, `NextTime` is a full round later: `start + d·(queue + numberNodes) + 1ms` |
| `GenerationQueue.NextTimeIsTurn` | packages/protocols/generation_queue.go:93 | with `duration >= 1ms`, `TimeToGenerate(NextTime(t, p), p)` is `(true, nil)` |
| `GenerationQueue.RangesByTime` | packages/protocols/generation_queue.go:96-107 | on error both ends are `Unix(0,0)`, beside Queue's error; otherwise `end = start + d·(NodePosition(t) + 1)` and `end - start' = d - 1ms` |
| `GenerationQueue.RangesByTimeLagsBehind` | packages/protocols/generation_queue.go:98-105 | from the second round on (`Queue(t) >= numberNodes`), the window ends before `t` |
| `GenerationQueue.RangesByTimeMissesSlot` | packages/protocols/generation_queue.go:97-107 | start 0, 10 s slots, 3 nodes, `t = 45s`: `t` is in slot 4 but the window is `[10s + 1ms, 20s]`, which does not contain `t` |
| `GenerationQueue.SlotRange` | packages/protocols/generation_queue.go:97-107 | the window built from the queue number: Queue's error with `Unix(0,0)` ends; otherwise width `d - 1ms` and `start' - 1ms < t <= end` |
| `GenerationQueue.SlotRangeOfSlot` | packages/protocols/generation_queue.go:97-105 | for every time of slot `k >= 0`, the window is `[start + k·d + 1ms, start + (k+1)·d]` with no error |
| `GenerationQueue.SlotRangeWithinSlot` | packages/protocols/generation_queue.go:104-105 | every instant of `SlotRange(t)` has the queue number of `t` and the same window (duration at least 1ms) |
| `GenerationQueue.NextTimeOpensSlot` | packages/protocols/generation_queue.go:93-105 | the slot window of the instant `NextTime` returns starts exactly at that instant |
| `GenerationQueue.CheckWindow` | packages/protocols/generation_queue.go:58-73 | true exactly when there is no error, and no error exactly when the window has none and the store reports no block and no error |
| `GenerationQueue.BlockForTimeExists` | packages/protocols/generation_queue.go:56-74 | `(true, nil)` iff the `RangesByTime` window has no error and the store reports no block of the node; the window's error, the store's error, or `DuplicateBlockError` (when blocks are reported) otherwise, each with `false` |
| `GenerationQueue.BlockForSlotExists` | packages/protocols/generation_queue.go:56-74 | the same answers as `BlockForTimeExists`, with the store queried over `SlotRange(t)` |
| `GenerationQueue.NewBlockTimeCounter` | packages/protocols/generation_queue.go:118-129 | `start` is exactly the first block's time in seconds (`Second · firstBlockTime`), hence a whole second; `duration` is exactly `maxGen` ms plus `gap` s, a whole number of milliseconds, and at least 1ms when neither is negative and not both are 0; the node count is copied |
| `GenerationQueue.ThreeNodeExample` | packages/protocols/generation_queue.go:33-116 | start 0, 10 s slots, 3 nodes, `t = 25s`: queue 2, position 2, node 2's turn, not node 0's, and node 0 next at `30s + 1ms` |
| `Format.NatDecimal` | packages/smart/smart.go:157 | at least one decimal digit, no leading zero, and a non-zero first digit for a positive number |
| `Format.Decimal` | packages/smart/smart.go:157 | `%d`: non-empty, a leading `-` exactly for negative values, digits after it, and no leading zero (neither `0500` nor `-05`) |
| `Format.DecimalExample` | packages/smart/smart.go:157 | 500 renders as `500` |
| `Format.ParseDecimalOfDecimal` | packages/smart/smart.go:157 | `ParseDecimal(Decimal(i)) == Some(i)`: the rendering determines the integer |
| `Format.Hex` | packages/smart/smart.go:159-160 | `hex.EncodeToString`: two characters per byte, all lowercase hex digits, no prefix |
| `Format.HexExample` | packages/smart/smart.go:159-160 | bytes `ab cd` render as `abcd` |
| `Format.ParseNatural` | packages/smart/smart.go:157 | the digits of a natural number read back as that number |
| `Format.ParseNegative` | packages/smart/smart.go:157 | a minus sign before the digits of `n` reads back as `-n` |
| `Format.UnhexOfHex` | packages/smart/smart.go:159-160 | `Unhex(Hex(bs)) == Some(bs)`: the rendering determines the bytes |
| `Format.Join` | packages/smart/smart.go:163 | `strings.Join`: `""` for no parts, the part itself for one |
| `Format.JoinLength` | packages/smart/smart.go:163 | the length is the parts' total plus one separator between each two parts |
| `Format.JoinEnds` | packages/smart/smart.go:163 | the joined text starts with the first part and ends with the last |
| `Format.JoinPair` | packages/smart/smart.go:163 | two parts are joined with exactly one separator between them |
| `Smart.PhaseFlagsDistinct` | packages/smart/smart.go:37-41 | `CALL_INIT`, `CALL_FRONT` and `CALL_MAIN` are disjoint bits whose union is 7 |
| `Smart.GetContract` | packages/smart/smart.go:123-131 | a handle iff `Objects[name]` exists with type `OBJ_CONTRACT`, with that name, that object's block, `Called` 0 and a nil `Extend` |
| `Smart.GetContractById` | packages/smart/smart.go:133-141 | `None` iff `id >= len(Children)` or that child is not a contract, never indexing past the end; otherwise the child's block and its `ContractInfo` name, `Called` 0, nil `Extend` |
| `Smart.LookupsAgree` | packages/smart/smart.go:124-141 | for a contract registered under a name and an id, lookup by name and lookup by id return the same handle |
| `Smart.GetFunc` | packages/smart/smart.go:143-148 | a block iff the contract block's `Objects[name]` exists with type `OBJ_FUNC`, and it is that object's block |
| `Smart.Entry` | packages/smart/smart.go:155-160 | every entry starts with the label `"name": ` |
| `Smart.Entries` | packages/smart/smart.go:152-162 | no more entries than declared fields |
| `Smart.RenderedFields` | packages/smart/smart.go:152-161 | only declared fields of type `string`, `int64` or `[]uint8` are kept |
| `Smart.TxJson` | packages/smart/smart.go:150-166 | the loop's output equals `Encode` of the declared fields and the extend map; it is at least two characters, starts with `{`, ends with `}`, and is `{}` exactly when `RenderedFields` is empty, that is exactly when no declared field has type `string`, `int64` or `[]uint8` |
| `Smart.RenderLines` | packages/smart/smart.go:151-162 | the loop of `TxJson` builds exactly `Entries` of the declared fields |
| `Smart.FieldLine` | packages/smart/smart.go:153-160 | the `switch` on the declared type yields the field's `Entry`: quoted string, decimal int64, quoted lowercase hex for `[]uint8` |
| `Smart.EntriesOfPrefix` | packages/smart/smart.go:152-162 | one more loop step appends the next field's entry when its type is rendered, and nothing otherwise |
| `Smart.EncodeShape` | packages/smart/smart.go:163-165 | `Encode` is braced, and is exactly `{}` iff `RenderedFields` is empty, iff no declared field has a rendered type (so an empty field list gives `{}`) |
| `Smart.RenderedFieldsComplete` | packages/smart/smart.go:152-161 | every declared field of type `string`, `int64` or `[]uint8` is kept by the filter |
| `Smart.NilExtendRendersNothing` | packages/smart/smart.go:150-160 | a handle with a nil `Extend` is accepted by `TxJsonReady` only when no declared field renders |
| `Smart.NoneRendered` | packages/smart/smart.go:152-161 | the rendered-field filter is empty exactly when no declared field has type `string`, `int64` or `[]uint8` |
| `Smart.EntriesMatchFields` | packages/smart/smart.go:152-162 | one entry per rendered field, the `k`-th entry rendering the `k`-th rendered field, in declaration order |
| `Smart.EntriesAppend` | packages/smart/smart.go:152-162 | the entries of `a + b` are those of `a` followed by those of `b` |
| `Smart.UnrenderedFieldIgnored` | packages/smart/smart.go:153-161 | a field of any other type adds no entry, needs no value, and raises no error |
| `Smart.EntryRoundTrip` | packages/smart/smart.go:155-160 | after the label, a string entry holds the value verbatim between quotes, an int64 entry the decimal that parses back to it, a `[]uint8` entry the lowercase hex that decodes back to it |
| `Smart.ExampleEntries` | packages/smart/smart.go:152-162 | fields `amount int64 = 500` and `pub []uint8 = ab cd` give the entries `"amount": 500` and `"pub": "abcd"` |
| `Smart.AmountAndKeyExample` | packages/smart/smart.go:150-166 | those fields encode to `{"amount": 500,\r\n"pub": "abcd"}` |
| `TcpServer.Zeros` | packages/tcpserver/type4.go:30 | `n` bytes, all zero |
| `TcpServer.Type4` | packages/tcpserver/type4.go:25-35 | always a nil error; the zero hash when the block read fails or its hash is empty; the stored hash unchanged otherwise; never an empty hash |
| `TcpServer.ZeroHashMeaning` | packages/tcpserver/type4.go:29-33 | the answer is 32 zero bytes exactly when the block is missing, its hash is empty, or its stored hash is itself 32 zero bytes |
| `TcpServer.NonZeroAnswerIsStored` | packages/tcpserver/type4.go:29-33 | any other answer is the hash the store holds for that block |

## Findings

| source | as written | input that shows it | evidently intended | confidence | as-written member | corrected member |
|---|---|---|---|---|---|---|
| packages/protocols/generation_queue.go:98-105 | the duplicate-check window ends at `start + duration·(NodePosition(t) + 1)`, which is always a slot of the first round | start 0, 10 s slots, 3 nodes, `t = 45s`: `t` is in slot 4, but the window is `[10s + 1ms, 20s]`, slot 1 | the window of the slot that holds `t`, built from `Queue(t)` | medium, not executed | `GenerationQueue.RangesByTimeMissesSlot` | `GenerationQueue.SlotRangeWithinSlot` |

`GenerationQueue.RangesByTimeLagsBehind` states the general form: from the
second round on, the window ends before `t`. The check therefore never looks
at the current slot. `GenerationQueue.SlotRange` is the corrected window.
`GenerationQueue.BlockForSlotExists` is the duplicate check over it.
`GenerationQueue.BlockForTimeExists` keeps the code's behaviour.

## Left out

- The virtual-machine wrappers `init`, `Compile`, `CompileBlock`,
  `FlushBlock`, `Extend` and `Run` (packages/smart/smart.go:89-121) are
  thin calls into the script interpreter. The interpreter is not part of
  this model, so they are not modelled. Note that `Run` ignores its `params`
  argument and passes nil.
- The process-wide `smartVM` is a `VM` value that each lookup takes as a
  parameter.
- The `fmt.Println` inside `TxJson` is a side effect and is dropped.
- `TxJson` on a field whose value is missing or mistyped is not modelled.
  Go would print `%!s`-style text or panic at the `.([]byte)` assertion.
  `Smart.TxJsonReady` makes typed values a precondition.
- `TxJson` on a contract whose `Extend` is nil is not modelled as a panic.
  Go panics at the dereference `*(*contract).Extend` on any rendered field.
  The model reads `None` as the empty map, which `Smart.TxJsonReady` rejects
  as soon as a field renders; with no rendered field both give `{}`. The
  dereference `*…Tx` (packages/smart/smart.go:152) would panic on a nil
  field list; the model has no nil field list, only the empty sequence.
- `GetContractById` and `TxJson` read a contract block's `Info` through the
  type assertion `.(*script.ContractInfo)`. This is a precondition
  (`Smart.ContractHasInfo`, `Smart.TxJsonReady`) instead of a modelled
  panic. The `optional` tag of tx fields is not modelled: the encoder ignores
  it.
- Configuration and storage reads are parameters or oracles:
  - The `syspar` reads in `NewBlockTimeCounter` are its parameters.
  - `GetNodeBlocksAtTime` is the `BlockOracle` function.
  - `GetBlock` is the `BlockHashes` map, where a missing id stands for any
    failed read.
- The `QueueChecker` interface declares signatures that the struct does not
  implement. It has no behaviour to model.
- Integers are unbounded. The model does not capture int64 overflow of
  durations, int32 ids or int64 values, nor Go's saturation in `Time.Sub`
  and `Time.Add`. Time is a single nanosecond count, with no monotonic
  reading and no location.
- Strings are sequences of characters, not of bytes. `%s` inserts them
  verbatim, as the source does, with no escaping.
