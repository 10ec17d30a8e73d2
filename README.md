# kiteAi-v2 runner: a Dafny model of its bookkeeping

`index.js` replays a fixed list of messages against an agent endpoint for each
configured wallet. After each exchange it reports usage and keeps a live
progress table per wallet. When the cycle is over it waits 24 hours behind a
one-second countdown and then starts again. This project models the part of
the script that does not touch the network or the console:

- **Configuration** (`config.dfy`, `text.dfy`). `WALLET_ADDRESSES` is split on
  commas, with JavaScript `split` semantics. `AGENT_ID` is lower-cased, and an
  unset or empty variable counts as absent. A start-up guard either lets the
  script go on or ends it with exit code 1. The agent URL, the `Host` header
  and the report's `deployment_<id>` are all built from the agent id.
- **Progress table** (`progress.dfy` for the value-level specification,
  `tracker.dfy` for the object the script mutates in place). The table is a
  dictionary from wallet to `{completed, total, status}`. It is created with
  one entry per wallet. Each exchange updates it: a success adds one and shows
  a preview of at most 20 characters; a failure shows the error. Each wallet's loop ends
  by stamping "Completed". The table is drawn as four lines per wallet.
- **Cycle** (`runner.dfy`, `frames.dfy`). The per-wallet tasks run one after
  another over one shared table, and every text drawn along the way is
  recorded. `frames.dfy`
  defines that sequence of texts (`CycleFrames`) and, for each index `j`, the
  table text `j` shows (`FrameTable`). That table is the fresh one, a table in
  the middle of a task, or the table between two tasks. `CycleFramesShow`
  proves that text `j` is the rendering of `FrameTable(j)`, and
  `Runner.RunCycle` promises it for every text it returns. `frames.dfy` also
  proves two facts about every table in the middle of a task and every table
  between two tasks. With distinct wallets, each keeps every count within its
  total. With newline-free inputs, each draws as four lines per wallet.
- **Concurrent tasks** (`interleave.dfy`). In the script the tasks run
  concurrently, so their steps reach the table in any order. A schedule lists
  which task takes each step; `Interleaving.Interleave` is the table a
  schedule leaves. With distinct wallets each entry is exactly what its own
  task alone would have made of it (`InterleaveEntry`). Hence every table the
  concurrent tasks can draw keeps each count within its total
  (`InterleaveBounded`), and a finished schedule leaves the sequential
  cycle's table (`InterleaveComplete`).
- **Time** (`timing.dfy`). `formatTime` is modelled with JavaScript's
  truncating `%` written out. The 24-hour countdown is a loop.

An HTTP exchange is abstracted to `Outcome`: `Success`, or `Failure(message)`
carrying the message of the first thing that went wrong. The per-wallet tasks,
concurrent in the script, run one after another in `Runner.RunCycle`; the
`Interleaving` module covers the tables their interleaved steps produce.

Two behaviours of the code that a reader of the table might not expect. The
model follows the code in both:

- One would expect `completed` never to exceed `total`. The code keeps that
  only when the wallet addresses are distinct. A repeated address gets one
  table entry (`index.js:31`) but one task per occurrence (`index.js:138`).
  `Progress.CycleDistinct` (for the table a cycle leaves) and
  `Frames.CycleFramesBounded` (for the tables between and in the middle of
  tasks, which by `Frames.CycleFramesShow` are all the tables the sequential
  run draws) and `Interleaving.InterleaveBounded` (for every table the
  concurrent tasks can draw, in any order of their steps) carry distinctness
  as their precondition.
  `Progress.DuplicateWalletDoublesCount` shows the count reaching twice the
  total.
- One might expect a wallet whose last exchange failed to end with a status
  that shows the error. The code always stamps "Completed" once the loop is
  over (`index.js:143`), so that is the final status whatever the outcomes
  (`Progress.ScenarioSecondMessageFails`).

## Model

| member | source | states |
|---|---|---|
| Text.Split | index.js:8 | `split(',')` always yields at least one piece, and no piece contains the separator |
| Text.SplitCount | index.js:8 | a string with n commas splits into n + 1 wallet entries |
| Text.JoinSplit | index.js:8 | joining the pieces with the separator restores the original variable |
| Text.SplitJoin | index.js:8 | separator-free pieces survive a join followed by a split (the inverse direction) |
| Config.WalletList | index.js:8 | the wallet list is empty exactly when the variable is unset or empty; otherwise it has one more entry than the variable has commas and joins back to it |
| Text.ToLower | index.js:9 | lower-casing keeps the length, leaves no ASCII capital, maps each capital to its lower-case letter and keeps every other character |
| Text.ToLowerIdempotent | index.js:9 | lower-casing an already lower-cased id changes nothing |
| Config.AgentId | index.js:9 | the id is absent exactly when the variable is unset or empty; otherwise it is the lower-cased value and is non-empty |
| Config.StartupProceeds | index.js:12 | the start-up guard: the script goes on exactly when the wallet list is non-empty and an agent id is present; `Config.Load` states the outcome in terms of the environment |
| Config.AgentUrl | index.js:19 | the agent URL: `https://deployment-` + id + `.stag-vxzy.zettablock.com/main`; `Config.AgentUrlRoundTrip` and `Config.DerivedNamesInjective` state how it determines the id |
| Config.AgentHost | index.js:65 | the `Host` header value `deployment-` + id + `.stag-vxzy.zettablock.com`; `Config.AgentUrlRoundTrip` ties it to the URL |
| Config.ReportAgentId | index.js:95 | the report's `agent_id`, `deployment_` + id; `Config.DerivedNamesInjective` shows distinct ids give distinct report ids |
| Config.Load | index.js:8-19 | start-up proceeds exactly when both variables are set and non-empty, and otherwise exits with code 1; on success the wallets, lower-cased id, agent URL (from which the id can be read back) and `deployment_<id>` report id are those derived from the environment |
| Config.AgentIdOfUrl | index.js:19 | whatever id it reads from a URL rebuilds exactly that URL |
| Config.AgentUrlRoundTrip | index.js:19 | the id is read back from the agent URL built from it, and that URL is `https://` + the `Host` header value + `/main` |
| Config.DerivedNamesInjective | index.js:95 | different agent ids give different agent URLs and different report ids |
| Progress.Dedup | index.js:30-31 | the key order has no repetition and holds exactly the configured wallets |
| Text.FirstIndex | index.js:30-31 | the position at which a wallet first occurs in the configured list: that entry is the wallet and none before it is |
| Text.FirstIndexUnique | index.js:30-31 | a position holding the wallet with no earlier occurrence is its first occurrence |
| Text.FirstIndexAppend | index.js:30-31 | appending a wallet moves no earlier first occurrence, and a wallet not yet in the list first occurs at the new end |
| Progress.DedupOrder | index.js:30-31 | one wallet comes before another in the key order exactly as its first occurrence in the configured list comes before the other's |
| Progress.DedupDistinct | index.js:30-31 | with distinct wallets the key order is the configuration order |
| Progress.Initial | index.js:28-38 | the new table is well formed and has exactly one entry per configured wallet, each `0` of `total` with status "Processing..."; duplicates share one key |
| Progress.InitialOrder | index.js:28-38 | with no wallet configured twice, the new table lists the wallets in configuration order |
| Tracker.ProgressTracker.constructor | index.js:28-38 | the `forEach` loop leaves the fields holding the table `Initial` describes |
| Text.NatToString | index.js:45 | the decimal text of a count is non-empty, all digits, and starts with `0` only for zero |
| Text.ParseNatToString | index.js:45 | reading the printed count back gives the count |
| Progress.Preview | index.js:113 | the preview is a prefix of the message of at most 20 characters, the whole message when it is shorter, and exactly 20 characters otherwise |
| Progress.ProcessedStatus | index.js:113 | the status after a success, "Processed: " + the preview + "..."; `Progress.StatusNewlines` states when it holds a newline |
| Progress.ErrorStatus | index.js:116 | the status after a failure, "Error: " + the error's message; `Progress.StatusNewlines` states when it holds a newline |
| Progress.StatusNewlines | index.js:113-116 | a success status holds no newline when the message holds none, and a failure status holds a newline exactly when the error's message does |
| Progress.AfterSuccess | index.js:112-113 | a success adds exactly one to that wallet's count, keeps its total, sets its status to "Processed: " + preview + "...", and changes no other entry and no key |
| Progress.AfterFailure | index.js:116 | a failure keeps the count and total, sets the status to "Error: " + message, and changes no other entry and no key |
| Progress.AfterExchange | index.js:111-118 | after an exchange the wallet's count has grown by one exactly on success, its total is unchanged, its status is the `Processed: ` preview on success and `Error: ` with the failure's message on failure, the keys and their order are unchanged, and no other entry changed |
| Tracker.ProgressTracker.ProcessMessage | index.js:111-118 | the in-place update equals the table function for the outcome, and the text drawn afterwards is the rendered new table |
| Progress.AfterCompleted | index.js:143 | finishing a wallet changes only its status, to "Completed" |
| Tracker.ProgressTracker.MarkCompleted | index.js:143-144 | the in-place update equals `AfterCompleted`, and the text drawn afterwards is the rendered new table |
| Progress.Successes | index.js:139-141 | the number of successful exchanges never exceeds the number of exchanges |
| Progress.SuccessesAll | index.js:139-141 | the success count equals the number of exchanges exactly when every exchange succeeded |
| Progress.Exchanges | index.js:139-141 | the table after a wallet's message loop; the keys and their order are unchanged (the entry itself is stated by `Progress.ExchangesEffect`) |
| Progress.ExchangesNext | index.js:139-141 | one more pass of the message loop applies exactly one exchange, for that message and its outcome, to the table the earlier passes left |
| Progress.ExchangesEffect | index.js:139-141 | after a wallet's exchanges its count has grown by its successes, its total is unchanged, its status is that of the last exchange, and every other entry is unchanged |
| Progress.WalletRun | index.js:139-144 | the table after a wallet's whole task; the keys and their order are unchanged (the entry itself is stated by `Progress.WalletRunEffect`) |
| Progress.WalletRunEffect | index.js:139-144 | after a wallet's task its entry is `{completed + successes, total, "Completed"}` and no other entry changed |
| Tracker.ProgressTracker.RunWallet | index.js:139-144 | the message loop over the fields equals the task function, and its texts are exactly `Frames.WalletFrames`: the rendered table after each exchange (`Frames.RedrawsAt`), then the rendered table after "Completed" |
| Progress.WalletRuns | index.js:137-146 | the table after every wallet's task, run one after another; the keys and their order are unchanged (the entries are stated by `Progress.WalletRunsEffect`) |
| Progress.Cycle | index.js:130-146 | the table a whole cycle leaves behind is well formed (its entries are stated by `Progress.CycleDistinct` and `Progress.WalletRunsEffect`) |
| Progress.WalletRunsEffect | index.js:137-146 | each wallet's one entry accumulates the successes of every task run for that address, ends "Completed" if it had a task, and is untouched otherwise |
| Progress.CycleDistinct | index.js:137-146 | with distinct addresses each wallet ends at its own successes of total with "Completed", so completed <= total, with equality exactly when all its exchanges succeeded |
| Progress.CycleKeys | index.js:28-38 | after a cycle the keys are exactly the configured wallets, in configuration order when they are distinct |
| Progress.DuplicateWalletDoublesCount | index.js:31 | a wallet listed twice has one entry whose count reaches twice its total when every exchange succeeds |
| Progress.StepsCommute | index.js:137-146 | two adjacent steps of two different wallets' tasks commute (`Interleaving.InterleaveComplete` proves the interleaving-independence of the whole cycle) |
| Progress.ScenarioAllSucceed | index.js:130-146 | two wallets, two messages, all exchanges succeeding: both entries end at 2/2 "Completed" in configuration order |
| Progress.ScenarioSecondMessageFails | index.js:130-146 | when the first wallet's second exchange fails it ends at 1/2 and the other at 2/2, both stamped "Completed" |
| Progress.EntryLines | index.js:44-47 | the four lines drawn for one wallet: "Wallet: w", "  Progress: c/t", "  Status: s" and an empty line; `Progress.BlockLines` ties them to the block of text |
| Progress.Block | index.js:44-47 | one wallet's block of text, the four `+=` pieces; `Progress.BlockLines` states its lines |
| Progress.BlockLines | index.js:44-47 | one wallet's block of text is its four lines, each followed by a newline |
| Progress.RenderRows | index.js:43-48 | the `output` string accumulated over the wallets in key order, block after block |
| Progress.Render | index.js:41-48 | the text drawn for a table whose listed wallets all have entries; `Progress.RenderRowsLines` and `Progress.RenderSplitsIntoLines` state its lines |
| Progress.Lines | index.js:41-48 | the table has exactly four lines per wallet |
| Progress.RenderRowsLines | index.js:41-48 | for every table, the accumulated output is the four lines of each wallet, each followed by a newline, concatenated in key order |
| Progress.RenderSplitsIntoLines | index.js:41-48 | for a well-formed table in which no wallet and no status holds a newline (`SingleLineTexts`), splitting the drawn text at newlines gives "Wallet: w", "  Progress: c/t", "  Status: s" and an empty line for each wallet in key order, then the empty remainder; the caller must establish `SingleLineTexts`, and `Frames.CycleFramesSplitIntoLines` does so for every table between or in the middle of a cycle's tasks |
| Tracker.ProgressTracker.RenderProgress | index.js:41-48 | the accumulating loop builds exactly the rendering of the current table |
| Frames.Before | index.js:137-146 | the table once the first i tasks have run; the keys and their order are those of the starting table |
| Frames.During | index.js:139-141 | the table in the middle of task i, after k of its exchanges; the keys and their order are those of the starting table |
| Frames.BeforeNext | index.js:137-146 | the table after i + 1 tasks is task i run on the table after i tasks |
| Frames.BeforeNextCompleted | index.js:139-144 | the table after task i is the table after its last exchange, with that wallet stamped "Completed" |
| Frames.BeforeAll | index.js:130-146 | on the fresh table, the table after every task is the one the cycle leaves |
| Frames.BoundedStep | index.js:137-144 | with distinct wallets, if three facts hold before task `i` (every count within its total, every total at the number of messages, the wallets still to run at 0), they still hold after it |
| Frames.BeforeBounded | index.js:137-146 | with distinct wallets and a fresh start, the table between any two tasks keeps those three facts |
| Frames.DuringBounded | index.js:139-141 | with distinct wallets and a fresh start, no table in the middle of a task counts more than its total |
| Frames.CycleFramesBounded | index.js:134-144 | with distinct wallets, every table between two tasks and every table in the middle of a task keeps completed <= total for every wallet; by `Frames.CycleFramesShow` these include every table the sequential run draws |
| Frames.CompletedSingleLine | index.js:143 | stamping "Completed" brings no newline into the table |
| Frames.ExchangeSingleLine | index.js:111-118 | an exchange whose message and failure text hold no newline brings none into the table |
| Frames.ExchangesSingleLine | index.js:139-141 | a message loop over newline-free messages and failure texts brings no newline into the table |
| Frames.SingleLineStep | index.js:137-144 | one more task over newline-free inputs brings no newline into the table |
| Frames.BeforeSingleLine | index.js:137-146 | over newline-free inputs, no table between two tasks holds a newline in a wallet or status |
| Frames.DuringSingleLine | index.js:139-141 | over newline-free inputs, no table in the middle of a task holds a newline in a wallet or status |
| Frames.CycleFramesSplitIntoLines | index.js:41-48 | with newline-free wallets, messages and failure texts, every table between two tasks and every table in the middle of a task is well formed and splits at newlines into exactly four lines per wallet, in key order |
| Frames.Redraws | index.js:114-117 | the texts drawn after each of the first n exchanges of one task, n of them; `Frames.RedrawsAt` states each one |
| Frames.RedrawsAt | index.js:114-117 | redraw i of a task shows the table after its first i + 1 exchanges |
| Frames.WalletFrames | index.js:139-144 | every text one task draws: one per message, then one more, which shows the table the task leaves |
| Frames.FrameCount | index.js:134-144 | a cycle draws the table at least once |
| Frames.FrameCountValue | index.js:134-144 | a cycle draws the table 1 + wallets × (messages + 1) times |
| Frames.FrameCountMonotone | index.js:134-144 | more wallets, more redraws |
| Frames.FrameIndex | index.js:134-144 | every text after the first is text k <= messages of task i < wallets, at position FrameCount(i) + k |
| Frames.WalletFramesAt | index.js:139-144 | text k < messages of a task shows the table after its first k + 1 exchanges, and text `messages` the table after "Completed" |
| Frames.TaskFrames | index.js:137-146 | the texts the first i tasks draw, task after task; there are FrameCount(i) - 1 of them |
| Frames.TaskFramesNext | index.js:137-146 | one more task appends exactly the texts that task draws on the table the earlier tasks left |
| Frames.TaskFramesPrefix | index.js:137-146 | one more task keeps every text drawn before it |
| Frames.TaskFramesTop | index.js:137-146 | text k of the last of the first n tasks follows the texts of the tasks before it |
| Frames.TaskFramesAt | index.js:137-146 | among the texts of the first n tasks, text k of task i sits at FrameCount(i) + k - 1 (`Frames.TaskFramesAtIndex` states it for an index given outright) |
| Frames.TaskFramesAtIndex | index.js:137-146 | the same, for an index y with y + 1 = FrameCount(i) + k |
| Frames.TaskFramesLast | index.js:137-146 | the last text of the first i tasks shows the table they leave |
| Frames.CycleFrames | index.js:134-146 | every text a cycle draws: the fresh table, then each task's texts in turn; FrameCount of them |
| Frames.CycleFramesEnds | index.js:134-146 | the first text of a cycle shows the fresh table and the last the table the cycle leaves |
| Frames.CycleFramesIndex | index.js:134-146 | after the first text of a cycle come the texts of its tasks |
| Frames.CycleFramesTask | index.js:137-146 | text FrameCount(i) + k of a cycle is text k of task i's own texts |
| Frames.CycleFramesDuring | index.js:139-141 | text FrameCount(i) + k, for k < messages, shows the table after k + 1 exchanges of task i |
| Frames.CycleFramesTaskEnd | index.js:139-144 | text FrameCount(i) + messages of a cycle is the last text of task i |
| Frames.TaskEndShows | index.js:139-144 | the last text of task i shows the table after i + 1 tasks |
| Frames.CycleFramesAfter | index.js:143-144 | text FrameCount(i) + messages, the one after "Completed", shows the table after i + 1 tasks |
| Frames.FrameTable | index.js:134-144 | the table text j of a cycle shows: the fresh table, a table in the middle of a task, or the table between two tasks; every wallet it lists has an entry |
| Frames.CycleFramesShow | index.js:134-146 | every text a cycle draws, text j, is the rendering of `FrameTable(j)` |
| Interleaving.Taken | index.js:137-141 | the number of steps a task has taken in a schedule, at most the schedule's length |
| Interleaving.TaskStep | index.js:139-143 | step c of a task is exchange c with its message and outcome while messages remain, and the "Completed" stamp exactly at c = messages |
| Interleaving.ScheduleInit | index.js:137-146 | every prefix of a schedule is a schedule, and its last step is that of a task still running |
| Interleaving.Interleave | index.js:137-146 | the table a schedule of the concurrent tasks' steps leaves; keys and their order are unchanged |
| Interleaving.Solo | index.js:139-143 | the table one task makes alone after c steps; keys and their order are unchanged |
| Interleaving.StepLocal | index.js:111-118 | a step changes its wallet's entry in a way that depends on that entry alone |
| Interleaving.SoloNext | index.js:139-143 | step c of a task takes its solo table after c steps to the one after c + 1 |
| Interleaving.InterleaveEntry | index.js:137-146 | with distinct wallets, in any schedule each task has taken at most messages + 1 steps, and its wallet's entry is the one its task alone makes after those steps |
| Interleaving.InterleaveBounded | index.js:137-146 | with distinct wallets, every table the concurrent tasks can draw, in any order of their steps, keeps completed <= total for every wallet |
| Interleaving.CompleteEntry | index.js:137-146 | with distinct wallets, the entry of a wallet whose task has taken all its steps is the one the sequential cycle leaves |
| Interleaving.InterleaveComplete | index.js:137-146 | with distinct wallets, once every task has taken all its steps, in any order, the table equals the sequential cycle's |
| Interleaving.TakingTurnsSchedule | index.js:137-146 | two tasks of two messages taking turns form a schedule, each task taking its three steps |
| Interleaving.TakenAlternating | index.js:137-146 | in the alternating schedule each of the two tasks has taken half of the first k steps |
| Interleaving.FirstExchanges | index.js:112-113 | in any schedule, a task that has taken one step, a success, shows 1/total and the first message's preview |
| Interleaving.ScenarioTakingTurns | index.js:137-146 | two wallets taking turns: after each task's first exchange both show 1/2 with the first message's preview, a table the sequential run never draws |
| Interleaving.ScenarioTakingTurnsEnd | index.js:137-146 | the same two tasks taking turns to the end leave the sequential cycle's table |
| Runner.RunCycle | index.js:130-146 | a run of all wallets' tasks leaves the cycle's table; the texts drawn are exactly `Frames.CycleFrames`, text j shows `Frames.FrameTable(j)` for every j, the first text shows the initial table and the last the final one |
| Runner.Start | index.js:12-16 | a run stops with exit code 1 exactly when a variable is unset or empty, and otherwise leaves the cycle's table for the configured wallets |
| Timing.JsQuot | index.js:124-125 | the quotient rounded toward zero that JavaScript's `%` pairs with; `Timing.JsRem` states the division equation |
| Timing.JsRem | index.js:124-125 | the truncating remainder satisfies a == b · JsQuot(a, b) + r and lies in [0, b) for a non-negative dividend and in (-b, 0] for a negative one |
| Timing.TimeParts | index.js:122-127 | for ms >= 0 the minutes and seconds are below 60 and h·3600000 + m·60000 + s·1000 <= ms < that + 1000 |
| Timing.TimePartsOfClock | index.js:122-127 | a time composed of h hours, m < 60 minutes, s < 60 seconds and < 1000 ms is formatted back into exactly h, m, s |
| Timing.FormatTime | index.js:122-127 | the display `"<h>h <m>m <s>s"` of the parts `Timing.TimeParts` gives; `Timing.FormatTimeSeconds` states that it identifies the whole second |
| Timing.ClockText | index.js:126 | the template string of `formatTime` for three numbers; `Timing.ClockTextInjective` shows it determines them |
| Timing.ClockTextInjective | index.js:126 | the `"<h>h <m>m <s>s"` text determines its three numbers |
| Timing.TimePartsBySecond | index.js:122-125 | two non-negative times have the same parts exactly when they fall in the same whole second |
| Timing.FormatTimeSeconds | index.js:122-127 | two non-negative times are displayed the same exactly when they fall in the same whole second |
| Text.IntToString | index.js:126 | the template literal's text for a possibly negative number: the decimal digits when it is non-negative, otherwise "-" followed by the digits of its magnitude |
| Timing.CountdownLine | index.js:160 | the countdown line, "Time until restart: " followed by the formatted time; `Timing.FirstRestartLine`, `Timing.LastRestartLine` and `Timing.RestartLinesDistinct` state what it shows |
| Timing.CountdownLinesDiffer | index.js:160 | countdown lines for different whole seconds differ |
| Timing.CountdownTimes | index.js:158-159 | one remaining-time value per tick |
| Timing.CountdownTimesAt | index.js:158-159 | after tick i the remaining time is start - 1000·(i + 1) |
| Timing.Countdown | index.js:155-163 | the countdown ticks at least once, takes 1000 ms off per tick, stops at the first value <= 0 (never below -1000 when it started positive), and redraws from each value in turn |
| Timing.RestartCountdown | index.js:155-163 | starting from 24 hours it stops after exactly 86 400 ticks at 0, having shown 86 399 000 down to 0 |
| Timing.FirstRestartLine | index.js:155-160 | the first line of the restart countdown shows "23h 59m 59s" |
| Timing.LastRestartLine | index.js:155-160 | the last line of the restart countdown shows "0h 0m 0s" |
| Timing.RestartLinesDistinct | index.js:160 | no two ticks of the restart countdown show the same line |

## Left out

- The agent request, the streamed response and the usage-report request (`index.js:60-109`), with their headers and payloads, are network I/O. An exchange is the abstract `Outcome`, and the `Host` header and report id are the only parts derived.
- `Date.now`, `ttft` and `totalTime` (`index.js:54-91`) depend on the wall clock and on when chunks arrive. They are not modelled.
- `Promise.all` concurrency (`index.js:137-146`): `Runner.RunCycle` runs the tasks in sequence, so the texts it returns, their order and `Frames.FrameTable` are those of the sequential run. The order in which the script's redraws actually happen, and the texts it draws while several wallets are mid-task, are not modelled as texts; the tables behind them are `Interleaving.Interleave` of a schedule, for which `Interleaving.InterleaveBounded` and `Interleaving.InterleaveComplete` hold. Which schedule occurs depends on network timing and is left open.
- `logUpdate` (`index.js:49`, `149`, `160`, `164`) and `chalk` (`index.js:13-14`, `44`, `116`, `143`, `152`, `160`, `165`, `176`) are console calls. Drawn texts are returned as strings without colour codes, and the status texts carry no ANSI escapes.
- Reading and parsing `messages.json` (`index.js:25`) is file I/O. The messages are a given sequence of strings.
- `setInterval`, the recursive restart `runScript()`, the SIGINT handler and `process.exit` (`index.js:158-177`) are runtime plumbing. The countdown is a loop, and the start-up decision returns the exit code.
- Text.ToLower: only the ASCII letters A-Z are lower-cased. JavaScript's `toLowerCase` also maps non-ASCII letters.
- Progress.Dedup: the key order is first-insertion order. JavaScript would list integer-like keys (such as `"42"`) first in numeric order. A wallet named `__proto__` would set the object's prototype at `index.js:31` instead of adding a key, so `Object.entries` would skip it. Wallet addresses are expected to be hexadecimal `0x…` strings, which are neither; nothing at `index.js:8` enforces this.
- Timing.Countdown: returns the remaining-time values each redraw is made from, not the redrawn strings themselves. The lines are `Timing.CountdownLine` of those values, and `Timing.FirstRestartLine`, `Timing.LastRestartLine` and `Timing.RestartLinesDistinct` state what they show.
- Progress.Preview: counts 20 Unicode scalar values, where `message.substring(0, 20)` at `index.js:113` counts 20 UTF-16 code units. A Dafny `char` is a scalar value, so a character outside the Basic Multilingual Plane is one `char` but two code units. For a message of 20 emoji the script shows 10 of them before "...", while the model shows all 20. A cut inside a surrogate pair cannot be represented at all.
- Numbers are unbounded integers; JavaScript's double-precision numbers are exact for every count and time that occurs here. Strings are sequences of Unicode scalar values (`seq<char>`), not of the UTF-16 code units JavaScript uses.
- The usage-report URL constant (`index.js:22`) belongs to the report request, which is not modelled.
