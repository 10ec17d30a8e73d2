/**
 * The progress table as a value: one entry per wallet with the count of
 * completed exchanges, the total and a status text, in the order the wallets
 * were first added. Each function here is one update the script makes to the
 * table, or the text it draws from it; the lemmas give the state a whole
 * cycle leaves behind.
 */
module Progress {
  import opened Text

  /** The abstract result of one exchange: both HTTP calls succeeded, or the first failure's message. */
  datatype Outcome = Success | Failure(message: string)

  datatype Entry = Entry(completed: nat, total: nat, status: string)

  /** `order` is the key order of the script's object; `entries` its contents. */
  datatype Table = Table(order: seq<string>, entries: map<string, Entry>)

  const PROCESSING := "Processing..."
  const COMPLETED := "Completed"
  const WALLET_LABEL := "Wallet: "
  const PROGRESS_LABEL := "  Progress: "
  const STATUS_LABEL := "  Status: "
  const PROCESSED_LABEL := "Processed: "
  const ERROR_LABEL := "Error: "
  const ELLIPSIS := "..."
  const PREVIEW_LENGTH := 20

  predicate Distinct(ws: seq<string>) {
    forall i, j :: 0 <= i < j < |ws| ==> ws[i] != ws[j]
  }

  /** Every wallet `order` lists has an entry: all that drawing the table needs. */
  predicate Listed(t: Table) {
    forall i :: 0 <= i < |t.order| ==> t.order[i] in t.entries
  }

  /** Every key appears once in `order`, and `order` lists exactly the keys. */
  predicate WellFormed(t: Table) {
    && Distinct(t.order)
    && (forall w :: w in t.entries ==> w in t.order)
    && Listed(t)
  }

  /**
   * The wallets in first-occurrence order: assigning an existing key keeps its
   * place, so a wallet comes before another exactly when it first occurs
   * before it.
   */
  function Dedup(ws: seq<string>): (r: seq<string>)
    ensures Distinct(r)
    ensures forall w :: w in r <==> w in ws
  {
    if ws == [] then []
    else
      var init := ws[..|ws| - 1];
      var d := Dedup(init);
      var w := ws[|ws| - 1];
      assert ws == init + [w];
      assert forall x :: x in ws <==> x in init || x == w;
      if w in d then d else d + [w]
  }

  /** One wallet comes before another in `Dedup(ws)` exactly when it first occurs earlier in `ws`. */
  lemma {:induction false} DedupOrder(ws: seq<string>)
    ensures forall i, j :: 0 <= i < j < |Dedup(ws)| ==> FirstIndex(ws, Dedup(ws)[i]) < FirstIndex(ws, Dedup(ws)[j])
  {
    if ws != [] {
      var init, w := ws[..|ws| - 1], ws[|ws| - 1];
      assert ws == init + [w];
      DedupOrder(init);
      FirstIndexAppend(init, w);
      var d := Dedup(init);
      forall i, j | 0 <= i < j < |Dedup(ws)|
        ensures FirstIndex(ws, Dedup(ws)[i]) < FirstIndex(ws, Dedup(ws)[j])
      {
        assert Dedup(ws)[i] == d[i];
        if j < |d| {
          assert Dedup(ws)[j] == d[j];
        } else {
          assert Dedup(ws)[j] == w && w !in init;
          assert d[i] in init;
        }
      }
    }
  }

  /** A list without repetitions is its own first-occurrence order. */
  lemma {:induction false} DedupDistinct(ws: seq<string>)
    ensures Distinct(ws) ==> Dedup(ws) == ws
  {
    if ws != [] && Distinct(ws) {
      var init, w := ws[..|ws| - 1], ws[|ws| - 1];
      assert Distinct(init) by {
        forall i, j | 0 <= i < j < |init| ensures init[i] != init[j] {
          assert init[i] == ws[i] && init[j] == ws[j];
        }
      }
      DedupDistinct(init);
      assert w !in init by {
        forall i | 0 <= i < |init| ensures init[i] != w {
          assert init[i] == ws[i];
        }
      }
      assert ws == init + [w];
    }
  }

  /** `createProgressTracker`: every wallet at 0 of `total`, "Processing...", and no other key. */
  function Initial(ws: seq<string>, total: nat): (t: Table)
    ensures WellFormed(t)
    ensures forall w :: w in t.entries <==> w in ws
    ensures forall w :: w in t.entries ==> t.entries[w] == Entry(0, total, PROCESSING)
    ensures |t.order| <= |ws|
  {
    DedupLength(ws);
    Table(Dedup(ws), map w | w in ws :: Entry(0, total, PROCESSING))
  }

  /** With no wallet configured twice, the rows keep the configured order. */
  lemma InitialOrder(ws: seq<string>, total: nat)
    requires Distinct(ws)
    ensures Initial(ws, total).order == ws
  {
    DedupDistinct(ws);
  }

  lemma {:induction false} DedupLength(ws: seq<string>)
    ensures |Dedup(ws)| <= |ws|
  {
    if ws != [] { DedupLength(ws[..|ws| - 1]); }
  }

  /** The first `PREVIEW_LENGTH` characters of a message, or all of a shorter one. */
  function Preview(message: string): (p: string)
    ensures |p| <= PREVIEW_LENGTH
    ensures p <= message
    ensures |message| <= PREVIEW_LENGTH ==> p == message
    ensures |message| > PREVIEW_LENGTH ==> |p| == PREVIEW_LENGTH
  {
    if |message| <= PREVIEW_LENGTH then message else message[..PREVIEW_LENGTH]
  }

  /** The status after a success: the preview between "Processed: " and "...". */
  function ProcessedStatus(message: string): string {
    PROCESSED_LABEL + Preview(message) + ELLIPSIS
  }

  /** The status after a failure: "Error: " and the failure's message. */
  function ErrorStatus(message: string): string {
    ERROR_LABEL + message
  }

  /**
   * A success status holds a newline only when the message does, and a
   * failure status exactly when the failure's message does.
   */
  lemma StatusNewlines(message: string)
    ensures '\n' !in message ==> '\n' !in ProcessedStatus(message)
    ensures '\n' in ErrorStatus(message) <==> '\n' in message
  {
    var p := Preview(message);
    forall c | c in p ensures c in message {
      var k :| 0 <= k < |p| && p[k] == c;
      assert message[k] == c;
    }
    assert ProcessedStatus(message) == PROCESSED_LABEL + p + ELLIPSIS;
    var r := ErrorStatus(message);
    assert forall k :: 0 <= k < |message| ==> r[7 + k] == message[k];
  }

  /** A successful exchange: one more completed, the status shows the message preview. */
  function AfterSuccess(t: Table, w: string, message: string): (r: Table)
    requires w in t.entries
    ensures r.order == t.order && r.entries.Keys == t.entries.Keys
    ensures r.entries[w].completed == t.entries[w].completed + 1
    ensures r.entries[w].total == t.entries[w].total
    ensures r.entries[w].status == ProcessedStatus(message)
    ensures forall k :: k in t.entries && k != w ==> r.entries[k] == t.entries[k]
  {
    var e := t.entries[w];
    t.(entries := t.entries[w := e.(completed := e.completed + 1, status := ProcessedStatus(message))])
  }

  /** A failed exchange: the count stays, the status shows the error. */
  function AfterFailure(t: Table, w: string, message: string): (r: Table)
    requires w in t.entries
    ensures r.order == t.order && r.entries.Keys == t.entries.Keys
    ensures r.entries[w].completed == t.entries[w].completed
    ensures r.entries[w].total == t.entries[w].total
    ensures r.entries[w].status == ErrorStatus(message)
    ensures forall k :: k in t.entries && k != w ==> r.entries[k] == t.entries[k]
  {
    var e := t.entries[w];
    t.(entries := t.entries[w := e.(status := ErrorStatus(message))])
  }

  /** The update `processMessage` makes once the exchange is over. */
  function AfterExchange(t: Table, w: string, message: string, outcome: Outcome): (r: Table)
    requires w in t.entries
    ensures r.order == t.order && r.entries.Keys == t.entries.Keys
    ensures r.entries[w].completed == t.entries[w].completed + (if outcome.Success? then 1 else 0)
    ensures r.entries[w].total == t.entries[w].total
    ensures outcome.Success? ==> r.entries[w].status == ProcessedStatus(message)
    ensures outcome.Failure? ==> r.entries[w].status == ErrorStatus(outcome.message)
    ensures forall k :: k in t.entries && k != w ==> r.entries[k] == t.entries[k]
  {
    match outcome
    case Success => AfterSuccess(t, w, message)
    case Failure(err) => AfterFailure(t, w, err)
  }

  /** The end of a wallet's loop: only the status changes, to "Completed". */
  function AfterCompleted(t: Table, w: string): (r: Table)
    requires w in t.entries
    ensures r.order == t.order && r.entries.Keys == t.entries.Keys
    ensures r.entries[w] == t.entries[w].(status := COMPLETED)
    ensures forall k :: k in t.entries && k != w ==> r.entries[k] == t.entries[k]
  {
    t.(entries := t.entries[w := t.entries[w].(status := COMPLETED)])
  }

  /** The number of successful outcomes. */
  function Successes(outcomes: seq<Outcome>): (n: nat)
    ensures n <= |outcomes|
  {
    if outcomes == [] then 0
    else Successes(outcomes[..|outcomes| - 1]) + (if outcomes[|outcomes| - 1].Success? then 1 else 0)
  }

  /** The count is the length exactly when every outcome is a success. */
  lemma {:induction false} SuccessesAll(outcomes: seq<Outcome>)
    ensures Successes(outcomes) == |outcomes| <==> forall i :: 0 <= i < |outcomes| ==> outcomes[i].Success?
  {
    if outcomes != [] {
      var init := outcomes[..|outcomes| - 1];
      SuccessesAll(init);
      assert forall i :: 0 <= i < |init| ==> init[i] == outcomes[i];
    }
  }

  /** The table after the exchanges of one wallet, `outcomes[i]` being that of `messages[i]`. */
  function Exchanges(t: Table, w: string, messages: seq<string>, outcomes: seq<Outcome>): (r: Table)
    requires w in t.entries && |messages| == |outcomes|
    ensures r.order == t.order && r.entries.Keys == t.entries.Keys
  {
    if messages == [] then t
    else
      var n := |messages| - 1;
      AfterExchange(Exchanges(t, w, messages[..n], outcomes[..n]), w, messages[n], outcomes[n])
  }

  /** One exchange more: the table after the first `i + 1` exchanges, from the one after the first `i`. */
  lemma ExchangesNext(t: Table, w: string, messages: seq<string>, outcomes: seq<Outcome>, i: nat)
    requires w in t.entries && |messages| == |outcomes| && i < |messages|
    ensures Exchanges(t, w, messages[..i + 1], outcomes[..i + 1])
         == AfterExchange(Exchanges(t, w, messages[..i], outcomes[..i]), w, messages[i], outcomes[i])
  {
    TakeInit(messages, outcomes, i);
  }

  /** The status the last exchange of a non-empty run leaves behind. */
  function LastStatus(messages: seq<string>, outcomes: seq<Outcome>): string
    requires |messages| == |outcomes| > 0
  {
    match outcomes[|outcomes| - 1]
    case Success => ProcessedStatus(messages[|messages| - 1])
    case Failure(err) => ErrorStatus(err)
  }

  /**
   * The wallet's count grows by the number of successes; its total stays; its
   * status is that of the last exchange; no other entry changes.
   */
  lemma {:induction false} ExchangesEffect(t: Table, w: string, messages: seq<string>, outcomes: seq<Outcome>)
    requires w in t.entries && |messages| == |outcomes|
    ensures var r := Exchanges(t, w, messages, outcomes);
      && r.entries[w].completed == t.entries[w].completed + Successes(outcomes)
      && r.entries[w].total == t.entries[w].total
      && (messages == [] ==> r.entries[w].status == t.entries[w].status)
      && (messages != [] ==> r.entries[w].status == LastStatus(messages, outcomes))
      && forall k :: k in t.entries && k != w ==> r.entries[k] == t.entries[k]
  {
    if messages != [] {
      var n := |messages| - 1;
      ExchangesEffect(t, w, messages[..n], outcomes[..n]);
      assert outcomes[..n] == outcomes[..|outcomes| - 1];
    }
  }

  /** The body of one wallet's task in `runScript`: every message in turn, then "Completed". */
  function WalletRun(t: Table, w: string, messages: seq<string>, outcomes: seq<Outcome>): (r: Table)
    requires w in t.entries && |messages| == |outcomes|
    ensures r.order == t.order && r.entries.Keys == t.entries.Keys
  {
    AfterCompleted(Exchanges(t, w, messages, outcomes), w)
  }

  /** After a wallet's task its entry is complete and counts its successes; the rest of the table is untouched. */
  lemma WalletRunEffect(t: Table, w: string, messages: seq<string>, outcomes: seq<Outcome>)
    requires w in t.entries && |messages| == |outcomes|
    ensures var r := WalletRun(t, w, messages, outcomes);
      && r.entries[w] == Entry(t.entries[w].completed + Successes(outcomes), t.entries[w].total, COMPLETED)
      && forall k :: k in t.entries && k != w ==> r.entries[k] == t.entries[k]
  {
    ExchangesEffect(t, w, messages, outcomes);
  }

  predicate Shaped(ws: seq<string>, messages: seq<string>, outcomes: seq<seq<Outcome>>) {
    |outcomes| == |ws| && forall i :: 0 <= i < |ws| ==> |outcomes[i]| == |messages|
  }

  /** The wallet tasks run one after the other over the same table. */
  function WalletRuns(t: Table, ws: seq<string>, messages: seq<string>, outcomes: seq<seq<Outcome>>): (r: Table)
    requires Shaped(ws, messages, outcomes)
    requires forall i :: 0 <= i < |ws| ==> ws[i] in t.entries
    ensures r.order == t.order && r.entries.Keys == t.entries.Keys
  {
    if ws == [] then t
    else
      var n := |ws| - 1;
      WalletRun(WalletRuns(t, ws[..n], messages, outcomes[..n]), ws[n], messages, outcomes[n])
  }

  /** The number of successful exchanges of every task that runs for wallet `w`. */
  function SuccessesFor(w: string, ws: seq<string>, outcomes: seq<seq<Outcome>>): nat
    requires |outcomes| == |ws|
  {
    if ws == [] then 0
    else
      var n := |ws| - 1;
      SuccessesFor(w, ws[..n], outcomes[..n]) + (if ws[n] == w then Successes(outcomes[n]) else 0)
  }

  /**
   * Every task of wallet `w` adds its successes to the one entry for `w`, and
   * a wallet without a task keeps its entry.
   */
  lemma {:induction false} WalletRunsEffect(t: Table, ws: seq<string>, messages: seq<string>, outcomes: seq<seq<Outcome>>, w: string)
    requires Shaped(ws, messages, outcomes)
    requires forall i :: 0 <= i < |ws| ==> ws[i] in t.entries
    requires w in t.entries
    ensures var r := WalletRuns(t, ws, messages, outcomes);
      && r.entries[w].completed == t.entries[w].completed + SuccessesFor(w, ws, outcomes)
      && r.entries[w].total == t.entries[w].total
      && (w in ws ==> r.entries[w].status == COMPLETED)
      && (w !in ws ==> r.entries[w] == t.entries[w])
  {
    if ws != [] {
      assert forall j :: 0 <= j < |ws| - 1 ==> ws[..|ws| - 1][j] == ws[j] && outcomes[..|ws| - 1][j] == outcomes[j];
      WalletRunsEffect(t, ws[..|ws| - 1], messages, outcomes[..|ws| - 1], w);
      WalletRunsEffectStep(t, ws, messages, outcomes, w);
    }
  }

  /** The induction step of `WalletRunsEffect`: the last task adds its successes to its own wallet only. */
  lemma WalletRunsEffectStep(t: Table, ws: seq<string>, messages: seq<string>, outcomes: seq<seq<Outcome>>, w: string)
    requires Shaped(ws, messages, outcomes) && ws != []
    requires forall i :: 0 <= i < |ws| ==> ws[i] in t.entries
    requires w in t.entries
    requires var n := |ws| - 1;
      Shaped(ws[..n], messages, outcomes[..n]) && (forall i :: 0 <= i < n ==> ws[..n][i] in t.entries)
    requires var n := |ws| - 1; var p := WalletRuns(t, ws[..n], messages, outcomes[..n]);
      && p.entries[w].completed == t.entries[w].completed + SuccessesFor(w, ws[..n], outcomes[..n])
      && p.entries[w].total == t.entries[w].total
      && (w in ws[..n] ==> p.entries[w].status == COMPLETED)
      && (w !in ws[..n] ==> p.entries[w] == t.entries[w])
    ensures var r := WalletRuns(t, ws, messages, outcomes);
      && r.entries[w].completed == t.entries[w].completed + SuccessesFor(w, ws, outcomes)
      && r.entries[w].total == t.entries[w].total
      && (w in ws ==> r.entries[w].status == COMPLETED)
      && (w !in ws ==> r.entries[w] == t.entries[w])
  {
    var n := |ws| - 1;
    var p := WalletRuns(t, ws[..n], messages, outcomes[..n]);
    WalletRunEffect(p, ws[n], messages, outcomes[n]);
    PrefixMembership(ws, w);
  }

  /** An element of a non-empty list is in all but its last place, or is the last. */
  lemma PrefixMembership(ws: seq<string>, w: string)
    requires ws != []
    ensures w in ws <==> w in ws[..|ws| - 1] || w == ws[|ws| - 1]
  {
    assert ws == ws[..|ws| - 1] + [ws[|ws| - 1]];
  }

  /** One whole cycle: a fresh table for the wallets, then every wallet's task. */
  function Cycle(ws: seq<string>, messages: seq<string>, outcomes: seq<seq<Outcome>>): (r: Table)
    requires Shaped(ws, messages, outcomes)
    ensures WellFormed(r)
  {
    WalletRuns(Initial(ws, |messages|), ws, messages, outcomes)
  }

  /** For distinct wallets, task `i`'s successes are the only ones counted against `ws[i]`. */
  lemma {:induction false} SuccessesForDistinct(ws: seq<string>, outcomes: seq<seq<Outcome>>, i: nat)
    requires |outcomes| == |ws| && Distinct(ws) && i < |ws|
    ensures SuccessesFor(ws[i], ws, outcomes) == Successes(outcomes[i])
  {
    var n := |ws| - 1;
    if i < n {
      SuccessesForDistinct(ws[..n], outcomes[..n], i);
    } else {
      SuccessesForAbsent(ws[i], ws[..n], outcomes[..n]);
    }
  }

  lemma {:induction false} SuccessesForAbsent(w: string, ws: seq<string>, outcomes: seq<seq<Outcome>>)
    requires |outcomes| == |ws| && w !in ws
    ensures SuccessesFor(w, ws, outcomes) == 0
  {
    if ws != [] {
      SuccessesForAbsent(w, ws[..|ws| - 1], outcomes[..|ws| - 1]);
    }
  }

  /**
   * With distinct wallet addresses, each wallet ends a cycle marked
   * "Completed" with exactly its own successes counted, never more than the
   * total; the count reaches the total exactly when every exchange succeeded.
   */
  lemma CycleDistinct(ws: seq<string>, messages: seq<string>, outcomes: seq<seq<Outcome>>, i: nat)
    requires Shaped(ws, messages, outcomes) && Distinct(ws) && i < |ws|
    ensures var e := Cycle(ws, messages, outcomes).entries[ws[i]];
      && e == Entry(Successes(outcomes[i]), |messages|, COMPLETED)
      && e.completed <= e.total
      && (e.completed == e.total <==> forall k :: 0 <= k < |messages| ==> outcomes[i][k].Success?)
  {
    var t := Initial(ws, |messages|);
    WalletRunsEffect(t, ws, messages, outcomes, ws[i]);
    SuccessesForDistinct(ws, outcomes, i);
    SuccessesAll(outcomes[i]);
  }

  /** The keys after a cycle are the configured wallets, each once, in configuration order. */
  lemma CycleKeys(ws: seq<string>, messages: seq<string>, outcomes: seq<seq<Outcome>>)
    requires Shaped(ws, messages, outcomes)
    ensures forall w :: w in Cycle(ws, messages, outcomes).entries <==> w in ws
    ensures Distinct(ws) ==> Cycle(ws, messages, outcomes).order == ws
  {
    if Distinct(ws) {
      InitialOrder(ws, |messages|);
    }
  }

  /**
   * A wallet listed twice has one entry but two tasks: when every exchange
   * succeeds its count reaches twice the total.
   */
  lemma DuplicateWalletDoublesCount(w: string, messages: seq<string>)
    requires |messages| > 0
    ensures var outcomes := [seq(|messages|, _ => Success), seq(|messages|, _ => Success)];
      var e := Cycle([w, w], messages, outcomes).entries[w];
      e.completed == 2 * e.total && e.completed > e.total
  {
    var all := seq(|messages|, _ => Success);
    var outcomes := [all, all];
    SuccessesAll(all);
    WalletRunsEffect(Initial([w, w], |messages|), [w, w], messages, outcomes, w);
    assert [w, w][..1] == [w];
    assert outcomes[..1] == [all];
    assert SuccessesFor(w, [w], [all]) == |messages| by {
      assert [w][..0] == [];
      assert [all][..0] == [];
    }
  }

  /** A step of one wallet's task. */
  datatype Step = Exchange(message: string, outcome: Outcome) | Finish

  function ApplyStep(t: Table, w: string, s: Step): Table
    requires w in t.entries
  {
    match s
    case Exchange(m, o) => AfterExchange(t, w, m, o)
    case Finish => AfterCompleted(t, w)
  }

  /**
   * Two adjacent steps of tasks for different wallets commute. That every
   * interleaving of the concurrent tasks of distinct wallets ends in the table
   * the sequential run leaves is `Interleaving.InterleaveComplete`.
   */
  lemma StepsCommute(t: Table, a: string, sa: Step, b: string, sb: Step)
    requires a in t.entries && b in t.entries && a != b
    ensures ApplyStep(ApplyStep(t, a, sa), b, sb) == ApplyStep(ApplyStep(t, b, sb), a, sa)
  {
  }

  /** The four lines `renderProgress` draws for one wallet. */
  function EntryLines(w: string, e: Entry): seq<string> {
    [ WALLET_LABEL + w,
      PROGRESS_LABEL + NatToString(e.completed) + "/" + NatToString(e.total),
      STATUS_LABEL + e.status,
      "" ]
  }

  /** The lines of the whole table, wallet by wallet in key order. */
  function Lines(order: seq<string>, entries: map<string, Entry>): (ls: seq<string>)
    requires forall w :: w in order ==> w in entries
    ensures |ls| == 4 * |order|
  {
    if order == [] then []
    else
      var n := |order| - 1;
      Lines(order[..n], entries) + EntryLines(order[n], entries[order[n]])
  }

  /** One wallet's block of text: its four lines, each ended by a newline. */
  function Block(w: string, e: Entry): string {
    (WALLET_LABEL + w + "\n")
    + (PROGRESS_LABEL + NatToString(e.completed) + "/" + NatToString(e.total) + "\n")
    + (STATUS_LABEL + e.status + "\n")
    + "\n"
  }

  /** The `output` string `renderProgress` builds, block after block. */
  function RenderRows(order: seq<string>, entries: map<string, Entry>): string
    requires forall w :: w in order ==> w in entries
  {
    if order == [] then ""
    else
      var n := |order| - 1;
      RenderRows(order[..n], entries) + Block(order[n], entries[order[n]])
  }

  /** The text `renderProgress` draws for a table: its rows, wallet by wallet in key order. */
  function Render(t: Table): string
    requires Listed(t)
  {
    RenderRows(t.order, t.entries)
  }

  /** Lines each followed by a newline. */
  function Terminated(ls: seq<string>): string {
    if ls == [] then "" else ls[0] + "\n" + Terminated(ls[1..])
  }

  lemma {:induction false} TerminatedAppend(a: seq<string>, b: seq<string>)
    ensures Terminated(a + b) == Terminated(a) + Terminated(b)
  {
    if a == [] {
      assert a + b == b;
    } else {
      TerminatedAppend(a[1..], b);
      assert (a + b)[1..] == a[1..] + b;
    }
  }

  lemma BlockLines(w: string, e: Entry)
    ensures Block(w, e) == Terminated(EntryLines(w, e))
  {
    var ls := EntryLines(w, e);
    var l0, l1, l2 := ls[0] + "\n", ls[1] + "\n", ls[2] + "\n";
    assert Terminated(ls[3..]) == "\n" by {
      assert ls[3..][1..] == [];
    }
    assert Terminated(ls[2..]) == l2 + "\n" by {
      assert ls[2..][1..] == ls[3..];
    }
    assert Terminated(ls[1..]) == l1 + (l2 + "\n") by {
      assert ls[1..][1..] == ls[2..];
    }
    assert Terminated(ls) == l0 + (l1 + (l2 + "\n"));
    assert Block(w, e) == l0 + l1 + l2 + "\n";
  }

  lemma {:induction false} RenderRowsLines(order: seq<string>, entries: map<string, Entry>)
    requires forall w :: w in order ==> w in entries
    ensures RenderRows(order, entries) == Terminated(Lines(order, entries))
  {
    if order != [] {
      var n := |order| - 1;
      RenderRowsLines(order[..n], entries);
      BlockLines(order[n], entries[order[n]]);
      TerminatedAppend(Lines(order[..n], entries), EntryLines(order[n], entries[order[n]]));
    }
  }

  lemma {:induction false} JoinTerminated(ls: seq<string>, sep: char)
    requires sep == '\n'
    ensures Join(ls + [""], sep) == Terminated(ls)
  {
    if ls != [] {
      JoinTerminated(ls[1..], sep);
      assert (ls + [""])[1..] == ls[1..] + [""];
    }
  }

  /** No wallet and no status text contains a newline. */
  predicate SingleLineTexts(t: Table) {
    forall w :: w in t.entries ==> '\n' !in w && '\n' !in t.entries[w].status
  }

  lemma {:induction false} LinesSingle(order: seq<string>, entries: map<string, Entry>)
    requires forall w :: w in order ==> w in entries
    requires forall w :: w in entries ==> '\n' !in w && '\n' !in entries[w].status
    ensures forall i :: 0 <= i < |Lines(order, entries)| ==> '\n' !in Lines(order, entries)[i]
  {
    if order != [] {
      var n := |order| - 1;
      LinesSingle(order[..n], entries);
      var e := entries[order[n]];
      var a, b := NatToString(e.completed), NatToString(e.total);
      assert '\n' !in a && '\n' !in b;
    }
  }

  /**
   * Split at newlines, the rendered text is exactly four lines per wallet in
   * key order ("Wallet: w", "  Progress: c/t", "  Status: s", an empty line),
   * followed by the empty remainder after the final newline.
   */
  lemma RenderSplitsIntoLines(t: Table)
    requires WellFormed(t) && SingleLineTexts(t)
    ensures Split(Render(t), '\n') == Lines(t.order, t.entries) + [""]
  {
    var ls := Lines(t.order, t.entries);
    RenderRowsLines(t.order, t.entries);
    JoinTerminated(ls, '\n');
    LinesSingle(t.order, t.entries);
    SplitJoin(ls + [""], '\n');
  }

  /** Two wallets, two messages, every exchange succeeds: both end at 2/2, "Completed". */
  lemma ScenarioAllSucceed()
    ensures var t := Cycle(["0xAAA", "0xBBB"], ["hello", "world"], [[Success, Success], [Success, Success]]);
      && t.order == ["0xAAA", "0xBBB"]
      && t.entries["0xAAA"] == Entry(2, 2, COMPLETED)
      && t.entries["0xBBB"] == Entry(2, 2, COMPLETED)
  {
    var ws, ms := ["0xAAA", "0xBBB"], ["hello", "world"];
    var os := [[Success, Success], [Success, Success]];
    CycleKeys(ws, ms, os);
    CycleDistinct(ws, ms, os, 0);
    CycleDistinct(ws, ms, os, 1);
    SuccessesAll(os[0]);
    SuccessesAll(os[1]);
  }

  /**
   * The second exchange of the first wallet fails: that wallet counts one
   * success while the other counts two. The loop still stamps "Completed"
   * afterwards, so the error text does not survive the end of the loop.
   */
  lemma ScenarioSecondMessageFails()
    ensures var t := Cycle(["0xAAA", "0xBBB"], ["hello", "world"],
                           [[Success, Failure("Network Error")], [Success, Success]]);
      && t.entries["0xAAA"] == Entry(1, 2, COMPLETED)
      && t.entries["0xBBB"] == Entry(2, 2, COMPLETED)
  {
    var ws, ms := ["0xAAA", "0xBBB"], ["hello", "world"];
    var os := [[Success, Failure("Network Error")], [Success, Success]];
    assert Successes(os[0]) == 1 by {
      assert os[0][..1] == [Success];
      assert [Success][..0] == [];
    }
    SuccessesAll(os[1]);
    CycleDistinct(ws, ms, os, 0);
    CycleDistinct(ws, ms, os, 1);
  }
}
