/**
 * `fetch_emails_for_label`: the page loop that turns the messages of a
 * Gmail label into new rows of the Submissions sheet, skipping digests,
 * empty answers and keys already present, and stopping at the only-new
 * boundary.
 */
module MailIngest {
  import opened Wrappers
  import opened Text
  import opened Sheet
  import opened Collections
  import Remote
  import Grading
  import opened Mail

  // ---------------------------------------------------------------------
  // Messages and the calls outside the model

  /** One entry of `payload["headers"]`. */
  datatype Header = Header(name: string, value: string)

  /** A message as `messages().get(format="full")` returns it: its id, its headers and its payload. */
  datatype Message = Message(id: string, headers: seq<Header>, payload: Payload)

  /** One response of `messages().list`: its messages and whether it carried a `nextPageToken`. */
  datatype Page = Page(messages: seq<Message>, hasNext: bool)

  /**
   * The Gmail and Sheets calls and the library parsers the loop depends on:
   * the payload codecs, `parseaddr`, `_parse_date_to_string` (`None` when
   * it raises), `dtparser.parse`, the list responses of the label in order
   * (a page past the end is empty), and attempt `a` of `append_rows` for
   * page `p` (`None` when it succeeds).
   */
  datatype Services = Services(
    codecs: Codecs,
    parseAddr: AddressParser,
    formatDate: string -> Option<string>,
    parse: Grading.DateParser,
    pages: seq<Page>,
    tryAppend: (nat, nat) -> Option<Remote.Exc>)

  /** What one run of the loop is fixed to. */
  datatype Run = Run(services: Services, game: string, headers: seq<string>, fetchAll: bool,
                     boundary: Option<Grading.Time>)

  /** `_append_rows_with_backoff(..., retries=6, initial_delay=2)` */
  const Retries: nat := 6
  const InitialDelay: nat := 2
  /** `time.sleep(0.5)` between pages. */
  const PagePause: real := 0.5

  // ---------------------------------------------------------------------
  // `hget`

  /** `hget(name)`: the value of the first header whose name matches ignoring case, else "". */
  function HeaderValue(hs: seq<Header>, name: string): string
    decreases |hs|
  {
    if |hs| == 0 then ""
    else if Lower(hs[0].name) == Lower(name) then hs[0].value
    else HeaderValue(hs[1..], name)
  }

  /** The first matching header wins; with none, the default "" is returned. */
  lemma {:induction false} HeaderValueSpec(hs: seq<Header>, name: string)
    ensures (forall i :: 0 <= i < |hs| ==> Lower(hs[i].name) != Lower(name)) ==> HeaderValue(hs, name) == ""
    ensures forall i :: (0 <= i < |hs| && Lower(hs[i].name) == Lower(name)
      && (forall j :: 0 <= j < i ==> Lower(hs[j].name) != Lower(name))) ==> HeaderValue(hs, name) == hs[i].value
    decreases |hs|
  {
    if |hs| > 0 {
      HeaderValueSpec(hs[1..], name);
      forall i | 0 < i < |hs| ensures hs[1..][i - 1] == hs[i] {
      }
    }
  }

  // ---------------------------------------------------------------------
  // The decision for one message

  /** The Timestamp text of a message and its parsed time, when its Date header did not make it raise. */
  datatype Dated = Dated(text: string, at: Option<Grading.Time>)

  /** `ts_str` and `ts_dt`; `None` when either parse raises, which skips the message. */
  function MessageDate(s: Services, date: string): (r: Option<Dated>)
    ensures date == "" ==> r == Some(Dated("", None))
    ensures r.Some? && r.value.at.Some? ==> r.value.text != "" && s.parse(r.value.text) == r.value.at
  {
    if date == "" then Some(Dated("", None))
    else match s.formatDate(date)
      case None => None
      case Some(text) =>
        if text == "" then Some(Dated("", None))
        else match s.parse(text)
          case None => None
          case Some(t) => Some(Dated(text, Some(t)))
  }

  /** `not fetch_all and boundary_dt and ts_dt and ts_dt <= boundary_dt` */
  predicate AtOrBefore(run: Run, at: Option<Grading.Time>) {
    !run.fetchAll && run.boundary.Some? && at.Some? && at.value <= run.boundary.value
  }

  /** The value `row_map` gives the column named `h`. */
  function FieldFor(h: string, game: string, ts: string, s: Sender, body: string): string {
    if h == "Game" then game
    else if h == "Timestamp" then ts
    else if h == "First Name" then s.first
    else if h == "Last Name Initial" then s.lastInitial
    else if h == "Email" then s.email
    else if h == "Answer" then body
    else ""
  }

  /** `[row_map.get(h, "") for h in headers]` */
  function SubmissionRow(headers: seq<string>, game: string, ts: string, s: Sender, body: string): seq<string> {
    seq(|headers|, i requires 0 <= i < |headers| => FieldFor(headers[i], game, ts, s, body))
  }

  /** What the loop does with one message before the duplicate test. */
  datatype Verdict = Skip | Stop | Candidate(key: Key, row: seq<string>)

  /** The sender, the cleaned answer and the subject of a message. */
  function SenderOf(run: Run, m: Message): Sender {
    ParseSender(run.services.parseAddr, HeaderValue(m.headers, "From"))
  }

  function AnswerOf(run: Run, m: Message): string {
    CleanedAnswer(ExtractPlaintext(run.services.codecs, m.payload))
  }

  /** The body of the message loop up to the duplicate test, in the order the loop tests. */
  function Decide(run: Run, m: Message): Verdict {
    if m.id == "" then Skip
    else match MessageDate(run.services, HeaderValue(m.headers, "Date"))
      case None => Skip
      case Some(d) =>
        if AtOrBefore(run, d.at) then Stop
        else
          var s := SenderOf(run, m);
          var body := AnswerOf(run, m);
          if LooksLikeDigest(HeaderValue(m.headers, "Subject"), s.email, body) then Skip
          else if body == "" then Skip
          else Candidate(Key(run.game, Lower(s.email), d.text, body), SubmissionRow(run.headers, run.game, d.text, s, body))
  }

  /**
   * A message stops the page exactly when it has an id, a usable date, and
   * that date is at or before the boundary in only-new mode; it is a
   * candidate exactly when it has an id and a usable date after the
   * boundary, is no digest and has a non-empty answer, and then its key is
   * the game, the lower-cased sender address, the Timestamp text and the answer.
   */
  lemma DecideSpec(run: Run, m: Message)
    ensures var d := MessageDate(run.services, HeaderValue(m.headers, "Date"));
      Decide(run, m) == Stop <==> m.id != "" && d.Some? && AtOrBefore(run, d.value.at)
    ensures var d := MessageDate(run.services, HeaderValue(m.headers, "Date"));
      var s := SenderOf(run, m);
      var body := AnswerOf(run, m);
      Decide(run, m).Candidate? <==> (m.id != "" && d.Some? && !AtOrBefore(run, d.value.at)
        && !LooksLikeDigest(HeaderValue(m.headers, "Subject"), s.email, body) && body != "")
    ensures var d := MessageDate(run.services, HeaderValue(m.headers, "Date"));
      var s := SenderOf(run, m);
      var body := AnswerOf(run, m);
      Decide(run, m).Candidate? ==> (d.Some? && Decide(run, m).key == Key(run.game, Lower(s.email), d.value.text, body)
        && Decide(run, m).row == SubmissionRow(run.headers, run.game, d.value.text, s, body))
  {
  }

  /**
   * Reading an appended row back: when the game, Timestamp, address and
   * answer have no surrounding whitespace, `_load_existing_keys` finds in the
   * row exactly the key it was appended under, or none when a field is empty.
   */
  lemma AppendedRowKey(headers: seq<string>, game: string, ts: string, s: Sender, body: string)
    requires HasKeyColumns(headers)
    requires Strip(game) == game && Strip(ts) == ts && Strip(s.email) == s.email && Strip(body) == body
    ensures var row := SubmissionRow(headers, game, ts, s, body);
      RowKey(row, headers) == if game != "" && ts != "" && s.email != "" && body != ""
        then Some(Key(game, Lower(s.email), ts, body)) else None
  {
    var row := SubmissionRow(headers, game, ts, s, body);
    assert Cell(row, LastIndexOf(headers, "Game")) == game;
    assert Cell(row, LastIndexOf(headers, "Timestamp")) == ts;
    assert Cell(row, LastIndexOf(headers, "Email")) == s.email;
    assert Cell(row, LastIndexOf(headers, "Answer")) == body;
    LowerEmpty(s.email);
  }

  lemma LowerEmpty(s: string)
    ensures Lower(s) == "" <==> s == ""
  {
    if s != "" {
      assert |Lower(s)| == |s|;
    }
  }

  // ---------------------------------------------------------------------
  // One page

  /** The loop's state on a page: the key set, the rows to append, their keys, and `stop_paging`. */
  datatype PageState = PageState(seen: set<Key>, rows: Grid, keys: seq<Key>, stopped: bool)

  /** The decision of `Decide` for a fixed run. */
  function Decider(run: Run): Message -> Verdict {
    m => Decide(run, m)
  }

  /** One iteration of `for msg in messages`. */
  function Step(decide: Message -> Verdict, st: PageState, m: Message): PageState {
    if st.stopped then st
    else match decide(m)
      case Skip => st
      case Stop => st.(stopped := true)
      case Candidate(k, row) =>
        if k in st.seen then st
        else PageState(st.seen + {k}, st.rows + [row], st.keys + [k], false)
  }

  /** The loop over `msgs` from state `st`. */
  function RunPage(decide: Message -> Verdict, st: PageState, msgs: seq<Message>): PageState
    decreases |msgs|
  {
    if |msgs| == 0 then st
    else Step(decide, RunPage(decide, st, msgs[..|msgs| - 1]), msgs[|msgs| - 1])
  }

  /** The state a page starts from. */
  function PageStart(seen: set<Key>): PageState {
    PageState(seen, [], [], false)
  }

  /**
   * What the page adds to the key set `seen0`: one key per row, no key
   * twice, none already in `seen0`, and the new set is `seen0` and those keys.
   */
  ghost predicate Fresh(seen0: set<Key>, st: PageState) {
    |st.rows| == |st.keys|
    && (forall i, j :: 0 <= i < j < |st.keys| ==> st.keys[i] != st.keys[j])
    && (forall i :: 0 <= i < |st.keys| ==> st.keys[i] !in seen0)
    && (forall k :: k in st.seen <==> k in seen0 || k in st.keys)
  }

  /** Every row of a page is the candidate row of one of its messages, under the key it was kept for. */
  ghost predicate FromMessages(decide: Message -> Verdict, msgs: seq<Message>, st: PageState)
    requires |st.rows| == |st.keys|
  {
    forall i :: 0 <= i < |st.keys| ==>
      exists j :: 0 <= j < |msgs| && decide(msgs[j]) == Candidate(st.keys[i], st.rows[i])
  }

  lemma StepFresh(decide: Message -> Verdict, seen0: set<Key>, st: PageState, m: Message)
    requires Fresh(seen0, st)
    ensures Fresh(seen0, Step(decide, st, m))
  {
    var st' := Step(decide, st, m);
    if st' != st && st'.keys != st.keys {
      var k := decide(m).key;
      assert k !in st.seen;
      assert st'.keys == st.keys + [k];
      assert forall i :: 0 <= i < |st.keys| ==> st'.keys[i] == st.keys[i];
    }
  }

  /** The keys a page keeps are new and distinct, and exactly they are added to the set. */
  lemma {:induction false} RunPageFresh(decide: Message -> Verdict, seen0: set<Key>, msgs: seq<Message>)
    ensures Fresh(seen0, RunPage(decide, PageStart(seen0), msgs))
    decreases |msgs|
  {
    if |msgs| > 0 {
      var n := |msgs| - 1;
      RunPageFresh(decide, seen0, msgs[..n]);
      StepFresh(decide, seen0, RunPage(decide, PageStart(seen0), msgs[..n]), msgs[n]);
    }
  }

  /** Each row of a page comes from a candidate message of that page. */
  lemma {:induction false} RunPageRows(decide: Message -> Verdict, seen0: set<Key>, msgs: seq<Message>)
    ensures |RunPage(decide, PageStart(seen0), msgs).rows| == |RunPage(decide, PageStart(seen0), msgs).keys|
    ensures FromMessages(decide, msgs, RunPage(decide, PageStart(seen0), msgs))
    decreases |msgs|
  {
    if |msgs| > 0 {
      var n := |msgs| - 1;
      var pre := RunPage(decide, PageStart(seen0), msgs[..n]);
      RunPageRows(decide, seen0, msgs[..n]);
      var st := Step(decide, pre, msgs[n]);
      forall i | 0 <= i < |st.keys|
        ensures exists j :: 0 <= j < |msgs| && decide(msgs[j]) == Candidate(st.keys[i], st.rows[i])
      {
        if i < |pre.keys| {
          assert st.keys[i] == pre.keys[i] && st.rows[i] == pre.rows[i];
          var j :| 0 <= j < n && decide(msgs[..n][j]) == Candidate(pre.keys[i], pre.rows[i]);
          assert msgs[..n][j] == msgs[j];
        } else {
          assert decide(msgs[n]) == Candidate(st.keys[i], st.rows[i]);
        }
      }
    }
  }

  /** Once the page has stopped, later messages change nothing. */
  lemma {:induction false} StoppedStays(decide: Message -> Verdict, st: PageState, msgs: seq<Message>, k: nat)
    requires k <= |msgs| && RunPage(decide, st, msgs[..k]).stopped
    ensures RunPage(decide, st, msgs) == RunPage(decide, st, msgs[..k])
    decreases |msgs| - k
  {
    if k < |msgs| {
      var n := |msgs| - 1;
      assert msgs[..n][..k] == msgs[..k];
      StoppedStays(decide, st, msgs[..n], k);
      assert msgs[..|msgs|] == msgs;
    } else {
      assert msgs[..k] == msgs;
    }
  }

  /**
   * The stop rule: the page is stopped exactly when one of its messages is a
   * stop message, and nothing after a stop message changes the state.
   */
  lemma {:induction false} RunPageStop(decide: Message -> Verdict, seen0: set<Key>, msgs: seq<Message>)
    ensures RunPage(decide, PageStart(seen0), msgs).stopped <==> exists j :: 0 <= j < |msgs| && decide(msgs[j]) == Stop
    ensures forall j :: 0 <= j < |msgs| && decide(msgs[j]) == Stop ==>
      RunPage(decide, PageStart(seen0), msgs) == RunPage(decide, PageStart(seen0), msgs[..j + 1])
    decreases |msgs|
  {
    if |msgs| > 0 {
      var n := |msgs| - 1;
      RunPageStop(decide, seen0, msgs[..n]);
      forall j | 0 <= j < |msgs| && decide(msgs[j]) == Stop
        ensures RunPage(decide, PageStart(seen0), msgs) == RunPage(decide, PageStart(seen0), msgs[..j + 1])
      {
        assert msgs[..j + 1][..j] == msgs[..j] && msgs[..j + 1][j] == msgs[j];
        StoppedStays(decide, PageStart(seen0), msgs, j + 1);
      }
      if exists j :: 0 <= j < n && decide(msgs[..n][j]) == Stop {
        var j :| 0 <= j < n && decide(msgs[..n][j]) == Stop;
        assert msgs[..n][j] == msgs[j];
      }
      if exists j :: 0 <= j < |msgs| && decide(msgs[j]) == Stop {
        var j :| 0 <= j < |msgs| && decide(msgs[j]) == Stop;
        if j < n {
          assert msgs[..n][j] == msgs[j];
        }
      }
    }
  }

  /** On a page that did not stop, the key of every candidate message ends up in the set. */
  lemma {:induction false} RunPageComplete(decide: Message -> Verdict, st: PageState, msgs: seq<Message>)
    ensures !RunPage(decide, st, msgs).stopped ==>
      forall j :: 0 <= j < |msgs| && decide(msgs[j]).Candidate? ==> decide(msgs[j]).key in RunPage(decide, st, msgs).seen
    decreases |msgs|
  {
    if |msgs| > 0 {
      var n := |msgs| - 1;
      RunPageComplete(decide, st, msgs[..n]);
      var pre := RunPage(decide, st, msgs[..n]);
      assert forall j :: 0 <= j < n ==> msgs[..n][j] == msgs[j];
      assert Step(decide, pre, msgs[n]).seen >= pre.seen;
    }
  }

  /** The message loop of one page, with its `break` at the stop; `decide` is `Decider(run)`. */
  method ProcessPage(decide: Message -> Verdict, seen: set<Key>, msgs: seq<Message>) returns (st: PageState)
    ensures st == RunPage(decide, PageStart(seen), msgs)
  {
    st := PageStart(seen);
    var i := 0;
    while i < |msgs|
      invariant 0 <= i <= |msgs|
      invariant st == RunPage(decide, PageStart(seen), msgs[..i])
      invariant !st.stopped
    {
      assert msgs[..i + 1][..i] == msgs[..i];
      var v := decide(msgs[i]);
      if v == Stop {
        st := st.(stopped := true);
        StoppedStays(decide, PageStart(seen), msgs, i + 1);
        return;
      }
      if v.Candidate? && v.key !in st.seen {
        st := PageState(st.seen + {v.key}, st.rows + [v.row], st.keys + [v.key], false);
      }
      i := i + 1;
    }
    assert msgs[..i] == msgs;
  }

  // ---------------------------------------------------------------------
  // The page loop

  /** How a page's messages are processed from a key set; `Runner(decide)` for a decision. */
  type PageRunner = (set<Key>, seq<Message>) -> PageState

  function Runner(decide: Message -> Verdict): PageRunner {
    (seen: set<Key>, msgs: seq<Message>) => RunPage(decide, PageStart(seen), msgs)
  }

  /**
   * What the page loop did: the rows it appended, the `append_rows` calls
   * that appended them, the count of rows it reports as pulled, the seconds
   * it slept, the exception it let through, and the keys it added to the key set.
   */
  datatype Outcome = Outcome(rows: Grid, ops: seq<WriteOp>, pulled: nat, waited: real,
                             raised: Option<Remote.Exc>, keys: seq<Key>)

  const Nothing: Outcome := Outcome([], [], 0, 0.0, None, [])

  /** The attempts of `append_rows` for page `p`. */
  function Attempts(s: Services, p: nat): nat -> Option<Remote.Exc> {
    (a: nat) => s.tryAppend(p, a)
  }

  /** What `_append_rows_with_backoff(ws_sub, rows, retries=6, initial_delay=2)` does on page `p`. */
  function Backoffs(s: Services): nat -> BackoffTrace {
    (p: nat) => BackoffFrom(Attempts(s, p), Retries, 0, InitialDelay)
  }

  /**
   * `if rows_to_append: _append_rows_with_backoff(...)`: no call for an
   * empty batch; `appendAt` is `Backoffs(s)` for the services `s`.
   */
  function PageAppend(appendAt: nat -> BackoffTrace, p: nat, rows: Grid): BackoffTrace {
    if |rows| == 0 then BackoffTrace(Appended, 0, []) else appendAt(p)
  }

  /** What page `p` contributes, on a sheet of `base` rows, once its messages are processed into `st`. */
  function PageOutcome(appendAt: nat -> BackoffTrace, p: nat, st: PageState, base: nat): Outcome {
    var b := PageAppend(appendAt, p, st.rows);
    var wrote := b.result == Appended && |st.rows| > 0;
    Outcome(if wrote then st.rows else [],
            if wrote then [WriteOp(base + 1, 1, st.rows)] else [],
            if b.result == Appended then |st.rows| else 0,
            Total(b.sleeps) as real,
            if b.result.Failed? then Some(b.result.exc) else None,
            st.keys)
  }

  /** `a` followed by `b`. */
  function Then(a: Outcome, b: Outcome): Outcome {
    Outcome(a.rows + b.rows, a.ops + b.ops, a.pulled + b.pulled, a.waited + b.waited, b.raised, a.keys + b.keys)
  }

  /**
   * The loop from page `p` with key set `seen` on a sheet of `base` rows,
   * deciding on each message with `decide` (`Decider(run)` for a run): an
   * empty page ends it; a page ends it after its append when the append
   * raised, when the page stopped at the boundary, or when no page follows;
   * otherwise it sleeps and goes on.
   */
  function IngestFrom(pageRun: PageRunner, appendAt: nat -> BackoffTrace, s: Services, p: nat, seen: set<Key>, base: nat): Outcome
    decreases |s.pages| - p
  {
    var pages := s.pages;
    if p >= |pages| || |pages[p].messages| == 0 then Nothing
    else
      var st := pageRun(seen, pages[p].messages);
      var here := PageOutcome(appendAt, p, st, base);
      if here.raised.Some? || st.stopped || !pages[p].hasNext then here
      else Then(here.(waited := here.waited + PagePause), IngestFrom(pageRun, appendAt, s, p + 1, st.seen, base + |here.rows|))
  }

  lemma ThenAssoc(a: Outcome, b: Outcome, c: Outcome)
    ensures Then(Then(a, b), c) == Then(a, Then(b, c))
  {
    assert a.rows + b.rows + c.rows == a.rows + (b.rows + c.rows);
    assert a.ops + b.ops + c.ops == a.ops + (b.ops + c.ops);
    assert a.keys + b.keys + c.keys == a.keys + (b.keys + c.keys);
  }

  lemma ThenNothing(a: Outcome)
    requires a.raised.None?
    ensures Then(a, Nothing) == a
  {
    assert a.rows + [] == a.rows && a.ops + [] == a.ops && a.keys + [] == a.keys;
  }

  lemma NothingThen(a: Outcome)
    ensures Then(Nothing, a) == a
  {
    assert [] + a.rows == a.rows && [] + a.ops == a.ops && [] + a.keys == a.keys;
  }

  /**
   * The loop on a non-empty page `p` once it is processed into `st` with
   * outcome `here`, the next page starting on a sheet of `next` rows.
   */
  lemma IngestStep(pageRun: PageRunner, appendAt: nat -> BackoffTrace, s: Services, p: nat, seen: set<Key>, base: nat, st: PageState, here: Outcome, next: nat)
    requires p < |s.pages| && |s.pages[p].messages| > 0
    requires st == pageRun(seen, s.pages[p].messages)
    requires here == PageOutcome(appendAt, p, st, base)
    requires next == base + |here.rows|
    ensures here.raised.Some? || st.stopped || !s.pages[p].hasNext ==> IngestFrom(pageRun, appendAt, s, p, seen, base) == here
    ensures !(here.raised.Some? || st.stopped || !s.pages[p].hasNext) ==>
      IngestFrom(pageRun, appendAt, s, p, seen, base) ==
        Then(here.(waited := here.waited + PagePause), IngestFrom(pageRun, appendAt, s, p + 1, st.seen, next))
  {
    var rest := IngestFrom(pageRun, appendAt, s, p + 1, st.seen, next);
    assert IngestFrom(pageRun, appendAt, s, p, seen, base) ==
      if here.raised.Some? || st.stopped || !s.pages[p].hasNext then here
      else Then(here.(waited := here.waited + PagePause), rest);
  }

  /**
   * One page: its messages processed into `st`, and its rows, if any,
   * appended with the backoff; `here` is what the page contributes.
   */
  method IngestPage(sub: Worksheet, clock: Remote.Clock, decide: Message -> Verdict, s: Services, p: nat,
                    seen: set<Key>, msgs: seq<Message>)
    returns (st: PageState, here: Outcome)
    modifies sub, clock
    ensures st == RunPage(decide, PageStart(seen), msgs)
    ensures here == PageOutcome(Backoffs(s), p, st, |old(sub.grid)|)
    ensures sub.grid == old(sub.grid) + here.rows
    ensures sub.writes == old(sub.writes) + here.ops
    ensures clock.now == old(clock.now) + here.waited
  {
    st := ProcessPage(decide, seen, msgs);
    here := PageOutcome(Backoffs(s), p, st, |sub.grid|);
    var result := Appended;
    if |st.rows| > 0 {
      result := AppendRowsWithBackoff(sub, st.rows, Retries, InitialDelay, Attempts(s, p), clock);
    } else {
      assert sub.grid + [] == sub.grid && sub.writes + [] == sub.writes;
    }
    assert result == PageAppend(Backoffs(s), p, st.rows).result;
  }

  /**
   * One turn of the page loop on a non-empty page `p`, with `o` done so far
   * on top of the sheet `g0`, the writes `w0` and the clock `c0`: `done` when
   * the page ends the loop; otherwise the pause and the key set for page `p + 1`.
   */
  method Advance(sub: Worksheet, clock: Remote.Clock, decide: Message -> Verdict, s: Services,
                 ghost g0: Grid, ghost w0: seq<WriteOp>, ghost c0: real, o: Outcome, p: nat, seen: set<Key>)
    returns (o': Outcome, seen': set<Key>, done: bool)
    requires p < |s.pages| && |s.pages[p].messages| > 0
    requires sub.grid == g0 + o.rows && sub.writes == w0 + o.ops && clock.now == c0 + o.waited
    modifies sub, clock
    ensures sub.grid == g0 + o'.rows && sub.writes == w0 + o'.ops && clock.now == c0 + o'.waited
    ensures done ==> Then(o, IngestFrom(Runner(decide), Backoffs(s), s, p, seen, |old(sub.grid)|)) == o'
    ensures !done ==> o'.raised.None?
    ensures !done ==>
      Then(o, IngestFrom(Runner(decide), Backoffs(s), s, p, seen, |old(sub.grid)|)) == Then(o', IngestFrom(Runner(decide), Backoffs(s), s, p + 1, seen', |sub.grid|))
  {
    ghost var g := sub.grid;
    var st, here := IngestPage(sub, clock, decide, s, p, seen, s.pages[p].messages);
    IngestStep(Runner(decide), Backoffs(s), s, p, seen, |g|, st, here, |sub.grid|);
    AppendAssoc(g0, o.rows, here.rows);
    AppendAssoc(w0, o.ops, here.ops);
    if here.raised.Some? || st.stopped || !s.pages[p].hasNext {
      o' := Then(o, here);
      seen' := st.seen;
      done := true;
    } else {
      clock.Sleep(PagePause);
      var paused := here.(waited := here.waited + PagePause);
      ThenAssoc(o, paused, IngestFrom(Runner(decide), Backoffs(s), s, p + 1, st.seen, |sub.grid|));
      o' := Then(o, paused);
      seen' := st.seen;
      done := false;
    }
  }

  /**
   * The page loop of `fetch_emails_for_label` from the key set `seen0`:
   * each page's rows are appended with the backoff, and the clock advances
   * by the backoff sleeps and the pauses between pages.
   */
  method IngestPages(sub: Worksheet, clock: Remote.Clock, decide: Message -> Verdict, s: Services, seen0: set<Key>)
    returns (o: Outcome)
    modifies sub, clock
    ensures o == IngestFrom(Runner(decide), Backoffs(s), s, 0, seen0, |old(sub.grid)|)
    ensures sub.grid == old(sub.grid) + o.rows
    ensures sub.writes == old(sub.writes) + o.ops
    ensures clock.now == old(clock.now) + o.waited
  {
    o := Nothing;
    var seen := seen0;
    var p := 0;
    var done := false;
    assert sub.grid + [] == sub.grid && sub.writes + [] == sub.writes;
    ghost var total := IngestFrom(Runner(decide), Backoffs(s), s, 0, seen0, |sub.grid|);
    NothingThen(total);
    while !done
      invariant p <= |s.pages|
      invariant sub.grid == old(sub.grid) + o.rows
      invariant sub.writes == old(sub.writes) + o.ops
      invariant clock.now == old(clock.now) + o.waited
      invariant !done ==> total == Then(o, IngestFrom(Runner(decide), Backoffs(s), s, p, seen, |sub.grid|))
      invariant done ==> total == o
      invariant !done ==> o.raised.None?
      decreases |s.pages| - p, !done
    {
      if p == |s.pages| || |s.pages[p].messages| == 0 {
        ThenNothing(o);
        done := true;
      } else {
        o, seen, done := Advance(sub, clock, decide, s, old(sub.grid), old(sub.writes), old(clock.now), o, p, seen);
        p := p + 1;
      }
    }
  }

  // ---------------------------------------------------------------------
  // What the page loop promises

  /** The loop reports as pulled exactly the rows it appended. */
  lemma {:induction false} IngestPulled(pageRun: PageRunner, appendAt: nat -> BackoffTrace, s: Services, p: nat, seen: set<Key>, base: nat)
    ensures IngestFrom(pageRun, appendAt, s, p, seen, base).pulled == |IngestFrom(pageRun, appendAt, s, p, seen, base).rows|
    decreases |s.pages| - p
  {
    if p < |s.pages| && |s.pages[p].messages| > 0 {
      var st := pageRun(seen, s.pages[p].messages);
      var here := PageOutcome(appendAt, p, st, base);
      IngestStep(pageRun, appendAt, s, p, seen, base, st, here, base + |here.rows|);
      PagePulled(appendAt, p, st, base);
      if !(here.raised.Some? || st.stopped || !s.pages[p].hasNext) {
        var rest := IngestFrom(pageRun, appendAt, s, p + 1, st.seen, base + |here.rows|);
        IngestPulled(pageRun, appendAt, s, p + 1, st.seen, base + |here.rows|);
        assert |here.rows + rest.rows| == |here.rows| + |rest.rows|;
      }
    }
  }

  /** A page reports as pulled exactly the rows it appended. */
  lemma PagePulled(appendAt: nat -> BackoffTrace, p: nat, st: PageState, base: nat)
    ensures PageOutcome(appendAt, p, st, base).pulled == |PageOutcome(appendAt, p, st, base).rows|
  {
  }

  /** `ks` holds no key twice and none of `seen`. */
  ghost predicate FreshKeys(ks: seq<Key>, seen: set<Key>) {
    (forall i, j :: 0 <= i < j < |ks| ==> ks[i] != ks[j]) && (forall i :: 0 <= i < |ks| ==> ks[i] !in seen)
  }

  lemma FreshKeysConcat(a: seq<Key>, b: seq<Key>, seen: set<Key>, seen': set<Key>)
    requires FreshKeys(a, seen) && FreshKeys(b, seen')
    requires seen <= seen' && forall i :: 0 <= i < |a| ==> a[i] in seen'
    ensures FreshKeys(a + b, seen)
  {
    var ks := a + b;
    var n := |a|;
    forall i | 0 <= i < |ks| ensures ks[i] !in seen {
      if i >= n {
        assert ks[i] == b[i - n];
      }
    }
    forall i, j | 0 <= i < j < |ks| ensures ks[i] != ks[j] {
      if j < n {
        assert ks[i] == a[i] && ks[j] == a[j];
      } else if i >= n {
        assert ks[i] == b[i - n] && ks[j] == b[j - n];
      } else {
        assert ks[i] == a[i] && ks[j] == b[j - n];
      }
    }
  }

  /** The keys of page state `st` are fresh for `seen`, and `st`'s key set holds `seen` and them. */
  ghost predicate Grows(seen: set<Key>, st: PageState) {
    FreshKeys(st.keys, seen) && seen <= st.seen && forall i :: 0 <= i < |st.keys| ==> st.keys[i] in st.seen
  }

  /** Every page processed by `pageRun` grows the key set it starts from. */
  ghost predicate KeepsFresh(pageRun: PageRunner) {
    forall seen, msgs :: Grows(seen, pageRun(seen, msgs))
  }

  lemma RunnerKeepsFresh(decide: Message -> Verdict)
    ensures KeepsFresh(Runner(decide))
  {
    forall seen, msgs ensures Grows(seen, Runner(decide)(seen, msgs)) {
      RunPageFresh(decide, seen, msgs);
    }
  }

  /** The keys the loop collects from page `p` on: the page's own keys, then those of the pages after it if it goes on. */
  lemma IngestListsStep(pageRun: PageRunner, appendAt: nat -> BackoffTrace, s: Services, p: nat, seen: set<Key>, base: nat,
                       st: PageState, next: nat, goesOn: bool)
    requires p < |s.pages| && |s.pages[p].messages| > 0
    requires st == pageRun(seen, s.pages[p].messages)
    requires next == base + |PageOutcome(appendAt, p, st, base).rows|
    requires goesOn == !(PageOutcome(appendAt, p, st, base).raised.Some? || st.stopped || !s.pages[p].hasNext)
    ensures IngestFrom(pageRun, appendAt, s, p, seen, base).keys ==
      if goesOn then st.keys + IngestFrom(pageRun, appendAt, s, p + 1, st.seen, next).keys else st.keys
    ensures IngestFrom(pageRun, appendAt, s, p, seen, base).rows ==
      var rows := PageOutcome(appendAt, p, st, base).rows;
      if goesOn then rows + IngestFrom(pageRun, appendAt, s, p + 1, st.seen, next).rows else rows
  {
    var here := PageOutcome(appendAt, p, st, base);
    IngestStep(pageRun, appendAt, s, p, seen, base, st, here, next);
  }

  /** The keys the loop adds to the key set are distinct, and none of them was in the set it started from. */
  lemma {:induction false} IngestKeys(pageRun: PageRunner, appendAt: nat -> BackoffTrace, s: Services, p: nat, seen: set<Key>, base: nat)
    requires KeepsFresh(pageRun)
    ensures FreshKeys(IngestFrom(pageRun, appendAt, s, p, seen, base).keys, seen)
    decreases |s.pages| - p
  {
    if p < |s.pages| && |s.pages[p].messages| > 0 {
      var st := pageRun(seen, s.pages[p].messages);
      var here := PageOutcome(appendAt, p, st, base);
      var next := base + |here.rows|;
      var goesOn := !(here.raised.Some? || st.stopped || !s.pages[p].hasNext);
      assert Grows(seen, st);
      IngestListsStep(pageRun, appendAt, s, p, seen, base, st, next, goesOn);
      if goesOn {
        IngestKeys(pageRun, appendAt, s, p + 1, st.seen, next);
        FreshKeysConcat(st.keys, IngestFrom(pageRun, appendAt, s, p + 1, st.seen, next).keys, seen, st.seen);
      }
    }
  }

  /** `row` is the candidate row of a message of the label whose key was not in `seen0`. */
  ghost predicate KeptRow(decide: Message -> Verdict, s: Services, seen0: set<Key>, row: seq<string>) {
    exists q, j :: 0 <= q < |s.pages| && 0 <= j < |s.pages[q].messages|
      && decide(s.pages[q].messages[j]).Candidate? && decide(s.pages[q].messages[j]).row == row
      && decide(s.pages[q].messages[j]).key !in seen0
  }

  /** Every row of `rows` is kept in the sense of `KeptRow`. */
  ghost predicate AllKept(decide: Message -> Verdict, s: Services, seen0: set<Key>, rows: Grid) {
    forall i :: 0 <= i < |rows| ==> KeptRow(decide, s, seen0, rows[i])
  }

  lemma PageRowsKept(decide: Message -> Verdict, s: Services, seen0: set<Key>, q: nat, st: PageState)
    requires q < |s.pages| && st == RunPage(decide, PageStart(seen0), s.pages[q].messages)
    ensures AllKept(decide, s, seen0, st.rows)
  {
    RunPageFresh(decide, seen0, s.pages[q].messages);
    RunPageRows(decide, seen0, s.pages[q].messages);
    forall i | 0 <= i < |st.rows| ensures KeptRow(decide, s, seen0, st.rows[i]) {
      var j :| 0 <= j < |s.pages[q].messages| && decide(s.pages[q].messages[j]) == Candidate(st.keys[i], st.rows[i]);
      assert st.keys[i] !in seen0;
    }
  }

  lemma KeptRowWider(decide: Message -> Verdict, s: Services, seen0: set<Key>, seen1: set<Key>, row: seq<string>)
    requires seen0 <= seen1 && KeptRow(decide, s, seen1, row)
    ensures KeptRow(decide, s, seen0, row)
  {
    var q, j :| 0 <= q < |s.pages| && 0 <= j < |s.pages[q].messages|
      && decide(s.pages[q].messages[j]).Candidate? && decide(s.pages[q].messages[j]).row == row
      && decide(s.pages[q].messages[j]).key !in seen1;
  }

  /** Every row of `rows` satisfies `ok` for the key set `seen`. */
  ghost predicate AllOk(ok: (set<Key>, seq<string>) -> bool, seen: set<Key>, rows: Grid) {
    forall i :: 0 <= i < |rows| ==> ok(seen, rows[i])
  }

  lemma AllOkConcat(ok: (set<Key>, seq<string>) -> bool, seen0: set<Key>, seen1: set<Key>, a: Grid, b: Grid)
    requires forall r :: ok(seen1, r) ==> ok(seen0, r)
    requires AllOk(ok, seen0, a) && AllOk(ok, seen1, b)
    ensures AllOk(ok, seen0, a + b)
  {
    var rs := a + b;
    forall i | 0 <= i < |rs| ensures ok(seen0, rs[i]) {
      if i >= |a| {
        assert rs[i] == b[i - |a|];
      } else {
        assert rs[i] == a[i];
      }
    }
  }

  /**
   * Every row the loop appends satisfies `ok` for the key set it started
   * from, when every page's rows satisfy it for the set that page starts
   * from and `ok` holds for a set whenever it holds for a larger one.
   */
  lemma {:induction false} IngestRows(pageRun: PageRunner, ok: (set<Key>, seq<string>) -> bool, appendAt: nat -> BackoffTrace,
                                      s: Services, p: nat, seen: set<Key>, base: nat)
    requires KeepsFresh(pageRun)
    requires forall q, seen' :: 0 <= q < |s.pages| ==> AllOk(ok, seen', pageRun(seen', s.pages[q].messages).rows)
    requires forall seen0, seen1, r :: seen0 <= seen1 && ok(seen1, r) ==> ok(seen0, r)
    ensures AllOk(ok, seen, IngestFrom(pageRun, appendAt, s, p, seen, base).rows)
    decreases |s.pages| - p
  {
    if p < |s.pages| && |s.pages[p].messages| > 0 {
      var st := pageRun(seen, s.pages[p].messages);
      var here := PageOutcome(appendAt, p, st, base);
      var next := base + |here.rows|;
      var goesOn := !(here.raised.Some? || st.stopped || !s.pages[p].hasNext);
      IngestListsStep(pageRun, appendAt, s, p, seen, base, st, next, goesOn);
      assert AllOk(ok, seen, here.rows) by {
        assert AllOk(ok, seen, st.rows);
        assert here.rows == [] || here.rows == st.rows;
      }
      if goesOn {
        var rest := IngestFrom(pageRun, appendAt, s, p + 1, st.seen, next);
        IngestRows(pageRun, ok, appendAt, s, p + 1, st.seen, next);
        assert Grows(seen, st);
        AllOkConcat(ok, seen, st.seen, here.rows, rest.rows);
      }
    }
  }

  /**
   * The stop rule: a page holding a message at or before the boundary is the
   * last page the loop reads, and in historical mode no message stops it.
   */
  lemma StopEndsPaging(run: Run, appendAt: nat -> BackoffTrace, p: nat, seen: set<Key>, base: nat)
    requires p < |run.services.pages|
    requires exists j :: 0 <= j < |run.services.pages[p].messages| && Decide(run, run.services.pages[p].messages[j]) == Stop
    ensures !run.fetchAll
    ensures var s := run.services;
      IngestFrom(Runner(Decider(run)), appendAt, s, p, seen, base) == PageOutcome(appendAt, p, RunPage(Decider(run), PageStart(seen), s.pages[p].messages), base)
  {
    var s := run.services;
    var decide := Decider(run);
    var msgs := s.pages[p].messages;
    var j :| 0 <= j < |msgs| && Decide(run, msgs[j]) == Stop;
    DecideSpec(run, msgs[j]);
    assert decide(msgs[j]) == Stop;
    RunPageStop(decide, seen, msgs);
    var st := RunPage(decide, PageStart(seen), msgs);
    var here := PageOutcome(appendAt, p, st, base);
    IngestStep(Runner(decide), appendAt, s, p, seen, base, st, here, base + |here.rows|);
  }

  /**
   * The page loop of a run reports as pulled exactly the rows it appended;
   * the keys it adds are distinct and new to the key set it started from;
   * and every row it appends is the candidate row of a message of the label
   * whose key was not in that set.
   */
  lemma IngestPromises(decide: Message -> Verdict, s: Services, seen: set<Key>, base: nat)
    ensures var o := IngestFrom(Runner(decide), Backoffs(s), s, 0, seen, base);
      o.pulled == |o.rows| && FreshKeys(o.keys, seen) && AllKept(decide, s, seen, o.rows)
  {
    var pageRun := Runner(decide);
    RunnerKeepsFresh(decide);
    IngestPulled(pageRun, Backoffs(s), s, 0, seen, base);
    IngestKeys(pageRun, Backoffs(s), s, 0, seen, base);
    var ok := (seen': set<Key>, r: seq<string>) => KeptRow(decide, s, seen', r);
    forall q, seen' | 0 <= q < |s.pages| ensures AllOk(ok, seen', pageRun(seen', s.pages[q].messages).rows) {
      PageRowsKept(decide, s, seen', q, pageRun(seen', s.pages[q].messages));
    }
    forall seen0, seen1, r | seen0 <= seen1 && ok(seen1, r) ensures ok(seen0, r) {
      KeptRowWider(decide, s, seen0, seen1, r);
    }
    IngestRows(pageRun, ok, Backoffs(s), s, 0, seen, base);
  }

  // ---------------------------------------------------------------------
  // `fetch_emails_for_label`

  /** `os.getenv(label_id_env) or default_label_id`, the default chosen by the game name. */
  function LabelId(fromEnv: string, game: string, riddlerLabel: string, scramblerLabel: string): string {
    if fromEnv != "" then fromEnv
    else if Lower(game) == "riddler" then riddlerLabel
    else scramblerLabel
  }

  /** How `fetch_emails_for_label` ended: no label id, or the page loop ran with this outcome. */
  datatype FetchResult = NoLabel | Fetched(outcome: Outcome)

  /** The run the loop is fixed to once the headers, the key set and the boundary are read from the sheet `g`. */
  function RunFor(s: Services, game: string, headers: seq<string>, fetchAll: bool, g: Grid): Run {
    var latest := LatestStamp(g, headers, game, s.parse);
    Run(s, game, headers, fetchAll, Boundary(if latest.Some? then Some(latest.value.at) else None, HardcodedCutoff(game)))
  }

  /**
   * The reads before the page loop: the headers repaired in row 1, the keys
   * already on the sheet, and the run with its only-new boundary.
   */
  method PrepareRun(sub: Worksheet, s: Services, game: string, fetchAll: bool) returns (run: Run, keys: set<Key>)
    modifies sub
    ensures HasKeyColumns(RepairedHeaders(RowValues(old(sub.grid), 1)))
    ensures sub.grid == ApplyOpt(old(sub.grid), HeaderWrite(old(sub.grid)))
    ensures sub.writes == old(sub.writes) + OptOps(HeaderWrite(old(sub.grid)))
    ensures run == RunFor(s, game, RepairedHeaders(RowValues(old(sub.grid), 1)), fetchAll, sub.grid)
    ensures keys == ExistingKeys(DataRows(sub.grid), RepairedHeaders(RowValues(old(sub.grid), 1)))
  {
    var headers := EnsureSubmissionHeaders(sub);
    HeaderWriteOps(old(sub.grid), old(sub.writes), sub.grid, sub.writes);
    RepairSpec(RowValues(old(sub.grid), 1));
    assert "Game" in NeededHeaders && "Timestamp" in NeededHeaders && "Email" in NeededHeaders && "Answer" in NeededHeaders;
    keys := LoadExistingKeys(sub, headers);
    var latest := MaxTimestampForGame(sub, headers, game, s.parse);
    var boundary := Boundary(if latest.Some? then Some(latest.value.at) else None, HardcodedCutoff(game));
    run := Run(s, game, headers, fetchAll, boundary);
  }

  lemma HeaderWriteOps(g: Grid, w: seq<WriteOp>, g': Grid, w': seq<WriteOp>)
    requires AfterOptionalWrite(g, w, HeaderWrite(g), g', w')
    ensures g' == ApplyOpt(g, HeaderWrite(g)) && w' == w + OptOps(HeaderWrite(g))
  {
    if HeaderWrite(g).None? {
      assert w + [] == w;
    }
  }

  /**
   * `fetch_emails_for_label`: without a label id nothing is touched;
   * otherwise the headers are repaired, the existing keys and the latest
   * timestamp of the game are read from the sheet as it then is, and the
   * page loop appends its rows below it.
   */
  method FetchEmailsForLabel(sub: Worksheet, clock: Remote.Clock, s: Services, fromEnv: string,
                             riddlerLabel: string, scramblerLabel: string, game: string, fetchAll: bool)
    returns (r: FetchResult)
    modifies sub, clock
    ensures LabelId(fromEnv, game, riddlerLabel, scramblerLabel) == "" ==>
      r == NoLabel && sub.grid == old(sub.grid) && sub.writes == old(sub.writes) && clock.now == old(clock.now)
    ensures LabelId(fromEnv, game, riddlerLabel, scramblerLabel) != "" ==>
      var headers := RepairedHeaders(RowValues(old(sub.grid), 1));
      var g1 := ApplyOpt(old(sub.grid), HeaderWrite(old(sub.grid)));
      var run := RunFor(s, game, headers, fetchAll, g1);
      HasKeyColumns(headers)
      && r == Fetched(IngestFrom(Runner(Decider(run)), Backoffs(s), s, 0, ExistingKeys(DataRows(g1), headers), |g1|))
      && sub.grid == g1 + r.outcome.rows
      && sub.writes == old(sub.writes) + OptOps(HeaderWrite(old(sub.grid))) + r.outcome.ops
      && clock.now == old(clock.now) + r.outcome.waited
  {
    var labelId := LabelId(fromEnv, game, riddlerLabel, scramblerLabel);
    if labelId == "" {
      return NoLabel;
    }
    var run, keys := PrepareRun(sub, s, game, fetchAll);
    var o := IngestPages(sub, clock, Decider(run), s, keys);
    r := Fetched(o);
  }
}
