/** The driver of the login stress run: a fixed number of slots, each of which makes a fixed number of requests one
    after the other, every one through an HTTP client of its own. The events of all clients arrive interleaved. */
module SlotDriver {
  import opened Options

  // An object of the framework by its number, with 0 for the null pointer.
  type Client = nat
  const NULL: Client := 0
  type Source = c: Client | c != NULL witness 1

  datatype Phase = Idle | Connecting | Posted
  datatype Slot = Slot(client: Client, phase: Phase, iteration: nat, ok: nat, err: nat)
  const UNUSED := Slot(NULL, Idle, 0, 0, 0)

  // The statistics of one server, all zero if it gives none.
  datatype Stats = Stats(requests: int, calls: int, ok: int, errors: int, bffErrors: int, dropped: int, timeouts: int, full: int)
  const NO_STATS := Stats(0, 0, 0, 0, 0, 0, 0, 0)

  // The servers that answer when asked for their statistics; none at all if their service is not found.
  type Servers = Option<seq<Stats>>

  // An answer is good if it has status 200 and its body says success. The servers count only with the last answer: they
  // are as they are when the driver then asks them.
  datatype Event =
    | Timer
    | Opened(src: Source)
    | Message(src: Source, good: bool, servers: Servers)
    | Close(src: Source)
    | Stopped(src: Source)

  datatype Request = Request(client: Client, slot: nat, iteration: nat)
  datatype Report =
    | LateTimer
    | OpenFromUnknown(src: Source) | OpenOutOfTurn(slot: nat)
    | MessageFromUnknown(src: Source) | BadAnswer(slot: nat, iteration: nat)
    | WrongOk(slot: nat, ok: nat) | SomeErr(slot: nat, err: nat) | WrongTotals(ok: nat, err: nat)
    | NoServers | WrongServers(count: nat) | WrongStats(sum: Stats)

  // The private data, and what the driver has done so far: the requests sent, the errors logged, the clients whose
  // answers were counted, and how many times the timer for the end was set. The clients below `next` exist.
  datatype Driver = Driver(slots: seq<Slot>, slotsDone: nat, launched: bool, dying: bool, passed: bool, mustDie: bool,
                           next: Client,
                           requests: seq<Request>, reports: seq<Report>, answered: seq<Client>, armings: nat)

  function Start(n: nat): Driver {
    Driver(seq(n, _ => UNUSED), 0, false, false, false, false, 1, [], [], [], 0)
  }

  // ---------- counting over the slots ----------

  function SumOk(s: seq<Slot>): nat { if s == [] then 0 else SumOk(s[..|s| - 1]) + s[|s| - 1].ok }

  function SumErr(s: seq<Slot>): nat { if s == [] then 0 else SumErr(s[..|s| - 1]) + s[|s| - 1].err }

  function Finished(s: seq<Slot>, k: nat): nat {
    if s == [] then 0 else Finished(s[..|s| - 1], k) + if s[|s| - 1].iteration == k then 1 else 0
  }

  ghost function Total(d: Driver): nat { SumOk(d.slots) + SumErr(d.slots) }

  // ---------- the steps ----------

  function IndexOf(s: seq<Slot>, src: Client): (i: int)
    ensures -1 <= i < |s|
    ensures i >= 0 ==> s[i].client == src
    ensures i < 0 ==> forall j :: 0 <= j < |s| ==> s[j].client != src
    ensures forall j :: 0 <= j < i ==> s[j].client != src
  {
    if s == [] then -1
    else
      var i := IndexOf(s[..|s| - 1], src);
      if i >= 0 then i else if s[|s| - 1].client == src then |s| - 1 else -1
  }

  function OpenedSlot(d: Driver, i: nat): Driver
    requires i < |d.slots|
  {
    d.(slots := d.slots[i := d.slots[i].(client := d.next, phase := Connecting)], next := d.next + 1)
  }

  function LaunchedTo(d: Driver, i: nat): (r: Driver)
    requires i <= |d.slots|
    ensures |r.slots| == |d.slots|
  {
    if i == 0 then d.(launched := true)
    else
      var r := LaunchedTo(d, i - 1);
      OpenedSlot(r.(slots := r.slots[i - 1 := r.slots[i - 1].(iteration := 0)]), i - 1)
  }

  function SlotReports(s: seq<Slot>, k: nat): seq<Report> {
    if s == [] then []
    else
      var i := |s| - 1;
      SlotReports(s[..i], k)
      + (if s[i].ok != k then [WrongOk(i, s[i].ok)] else [])
      + (if s[i].err != 0 then [SomeErr(i, s[i].err)] else [])
  }

  function Plus(a: Stats, b: Stats): Stats {
    Stats(a.requests + b.requests, a.calls + b.calls, a.ok + b.ok, a.errors + b.errors,
          a.bffErrors + b.bffErrors, a.dropped + b.dropped, a.timeouts + b.timeouts, a.full + b.full)
  }

  function SumStats(s: seq<Stats>): Stats { if s == [] then NO_STATS else Plus(SumStats(s[..|s| - 1]), s[|s| - 1]) }

  // One server a slot, and as many requests, calls and good calls as answers are expected, and no other count.
  predicate ServersOk(servers: Servers, n: nat, k: nat) {
    servers.Some? && |servers.value| == n && SumStats(servers.value) == Stats(n * k, n * k, n * k, 0, 0, 0, 0, 0)
  }

  function ServerReports(servers: Servers, n: nat, k: nat): (r: seq<Report>)
    ensures r == [] <==> ServersOk(servers, n, k)
  {
    match servers
    case None => [NoServers]
    case Some(s) =>
      (if |s| != n then [WrongServers(|s|)] else [])
      + if SumStats(s) != Stats(n * k, n * k, n * k, 0, 0, 0, 0, 0) then [WrongStats(SumStats(s))] else []
  }

  function Verdict(s: seq<Slot>, k: nat, servers: Servers): seq<Report> {
    SlotReports(s, k)
    + (if SumOk(s) != |s| * k || SumErr(s) != 0 then [WrongTotals(SumOk(s), SumErr(s))] else [])
    + ServerReports(servers, |s|, k)
  }

  function Verified(d: Driver, k: nat, servers: Servers): Driver {
    if d.slotsDone < |d.slots| then d
    else d.(reports := d.reports + Verdict(d.slots, k, servers), passed := true, dying := true, armings := d.armings + 1)
  }

  function Counted(d: Driver, i: nat, good: bool): (r: Driver)
    requires i < |d.slots|
    ensures |r.slots| == |d.slots|
  {
    var s := d.slots[i];
    d.(slots := d.slots[i := if good then s.(ok := s.ok + 1) else s.(err := s.err + 1)],
       reports := d.reports + (if good then [] else [BadAnswer(i, s.iteration)]),
       answered := d.answered + [s.client])
  }

  function Closed(d: Driver, i: nat, k: nat, servers: Servers): Driver
    requires i < |d.slots|
  {
    var s := d.slots[i].(client := NULL, iteration := d.slots[i].iteration + 1);
    if s.iteration < k then OpenedSlot(d.(slots := d.slots[i := s]), i)
    else Verified(d.(slots := d.slots[i := s.(phase := Idle)], slotsDone := d.slotsDone + 1), k, servers)
  }

  // The slot with its request sent.
  function Sending(d: Driver, i: nat): Driver
    requires i < |d.slots|
  {
    d.(slots := d.slots[i := d.slots[i].(phase := Posted)],
       requests := d.requests + [Request(d.slots[i].client, i, d.slots[i].iteration)])
  }

  function Step(d: Driver, e: Event, k: nat): Driver {
    match e
    case Timer =>
      if d.dying then d.(mustDie := true)
      else if !d.launched then LaunchedTo(d, |d.slots|)
      else d.(reports := d.reports + [LateTimer])
    case Opened(src) =>
      var i := IndexOf(d.slots, src);
      if i < 0 then d.(reports := d.reports + [OpenFromUnknown(src)])
      else if d.slots[i].phase != Connecting then d.(reports := d.reports + [OpenOutOfTurn(i)])
      else Sending(d, i)
    case Message(src, good, servers) =>
      var i := IndexOf(d.slots, src);
      if i < 0 then d.(reports := d.reports + [MessageFromUnknown(src)])
      else Closed(Counted(d, i, good), i, k, servers)
    case _ => d
  }

  function Run(d: Driver, events: seq<Event>, k: nat): Driver
    decreases |events|
  {
    if events == [] then d else Run(Step(d, events[0], k), events[1..], k)
  }

  // ---------- what every run keeps ----------

  // A slot between two events: as many answers counted as iterations finished, and a client while there are more.
  predicate SlotOk(s: Slot, k: nat, next: Client) {
    && s.ok + s.err == s.iteration <= k
    && (s.client != NULL <==> s.iteration < k)
    && (s.phase == Idle <==> s.client == NULL)
    && s.client < next
  }

  ghost predicate SlotsOk(d: Driver, k: nat) {
    forall i :: 0 <= i < |d.slots| ==> if d.launched then SlotOk(d.slots[i], k, d.next) else d.slots[i] == UNUSED
  }

  // No two slots have the same client.
  ghost predicate Apart(s: seq<Slot>) {
    forall i, j :: 0 <= i < j < |s| && s[i].client != NULL ==> s[i].client != s[j].client
  }

  // No client's answer counts twice, and a client is dropped once its answer is counted.
  ghost predicate AnsweredOnce(d: Driver) {
    && (forall a, b :: 0 <= a < b < |d.answered| ==> d.answered[a] != d.answered[b])
    && (forall c :: c in d.answered ==> NULL < c < d.next)
    && (forall i :: 0 <= i < |d.slots| ==> d.slots[i].client !in d.answered)
  }

  // A request belongs to a finished iteration of its slot, or to the one that is now waiting for its answer.
  predicate RequestOk(r: Request, s: seq<Slot>) {
    && r.slot < |s|
    && (r.iteration < s[r.slot].iteration || (r.iteration == s[r.slot].iteration && s[r.slot].phase == Posted))
  }

  ghost predicate RequestsOk(d: Driver) {
    && (forall a :: 0 <= a < |d.requests| ==> RequestOk(d.requests[a], d.slots))
    && (forall a, b :: 0 <= a < b < |d.requests| ==>
          d.requests[a].slot != d.requests[b].slot || d.requests[a].iteration != d.requests[b].iteration)
    && (forall i :: 0 <= i < |d.slots| && d.slots[i].phase == Posted ==> Requested(d, i))
  }

  // The slot's present iteration has been asked for, through the client that it now has.
  ghost predicate Requested(d: Driver, i: nat)
    requires i < |d.slots|
  {
    exists a :: 0 <= a < |d.requests| && d.requests[a] == Request(d.slots[i].client, i, d.slots[i].iteration)
  }

  ghost predicate CountsOk(d: Driver, k: nat) {
    && |d.answered| == Total(d)
    && d.slotsDone == Finished(d.slots, k)
    && d.armings == (if d.dying then 1 else 0)
    && d.passed == d.dying
    && d.dying == (d.slotsDone == |d.slots|)
  }

  ghost predicate Inv(d: Driver, k: nat) {
    && d.slots != [] && d.next > 0
    && SlotsOk(d, k) && Apart(d.slots) && AnsweredOnce(d) && RequestsOk(d) && CountsOk(d, k)
  }

  // ---------- sums ----------

  lemma {:induction false} UpdateSums(s: seq<Slot>, i: nat, t: Slot, k: nat)
    requires i < |s|
    ensures SumOk(s[i := t]) == SumOk(s) + t.ok - s[i].ok
    ensures SumErr(s[i := t]) == SumErr(s) + t.err - s[i].err
    ensures Finished(s[i := t], k) == Finished(s, k) + (if t.iteration == k then 1 else 0) - (if s[i].iteration == k then 1 else 0)
  {
    var n := |s| - 1;
    if i == n {
      assert s[i := t][..n] == s[..n];
    } else {
      assert s[i := t][..n] == s[..n][i := t];
      UpdateSums(s[..n], i, t, k);
    }
  }

  lemma {:induction false} UnusedSums(s: seq<Slot>, k: nat)
    requires forall i :: 0 <= i < |s| ==> s[i].iteration == 0 && s[i].ok == 0 && s[i].err == 0
    requires k > 0
    ensures SumOk(s) == SumErr(s) == Finished(s, k) == 0
  {
    if s != [] {
      UnusedSums(s[..|s| - 1], k);
    }
  }

  /** All slots are finished exactly when all answers are in: there are never more than slots times iterations. */
  lemma {:induction false} AllFinished(s: seq<Slot>, k: nat)
    requires forall i :: 0 <= i < |s| ==> s[i].ok + s[i].err == s[i].iteration <= k
    ensures SumOk(s) + SumErr(s) <= |s| * k
    ensures Finished(s, k) <= |s|
    ensures Finished(s, k) == |s| <==> SumOk(s) + SumErr(s) == |s| * k
    ensures Finished(s, k) == |s| <==> forall i :: 0 <= i < |s| ==> s[i].iteration == k
  {
    hide SumOk, SumErr, Finished;
    if s == [] {
      NoneFinished(k);
    } else {
      var t, last := s[..|s| - 1], s[|s| - 1];
      AllFinished(t, k);
      LastSlot(s, k);
      OneMore(|t|, k);
      assert forall i :: 0 <= i < |t| ==> t[i] == s[i];
    }
  }

  lemma NoneFinished(k: nat)
    ensures SumOk([]) == SumErr([]) == Finished([], k) == 0 * k == 0
  {
  }

  lemma LastSlot(s: seq<Slot>, k: nat)
    requires s != []
    ensures var t, last := s[..|s| - 1], s[|s| - 1];
            && SumOk(s) == SumOk(t) + last.ok && SumErr(s) == SumErr(t) + last.err
            && Finished(s, k) == Finished(t, k) + if last.iteration == k then 1 else 0
  {
  }

  lemma OneMore(n: nat, k: nat)
    ensures (n + 1) * k == n * k + k
  {
  }

  // ---------- launching ----------

  // The slots up to i have a client each, in order of creation.
  ghost predicate LaunchedUpTo(s: seq<Slot>, i: nat, next: Client) {
    forall j :: 0 <= j < |s| ==> s[j] == if j < i then Slot(next + j, Connecting, 0, 0, 0) else UNUSED
  }

  lemma {:induction false} LaunchIs(d: Driver, i: nat)
    requires i <= |d.slots| && forall j :: 0 <= j < |d.slots| ==> d.slots[j] == UNUSED
    ensures var r := LaunchedTo(d, i);
            && LaunchedUpTo(r.slots, i, d.next)
            && r == d.(slots := r.slots, launched := true, next := d.next + i)
  {
    if i > 0 {
      LaunchIs(d, i - 1);
    }
  }

  lemma LaunchKeeps(d: Driver, k: nat)
    requires Inv(d, k) && !d.launched && k > 0
    ensures Inv(LaunchedTo(d, |d.slots|), k)
  {
    hide LaunchedTo, SumOk, SumErr, Finished;
    LaunchIs(d, |d.slots|);
    UnusedSums(d.slots, k);
    UnusedSums(LaunchedTo(d, |d.slots|).slots, k);
  }

  // ---------- an open connection ----------

  lemma OpenKeeps(d: Driver, src: Source, k: nat)
    requires Inv(d, k)
    ensures Inv(Step(d, Opened(src), k), k)
  {
    hide SumOk, SumErr, Finished, IndexOf, Sending;
    var i := IndexOf(d.slots, src);
    if i >= 0 && d.slots[i].phase == Connecting {
      PostedKeeps(d, i, k);
    }
  }

  lemma PostedKeeps(d: Driver, i: nat, k: nat)
    requires Inv(d, k) && i < |d.slots| && d.slots[i].phase == Connecting
    ensures Inv(Sending(d, i), k)
  {
    hide SumOk, SumErr, Finished, RequestsOk, AnsweredOnce;
    PostedKeepsRequests(d, i);
    PostedKeepsAnswers(d, i);
    UpdateSums(d.slots, i, d.slots[i].(phase := Posted), k);
  }

  lemma PostedKeepsRequests(d: Driver, i: nat)
    requires RequestsOk(d) && i < |d.slots| && d.slots[i].phase == Connecting
    ensures RequestsOk(Sending(d, i))
  {
    var r := Sending(d, i);
    assert r.requests[|d.requests|] == Request(r.slots[i].client, i, r.slots[i].iteration);
    forall j | 0 <= j < |r.slots| && r.slots[j].phase == Posted ensures Requested(r, j) {
      if j != i {
        assert Requested(d, j);
        var a :| 0 <= a < |d.requests| && d.requests[a] == Request(d.slots[j].client, j, d.slots[j].iteration);
        assert r.requests[a] == Request(r.slots[j].client, j, r.slots[j].iteration);
      }
    }
  }

  lemma PostedKeepsAnswers(d: Driver, i: nat)
    requires AnsweredOnce(d) && i < |d.slots|
    ensures AnsweredOnce(Sending(d, i))
  {}

  // ---------- an answer ----------

  // What an answer leaves of its slot: the next client, or none after the last iteration.
  function AfterAnswer(s: Slot, good: bool, k: nat, next: Client): Slot {
    Slot(if s.iteration + 1 < k then next else NULL, if s.iteration + 1 < k then Connecting else Idle, s.iteration + 1,
         if good then s.ok + 1 else s.ok, if good then s.err else s.err + 1)
  }

  // An answer for slot i is the last one.
  predicate Ends(d: Driver, i: nat, k: nat)
    requires i < |d.slots|
  {
    d.slots[i].iteration + 1 >= k && d.slotsDone + 1 >= |d.slots|
  }

  lemma AnswerIs(d: Driver, i: nat, good: bool, k: nat, servers: Servers)
    requires i < |d.slots|
    ensures var r := Closed(Counted(d, i, good), i, k, servers);
            var more := d.slots[i].iteration + 1 < k;
            var ends := Ends(d, i, k);
            && r.slots == d.slots[i := AfterAnswer(d.slots[i], good, k, d.next)]
            && r.next == (if more then d.next + 1 else d.next)
            && r.slotsDone == (if more then d.slotsDone else d.slotsDone + 1)
            && r.answered == d.answered + [d.slots[i].client]
            && r.requests == d.requests && r.launched == d.launched
            && r.dying == (d.dying || ends) && r.passed == (d.passed || ends)
            && r.armings == (if ends then d.armings + 1 else d.armings)
            && r.reports == d.reports + (if good then [] else [BadAnswer(i, d.slots[i].iteration)])
                            + (if ends then Verdict(r.slots, k, servers) else [])
  {
    hide Verdict, SumOk, SumErr, Finished;
    var s := d.slots[i];
    var c := Counted(d, i, good);
    assert c.slots[i := AfterAnswer(s, good, k, d.next)] == d.slots[i := AfterAnswer(s, good, k, d.next)];
    assert s.iteration + 1 < k ==>
        c.slots[i := c.slots[i].(client := NULL, iteration := s.iteration + 1)][i := AfterAnswer(s, good, k, d.next)]
        == c.slots[i := AfterAnswer(s, good, k, d.next)];
  }

  lemma AnswerKeepsSlots(d: Driver, i: nat, good: bool, k: nat, servers: Servers)
    requires Inv(d, k) && i < |d.slots| && d.slots[i].client != NULL
    ensures SlotsOk(Closed(Counted(d, i, good), i, k, servers), k)
  {
    hide Closed, Counted, SumOk, SumErr, Finished, Verdict, Apart, AnsweredOnce, RequestsOk, CountsOk;
    AnswerIs(d, i, good, k, servers);
    assert d.launched;
    assert SlotOk(d.slots[i], k, d.next);
  }

  lemma AnswerKeepsApart(d: Driver, i: nat, good: bool, k: nat, servers: Servers)
    requires Inv(d, k) && i < |d.slots| && d.slots[i].client != NULL
    ensures Apart(Closed(Counted(d, i, good), i, k, servers).slots)
  {
    hide Closed, Counted, SumOk, SumErr, Finished, Verdict, AnsweredOnce, RequestsOk, CountsOk;
    AnswerIs(d, i, good, k, servers);
    assert d.launched;
  }

  lemma AnswerKeepsAnswered(d: Driver, i: nat, good: bool, k: nat, servers: Servers)
    requires Inv(d, k) && i < |d.slots| && d.slots[i].client != NULL
    ensures AnsweredOnce(Closed(Counted(d, i, good), i, k, servers))
  {
    hide Closed, Counted, SumOk, SumErr, Finished, Verdict, RequestsOk, CountsOk;
    AnswerIs(d, i, good, k, servers);
    assert d.launched;
    assert SlotOk(d.slots[i], k, d.next);
  }

  lemma AnswerKeepsRequests(d: Driver, i: nat, good: bool, k: nat, servers: Servers)
    requires Inv(d, k) && i < |d.slots|
    ensures RequestsOk(Closed(Counted(d, i, good), i, k, servers))
  {
    hide Closed, Counted, SumOk, SumErr, Finished, Verdict;
    AnswerIs(d, i, good, k, servers);
    var r := Closed(Counted(d, i, good), i, k, servers);
    forall a | 0 <= a < |r.requests| ensures RequestOk(r.requests[a], r.slots) {
      assert RequestOk(d.requests[a], d.slots);
    }
    forall j | 0 <= j < |r.slots| && r.slots[j].phase == Posted ensures Requested(r, j) {
      assert j != i && Requested(d, j);
    }
  }

  lemma AnswerKeepsCounts(d: Driver, i: nat, good: bool, k: nat, servers: Servers)
    requires Inv(d, k) && i < |d.slots| && d.slots[i].client != NULL
    ensures CountsOk(Closed(Counted(d, i, good), i, k, servers), k)
  {
    hide Closed, Counted, SumOk, SumErr, Finished, Verdict, Apart, AnsweredOnce, RequestsOk;
    AnswerIs(d, i, good, k, servers);
    assert d.launched;
    assert SlotOk(d.slots[i], k, d.next);
    UpdateSums(d.slots, i, AfterAnswer(d.slots[i], good, k, d.next), k);
    AllFinished(d.slots, k);
    AllFinished(d.slots[i := AfterAnswer(d.slots[i], good, k, d.next)], k);
  }

  // ---------- every run ----------

  lemma StartKeeps(n: nat, k: nat)
    requires n > 0 && k > 0
    ensures Inv(Start(n), k)
  {
    UnusedSums(Start(n).slots, k);
  }

  lemma StepKeeps(d: Driver, e: Event, k: nat)
    requires Inv(d, k) && k > 0
    ensures Inv(Step(d, e, k), k)
  {
    hide SumOk, SumErr, Finished, IndexOf, LaunchedTo, Closed, Counted, SlotsOk, Apart, AnsweredOnce, RequestsOk, Verdict;
    match e
    case Timer =>
      if !d.dying && !d.launched {
        LaunchKeeps(d, k);
      } else {
        SameSlots(d, Step(d, e, k), k);
      }
    case Opened(src) => OpenKeeps(d, src, k);
    case Message(src, good, servers) =>
      var i := IndexOf(d.slots, src);
      if i >= 0 {
        AnswerIs(d, i, good, k, servers);
        AnswerKeepsSlots(d, i, good, k, servers);
        AnswerKeepsApart(d, i, good, k, servers);
        AnswerKeepsAnswered(d, i, good, k, servers);
        AnswerKeepsRequests(d, i, good, k, servers);
        AnswerKeepsCounts(d, i, good, k, servers);
      } else {
        SameSlots(d, Step(d, e, k), k);
      }
    case _ =>
  }

  lemma SameSlots(d: Driver, r: Driver, k: nat)
    requires Inv(d, k) && r == d.(reports := r.reports, mustDie := r.mustDie)
    ensures Inv(r, k)
  {
    hide SumOk, SumErr, Finished;
  }

  lemma {:induction false} RunKeeps(d: Driver, events: seq<Event>, k: nat)
    requires Inv(d, k) && k > 0
    ensures var r := Run(d, events, k); Inv(r, k) && |r.slots| == |d.slots|
    decreases |events|
  {
    hide Inv, Step;
    if events != [] {
      StepKeeps(d, events[0], k);
      StepKeepsSlotCount(d, events[0], k);
      RunKeeps(Step(d, events[0], k), events[1..], k);
    }
  }

  /** Whatever the order in which the events arrive, from the start on: every launched slot has counted as many
      answers as it has finished iterations, has a client of its own exactly until it has finished them all, and
      asks for each iteration at most once; no client's answer counts twice; and slots_done is the number of slots
      that have finished. */
  lemma EveryRun(n: nat, k: nat, events: seq<Event>)
    requires n > 0 && k > 0
    ensures var d := Run(Start(n), events, k);
            && |d.slots| == n
            && (d.launched ==> forall i :: 0 <= i < n ==> SlotOk(d.slots[i], k, d.next))
            && Apart(d.slots) && AnsweredOnce(d) && RequestsOk(d)
            && d.slotsDone == Finished(d.slots, k)
            && |d.answered| == Total(d) <= n * k
            && d.armings == (if Total(d) == n * k then 1 else 0)
  {
    hide SumOk, SumErr, Finished, Step;
    StartKeeps(n, k);
    RunKeeps(Start(n), events, k);
    TotalBound(Run(Start(n), events, k), k);
  }

  /** After every run, a slot that has posted and waits for its answer has sent exactly one request for its present iteration,
      through the client that it now has. */
  lemma PostedHasRequest(n: nat, k: nat, events: seq<Event>, i: nat)
    requires n > 0 && k > 0 && i < n
    ensures var d := Run(Start(n), events, k);
            && |d.slots| == n
            && (d.slots[i].phase == Posted ==>
                  exists a :: 0 <= a < |d.requests| && d.requests[a] == Request(d.slots[i].client, i, d.slots[i].iteration)
                    && forall b :: 0 <= b < |d.requests| && d.requests[b].slot == i && d.requests[b].iteration == d.slots[i].iteration
                         ==> b == a)
  {
    hide SumOk, SumErr, Finished, Step;
    StartKeeps(n, k);
    RunKeeps(Start(n), events, k);
    var d := Run(Start(n), events, k);
    assert d.slots[i].phase == Posted ==> Requested(d, i);
  }

  /** A connection of a client that is connecting sends the request of its slot's iteration, through that client and after all
      others; nothing else sends anything. */
  lemma OpenedSends(d: Driver, e: Event, k: nat)
    requires Inv(d, k) && k > 0
    ensures var r := Step(d, e, k);
            if e.Opened? && exists i :: 0 <= i < |d.slots| && d.slots[i].client == e.src && d.slots[i].phase == Connecting then
              exists i :: 0 <= i < |d.slots| && d.slots[i].client == e.src && d.slots[i].phase == Connecting
                && r.requests == d.requests + [Request(e.src, i, d.slots[i].iteration)]
                && r.slots[i].phase == Posted
            else r.requests == d.requests
  {
    hide SumOk, SumErr, Finished, IndexOf, LaunchedTo, Closed, Counted, Verdict, AnsweredOnce, RequestsOk, CountsOk, SlotsOk;
    StepKeepsSlotCount(d, e, k);
    match e
    case Timer => LaunchSends(d, |d.slots|);
    case Opened(src) => var i := IndexOf(d.slots, src);
    case Message(src, good, servers) =>
      var i := IndexOf(d.slots, src);
      if i >= 0 {
        AnswerIs(d, i, good, k, servers);
      }
    case _ =>
  }

  lemma {:induction false} LaunchSends(d: Driver, i: nat)
    requires i <= |d.slots|
    ensures LaunchedTo(d, i).requests == d.requests
  {
    if i > 0 {
      LaunchSends(d, i - 1);
    }
  }

  lemma StepKeepsSlotCount(d: Driver, e: Event, k: nat)
    ensures |Step(d, e, k).slots| == |d.slots|
  {
    hide SumOk, SumErr, Finished, Verdict, LaunchedTo, IndexOf, Counted, Closed;
    if e.Message? {
      var i := IndexOf(d.slots, e.src);
      if i >= 0 {
        AnswerIs(d, i, e.good, k, e.servers);
      }
    }
  }

  /** The end is armed at most once, and at exactly the answer that brings the total to slots times iterations. */
  lemma ArmedAtTheLastAnswer(d: Driver, e: Event, k: nat)
    requires Inv(d, k) && k > 0
    ensures var r := Step(d, e, k);
            && (r.armings != d.armings <==> Total(d) < Total(r) == |d.slots| * k)
            && (r.armings != d.armings ==> e.Message? && r.armings == 1 && Total(d) == |d.slots| * k - 1)
            && Total(d) <= Total(r) <= Total(d) + 1
            && (d.dying <==> Total(d) == |d.slots| * k)
  {
    hide SumOk, SumErr, Finished, IndexOf, LaunchedTo, Closed, Counted, Verdict, Apart, RequestsOk, AnsweredOnce, SlotsOk;
    StepKeeps(d, e, k);
    StepKeepsSlotCount(d, e, k);
    TotalBound(d, k);
    TotalBound(Step(d, e, k), k);
    StepTotal(d, e, k);
  }

  lemma TotalBound(d: Driver, k: nat)
    requires Inv(d, k) && k > 0
    ensures Total(d) <= |d.slots| * k
    ensures d.dying <==> Total(d) == |d.slots| * k
  {
    hide SumOk, SumErr, Finished, Apart, RequestsOk, AnsweredOnce;
    AllFinished(d.slots, k);
  }

  lemma StepTotal(d: Driver, e: Event, k: nat)
    requires Inv(d, k) && k > 0
    ensures Total(Step(d, e, k)) == Total(d) + if e.Message? && IndexOf(d.slots, e.src) >= 0 then 1 else 0
  {
    hide SumOk, SumErr, Finished, IndexOf, LaunchedTo, Closed, Counted, Verdict, Apart, RequestsOk, AnsweredOnce;
    match e
    case Timer =>
      if !d.dying && !d.launched {
        LaunchIs(d, |d.slots|);
        UnusedSums(d.slots, k);
        UnusedSums(LaunchedTo(d, |d.slots|).slots, k);
      }
    case Opened(src) =>
      var i := IndexOf(d.slots, src);
      if i >= 0 {
        UpdateSums(d.slots, i, d.slots[i].(phase := Posted), k);
      }
    case Message(src, good, servers) =>
      var i := IndexOf(d.slots, src);
      if i >= 0 {
        AnswerIs(d, i, good, k, servers);
        UpdateSums(d.slots, i, AfterAnswer(d.slots[i], good, k, d.next), k);
      }
    case _ =>
  }

  /** An answer is counted for the slot of its client, as good or bad; the slot goes on to its next iteration with a new client
      that connects, or is done after its last; no other slot changes. */
  lemma AnswerCounts(d: Driver, i: nat, good: bool, servers: Servers, k: nat)
    requires Inv(d, k) && k > 0 && i < |d.slots| && d.slots[i].client != NULL
    ensures var s := d.slots[i];
            var r := Step(d, Message(s.client, good, servers), k);
            && |r.slots| == |d.slots| && (forall j :: 0 <= j < |d.slots| && j != i ==> r.slots[j] == d.slots[j])
            && r.slots[i].ok == s.ok + (if good then 1 else 0) && r.slots[i].err == s.err + (if good then 0 else 1)
            && r.slots[i].iteration == s.iteration + 1
            && (if s.iteration + 1 < k then r.slots[i].client == d.next && r.slots[i].phase == Connecting
                else r.slots[i].client == NULL && r.slots[i].phase == Idle)
            && (good || BadAnswer(i, s.iteration) in r.reports)
  {
    hide SumOk, SumErr, Finished, LaunchedTo, Closed, Counted, Verdict, AnsweredOnce, RequestsOk, CountsOk;
    ClientAt(d.slots, i);
    AnswerIs(d, i, good, k, servers);
  }

  // ---------- the verdict ----------

  lemma {:induction false} NoSlotReports(s: seq<Slot>, k: nat)
    requires forall i :: 0 <= i < |s| ==> s[i].ok + s[i].err == k
    ensures SlotReports(s, k) == [] <==> SumErr(s) == 0
    ensures SumErr(s) == 0 ==> SumOk(s) == |s| * k
  {
    hide SumOk, SumErr, Finished, SlotReports;
    if s == [] {
      NoneFinished(k);
      NoSlots(k);
    } else {
      var t, last := s[..|s| - 1], s[|s| - 1];
      NoSlotReports(t, k);
      LastSlot(s, k);
      OneMore(|t|, k);
      LastReports(s, k);
    }
  }

  lemma LastReports(s: seq<Slot>, k: nat)
    requires s != []
    ensures var t, last := s[..|s| - 1], s[|s| - 1];
            SlotReports(s, k) == [] <==> SlotReports(t, k) == [] && last.ok == k && last.err == 0
  {
  }

  /** The final check logs nothing exactly if every answer was good and the servers counted what they should. */
  lemma VerdictIsHonest(d: Driver, e: Event, k: nat)
    requires Inv(d, k) && k > 0 && !d.dying && Step(d, e, k).dying
    ensures e.Message?
    ensures var r := Step(d, e, k);
            && (SumErr(r.slots) == 0 && ServersOk(e.servers, |r.slots|, k) <==> r.reports == d.reports)
            && (SumErr(r.slots) > 0 ==> WrongTotals(SumOk(r.slots), SumErr(r.slots)) in r.reports)
  {
    hide SumOk, SumErr, Finished, IndexOf, LaunchedTo, Closed, Counted, Apart, RequestsOk, AnsweredOnce, ServersOk, ServerReports;
    StepKeeps(d, e, k);
    ArmedAtTheLastAnswer(d, e, k);
    LaunchNotDying(d, |d.slots|);
    var r := Step(d, e, k);
    var i := IndexOf(d.slots, e.src);
    AnswerIs(d, i, e.good, k, e.servers);
    UpdateSums(d.slots, i, AfterAnswer(d.slots[i], e.good, k, d.next), k);
    AllFinished(r.slots, k);
    NoSlotReports(r.slots, k);
  }

  lemma {:induction false} LaunchNotDying(d: Driver, i: nat)
    requires i <= |d.slots|
    ensures var r := LaunchedTo(d, i); r.dying == d.dying && r.mustDie == d.mustDie && r.reports == d.reports
  {
    if i > 0 {
      LaunchNotDying(d, i - 1);
    }
  }

  // ---------- when the run succeeds ----------

  // The event is one that the driver expects: no timer between the launch and the end, a connection of a client that is
  // connecting, a good answer of a client, and with the last answer servers that counted right.
  predicate Expected(d: Driver, e: Event, k: nat) {
    match e
    case Timer => d.dying || !d.launched
    case Opened(src) => var i := IndexOf(d.slots, src); i >= 0 && d.slots[i].phase == Connecting
    case Message(src, good, servers) =>
      var i := IndexOf(d.slots, src);
      i >= 0 && good && (Ends(d, i, k) ==> ServersOk(servers, |d.slots|, k))
    case _ => true
  }

  predicate AllExpected(d: Driver, events: seq<Event>, k: nat)
    decreases |events|
  {
    events == [] || (Expected(d, events[0], k) && AllExpected(Step(d, events[0], k), events[1..], k))
  }

  // What the process makes of the run: it ends, and no error was logged, since every logged error fails it.
  predicate Succeeds(d: Driver) {
    d.mustDie && d.reports == []
  }

  /** A run from the start succeeds if and only if it is brought to its end and every event of it was expected: every
      answer good, the servers' counts right, no late timer, no unknown source, no connection out of turn. */
  lemma SucceedsIff(n: nat, k: nat, events: seq<Event>)
    requires n > 0 && k > 0
    ensures var d := Run(Start(n), events, k);
            && (Succeeds(d) <==> d.mustDie && AllExpected(Start(n), events, k))
            && (Succeeds(d) ==> Total(d) == SumOk(d.slots) == n * k)
  {
    hide SumOk, SumErr, Step, Inv, AllExpected;
    StartKeeps(n, k);
    UnusedSums(Start(n).slots, k);
    LoggedIff(Start(n), events, k);
    RunKeeps(Start(n), events, k);
    DiesAtTheEnd(Start(n), events, k);
    TotalBound(Run(Start(n), events, k), k);
  }

  /** Over every run, ended or not, an error is logged if and only if some event was not expected. */
  lemma {:induction false} LoggedIff(d: Driver, events: seq<Event>, k: nat)
    requires Inv(d, k) && k > 0 && d.reports == [] && SumErr(d.slots) == 0
    ensures var r := Run(d, events, k);
            && (r.reports == [] <==> AllExpected(d, events, k))
            && (r.reports == [] ==> SumErr(r.slots) == 0)
    decreases |events|
  {
    hide Inv, Step, SumErr, Expected;
    if events != [] {
      var e, rest := events[0], events[1..];
      StepKeeps(d, e, k);
      StepLogs(d, e, k);
      if Expected(d, e, k) {
        LoggedIff(Step(d, e, k), rest, k);
      } else {
        RunKeepsReports(Step(d, e, k), rest, k);
      }
    }
  }

  lemma {:induction false} RunKeepsReports(d: Driver, events: seq<Event>, k: nat)
    requires Inv(d, k) && k > 0 && d.reports != []
    ensures Run(d, events, k).reports != []
    decreases |events|
  {
    hide Inv, Step;
    if events != [] {
      StepKeeps(d, events[0], k);
      StepKeepsReports(d, events[0], k);
      RunKeepsReports(Step(d, events[0], k), events[1..], k);
    }
  }

  lemma StepKeepsReports(d: Driver, e: Event, k: nat)
    requires Inv(d, k) && k > 0
    ensures d.reports <= Step(d, e, k).reports
  {
    hide SumOk, SumErr, Finished, IndexOf, LaunchedTo, Closed, Counted, Verdict, Apart, RequestsOk, AnsweredOnce, CountsOk, SlotsOk;
    match e
    case Timer => LaunchNotDying(d, |d.slots|);
    case Message(src, good, servers) =>
      var i := IndexOf(d.slots, src);
      if i >= 0 {
        AnswerIs(d, i, good, k, servers);
      }
    case _ =>
  }

  lemma StepLogs(d: Driver, e: Event, k: nat)
    requires Inv(d, k) && k > 0 && d.reports == [] && SumErr(d.slots) == 0
    ensures var r := Step(d, e, k);
            && (r.reports == [] <==> Expected(d, e, k))
            && (r.reports == [] ==> SumErr(r.slots) == 0)
  {
    hide SumOk, SumErr, Finished, IndexOf, LaunchedTo, Closed, Counted, Verdict, Apart, RequestsOk, AnsweredOnce, CountsOk, SlotsOk,
      ServersOk;
    match e
    case Timer =>
      LaunchNotDying(d, |d.slots|);
      if !d.dying && !d.launched {
        LaunchSums(d, k);
      }
    case Opened(src) =>
      var i := IndexOf(d.slots, src);
      if i >= 0 {
        UpdateSums(d.slots, i, d.slots[i].(phase := Posted), k);
      }
    case Message(src, good, servers) =>
      var i := IndexOf(d.slots, src);
      if i >= 0 {
        AnswerIs(d, i, good, k, servers);
        UpdateSums(d.slots, i, AfterAnswer(d.slots[i], good, k, d.next), k);
        if Ends(d, i, k) {
          LastAnswer(d, i, good, k, servers);
        }
      }
    case _ =>
  }

  lemma LaunchSums(d: Driver, k: nat)
    requires Inv(d, k) && k > 0 && !d.launched
    ensures SumErr(LaunchedTo(d, |d.slots|).slots) == 0
  {
    hide SumOk, SumErr, Finished, LaunchedTo;
    LaunchIs(d, |d.slots|);
    UnusedSums(LaunchedTo(d, |d.slots|).slots, k);
  }

  // What the check after the last answer finds.
  lemma LastAnswer(d: Driver, i: nat, good: bool, k: nat, servers: Servers)
    requires Inv(d, k) && k > 0 && i < |d.slots| && d.slots[i].client != NULL && Ends(d, i, k)
    ensures var r := Closed(Counted(d, i, good), i, k, servers);
            Verdict(r.slots, k, servers) == [] <==> SumErr(r.slots) == 0 && ServersOk(servers, |d.slots|, k)
  {
    hide SumOk, SumErr, Finished, Closed, Counted, SlotReports, ServersOk, ServerReports, Apart, RequestsOk, AnsweredOnce;
    var r := Closed(Counted(d, i, good), i, k, servers);
    AnswerIs(d, i, good, k, servers);
    AnswerKeepsCounts(d, i, good, k, servers);
    AnswerKeepsSlots(d, i, good, k, servers);
    assert d.launched;
    assert forall j :: 0 <= j < |r.slots| ==> SlotOk(r.slots[j], k, r.next);
    AllFinished(r.slots, k);
    NoSlotReports(r.slots, k);
  }

  // Only a timer after the last answer ends the process.
  lemma {:induction false} DiesAtTheEnd(d: Driver, events: seq<Event>, k: nat)
    requires Inv(d, k) && k > 0 && (d.mustDie ==> d.dying)
    ensures Run(d, events, k).mustDie ==> Run(d, events, k).dying
    decreases |events|
  {
    hide Inv, Step;
    if events != [] {
      StepKeeps(d, events[0], k);
      StepDies(d, events[0], k);
      DiesAtTheEnd(Step(d, events[0], k), events[1..], k);
    }
  }

  lemma StepDies(d: Driver, e: Event, k: nat)
    requires d.mustDie ==> d.dying
    ensures Step(d, e, k).mustDie ==> Step(d, e, k).dying
  {
    hide SumOk, SumErr, Finished, IndexOf, Verdict, LaunchedTo;
    LaunchNotDying(d, |d.slots|);
  }

  // ---------- it can always finish ----------

  /** After the launch, and until the end is armed, some client is waiting, and its answer brings the run one answer
      closer: the answers of the waiting clients alone, as many as are missing, end the run, and as a success if nothing
      went wrong before. */
  ghost function Finishing(d: Driver, k: nat, servers: Servers): (events: seq<Event>)
    requires Inv(d, k) && k > 0 && d.launched
    ensures |events| == |d.slots| * k - Total(d)
    ensures forall i :: 0 <= i < |events| ==> events[i].Message?
    ensures Run(d, events, k).dying
    ensures ServersOk(servers, |d.slots|, k) ==> AllExpected(d, events, k)
    decreases |d.slots| * k - Total(d)
  {
    TotalBound(d, k);
    if d.dying then []
    else
      var i := Waiting(d, k);
      var e := Message(d.slots[i].client, true, servers);
      StepKeeps(d, e, k);
      StepTotal(d, e, k);
      StepKeepsSlotCount(d, e, k);
      StepKeepsLaunched(d, e, k);
      [e] + Finishing(Step(d, e, k), k, servers)
  }

  lemma StepKeepsLaunched(d: Driver, e: Event, k: nat)
    requires d.launched
    ensures Step(d, e, k).launched
  {
    hide SumOk, SumErr, Finished, Verdict, LaunchedTo;
  }

  ghost function Waiting(d: Driver, k: nat): (i: nat)
    requires Inv(d, k) && d.launched && !d.dying
    ensures i < |d.slots| && d.slots[i].client != NULL && IndexOf(d.slots, d.slots[i].client) >= 0
  {
    AllFinished(d.slots, k);
    var i :| 0 <= i < |d.slots| && d.slots[i].iteration != k;
    i
  }

  // No slot waits for an answer, and there is a request for each that was counted.
  ghost predicate AllConnecting(d: Driver) {
    |d.requests| == Total(d) && forall i :: 0 <= i < |d.slots| ==> d.slots[i].phase != Posted
  }

  // One slot after the other connects and gets its answer.
  ghost function Serving(d: Driver, k: nat, servers: Servers): (events: seq<Event>)
    requires Inv(d, k) && k > 0 && d.launched && AllConnecting(d)
    ensures var r := Run(d, events, k); r.dying && |r.slots| == |d.slots| && |r.requests| == Total(r)
    ensures ServersOk(servers, |d.slots|, k) ==> AllExpected(d, events, k)
    decreases |d.slots| * k - Total(d)
  {
    TotalBound(d, k);
    if d.dying then []
    else
      var i := Waiting(d, k);
      var c := d.slots[i].client;
      Served(d, i, k, servers);
      [Opened(c), Message(c, true, servers)] + Serving(Step(Step(d, Opened(c), k), Message(c, true, servers), k), k, servers)
  }

  // One slot connects and gets its answer.
  lemma Served(d: Driver, i: nat, k: nat, servers: Servers)
    requires Inv(d, k) && k > 0 && d.launched && !d.dying && AllConnecting(d) && i < |d.slots| && d.slots[i].client != NULL
    ensures var c := d.slots[i].client;
            var m := Step(d, Opened(c), k);
            var r := Step(m, Message(c, true, servers), k);
            && Inv(r, k) && r.launched && AllConnecting(r) && |r.slots| == |d.slots| && Total(r) == Total(d) + 1
            && Expected(d, Opened(c), k)
            && (ServersOk(servers, |d.slots|, k) ==> Expected(m, Message(c, true, servers), k))
  {
    hide SumOk, SumErr, Finished, LaunchedTo, Closed, Counted, Verdict, ServersOk, AnsweredOnce, RequestsOk, CountsOk, Sending;
    var c := d.slots[i].client;
    ClientAt(d.slots, i);
    SendingIs(d, i);
    var m := Step(d, Opened(c), k);
    StepKeeps(d, Opened(c), k);
    StepTotal(d, Opened(c), k);
    ClientAt(m.slots, i);
    StepKeeps(m, Message(c, true, servers), k);
    StepTotal(m, Message(c, true, servers), k);
    AnswerIs(m, i, true, k, servers);
  }

  lemma SendingIs(d: Driver, i: nat)
    requires i < |d.slots|
    ensures var m := Sending(d, i);
            && |m.slots| == |d.slots| && m.slots[i].client == d.slots[i].client && m.launched == d.launched
            && (forall j :: 0 <= j < |d.slots| ==> m.slots[j].client == d.slots[j].client)
            && (forall j :: 0 <= j < |d.slots| && j != i ==> m.slots[j] == d.slots[j])
            && |m.requests| == |d.requests| + 1
  {
  }

  lemma ClientAt(s: seq<Slot>, i: nat)
    requires Apart(s) && i < |s| && s[i].client != NULL
    ensures IndexOf(s, s[i].client) == i
  {
    hide IndexOf;
    var j := IndexOf(s, s[i].client);
    assert s[j].client == s[i].client;
  }

  /** There is a run that succeeds, for any number of slots and iterations: the timer launches the slots, they connect and are
      answered, and the timer ends the process. As many requests go out as there are iterations in all slots. */
  lemma WholeRun(n: nat, k: nat, servers: Servers) returns (events: seq<Event>)
    requires n > 0 && k > 0 && ServersOk(servers, n, k)
    ensures var d := Run(Start(n), events, k); Succeeds(d) && |d.requests| == n * k
  {
    hide SumOk, SumErr, Finished, ServersOk, Step, AllExpected;
    var d := Step(Start(n), Timer, k);
    StartKeeps(n, k);
    StepKeeps(Start(n), Timer, k);
    Launched(n, k);
    var mid := Serving(d, k, servers);
    events := [Timer] + (mid + [Timer]);
    RunKeeps(d, mid, k);
    RunAppend(d, mid, [Timer], k);
    var r := Run(d, mid, k);
    EndingTimer(r, k);
    assert events[0] == Timer && events[1..] == mid + [Timer];
    StartExpects(n, k);
    assert AllExpected(Start(n), events, k) by { FirstExpected(Start(n), events, k); }
    SucceedsIff(n, k, events);
  }

  lemma Launched(n: nat, k: nat)
    requires n > 0 && k > 0
    ensures var d := Step(Start(n), Timer, k); d.launched && |d.slots| == n && AllConnecting(d) && d.reports == []
  {
    hide SumOk, SumErr, Finished, LaunchedTo;
    LaunchIs(Start(n), n);
    LaunchNotDying(Start(n), n);
    UnusedSums(Step(Start(n), Timer, k).slots, k);
  }

  lemma StartExpects(n: nat, k: nat)
    ensures Expected(Start(n), Timer, k)
  {
  }

  lemma FirstExpected(d: Driver, events: seq<Event>, k: nat)
    requires events != [] && Expected(d, events[0], k) && AllExpected(Step(d, events[0], k), events[1..], k)
    ensures AllExpected(d, events, k)
  {
    hide Step, Expected;
  }

  lemma EndingTimer(d: Driver, k: nat)
    requires d.dying
    ensures var r := Run(d, [Timer], k); r == d.(mustDie := true) && AllExpected(d, [Timer], k)
  {
    assert [Timer][1..] == [];
  }

  lemma {:induction false} RunAppend(d: Driver, a: seq<Event>, b: seq<Event>, k: nat)
    ensures Run(d, a + b, k) == Run(Run(d, a, k), b, k)
    ensures AllExpected(d, a + b, k) <==> AllExpected(d, a, k) && AllExpected(Run(d, a, k), b, k)
    decreases |a|
  {
    hide Step, Expected;
    if a == [] {
      assert a + b == b;
    } else {
      assert (a + b)[1..] == a[1..] + b;
      RunAppend(Step(d, a[0], k), a[1..], b, k);
    }
  }

  // ---------- the servers' statistics ----------

  // One count over all servers.
  function Sum(s: seq<Stats>, count: Stats -> int): int {
    if s == [] then 0 else count(s[0]) + Sum(s[1..], count)
  }

  lemma {:induction false} SumSnoc(s: seq<Stats>, x: Stats, count: Stats -> int)
    ensures Sum(s + [x], count) == Sum(s, count) + count(x)
    decreases |s|
  {
    if s == [] {
      assert [] + [x] == [x] && [x][1..] == [];
    } else {
      assert (s + [x])[1..] == s[1..] + [x];
      SumSnoc(s[1..], x, count);
    }
  }

  lemma {:induction false} SumEach(s: seq<Stats>, count: Stats -> int)
    requires count(NO_STATS) == 0 && forall a: Stats, b: Stats :: count(Plus(a, b)) == count(a) + count(b)
    ensures count(SumStats(s)) == Sum(s, count)
    decreases |s|
  {
    hide Plus;
    if s != [] {
      var m := |s| - 1;
      SumEach(s[..m], count);
      SumSnoc(s[..m], s[m], count);
      assert s == s[..m] + [s[m]];
    }
  }

  /** The servers pass the check if and only if there is one for each slot and, over all of them, requests, calls and good
      calls are as many as the answers expected, and every count of failures is 0. */
  lemma ServersOkIff(s: seq<Stats>, n: nat, k: nat)
    ensures ServersOk(Some(s), n, k) <==>
            && |s| == n
            && Sum(s, (x: Stats) => x.requests) == Sum(s, (x: Stats) => x.calls) == Sum(s, (x: Stats) => x.ok) == n * k
            && Sum(s, (x: Stats) => x.errors) == Sum(s, (x: Stats) => x.bffErrors) == Sum(s, (x: Stats) => x.dropped)
               == Sum(s, (x: Stats) => x.timeouts) == Sum(s, (x: Stats) => x.full) == 0
    ensures !ServersOk(None, n, k)
  {
    hide Sum, SumStats;
    SumEach(s, (x: Stats) => x.requests);
    SumEach(s, (x: Stats) => x.calls);
    SumEach(s, (x: Stats) => x.ok);
    SumEach(s, (x: Stats) => x.errors);
    SumEach(s, (x: Stats) => x.bffErrors);
    SumEach(s, (x: Stats) => x.dropped);
    SumEach(s, (x: Stats) => x.timeouts);
    SumEach(s, (x: Stats) => x.full);
  }

  // ---------- the driver itself ----------

  // The private data of the driver. What it sends and logs, and the framework's objects, are ghost.
  class StressDriver {
    const iterations: nat
    const slots: array<Slot>
    var slotsDone: nat
    var launched: bool
    var dying: bool
    var passed: bool
    var mustDie: bool
    var next: Client
    ghost var requests: seq<Request>
    ghost var reports: seq<Report>
    ghost var answered: seq<Client>
    ghost var armings: nat

    ghost function View(): Driver
      reads this, slots
    {
      Driver(slots[..], slotsDone, launched, dying, passed, mustDie, next, requests, reports, answered, armings)
    }

    constructor (n: nat, k: nat)
      ensures View() == Start(n) && iterations == k && fresh(slots)
    {
      iterations := k;
      slots := new Slot[n](_ => UNUSED);
      slotsDone, launched, dying, passed, mustDie, next := 0, false, false, false, false, 1;
      requests, reports, answered, armings := [], [], [], 0;
      new;
      assert slots[..] == Start(n).slots;
    }

    method SlotIndexForSrc(src: Client) returns (i: int)
      ensures i == IndexOf(slots[..], src)
    {
      i := 0;
      while i < slots.Length
        invariant 0 <= i <= slots.Length
        invariant IndexOf(slots[..i], src) == -1
      {
        assert slots[..i + 1][..i] == slots[..i];
        if slots[i].client == src {
          FirstIndex(slots[..], src, i);
          return;
        }
        i := i + 1;
      }
      assert slots[..i] == slots[..];
      i := -1;
    }

    method OpenSlot(i: nat)
      requires i < slots.Length
      modifies this, slots
      ensures View() == OpenedSlot(old(View()), i)
    {
      slots[i] := slots[i].(client := next);
      next := next + 1;
      slots[i] := slots[i].(phase := Connecting);
    }

    method LaunchAllSlots()
      modifies this, slots
      ensures View() == if old(launched) then old(View()) else LaunchedTo(old(View()), slots.Length)
    {
      if launched {
        return;
      }
      launched := true;
      var i := 0;
      while i < slots.Length
        invariant 0 <= i <= slots.Length
        invariant View() == LaunchedTo(old(View()), i)
      {
        slots[i] := slots[i].(iteration := 0);
        OpenSlot(i);
        i := i + 1;
      }
    }

    method CloseSlotAndRestartOrFinish(i: nat, servers: Servers)
      requires i < slots.Length
      modifies this, slots
      ensures View() == Closed(old(View()), i, iterations, servers)
    {
      hide OpenedSlot, Verified, SumOk, SumErr, SlotReports, Finished;
      if slots[i].client != NULL {
        slots[i] := slots[i].(client := NULL);
      }
      slots[i] := slots[i].(iteration := slots[i].iteration + 1);
      ghost var s := old(slots[i]).(client := NULL, iteration := old(slots[i].iteration) + 1);
      assert slots[..] == old(slots[..])[i := s];
      if slots[i].iteration < iterations {
        OpenSlot(i);
      } else {
        slots[i] := slots[i].(phase := Idle);
        slotsDone := slotsDone + 1;
        assert slots[..] == old(slots[..])[i := s.(phase := Idle)];
        MaybeVerifyAndDie(servers);
      }
    }

    // The second half of the check: the sums over the servers.
    method CheckServers(servers: Servers)
      modifies `reports
      ensures reports == old(reports) + ServerReports(servers, slots.Length, iterations)
    {
      hide SumStats;
      match servers
      case None => reports := reports + [NoServers];
      case Some(s) =>
        var sum, i := NO_STATS, 0;
        NoStats();
        assert s[..0] == [];
        while i < |s|
          invariant 0 <= i <= |s| && sum == SumStats(s[..i]) && reports == old(reports)
        {
          OneMoreServer(s, i);
          sum := Plus(sum, s[i]);
          i := i + 1;
        }
        assert s[..i] == s;
        ghost var total := slots.Length * iterations;
        ghost var wanted := Stats(total, total, total, 0, 0, 0, 0, 0);
        ghost var a, b := if |s| != slots.Length then [WrongServers(|s|)] else [], if sum != wanted then [WrongStats(sum)] else [];
        InOrder(old(reports), a, b, []);
        if |s| != slots.Length {
          reports := reports + [WrongServers(|s|)];
        }
        assert reports == old(reports) + a;
        if sum != Stats(slots.Length * iterations, slots.Length * iterations, slots.Length * iterations, 0, 0, 0, 0, 0) {
          reports := reports + [WrongStats(sum)];
        }
        assert reports == old(reports) + a + b;
    }

    // The first half: each slot's counters, and their sums.
    method CheckSlots() returns (totalOk: nat, totalErr: nat)
      modifies `reports
      ensures reports == old(reports) + SlotReports(slots[..], iterations)
      ensures totalOk == SumOk(slots[..]) && totalErr == SumErr(slots[..])
    {
      hide SlotReports, SumOk, SumErr;
      assert slots[..0] == [];
      NoSlots(iterations);
      totalOk, totalErr := 0, 0;
      var i := 0;
      while i < slots.Length
        invariant 0 <= i <= slots.Length
        invariant reports == old(reports) + SlotReports(slots[..i], iterations)
        invariant totalOk == SumOk(slots[..i]) && totalErr == SumErr(slots[..i])
      {
        OneMoreSlot(slots[..], i, iterations, old(reports));
        if slots[i].ok != iterations {
          reports := reports + [WrongOk(i, slots[i].ok)];
        }
        if slots[i].err != 0 {
          reports := reports + [SomeErr(i, slots[i].err)];
        }
        totalOk, totalErr := totalOk + slots[i].ok, totalErr + slots[i].err;
        i := i + 1;
      }
      assert slots[..i] == slots[..];
    }

    method MaybeVerifyAndDie(servers: Servers)
      modifies this
      ensures View() == Verified(old(View()), iterations, servers)
    {
      hide SlotReports, SumOk, SumErr, ServerReports;
      if slotsDone < slots.Length {
        return;
      }
      var totalOk, totalErr := CheckSlots();
      if totalOk != slots.Length * iterations || totalErr != 0 {
        reports := reports + [WrongTotals(totalOk, totalErr)];
      }
      CheckServers(servers);
      InOrder(old(reports), SlotReports(slots[..], iterations),
              if totalOk != slots.Length * iterations || totalErr != 0 then [WrongTotals(totalOk, totalErr)] else [],
              ServerReports(servers, slots.Length, iterations));
      passed := true;
      dying := true;
      armings := armings + 1;
    }

    method AcTimer()
      modifies this, slots
      ensures View() == Step(old(View()), Timer, iterations)
    {
      if dying {
        mustDie := true;
        return;
      }
      if !launched {
        LaunchAllSlots();
      } else {
        reports := reports + [LateTimer];
      }
    }

    method AcOnOpen(src: Source)
      modifies this, slots
      ensures View() == Step(old(View()), Opened(src), iterations)
    {
      var i := SlotIndexForSrc(src);
      if i < 0 {
        reports := reports + [OpenFromUnknown(src)];
        return;
      }
      if slots[i].phase != Connecting {
        reports := reports + [OpenOutOfTurn(i)];
        return;
      }
      requests := requests + [Request(slots[i].client, i, slots[i].iteration)];
      slots[i] := slots[i].(phase := Posted);
    }

    method AcOnMessage(src: Source, good: bool, servers: Servers)
      modifies this, slots
      ensures View() == Step(old(View()), Message(src, good, servers), iterations)
    {
      hide Closed, IndexOf, SumOk, SumErr, SlotReports, Finished;
      var i := SlotIndexForSrc(src);
      if i < 0 {
        reports := reports + [MessageFromUnknown(src)];
        return;
      }
      if good {
        slots[i] := slots[i].(ok := slots[i].ok + 1);
      } else {
        slots[i] := slots[i].(err := slots[i].err + 1);
        reports := reports + [BadAnswer(i, slots[i].iteration)];
      }
      answered := answered + [slots[i].client];
      assert slots[..] == old(slots[..])[i := slots[i]];
      assert View() == Counted(old(View()), i, good);
      CloseSlotAndRestartOrFinish(i, servers);
    }

    // Both leave the slots alone; a stopped client may be destroyed.
    method AcOnClose(src: Source)
      ensures View() == Step(old(View()), Close(src), iterations)
    {
    }

    method AcStopped(src: Source)
      ensures View() == Step(old(View()), Stopped(src), iterations)
    {
    }
  }

  lemma {:induction false} FirstIndex(s: seq<Slot>, src: Client, i: nat)
    requires i < |s| && s[i].client == src && IndexOf(s[..i], src) == -1
    ensures IndexOf(s, src) == i
    decreases |s|
  {
    var t := s[..|s| - 1];
    if i < |t| {
      assert t[..i] == s[..i];
      FirstIndex(t, src, i);
    } else {
      assert t == s[..i];
    }
  }

  lemma InOrder(before: seq<Report>, a: seq<Report>, b: seq<Report>, c: seq<Report>)
    ensures before + a + b == before + (a + b) && before + a + b + c == before + (a + b + c)
    ensures before + [] == before
  {
  }

  lemma NoStats()
    ensures SumStats([]) == NO_STATS
  {
  }

  lemma OneMoreServer(s: seq<Stats>, i: nat)
    requires i < |s|
    ensures SumStats(s[..i + 1]) == Plus(SumStats(s[..i]), s[i])
  {
    assert s[..i + 1][..i] == s[..i];
  }

  lemma NoSlots(k: nat)
    ensures SlotReports([], k) == [] && SumOk([]) == SumErr([]) == 0
  {
  }

  lemma OneMoreSlot(s: seq<Slot>, i: nat, k: nat, before: seq<Report>)
    requires i < |s|
    ensures SumOk(s[..i + 1]) == SumOk(s[..i]) + s[i].ok
    ensures SumErr(s[..i + 1]) == SumErr(s[..i]) + s[i].err
    ensures before + SlotReports(s[..i + 1], k)
            == before + SlotReports(s[..i], k) + (if s[i].ok != k then [WrongOk(i, s[i].ok)] else [])
               + (if s[i].err != 0 then [SomeErr(i, s[i].err)] else [])
  {
    assert s[..i + 1][..i] == s[..i];
  }
}
