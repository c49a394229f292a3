/** The chat widget: one component instance per mount, local storage and the broadcast channel
    outside it, and the user's, the admin's and the clock's events acting on them one at a
    time. */
module ChatWidget {
  import opened Basics
  import opened SlidingWindow

  const WARNING_MS: nat := 5000
  const GREETING: string := "Xin chào! Tôi có thể giúp gì cho bạn?"

  datatype Message = Message(text: string, isBot: bool)

  /** What the events act on.  `storage` and `posted` outlive a component instance; everything
      else is the state of the mounted instance.  `timers` holds the due times of the pending
      warning time-outs. */
  datatype State = State(
    messages: seq<Message>,
    input: string,
    spamWarning: bool,
    stamps: seq<int>,
    timers: seq<int>,
    storage: Option<seq<Message>>,
    posted: seq<string>)

  // ----- Text -----

  /** White space and line terminators, as `String.prototype.trim` removes them. */
  predicate IsTrimmed(c: char) {
    || '\t' <= c <= '\r' || c == ' ' || c == '\U{00A0}' || c == '\U{FEFF}'
    || c == '\U{1680}' || c == '\U{202F}' || c == '\U{205F}' || c == '\U{3000}'
    || c == '\U{2028}' || c == '\U{2029}'
    || '\U{2000}' <= c <= '\U{200A}'
  }

  /** The input has nothing left after trimming. */
  predicate Blank(input: string) {
    forall i :: 0 <= i < |input| ==> IsTrimmed(input[i])
  }

  // ----- The steps, on values -----

  function Mount(w: State): State {
    State(if w.storage.Some? then w.storage.value else [Message(GREETING, true)],
          "", false, [], [], w.storage, w.posted)
  }

  /** The send control is disabled while the warning shows; a blank input does nothing. */
  predicate Attempts(w: State) {
    !w.spamWarning && !Blank(w.input)
  }

  predicate Sends(w: State, now: int) {
    Attempts(w) && Limit(w.stamps, now).accepted
  }

  function Send(w: State, now: int): State {
    if Sends(w, now) then
      var messages := w.messages + [Message(w.input, false)];
      w.(stamps := Limit(w.stamps, now).stamps, messages := messages, input := "",
         storage := Some(messages), posted := w.posted + [w.input])
    else if Attempts(w) then
      w.(spamWarning := true, timers := w.timers + [now + WARNING_MS])
    else w
  }

  function Type(w: State, text: string): State {
    if !w.spamWarning then w.(input := text) else w
  }

  function AdminReply(w: State, text: string): State {
    var messages := w.messages + [Message(text, true)];
    w.(messages := messages, storage := Some(messages))
  }

  function TimerFires(w: State, now: int): State {
    if w.timers != [] && w.timers[0] <= now then w.(spamWarning := false, timers := w.timers[1..])
    else w
  }

  // ----- The component -----

  class Widget {
    var messages: seq<Message>
    var input: string
    var spamWarning: bool
    var messageTimestamps: seq<int>
    var timers: seq<int>
    var localStorage: Option<seq<Message>>
    var channel: seq<string>

    function View(): State
      reads this
    {
      State(messages, input, spamWarning, messageTimestamps, timers, localStorage, channel)
    }

    /** The first mount, with whatever history an earlier visit left in storage. */
    constructor (history: Option<seq<Message>>)
      ensures Fresh(View()) && input == "" && localStorage == history && channel == []
      ensures messages == if history.Some? then history.value
                          else [Message("Xin chào! Tôi có thể giúp gì cho bạn?", true)]
    {
      localStorage, channel := history, [];
      messages, input, spamWarning, messageTimestamps, timers := [], "", false, [], [];
      new;
      OnMount();
    }

    /** The mount effect, on a component instance with its initial state. */
    method OnMount()
      modifies this
      ensures View() == Mount(old(View()))
      ensures input == "" && !spamWarning && messageTimestamps == [] && timers == []
      ensures localStorage == old(localStorage) && channel == old(channel)
      ensures messages == if localStorage.Some? then localStorage.value
                          else [Message("Xin chào! Tôi có thể giúp gì cho bạn?", true)]
    {
      input, spamWarning, messageTimestamps, timers := "", false, [], [];
      if localStorage.Some? {
        messages := localStorage.value;
      } else {
        messages := [Message(GREETING, true)];
      }
    }

    method OnChange(text: string)
      modifies this
      ensures View() == Type(old(View()), text)
      ensures View() == old(View()).(input := if old(spamWarning) then old(input) else text)
    {
      if !spamWarning { input := text; }
    }

    /** A click on the send button, or Enter in the input: both are disabled during a warning. */
    method OnSend(now: int)
      modifies this
      ensures View() == Send(old(View()), now)
      ensures old(spamWarning) ==> View() == old(View())
    {
      if !spamWarning {
        HandleSend(now);
      }
    }

    method HandleSend(now: int)
      requires !spamWarning
      modifies this
      ensures View() == Send(old(View()), now)
      ensures Blank(old(input)) ==> View() == old(View())
      ensures !Blank(old(input)) && |Recent(old(messageTimestamps), now)| >= 60 ==>
                View() == old(View()).(spamWarning := true, timers := old(timers) + [now + 5000])
      ensures !Blank(old(input)) && |Recent(old(messageTimestamps), now)| < 60 ==>
                && messages == old(messages) + [Message(old(input), false)] && localStorage == Some(messages)
                && messageTimestamps == Recent(old(messageTimestamps), now) + [now]
                && channel == old(channel) + [old(input)] && input == ""
                && !spamWarning && timers == old(timers)
    {
      if Blank(input) { return; }
      var recentTimestamps := Recent(messageTimestamps, now);
      if |recentTimestamps| >= MAX_MESSAGES {
        spamWarning := true;
        timers := timers + [now + WARNING_MS];
        return;
      }
      messageTimestamps := recentTimestamps + [now];
      var text := input;
      messages := messages + [Message(text, false)];
      input := "";
      localStorage := Some(messages);
      channel := channel + [text];
    }

    method OnAdminReply(text: string)
      modifies this
      ensures View() == AdminReply(old(View()), text)
      ensures messages == old(messages) + [Message(text, true)]
      ensures View() == old(View()).(messages := messages, storage := Some(messages))
    {
      messages := messages + [Message(text, true)];
      localStorage := Some(messages);
    }

    method OnTimer(now: int)
      modifies this
      ensures View() == TimerFires(old(View()), now)
      ensures View() == if old(timers) != [] && old(timers)[0] <= now
                        then old(View()).(spamWarning := false, timers := old(timers)[1..]) else old(View())
    {
      if timers != [] && timers[0] <= now {
        timers := timers[1..];
        spamWarning := false;
      }
    }
  }

  // ----- Runs -----

  datatype Event = Mounted | Typed(text: string) | SendAt(now: int) | Replied(text: string) | TimerAt(now: int)

  function Step(w: State, e: Event): State {
    match e
    case Mounted => Mount(w)
    case Typed(text) => Type(w, text)
    case SendAt(now) => Send(w, now)
    case Replied(text) => AdminReply(w, text)
    case TimerAt(now) => TimerFires(w, now)
  }

  /** What an observer notes down beside the state.  `sent` covers the whole run; `attempts`,
      `sentAt` and `rejectedAt` (the times at which the limiter was asked, said yes, said no)
      cover the time since the last mount; `earlier` holds the accepted times before it. */
  datatype Record = Record(
    state: State,
    sent: seq<string>,
    attempts: seq<int>,
    sentAt: seq<int>,
    rejectedAt: seq<int>,
    earlier: seq<int>,
    mounts: nat)

  function Start(w: State): Record {
    Record(w, [], [], [], [], [], 0)
  }

  function Observe(r: Record, e: Event): Record {
    var after := r.(state := Step(r.state, e));
    if e.Mounted? then
      after.(attempts := [], sentAt := [], rejectedAt := [], earlier := r.earlier + r.sentAt, mounts := r.mounts + 1)
    else if !e.SendAt? || !Attempts(r.state) then after
    else if Sends(r.state, e.now) then
      after.(attempts := r.attempts + [e.now], sentAt := r.sentAt + [e.now], sent := r.sent + [r.state.input])
    else
      after.(attempts := r.attempts + [e.now], rejectedAt := r.rejectedAt + [e.now])
  }

  function RunFrom(r: Record, es: seq<Event>): Record {
    if es == [] then r else Observe(RunFrom(r, es[..|es| - 1]), es[|es| - 1])
  }

  function Run(w: State, es: seq<Event>): Record {
    RunFrom(Start(w), es)
  }

  function ClientTexts(messages: seq<Message>): seq<string> {
    if messages == [] then []
    else
      var n := |messages| - 1;
      ClientTexts(messages[..n]) + if messages[n].isBot then [] else [messages[n].text]
  }

  // ----- What every event keeps -----

  /** Local storage mirrors the displayed list, except that the greeting alone is not stored;
      the warning shows exactly while its one time-out is pending. */
  ghost predicate Inv(w: State) {
    && (if w.storage.Some? then w.storage.value == w.messages else w.messages == [Message(GREETING, true)])
    && (|w.timers| == if w.spamWarning then 1 else 0)
  }

  /** The message that an event appends, if any. */
  function Appended(w: State, e: Event): seq<Message> {
    match e
    case SendAt(now) => if Sends(w, now) then [Message(w.input, false)] else []
    case Replied(text) => [Message(text, true)]
    case _ => []
  }

  lemma StepKeepsInv(w: State, e: Event)
    requires Inv(w)
    ensures Inv(Step(w, e)) && Step(w, e).messages == w.messages + Appended(w, e)
  {
    assert w.messages + [] == w.messages;
  }

  lemma {:induction false} RunKeepsInv(w: State, es: seq<Event>)
    requires Inv(w)
    ensures Inv(Run(w, es).state)
  {
    if es != [] {
      RunKeepsInv(w, es[..|es| - 1]);
      StepKeepsInv(Run(w, es[..|es| - 1]).state, es[|es| - 1]);
    }
  }

  /** A remount restores the displayed list, whatever happened before it. */
  lemma RemountRestores(w: State, es: seq<Event>)
    requires Inv(w)
    ensures Run(w, es + [Mounted]).state.messages == Run(w, es).state.messages
  {
    RunKeepsInv(w, es);
    assert (es + [Mounted])[..|es|] == es;
  }

  /** The history only grows, across remounts too. */
  lemma {:induction false} HistoryGrows(w: State, es: seq<Event>)
    requires Inv(w)
    ensures w.messages <= Run(w, es).state.messages
  {
    if es != [] {
      var front := es[..|es| - 1];
      HistoryGrows(w, front);
      RunKeepsInv(w, front);
      StepKeepsInv(Run(w, front).state, es[|es| - 1]);
    }
  }

  /** The draft that an event sends, if any. */
  function NewlySent(w: State, e: Event): seq<string> {
    if e.SendAt? && Sends(w, e.now) then [w.input] else []
  }

  lemma StepPosts(r: Record, e: Event)
    ensures Observe(r, e).sent == r.sent + NewlySent(r.state, e)
    ensures Step(r.state, e).posted == r.state.posted + NewlySent(r.state, e)
  {
    assert r.sent + [] == r.sent;
    assert r.state.posted + [] == r.state.posted;
  }

  lemma ClientTextsAppend(messages: seq<Message>, more: seq<Message>)
    requires |more| <= 1
    ensures ClientTexts(messages + more) == ClientTexts(messages) + ClientTexts(more)
  {
    if more == [] {
      assert messages + more == messages;
    } else {
      assert (messages + more)[..|messages|] == messages;
    }
  }

  lemma StepShows(w: State, e: Event)
    requires Inv(w)
    ensures ClientTexts(Step(w, e).messages) == ClientTexts(w.messages) + NewlySent(w, e)
  {
    StepKeepsInv(w, e);
    ClientTextsAppend(w.messages, Appended(w, e));
    assert ClientTexts(Appended(w, e)) == NewlySent(w, e);
  }

  /** What the channel was given is what the limiter let through, in order, and the client's
      part of the displayed history grew by exactly that, across remounts too. */
  lemma {:induction false} Conservation(w: State, es: seq<Event>)
    requires Inv(w)
    ensures Run(w, es).state.posted == w.posted + Run(w, es).sent
    ensures ClientTexts(Run(w, es).state.messages) == ClientTexts(w.messages) + Run(w, es).sent
  {
    if es != [] {
      var n := |es| - 1;
      var r := Run(w, es[..n]);
      Conservation(w, es[..n]);
      RunKeepsInv(w, es[..n]);
      StepPosts(r, es[n]);
      StepShows(r.state, es[n]);
      AppendAssociates(w.posted, r.sent, NewlySent(r.state, es[n]));
      AppendAssociates(ClientTexts(w.messages), r.sent, NewlySent(r.state, es[n]));
    }
  }

  lemma AppendAssociates(a: seq<string>, b: seq<string>, c: seq<string>)
    ensures (a + b) + c == a + (b + c)
  {
  }

  // ----- The limiter inside the widget -----

  predicate Timed(e: Event) {
    e.SendAt? || e.TimerAt?
  }

  /** The latest time seen. */
  function Clock(es: seq<Event>, start: int): int {
    if es == [] then start
    else if Timed(es[|es| - 1]) then es[|es| - 1].now
    else Clock(es[..|es| - 1], start)
  }

  /** The clock does not step back. */
  predicate ClockRuns(es: seq<Event>, start: int) {
    es == [] ||
    var n := |es| - 1;
    ClockRuns(es[..n], start) && (Timed(es[n]) ==> Clock(es[..n], start) <= es[n].now)
  }

  /** A freshly mounted instance. */
  ghost predicate Fresh(w: State) {
    Inv(w) && w.stamps == [] && !w.spamWarning
  }

  /** The widget's stored stamps are those of the limiter run on its attempts alone, whatever
      other events came between. */
  ghost predicate LimiterInv(r: Record, clock: int) {
    && Sorted(r.attempts) && NoneAfter(r.attempts, clock)
    && r.state.stamps == Replay(r.attempts).stamps
    && r.sentAt == Replay(r.attempts).times
  }

  lemma AttemptKeepsLimiter(r: Record, now: int)
    requires LimiterInv(r, now) && Attempts(r.state)
    ensures LimiterInv(Observe(r, SendAt(now)), now)
  {
    ReplayOneMore(r.attempts, now);
  }

  /** From mount to mount, the widget accepts exactly what the limiter of `SlidingWindow`
      accepts on the same attempts. */
  lemma {:induction false} SessionRunsLimiter(w: State, es: seq<Event>, start: int)
    requires Fresh(w) && ClockRuns(es, start)
    ensures LimiterInv(Run(w, es), Clock(es, start))
  {
    if es != [] {
      var n := |es| - 1;
      SessionRunsLimiter(w, es[..n], start);
      var r := Run(w, es[..n]);
      if es[n].SendAt? && Attempts(r.state) {
        AttemptKeepsLimiter(r, es[n].now);
      }
    }
  }

  /** Within one mount no window of 60000 ms sees more than 60 messages go out. */
  lemma SessionWithinLimit(w: State, es: seq<Event>, start: int)
    requires Fresh(w) && ClockRuns(es, start)
    ensures WithinLimit(Run(w, es).sentAt)
  {
    SessionRunsLimiter(w, es, start);
    WindowSafety(Run(w, es).attempts);
  }

  lemma {:induction false} CountInAppend(a: seq<int>, b: seq<int>, lo: int, hi: int)
    ensures CountIn(a + b, lo, hi) == CountIn(a, lo, hi) + CountIn(b, lo, hi)
  {
    if b == [] {
      assert a + b == a;
    } else {
      var n := |b| - 1;
      assert (a + b)[..|a| + n] == a + b[..n];
      CountInAppend(a, b[..n], lo, hi);
    }
  }

  /** The times of all messages of a run. */
  function AllSentAt(r: Record): seq<int> {
    r.earlier + r.sentAt
  }

  /** Over a run with remounts the bound is 60 for each mount: the history survives a remount,
      the time stamps do not. */
  lemma {:induction false} WindowBoundOverRemounts(w: State, es: seq<Event>, start: int, lo: int)
    requires Fresh(w) && ClockRuns(es, start)
    ensures CountInWindow(AllSentAt(Run(w, es)), lo) <= MAX_MESSAGES * (Run(w, es).mounts + 1)
    ensures CountInWindow(Run(w, es).earlier, lo) <= MAX_MESSAGES * Run(w, es).mounts
  {
    var r := Run(w, es);
    if es != [] {
      WindowBoundOverRemounts(w, es[..|es| - 1], start, lo);
    }
    SessionWithinLimit(w, es, start);
    assert CountInWindow(r.sentAt, lo) <= MAX_MESSAGES;
    CountInAppend(r.earlier, r.sentAt, lo, lo + TIME_WINDOW_MS);
  }

  /** The same instant, k times over. */
  function Copies(k: nat, now: int): (s: seq<int>)
    ensures |s| == k
  {
    if k == 0 then [] else Copies(k - 1, now) + [now]
  }

  lemma {:induction false} CopiesAreEqual(k: nat, now: int)
    ensures forall i :: 0 <= i < k ==> Copies(k, now)[i] == now
  {
    if k > 0 { CopiesAreEqual(k - 1, now); }
  }

  lemma {:induction false} CopiesCount(k: nat, now: int)
    ensures CountInWindow(Copies(k, now), now) == k
  {
    if k > 0 {
      CopiesCount(k - 1, now);
      assert Copies(k, now)[..k - 1] == Copies(k - 1, now);
    }
  }

  /** k messages typed and sent at one instant. */
  function Burst(k: nat, now: int): seq<Event> {
    if k == 0 then [] else Burst(k - 1, now) + [Typed("a"), SendAt(now)]
  }

  /** m remounts, with 60 messages sent before, between and after them. */
  function Bursts(m: nat, now: int): seq<Event> {
    if m == 0 then Burst(MAX_MESSAGES, now)
    else Bursts(m - 1, now) + [Mounted] + Burst(MAX_MESSAGES, now)
  }

  /** Ready to send, k messages having gone out since the mount, all of them just now. */
  ghost predicate SentNow(r: Record, k: nat, now: int) {
    && Inv(r.state) && !r.state.spamWarning
    && r.state.stamps == Copies(k, now) && r.sentAt == Copies(k, now)
  }

  lemma OneMorePasses(r: Record, k: nat, now: int)
    requires SentNow(r, k, now) && k < MAX_MESSAGES
    ensures var r' := Observe(Observe(r, Typed("a")), SendAt(now));
            SentNow(r', k + 1, now) && r'.earlier == r.earlier && r'.mounts == r.mounts
  {
    CopiesAreEqual(k, now);
    RecentKeepsAll(Copies(k, now), now);
    assert !Blank("a") by { assert !IsTrimmed("a"[0]); }
  }

  lemma RunFromMore(r: Record, es: seq<Event>, e: Event)
    ensures RunFrom(r, es + [e]) == Observe(RunFrom(r, es), e)
  {
    assert (es + [e])[..|es|] == es;
  }

  lemma {:induction false} RunFromAppend(r: Record, es: seq<Event>, fs: seq<Event>)
    ensures RunFrom(r, es + fs) == RunFrom(RunFrom(r, es), fs)
  {
    if fs == [] {
      assert es + fs == es;
    } else {
      var n := |fs| - 1;
      RunFromAppend(r, es, fs[..n]);
      assert fs == fs[..n] + [fs[n]] && es + fs == (es + fs[..n]) + [fs[n]];
      RunFromMore(r, es + fs[..n], fs[n]);
      RunFromMore(RunFrom(r, es), fs[..n], fs[n]);
    }
  }

  lemma TwoMore(r: Record, es: seq<Event>, e: Event, f: Event)
    ensures RunFrom(r, es + [e, f]) == Observe(Observe(RunFrom(r, es), e), f)
  {
    assert es + [e, f] == (es + [e]) + [f];
    RunFromMore(r, es, e);
    RunFromMore(r, es + [e], f);
  }

  lemma {:induction false} BurstPasses(r: Record, k: nat, now: int)
    requires SentNow(r, 0, now) && k <= MAX_MESSAGES
    ensures var r' := RunFrom(r, Burst(k, now));
            SentNow(r', k, now) && r'.earlier == r.earlier && r'.mounts == r.mounts
  {
    if k > 0 {
      BurstPasses(r, k - 1, now);
      TwoMore(r, Burst(k - 1, now), Typed("a"), SendAt(now));
      OneMorePasses(RunFrom(r, Burst(k - 1, now)), k - 1, now);
    }
  }

  /** One mount whose 60 messages all go out in one window. */
  lemma FullMount(r: Record, now: int)
    requires SentNow(r, 0, now)
    ensures var r' := RunFrom(r, Burst(MAX_MESSAGES, now));
            && Inv(r'.state) && r'.mounts == r.mounts
            && CountInWindow(AllSentAt(r'), now) == CountInWindow(r.earlier, now) + MAX_MESSAGES
  {
    BurstPasses(r, MAX_MESSAGES, now);
    CopiesCount(MAX_MESSAGES, now);
    CountInAppend(r.earlier, Copies(MAX_MESSAGES, now), now, now + TIME_WINDOW_MS);
  }

  /** A remount forgets the stamps: the widget is ready to send 60 more. */
  lemma MountRenews(r: Record, now: int)
    requires Inv(r.state)
    ensures var r' := RunFrom(r, [Mounted]);
            SentNow(r', 0, now) && r'.earlier == r.earlier + r.sentAt && r'.mounts == r.mounts + 1
  {
    assert RunFrom(r, [Mounted]) == Observe(r, Mounted);
  }

  /** The bound over remounts is reached, for every number of remounts. */
  lemma {:induction false} RemountBoundIsReached(w: State, m: nat, now: int)
    requires Fresh(w)
    ensures var r := Run(w, Bursts(m, now));
            Inv(r.state) && r.mounts == m && CountInWindow(AllSentAt(r), now) == MAX_MESSAGES * (m + 1)
  {
    if m == 0 {
      FullMount(Start(w), now);
    } else {
      RemountBoundIsReached(w, m - 1, now);
      var r := Run(w, Bursts(m - 1, now));
      RunFromAppend(Start(w), Bursts(m - 1, now), [Mounted]);
      RunFromAppend(Start(w), Bursts(m - 1, now) + [Mounted], Burst(MAX_MESSAGES, now));
      MountRenews(r, now);
      FullMount(RunFrom(r, [Mounted]), now);
    }
  }

  /** Everything timed happens at one instant. */
  ghost predicate AllAt(es: seq<Event>, now: int) {
    forall i :: 0 <= i < |es| && Timed(es[i]) ==> es[i].now == now
  }

  lemma {:induction false} BurstAt(k: nat, now: int)
    ensures AllAt(Burst(k, now), now)
  {
    if k > 0 { BurstAt(k - 1, now); }
  }

  lemma {:induction false} BurstsAt(m: nat, now: int)
    ensures AllAt(Bursts(m, now), now)
  {
    BurstAt(MAX_MESSAGES, now);
    if m > 0 { BurstsAt(m - 1, now); }
  }

  lemma {:induction false} StoppedClockRuns(es: seq<Event>, now: int)
    requires AllAt(es, now)
    ensures ClockRuns(es, now) && Clock(es, now) == now
  {
    if es != [] {
      var n := |es| - 1;
      assert forall i :: 0 <= i < n ==> es[..n][i] == es[i];
      StoppedClockRuns(es[..n], now);
    }
  }

  /** A run with m remounts, from a fresh mount on, under a clock that does not step back. */
  ghost predicate RunWith(w: State, es: seq<Event>, start: int, m: nat) {
    Fresh(w) && ClockRuns(es, start) && Run(w, es).mounts == m
  }

  /** No run with m remounts sends more than b messages in any window. */
  ghost predicate NeverMoreThan(m: nat, b: nat) {
    forall w, es, start, lo :: RunWith(w, es, start, m) ==> CountInWindow(AllSentAt(Run(w, es)), lo) <= b
  }

  /** Over all runs with m remounts the bound of 60 * (m + 1) is the best there is. */
  lemma RemountBoundIsExact(m: nat, b: nat)
    ensures NeverMoreThan(m, b) <==> b >= MAX_MESSAGES * (m + 1)
  {
    if NeverMoreThan(m, b) {
      var w := State([Message(GREETING, true)], "", false, [], [], None, []);
      RemountBoundIsReached(w, m, 0);
      BurstsAt(m, 0);
      StoppedClockRuns(Bursts(m, 0), 0);
      assert RunWith(w, Bursts(m, 0), 0, m);
    }
    forall w, es, start, lo | RunWith(w, es, start, m)
      ensures CountInWindow(AllSentAt(Run(w, es)), lo) <= MAX_MESSAGES * (m + 1)
    {
      WindowBoundOverRemounts(w, es, start, lo);
    }
  }

  /** The promise of 60 per window holds for all runs with m remounts exactly when m is 0. */
  lemma PromiseIffNoRemount(m: nat)
    ensures (forall w, es, start :: RunWith(w, es, start, m) ==> WithinLimit(AllSentAt(Run(w, es)))) <==> m == 0
  {
    RemountBoundIsExact(m, MAX_MESSAGES);
    assert MAX_MESSAGES * (m + 1) == MAX_MESSAGES * m + MAX_MESSAGES;
    if m == 0 {
      forall w, es, start | RunWith(w, es, start, m) ensures WithinLimit(AllSentAt(Run(w, es))) {
        forall lo ensures CountInWindow(AllSentAt(Run(w, es)), lo) <= MAX_MESSAGES {}
      }
    } else {
      var w, es, start, lo :|
        RunWith(w, es, start, m) && CountInWindow(AllSentAt(Run(w, es)), lo) > MAX_MESSAGES;
      assert !WithinLimit(AllSentAt(Run(w, es)));
    }
  }

  // ----- The warning -----

  /** Two rejections within one mount are at least 5000 ms apart: the controls stay disabled
      until the time-out of the first has fired. */
  ghost predicate RejectionsApart(r: Record, clock: int) {
    && |r.state.timers| == (if r.state.spamWarning then 1 else 0)
    && (forall i :: 0 <= i < |r.rejectedAt| - 1 ==> r.rejectedAt[i + 1] - r.rejectedAt[i] >= WARNING_MS)
    && (if r.rejectedAt == [] then !r.state.spamWarning
        else
          var due := r.rejectedAt[|r.rejectedAt| - 1] + WARNING_MS;
          if r.state.spamWarning then r.state.timers == [due] else due <= clock)
  }

  lemma StepKeepsApart(r: Record, e: Event, clock: int, later: int)
    requires RejectionsApart(r, clock) && clock <= later && (Timed(e) ==> e.now == later)
    ensures RejectionsApart(Observe(r, e), later)
  {
    var n := |r.rejectedAt|;
    if e.SendAt? && Attempts(r.state) && !Sends(r.state, e.now) {
      assert n > 0 ==> e.now - r.rejectedAt[n - 1] >= WARNING_MS;
    }
  }

  lemma {:induction false} WarningSpacesRejections(w: State, es: seq<Event>, start: int)
    requires Fresh(w) && ClockRuns(es, start)
    ensures RejectionsApart(Run(w, es), Clock(es, start))
    ensures var at := Run(w, es).rejectedAt; forall i :: 0 <= i < |at| - 1 ==> at[i + 1] - at[i] >= 5000
  {
    if es != [] {
      var n := |es| - 1;
      WarningSpacesRejections(w, es[..n], start);
      StepKeepsApart(Run(w, es[..n]), es[n], Clock(es[..n], start), Clock(es, start));
    }
  }

  // ----- What a run says, from its events alone -----

  /** The code points of the white space and the line terminators of ECMA-262, sections 12.2
      and 12.3. */
  const TRIMMED: set<int> := {
    0x9, 0xA, 0xB, 0xC, 0xD, 0x20, 0xA0, 0x1680,
    0x2000, 0x2001, 0x2002, 0x2003, 0x2004, 0x2005, 0x2006, 0x2007, 0x2008, 0x2009, 0x200A,
    0x2028, 0x2029, 0x202F, 0x205F, 0x3000, 0xFEFF}

  ghost predicate HasText(draft: string) {
    exists i :: 0 <= i < |draft| && draft[i] as int !in TRIMMED
  }

  lemma HasTextIfNotBlank(draft: string)
    ensures HasText(draft) <==> !Blank(draft)
  {
    forall c: char ensures IsTrimmed(c) <==> c as int in TRIMMED { TrimmedByCode(c); }
  }

  lemma TrimmedByCode(c: char)
    ensures IsTrimmed(c) <==> c as int in TRIMMED
  {
    assert c as int in TRIMMED <==>
      || 0x9 <= c as int <= 0xD || c as int == 0x20 || c as int == 0xA0 || c as int == 0x1680
      || 0x2000 <= c as int <= 0x200A || c as int == 0x2028 || c as int == 0x2029
      || c as int == 0x202F || c as int == 0x205F || c as int == 0x3000 || c as int == 0xFEFF;
  }

  predicate Warned(w: State, es: seq<Event>) {
    Run(w, es).state.spamWarning
  }

  /** The run's last event made a message go out. */
  predicate JustSent(w: State, es: seq<Event>) {
    es != [] && |Run(w, es).sent| > |Run(w, es[..|es| - 1]).sent|
  }

  /** What stands in the input: the text typed last while no warning showed, unless it has gone
      out or a mount came since. */
  function Draft(w: State, es: seq<Event>): string {
    if es == [] then ""
    else
      var n := |es| - 1;
      match es[n]
      case Typed(text) => if Warned(w, es[..n]) then Draft(w, es[..n]) else text
      case Mounted => ""
      case SendAt(_) => if JustSent(w, es) then "" else Draft(w, es[..n])
      case _ => Draft(w, es[..n])
  }

  /** A new instance with an empty input. */
  ghost predicate New(w: State) {
    Fresh(w) && w.input == ""
  }

  lemma RunMore(w: State, es: seq<Event>)
    requires es != []
    ensures var n := |es| - 1; Run(w, es) == Observe(Run(w, es[..n]), es[n])
  {
  }

  lemma {:induction false} InputIsDraft(w: State, es: seq<Event>)
    requires New(w)
    ensures Run(w, es).state.input == Draft(w, es)
  {
    if es != [] {
      InputIsDraft(w, es[..|es| - 1]);
      RunMore(w, es);
    }
  }

  /** What follows leaves the input alone: no mount, nothing sent, nothing typed but during a
      warning. */
  ghost predicate KeepsInput(w: State, es: seq<Event>, rest: seq<Event>) {
    rest == [] ||
    var n := |rest| - 1;
    && KeepsInput(w, es, rest[..n])
    && !rest[n].Mounted? && !JustSent(w, es + rest)
    && (rest[n].Typed? ==> Warned(w, es + rest[..n]))
  }

  lemma KeepsMore(w: State, es: seq<Event>, rest: seq<Event>, e: Event)
    requires KeepsInput(w, es, rest) && !e.Mounted? && (e.Typed? ==> Warned(w, es + rest))
    requires !JustSent(w, es + rest + [e])
    ensures KeepsInput(w, es, rest + [e])
  {
    var more := rest + [e];
    assert more[..|more| - 1] == rest && es + more == es + rest + [e];
  }

  /** The last event either typed the draft or left it alone. */
  lemma DraftKept(w: State, es: seq<Event>)
    requires es != [] && Draft(w, es) != ""
    ensures var front, e := es[..|es| - 1], es[|es| - 1];
            || (e == Typed(Draft(w, es)) && !Warned(w, front))
            || (Draft(w, front) == Draft(w, es) && !e.Mounted? && !JustSent(w, es) && (e.Typed? ==> Warned(w, front)))
  {
    RunMore(w, es);
  }

  lemma OneMoreBehind(es: seq<Event>, front: seq<Event>, rest: seq<Event>)
    requires es != [] && es[..|es| - 1] == front + rest
    ensures var last := [es[|es| - 1]]; es == front + (rest + last) == front + rest + last
    ensures rest == [] ==> es == front + [es[|es| - 1]] + []
  {
  }

  lemma {:induction false} DraftWasTyped(w: State, es: seq<Event>) returns (front: seq<Event>, rest: seq<Event>)
    requires Draft(w, es) != ""
    ensures es == front + [Typed(Draft(w, es))] + rest
    ensures !Warned(w, front) && KeepsInput(w, front + [Typed(Draft(w, es))], rest)
    decreases |es|
  {
    var n := |es| - 1;
    var typed := [Typed(Draft(w, es))];
    DraftKept(w, es);
    if es[n] == typed[0] && !Warned(w, es[..n]) {
      front, rest := es[..n], [];
      OneMoreBehind(es, front, []);
    } else {
      var before;
      front, before := DraftWasTyped(w, es[..n]);
      rest := before + [es[n]];
      OneMoreBehind(es, front + typed, before);
      KeepsMore(w, front + typed, before, es[n]);
    }
  }

  /** Everything that goes out was typed: it is the latest text typed while no warning showed,
      not sent before, and with no mount since. */
  lemma SentWasTyped(w: State, es: seq<Event>) returns (front: seq<Event>, text: string, rest: seq<Event>)
    requires New(w) && JustSent(w, es)
    ensures es[|es| - 1].SendAt? && es[..|es| - 1] == front + [Typed(text)] + rest
    ensures !Warned(w, front) && KeepsInput(w, front + [Typed(text)], rest)
    ensures Run(w, es).sent == Run(w, es[..|es| - 1]).sent + [text]
  {
    var n := |es| - 1;
    RunMore(w, es);
    InputIsDraft(w, es[..n]);
    text := Draft(w, es[..n]);
    assert !Blank(text);
    front, rest := DraftWasTyped(w, es[..n]);
  }

  /** A try to send, by what came before it: the draft goes out exactly when no warning shows, it
      has text, and fewer than 60 messages since the mount lie in the last 60000 ms; and only
      that last reason raises the warning. */
  lemma SendGoesOut(w: State, es: seq<Event>, start: int, now: int)
    requires New(w) && ClockRuns(es, start) && Clock(es, start) <= now
    ensures var r, r' := Run(w, es), Observe(Run(w, es), SendAt(now));
            var tries := !Warned(w, es) && HasText(Draft(w, es));
            var open := CountIn(r.sentAt, now - 59999, now + 1) < 60;
            && r'.sent == (if tries && open then r.sent + [Draft(w, es)] else r.sent)
            && r'.sentAt == (if tries && open then r.sentAt + [now] else r.sentAt)
            && (r'.state.spamWarning <==> r.state.spamWarning || (tries && !open))
  {
    InputIsDraft(w, es);
    HasTextIfNotBlank(Draft(w, es));
    SessionRunsLimiter(w, es, start);
    AcceptsExactlyUnderLimit(Run(w, es).attempts, now);
  }

  /** What an event adds to the history, told from the events and what went out. */
  function Said(w: State, es: seq<Event>): seq<Message> {
    if es == [] then []
    else
      var n := |es| - 1;
      Said(w, es[..n]) +
      match es[n]
      case Replied(text) => [Message(text, true)]
      case SendAt(_) => if JustSent(w, es) then [Message(Draft(w, es[..n]), false)] else []
      case _ => []
  }

  /** The displayed history is the one at the start and then, in order, the admin's replies and
      the drafts that went out. */
  lemma {:induction false} HistoryIsWhatWasSaid(w: State, es: seq<Event>)
    requires New(w)
    ensures Run(w, es).state.messages == w.messages + Said(w, es)
  {
    if es != [] {
      var n := |es| - 1;
      HistoryIsWhatWasSaid(w, es[..n]);
      InputIsDraft(w, es[..n]);
      RunKeepsInv(w, es[..n]);
      RunMore(w, es);
      StepKeepsInv(Run(w, es[..n]).state, es[n]);
    }
  }

  // ----- The draft -----

  function TypedCount(es: seq<Event>): nat {
    if es == [] then 0 else TypedCount(es[..|es| - 1]) + if es[|es| - 1].Typed? then 1 else 0
  }

  /** No draft goes out twice: a message sent clears it, so there are never more messages than
      times something was typed. */
  lemma {:induction false} NoDraftTwice(w: State, es: seq<Event>)
    requires Inv(w) && Blank(w.input)
    ensures |Run(w, es).sent| + (if Blank(Run(w, es).state.input) then 0 else 1) <= TypedCount(es)
  {
    if es != [] {
      NoDraftTwice(w, es[..|es| - 1]);
    }
  }

  /** A try to send, some typing, the time-out, and another try. */
  function Retry(now: int, other: string, later: int): seq<Event> {
    [SendAt(now), Typed(other), TimerAt(later), SendAt(later)]
  }

  /** A rejected draft is kept, and frozen while the warning shows.  Sent again later, after the
      time-out, it goes out exactly when the 60th-last message is a window old by then. */
  lemma RejectedDraftGoesOut(w: State, es: seq<Event>, start: int, now: int, other: string, later: int)
    requires Fresh(w) && ClockRuns(es, start) && Clock(es, start) <= now && now + WARNING_MS <= later
    requires var s := Run(w, es).state; Attempts(s) && !Sends(s, now)
    ensures var r := Run(w, es);
            var sent := RunFrom(r, Retry(now, other, later)).sent;
            && |r.sentAt| >= MAX_MESSAGES
            && sent == if later >= r.sentAt[|r.sentAt| - MAX_MESSAGES] + TIME_WINDOW_MS
                       then r.sent + [r.state.input] else r.sent
  {
    SessionRunsLimiter(w, es, start);
    RunKeepsInv(w, es);
    RetryFrom(Run(w, es), Clock(es, start), now, other, later);
  }

  lemma RetryFrom(r: Record, clock: int, now: int, other: string, later: int)
    requires LimiterInv(r, clock) && Inv(r.state) && clock <= now && now + WARNING_MS <= later
    requires Attempts(r.state) && !Sends(r.state, now)
    ensures var sent := RunFrom(r, Retry(now, other, later)).sent;
            && |r.sentAt| >= MAX_MESSAGES
            && sent == if later >= r.sentAt[|r.sentAt| - MAX_MESSAGES] + TIME_WINDOW_MS
                       then r.sent + [r.state.input] else r.sent
  {
    LimiterOpens(r, clock, now, later);
    WaitAndSend(r, now, other, later);
  }

  lemma LimiterOpens(r: Record, clock: int, now: int, later: int)
    requires LimiterInv(r, clock) && clock <= now <= later && !Limit(r.state.stamps, now).accepted
    ensures |r.sentAt| >= MAX_MESSAGES
    ensures Limit(r.state.stamps, later).accepted
       <==> later >= r.sentAt[|r.sentAt| - MAX_MESSAGES] + TIME_WINDOW_MS
  {
    FirstAcceptableTime(r.attempts, now, later);
    ReplayOneMore(r.attempts, now);
  }

  lemma WaitAndSend(r: Record, now: int, other: string, later: int)
    requires Inv(r.state) && Attempts(r.state) && !Sends(r.state, now) && now + WARNING_MS <= later
    ensures RunFrom(r, Retry(now, other, later)).sent
         == if Limit(r.state.stamps, later).accepted then r.sent + [r.state.input] else r.sent
  {
    RunFromFour(r, SendAt(now), Typed(other), TimerAt(later), SendAt(later));
    RejectWaitSend(r, now, other, later);
  }

  lemma RunFromFour(r: Record, e: Event, f: Event, g: Event, h: Event)
    ensures RunFrom(r, [e, f, g, h]) == Observe(Observe(Observe(Observe(r, e), f), g), h)
  {
    TwoMore(r, [], e, f);
    TwoMore(r, [e, f], g, h);
    assert [] + [e, f] == [e, f] && [e, f] + [g, h] == [e, f, g, h];
  }

  lemma RejectWaitSend(r: Record, now: int, other: string, later: int)
    requires Inv(r.state) && Attempts(r.state) && !Sends(r.state, now) && now + WARNING_MS <= later
    ensures var r' := Observe(Observe(Observe(Observe(r, SendAt(now)), Typed(other)), TimerAt(later)), SendAt(later));
            r'.sent == if Limit(r.state.stamps, later).accepted then r.sent + [r.state.input] else r.sent
  {
    var rejected := Observe(r, SendAt(now));
    assert rejected.state.timers == [now + WARNING_MS] && rejected.state.input == r.state.input;
    var waited := Observe(Observe(rejected, Typed(other)), TimerAt(later));
    assert waited.state.input == r.state.input && !waited.state.spamWarning && waited.state.stamps == r.state.stamps;
  }
}
