/**
 The wakeup gate between partition writers and parked consumers.

 `parked` is a relaxed atomic, so it is modelled by its modification order `counter`: an update
 appends to it, and a relaxed load may return any value from the newest entry the loading thread
 is known to have seen on. A message carries the sender's view, and receiving it raises the
 receiver's: that send-to-receive edge is all the ordering the source relies on.
 */
module Wakeups {
  import Partitions

  datatype Message =
    | Produce(count: nat)
    | Probe(consumer: nat, ticket: nat, offset: nat, view: nat)

  // `mustSignal`: a command was processed and its `signal()` is still to run.
  datatype Writer = Writer(first: nat, next: nat, inbox: seq<Message>, mustSignal: bool, seen: nat)

  datatype Asked = Nothing | Waiting(partition: nat) | Answered(partition: nat, found: bool)

  // One pass over the partitions: those that answered "nothing there", and the question under way.
  datatype Phase =
    | Resting
    | Scanning(empty: set<nat>, asked: Asked)
    | Marked(mark: nat)
    | ParkedScanning(mark: nat, empty: set<nat>, asked: Asked)
    | Awaiting(mark: nat)

  datatype Consumer = Consumer(cursors: seq<nat>, phase: Phase, ticket: nat, view: nat, notified: bool)

  datatype State = State(writers: seq<Writer>, consumers: seq<Consumer>, counter: seq<int>)

  datatype Step =
    | Send(writer: nat, count: nat)
    | Process(writer: nat)
    | Signal(writer: nat, read: nat)
    | Retire(writer: nat, first: nat)
    | Begin(consumer: nat)
    | Ask(consumer: nat, partition: nat)
    | Receive(consumer: nat)
    | Mark(consumer: nat)
    | Enable(consumer: nat)
    | Park(consumer: nat)
    | Wake(consumer: nat)
    | Fail(consumer: nat)
    | Cancel(consumer: nat)
    | MoveTo(consumer: nat, partition: nat, offset: nat)

  predicate HasMark(c: Consumer) {
    c.phase.Marked? || c.phase.ParkedScanning? || c.phase.Awaiting?
  }

  // Registered with the notifier: a `notify_waiters()` from now on reaches it.
  predicate Registered(c: Consumer) {
    c.phase.ParkedScanning? || c.phase.Awaiting?
  }

  predicate Readable(w: Writer, offset: nat) {
    w.first <= offset < w.next
  }

  function Last(s: seq<int>): (n: int)
    requires s != []
  {
    s[|s| - 1]
  }

  // A pass is over when every partition has answered "nothing there".
  predicate PassOver(empty: set<nat>, partitions: nat) {
    forall p :: 0 <= p < partitions ==> p in empty
  }

  // ---------------------------------------------------------------- steps

  predicate Enabled(s: State, step: Step) {
    match step
    case Send(w, _) => w < |s.writers|
    case Process(w) => w < |s.writers| && s.writers[w].inbox != []
    case Signal(w, read) => w < |s.writers| && s.writers[w].mustSignal && s.writers[w].seen <= read < |s.counter|
    case Retire(w, first) => w < |s.writers| && s.writers[w].first <= first <= s.writers[w].next
    case Begin(c) => c < |s.consumers| && s.consumers[c].phase.Resting?
    case Ask(c, p) =>
      && c < |s.consumers| && p < |s.writers| && p < |s.consumers[c].cursors|
      && var phase := s.consumers[c].phase;
         (phase.Scanning? || phase.ParkedScanning?) && phase.asked.Nothing? && p !in phase.empty
    case Receive(c) =>
      && c < |s.consumers|
      && var phase := s.consumers[c].phase;
         (phase.Scanning? || phase.ParkedScanning?) && phase.asked.Answered? && s.counter != []
         && phase.asked.partition < |s.consumers[c].cursors|
    case Mark(c) =>
      && c < |s.consumers| && s.counter != []
      && s.consumers[c].phase.Scanning? && s.consumers[c].phase.asked.Nothing?
      && PassOver(s.consumers[c].phase.empty, |s.writers|)
    case Enable(c) => c < |s.consumers| && s.consumers[c].phase.Marked?
    case Park(c) =>
      && c < |s.consumers| && s.consumers[c].phase.ParkedScanning?
      && s.consumers[c].phase.asked.Nothing? && PassOver(s.consumers[c].phase.empty, |s.writers|)
    case Wake(c) =>
      c < |s.consumers| && s.consumers[c].phase.Awaiting? && s.consumers[c].notified && s.counter != []
    case Fail(c) =>
      c < |s.consumers| && (s.consumers[c].phase.Scanning? || s.consumers[c].phase.ParkedScanning?) && s.counter != []
    case Cancel(c) => c < |s.consumers|
    case MoveTo(c, p, _) => c < |s.consumers| && s.consumers[c].phase.Resting? && p < |s.consumers[c].cursors|
  }

  function WithAsked(phase: Phase, asked: Asked): (p: Phase)
    requires phase.Scanning? || phase.ParkedScanning?
  {
    phase.(asked := asked)
  }

  // A probe is answered only if its asker still waits for that very answer.
  function Answer(c: Consumer, partition: nat, ticket: nat, found: bool): (r: Consumer) {
    if (c.phase.Scanning? || c.phase.ParkedScanning?) && c.phase.asked == Waiting(partition) && c.ticket == ticket
    then c.(phase := WithAsked(c.phase, Answered(partition, found)))
    else c
  }

  function Handle(s: State, w: nat): (t: State)
    requires w < |s.writers| && s.writers[w].inbox != []
  {
    var writer := s.writers[w];
    var rest := writer.(inbox := writer.inbox[1..], mustSignal := true);
    match writer.inbox[0]
    case Produce(n) => s.(writers := s.writers[w := rest.(next := rest.next + n)])
    case Probe(c, ticket, offset, view) =>
      var seen := if writer.seen < view then view else writer.seen;
      var t := s.(writers := s.writers[w := rest.(seen := seen)]);
      if c < |s.consumers|
      then t.(consumers := t.consumers[c := Answer(t.consumers[c], w, ticket, Readable(writer, offset))])
      else t
  }

  function Notify(c: Consumer): (r: Consumer) {
    if Registered(c) then c.(notified := true) else c
  }

  // An update of the atomic: it extends the modification order and is the updater's newest view.
  function Adjust(s: State, c: nat, value: int, phase: Phase): (t: State)
    requires c < |s.consumers|
  {
    s.(counter := s.counter + [value],
       consumers := s.consumers[c := s.consumers[c].(phase := phase, view := |s.counter|)])
  }

  function SetPhase(s: State, c: nat, phase: Phase): (t: State)
    requires c < |s.consumers|
  {
    s.(consumers := s.consumers[c := s.consumers[c].(phase := phase)])
  }

  function Next(s: State, step: Step): (t: State)
    requires Enabled(s, step)
  {
    match step
    case Send(w, n) => s.(writers := s.writers[w := s.writers[w].(inbox := s.writers[w].inbox + [Produce(n)])])
    case Process(w) => Handle(s, w)
    case Signal(w, read) =>
      var t := s.(writers := s.writers[w := s.writers[w].(mustSignal := false, seen := read)]);
      if s.counter[read] > 0
      then t.(consumers := seq(|s.consumers|, i requires 0 <= i < |s.consumers| => Notify(s.consumers[i])))
      else t
    case Retire(w, first) => s.(writers := s.writers[w := s.writers[w].(first := first)])
    case Begin(c) => SetPhase(s, c, Scanning({}, Nothing))
    case Ask(c, p) =>
      var me := s.consumers[c];
      var probe := Probe(c, me.ticket + 1, me.cursors[p], me.view);
      s.(writers := s.writers[p := s.writers[p].(inbox := s.writers[p].inbox + [probe])],
         consumers := s.consumers[c := me.(ticket := me.ticket + 1, phase := WithAsked(me.phase, Waiting(p)))])
    case Receive(c) =>
      var me := s.consumers[c];
      var p := me.phase.asked.partition;
      if me.phase.asked.found then
        var moved := s.(consumers := s.consumers[c := me.(cursors := me.cursors[p := me.cursors[p] + 1])]);
        if me.phase.ParkedScanning? then Adjust(moved, c, Last(s.counter) - 1, Resting) else SetPhase(moved, c, Resting)
      else SetPhase(s, c, WithAsked(me.phase, Nothing).(empty := me.phase.empty + {p}))
    case Mark(c) => Adjust(s, c, Last(s.counter) + 1, Marked(|s.counter|))
    case Enable(c) =>
      var me := s.consumers[c];
      s.(consumers := s.consumers[c := me.(phase := ParkedScanning(me.phase.mark, {}, Nothing), notified := false)])
    case Park(c) => SetPhase(s, c, Awaiting(s.consumers[c].phase.mark))
    case Wake(c) => Adjust(s, c, Last(s.counter) - 1, Scanning({}, Nothing))
    case Fail(c) =>
      if s.consumers[c].phase.ParkedScanning? then Adjust(s, c, Last(s.counter) - 1, Resting)
      else SetPhase(s, c, Resting)
    case Cancel(c) => SetPhase(s, c, Resting)
    case MoveTo(c, p, offset) =>
      var me := s.consumers[c];
      s.(consumers := s.consumers[c := me.(cursors := me.cursors[p := offset])])
  }

  // ---------------------------------------------------------------- the invariant

  function MarkedBy(consumers: seq<Consumer>, i: nat): (marked: set<nat>) {
    set c: nat | c < |consumers| && HasMark(consumers[c]) && consumers[c].phase.mark <= i
  }

  // Every value the counter ever held from a consumer's mark on still counts that consumer.
  ghost predicate Counts(s: State) {
    && s.counter != []
    && forall i :: 0 <= i < |s.counter| ==> s.counter[i] >= |MarkedBy(s.consumers, i)|
  }

  ghost predicate ViewsInRange(s: State) {
    && (forall w :: 0 <= w < |s.writers| ==> s.writers[w].seen < |s.counter|)
    && (forall c :: 0 <= c < |s.consumers| ==>
          && s.consumers[c].view < |s.counter| && |s.consumers[c].cursors| == |s.writers|
          && (HasMark(s.consumers[c]) ==> s.consumers[c].phase.mark <= s.consumers[c].view))
  }

  // Probes are consistent with their askers: a live one carries the asker's mark and cursor.
  ghost predicate ProbesOk(s: State) {
    forall w, k :: 0 <= w < |s.writers| && 0 <= k < |s.writers[w].inbox| ==> ProbeOk(s, w, s.writers[w].inbox[k])
  }

  predicate AsksOf(c: Consumer, p: nat) {
    (c.phase.Scanning? || c.phase.ParkedScanning?) && c.phase.asked == Waiting(p)
  }

  ghost predicate ProbeOk(s: State, w: nat, m: Message) {
    m.Probe? ==>
      && m.view < |s.counter|
      && (m.consumer < |s.consumers| ==>
            var c := s.consumers[m.consumer];
            && m.ticket <= c.ticket
            && (m.ticket == c.ticket && w < |c.cursors| && AsksOf(c, w) ==>
                  m.offset == c.cursors[w] && (c.phase.ParkedScanning? ==> c.phase.mark <= m.view)))
  }

  // A registered consumer has been told that partition p holds nothing at its cursor.
  predicate Told(c: Consumer, p: nat) {
    || (c.phase.ParkedScanning? && (p in c.phase.empty || c.phase.asked == Answered(p, false)))
    || c.phase.Awaiting?
  }

  // Such a partition's writer has seen the mark; if it has since got something, the consumer is
  // notified already or the writer is about to signal.
  ghost predicate Covered(s: State, c: Consumer, p: nat) {
    p < |s.writers| && p < |c.cursors| && Registered(c) ==>
      && c.phase.mark <= s.writers[p].seen
      && (Readable(s.writers[p], c.cursors[p]) ==> c.notified || s.writers[p].mustSignal)
  }

  ghost predicate AllCovered(s: State) {
    forall c, p :: 0 <= c < |s.consumers| && 0 <= p < |s.writers| && Told(s.consumers[c], p) ==>
      Covered(s, s.consumers[c], p)
  }

  ghost predicate Inv(s: State) {
    Counts(s) && ViewsInRange(s) && ProbesOk(s) && AllCovered(s)
  }

  // ---------------------------------------------------------------- no lost wakeup

  /**
   The claim: a consumer that sleeps un-notified has nothing to read anywhere, except at a
   partition whose writer still has its signal to run and can only load a positive counter.
   */
  ghost predicate NoLostWakeup(s: State) {
    forall c, p ::
      (&& 0 <= c < |s.consumers| && 0 <= p < |s.writers| && p < |s.consumers[c].cursors|
       && s.consumers[c].phase.Awaiting? && !s.consumers[c].notified
       && Readable(s.writers[p], s.consumers[c].cursors[p]))
      ==>
      (&& s.writers[p].mustSignal
       && forall i :: s.writers[p].seen <= i < |s.counter| ==> s.counter[i] > 0)
  }

  lemma InvImpliesNoLostWakeup(s: State)
    requires Inv(s)
    ensures NoLostWakeup(s)
  {
    forall c, p | 0 <= c < |s.consumers| && 0 <= p < |s.writers| && p < |s.consumers[c].cursors|
      && s.consumers[c].phase.Awaiting? && !s.consumers[c].notified
      && Readable(s.writers[p], s.consumers[c].cursors[p])
      ensures s.writers[p].mustSignal
      ensures forall i :: s.writers[p].seen <= i < |s.counter| ==> s.counter[i] > 0
    {
      assert Told(s.consumers[c], p);
      assert Covered(s, s.consumers[c], p);
      forall i | s.writers[p].seen <= i < |s.counter|
        ensures s.counter[i] > 0
      {
        assert c in MarkedBy(s.consumers, i);
      }
    }
  }

  /** The signal that is still to run cannot miss: whatever it loads, the sleeper is notified. */
  lemma PendingSignalWakes(s: State, c: nat, p: nat, read: nat)
    requires Inv(s) && c < |s.consumers| && p < |s.writers|
    requires s.consumers[c].phase.Awaiting? && p < |s.consumers[c].cursors|
    requires Readable(s.writers[p], s.consumers[c].cursors[p])
    requires Enabled(s, Signal(p, read))
    ensures Next(s, Signal(p, read)).consumers[c].notified
  {
    assert Told(s.consumers[c], p);
    assert Covered(s, s.consumers[c], p);
    assert c in MarkedBy(s.consumers, read);
  }

  // ---------------------------------------------------------------- every step keeps the invariant

  lemma FewerMarks(before: seq<Consumer>, after: seq<Consumer>, i: nat)
    requires |after| == |before|
    requires forall c :: 0 <= c < |after| && HasMark(after[c]) ==>
               HasMark(before[c]) && before[c].phase.mark == after[c].phase.mark
    ensures |MarkedBy(after, i)| <= |MarkedBy(before, i)|
  {
    assert MarkedBy(after, i) <= MarkedBy(before, i);
    SubsetIsSmaller(MarkedBy(after, i), MarkedBy(before, i));
  }

  lemma SubsetIsSmaller(x: set<nat>, y: set<nat>)
    requires x <= y
    ensures |x| <= |y|
  {
    assert y == x + (y - x);
  }

  predicate WriterStep(step: Step) {
    step.Send? || step.Process? || step.Signal? || step.Retire?
  }

  lemma CountsKept(s: State, step: Step)
    requires Inv(s) && Enabled(s, step)
    ensures Counts(Next(s, step))
  {
    hide AllCovered, ProbesOk;
    var t := Next(s, step);
    if t.counter == s.counter {
      forall i | 0 <= i < |t.counter|
        ensures t.counter[i] >= |MarkedBy(t.consumers, i)|
      {
        FewerMarks(s.consumers, t.consumers, i);
      }
    } else if step.Mark? {
      MarkCounts(s, step.consumer);
    } else {
      UnmarkCounts(s, t, step.consumer);
    }
  }

  lemma MarkCounts(s: State, c: nat)
    requires Inv(s) && Enabled(s, Mark(c))
    ensures Counts(Next(s, Mark(c)))
  {
    var t := Next(s, Mark(c));
    var n := |s.counter|;
    forall i | 0 <= i < n
      ensures t.counter[i] >= |MarkedBy(t.consumers, i)|
    {
      assert MarkedBy(t.consumers, i) == MarkedBy(s.consumers, i);
    }
    assert MarkedBy(t.consumers, n) == MarkedBy(s.consumers, n - 1) + {c};
  }

  lemma UnmarkCounts(s: State, t: State, c: nat)
    requires Inv(s) && c < |s.consumers| && HasMark(s.consumers[c])
    requires t.counter == s.counter + [Last(s.counter) - 1]
    requires |t.consumers| == |s.consumers| && !HasMark(t.consumers[c])
    requires forall d :: 0 <= d < |s.consumers| && d != c ==> t.consumers[d] == s.consumers[d]
    ensures Counts(t)
  {
    var n := |s.counter|;
    forall i | 0 <= i < n
      ensures t.counter[i] >= |MarkedBy(t.consumers, i)|
    {
      FewerMarks(s.consumers, t.consumers, i);
    }
    assert MarkedBy(t.consumers, n) == MarkedBy(s.consumers, n - 1) - {c};
    assert c in MarkedBy(s.consumers, n - 1);
  }

  lemma ViewsKeptByConsumer(s: State, step: Step)
    requires Inv(s) && Enabled(s, step) && !WriterStep(step)
    ensures ViewsInRange(Next(s, step))
  {
    hide Counts, AllCovered, ProbesOk;
  }

  lemma ViewsKeptByWriter(s: State, step: Step)
    requires Inv(s) && Enabled(s, step) && WriterStep(step)
    ensures ViewsInRange(Next(s, step))
  {
    hide Counts, AllCovered;
    if step.Process? {
      var w := step.writer;
      assert ProbeOk(s, w, s.writers[w].inbox[0]);
    }
  }

  lemma ProbesKeptByWriter(s: State, step: Step)
    requires Inv(s) && Enabled(s, step) && WriterStep(step)
    ensures ProbesOk(Next(s, step))
  {
    hide Counts, AllCovered;
    var t := Next(s, step);
    forall w, k | 0 <= w < |t.writers| && 0 <= k < |t.writers[w].inbox|
      ensures ProbeOk(t, w, t.writers[w].inbox[k])
    {
      if step.Process? && w == step.writer {
        assert ProbeOk(s, w, s.writers[w].inbox[k + 1]);
      } else if k < |s.writers[w].inbox| {
        assert ProbeOk(s, w, s.writers[w].inbox[k]);
      }
    }
  }

  lemma ProbesKeptByConsumer(s: State, step: Step)
    requires Inv(s) && Enabled(s, step) && !WriterStep(step)
    ensures ProbesOk(Next(s, step))
  {
    hide Counts, AllCovered;
    var t := Next(s, step);
    forall w, k | 0 <= w < |t.writers| && 0 <= k < |t.writers[w].inbox|
      ensures ProbeOk(t, w, t.writers[w].inbox[k])
    {
      if k < |s.writers[w].inbox| {
        assert ProbeOk(s, w, s.writers[w].inbox[k]);
      }
    }
  }

  lemma CoveredKeptByWriter(s: State, step: Step)
    requires Inv(s) && Enabled(s, step) && WriterStep(step)
    ensures AllCovered(Next(s, step))
  {
    var t := Next(s, step);
    forall c, p | 0 <= c < |t.consumers| && 0 <= p < |t.writers| && Told(t.consumers[c], p)
      ensures Covered(t, t.consumers[c], p)
    {
      if Told(s.consumers[c], p) {
        assert Covered(s, s.consumers[c], p);
      }
      if step.Process? {
        assert ProbeOk(s, step.writer, s.writers[step.writer].inbox[0]);
      }
      if step.Signal? && p == step.writer {
        assert c in MarkedBy(s.consumers, step.read);
      }
    }
  }

  lemma CoveredKeptByConsumer(s: State, step: Step)
    requires Inv(s) && Enabled(s, step) && !WriterStep(step)
    ensures AllCovered(Next(s, step))
  {
    hide Counts, ProbesOk;
    var t := Next(s, step);
    forall c, p | 0 <= c < |t.consumers| && 0 <= p < |t.writers| && Told(t.consumers[c], p)
      ensures Covered(t, t.consumers[c], p)
    {
      if Told(s.consumers[c], p) {
        assert Covered(s, s.consumers[c], p);
      }
    }
  }

  lemma InvKept(s: State, step: Step)
    requires Inv(s) && Enabled(s, step)
    ensures Inv(Next(s, step))
  {
    hide Counts, ViewsInRange, ProbesOk, AllCovered, Next, Enabled;
    CountsKept(s, step);
    if WriterStep(step) {
      ViewsKeptByWriter(s, step);
      ProbesKeptByWriter(s, step);
      CoveredKeptByWriter(s, step);
    } else {
      ViewsKeptByConsumer(s, step);
      ProbesKeptByConsumer(s, step);
      CoveredKeptByConsumer(s, step);
    }
  }

  // ---------------------------------------------------------------- every run

  predicate Initial(s: State) {
    && s.counter == [0]
    && (forall w :: 0 <= w < |s.writers| ==>
          s.writers[w].inbox == [] && s.writers[w].seen == 0 && !s.writers[w].mustSignal)
    && (forall c :: 0 <= c < |s.consumers| ==>
          s.consumers[c].phase.Resting? && s.consumers[c].view == 0 && |s.consumers[c].cursors| == |s.writers|)
  }

  /** The counter is positive whenever a consumer deregisters, so it never wraps below zero. */
  lemma UnmarkNeverUnderflows(s: State, c: nat)
    requires Inv(s) && c < |s.consumers| && HasMark(s.consumers[c])
    ensures Last(s.counter) > 0
  {
    assert c in MarkedBy(s.consumers, |s.counter| - 1);
  }

  // ---------------------------------------------------------------- what the steps mean

  /**
   The answer to a live probe is whether the writer has a retained, assigned record at the offset
   it asks for, at the moment it is processed; any other probe changes no consumer.
   */
  lemma AnswerMeans(s: State, w: nat, c: nat, ticket: nat, offset: nat, view: nat)
    requires w < |s.writers| && s.writers[w].inbox != [] && s.writers[w].inbox[0] == Probe(c, ticket, offset, view)
    ensures var t := Next(s, Process(w));
            && t.writers[w].inbox == s.writers[w].inbox[1..] && t.writers[w].mustSignal && t.writers[w].seen >= view
            && (forall d :: 0 <= d < |s.consumers| && d != c ==> t.consumers[d] == s.consumers[d])
            && (c < |s.consumers| && !(AsksOf(s.consumers[c], w) && s.consumers[c].ticket == ticket) ==>
                  t.consumers == s.consumers)
            && (c < |s.consumers| && AsksOf(s.consumers[c], w) && s.consumers[c].ticket == ticket ==>
                  var found := s.writers[w].first <= offset && offset < s.writers[w].next;
                  t.consumers[c] == s.consumers[c].(phase := s.consumers[c].phase.(asked := Answered(w, found))))
  {
  }

  /** Which is whether the partition's log answers a read at that offset with a record. */
  lemma AnswerIsTheLogs(log: Partitions.PlainLog, w: Writer, offset: nat)
    requires log.origin <= log.first == w.first && log.Next() == w.next
    ensures Readable(w, offset) <==> log.Read(offset).Some?
  {
  }

  /** A cursor moves only by receiving a record of its partition, and then by one, or by a seek. */
  lemma CursorMoves(s: State, step: Step, c: nat, p: nat)
    requires Enabled(s, step) && c < |s.consumers| && p < |s.consumers[c].cursors|
    ensures var t := Next(s, step);
            && |t.consumers| == |s.consumers| && |t.consumers[c].cursors| == |s.consumers[c].cursors|
            && (step == Receive(c) && s.consumers[c].phase.asked == Answered(p, true) ==>
                  t.consumers[c].cursors[p] == s.consumers[c].cursors[p] + 1 && t.consumers[c].phase == Resting)
            && (!(step == Receive(c) && s.consumers[c].phase.asked == Answered(p, true))
                && !(step.MoveTo? && step.consumer == c && step.partition == p) ==>
                  t.consumers[c].cursors[p] == s.consumers[c].cursors[p])
  {
  }

  function Pending(inbox: seq<Message>): (n: nat) {
    if inbox == [] then 0 else
    Pending(inbox[..|inbox| - 1]) + if inbox[|inbox| - 1].Produce? then inbox[|inbox| - 1].count else 0
  }

  lemma {:induction false} PendingSplit(m: Message, rest: seq<Message>)
    ensures Pending([m] + rest) == (if m.Produce? then m.count else 0) + Pending(rest)
    decreases |rest|
  {
    if rest == [] {
      assert ([m] + rest)[..0] == [];
    } else {
      var most := rest[..|rest| - 1];
      PendingSplit(m, most);
      assert ([m] + rest)[..|rest|] == [m] + most;
    }
  }

  lemma PendingSnoc(inbox: seq<Message>, m: Message)
    ensures Pending(inbox + [m]) == Pending(inbox) + if m.Produce? then m.count else 0
  {
    assert (inbox + [m])[..|inbox|] == inbox;
  }

  /** A step sends records to a writer only by `Send`; otherwise what it has and what is on its way stay the same. */
  lemma RecordsAreConserved(s: State, step: Step, w: nat)
    requires Enabled(s, step) && w < |s.writers|
    ensures var t := Next(s, step);
            && |t.writers| == |s.writers|
            && t.writers[w].next + Pending(t.writers[w].inbox)
               == s.writers[w].next + Pending(s.writers[w].inbox)
                  + if step.Send? && step.writer == w then step.count else 0
  {
    hide Pending;
    var inbox := s.writers[w].inbox;
    match step {
      case Send(v, n) =>
        PendingSnoc(inbox, Produce(n));
      case Process(v) =>
        if v == w {
          PendingSplit(inbox[0], inbox[1..]);
          assert [inbox[0]] + inbox[1..] == inbox;
        }
      case Ask(c, p) =>
        var me := s.consumers[c];
        PendingSnoc(inbox, Probe(c, me.ticket + 1, me.cursors[p], me.view));
      case _ =>
    }
  }

  // ---------------------------------------------------------------- laws over runs

  ghost predicate Run(states: seq<State>, steps: seq<Step>) {
    && |states| == |steps| + 1 && Initial(states[0])
    && forall i :: 0 <= i < |steps| ==> Enabled(states[i], steps[i]) && states[i + 1] == Next(states[i], steps[i])
  }

  function SentTo(steps: seq<Step>, w: nat): (n: nat) {
    if steps == [] then 0 else
    var last := steps[|steps| - 1];
    SentTo(steps[..|steps| - 1], w) + if last.Send? && last.writer == w then last.count else 0
  }

  lemma ShorterRun(states: seq<State>, steps: seq<Step>)
    requires Run(states, steps) && steps != []
    ensures Run(states[..|steps|], steps[..|steps| - 1])
  {
    hide Enabled, Next, Initial;
  }

  /** Nothing sent is lost: in every run, what a partition has and what is on its way is what was sent to it. */
  lemma {:induction false} NothingSentIsLost(states: seq<State>, steps: seq<Step>, w: nat)
    requires Run(states, steps) && w < |states[0].writers|
    ensures var now := states[|steps|];
            && |now.writers| == |states[0].writers|
            && now.writers[w].next + Pending(now.writers[w].inbox) == states[0].writers[w].next + SentTo(steps, w)
    decreases |steps|
  {
    hide Enabled, Next;
    if steps != [] {
      var n := |steps| - 1;
      ShorterRun(states, steps);
      NothingSentIsLost(states[..n + 1], steps[..n], w);
      RecordsAreConserved(states[n], steps[n], w);
    }
  }

  lemma {:induction false} RunIsInvariant(states: seq<State>, steps: seq<Step>)
    requires Run(states, steps)
    ensures Inv(states[|steps|])
    decreases |steps|
  {
    hide Enabled, Next, Inv;
    if steps == [] {
      InitialInv(states[0]);
    } else {
      ShorterRun(states, steps);
      RunIsInvariant(states[..|steps|], steps[..|steps| - 1]);
      InvKept(states[|steps| - 1], steps[|steps| - 1]);
    }
  }

  lemma InitialInv(s: State)
    requires Initial(s)
    ensures Inv(s)
  {
    assert forall i :: 0 <= i < 1 ==> MarkedBy(s.consumers, i) == {};
  }

  // Before step n the writer of `p` processed a command while holding, or not holding, a record at `cursor`.
  ghost predicate HeldWhenAsked(states: seq<State>, steps: seq<Step>, n: nat, p: nat, cursor: nat, found: bool)
    requires n <= |steps| < |states|
  {
    exists i :: 0 <= i < n && AnsweredWith(states[i], steps[i], p, cursor, found)
  }

  ghost predicate AnsweredWith(s: State, step: Step, p: nat, cursor: nat, found: bool) {
    && step == Process(p) && p < |s.writers|
    && (found <==> s.writers[p].first <= cursor && cursor < s.writers[p].next)
  }

  // What a scanning consumer has been told is what was so when its question was processed.
  ghost predicate ToldTruly(states: seq<State>, steps: seq<Step>, n: nat, c: Consumer)
    requires n <= |steps| < |states|
  {
    c.phase.Scanning? || c.phase.ParkedScanning? ==>
      && (c.phase.asked.Answered? && c.phase.asked.partition < |c.cursors| ==>
            HeldWhenAsked(states, steps, n, c.phase.asked.partition, c.cursors[c.phase.asked.partition],
                          c.phase.asked.found))
      && (forall p :: p in c.phase.empty && p < |c.cursors| ==> HeldWhenAsked(states, steps, n, p, c.cursors[p], false))
  }

  lemma HeldStays(states: seq<State>, steps: seq<Step>, n: nat, p: nat, cursor: nat, found: bool)
    requires n < |steps| < |states| && HeldWhenAsked(states, steps, n, p, cursor, found)
    ensures HeldWhenAsked(states, steps, n + 1, p, cursor, found)
  {
    hide AnsweredWith;
    var i :| 0 <= i < n && AnsweredWith(states[i], steps[i], p, cursor, found);
  }

  lemma ToldStays(states: seq<State>, steps: seq<Step>, n: nat, c: Consumer)
    requires n < |steps| < |states| && ToldTruly(states, steps, n, c)
    ensures ToldTruly(states, steps, n + 1, c)
  {
    hide HeldWhenAsked;
    if c.phase.Scanning? || c.phase.ParkedScanning? {
      if c.phase.asked.Answered? && c.phase.asked.partition < |c.cursors| {
        HeldStays(states, steps, n, c.phase.asked.partition, c.cursors[c.phase.asked.partition], c.phase.asked.found);
      }
      forall p | p in c.phase.empty && p < |c.cursors|
        ensures HeldWhenAsked(states, steps, n + 1, p, c.cursors[p], false)
      {
        HeldStays(states, steps, n, p, c.cursors[p], false);
      }
    }
  }

  // One step keeps a consumer truly told.
  lemma StepTellsTruly(states: seq<State>, steps: seq<Step>, n: nat, c: nat)
    requires n < |steps| < |states| && Enabled(states[n], steps[n]) && Inv(states[n]) && c < |states[n].consumers|
    requires ToldTruly(states, steps, n, states[n].consumers[c])
    ensures |Next(states[n], steps[n]).consumers| == |states[n].consumers|
    ensures ToldTruly(states, steps, n + 1, Next(states[n], steps[n]).consumers[c])
  {
    hide Counts, ViewsInRange, AllCovered, HeldWhenAsked;
    var s, step := states[n], steps[n];
    var me := s.consumers[c];
    ToldStays(states, steps, n, me);
    if step.Process? && s.writers[step.writer].inbox[0].Probe? && s.writers[step.writer].inbox[0].consumer == c {
      var w := step.writer;
      var probe := s.writers[w].inbox[0];
      assert ProbeOk(s, w, probe);
      AnswerMeans(s, w, c, probe.ticket, probe.offset, probe.view);
      if AsksOf(me, w) && me.ticket == probe.ticket && w < |me.cursors| {
        var found := s.writers[w].first <= me.cursors[w] && me.cursors[w] < s.writers[w].next;
        HeldNow(states, steps, n, w, me.cursors[w], found);
      }
    }
  }

  lemma HeldNow(states: seq<State>, steps: seq<Step>, n: nat, p: nat, cursor: nat, found: bool)
    requires n < |steps| < |states| && AnsweredWith(states[n], steps[n], p, cursor, found)
    ensures HeldWhenAsked(states, steps, n + 1, p, cursor, found)
  {
  }

  lemma {:induction false} ConsumersAreToldTruly(states: seq<State>, steps: seq<Step>, n: nat, c: nat)
    requires Run(states, steps) && n <= |steps| && c < |states[0].consumers|
    ensures |states[n].consumers| == |states[0].consumers| && ToldTruly(states, steps, n, states[n].consumers[c])
    decreases n
  {
    hide ToldTruly, Enabled, Next, Inv;
    if n == 0 {
      NothingToldYet(states, steps, c);
    } else {
      ConsumersAreToldTruly(states, steps, n - 1, c);
      assert states[..n][n - 1] == states[n - 1];
      RunPrefixInv(states, steps, n - 1);
      StepTellsTruly(states, steps, n - 1, c);
    }
  }

  lemma NothingToldYet(states: seq<State>, steps: seq<Step>, c: nat)
    requires Run(states, steps) && c < |states[0].consumers|
    ensures ToldTruly(states, steps, 0, states[0].consumers[c])
  {
    hide Enabled, Next;
  }

  lemma RunPrefixInv(states: seq<State>, steps: seq<Step>, n: nat)
    requires Run(states, steps) && n <= |steps|
    ensures Inv(states[n])
  {
    hide Enabled, Next, Inv, Initial;
    RunIsInvariant(states[..n + 1], steps[..n]);
  }

  /**
   In every run: a record is received only if the partition held it, at that very offset, when it
   processed the question, and then that cursor moves on by one.
   */
  lemma ReceivedWasThere(states: seq<State>, steps: seq<Step>, n: nat, c: nat, p: nat)
    requires Run(states, steps) && n < |steps| && steps[n] == Receive(c) && c < |states[n].consumers|
    requires states[n].consumers[c].phase.Scanning? || states[n].consumers[c].phase.ParkedScanning?
    requires states[n].consumers[c].phase.asked == Answered(p, true) && p < |states[n].consumers[c].cursors|
    ensures HeldWhenAsked(states, steps, n, p, states[n].consumers[c].cursors[p], true)
    ensures states[n + 1].consumers[c].cursors
         == states[n].consumers[c].cursors[p := states[n].consumers[c].cursors[p] + 1]
  {
    hide HeldWhenAsked;
    SameConsumers(states, steps, n);
    ConsumersAreToldTruly(states, steps, n, c);
  }

  lemma {:induction false} SameConsumers(states: seq<State>, steps: seq<Step>, n: nat)
    requires Run(states, steps) && n <= |steps|
    ensures |states[n].consumers| == |states[0].consumers| && |states[n].writers| == |states[0].writers|
    decreases n
  {
    if n > 0 {
      SameConsumers(states, steps, n - 1);
    }
  }

  /**
   And a consumer marks itself, or goes to sleep, only after every partition, when it processed
   the question, had nothing at the cursor.
   */
  lemma SleepsOnlyIfAllWereEmpty(states: seq<State>, steps: seq<Step>, n: nat, c: nat, p: nat)
    requires Run(states, steps) && n < |steps| && (steps[n] == Mark(c) || steps[n] == Park(c))
    requires c < |states[n].consumers| && p < |states[n].writers|
    ensures p < |states[n].consumers[c].cursors|
    ensures HeldWhenAsked(states, steps, n, p, states[n].consumers[c].cursors[p], false)
  {
    hide HeldWhenAsked;
    SameConsumers(states, steps, n);
    RunPrefixInv(states, steps, n);
    ConsumersAreToldTruly(states, steps, n, c);
    assert Enabled(states[n], steps[n]);
  }

  /** No wakeup is lost in any state of any run, with any number of partitions, producers and consumers. */
  lemma NoRunLosesAWakeup(states: seq<State>, steps: seq<Step>, n: nat)
    requires Run(states, steps) && n <= |steps|
    ensures NoLostWakeup(states[n]) && Inv(states[n])
  {
    hide Enabled, Next, Initial, Inv;
    RunPrefixInv(states, steps, n);
    InvImpliesNoLostWakeup(states[n]);
  }

  predicate ByConsumer(step: Step, c: nat) {
    !WriterStep(step) && step.consumer == c
  }

  /** The counter moves with the marks: up by one when a consumer gets its mark, down by one when it gives it back. */
  lemma CounterMovesWithMarks(s: State, step: Step, c: nat)
    requires Inv(s) && Enabled(s, step) && c < |s.consumers|
    ensures var t := Next(s, step);
            && |t.consumers| == |s.consumers| && t.counter != []
            && (WriterStep(step) || step.Cancel? ==> t.counter == s.counter)
            && (ByConsumer(step, c) && !step.Cancel? ==>
                  && Last(t.counter) - Last(s.counter)
                     == (if HasMark(t.consumers[c]) then 1 else 0) - (if HasMark(s.consumers[c]) then 1 else 0)
                  && s.counter <= t.counter)
  {
    hide ViewsInRange, ProbesOk, AllCovered;
  }

  /** A step of a writer changes its first offset only by retiring records, and nothing of the other writers. */
  lemma FirstMoves(s: State, step: Step, w: nat)
    requires Enabled(s, step) && w < |s.writers|
    ensures var t := Next(s, step);
            && |t.writers| == |s.writers|
            && t.writers[w].first == (if step.Retire? && step.writer == w then step.first else s.writers[w].first)
            && (WriterStep(step) && step.writer != w ==> t.writers[w] == s.writers[w])
  {
  }

  /** A partition that answered "nothing there" is not asked again in the same pass. */
  lemma EmptyAnswerIsNoted(s: State, c: nat, p: nat)
    requires Enabled(s, Receive(c)) && s.consumers[c].phase.asked == Answered(p, false)
    ensures var me := Next(s, Receive(c)).consumers[c];
            && me.phase == s.consumers[c].phase.(asked := Nothing, empty := s.consumers[c].phase.empty + {p})
            && me.cursors == s.consumers[c].cursors
  {
  }

  // A command was processed at step i, and no signal of that writer has run since.
  ghost predicate UnsignalledSince(steps: seq<Step>, i: nat, n: nat, w: nat)
    requires i < n <= |steps|
  {
    steps[i] == Process(w) && forall j :: i < j < n ==> !(steps[j].Signal? && steps[j].writer == w)
  }

  /** In every run, a writer owes a signal only for a command it has processed since its last one. */
  lemma {:induction false} OwesOnlyForCommands(states: seq<State>, steps: seq<Step>, n: nat, w: nat) returns (i: nat)
    requires Run(states, steps) && n <= |steps| && w < |states[n].writers| && states[n].writers[w].mustSignal
    ensures i < n && UnsignalledSince(steps, i, n, w)
    decreases n
  {
    hide Inv;
    assert Enabled(states[n - 1], steps[n - 1]) && states[n] == Next(states[n - 1], steps[n - 1]);
    if steps[n - 1] == Process(w) {
      i := n - 1;
    } else {
      SameConsumers(states, steps, n);
      SameConsumers(states, steps, n - 1);
      i := OwesOnlyForCommands(states, steps, n - 1, w);
    }
  }

  // The signal that ran at step i loaded a positive counter while the consumer was registered.
  ghost predicate SignalledAt(states: seq<State>, steps: seq<Step>, i: nat, c: nat)
    requires i < |steps| && i < |states|
  {
    && steps[i].Signal? && steps[i].read < |states[i].counter| && states[i].counter[steps[i].read] > 0
    && c < |states[i].consumers| && Registered(states[i].consumers[c])
  }

  /** And a sleeper is notified only by a signal that ran while it was registered and saw a parked consumer. */
  lemma {:induction false} NotifiedOnlyBySignals(states: seq<State>, steps: seq<Step>, n: nat, c: nat) returns (i: nat)
    requires Run(states, steps) && n <= |steps| && c < |states[n].consumers|
    requires Registered(states[n].consumers[c]) && states[n].consumers[c].notified
    ensures i < n && SignalledAt(states, steps, i, c)
    decreases n
  {
    hide Inv;
    assert Enabled(states[n - 1], steps[n - 1]) && states[n] == Next(states[n - 1], steps[n - 1]);
    SameConsumers(states, steps, n);
    SameConsumers(states, steps, n - 1);
    var before := states[n - 1].consumers[c];
    if Registered(before) && before.notified {
      i := NotifiedOnlyBySignals(states, steps, n - 1, c);
    } else {
      i := n - 1;
    }
  }

  // ---------------------------------------------------------------- nobody is stuck

  predicate IsQuestion(m: Message, c: nat, ticket: nat) {
    m.Probe? && m.consumer == c && m.ticket == ticket
  }

  // A question that is waited for is in the inbox of the partition asked, and answers name a partition.
  ghost predicate InGoodHands(s: State, c: nat)
    requires c < |s.consumers|
  {
    var me := s.consumers[c];
    me.phase.Scanning? || me.phase.ParkedScanning? ==>
      && (me.phase.asked.Answered? ==>
            me.phase.asked.partition < |s.writers| && me.phase.asked.partition !in me.phase.empty)
      && (me.phase.asked.Waiting? ==>
            && me.phase.asked.partition < |s.writers| && me.phase.asked.partition !in me.phase.empty
            && exists k :: 0 <= k < |s.writers[me.phase.asked.partition].inbox|
                           && IsQuestion(s.writers[me.phase.asked.partition].inbox[k], c, me.ticket))
  }

  lemma GoodHandsKept(s: State, step: Step, c: nat)
    requires Enabled(s, step) && c < |s.consumers| && InGoodHands(s, c)
    ensures |Next(s, step).consumers| == |s.consumers| && InGoodHands(Next(s, step), c)
  {
    hide InGoodHands, IsQuestion;
    if WriterStep(step) {
      GoodHandsKeptByWriter(s, step, c);
    } else {
      GoodHandsKeptByConsumer(s, step, c);
    }
  }

  lemma GoodHandsKeptByConsumer(s: State, step: Step, c: nat)
    requires Enabled(s, step) && c < |s.consumers| && InGoodHands(s, c) && !WriterStep(step)
    ensures |Next(s, step).consumers| == |s.consumers| && InGoodHands(Next(s, step), c)
  {
    var t := Next(s, step);
    var me, you := s.consumers[c], t.consumers[c];
    if (you.phase.Scanning? || you.phase.ParkedScanning?) && you.phase.asked.Waiting? {
      var p := you.phase.asked.partition;
      if step == Ask(c, p) {
        assert IsQuestion(t.writers[p].inbox[|s.writers[p].inbox|], c, you.ticket);
      } else {
        var k :| 0 <= k < |s.writers[p].inbox| && IsQuestion(s.writers[p].inbox[k], c, me.ticket);
        assert t.writers[p].inbox[k] == s.writers[p].inbox[k];
      }
    }
  }

  lemma GoodHandsKeptByWriter(s: State, step: Step, c: nat)
    requires Enabled(s, step) && c < |s.consumers| && InGoodHands(s, c) && WriterStep(step)
    ensures |Next(s, step).consumers| == |s.consumers| && InGoodHands(Next(s, step), c)
  {
    var t := Next(s, step);
    var me, you := s.consumers[c], t.consumers[c];
    if (you.phase.Scanning? || you.phase.ParkedScanning?) && you.phase.asked.Waiting? {
      var p := you.phase.asked.partition;
      var k :| 0 <= k < |s.writers[p].inbox| && IsQuestion(s.writers[p].inbox[k], c, me.ticket);
      if step == Process(p) {
        assert k > 0;
        assert t.writers[p].inbox[k - 1] == s.writers[p].inbox[k];
      } else {
        assert t.writers[p].inbox[k] == s.writers[p].inbox[k];
      }
    }
  }

  lemma {:induction false} RunKeepsGoodHands(states: seq<State>, steps: seq<Step>, n: nat, c: nat)
    requires Run(states, steps) && n <= |steps| && c < |states[n].consumers|
    ensures InGoodHands(states[n], c)
    decreases n
  {
    hide Enabled, Next, InGoodHands;
    if n == 0 {
      RestingIsFine(states[0], c);
    } else {
      SameConsumers(states, steps, n);
      SameConsumers(states, steps, n - 1);
      RunKeepsGoodHands(states, steps, n - 1, c);
      GoodHandsKept(states[n - 1], steps[n - 1], c);
    }
  }

  lemma RestingIsFine(s: State, c: nat)
    requires c < |s.consumers| && Initial(s)
    ensures InGoodHands(s, c)
  {
  }

  // The consumer itself has something to do, or the writer it waits for has its question in the inbox.
  ghost predicate CanGoOn(s: State, c: nat)
    requires c < |s.consumers|
  {
    || Enabled(s, Begin(c)) || Enabled(s, Receive(c)) || Enabled(s, Mark(c)) || Enabled(s, Enable(c))
    || Enabled(s, Park(c)) || Enabled(s, Wake(c))
    || (exists p :: Enabled(s, Ask(c, p)))
    || (exists p :: AsksOf(s.consumers[c], p) && Enabled(s, Process(p)))
  }

  /**
   In every state of every run, a consumer can go on unless it sleeps un-notified; and a writer
   that owes a signal can run it, with any value of the counter it may still load.
   */
  lemma NobodyIsStuck(states: seq<State>, steps: seq<Step>, n: nat, c: nat, w: nat, read: nat)
    requires Run(states, steps) && n <= |steps| && c < |states[n].consumers|
    ensures CanGoOn(states[n], c) || (states[n].consumers[c].phase.Awaiting? && !states[n].consumers[c].notified)
    ensures var s := states[n];
            w < |s.writers| && s.writers[w].mustSignal && s.writers[w].seen <= read < |s.counter| ==>
              Enabled(s, Signal(w, read))
  {
    hide Next, Initial;
    var s := states[n];
    var me := s.consumers[c];
    RunPrefixInv(states, steps, n);
    RunKeepsGoodHands(states, steps, n, c);
    assert |me.cursors| == |s.writers| && s.counter != [];
    if me.phase.Scanning? || me.phase.ParkedScanning? {
      match me.phase.asked {
        case Nothing =>
          if !PassOver(me.phase.empty, |s.writers|) {
            var p: nat :| p < |s.writers| && p !in me.phase.empty;
            assert Enabled(s, Ask(c, p));
          }
        case Waiting(p) =>
          assert AsksOf(me, p) && Enabled(s, Process(p));
        case Answered(_, _) =>
      }
    }
  }

  // The partitions a pass still has to ask.
  function Unasked(empty: set<nat>, n: nat): (ps: set<nat>) {
    set p: nat | p < n && p !in empty
  }

  function PassWork(empty: set<nat>, asked: Asked, n: nat): (k: nat) {
    3 * |Unasked(empty, n)| + if asked.Nothing? then 2 else if asked.Waiting? then 1 else 0
  }

  // How far a consumer is from going to sleep if every partition keeps answering "nothing there".
  function Work(c: Consumer, n: nat): (k: nat) {
    match c.phase
    case Resting => 6 * n + 8
    case Scanning(empty, asked) => 3 * n + 5 + PassWork(empty, asked, n)
    case Marked(_) => 3 * n + 4
    case ParkedScanning(_, empty, asked) => 1 + PassWork(empty, asked, n)
    case Awaiting(_) => 0
  }

  lemma {:induction false} UnaskedIsSmall(empty: set<nat>, n: nat)
    ensures |Unasked(empty, n)| <= n
    ensures (forall p :: 0 <= p < n ==> p in empty) ==> Unasked(empty, n) == {}
    decreases n
  {
    if n == 0 {
      assert Unasked(empty, 0) == {};
    } else {
      UnaskedIsSmall(empty, n - 1);
      assert Unasked(empty, n) == Unasked(empty, n - 1) + (if n - 1 in empty then {} else {n - 1});
    }
  }

  lemma OneLessUnasked(empty: set<nat>, n: nat, p: nat)
    requires p < n && p !in empty
    ensures |Unasked(empty + {p}, n)| == |Unasked(empty, n)| - 1
  {
    assert Unasked(empty, n) == Unasked(empty + {p}, n) + {p};
  }

  // A step of a consumer that neither delivers, fails, gives up nor starts a new round, or the answer to its question.
  predicate Advances(s: State, step: Step, c: nat)
    requires c < |s.consumers|
  {
    || step == Begin(c) || step == Mark(c) || step == Enable(c) || step == Park(c)
    || (step.Ask? && step.consumer == c)
    || (step == Receive(c) && (s.consumers[c].phase.Scanning? || s.consumers[c].phase.ParkedScanning?)
        && s.consumers[c].phase.asked.Answered? && !s.consumers[c].phase.asked.found)
    || (step.Process? && step.writer < |s.writers| && s.writers[step.writer].inbox != []
        && AsksOf(s.consumers[c], step.writer) && IsQuestion(s.writers[step.writer].inbox[0], c, s.consumers[c].ticket))
  }

  /**
   Every such step counts: it brings the consumer closer to sleep. So after at most 6 n + 8 of
   them, n being the number of partitions, a consumer has been given a record or an error, or sleeps.
   */
  lemma EveryStepCounts(s: State, step: Step, c: nat)
    requires Enabled(s, step) && c < |s.consumers| && InGoodHands(s, c) && Advances(s, step, c)
    ensures var n, t := |s.writers|, Next(s, step);
            c < |t.consumers| && Work(t.consumers[c], n) < Work(s.consumers[c], n) <= 6 * n + 8
  {
    hide PassOver;
    var n, me := |s.writers|, s.consumers[c];
    UnaskedIsSmall({}, n);
    if me.phase.Scanning? || me.phase.ParkedScanning? {
      UnaskedIsSmall(me.phase.empty, n);
      if me.phase.asked.Answered? {
        OneLessUnasked(me.phase.empty, n, me.phase.asked.partition);
      }
    }
  }
}
