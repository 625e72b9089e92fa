/**
 * The message slots of common/bbs/message.c. Writers of any number of processes share a user's slots and
 * message count; each atomic access is a step, and a schedule says whose step comes next.
 */
module Messages {
  import opened Prelude

  const MAX_MSGS := 10
  const FIELDS := 4

  /** What a slot holds beside its owner. */
  datatype Content = Content(msgmode: int, uslot: int, userid: string, text: string)
  datatype Slot = Slot(pid: nat, content: Content)

  /** A message; without a sender or a text the slot keeps what it had there. */
  datatype Message = Message(msgmode: int, uslot: int, userid: Option<string>, text: Option<string>)

  /** Where a writer is: looking for a slot, filling it, or raising the count. */
  datatype Phase =
    | Claiming(i: nat)
    | Writing(at: nat, field: nat)
    | Reading(at: nat)
    | Raising(at: nat, seen: int)
    | Done(at: nat)
    | Refused

  datatype Writer = Writer(pid: nat, msg: Message, phase: Phase)
  datatype State = State(slots: seq<Slot>, count: int, writers: seq<Writer>)

  /** A slot's content with one field of the message stored. */
  function Stored(c: Content, m: Message, field: nat): Content {
    if field == 0 then c.(msgmode := m.msgmode)
    else if field == 1 then c.(uslot := m.uslot)
    else if field == 2 then (if m.userid.Some? then c.(userid := m.userid.value) else c)
    else if m.text.Some? then c.(text := m.text.value)
    else c
  }

  /** The first `fields` fields of the message are there. */
  predicate Holds(c: Content, m: Message, fields: nat) {
    && (fields > 0 ==> c.msgmode == m.msgmode)
    && (fields > 1 ==> c.uslot == m.uslot)
    && (fields > 2 && m.userid.Some? ==> c.userid == m.userid.value)
    && (fields > 3 && m.text.Some? ==> c.text == m.text.value)
  }

  /** The fields past the first `fields`, and those the message does not have, are as they were. */
  predicate Leaves(was: Content, c: Content, m: Message, fields: nat) {
    && (fields < 1 ==> c.msgmode == was.msgmode)
    && (fields < 2 ==> c.uslot == was.uslot)
    && (fields < 3 || m.userid.None? ==> c.userid == was.userid)
    && (fields < 4 || m.text.None? ==> c.text == was.text)
  }

  /** One atomic step of writer `w`. */
  function Step(s: State, w: nat): State
    requires InRange(s) && w < |s.writers|
  {
    var me := s.writers[w];
    match me.phase
    case Claiming(i) =>
      if i == MAX_MSGS then Goto(s, w, Refused)
      else if s.slots[i].pid == 0 then
        Goto(s.(slots := s.slots[i := s.slots[i].(pid := me.pid)]), w, Writing(i, 0))
      else Goto(s, w, Claiming(i + 1))
    case Writing(at, field) =>
      var slot := s.slots[at].(content := Stored(s.slots[at].content, me.msg, field));
      Goto(s.(slots := s.slots[at := slot]), w, if field + 1 == FIELDS then Reading(at) else Writing(at, field + 1))
    case Reading(at) =>
      Goto(s, w, if s.count >= at + 1 then Done(at) else Raising(at, s.count))
    case Raising(at, seen) =>
      if s.count == seen then Goto(s.(count := at + 1), w, Done(at)) else Goto(s, w, Reading(at))
    case Done(_) => s
    case Refused => s
  }

  function Goto(s: State, w: nat, phase: Phase): State
    requires w < |s.writers|
  {
    s.(writers := s.writers[w := s.writers[w].(phase := phase)])
  }

  /** Positions are those of slots, and a writer has a process. */
  predicate InRange(s: State) {
    && |s.slots| == MAX_MSGS
    && forall w :: 0 <= w < |s.writers| ==> s.writers[w].pid > 0 && PhaseInRange(s.writers[w].phase)
  }

  predicate PhaseInRange(p: Phase) {
    match p
    case Claiming(i) => i <= MAX_MSGS
    case Writing(at, field) => at < MAX_MSGS && field < FIELDS
    case Refused => true
    case _ => p.at < MAX_MSGS
  }

  predicate Holder(p: Phase) {
    !p.Claiming? && !p.Refused?
  }

  /** How many fields a writer that has a slot has stored in it. */
  function Progress(p: Phase): nat {
    if p.Writing? then p.field else FIELDS
  }

  predicate Owns(s: State, w: nat)
    requires InRange(s) && w < |s.writers|
  {
    var me := s.writers[w];
    Holder(me.phase) ==>
      s.slots[me.phase.at].pid == me.pid && Holds(s.slots[me.phase.at].content, me.msg, Progress(me.phase))
  }

  predicate Counted(s: State, p: Phase) {
    && (p.Raising? ==> p.seen < p.at + 1 && p.seen <= s.count)
    && (p.Done? ==> s.count >= p.at + 1)
  }

  predicate Passed(s: State, p: Phase)
    requires |s.slots| == MAX_MSGS
  {
    && (p.Claiming? && p.i <= MAX_MSGS ==> forall j :: 0 <= j < p.i ==> s.slots[j].pid != 0)
    && (p.Refused? ==> forall j :: 0 <= j < MAX_MSGS ==> s.slots[j].pid != 0)
  }

  /** What holds at every point of every run. */
  ghost predicate Inv(s: State) {
    && InRange(s)
    && (forall w :: 0 <= w < |s.writers| ==> Owns(s, w) && Counted(s, s.writers[w].phase) && Passed(s, s.writers[w].phase))
    && Exclusive(s)
  }

  /** No two writers have the same slot. */
  ghost predicate Exclusive(s: State) {
    forall v, w :: 0 <= v < w < |s.writers| && Holder(s.writers[v].phase) && Holder(s.writers[w].phase) ==>
      s.writers[v].phase.at != s.writers[w].phase.at
  }

  predicate Fresh(s: State) {
    |s.slots| == MAX_MSGS && forall w :: 0 <= w < |s.writers| ==> s.writers[w].pid > 0 && s.writers[w].phase == Claiming(0)
  }

  lemma FreshInv(s: State)
    requires Fresh(s)
    ensures Inv(s)
  {
  }

  /** A run under a schedule: the writers named in it take a step each, in that order. */
  function Run(s: State, schedule: seq<nat>): (r: State)
    requires InRange(s) && forall i :: 0 <= i < |schedule| ==> schedule[i] < |s.writers|
    ensures InRange(r) && |r.writers| == |s.writers|
    decreases |schedule|
  {
    if schedule == [] then s else Run(Step(s, schedule[0]), schedule[1..])
  }

  /** Who the writers are, and what they write. */
  predicate SameWriters(s: State, t: State) {
    && |s.writers| == |t.writers|
    && forall w :: 0 <= w < |s.writers| ==> s.writers[w].pid == t.writers[w].pid && s.writers[w].msg == t.writers[w].msg
  }

  /** What a step or a run leaves: taken slots stay taken by the same process, and the count does not fall. */
  predicate Keeps(s: State, t: State)
    requires |s.slots| == |t.slots| == MAX_MSGS
  {
    && SameWriters(s, t) && t.count >= s.count
    && (forall j :: 0 <= j < MAX_MSGS && s.slots[j].pid != 0 ==> t.slots[j].pid == s.slots[j].pid)
    && (forall w :: 0 <= w < |s.writers| && Holder(s.writers[w].phase) ==>
          Holder(t.writers[w].phase) && t.writers[w].phase.at == s.writers[w].phase.at)
  }

  /** What a writer's step leaves to the others: only the slot it then has can have changed, and not its owner. */
  ghost predicate Local(s: State, t: State, w: nat)
    requires InRange(s) && InRange(t) && w < |s.writers| == |t.writers|
  {
    var mine := t.writers[w].phase;
    && Keeps(s, t)
    && (forall v :: 0 <= v < |s.writers| && v != w ==> t.writers[v] == s.writers[v])
    && (forall j :: 0 <= j < MAX_MSGS && t.slots[j] != s.slots[j] ==> Holder(mine) && mine.at == j)
    && (Holder(mine) ==> Holder(s.writers[w].phase) || s.slots[mine.at].pid == 0)
  }

  lemma StepLocal(s: State, w: nat)
    requires Inv(s) && w < |s.writers|
    ensures InRange(Step(s, w)) && Local(s, Step(s, w), w)
  {
    hide Owns, Passed, Exclusive, Stored;
    assert Counted(s, s.writers[w].phase) && PhaseInRange(s.writers[w].phase);
  }

  /** Each field a writer stores is there when it is done with it. */
  lemma StoredHolds(c: Content, m: Message, field: nat)
    requires field < FIELDS && Holds(c, m, field)
    ensures Holds(Stored(c, m, field), m, field + 1)
  {
  }

  lemma StoredLeaves(was: Content, c: Content, m: Message, field: nat)
    requires field < FIELDS && Leaves(was, c, m, field)
    ensures Leaves(was, Stored(c, m, field), m, field + 1)
  {
  }

  lemma StepOwn(s: State, w: nat)
    requires Inv(s) && w < |s.writers|
    ensures var t := Step(s, w);
            InRange(t) && Owns(t, w) && Counted(t, t.writers[w].phase) && Passed(t, t.writers[w].phase)
  {
    hide Stored, Holds;
    var me := s.writers[w];
    assert Owns(s, w) && Counted(s, me.phase) && Passed(s, me.phase) && PhaseInRange(me.phase);
    match me.phase
    case Writing(at, field) => StoredHolds(s.slots[at].content, me.msg, field);
    case Claiming(i) =>
      if i < MAX_MSGS { HoldsNothing(s.slots[i].content, me.msg); }
    case _ =>
  }

  lemma HoldsNothing(c: Content, m: Message)
    ensures Holds(c, m, 0)
  {
  }

  lemma StepOther(s: State, t: State, w: nat, v: nat)
    requires Inv(s) && InRange(t) && w < |s.writers| == |t.writers| && Local(s, t, w) && v < |s.writers| && v != w
    ensures Owns(t, v) && Counted(t, t.writers[v].phase) && Passed(t, t.writers[v].phase)
    ensures Holder(t.writers[v].phase) && Holder(t.writers[w].phase) ==> t.writers[v].phase.at != t.writers[w].phase.at
  {
    hide Holds;
    assert Owns(s, v) && Owns(s, w) && Counted(s, s.writers[v].phase) && Passed(s, s.writers[v].phase);
  }

  lemma StepInv(s: State, w: nat)
    requires Inv(s) && w < |s.writers|
    ensures Inv(Step(s, w)) && Local(s, Step(s, w), w)
  {
    hide Step, Owns, Counted, Passed;
    StepLocal(s, w);
    StepOwn(s, w);
    var t := Step(s, w);
    forall v | 0 <= v < |s.writers| && v != w
      ensures Owns(t, v) && Counted(t, t.writers[v].phase) && Passed(t, t.writers[v].phase)
      ensures Holder(t.writers[v].phase) && Holder(t.writers[w].phase) ==> t.writers[v].phase.at != t.writers[w].phase.at
    {
      StepOther(s, t, w, v);
    }
  }

  /** Under every schedule, from any slots and any count, no two writers have the same slot and the count never falls. */
  lemma {:induction false} RunSafe(s: State, schedule: seq<nat>)
    requires Inv(s) && forall i :: 0 <= i < |schedule| ==> schedule[i] < |s.writers|
    ensures var t := Run(s, schedule); Inv(t) && Keeps(s, t)
    decreases |schedule|
  {
    hide Step;
    if schedule != [] {
      StepInv(s, schedule[0]);
      RunSafe(Step(s, schedule[0]), schedule[1..]);
    }
  }

  // ----- what a run delivers -----

  ghost function Held(s: State): set<nat> {
    set w: nat | w < |s.writers| && Holder(s.writers[w].phase) :: s.writers[w].phase.at
  }

  /**
   * Since `s0`, exactly the slots the writers have were taken, and they hold what they held but for what the
   * writer has stored; the others are as they were.
   */
  ghost predicate Since(s0: State, t: State)
    requires InRange(s0) && InRange(t)
  {
    && SameWriters(s0, t) && t.count >= s0.count
    && (forall j: nat :: j < MAX_MSGS ==>
          if j in Held(t) then s0.slots[j].pid == 0 && t.slots[j].pid != 0 else t.slots[j] == s0.slots[j])
    && forall w :: 0 <= w < |t.writers| ==> Preserves(s0, t, w)
  }

  predicate Preserves(s0: State, t: State, w: nat)
    requires InRange(s0) && InRange(t) && w < |t.writers|
  {
    var me := t.writers[w];
    Holder(me.phase) ==> Leaves(s0.slots[me.phase.at].content, t.slots[me.phase.at].content, me.msg, Progress(me.phase))
  }

  lemma SinceStep(s0: State, s: State, w: nat)
    requires InRange(s0) && Inv(s) && Since(s0, s) && w < |s.writers|
    ensures Inv(Step(s, w)) && Since(s0, Step(s, w))
  {
    hide Step;
    StepInv(s, w);
    var t := Step(s, w);
    forall j: nat | j < MAX_MSGS
      ensures if j in Held(t) then s0.slots[j].pid == 0 && t.slots[j].pid != 0 else t.slots[j] == s0.slots[j]
    {
      HeldAfter(s, t, w, j);
    }
    forall v: nat | v < |t.writers| ensures Preserves(s0, t, v) {
      PreservesStep(s0, s, t, w, v);
    }
  }

  lemma PreservesStep(s0: State, s: State, t: State, w: nat, v: nat)
    requires InRange(s0) && Inv(s) && Since(s0, s) && w < |s.writers| && v < |s.writers|
    requires t == Step(s, w) && Inv(t) && Local(s, t, w)
    ensures Preserves(s0, t, v)
  {
    hide Holds, Counted, Passed, Leaves;
    assert Preserves(s0, s, v) && Owns(s, v);
    if v == w {
      hide Exclusive;
      var me := s.writers[w];
      match me.phase
      case Writing(at, field) => StoredLeaves(s0.slots[at].content, s.slots[at].content, me.msg, field);
      case Claiming(i) =>
        if i < MAX_MSGS && s.slots[i].pid == 0 {
          assert i !in Held(s);
          LeavesAll(s.slots[i].content, me.msg);
        }
      case _ =>
    }
  }

  lemma LeavesAll(c: Content, m: Message)
    ensures Leaves(c, c, m, 0)
  {
  }

  lemma HeldAfter(s: State, t: State, w: nat, j: nat)
    requires Inv(s) && Inv(t) && w < |s.writers| == |t.writers| && Local(s, t, w) && j < MAX_MSGS
    ensures j in Held(t) ==> t.slots[j].pid != 0 && (j in Held(s) || s.slots[j].pid == 0)
    ensures j !in Held(t) ==> j !in Held(s) && t.slots[j] == s.slots[j]
  {
    hide Holds, Counted, Passed, Exclusive;
    forall v: nat | v < |s.writers| && Holder(s.writers[v].phase) && s.writers[v].phase.at == j
      ensures j in Held(t)
    {
      assert t.writers[v].phase.at in Held(t);
    }
    if t.slots[j] != s.slots[j] {
      assert t.writers[w].phase.at in Held(t);
    }
    forall v: nat | v < |t.writers| && Holder(t.writers[v].phase) && t.writers[v].phase.at == j
      ensures t.slots[j].pid != 0 && (j in Held(s) || s.slots[j].pid == 0)
    {
      assert Owns(t, v);
      if Holder(s.writers[v].phase) {
        assert s.writers[v].phase.at in Held(s);
      }
    }
  }

  lemma {:induction false} RunSince(s0: State, s: State, schedule: seq<nat>)
    requires InRange(s0) && Inv(s) && Since(s0, s) && forall i :: 0 <= i < |schedule| ==> schedule[i] < |s.writers|
    ensures Inv(Run(s, schedule)) && Since(s0, Run(s, schedule))
    decreases |schedule|
  {
    hide Step, Preserves;
    if schedule != [] {
      SinceStep(s0, s, schedule[0]);
      RunSince(s0, Step(s, schedule[0]), schedule[1..]);
    }
  }

  lemma FreshSince(s0: State)
    requires Fresh(s0)
    ensures Inv(s0) && Since(s0, s0)
  {
    FreshInv(s0);
    assert Held(s0) == {};
  }

  /**
   * No message is lost: a slot taken before the run, by whatever message, is as it was; a writer that is done
   * has a slot that was free, that holds its whole message, and that the count covers; and one that is refused
   * leaves ten taken slots.
   */
  lemma RunDelivers(s0: State, schedule: seq<nat>)
    requires |s0.slots| == 10 && forall i :: 0 <= i < |schedule| ==> schedule[i] < |s0.writers|
    requires forall w :: 0 <= w < |s0.writers| ==> s0.writers[w].pid > 0 && s0.writers[w].phase == Claiming(0)
    ensures var t := Run(s0, schedule);
            && |t.slots| == 10 && |t.writers| == |s0.writers| && t.count >= s0.count
            && (forall j :: 0 <= j < 10 && s0.slots[j].pid != 0 ==> t.slots[j] == s0.slots[j])
            && (forall w :: 0 <= w < |t.writers| ==>
                  t.writers[w].pid == s0.writers[w].pid && t.writers[w].msg == s0.writers[w].msg)
            && (forall w :: 0 <= w < |t.writers| && t.writers[w].phase.Done? ==>
                  var at, m := t.writers[w].phase.at, s0.writers[w].msg;
                  && at < 10 && s0.slots[at].pid == 0 && t.count > at
                  && t.slots[at].pid == s0.writers[w].pid
                  && t.slots[at].content.msgmode == m.msgmode
                  && t.slots[at].content.uslot == m.uslot
                  && t.slots[at].content.userid ==
                     (if m.userid.Some? then m.userid.value else s0.slots[at].content.userid)
                  && t.slots[at].content.text == (if m.text.Some? then m.text.value else s0.slots[at].content.text))
            && (forall w :: 0 <= w < |t.writers| && t.writers[w].phase.Refused? ==>
                  forall j :: 0 <= j < 10 ==> t.slots[j].pid != 0)
            && (forall v, w :: 0 <= v < w < |t.writers| && t.writers[v].phase.Done? && t.writers[w].phase.Done? ==>
                  t.writers[v].phase.at != t.writers[w].phase.at)
  {
    FreshSince(s0);
    RunSince(s0, s0, schedule);
    Delivered(s0, Run(s0, schedule));
  }

  lemma Delivered(s0: State, t: State)
    requires Fresh(s0) && Inv(t) && Since(s0, t)
    ensures forall j :: 0 <= j < 10 && s0.slots[j].pid != 0 ==> t.slots[j] == s0.slots[j]
    ensures forall w :: 0 <= w < |t.writers| && t.writers[w].phase.Done? ==>
              var at, m := t.writers[w].phase.at, s0.writers[w].msg;
              && at < 10 && s0.slots[at].pid == 0 && t.count > at
              && t.slots[at].pid == s0.writers[w].pid
              && t.slots[at].content.msgmode == m.msgmode
              && t.slots[at].content.uslot == m.uslot
              && t.slots[at].content.userid ==
                 (if m.userid.Some? then m.userid.value else s0.slots[at].content.userid)
              && t.slots[at].content.text == (if m.text.Some? then m.text.value else s0.slots[at].content.text)
    ensures forall w :: 0 <= w < |t.writers| && t.writers[w].phase.Refused? ==>
              forall j :: 0 <= j < 10 ==> t.slots[j].pid != 0
    ensures forall v, w :: 0 <= v < w < |t.writers| && t.writers[v].phase.Done? && t.writers[w].phase.Done? ==>
              t.writers[v].phase.at != t.writers[w].phase.at
  {
    forall w | 0 <= w < |t.writers|
      ensures Owns(t, w) && Counted(t, t.writers[w].phase) && Passed(t, t.writers[w].phase) && Preserves(s0, t, w)
      ensures Holder(t.writers[w].phase) ==> t.writers[w].phase.at in Held(t)
    {
    }
  }

  // ----- an empty mailbox -----

  predicate Empty(s: State) {
    Fresh(s) && s.count == 0 && forall j :: 0 <= j < MAX_MSGS ==> s.slots[j].pid == 0
  }

  /** The slots taken come first, and the count covers none but them. */
  predicate Packed(s: State) {
    && |s.slots| == MAX_MSGS && s.count <= MAX_MSGS
    && (forall j, k :: 0 <= j < k < MAX_MSGS && s.slots[k].pid != 0 ==> s.slots[j].pid != 0)
    && (forall j :: 0 <= j < s.count ==> s.slots[j].pid != 0)
  }

  lemma PackedStep(s: State, w: nat)
    requires Inv(s) && Packed(s) && w < |s.writers|
    ensures Packed(Step(s, w))
  {
    hide Holds, Exclusive, Stored;
    var me := s.writers[w];
    assert Owns(s, w) && Passed(s, me.phase) && PhaseInRange(me.phase);
  }

  lemma {:induction false} RunPacked(s: State, schedule: seq<nat>)
    requires Inv(s) && Packed(s) && forall i :: 0 <= i < |schedule| ==> schedule[i] < |s.writers|
    ensures Packed(Run(s, schedule))
    decreases |schedule|
  {
    hide Step, Packed;
    if schedule != [] {
      PackedStep(s, schedule[0]);
      StepInv(s, schedule[0]);
      RunPacked(Step(s, schedule[0]), schedule[1..]);
    }
  }

  predicate Finished(s: State) {
    forall w :: 0 <= w < |s.writers| ==> s.writers[w].phase.Done? || s.writers[w].phase.Refused?
  }

  ghost function DoneSet(s: State): set<nat> {
    set w: nat | w < |s.writers| && s.writers[w].phase.Done?
  }

  /**
   * Once every writer that started on an empty mailbox has finished, the count is the number of messages
   * left there: all of them, up to the number of slots.
   */
  lemma EmptyMailboxCount(s0: State, schedule: seq<nat>)
    requires |s0.slots| == 10 && s0.count == 0 && forall j :: 0 <= j < 10 ==> s0.slots[j].pid == 0
    requires forall w :: 0 <= w < |s0.writers| ==> s0.writers[w].pid > 0 && s0.writers[w].phase == Claiming(0)
    requires forall i :: 0 <= i < |schedule| ==> schedule[i] < |s0.writers|
    requires forall w :: 0 <= w < |s0.writers| ==>
               var p := Run(s0, schedule).writers[w].phase; p.Done? || p.Refused?
    ensures var t := Run(s0, schedule);
            && t.count == |DoneSet(t)| == (if |s0.writers| < 10 then |s0.writers| else 10)
            && |t.slots| == 10 && forall j :: 0 <= j < 10 ==> (t.slots[j].pid != 0 <==> j < t.count)
  {
    hide Run, Inv, Packed, Since, Finished;
    FinishedRun(s0, schedule);
    EmptyStart(s0);
    RunSince(s0, s0, schedule);
    RunPacked(s0, schedule);
    FinishedCount(s0, Run(s0, schedule));
  }

  lemma FinishedRun(s0: State, schedule: seq<nat>)
    requires InRange(s0) && forall i :: 0 <= i < |schedule| ==> schedule[i] < |s0.writers|
    requires forall w :: 0 <= w < |s0.writers| ==>
               var p := Run(s0, schedule).writers[w].phase; p.Done? || p.Refused?
    ensures Finished(Run(s0, schedule))
  {
  }

  lemma EmptyStart(s0: State)
    requires Empty(s0)
    ensures Inv(s0) && Packed(s0) && Since(s0, s0)
  {
    FreshSince(s0);
  }

  /** The slots taken, those the writers have, and those the count covers are the same. */
  lemma FinishedSlots(s0: State, t: State)
    requires Empty(s0) && Inv(t) && Since(s0, t) && Packed(t) && Finished(t)
    ensures t.count >= 0 && forall j: nat :: j < MAX_MSGS ==> (t.slots[j].pid != 0 <==> j < t.count)
    ensures Held(t) == Upto(t.count)
  {
    hide Owns, Passed, Exclusive;
    forall v: nat | v < |t.writers| && Holder(t.writers[v].phase)
      ensures t.writers[v].phase.at < t.count
    {
      assert Counted(t, t.writers[v].phase);
    }
    forall j: nat | j < t.count ensures j in Held(t) {
      assert t.slots[j].pid != 0 && s0.slots[j].pid == 0;
    }
  }

  lemma FinishedCount(s0: State, t: State)
    requires Empty(s0) && Inv(t) && Since(s0, t) && Packed(t) && Finished(t)
    ensures t.count == |DoneSet(t)| == (if |s0.writers| < MAX_MSGS then |s0.writers| else MAX_MSGS)
    ensures forall j :: 0 <= j < MAX_MSGS ==> (t.slots[j].pid != 0 <==> j < t.count)
  {
    hide Owns, Counted, Exclusive, Packed;
    FinishedSlots(s0, t);
    DoneSlots(t);
    assert DoneSet(t) <= Upto(|t.writers|);
    SubsetSize(DoneSet(t), Upto(|t.writers|));
    if t.count < MAX_MSGS {
      assert t.slots[t.count].pid == 0;
      forall w: nat | w < |t.writers| ensures w in DoneSet(t) {
        assert Passed(t, t.writers[w].phase);
      }
      SubsetSize(Upto(|t.writers|), DoneSet(t));
    } else {
      PackedCount(t);
    }
  }

  lemma PackedCount(t: State)
    requires Packed(t)
    ensures t.count <= MAX_MSGS
  {
  }

  function Upto(n: nat): (r: set<nat>)
    ensures |r| == n && forall i: nat :: i in r <==> i < n
  {
    if n == 0 then {} else Upto(n - 1) + {n - 1}
  }

  lemma {:induction false} SubsetSize(a: set<nat>, b: set<nat>)
    requires a <= b
    ensures |a| <= |b|
    decreases |a|
  {
    if a != {} {
      var x :| x in a;
      SubsetSize(a - {x}, b - {x});
    }
  }

  /** Writers that are done have as many slots as they are. */
  lemma DoneSlots(s: State)
    requires Inv(s) && Finished(s)
    ensures |DoneSet(s)| == |Held(s)|
  {
    SlotsOf(s, DoneSet(s));
    assert Held(s) == set w | w in DoneSet(s) :: s.writers[w].phase.at;
  }

  lemma {:induction false} SlotsOf(s: State, ws: set<nat>)
    requires Inv(s) && ws <= DoneSet(s)
    ensures |set w | w in ws :: s.writers[w].phase.at| == |ws|
    decreases |ws|
  {
    hide Owns, Counted, Passed;
    var slots := set w | w in ws :: s.writers[w].phase.at;
    if ws != {} {
      var x :| x in ws;
      SlotsOf(s, ws - {x});
      var others := set w | w in ws - {x} :: s.writers[w].phase.at;
      assert s.writers[x].phase.at !in others;
      assert slots == others + {s.writers[x].phase.at};
    }
  }

  // ----- no writer waits for another -----

  function Rise(s: State, at: nat): nat {
    if s.count >= at + 1 then 0 else at + 1 - s.count
  }

  /** A bound on the steps a writer still has to take, whatever the others do in between. */
  function Work(s: State, p: Phase): nat
    requires PhaseInRange(p) && Counted(s, p)
  {
    match p
    case Claiming(i) => (MAX_MSGS - i) + 2 + FIELDS + 2 * Rise(s, MAX_MSGS - 1)
    case Writing(at, field) => (FIELDS - field) + 1 + 2 * Rise(s, at)
    case Reading(at) => 1 + 2 * Rise(s, at)
    case Raising(at, seen) => 2 * (at + 1 - seen)
    case Done(_) => 0
    case Refused => 0
  }

  lemma WorkStep(s: State, w: nat)
    requires Inv(s) && w < |s.writers|
    ensures Inv(Step(s, w))
    ensures forall v: nat :: v < |s.writers| && v != w ==>
              Work(Step(s, w), Step(s, w).writers[v].phase) <= Work(s, s.writers[v].phase)
    ensures var p := s.writers[w].phase;
            var after := Work(Step(s, w), Step(s, w).writers[w].phase);
            if Work(s, p) == 0 then after == 0 else after < Work(s, p)
  {
    StepInv(s, w);
    var t := Step(s, w);
    forall v: nat | v < |s.writers| && v != w
      ensures Work(t, t.writers[v].phase) <= Work(s, s.writers[v].phase)
    {
      assert t.writers[v] == s.writers[v] && t.count >= s.count;
    }
    hide Owns, Passed, Exclusive, Stored;
    assert Counted(s, s.writers[w].phase) && Counted(t, t.writers[w].phase);
  }

  function Turns(schedule: seq<nat>, w: nat): nat {
    if schedule == [] then 0 else (if schedule[0] == w then 1 else 0) + Turns(schedule[1..], w)
  }

  /** A writer that gets its turns finishes, under every schedule: it never waits for another. */
  lemma {:induction false} WriterFinishes(s: State, schedule: seq<nat>, w: nat)
    requires Inv(s) && w < |s.writers| && forall i :: 0 <= i < |schedule| ==> schedule[i] < |s.writers|
    requires Turns(schedule, w) >= Work(s, s.writers[w].phase)
    ensures var p := Run(s, schedule).writers[w].phase; p.Done? || p.Refused?
    decreases |schedule|
  {
    hide Step;
    if schedule == [] {
      assert Counted(s, s.writers[w].phase) && PhaseInRange(s.writers[w].phase);
    } else {
      WorkStep(s, schedule[0]);
      StepInv(s, schedule[0]);
      WriterFinishes(Step(s, schedule[0]), schedule[1..], w);
    }
  }

  /**
   * From the start, the turns it takes to try every slot, store four fields, and read and raise the count are
   * enough: two for each place that the count is short of ten.
   */
  lemma FreshFinishes(s: State, schedule: seq<nat>, w: nat)
    requires Fresh(s) && w < |s.writers| && forall i :: 0 <= i < |schedule| ==> schedule[i] < |s.writers|
    requires Turns(schedule, w) >= 16 + (if s.count >= 10 then 0 else 2 * (10 - s.count))
    ensures var p := Run(s, schedule).writers[w].phase; p.Done? || p.Refused?
  {
    FreshInv(s);
    assert Work(s, s.writers[w].phase) == 16 + (if s.count >= 10 then 0 else 2 * (10 - s.count));
    WriterFinishes(s, schedule, w);
  }
}
