/**
  Replay protection over whole connections: records of the current and the next epoch, checked and marked
  while epochs change.  No record is accepted twice, as long as the 16-bit epoch does not come round.
 */
module DtlsEpochs {
  import opened Bytes
  import opened DtlsReplay

  const EPOCHS := 0x1_0000

  /** A record that arrives, and whether it decrypts (or, from the next epoch, is buffered); or the change
      to the next epoch. */
  datatype Event = Record(epoch: nat, recordType: int, seqNum: seq<byte>, good: bool) | Reset

  /** The read epoch and what was marked in it and in the next one. */
  datatype Receiver = Receiver(readEpoch: nat, current: seq<nat>, next: seq<nat>)

  predicate Early(r: Receiver, e: Event) {
    e.Record? && e.epoch == (r.readEpoch + 1) % 65536 && e.recordType in {22, 21}
  }

  predicate Taken(r: Receiver, e: Event) {
    e.Record? && e.good &&
    if e.epoch == r.readEpoch then Accepts(After(r.current), Value(e.seqNum))
    else Early(r, e) && Accepts(After(r.next), Value(e.seqNum))
  }

  /** Which records are taken, in words: good ones of the current epoch, or handshake and alert ones of the
      next, that were not marked before and are less than 64 behind the highest number marked there. */
  lemma TakenInWords(r: Receiver, e: Event)
    ensures Taken(r, e) <==>
            e.Record? && e.good &&
            (|| (e.epoch == r.readEpoch &&
                 Value(e.seqNum) !in r.current && After(r.current).max < Value(e.seqNum) + 64)
             || (e.epoch != r.readEpoch && e.epoch == (r.readEpoch + 1) % 65536 && (e.recordType == 22 || e.recordType == 21) &&
                 Value(e.seqNum) !in r.next && After(r.next).max < Value(e.seqNum) + 64))
  {
    hide Value, Accepts, After;
    if e.Record? {
      AcceptedIffFresh(r.current, Value(e.seqNum));
      AcceptedIffFresh(r.next, Value(e.seqNum));
    }
  }

  function Step(r: Receiver, e: Event): Receiver {
    if e.Reset? then Receiver((r.readEpoch + 1) % EPOCHS, r.next, [])
    else if !Taken(r, e) then r
    else if e.epoch == r.readEpoch then r.(current := r.current + [Value(e.seqNum)])
    else r.(next := r.next + [Value(e.seqNum)])
  }

  function Run(r: Receiver, events: seq<Event>): Receiver {
    if events == [] then r else Step(Run(r, events[..|events| - 1]), events[|events| - 1])
  }

  function Start(epoch: nat): Receiver { Receiver(epoch, [], []) }

  predicate TakenAt(epoch: nat, events: seq<Event>, i: nat)
    requires i < |events|
  {
    Taken(Run(Start(epoch), events[..i]), events[i])
  }

  function Resets(events: seq<Event>): nat {
    if events == [] then 0
    else Resets(events[..|events| - 1]) + if events[|events| - 1].Reset? then 1 else 0
  }

  // ----- No record twice -----

  lemma RunNext(r: Receiver, events: seq<Event>, k: nat)
    requires k < |events|
    ensures Run(r, events[..k + 1]) == Step(Run(r, events[..k]), events[k])
    ensures Resets(events[..k + 1]) == Resets(events[..k]) + if events[k].Reset? then 1 else 0
  {
    assert events[..k + 1][..k] == events[..k];
  }

  lemma StepEpoch(r: Receiver, e: Event)
    ensures Step(r, e).readEpoch == if e.Reset? then (r.readEpoch + 1) % EPOCHS else r.readEpoch
  {
    hide Taken;
  }

  lemma NextEpoch(epoch: nat, n: nat)
    ensures ((epoch + n) % EPOCHS + 1) % EPOCHS == (epoch + n + 1) % EPOCHS
  {
  }

  lemma {:induction false} ReadEpoch(epoch: nat, events: seq<Event>, k: nat)
    requires epoch < EPOCHS && k <= |events|
    ensures Run(Start(epoch), events[..k]).readEpoch == (epoch + Resets(events[..k])) % EPOCHS
    decreases k
  {
    hide Step;
    if k > 0 {
      ReadEpoch(epoch, events, k - 1);
      RunNext(Start(epoch), events, k - 1);
      StepEpoch(Run(Start(epoch), events[..k - 1]), events[k - 1]);
      NextEpoch(epoch, Resets(events[..k - 1]));
    } else {
      assert events[..k] == [];
    }
  }

  lemma {:induction false} ResetsGrow(events: seq<Event>, i: nat, k: nat)
    requires i <= k <= |events|
    ensures Resets(events[..i]) <= Resets(events[..k])
    decreases k
  {
    if i < k {
      ResetsGrow(events, i, k - 1);
      RunNext(Start(0), events, k - 1);
    }
  }

  /** How many epochs after the first one record `i` belongs to. */
  function EpochIndex(epoch: nat, events: seq<Event>, i: nat): nat
    requires i < |events|
  {
    Resets(events[..i]) +
    if events[i].Record? && events[i].epoch == Run(Start(epoch), events[..i]).readEpoch then 0 else 1
  }

  lemma StepKeepsMarks(r: Receiver, e: Event, x: nat)
    ensures if e.Reset? then x in r.next ==> x in Step(r, e).current
            else (x in r.current ==> x in Step(r, e).current) && (x in r.next ==> x in Step(r, e).next)
  {
    hide Taken;
  }

  lemma TakenIsMarked(r: Receiver, e: Event)
    requires Taken(r, e)
    ensures Value(e.seqNum) in if e.epoch == r.readEpoch then Step(r, e).current else Step(r, e).next
  {
    hide Accepts;
  }

  /** A record once taken stays marked as long as its epoch is the current or the next one. */
  lemma {:induction false} Remembered(epoch: nat, events: seq<Event>, i: nat, k: nat)
    requires i < k <= |events| && TakenAt(epoch, events, i)
    ensures var r, n := Run(Start(epoch), events[..k]), EpochIndex(epoch, events, i);
            && (n == Resets(events[..k]) ==> Value(events[i].seqNum) in r.current)
            && (n == Resets(events[..k]) + 1 ==> Value(events[i].seqNum) in r.next)
    decreases k
  {
    hide Value, Step, Run, Resets, Accepts, Early;
    RunNext(Start(epoch), events, k - 1);
    if i < k - 1 {
      Remembered(epoch, events, i, k - 1);
      StepKeepsMarks(Run(Start(epoch), events[..k - 1]), events[k - 1], Value(events[i].seqNum));
      RunNext(Start(epoch), events, i);
      ResetsGrow(events, i + 1, k - 1);
    } else {
      TakenIsMarked(Run(Start(epoch), events[..i]), events[i]);
    }
  }

  lemma EpochOfTaken(epoch: nat, events: seq<Event>, i: nat)
    requires epoch < EPOCHS && i < |events| && TakenAt(epoch, events, i)
    ensures events[i].Record? && events[i].epoch == (epoch + EpochIndex(epoch, events, i)) % EPOCHS
    ensures Resets(events[..i]) <= EpochIndex(epoch, events, i) <= Resets(events[..i]) + 1
  {
    hide Value, Accepts, Resets, Run;
    ReadEpoch(epoch, events, i);
    NextEpoch(epoch, Resets(events[..i]));
  }

  lemma SameIndex(epoch: nat, a: nat, b: nat)
    requires a < EPOCHS && b < EPOCHS && (epoch + a) % EPOCHS == (epoch + b) % EPOCHS
    ensures a == b
  {
  }

  /** A marked record of the same epoch is not taken. */
  lemma NotWhileMarked(epoch: nat, events: seq<Event>, i: nat, j: nat)
    requires i < j < |events| && TakenAt(epoch, events, i) && TakenAt(epoch, events, j)
    requires EpochIndex(epoch, events, i) == EpochIndex(epoch, events, j)
    ensures Value(events[i].seqNum) != Value(events[j].seqNum)
  {
    hide Value, Accepts, Resets, Run, After;
    Remembered(epoch, events, i, j);
    var r := Run(Start(epoch), events[..j]);
    AcceptedIffFresh(r.current, Value(events[j].seqNum));
    AcceptedIffFresh(r.next, Value(events[j].seqNum));
  }

  /** Up to 2^16 - 2 changes of epoch: whatever arrives, no epoch and sequence number are taken twice. */
  lemma NoneTwice(epoch: nat, events: seq<Event>, i: nat, j: nat)
    requires epoch < EPOCHS && Resets(events) < EPOCHS - 1
    requires i < j < |events| && TakenAt(epoch, events, i) && TakenAt(epoch, events, j)
    ensures events[i].epoch != events[j].epoch || Value(events[i].seqNum) != Value(events[j].seqNum)
  {
    hide Value, TakenAt, EpochIndex, Resets;
    EpochOfTaken(epoch, events, i);
    EpochOfTaken(epoch, events, j);
    ResetsGrow(events, i, |events|);
    ResetsGrow(events, j, |events|);
    assert events[..|events|] == events;
    var a, b := EpochIndex(epoch, events, i), EpochIndex(epoch, events, j);
    if events[i].epoch == events[j].epoch {
      SameIndex(epoch, a, b);
      NotWhileMarked(epoch, events, i, j);
    }
  }

  // ----- The bound is exact -----

  lemma {:induction false} OnlyResets(epoch: nat, first: Event, n: nat)
    requires epoch < EPOCHS && first.Record? && first.epoch == epoch && n > 0
    ensures var events := [first] + seq(n, _ => Reset);
            Run(Start(epoch), events) == Start((epoch + n) % EPOCHS) && Resets(events) == n
  {
    var events := [first] + seq(n, _ => Reset);
    var m := |events| - 1;
    assert events[m] == Reset;
    if n == 1 {
      assert events[..m] == [first];
      OneRecord(epoch, first);
    } else {
      OnlyResets(epoch, first, n - 1);
      assert events[..m] == [first] + seq(n - 1, _ => Reset);
      NextEpoch(epoch, n - 1);
    }
  }

  lemma OneRecord(epoch: nat, first: Event)
    requires epoch < EPOCHS && first.Record? && first.epoch == epoch
    ensures Run(Start(epoch), [first]).readEpoch == epoch && Run(Start(epoch), [first]).next == []
    ensures Resets([first]) == 0
  {
    assert [first][..0] == [];
    assert Run(Start(epoch), [first]) == Step(Run(Start(epoch), []), first);
  }

  /** After 2^16 - 1 changes the next epoch is the first again, and its records are taken again. */
  lemma TakenAgain(epoch: nat, seqNum: seq<byte>)
    requires epoch < EPOCHS && |seqNum| == 8
    ensures var r := Record(epoch, 22, seqNum, true);
            var events := [r] + seq(EPOCHS - 1, _ => Reset) + [r];
            && Resets(events) == EPOCHS - 1
            && TakenAt(epoch, events, 0) && TakenAt(epoch, events, EPOCHS)
  {
    hide Value, Accepts, After;
    var r := Record(epoch, 22, seqNum, true);
    var before := [r] + seq(EPOCHS - 1, _ => Reset);
    var events := before + [r];
    assert events[..0] == [] && events[..EPOCHS] == before && events[..|events| - 1] == before;
    OnlyResets(epoch, r, EPOCHS - 1);
    AcceptedIffFresh([], Value(seqNum));
    assert After([]).max == 0 by { NothingMarked(); }
  }

  lemma NothingMarked()
    ensures After([]).max == 0
  {
  }

  // ----- On the bitmaps -----

  ghost function AsReceiver(readEpoch: nat, state: ReplayState): Receiver
    reads state.current, state.next
  {
    Receiver(readEpoch, state.current.marks, state.next.marks)
  }

  /** One record, as dtls1_get_record treats it. */
  method Receive(state: ReplayState, readEpoch: nat, e: Event) returns (taken: bool)
    requires state.Valid() && readEpoch < EPOCHS
    requires e.Record? && |e.seqNum| == 8 && e.epoch < EPOCHS
    modifies state.current, state.next
    ensures state.Valid() && taken == old(Taken(AsReceiver(readEpoch, state), e))
    ensures AsReceiver(readEpoch, state) == Step(old(AsReceiver(readEpoch, state)), e)
  {
    hide Value, Accepts, After;
    taken := false;
    AcceptedIffFresh(state.current.marks, Value(e.seqNum));
    AcceptedIffFresh(state.next.marks, Value(e.seqNum));
    var bitmap, isNextEpoch := state.GetBitmap(readEpoch, e.epoch, e.recordType);
    if bitmap == null {
      return;
    }
    var isNew := bitmap.ReplayCheck(e.seqNum);
    if isNew && e.good {
      bitmap.BitmapUpdate(e.seqNum);
      taken := true;
    }
  }

  /** A whole connection: the verdicts are those of the run, so nothing is taken twice. */
  method ReceiveAll(epoch: nat, events: seq<Event>) returns (taken: seq<bool>)
    requires epoch < EPOCHS
    requires forall i :: 0 <= i < |events| && events[i].Record? ==> |events[i].seqNum| == 8 && events[i].epoch < EPOCHS
    ensures |taken| == |events|
    ensures forall i :: 0 <= i < |events| ==> taken[i] == TakenAt(epoch, events, i)
    ensures Resets(events) < EPOCHS - 1 ==>
              forall i, j :: 0 <= i < j < |events| && taken[i] && taken[j] ==>
                events[i].Record? && events[j].Record? &&
                (events[i].epoch != events[j].epoch || events[i].seqNum != events[j].seqNum)
  {
    hide Value, Resets, Taken, Step, Run;
    var state := new ReplayState();
    var readEpoch: nat := epoch;
    taken := [];
    assert events[..0] == [];
    assert Run(Start(epoch), []) == Start(epoch) by { RunNothing(epoch); }
    for k := 0 to |events|
      invariant state.Valid() && readEpoch < EPOCHS && fresh(state.current) && fresh(state.next)
      invariant |taken| == k && forall i :: 0 <= i < k ==> taken[i] == TakenAt(epoch, events, i)
      invariant AsReceiver(readEpoch, state) == Run(Start(epoch), events[..k])
    {
      RunNext(Start(epoch), events, k);
      if events[k].Reset? {
        ResetStep(AsReceiver(readEpoch, state));
        state.ResetReadSeqNumbers();
        readEpoch := (readEpoch + 1) % EPOCHS;
        taken := taken + [false];
      } else {
        var ok := Receive(state, readEpoch, events[k]);
        taken := taken + [ok];
      }
    }
    if Resets(events) < EPOCHS - 1 {
      AllDiffer(epoch, events, taken);
    }
  }

  lemma RunNothing(epoch: nat)
    ensures Run(Start(epoch), []) == Start(epoch)
  {
  }

  lemma ResetStep(r: Receiver)
    ensures Step(r, Reset) == Receiver((r.readEpoch + 1) % EPOCHS, r.next, []) && !Taken(r, Reset)
  {
  }

  lemma AllDiffer(epoch: nat, events: seq<Event>, taken: seq<bool>)
    requires epoch < EPOCHS && Resets(events) < EPOCHS - 1 && |taken| == |events|
    requires forall i :: 0 <= i < |events| ==> taken[i] == TakenAt(epoch, events, i)
    ensures forall i, j :: 0 <= i < j < |events| && taken[i] && taken[j] ==>
              events[i].Record? && events[j].Record? &&
              (events[i].epoch != events[j].epoch || events[i].seqNum != events[j].seqNum)
  {
    hide Resets, TakenAt, EpochIndex;
    forall i, j | 0 <= i < j < |events| && taken[i] && taken[j]
      ensures events[i].Record? && events[j].Record?
      ensures events[i].epoch != events[j].epoch || events[i].seqNum != events[j].seqNum
    {
      EpochOfTaken(epoch, events, i);
      EpochOfTaken(epoch, events, j);
      NoneTwice(epoch, events, i, j);
    }
  }
}
