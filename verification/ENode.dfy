/** The node itself: an object whose methods update its fields as the source does. Each method is the
    step of the state machine that its name says. */
module ENode {
  import opened Bytes
  import opened Timespecs
  import opened Quorum
  import opened Clock
  import opened Messages
  import P = Phases
  import M = Monotone
  import U = Untainting
  import Wire

  /** to_double */
  function ToDouble(ts: Timespec): real { ts.sec as real + ts.nsec as real / 1000000000.0 }

  lemma ToDoubleIsSec(ts: Timespec)
    ensures ToDouble(ts) == Sec(Nanos(ts))
  {}

  /** What every reachable state keeps after n D messages. */
  predicate Inv(s: State, n: nat) {
    P.Phase(s, n) && M.Timeline(s) && Distinct(s.siblings)
  }

  lemma InvStep(s: State, n: nat, e: Event)
    requires Inv(s, n) && Enabled(s, e)
    ensures Inv(Step(s, e), if e.Drift? then n + 1 else n)
  {
    P.PhaseStep(s, n, e);
    M.TimelineStep(s, e);
    U.SiblingsStep(s, e);
    hide P.Phase, M.Timeline, Distinct, Step, Enabled;
  }

  class Node {
    const port: int
    var stop: bool
    var nodeState: NodeState
    var taConsistent: bool
    var clockOffset: Timespec
    var pollExponent: nat
    var calibCount: bool
    var tainted: bool
    var totalAexCount: int
    var nbUninterrRounds: int
    var addCount: int
    var addCountRef: int
    var tsc: int
    var tscRef: int
    var lastUpdateTsc: int
    var tscFreq: real
    var tsRef: Timespec
    var passCount: int
    var enterFreq: bool
    var trainStart: Timespec
    var siblings: seq<Peer>
    ghost var drifts: nat

    /** The state of the machine that this object is in. */
    function View(): State
      reads this
    {
      State(port, stop, nodeState, taConsistent, Nanos(clockOffset), pollExponent, calibCount, tainted,
            totalAexCount, nbUninterrRounds, addCount, addCountRef, tsc, tscRef, lastUpdateTsc, tscFreq,
            Nanos(tsRef), passCount, enterFreq, Nanos(trainStart), siblings)
    }

    ghost predicate Valid()
      reads this
    {
      Standard(tsRef) && Inv(View(), drifts)
    }

    constructor (port: int, freq: real, ts: Timespec, tsc: int)
      requires Standard(ts)
      ensures Valid() && drifts == 0 && View() == Initial(port, freq, Nanos(ts), tsc)
    {
      this.port, stop, nodeState, taConsistent, clockOffset := port, false, Freq, false, Timespec(0, 0);
      pollExponent, calibCount, tainted := 2, false, false;
      totalAexCount, nbUninterrRounds, addCount, addCountRef := 0, 0, 0, 0;
      this.tsc, tscRef, lastUpdateTsc, tscFreq, tsRef := tsc, tsc, tsc, freq, ts;
      passCount, enterFreq, trainStart, siblings := 0, true, Timespec(0, 0), [];
      drifts := 0;
    }

    // ---------------------------------------------------------------- the counter and the monitor

    /** One turn of the counting loop. */
    method StoreTsc(now: int)
      requires Valid() && Enabled(View(), Tick(now))
      modifies this
      ensures Valid() && drifts == old(drifts) && View() == Step(old(View()), Tick(now))
    {
      hide Inv;
      InvStep(View(), drifts, Tick(now));
      tsc := now;
    }

    /** aex_handler */
    method AexHandler(postaexTsc: int)
      requires Valid() && Enabled(View(), Aex(postaexTsc))
      modifies this
      ensures Valid() && drifts == old(drifts) && View() == Step(old(View()), Aex(postaexTsc))
    {
      hide Inv;
      InvStep(View(), drifts, Aex(postaexTsc));
      tainted := true;
      totalAexCount := totalAexCount + 1;
      tsc := postaexTsc;
    }

    /** monitor_rdtsc after its counting loop. */
    method MonitorRdtsc(memTotalAexCount: int, count: int)
      requires Valid() && Enabled(View(), Round(memTotalAexCount, count))
      modifies this
      ensures Valid() && drifts == old(drifts) && View() == Step(old(View()), Round(memTotalAexCount, count))
    {
      hide Inv, Monitored;
      InvStep(View(), drifts, Round(memTotalAexCount, count));
      EndRound(memTotalAexCount, count);
    }

    method EndRound(memTotalAexCount: int, count: int)
      modifies this`addCount, this`nbUninterrRounds, this`totalAexCount, this`tainted, this`calibCount, this`nodeState
      ensures View() == Monitored(old(View()), memTotalAexCount, count)
    {
      hide Discalibrated, Counted, Checked;
      CountRound(memTotalAexCount, count);
      CheckCalibration(memTotalAexCount);
    }

    method CountRound(memTotalAexCount: int, count: int)
      modifies this`addCount, this`nbUninterrRounds, this`totalAexCount, this`tainted
      ensures View() == Counted(old(View()), memTotalAexCount, count)
    {
      addCount := count;
      if totalAexCount == memTotalAexCount {
        nbUninterrRounds := nbUninterrRounds + 1;
      } else {
        nbUninterrRounds := 0;
      }
      if nbUninterrRounds > SELFTAINTING_ROUNDS {
        nbUninterrRounds := 0;
        totalAexCount := totalAexCount + 1;
        tainted := true;
      }
    }

    method CheckCalibration(memTotalAexCount: int)
      modifies this`calibCount, this`nodeState
      ensures View() == Checked(old(View()), memTotalAexCount)
    {
      hide Discalibrated;
      if totalAexCount == memTotalAexCount && Discalibrated(addCount, addCountRef) {
        calibCount := false;
        nodeState := Freq;
      }
    }

    /** calibrate_count after its i-th round: the reference is the mean number of increments. */
    method SetReference(addCountSum: nat, i: nat)
      requires Valid() && tscFreq > 0.0 && i > 0
      modifies this
      ensures Valid() && drifts == old(drifts) && View() == Step(old(View()), Reference(addCountSum / i))
    {
      hide Inv;
      InvStep(View(), drifts, Reference(addCountSum / i));
      addCountRef := addCountSum / i;
    }

    /** calibrate, with the answer of calibrate_count. */
    method FinishCalibration(ok: bool)
      requires Valid() && tscFreq > 0.0
      modifies this
      ensures Valid() && drifts == old(drifts) && View() == Step(old(View()), Calibrated(ok))
    {
      hide Inv;
      InvStep(View(), drifts, Calibrated(ok));
      calibCount := ok;
    }

    /** stop_tasks */
    method StopTasks()
      requires Valid() && tscFreq > 0.0
      modifies this
      ensures Valid() && drifts == old(drifts) && View() == Step(old(View()), Halt)
    {
      hide Inv;
      InvStep(View(), drifts, Halt);
      stop := true;
    }

    // ---------------------------------------------------------------- the clock

    /** get_timestamp: a forced read always goes through; another waits, here by not being served. */
    method GetTimestamp(force: bool, memTsc: int) returns (served: bool, ts: Timespec)
      requires Valid() && tscFreq > 0.0
      modifies this
      ensures Valid() && drifts == old(drifts)
      ensures (var e := if force then Forced else Unforced(memTsc);
        View() == Step(old(View()), e) &&
        (if served then Stamps(old(View()), e) == [Nanos(ts)] else Stamps(old(View()), e) == []))
      ensures served ==> ts == tsRef
    {
      hide Inv;
      InvStep(View(), drifts, if force then Forced else Unforced(memTsc));
      ts := tsRef;
      served := force ||
        !(!calibCount || !taConsistent || tainted || memTsc == tsc || tsc < tscRef) || stop;
      if served {
        ts := ReadClock();
      }
    }

    method ReadClock() returns (ts: Timespec)
      requires Standard(tsRef) && tscFreq != 0.0
      modifies this`tscRef, this`tsRef
      ensures View() == Read(old(View())) && ts == tsRef && Standard(tsRef)
    {
      var totalNsec := Trunc((tsc - tscRef) as real / tscFreq);
      tscRef := tsc;
      ts := PlusNanos(tsRef, totalNsec);
      tsRef := ts;
    }

    /** step_clock */
    method StepClock()
      requires Standard(tsRef)
      modifies this`tsRef, this`clockOffset, this`lastUpdateTsc
      ensures View() == Stepped(old(View())) && Standard(tsRef)
    {
      tsRef := Plus(tsRef, clockOffset);
      clockOffset := Timespec(0, 0);
      lastUpdateTsc := tsc;
    }

    /** discipline_clock */
    method DisciplineClock()
      requires Standard(tsRef) && tscFreq != 0.0
      modifies this`tsRef, this`clockOffset, this`lastUpdateTsc, this`tscFreq
      ensures View() == Disciplined(old(View())) && Standard(tsRef)
    {
      hide Corrected, Sec;
      var mu := PlusNanos(Timespec(0, 0), Trunc((tsc - lastUpdateTsc) as real / tscFreq));
      ToDoubleIsSec(mu);
      ToDoubleIsSec(clockOffset);
      tscFreq := CorrectedFreq(ToDouble(clockOffset), ToDouble(mu));
      var ahead := Less(Timespec(0, 0), clockOffset);
      if ahead {
        StepClock();
      }
      lastUpdateTsc := tsc;
    }

    /** The frequency-locked and phase-locked corrections of discipline_clock. */
    method CorrectedFreq(offset: real, mu: real) returns (f: real)
      ensures f == Corrected(tscFreq, pollExponent, offset, mu)
    {
      hide FrequencyLocked, PhaseLocked;
      f := tscFreq;
      if pollExponent >= ALLAN_INTERCEPT {
        f := f - FrequencyLocked(pollExponent, offset, mu);
      }
      f := f - PhaseLocked(pollExponent, offset, mu);
    }

    /** select_clock */
    method SelectClock()
      requires Standard(tsRef) && tscFreq != 0.0
      requires Exits(View()) ==> TrainDuration(View()) + Sec(View().offset) != 0.0
      modifies this
      ensures View() == Selected(old(View())) && Standard(tsRef) && drifts == old(drifts)
    {
      hide NewFreq, Pow, Inv;
      var timeConstant := Pow(pollExponent);
      match nodeState
      case Sync =>
        DisciplineClock();
      case Spik =>
        SelectSpike(timeConstant);
      case Freq =>
        SelectFreq(timeConstant);
    }

    method SelectSpike(timeConstant: int)
      requires Standard(tsRef) && nodeState.Spik? && timeConstant == Pow(pollExponent)
      modifies this
      ensures View() == Spiked(old(View())) && Standard(tsRef) && drifts == old(drifts)
    {
      hide Pow, Inv;
      passCount := passCount + timeConstant;
      var large := Less(Timespec(0, CLOCK_FLOOR_NS), clockOffset);
      if !large {
        passCount := 0;
        nodeState := Sync;
      } else if passCount >= STEP_OUT_THRESHOLD_S {
        StepClock();
        passCount := 0;
        nodeState := Sync;
      }
    }

    method SelectFreq(timeConstant: int)
      requires Standard(tsRef) && nodeState.Freq? && timeConstant == Pow(pollExponent)
      requires Exits(View()) ==> TrainDuration(View()) + Sec(View().offset) != 0.0
      modifies this
      ensures View() == Trained(old(View())) && Standard(tsRef) && drifts == old(drifts)
    {
      hide Pow, Inv, Entered, Exited, Sec;
      passCount := passCount + timeConstant;
      if enterFreq {
        EnterTraining();
      } else if passCount >= STEP_OUT_THRESHOLD_S {
        ExitTraining();
      }
    }

    method EnterTraining()
      requires Standard(tsRef)
      modifies this`tsRef, this`clockOffset, this`lastUpdateTsc, this`trainStart, this`enterFreq
      ensures View() == Entered(old(View())) && Standard(tsRef)
    {
      StepClock();
      trainStart := tsRef;
      enterFreq := false;
    }

    method ExitTraining()
      requires Standard(tsRef) && TrainDuration(View()) + Sec(View().offset) != 0.0
      modifies this`tsRef, this`clockOffset, this`lastUpdateTsc, this`tscFreq, this`calibCount, this`passCount,
        this`nodeState, this`pollExponent, this`enterFreq
      ensures View() == Exited(old(View())) && Standard(tsRef)
    {
      hide TrainDuration, Sec, TrainedFreq, Released, Stepped;
      tscFreq := CorrectedByTraining();
      StepClock();
      Release();
    }

    method Release()
      modifies this`calibCount, this`passCount, this`nodeState, this`pollExponent, this`enterFreq
      ensures View() == Released(old(View()))
    {
      calibCount := false;
      passCount := 0;
      nodeState := Sync;
      pollExponent := MIN_POLL_EXPONENT;
      enterFreq := true;
    }

    method CorrectedByTraining() returns (f: real)
      requires TrainDuration(View()) + Sec(View().offset) != 0.0
      ensures f == TrainedFreq(View())
    {
      var trained := Minus(tsRef, trainStart);
      ToDoubleIsSec(trained);
      ToDoubleIsSec(clockOffset);
      hide Sec, ToDouble;
      var ratio := ToDouble(trained) / (ToDouble(trained) + ToDouble(clockOffset));
      f := tscFreq * ratio;
    }

    // ---------------------------------------------------------------- messages

    /** The D case: read the clock, compute the offset, judge it, select. */
    method HandleDrift(org: Timespec, rec: Timespec, xmt: Timespec)
      requires Valid() && Enabled(View(), Event.Drift(Nanos(org), Nanos(rec), Nanos(xmt)))
      modifies this
      ensures Valid() && drifts == old(drifts) + 1
      ensures View() == Step(old(View()), Event.Drift(Nanos(org), Nanos(rec), Nanos(xmt)))
    {
      hide Inv, Selected, Exits;
      InvStep(View(), drifts, Event.Drift(Nanos(org), Nanos(rec), Nanos(xmt)));
      Sight(org, rec, xmt);
      SelectClock();
      drifts := drifts + 1;
    }

    method Sight(org: Timespec, rec: Timespec, xmt: Timespec)
      requires Standard(tsRef) && tscFreq != 0.0
      modifies this`tscRef, this`tsRef, this`clockOffset, this`nodeState, this`taConsistent
      ensures View() == Sighted(old(View()), Nanos(org), Nanos(rec), Nanos(xmt)) && Standard(tsRef)
    {
      hide Read, Judged;
      var recv := ReadClock();
      clockOffset := Offset(org, rec, xmt, recv);
      JudgeOffset();
    }

    method JudgeOffset()
      modifies this`nodeState, this`taConsistent
      ensures View() == Judged(old(View()))
    {
      var small := Less(clockOffset, Timespec(0, STEP_THRESHOLD_NS));
      if nodeState.Sync? && !small {
        nodeState := Spik;
      }
      if !nodeState.Freq? {
        ToDoubleIsSec(clockOffset);
        hide Sec, Pow, ToDouble;
        var offset := ToDouble(clockOffset);
        var limit := MAX_DRIFT_RATE * Pow(pollExponent) as real;
        taConsistent := (if offset < 0.0 then -offset else offset) <= limit;
      }
    }

    /** The U case. */
    method HandleUntaint(ip: string, from: int, a: Answer)
      requires Valid() && tscFreq > 0.0
      modifies this
      ensures Valid() && drifts == old(drifts)
      ensures (View()
        == Step(old(View()), Untaint(ip, from, a.count, a.views, Nanos(a.org), Nanos(a.rec), Nanos(a.xmt))))
    {
      hide Inv, IndexOf, Highest, Recorded, Cleared;
      InvStep(View(), drifts, Untaint(ip, from, a.count, a.views, Nanos(a.org), Nanos(a.rec), Nanos(a.xmt)));
      var index := Find(siblings, ip, from);
      if index != |siblings| {
        var close := Judge(a);
        RecordAnswer(index, close, a);
        ClearOnQuorum(a.count);
      }
    }

    /** Whether the sibling's clock is not too far ahead. The node's own time is taken without moving
        the reference point. */
    method Judge(a: Answer) returns (close: bool)
      requires tscFreq != 0.0
      ensures (close
        <==> OffsetOf(Nanos(a.org), Nanos(a.rec), Nanos(a.xmt), Nanos(tsRef) + Elapsed(tsc - tscRef, tscFreq))
             < PEER_CONSISTENCY_DRIFT_THRESHOLD_NS)
    {
      var recv := PlusNanos(tsRef, Trunc((tsc - tscRef) as real / tscFreq));
      var peerClockOffset := Offset(a.org, a.rec, a.xmt, recv);
      close := Less(peerClockOffset, Timespec(0, PEER_CONSISTENCY_DRIFT_THRESHOLD_NS));
    }

    method RecordAnswer(index: nat, close: bool, a: Answer)
      requires index < |siblings|
      modifies this`siblings
      ensures siblings == Recorded(old(siblings), index, a.count, close, a.views)
    {
      if a.count > siblings[index].count {
        siblings := siblings[index := siblings[index].(count := a.count, consistent := close, views := a.views)];
      }
    }

    method ClearOnQuorum(count: int)
      modifies this`tainted
      ensures tainted == (old(tainted) && !Cleared(siblings, Highest(siblings, count)))
    {
      var maxCount := MaxCount(siblings, count);
      var consistentCount, peerConsistentCount := CountBoth(siblings, maxCount);
      if consistentCount >= |siblings| - 1 && peerConsistentCount >= |siblings| - 1 {
        tainted := false;
      }
    }

    /** The S case and add_sibling. */
    method Join(hostname: string, from: int) returns (added: bool)
      modifies this`siblings
      ensures siblings == Joined(old(siblings), hostname, from) && (added <==> siblings != old(siblings))
    {
      var index := Find(siblings, hostname, from);
      added := index == |siblings|;
      if added {
        siblings := siblings + [Peer(hostname, from, 0, false, false)];
      }
    }

    /** add_sibling: a new sibling is told so. */
    method AddSibling(hostname: string, from: int) returns (sent: Reply)
      requires Valid() && tscFreq > 0.0
      modifies this
      ensures Valid() && drifts == old(drifts) && View() == Step(old(View()), Event.AddSibling(hostname, from))
      ensures sent == if siblings != old(siblings) then Send(SIBLING) else Silence
    {
      hide Inv, Joined;
      InvStep(View(), drifts, Event.AddSibling(hostname, from));
      sent := Silence;
      if !(hostname == "127.0.0.1" && from == port) {
        var added := Join(hostname, from);
        if added { sent := Send(SIBLING); }
      }
    }

    /** The T case: a consistent node answers a known sibling with two readings of its clock. */
    method HandleTaint(buf: Bytes, ip: string, from: int) returns (reply: Reply)
      requires Standard(tsRef) && tscFreq > 0.0 && |buf| > 0 && buf[0] == 'T' as int
      modifies this`tscRef, this`tsRef
      ensures View() == Step(old(View()), Decode(buf, ip, from)) && Standard(tsRef)
      ensures reply == ReplyTo(old(View()), buf, ip, from)
    {
      hide Read, IndexOf, Wire.FromLong, Wire.FromStamp, AnswerFrame;
      reply := Silence;
      var index := Find(siblings, ip, from);
      if index != |siblings| && |buf| == T_MSG_EXPECTED_LEN && taConsistent {
        var rec := ReadClock();
        var xmt := ReadClock();
        StandardUnique(rec, OfNanos(Nanos(rec)));
        StandardUnique(xmt, OfNanos(Nanos(xmt)));
        var a := Answer(Wire.FromLong(buf[7..15]), siblings[index].consistent, Wire.FromStamp(buf[15..31]), rec, xmt);
        reply := Send(AnswerFrame(a, UNTAINTING, Zeros(16)));
      }
    }

    /** handle_message: any bytes from anywhere are the event that Decode says, and what is sent back is
        what ReplyTo says. */
    method HandleMessage(buf: Bytes, ip: string, from: int) returns (reply: Reply)
      requires Valid() && Enabled(View(), Decode(buf, ip, from))
      modifies this
      ensures Valid() && drifts == old(drifts) + if Decode(buf, ip, from).Drift? then 1 else 0
      ensures View() == Step(old(View()), Decode(buf, ip, from))
      ensures reply == ReplyTo(old(View()), buf, ip, from)
    {
      hide Inv, Joined, IndexOf, AnswerFrame, AnswerTo, ParseAnswer, Wire.Parse;
      InvStep(View(), drifts, Decode(buf, ip, from));
      reply := Silence;
      if |buf| == 0 { return; }
      if buf[0] == 'S' as int {
        var added := Join(ip, from);
      } else if buf[0] == 'T' as int {
        reply := HandleTaint(buf, ip, from);
      } else if buf[0] == 'U' as int {
        if |buf| == U_MSG_EXPECTED_LEN {
          HandleUntaint(ip, from, ParseAnswer(buf));
        }
      } else if buf[0] == 'D' as int {
        if |buf| == D_MSG_EXPECTED_LEN {
          var m := Wire.Parse(buf);
          HandleDrift(m.org, m.rec, m.xmt);
        }
      } else {
        reply := Send(buf);
      }
    }
  }
}
