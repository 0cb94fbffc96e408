/** What a connection may do to its event loop, its descriptor and its owner, in the order in which it
    does it.  The monitor accepts the allowed traces; the lemmas below say, about traces alone, what
    acceptance means. */
module SafetyMonitor {
  import opened Wrappers

  datatype Code = OK | CONNECT_ERROR | READ_ERROR | WRITE_ERROR | CLOSE_ERROR | INVALID_CONNECTION

  /** FireWrite takes the one-shot write registration with it; a read registration is persistent.
      ReadFailed and WriteFailed are refusals by ReadFromEndPoint and WriteIntoEndPoint; CloseFd carries the
      answer of ::close. */
  datatype Effect =
    | RegisterRead | FireRead | UnregisterRead
    | RegisterWrite | FireWrite | UnregisterWrite
    | ReadFailed | WriteFailed
    | EnterHandler | ExitHandler
    | CloseFd(ok: bool) | Notify(code: Code)

  /** verdict is what the owner has to be told: the one failure there was, or OK. */
  datatype Monitor = Monitor(reading: bool, writing: bool, depth: nat, verdict: Code, closed: bool, notified: bool) {
    function Observe(e: Effect): Option<Monitor> {
      if notified || (closed && !e.Notify?) then None
      else
        match e
        case RegisterRead => if reading then None else Some(this.(reading := true))
        case FireRead => if reading then Some(this) else None
        case UnregisterRead => if reading then Some(this.(reading := false)) else None
        case RegisterWrite => if writing then None else Some(this.(writing := true))
        case FireWrite => if writing then Some(this.(writing := false)) else None
        case UnregisterWrite => if writing then Some(this.(writing := false)) else None
        case ReadFailed => if verdict == OK then Some(this.(verdict := READ_ERROR)) else None
        case WriteFailed => if verdict == OK then Some(this.(verdict := WRITE_ERROR)) else None
        case EnterHandler => Some(this.(depth := depth + 1))
        case ExitHandler => if depth > 0 then Some(this.(depth := depth - 1)) else None
        case CloseFd(ok) =>
          if reading || depth > 0 then None
          else Some(this.(closed := true, verdict := if ok then verdict else CLOSE_ERROR))
        case Notify(code) => if closed && depth == 0 && code == verdict then Some(this.(notified := true)) else None
    }
  }

  const FRESH := Monitor(false, false, 0, OK, false, false)

  /** The monitor after a trace, or None once something forbidden has happened. */
  function Watch(trace: seq<Effect>): Option<Monitor> {
    if trace == [] then Some(FRESH)
    else
      var before := Watch(trace[..|trace| - 1]);
      if before.None? then None else before.value.Observe(trace[|trace| - 1])
  }

  lemma WatchExtend(trace: seq<Effect>, e: Effect)
    ensures var before := Watch(trace);
            Watch(trace + [e]) == if before.None? then None else before.value.Observe(e)
  {
    assert (trace + [e])[..|trace|] == trace;
  }

  lemma {:induction false} PrefixAccepted(trace: seq<Effect>, i: nat)
    requires i <= |trace| && Watch(trace).Some?
    ensures Watch(trace[..i]).Some?
  {
    if i < |trace| {
      var shorter := trace[..|trace| - 1];
      PrefixAccepted(shorter, i);
      assert shorter[..i] == trace[..i];
    } else {
      assert trace[..i] == trace;
    }
  }

  function HandlersRunning(trace: seq<Effect>): int {
    if trace == [] then 0
    else
      var last := trace[|trace| - 1];
      HandlersRunning(trace[..|trace| - 1]) + if last == EnterHandler then 1 else if last == ExitHandler then -1 else 0
  }

  /** No effect of `ends` stands in trace[from..to]. */
  predicate Without(trace: seq<Effect>, from: nat, to: nat, ends: set<Effect>)
    requires from <= to <= |trace|
  {
    forall k :: from <= k < to ==> trace[k] !in ends
  }

  lemma {:induction false} DepthCountsHandlers(trace: seq<Effect>)
    requires Watch(trace).Some?
    ensures Watch(trace).value.depth == HandlersRunning(trace)
  {
    if trace == [] {
    } else {
      DepthCountsHandlers(trace[..|trace| - 1]);
    }
  }

  lemma {:induction false} PastEffect(trace: seq<Effect>, i: nat)
    requires Watch(trace).Some? && i < |trace|
    ensures trace[i] == RegisterRead && Without(trace, i + 1, |trace|, {UnregisterRead}) ==> Watch(trace).value.reading
    ensures trace[i] == RegisterWrite && Without(trace, i + 1, |trace|, {UnregisterWrite, FireWrite}) ==>
              Watch(trace).value.writing
    ensures trace[i].CloseFd? ==> Watch(trace).value.closed
    ensures trace[i].Notify? ==> Watch(trace).value.notified
  {
    var shorter := trace[..|trace| - 1];
    if i == |shorter| {
    } else {
      PastEffect(shorter, i);
      assert forall k :: 0 <= k < |shorter| ==> trace[k] == shorter[k];
    }
  }

  // ---------------------------------------------------------------- what the owner is told

  /** What a trace calls for. */
  function Verdict(trace: seq<Effect>): Code {
    if CloseFd(false) in trace then CLOSE_ERROR
    else if ReadFailed in trace then READ_ERROR
    else if WriteFailed in trace then WRITE_ERROR
    else OK
  }

  lemma {:induction false} VerdictIsWatched(trace: seq<Effect>)
    requires Watch(trace).Some?
    ensures Watch(trace).value.verdict == Verdict(trace)
    ensures !(ReadFailed in trace && WriteFailed in trace)
  {
    if trace == [] {
    } else {
      var shorter, last := trace[..|trace| - 1], trace[|trace| - 1];
      VerdictIsWatched(shorter);
      assert trace == shorter + [last];
      VerdictExtends(shorter, last);
      if !Watch(shorter).value.closed {
        NotYetClosed(shorter);
      }
    }
  }

  /** One more effect, before the descriptor is closed. */
  lemma VerdictExtends(trace: seq<Effect>, e: Effect)
    ensures CloseFd(false) !in trace && !(ReadFailed in trace && WriteFailed in trace) ==>
              Verdict(trace + [e]) == match e
                                      case CloseFd(ok) => if ok then Verdict(trace) else CLOSE_ERROR
                                      case ReadFailed => READ_ERROR
                                      case WriteFailed => if ReadFailed in trace then READ_ERROR else WRITE_ERROR
                                      case _ => Verdict(trace)
    ensures e != ReadFailed && e != WriteFailed && !e.CloseFd? ==> Verdict(trace + [e]) == Verdict(trace)
    ensures forall x :: x in trace + [e] <==> x in trace || x == e
  {
  }

  lemma {:induction false} NotYetClosed(trace: seq<Effect>)
    requires Watch(trace).Some? && !Watch(trace).value.closed
    ensures CloseFd(false) !in trace && CloseFd(true) !in trace
  {
    if trace == [] {
    } else {
      NotYetClosed(trace[..|trace| - 1]);
    }
  }

  /** The owner is told CLOSE_ERROR if and only if ::close failed, and otherwise of the read or write that
      failed, or OK when none did. */
  lemma OwnerIsToldTheVerdict(trace: seq<Effect>, i: nat)
    requires Watch(trace).Some? && i < |trace| && trace[i].Notify?
    ensures trace[i].code == Verdict(trace) != INVALID_CONNECTION && i == |trace| - 1
  {
    if i < |trace| - 1 {
      AcceptedIsSafe(trace, i, i + 1);
    } else {
      VerdictIsWatched(trace);
    }
  }

  // ---------------------------------------------------------------- registrations that remain

  predicate ReadRemainsFrom(trace: seq<Effect>, i: nat)
    requires i < |trace|
  {
    trace[i] == RegisterRead && Without(trace, i + 1, |trace|, {UnregisterRead})
  }

  predicate WriteRemainsFrom(trace: seq<Effect>, i: nat)
    requires i < |trace|
  {
    trace[i] == RegisterWrite && Without(trace, i + 1, |trace|, {UnregisterWrite, FireWrite})
  }

  /** Some registration was neither taken back nor used up. */
  predicate ReadRemains(trace: seq<Effect>) {
    exists i :: 0 <= i < |trace| && ReadRemainsFrom(trace, i)
  }

  predicate WriteRemains(trace: seq<Effect>) {
    exists i :: 0 <= i < |trace| && WriteRemainsFrom(trace, i)
  }

  /** The monitor's flags are the registrations that remain. */
  lemma {:induction false} FlagsAreRegistrations(trace: seq<Effect>)
    requires Watch(trace).Some?
    ensures Watch(trace).value.reading <==> ReadRemains(trace)
    ensures Watch(trace).value.writing <==> WriteRemains(trace)
  {
    if trace == [] {
    } else {
      var shorter, k := trace[..|trace| - 1], |trace| - 1;
      FlagsAreRegistrations(shorter);
      assert forall i :: 0 <= i < k ==> shorter[i] == trace[i];
      assert ReadRemainsFrom(trace, k) <==> trace[k] == RegisterRead;
      assert WriteRemainsFrom(trace, k) <==> trace[k] == RegisterWrite;
      forall i | 0 <= i < k
        ensures ReadRemainsFrom(trace, i) <==> ReadRemainsFrom(shorter, i) && trace[k] != UnregisterRead
        ensures WriteRemainsFrom(trace, i) <==>
                WriteRemainsFrom(shorter, i) && trace[k] != UnregisterWrite && trace[k] != FireWrite
      {
      }
    }
  }

  /** A delivered write event whose WriteIntoEndPoint registered again and then failed. */
  predicate FailedAfterRegistering(trace: seq<Effect>, i: nat)
    requires i < |trace|
  {
    i >= 2 && trace[i] == WriteFailed && trace[i - 1] == RegisterWrite && trace[i - 2] == FireWrite
  }

  predicate Leaks(trace: seq<Effect>) {
    exists i :: 0 <= i < |trace| && FailedAfterRegistering(trace, i)
  }

  lemma LeaksExtend(trace: seq<Effect>, e: Effect)
    ensures Leaks(trace + [e]) <==> Leaks(trace) || FailedAfterRegistering(trace + [e], |trace|)
  {
    var longer := trace + [e];
    forall i | 0 <= i < |trace|
      ensures FailedAfterRegistering(longer, i) <==> FailedAfterRegistering(trace, i)
    {
    }
  }

  /** What an accepted trace never does: close or report twice, do either inside a data handler, touch
      anything after the report, register a direction twice, or close while registered for reading. */
  lemma AcceptedIsSafe(trace: seq<Effect>, i: nat, j: nat)
    requires Watch(trace).Some? && i < j < |trace|
    ensures !(trace[i].CloseFd? && trace[j].CloseFd?)
    ensures !trace[i].Notify?
    ensures trace[i].CloseFd? ==> trace[j].Notify?
    ensures trace[j].CloseFd? || trace[j].Notify? ==> HandlersRunning(trace[..j]) == 0
    ensures trace[i] == RegisterRead && (trace[j] == RegisterRead || trace[j].CloseFd?) ==>
              !Without(trace, i + 1, j, {UnregisterRead})
    ensures trace[i] == RegisterWrite && trace[j] == RegisterWrite ==>
              !Without(trace, i + 1, j, {UnregisterWrite, FireWrite})
  {
    var before := trace[..j];
    PrefixAccepted(trace, j);
    PrefixAccepted(trace, j + 1);
    assert trace[..j + 1] == before + [trace[j]];
    WatchExtend(before, trace[j]);
    DepthCountsHandlers(before);
    assert before[i] == trace[i];
    PastEffect(before, i);
    assert forall k :: 0 <= k < j ==> before[k] == trace[k];
  }
}
