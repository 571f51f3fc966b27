/** One session of a watcher against its offset queue, message by message. */
module WatcherSync {
  import opened OffsetQueues

  /** Notify announces an offset; Answer carries the events from .. upto - 1 and the offset of the last one. */
  datatype Msg = Notify(offset: nat) | Answer(from: nat, upto: nat)

  /** Server: number of events added, queue start, number of events announced (lastNotifyOffset is
      MaxOffset(told)). Client: the three watcher fields and the indices of the events it was given,
      in order. Two first-in first-out channels. */
  datatype State = State(added: nat, start: nat, told: nat,
                         local: nat, server: nat, syncing: bool, received: seq<nat>,
                         toClient: seq<Msg>, toServer: seq<nat>)

  const INITIAL := State(0, 0, 0, 0, 0, false, [], [], [])

  datatype Step =
    | Add
    | SendNotify(offset: nat)    // any offset of the queue that passes the allowSend test
    | Serve                      // the server answers the oldest sync
    | Deliver                    // the client handles its oldest message
    | Resend                     // an answer is lost and the client asks again

  function Indices(from: nat, upto: nat): (r: seq<nat>)
    ensures |r| == if from <= upto then upto - from else 0
    ensures forall i :: 0 <= i < |r| ==> r[i] == from + i
  {
    if from <= upto then seq(upto - from, i => from + i) else []
  }

  function Sync(s: State): State
  {
    if s.syncing then s else s.(toServer := s.toServer + [s.local], syncing := true)
  }

  /** doConnection's handling of one message. */
  function Handle(s: State, m: Msg): State
  {
    match m
    case Notify(offset) =>
      if offset == 0 || offset > s.local then Sync(s.(server := offset)) else s
    case Answer(from, upto) =>
      var t := s.(syncing := false, local := MaxOffset(upto), received := s.received + Indices(from, upto));
      if t.local < t.server then Sync(t) else t
  }

  /** The watcher's fields and its message handling. */
  class Watcher {
    var localOffset: nat
    var serverOffset: nat
    var syncing: bool
    ghost var received: seq<nat>
    ghost var toServer: seq<nat>

    /** The client's part of a session. */
    ghost predicate Is(s: State)
      reads this
    {
      localOffset == s.local && serverOffset == s.server && syncing == s.syncing && received == s.received && toServer == s.toServer
    }

    method SendSync()
      modifies this
      ensures forall s :: old(Is(s)) ==> Is(Sync(s))
    {
      if !syncing {
        toServer := toServer + [localOffset];
        syncing := true;
      }
    }

    /** One message read from the connection. */
    method Receive(m: Msg)
      modifies this
      ensures forall s :: old(Is(s)) ==> Is(Handle(s, m))
    {
      match m {
        case Notify(offset) =>
          if offset == 0 || offset > localOffset {
            serverOffset := offset;
            SendSync();
          }
        case Answer(from, upto) =>
          syncing, localOffset := false, MaxOffset(upto);
          received := received + Indices(from, upto);
          if localOffset < serverOffset {
            SendSync();
          }
      }
    }
  }

  /** The oldest sync asks for an offset past the end, on which the queue panics. */
  predicate Panics(s: State)
  {
    |s.toServer| > 0 && s.toServer[0] > MaxOffset(s.added)
  }

  function Next(s: State, t: Step): State
  {
    match t
    case Add => s.(added := s.added + 1)
    case SendNotify(o) =>
      if o < s.added && (MaxOffset(s.told) == 0 || MaxOffset(s.told) < o) then
        s.(told := o + 1, toClient := s.toClient + [Notify(o)])
      else s
    case Serve =>
      if |s.toServer| > 0 && !Panics(s) then
        var start := From(s.start, s.toServer[0]);
        s.(start := start, toServer := s.toServer[1..], toClient := s.toClient + [Answer(start, s.added)])
      else s
    case Deliver =>
      if |s.toClient| > 0 then Handle(s.(toClient := s.toClient[1..]), s.toClient[0]) else s
    case Resend =>
      if |s.toClient| > 0 && s.toClient[0].Answer? then
        s.(toClient := s.toClient[1..], toServer := s.toServer + [s.local])
      else s
  }

  function Run(steps: seq<Step>): State
  {
    if |steps| == 0 then INITIAL else Next(Run(steps[..|steps| - 1]), steps[|steps| - 1])
  }

  /** Some copies of event 0 and then events 1 .. n - 1 once each, in order. */
  ghost predicate InOrder(received: seq<nat>, n: nat)
  {
    if n == 0 then received == []
    else
      && |received| >= n
      && (forall i :: 0 <= i <= |received| - n ==> received[i] == 0)
      && (forall i :: |received| - n < i < |received| ==> received[i] == i - (|received| - n))
  }

  /** How many distinct events the client has. */
  function Have(s: State): nat
  {
    if s.received == [] then 0 else s.local + 1
  }

  /** Where an answer to a sync with the client's offset starts: right after what the client has, or
      at event 0 as long as it has at most that one. */
  predicate NextFrom(s: State, from: nat)
  {
    from == Have(s) || (from == 0 && Have(s) <= 1)
  }

  ghost predicate AnswersOk(s: State)
  {
    forall i :: 0 <= i < |s.toClient| && s.toClient[i].Answer? ==>
                  && s.syncing && s.toServer == []
                  && NextFrom(s, s.toClient[i].from)
                  && 0 < s.toClient[i].upto <= s.added && Have(s) <= s.toClient[i].upto
                  && forall j :: 0 <= j < |s.toClient| && s.toClient[j].Answer? ==> i == j
  }

  /** The client's side of the session and its one open request. */
  ghost predicate ClientInv(s: State)
  {
    && Have(s) <= s.added && InOrder(s.received, Have(s))
    && (s.received == [] ==> s.local == 0)
    && s.start <= Have(s)
    && (s.toServer != [] ==> s.syncing && s.toServer == [s.local] && s.added > 0)
    && AnswersOk(s)
  }

  ghost predicate AnswerComing(ms: seq<Msg>)
  {
    exists m :: m in ms && m.Answer?
  }

  /** Announcements arrive in increasing order, none below the client's server offset. */
  ghost predicate Channel(s: State)
  {
    && s.told <= s.added && s.server <= MaxOffset(s.told)
    && (forall i :: 0 <= i < |s.toClient| && s.toClient[i].Notify? ==> s.server <= s.toClient[i].offset < s.told)
    && (forall i, j :: 0 <= i < j < |s.toClient| && s.toClient[i].Notify? && s.toClient[j].Notify? ==>
                         s.toClient[i].offset <= s.toClient[j].offset)
  }

  /** No announcement is forgotten: what was announced has arrived, or is being asked for, or the
      announcement itself is still on its way. */
  ghost predicate Cover(s: State)
  {
    && (s.told > Have(s) ==> (s.syncing && s.server == s.told - 1) || Notify(s.told - 1) in s.toClient)
    && (s.syncing ==> s.told > 0 && (s.toServer != [] || AnswerComing(s.toClient)))
  }

  ghost predicate ToldInv(s: State)
  {
    Channel(s) && Cover(s)
  }

  lemma ReceiveInOrder(received: seq<nat>, n: nat, from: nat, upto: nat)
    requires InOrder(received, n) && (from == n || (from == 0 && n <= 1)) && n <= upto && 0 < upto
    ensures InOrder(received + Indices(from, upto), upto)
  {
    var r := received + Indices(from, upto);
    assert |r| == |received| + upto - from;
  }

  /** Taking the oldest message off the channel. */
  function Pop(s: State): State
    requires s.toClient != []
  {
    s.(toClient := s.toClient[1..])
  }

  lemma PopNotify(s: State)
    requires ClientInv(s) && s.toClient != [] && s.toClient[0].Notify?
    ensures ClientInv(Pop(s))
  {
    var u := Pop(s);
    assert forall i :: 0 <= i < |u.toClient| ==> u.toClient[i] == s.toClient[i + 1];
  }

  lemma PopAnswer(s: State)
    requires ClientInv(s) && s.toClient != [] && s.toClient[0].Answer?
    ensures forall i :: 0 <= i < |Pop(s).toClient| ==> Pop(s).toClient[i].Notify?
  {
    assert forall i :: 0 <= i < |Pop(s).toClient| ==> Pop(s).toClient[i] == s.toClient[i + 1];
  }

  lemma NotifyKeeps(s: State)
    requires ClientInv(s) && s.added > 0 && s.toClient != [] && s.toClient[0].Notify?
    ensures ClientInv(Next(s, Deliver))
  {
    PopNotify(s);
  }

  lemma AnswerKeeps(s: State)
    requires ClientInv(s) && s.toClient != [] && s.toClient[0].Answer?
    ensures ClientInv(Next(s, Deliver))
    ensures Have(Next(s, Deliver)) == s.toClient[0].upto
  {
    PopAnswer(s);
    ReceiveInOrder(s.received, Have(s), s.toClient[0].from, s.toClient[0].upto);
  }

  lemma ServeKeeps(s: State)
    requires ClientInv(s)
    ensures !Panics(s) && ClientInv(Next(s, Serve))
  {
    if s.toServer != [] {
      assert forall i :: 0 <= i < |s.toClient| ==> s.toClient[i].Notify?;
      assert NextFrom(s, From(s.start, s.local));
    }
  }

  lemma ClientStep(s: State, t: Step)
    requires ClientInv(s) && ToldInv(s)
    ensures !Panics(s) && ClientInv(Next(s, t))
  {
    ServeKeeps(s);
    match t {
      case Deliver =>
        if s.toClient != [] {
          if s.toClient[0].Notify? { NotifyKeeps(s); } else { AnswerKeeps(s); }
        }
      case Resend =>
        if s.toClient != [] && s.toClient[0].Answer? { PopAnswer(s); }
      case _ =>
    }
  }

  lemma ChannelNotify(s: State)
    requires Channel(s) && s.toClient != [] && s.toClient[0].Notify?
    ensures Channel(Next(s, Deliver))
  {
    var rest := s.toClient[1..];
    assert forall i :: 0 <= i < |rest| ==> rest[i] == s.toClient[i + 1];
  }

  lemma CoverNotify(s: State)
    requires ClientInv(s) && ToldInv(s) && s.toClient != [] && s.toClient[0].Notify?
    ensures Cover(Next(s, Deliver))
  {
    var rest, o := s.toClient[1..], s.toClient[0].offset;
    assert s.toClient == [s.toClient[0]] + rest;
    assert s.server <= o < s.told;
  }

  lemma ToldAnswer(s: State)
    requires ClientInv(s) && ToldInv(s) && s.toClient != [] && s.toClient[0].Answer?
    ensures ToldInv(Next(s, Deliver))
  {
    AnswerKeeps(s);
    PopAnswer(s);
    assert forall i :: 0 <= i < |s.toClient| - 1 ==> s.toClient[1..][i] == s.toClient[i + 1];
  }

  lemma ToldSend(s: State, o: nat)
    requires ToldInv(s)
    ensures ToldInv(Next(s, SendNotify(o)))
  {
    var u := Next(s, SendNotify(o));
    if u != s {
      assert u.toClient[|s.toClient|] == Notify(o);
    }
  }

  lemma ToldStep(s: State, t: Step)
    requires ClientInv(s) && ToldInv(s)
    ensures ToldInv(Next(s, t))
  {
    var u := Next(s, t);
    match t {
      case Deliver =>
        if s.toClient != [] {
          if s.toClient[0].Notify? { ChannelNotify(s); CoverNotify(s); } else { ToldAnswer(s); }
        }
      case Serve =>
        if u != s {
          assert u.toClient[|s.toClient|] == Answer(u.start, s.added);
        }
      case SendNotify(o) => ToldSend(s, o);
      case Resend =>
        if u != s {
          PopAnswer(s);
          assert forall i :: 0 <= i < |s.toClient| - 1 ==> s.toClient[1..][i] == s.toClient[i + 1];
        }
      case Add =>
    }
  }

  lemma {:induction false} RunInv(steps: seq<Step>)
    ensures ClientInv(Run(steps)) && ToldInv(Run(steps))
  {
    if |steps| > 0 {
      var n := |steps| - 1;
      RunInv(steps[..n]);
      ClientStep(Run(steps[..n]), steps[n]);
      ToldStep(Run(steps[..n]), steps[n]);
    }
  }

  /** The client always gets the events in order and without a gap, only event 0 can repeat, and no
      request makes the queue panic. */
  lemma NoGapNoPanic(steps: seq<Step>)
    ensures var s := Run(steps); InOrder(s.received, Have(s)) && Have(s) <= s.added && !Panics(s)
  {
    RunInv(steps);
    ServeKeeps(Run(steps));
  }

  /** Once no message is in flight, everything that was announced has been received. */
  lemma QuietMeansSynced(steps: seq<Step>)
    requires Run(steps).toClient == [] && Run(steps).toServer == []
    ensures var s := Run(steps); s.told <= Have(s) && !s.syncing
  {
    RunInv(steps);
  }
}
