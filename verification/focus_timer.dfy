/** The focus timer and the points it awards. The countdown runs in the
    background in the program; here it is a sequence of events: a tick with
    the whole seconds remaining, or the running flag found cleared. The end
    of the sequence is the moment the end time is reached. */
module FocusTimer {
  import opened Input

  /** `running` is the flag shared by the start button and the countdown. */
  datatype Focus = Focus(running: bool, points: int)

  /** The state at start-up. */
  const Idle: Focus := Focus(false, 0)

  /** The points a session that runs to its end earns. */
  const SessionPoints: int := 10

  /** Why a start request did not start a session. */
  datatype Refusal = AlreadyRunning | NoAnswer | InvalidMinutes

  /** The result of pressing "start focus": a countdown of `seconds` began in
      `state`, or nothing changed. */
  datatype Start = Started(state: Focus, seconds: int) | Refused(reason: Refusal)

  /** Pressing "start focus" with `reply` as the answer to the minutes prompt.
      A running session refuses the request before anything is asked; the
      minutes must be a whole number above zero. */
  function StartSession(f: Focus, reply: Reply<int>): (r: Start)
    ensures f.running ==> r == Refused(AlreadyRunning)
    ensures r.Started? <==> !f.running && reply.Given? && reply.value > 0
    ensures r.Started? ==> r.state == Focus(true, f.points) && r.seconds == 60 * reply.value
    ensures !f.running && reply.Dismissed? ==> r == Refused(NoAnswer)
    ensures !f.running && (reply.Unparsable? || (reply.Given? && reply.value <= 0)) ==>
      r == Refused(InvalidMinutes)
  {
    if f.running then Refused(AlreadyRunning)
    else
      match reply
      case Dismissed => Refused(NoAnswer)
      case Unparsable => Refused(InvalidMinutes)
      case Given(minutes) =>
        if minutes <= 0 then Refused(InvalidMinutes)
        else Started(f.(running := true), minutes * 60)
  }

  /** At start-up no session runs and no points are held, so a start is
      never refused as already running. */
  lemma IdleAtStartUp(reply: Reply<int>)
    ensures !Idle.running && Idle.points == 0
    ensures StartSession(Idle, reply) != Refused(AlreadyRunning)
  {
  }

  /** The minutes-and-seconds shown for `remaining` seconds, as floor division
      and remainder by 60 give them. */
  function Split(remaining: int): (ms: (int, int))
    ensures ms.0 * 60 + ms.1 == remaining
    ensures 0 <= ms.1 < 60
  {
    (remaining / 60, remaining % 60)
  }

  /** The split is the only pair with those two properties. */
  lemma SplitUnique(remaining: int, mins: int, secs: int)
    requires mins * 60 + secs == remaining && 0 <= secs < 60
    ensures Split(remaining) == (mins, secs)
  {
  }

  /** What the countdown observes once per loop pass. */
  datatype Event = Tick(remaining: int) | FlagCleared

  /** No event clears the flag. */
  predicate Uninterrupted(events: seq<Event>)
  {
    forall i :: 0 <= i < |events| ==> events[i].Tick?
  }

  /** The number of ticks before the flag is first found cleared. */
  function TicksBeforeClear(events: seq<Event>): (n: nat)
    ensures n <= |events|
    ensures forall i :: 0 <= i < n ==> events[i].Tick?
    ensures n < |events| ==> events[n].FlagCleared?
  {
    if |events| == 0 || events[0].FlagCleared? then 0 else 1 + TicksBeforeClear(events[1..])
  }

  /** The end of the countdown: the session earns its points only if the flag
      is still set, and the flag is cleared in either case. */
  function Finish(f: Focus): (r: Focus)
    ensures !r.running
    ensures f.running ==> r.points == f.points + SessionPoints
    ensures !f.running ==> r.points == f.points
  {
    if f.running then Focus(false, f.points + SessionPoints) else f.(running := false)
  }

  /** The countdown loop: while the flag is set and time is left, show the
      remaining time; then award the session if the flag is still set, and
      clear it. */
  method Countdown(f: Focus, events: seq<Event>) returns (final: Focus, shown: seq<(int, int)>)
    ensures !final.running
    ensures final.points == f.points + (if f.running && Uninterrupted(events) then SessionPoints else 0)
    ensures |shown| == (if f.running then TicksBeforeClear(events) else 0)
    ensures forall i :: 0 <= i < |shown| ==> events[i].Tick? && shown[i] == Split(events[i].remaining)
  {
    var state := f;
    var i := 0;
    shown := [];
    while state.running && i < |events|
      invariant 0 <= i <= |events|
      invariant state.points == f.points
      invariant state.running <==> f.running && forall j :: 0 <= j < i ==> events[j].Tick?
      invariant f.running ==> i <= TicksBeforeClear(events) + 1
      invariant |shown| == (if f.running then (if state.running then i else i - 1) else 0)
      invariant forall j :: 0 <= j < |shown| ==> events[j].Tick? && shown[j] == Split(events[j].remaining)
      decreases |events| - i
    {
      match events[i] {
        case Tick(remaining) =>
          shown := shown + [Split(remaining)];
        case FlagCleared =>
          state := state.(running := false);
      }
      i := i + 1;
    }
    final := Finish(state);
  }

  /** One press of "start focus" followed by its countdown. A refused request
      (a session already running, or no acceptable minutes) changes nothing;
      an accepted one runs a countdown of `60 * minutes` seconds that earns
      exactly `SessionPoints` unless the flag is cleared on the way, and
      leaves the flag clear. */
  method FocusSession(f: Focus, reply: Reply<int>, events: seq<Event>) returns (final: Focus, seconds: int)
    ensures (f.running || !(reply.Given? && reply.value > 0)) ==> final == f && seconds == 0
    ensures !f.running ==> !final.running
    ensures !f.running && reply.Given? && reply.value > 0 ==>
      seconds == 60 * reply.value &&
      final.points == f.points + (if Uninterrupted(events) then SessionPoints else 0)
  {
    var start := StartSession(f, reply);
    match start
    case Refused(_) =>
      final, seconds := f, 0;
    case Started(running, s) =>
      seconds := s;
      var shown;
      final, shown := Countdown(running, events);
  }

  /** Points are never lost: every step keeps or raises the total. */
  lemma PointsNeverDecrease(f: Focus)
    ensures Finish(f).points >= f.points
    ensures forall reply :: StartSession(f, reply).Started? ==> StartSession(f, reply).state.points == f.points
  {
  }
}
