/** The planner's state between button presses: the task list, the cached
    daily capacity and the last generated study plan, and the "generate
    plan" action that reads and updates it. */
module Planner {
  import opened Input
  import opened StudyTask
  import opened Allocation

  /** `dailyHours` is unset until the user gives an acceptable capacity. */
  datatype Planner = Planner(tasks: seq<Task>, dailyHours: Option<real>, schedule: seq<Entry>)

  /** The state at start-up: no tasks, no capacity, no plan. */
  const Initial: Planner := Planner([], None, [])

  /** A cached capacity is always positive. */
  predicate CapacityValid(p: Planner)
  {
    p.dailyHours.Some? ==> p.dailyHours.value > 0.0
  }

  /** The capacity to plan with, or none: the cache is then left unset. */
  datatype Capacity = Ready(hours: real) | Unset

  /** The daily-capacity rule: a cached value is used as it is, without asking;
      otherwise the user's reply is taken only if it is a number above zero. */
  function ResolveCapacity(cached: Option<real>, reply: Reply<real>): (c: Capacity)
    ensures cached.Some? ==> c == Ready(cached.value)
    ensures cached.None? ==> (c.Ready? <==> reply.Given? && reply.value > 0.0)
    ensures cached.None? && c.Ready? ==> c.hours == reply.value
  {
    match cached
    case Some(h) => Ready(h)
    case None =>
      match reply
      case Given(h) => if h <= 0.0 then Unset else Ready(h)
      case Dismissed => Unset
      case Unparsable => Unset
  }

  /** Whether pressing "generate plan" brings up the capacity prompt. */
  predicate AsksForCapacity(p: Planner)
  {
    |p.tasks| > 0 && p.dailyHours.None?
  }

  /** Pressing "generate plan" on `today`, with `reply` the answer the capacity
      prompt would get. With no tasks nothing changes; a missing or bad answer
      leaves the capacity unset and the old plan in place; otherwise the plan
      is rebuilt from the tasks alone. */
  function Generate(p: Planner, today: int, reply: Reply<real>): (r: Planner)
    ensures r.tasks == p.tasks
    ensures |p.tasks| == 0 ==> r == p
    ensures |p.tasks| > 0 && p.dailyHours.Some? ==>
      r == p.(schedule := Schedule(p.tasks, today, p.dailyHours.value))
    ensures AsksForCapacity(p) && !(reply.Given? && reply.value > 0.0) ==> r == p
    ensures AsksForCapacity(p) && reply.Given? && reply.value > 0.0 ==>
      r == Planner(p.tasks, Some(reply.value), Schedule(p.tasks, today, reply.value))
  {
    if |p.tasks| == 0 then p
    else
      match ResolveCapacity(p.dailyHours, reply)
      case Unset => p.(dailyHours := None)
      case Ready(h) => p.(dailyHours := Some(h), schedule := Schedule(p.tasks, today, h))
  }

  /** At start-up the cache is valid, and with no tasks "generate plan"
      changes nothing, whatever the prompt would be answered. */
  lemma InitialPlanner(today: int, reply: Reply<real>)
    ensures Initial.tasks == [] && Initial.dailyHours.None? && Initial.schedule == []
    ensures CapacityValid(Initial)
    ensures Generate(Initial, today, reply) == Initial
  {
  }

  /** The reply matters only when the prompt is shown. */
  lemma ReplyIgnoredWhenNotAsked(p: Planner, today: int, reply1: Reply<real>, reply2: Reply<real>)
    requires !AsksForCapacity(p)
    ensures Generate(p, today, reply1) == Generate(p, today, reply2)
  {
  }

  /** Generating never leaves a non-positive capacity in the cache. */
  lemma GenerateKeepsCapacityValid(p: Planner, today: int, reply: Reply<real>)
    requires CapacityValid(p)
    ensures CapacityValid(Generate(p, today, reply))
  {
  }

  /** Once a capacity has been accepted it is reused: later presses do not
      ask again and plan with the same capacity, on whatever day they happen. */
  lemma CapacityReused(p: Planner, today: int, reply: Reply<real>, later: int, reply2: Reply<real>)
    requires |p.tasks| > 0
    requires Generate(p, today, reply).dailyHours.Some?
    ensures !AsksForCapacity(Generate(p, today, reply))
    ensures var q := Generate(p, today, reply);
      Generate(q, later, reply2) == q.(schedule := Schedule(p.tasks, later, q.dailyHours.value))
  {
  }

  /** A rebuilt plan does not depend on the plan it replaces. */
  lemma PlanRebuiltFromScratch(p: Planner, old1: seq<Entry>, old2: seq<Entry>, today: int, reply: Reply<real>)
    requires |p.tasks| > 0
    requires Generate(p.(schedule := old1), today, reply).dailyHours.Some?
    ensures Generate(p.(schedule := old1), today, reply).schedule
         == Generate(p.(schedule := old2), today, reply).schedule
  {
  }
}
