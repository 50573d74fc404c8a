/** The task record of the study planner. */
module StudyTask {

  /** A study task. `due` is the due date as a day number; `completed` is the
      number of hours already done, zero for a freshly entered task. */
  datatype Task = Task(name: string, hours: real, due: int, completed: real)

  /** A task as the entry form creates it: nothing completed yet. */
  function NewTask(name: string, hours: real, due: int): Task
  {
    Task(name, hours, due, 0.0)
  }

  /** The hours of work still to do: the outstanding difference, never below zero.
      The result is the maximum of the difference and zero. */
  function Remaining(t: Task): (r: real)
    ensures r >= 0.0 && r >= t.hours - t.completed
    ensures r == 0.0 || r == t.hours - t.completed
    ensures t.hours - t.completed >= 0.0 ==> r == t.hours - t.completed
  {
    if 0.0 > t.hours - t.completed then 0.0 else t.hours - t.completed
  }

  /** A new task still needs all its estimated hours, or none if the estimate is negative. */
  lemma NewTaskRemaining(name: string, hours: real, due: int)
    ensures hours >= 0.0 ==> Remaining(NewTask(name, hours, due)) == hours
    ensures hours < 0.0 ==> Remaining(NewTask(name, hours, due)) == 0.0
  {
  }
}
