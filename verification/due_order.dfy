/** Ordering tasks by due date the way a stable sort keyed on the due date does. */
module DueOrder {
  import opened StudyTask

  /** Due dates never decrease along `s`. */
  predicate SortedByDue(s: seq<Task>)
  {
    forall i, j :: 0 <= i < j < |s| ==> s[i].due <= s[j].due
  }

  /** The tasks of `s` that are due on day `k`, in their order in `s`. */
  function DueOn(s: seq<Task>, k: int): seq<Task>
  {
    if |s| == 0 then [] else (if s[0].due == k then [s[0]] else []) + DueOn(s[1..], k)
  }

  /** Every task picked out by `DueOn` is a task of `s` due on that day. */
  lemma {:induction false} DueOnMembers(s: seq<Task>, k: int, x: Task)
    requires x in DueOn(s, k)
    ensures x in s && x.due == k
  {
    if |s| > 0 && x !in DueOn(s[1..], k) {
      assert x == s[0];
    } else if |s| > 0 {
      DueOnMembers(s[1..], k, x);
    }
  }

  /** Filtering a sequence that starts with `x`. */
  lemma DueOnCons(x: Task, s: seq<Task>, k: int)
    ensures DueOn([x] + s, k) == (if x.due == k then [x] else []) + DueOn(s, k)
  {
    assert ([x] + s)[1..] == s;
  }

  /** `t` placed in front of the first task of the sorted `s` that is due no
      earlier than `t`. */
  function Insert(t: Task, s: seq<Task>): (r: seq<Task>)
    requires SortedByDue(s)
    ensures SortedByDue(r)
    ensures multiset(r) == multiset(s) + multiset{t}
    ensures forall k :: DueOn(r, k) == (if t.due == k then [t] else []) + DueOn(s, k)
  {
    if |s| == 0 || t.due <= s[0].due then
      assert forall k :: DueOn([t] + s, k) == (if t.due == k then [t] else []) + DueOn(s, k) by {
        forall k ensures DueOn([t] + s, k) == (if t.due == k then [t] else []) + DueOn(s, k) {
          DueOnCons(t, s, k);
        }
      }
      [t] + s
    else
      var rest := Insert(t, s[1..]);
      InsertStep(t, s, rest);
      [s[0]] + rest
  }

  /** The recursive case of `Insert`: `t` goes behind the first task of `s`. */
  lemma InsertStep(t: Task, s: seq<Task>, rest: seq<Task>)
    requires |s| > 0 && SortedByDue(s) && s[0].due < t.due
    requires SortedByDue(rest)
    requires multiset(rest) == multiset(s[1..]) + multiset{t}
    requires forall k :: DueOn(rest, k) == (if t.due == k then [t] else []) + DueOn(s[1..], k)
    ensures SortedByDue([s[0]] + rest)
    ensures multiset([s[0]] + rest) == multiset(s) + multiset{t}
    ensures forall k :: DueOn([s[0]] + rest, k) == (if t.due == k then [t] else []) + DueOn(s, k)
  {
    assert s == [s[0]] + s[1..];
    InsertStepSorted(t, s, rest);
    forall k ensures DueOn([s[0]] + rest, k) == (if t.due == k then [t] else []) + DueOn(s, k) {
      InsertStepDueOn(t, s, rest, k);
    }
  }

  /** The recursive case keeps the order: the first task of `s` is due before every task of `rest`. */
  lemma InsertStepSorted(t: Task, s: seq<Task>, rest: seq<Task>)
    requires |s| > 0 && SortedByDue(s) && s[0].due < t.due
    requires SortedByDue(rest)
    requires multiset(rest) == multiset(s[1..]) + multiset{t}
    ensures SortedByDue([s[0]] + rest)
  {
    forall x | x in rest ensures s[0].due <= x.due {
      assert x in multiset(rest);
      if x != t {
        assert x in multiset(s[1..]);
        assert x in s[1..];
      }
    }
    var r := [s[0]] + rest;
    forall i, j | 0 <= i < j < |r| ensures r[i].due <= r[j].due {
      if i == 0 {
        assert r[j] == rest[j - 1];
        assert r[j] in rest;
      } else {
        assert r[i] == rest[i - 1] && r[j] == rest[j - 1];
      }
    }
  }

  /** The recursive case keeps the per-day subsequences, for one day `k`. */
  lemma InsertStepDueOn(t: Task, s: seq<Task>, rest: seq<Task>, k: int)
    requires |s| > 0 && s[0].due < t.due
    requires DueOn(rest, k) == (if t.due == k then [t] else []) + DueOn(s[1..], k)
    ensures DueOn([s[0]] + rest, k) == (if t.due == k then [t] else []) + DueOn(s, k)
  {
    DueOnCons(s[0], rest, k);
    DueOnCons(s[0], s[1..], k);
    assert [s[0]] + s[1..] == s;
  }

  /** The tasks ordered by due date; tasks due on the same day keep their order. */
  function SortByDue(s: seq<Task>): (r: seq<Task>)
    ensures SortedByDue(r)
    ensures multiset(r) == multiset(s)
    ensures forall k :: DueOn(r, k) == DueOn(s, k)
  {
    if |s| == 0 then []
    else
      assert s == [s[0]] + s[1..];
      Insert(s[0], SortByDue(s[1..]))
  }

  /** A sorted sequence is determined by its per-day subsequences: two sorted
      sequences that list the same tasks, in the same order, for every due day
      are equal. */
  lemma {:induction false} SortedUnique(a: seq<Task>, b: seq<Task>)
    requires SortedByDue(a) && SortedByDue(b)
    requires forall k :: DueOn(a, k) == DueOn(b, k)
    ensures a == b
  {
    if |a| == 0 {
      NoFiltersNoTasks(b);
    } else if |b| == 0 {
      NoFiltersNoTasks(a);
    } else {
      var m := a[0].due;
      assert a[0] in DueOn(a, m);
      DueOnMembers(b, m, a[0]);
      assert b[0].due <= m;
      assert b[0] in DueOn(b, b[0].due);
      DueOnMembers(a, b[0].due, b[0]);
      assert m <= b[0].due;
      assert DueOn(a, m) == [a[0]] + DueOn(a[1..], m);
      assert DueOn(b, m) == [b[0]] + DueOn(b[1..], m);
      assert a[0] == DueOn(a, m)[0] == DueOn(b, m)[0] == b[0];
      forall k ensures DueOn(a[1..], k) == DueOn(b[1..], k) {
        TailsAgree(a, b, k);
      }
      SortedUnique(a[1..], b[1..]);
      assert a == [a[0]] + a[1..];
      assert b == [b[0]] + b[1..];
    }
  }

  /** A sequence in which no day has a due task is empty. */
  lemma NoFiltersNoTasks(s: seq<Task>)
    requires forall k :: DueOn(s, k) == []
    ensures s == []
  {
    if |s| > 0 {
      var k := s[0].due;
      assert DueOn(s, k) == [s[0]] + DueOn(s[1..], k);
    }
  }

  /** Sequences with the same head and the same tasks due on `k` agree on `k` after the head. */
  lemma TailsAgree(a: seq<Task>, b: seq<Task>, k: int)
    requires |a| > 0 && |b| > 0 && a[0] == b[0]
    requires DueOn(a, k) == DueOn(b, k)
    ensures DueOn(a[1..], k) == DueOn(b[1..], k)
  {
    var x, y := DueOn(a[1..], k), DueOn(b[1..], k);
    var head := if a[0].due == k then [a[0]] else [];
    assert DueOn(a, k) == head + x;
    assert DueOn(b, k) == head + y;
    assert (head + x)[|head|..] == x;
    assert (head + y)[|head|..] == y;
  }

  /** `SortByDue` is the stable sort keyed on the due date: any sequence that is
      sorted by due date and keeps the input order among tasks due on the same
      day is exactly `SortByDue(s)`. */
  lemma StableSortIsSortByDue(s: seq<Task>, r: seq<Task>)
    requires SortedByDue(r)
    requires forall k :: DueOn(r, k) == DueOn(s, k)
    ensures r == SortByDue(s)
  {
    SortedUnique(r, SortByDue(s));
  }
}
