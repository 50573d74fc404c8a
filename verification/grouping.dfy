/** Grouping the study plan by date for display: one block per date, blocks
    in ascending date order, and inside a block the entries in the order the
    scheduler emitted them. */
module Grouping {
  import opened Allocation

  /** The display block of one date. */
  datatype Group = Group(date: int, items: seq<Entry>)

  /** The entries of `es` dated `k`, in their order in `es`. */
  function OnDate(es: seq<Entry>, k: int): seq<Entry>
  {
    if |es| == 0 then []
    else OnDate(es[..|es| - 1], k) + (if es[|es| - 1].date == k then [es[|es| - 1]] else [])
  }

  /** Picking out one date distributes over concatenation. */
  lemma {:induction false} OnDateAppend(a: seq<Entry>, b: seq<Entry>, k: int)
    ensures OnDate(a + b, k) == OnDate(a, k) + OnDate(b, k)
    decreases |b|
  {
    if |b| == 0 {
      assert a + b == a;
    } else {
      assert (a + b)[..|a + b| - 1] == a + b[..|b| - 1];
      assert (a + b)[|a + b| - 1] == b[|b| - 1];
      OnDateAppend(a, b[..|b| - 1], k);
    }
  }

  /** Every entry shows up under its own date. */
  lemma {:induction false} OnDateHolds(es: seq<Entry>, i: int)
    requires 0 <= i < |es|
    ensures es[i] in OnDate(es, es[i].date)
    decreases |es|
  {
    if i < |es| - 1 {
      OnDateHolds(es[..|es| - 1], i);
    }
  }

  /** The date buckets: each date that occurs maps to its entries, appended in
      emission order as they are met. */
  function Bucket(es: seq<Entry>): (m: map<int, seq<Entry>>)
    ensures forall k :: k in m <==> OnDate(es, k) != []
    ensures forall k :: k in m ==> m[k] == OnDate(es, k)
  {
    if |es| == 0 then map[]
    else
      var m := Bucket(es[..|es| - 1]);
      var e := es[|es| - 1];
      m[e.date := (if e.date in m then m[e.date] else []) + [e]]
  }

  /** Strictly increasing. */
  predicate Ascending(ks: seq<int>)
  {
    forall i, j :: 0 <= i < j < |ks| ==> ks[i] < ks[j]
  }

  /** `k` added to the ascending `ks`, unless it is already there. */
  function InsertKey(k: int, ks: seq<int>): (r: seq<int>)
    requires Ascending(ks)
    ensures Ascending(r)
    ensures forall x :: x in r <==> x in ks || x == k
  {
    if |ks| == 0 || k < ks[0] then
      AscendingCons(k, ks);
      [k] + ks
    else if k == ks[0] then ks
    else
      var rest := InsertKey(k, ks[1..]);
      AscendingTail(ks);
      assert rest[0] in rest;
      AscendingCons(ks[0], rest);
      [ks[0]] + rest
  }

  /** Splitting an ascending sequence into its head and tail. */
  lemma AscendingTail(ks: seq<int>)
    requires Ascending(ks) && |ks| > 0
    ensures forall x :: x in ks <==> x == ks[0] || x in ks[1..]
    ensures forall x :: x in ks[1..] ==> ks[0] < x
  {
    assert ks == [ks[0]] + ks[1..];
    forall x | x in ks[1..] ensures ks[0] < x {
      var j :| 0 <= j < |ks[1..]| && ks[1..][j] == x;
      assert ks[j + 1] == x;
    }
  }

  /** A key below every key of an ascending sequence can go in front. */
  lemma AscendingCons(k: int, ks: seq<int>)
    requires Ascending(ks)
    requires |ks| == 0 || k < ks[0]
    ensures Ascending([k] + ks)
  {
    var r := [k] + ks;
    forall i, j | 0 <= i < j < |r| ensures r[i] < r[j] {
      assert r[j] == ks[j - 1] && r[j] in ks;
      if i > 0 {
        assert r[i] == ks[i - 1];
      }
    }
  }

  /** The dates of `es` in ascending order, each once: the keys of `Bucket(es)` sorted. */
  function DateKeys(es: seq<Entry>): (r: seq<int>)
    ensures Ascending(r)
    ensures forall k :: k in r <==> OnDate(es, k) != []
  {
    if |es| == 0 then [] else InsertKey(es[|es| - 1].date, DateKeys(es[..|es| - 1]))
  }

  /** The grouped plan: the date keys in ascending order, each with its bucket. */
  function GroupByDate(es: seq<Entry>): (r: seq<Group>)
    ensures GroupedByDate(es, r)
  {
    var m := Bucket(es);
    var ks := DateKeys(es);
    KeysInBucket(es);
    var r := Blocks(ks, m);
    GroupsOfKeys(es, ks, r);
    r
  }

  /** Every sorted key has a bucket. */
  lemma KeysInBucket(es: seq<Entry>)
    ensures forall i :: 0 <= i < |DateKeys(es)| ==> DateKeys(es)[i] in Bucket(es)
  {
    var ks := DateKeys(es);
    forall i | 0 <= i < |ks| ensures ks[i] in Bucket(es) {
      assert ks[i] in ks;
    }
  }

  /** One block per key of `ks`, in that order, holding the key's bucket. */
  function Blocks(ks: seq<int>, m: map<int, seq<Entry>>): (r: seq<Group>)
    requires forall i :: 0 <= i < |ks| ==> ks[i] in m
    ensures |r| == |ks|
    ensures forall i :: 0 <= i < |ks| ==> r[i] == Group(ks[i], m[ks[i]])
  {
    if |ks| == 0 then []
    else
      assert forall i :: 0 <= i < |ks[1..]| ==> ks[1..][i] == ks[i + 1];
      [Group(ks[0], m[ks[0]])] + Blocks(ks[1..], m)
  }

  /** `gs` shows `es` grouped by date: blocks in strictly ascending date
      order, each block non-empty and holding the entries of its date in
      their order in `es`, a block for the date of every entry, and every
      entry in exactly one block. */
  predicate GroupedByDate(es: seq<Entry>, gs: seq<Group>)
  {
    && (forall i, j :: 0 <= i < j < |gs| ==> gs[i].date < gs[j].date)
    && (forall i :: 0 <= i < |gs| ==> gs[i].items == OnDate(es, gs[i].date) && gs[i].items != [])
    && (forall e :: e in es ==> exists i :: 0 <= i < |gs| && gs[i].date == e.date)
    && multiset(Flatten(gs)) == multiset(es)
  }

  /** The blocks built from the sorted keys and the buckets group `es` by date. */
  lemma GroupsOfKeys(es: seq<Entry>, ks: seq<int>, gs: seq<Group>)
    requires ks == DateKeys(es) && |gs| == |ks|
    requires forall i :: 0 <= i < |ks| ==> ks[i] in Bucket(es) && gs[i] == Group(ks[i], Bucket(es)[ks[i]])
    ensures GroupedByDate(es, gs)
  {
    GroupsFlatten(es, ks, gs);
    EveryDateHasBlock(es, ks, gs);
  }

  /** The blocks of the sorted keys cover the date of every entry. */
  lemma EveryDateHasBlock(es: seq<Entry>, ks: seq<int>, gs: seq<Group>)
    requires ks == DateKeys(es) && |gs| == |ks|
    requires forall i :: 0 <= i < |ks| ==> gs[i].date == ks[i]
    ensures forall e :: e in es ==> exists i :: 0 <= i < |gs| && gs[i].date == e.date
  {
    forall e | e in es ensures exists i :: 0 <= i < |gs| && gs[i].date == e.date {
      var j :| 0 <= j < |es| && es[j] == e;
      OnDateHolds(es, j);
      assert e.date in ks;
      var i :| 0 <= i < |ks| && ks[i] == e.date;
      assert gs[i].date == e.date;
    }
  }

  /** All the entries of the groups, block after block. */
  function Flatten(gs: seq<Group>): seq<Entry>
  {
    if |gs| == 0 then [] else gs[0].items + Flatten(gs[1..])
  }

  /** The entries of `es` whose date is in `s`, in their order in `es`. */
  function Within(es: seq<Entry>, s: set<int>): seq<Entry>
  {
    if |es| == 0 then []
    else Within(es[..|es| - 1], s) + (if es[|es| - 1].date in s then [es[|es| - 1]] else [])
  }

  /** Adding one date `k` to the selected dates adds exactly the entries of `k`. */
  lemma {:induction false} WithinSplit(es: seq<Entry>, k: int, s: set<int>)
    requires k !in s
    ensures multiset(Within(es, s + {k})) == multiset(OnDate(es, k)) + multiset(Within(es, s))
    decreases |es|
  {
    if |es| > 0 {
      var prefix, e := es[..|es| - 1], es[|es| - 1];
      WithinSplit(prefix, k, s);
      assert Within(es, s + {k}) == Within(prefix, s + {k}) + (if e.date in s + {k} then [e] else []);
      assert OnDate(es, k) == OnDate(prefix, k) + (if e.date == k then [e] else []);
      assert Within(es, s) == Within(prefix, s) + (if e.date in s then [e] else []);
    }
  }

  /** Selecting all the dates that occur keeps every entry. */
  lemma {:induction false} WithinEverything(es: seq<Entry>, s: set<int>)
    requires forall i :: 0 <= i < |es| ==> es[i].date in s
    ensures Within(es, s) == es
    decreases |es|
  {
    if |es| > 0 {
      WithinEverything(es[..|es| - 1], s);
      assert es[..|es| - 1] + [es[|es| - 1]] == es;
    }
  }

  /** Flattening the groups of the ascending dates `ks` yields, up to order,
      exactly the entries dated in `ks`. */
  lemma {:induction false} FlattenWithin(es: seq<Entry>, ks: seq<int>, gs: seq<Group>)
    requires Ascending(ks) && |gs| == |ks|
    requires forall i :: 0 <= i < |ks| ==> gs[i] == Group(ks[i], OnDate(es, ks[i]))
    ensures multiset(Flatten(gs)) == multiset(Within(es, set x | x in ks))
    decreases |ks|
  {
    if |ks| == 0 {
      assert (set x | x in ks) == {};
      WithinEverythingEmpty(es);
    } else {
      FlattenWithin(es, ks[1..], gs[1..]);
      var rest := set x | x in ks[1..];
      assert (set x | x in ks) == rest + {ks[0]};
      assert ks[0] !in rest;
      WithinSplit(es, ks[0], rest);
    }
  }

  /** Selecting no date keeps nothing. */
  lemma {:induction false} WithinEverythingEmpty(es: seq<Entry>)
    ensures Within(es, {}) == []
    decreases |es|
  {
    if |es| > 0 {
      WithinEverythingEmpty(es[..|es| - 1]);
    }
  }

  /** The blocks of the sorted keys hold every entry exactly once. */
  lemma GroupsFlatten(es: seq<Entry>, ks: seq<int>, gs: seq<Group>)
    requires ks == DateKeys(es) && |gs| == |ks|
    requires forall i :: 0 <= i < |ks| ==> gs[i] == Group(ks[i], Bucket(es)[ks[i]])
    ensures multiset(Flatten(gs)) == multiset(es)
  {
    FlattenWithin(es, ks, gs);
    forall i | 0 <= i < |es| ensures es[i].date in (set x | x in ks) {
      OnDateHolds(es, i);
    }
    WithinEverything(es, set x | x in ks);
  }
}
