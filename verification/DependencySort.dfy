/** DependencySort: the order in which plugin handlers are started, by Kahn's algorithm over two maps that are kept
    separately: each handler's dependencies, and each name's dependents. */
module DependencySort {
  import opened ByteStrings

  type Names = seq<Bytes>

  predicate Distinct<T(==)>(s: seq<T>) {
    forall i, j :: 0 <= i < j < |s| ==> s[i] != s[j]
  }

  // ---- the iteration order of std::map

  predicate Ascending(s: Names) {
    forall i, j :: 0 <= i < j < |s| ==> BytesLess(s[i], s[j])
  }

  predicate IsLeast(m: Bytes, s: set<Bytes>) {
    m in s && forall k :: k in s && k != m ==> BytesLess(m, k)
  }

  lemma {:induction false} LeastExists(s: set<Bytes>)
    requires s != {}
    ensures exists m :: IsLeast(m, s)
    ensures forall m, n :: IsLeast(m, s) && IsLeast(n, s) ==> m == n
    decreases |s|
  {
    var x :| x in s;
    var rest := s - {x};
    if rest == {} {
      assert s == {x};
      assert IsLeast(x, s);
    } else {
      LeastExists(rest);
      var y :| IsLeast(y, rest);
      BytesLessTrichotomy(x, y);
      if BytesLess(x, y) {
        forall k | k in s && k != x
          ensures BytesLess(x, k)
        {
          if k != y { BytesLessTransitive(x, y, k); }
        }
        assert IsLeast(x, s);
      } else {
        assert IsLeast(y, s);
      }
    }
    forall m, n | IsLeast(m, s) && IsLeast(n, s)
      ensures m == n
    {
      BytesLessTrichotomy(m, n);
    }
  }

  /** The keys of a std::map in the order a range-based for loop visits them. */
  function SortedKeys(s: set<Bytes>): (r: Names)
    ensures Ascending(r)
    ensures forall k :: k in r <==> k in s
  {
    if s == {} then []
    else
      LeastExists(s);
      var m :| IsLeast(m, s);
      [m] + SortedKeys(s - {m})
  }

  lemma AscendingIsDistinct(s: Names)
    requires Ascending(s)
    ensures Distinct(s)
  {
    forall i, j | 0 <= i < j < |s|
      ensures s[i] != s[j]
    {
      BytesLessTrichotomy(s[i], s[j]);
    }
  }

  // ---- the sort as a function of the two maps

  /** What operator[] finds in the map of dependents. */
  function Dependents(dMap: map<Bytes, Names>, u: Bytes): Names {
    if u in dMap then dMap[u] else []
  }

  function Count(counts: map<Bytes, int>, h: Bytes): int {
    if h in counts then counts[h] else 0
  }

  /** How many dependencies each handler still waits for, and the handlers that wait for none. */
  datatype Tally = Tally(counts: map<Bytes, int>, queue: Names)

  function Positive(counts: map<Bytes, int>): set<Bytes> {
    set h | h in counts && counts[h] > 0
  }

  function Decrement(t: Tally, h: Bytes): (r: Tally)
    ensures |Positive(r.counts)| + |r.queue| <= |Positive(t.counts)| + |t.queue|
  {
    var n := Count(t.counts, h) - 1;
    var counts := t.counts[h := n];
    assert Positive(counts) == if n > 0 then Positive(t.counts) else Positive(t.counts) - {h};
    Tally(counts, if n == 0 then t.queue + [h] else t.queue)
  }

  function Notify(t: Tally, dependents: Names): (r: Tally)
    ensures |Positive(r.counts)| + |r.queue| <= |Positive(t.counts)| + |t.queue|
    decreases |dependents|
  {
    if dependents == [] then t else Notify(Decrement(t, dependents[0]), dependents[1..])
  }

  /** The main loop.  It ends for any maps at all: a handler enters the queue only as its count falls to zero. */
  function Drain(dMap: map<Bytes, Names>, t: Tally, order: Names): Names
    decreases |Positive(t.counts)| + |t.queue|
  {
    if t.queue == [] then order
    else
      var u := t.queue[0];
      Drain(dMap, Notify(Tally(t.counts, t.queue[1..]), Dependents(dMap, u)), order + [u])
  }

  function Degrees(deps: map<Bytes, Names>): map<Bytes, int> {
    map h | h in deps :: |deps[h]|
  }

  function Independent(deps: map<Bytes, Names>, keys: Names): (r: Names)
    ensures forall h :: h in r <==> h in keys && h in deps && deps[h] == []
  {
    if keys == [] then []
    else
      var rest := Independent(deps, keys[1..]);
      if keys[0] in deps && deps[keys[0]] == [] then [keys[0]] + rest else rest
  }

  function Start(deps: map<Bytes, Names>): Tally {
    Tally(Degrees(deps), Independent(deps, SortedKeys(deps.Keys)))
  }

  /** SortDependency; None stands for the exception. */
  function Sort(deps: map<Bytes, Names>, dMap: map<Bytes, Names>): Option<Names> {
    var order := Drain(dMap, Start(deps), []);
    if |order| == |deps| then Some(order) else None
  }

  // ---- what it means for an order to respect the dependencies

  /** Every registered handler once, each after everything it depends on. */
  ghost predicate IsOrder(deps: map<Bytes, Names>, order: Names) {
    && Distinct(order)
    && (forall h :: h in order <==> h in deps)
    && Respects(deps, order)
  }

  ghost predicate Respects(deps: map<Bytes, Names>, order: Names) {
    forall i, d :: 0 <= i < |order| && order[i] in deps && d in deps[order[i]] ==> d in order[..i]
  }

  /** The reverse map lists each handler under each name as often as the forward map lists the name for it. */
  ghost predicate Consistent(deps: map<Bytes, Names>, dMap: map<Bytes, Names>) {
    forall u, h :: Edges(dMap, u, h) == Needs(deps, h, u)
  }

  function Edges(dMap: map<Bytes, Names>, u: Bytes, h: Bytes): nat {
    multiset(Dependents(dMap, u))[h]
  }

  function Needs(deps: map<Bytes, Names>, h: Bytes, u: Bytes): nat {
    if h in deps then multiset(deps[h])[u] else 0
  }

  /** How many entries of a dependency list have not been dequeued. */
  function Waiting(ds: Names, done: Names): nat {
    if ds == [] then 0 else (if ds[0] in done then 0 else 1) + Waiting(ds[1..], done)
  }

  lemma {:induction false} WaitingForNone(ds: Names, done: Names)
    ensures Waiting(ds, done) == 0 <==> forall d :: d in ds ==> d in done
  {
    if ds != [] {
      WaitingForNone(ds[1..], done);
      assert forall d :: d in ds <==> d == ds[0] || d in ds[1..];
    }
  }

  lemma {:induction false} WaitingFalls(ds: Names, done: Names, u: Bytes)
    requires u !in done
    ensures Waiting(ds, done + [u]) == Waiting(ds, done) - multiset(ds)[u]
  {
    if ds != [] {
      WaitingFalls(ds[1..], done, u);
      assert ds == [ds[0]] + ds[1..];
      assert multiset(ds) == multiset{ds[0]} + multiset(ds[1..]);
    }
  }

  lemma {:induction false} NothingDoneYet(ds: Names)
    ensures Waiting(ds, []) == |ds|
  {
    if ds != [] { NothingDoneYet(ds[1..]); }
  }

  lemma {:induction false} WaitingInParts(a: Names, b: Names, done: Names)
    ensures Waiting(a + b, done) == Waiting(a, done) + Waiting(b, done)
    ensures Waiting(a, done) <= |a|
  {
    if a == [] {
      assert a + b == b;
    } else {
      assert (a + b)[1..] == a[1..] + b;
      WaitingInParts(a[1..], b, done);
    }
  }

  lemma {:induction false} WaitingForFewer(ds: Names, done: Names, x: Bytes)
    requires x in ds && x in done
    ensures Waiting(ds, done) < |ds|
  {
    if ds[0] != x {
      WaitingForFewer(ds[1..], done, x);
    } else {
      WaitingInParts(ds[1..], [], done);
    }
  }

  /** While neither `x` nor `h` is dequeued, what is dequeued is among the other entries. */
  lemma {:induction false} DequeuedAmongOthers(ds: Names, done: Names, x: Bytes, h: Bytes)
    requires x !in done && h !in done
    ensures |ds| - Waiting(ds, done) <= Waiting(ds, [x, h])
  {
    if ds != [] { DequeuedAmongOthers(ds[1..], done, x, h); }
  }

  // ---- handlers that were registered more than once

  /** `listed` holds, for each handler, all the entries of all its registrations; the last one is the one in force. */
  ghost predicate Covers(deps: map<Bytes, Names>, listed: map<Bytes, Names>) {
    deps.Keys == listed.Keys && forall h :: h in deps ==> EndsWith(listed[h], deps[h])
  }

  predicate EndsWith(all: Names, ds: Names) {
    |ds| <= |all| && all[|all| - |ds|..] == ds
  }

  /** A handler with the list `ds`, to which the entries `all` of all its registrations still point, cannot reach zero
      while one of its dependencies, or the handler itself, is missing: the other entries are too few. */
  ghost predicate Patient(ds: Names, all: Names, h: Bytes) {
    forall x :: x in ds ==> Waiting(all, [x, h]) < |ds|
  }

  ghost predicate AllPatient(deps: map<Bytes, Names>, listed: map<Bytes, Names>)
    requires Covers(deps, listed)
  {
    forall h :: h in deps ==> Patient(deps[h], listed[h], h)
  }

  /** Handlers registered once are patient. */
  lemma OwnListsArePatient(deps: map<Bytes, Names>)
    ensures Covers(deps, deps) && AllPatient(deps, deps)
  {
    forall h, x | h in deps && x in deps[h]
      ensures Waiting(deps[h], [x, h]) < |deps[h]|
    {
      WaitingForFewer(deps[h], [x, h], x);
    }
  }

  /** What is left of a handler's count: the length of its list, less the entries of all its registrations that were
      dequeued.  For a handler registered once, these are the entries still waited for. */
  function Left(deps: map<Bytes, Names>, listed: map<Bytes, Names>, done: Names, h: Bytes): (n: int)
    requires h in deps && h in listed
    ensures deps[h] == listed[h] ==> n == Waiting(deps[h], done)
  {
    |deps[h]| - (|listed[h]| - Waiting(listed[h], done))
  }

  /** The invariant of the main loop. */
  ghost predicate Kept(deps: map<Bytes, Names>, listed: map<Bytes, Names>, t: Tally, done: Names)
    requires Covers(deps, listed)
  {
    && (forall h :: h in deps ==> Count(t.counts, h) == Left(deps, listed, done, h))
    && (forall h :: h in done + t.queue <==> h in deps && Left(deps, listed, done, h) <= 0)
    && Distinct(done + t.queue)
  }

  lemma {:induction false} IndependentIsDistinct(deps: map<Bytes, Names>, keys: Names)
    requires Distinct(keys)
    ensures Distinct(Independent(deps, keys))
  {
    if keys != [] { IndependentIsDistinct(deps, keys[1..]); }
  }

  lemma StartKeeps(deps: map<Bytes, Names>, listed: map<Bytes, Names>)
    requires Covers(deps, listed)
    ensures Kept(deps, listed, Start(deps), [])
  {
    var keys := SortedKeys(deps.Keys);
    AscendingIsDistinct(keys);
    IndependentIsDistinct(deps, keys);
    assert [] + Start(deps).queue == Start(deps).queue;
    forall h | h in deps
      ensures Left(deps, listed, [], h) == |deps[h]|
    {
      NothingDoneYet(listed[h]);
    }
  }

  /** What entering the queue of `r` from the tally `t` means. */
  ghost predicate Pushes(t: Tally, r: Tally) {
    && t.queue <= r.queue
    && Distinct(r.queue[|t.queue|..])
    && forall h :: h in r.queue[|t.queue|..] <==> Count(t.counts, h) > 0 && Count(r.counts, h) <= 0
  }

  lemma PushesCompose(t: Tally, m: Tally, r: Tally)
    requires Pushes(t, m) && Pushes(m, r)
    requires forall h :: Count(t.counts, h) >= Count(m.counts, h) >= Count(r.counts, h)
    ensures Pushes(t, r)
  {
    var first, second := m.queue[|t.queue|..], r.queue[|m.queue|..];
    assert r.queue[|t.queue|..] == first + second;
    JoinIsDistinct(first, second);
  }

  lemma CountPerHead(ds: Names, h: Bytes)
    requires ds != []
    ensures multiset(ds)[h] == (if h == ds[0] then 1 else 0) + multiset(ds[1..])[h]
  {
    assert ds == [ds[0]] + ds[1..];
  }

  /** Notifying the dependents lowers each count by its number of entries, and enqueues once each handler whose count
      this takes to zero or past it. */
  lemma {:induction false} NotifyEffect(t: Tally, ds: Names)
    ensures forall h :: Count(Notify(t, ds).counts, h) == Count(t.counts, h) - multiset(ds)[h]
    ensures Pushes(t, Notify(t, ds))
    decreases |ds|
  {
    if ds != [] {
      var d := Decrement(t, ds[0]);
      NotifyEffect(d, ds[1..]);
      forall h
        ensures Count(Notify(t, ds).counts, h) == Count(t.counts, h) - multiset(ds)[h]
      {
        CountPerHead(ds, h);
      }
      assert Pushes(t, d);
      PushesCompose(t, d, Notify(t, ds));
    }
  }

  lemma EdgesOf(deps: map<Bytes, Names>, dMap: map<Bytes, Names>, u: Bytes, h: Bytes)
    requires Consistent(deps, dMap)
    ensures multiset(Dependents(dMap, u))[h] == if h in deps then multiset(deps[h])[u] else 0
  {
    assert Edges(dMap, u, h) == Needs(deps, h, u);
  }

  lemma FrontIsNext(deps: map<Bytes, Names>, listed: map<Bytes, Names>, t: Tally, done: Names)
    requires Covers(deps, listed) && Kept(deps, listed, t, done) && t.queue != []
    ensures t.queue[0] !in done && t.queue[0] in deps && Left(deps, listed, done, t.queue[0]) <= 0
  {
    var all := done + t.queue;
    assert all[|done|] == t.queue[0];
    forall i | 0 <= i < |done|
      ensures done[i] != t.queue[0]
    {
      assert all[i] == done[i];
    }
  }

  lemma FrontIsReady(deps: map<Bytes, Names>, listed: map<Bytes, Names>, t: Tally, done: Names)
    requires Covers(deps, listed) && AllPatient(deps, listed) && Kept(deps, listed, t, done) && t.queue != []
    ensures forall d :: d in deps[t.queue[0]] ==> d in done
  {
    hide Kept, Waiting;
    var u := t.queue[0];
    FrontIsNext(deps, listed, t, done);
    assert Patient(deps[u], listed[u], u);
    forall d | d in deps[u]
      ensures d in done
    {
      if d !in done {
        DequeuedAmongOthers(listed[u], done, d, u);
      }
    }
  }

  lemma RespectsStep(deps: map<Bytes, Names>, done: Names, u: Bytes)
    requires Respects(deps, done) && (u in deps ==> forall d :: d in deps[u] ==> d in done)
    ensures Respects(deps, done + [u])
  {
    var next := done + [u];
    forall i, d | 0 <= i < |next| && next[i] in deps && d in deps[next[i]]
      ensures d in next[..i]
    {
      assert next[..i] == done[..i];
    }
  }

  lemma JoinIsDistinct(s: Names, t: Names)
    requires Distinct(s) && Distinct(t) && forall x :: x in t ==> x !in s
    ensures Distinct(s + t)
  {
    forall i, j | 0 <= i < j < |s + t|
      ensures (s + t)[i] != (s + t)[j]
    {
      assert j >= |s| ==> (s + t)[j] in t;
      assert i < |s| ==> (s + t)[i] in s;
    }
  }

  /** The counts after a turn are those of the longer order. */
  lemma StepCounts(deps: map<Bytes, Names>, listed: map<Bytes, Names>, dMap: map<Bytes, Names>, t: Tally, r: Tally,
                   done: Names, u: Bytes)
    requires Covers(deps, listed) && Consistent(listed, dMap) && u !in done
    requires forall h :: h in deps ==> Count(t.counts, h) == Left(deps, listed, done, h)
    requires forall h :: Count(r.counts, h) == Count(t.counts, h) - multiset(Dependents(dMap, u))[h]
    ensures forall h :: h !in deps ==> Count(r.counts, h) == Count(t.counts, h)
    ensures forall h :: h in deps ==>
      Count(r.counts, h) == Left(deps, listed, done + [u], h) <= Left(deps, listed, done, h)
  {
    hide Consistent, Dependents, Waiting, Count;
    forall h
      ensures if h in deps then Count(r.counts, h) == Left(deps, listed, done + [u], h) <= Left(deps, listed, done, h)
        else Count(r.counts, h) == Count(t.counts, h)
    {
      EdgesOf(listed, dMap, u, h);
      if h in deps { WaitingFalls(listed[h], done, u); }
    }
  }

  lemma QueuedAfter(done: Names, t: Tally, r: Tally)
    requires t.queue != [] && t.queue[1..] <= r.queue
    ensures var pushed := r.queue[|t.queue| - 1..];
      done + [t.queue[0]] + r.queue == (done + t.queue) + pushed
  {
  }

  /** One turn of the main loop keeps the invariant. */
  lemma StepKeeps(deps: map<Bytes, Names>, listed: map<Bytes, Names>, dMap: map<Bytes, Names>, t: Tally, done: Names)
    requires Covers(deps, listed) && Consistent(listed, dMap) && Kept(deps, listed, t, done) && t.queue != []
    ensures var u := t.queue[0];
      Kept(deps, listed, Notify(Tally(t.counts, t.queue[1..]), Dependents(dMap, u)), done + [u])
  {
    hide Consistent, Notify, Distinct, Dependents, Left, Count, Covers;
    var u, popped := t.queue[0], Tally(t.counts, t.queue[1..]);
    var r := Notify(popped, Dependents(dMap, u));
    NotifyEffect(popped, Dependents(dMap, u));
    FrontIsNext(deps, listed, t, done);
    StepCounts(deps, listed, dMap, t, r, done, u);
    QueuedAfter(done, t, r);
    JoinIsDistinct(done + t.queue, r.queue[|popped.queue|..]);
  }

  /** When the queue is empty, exactly the handlers with nothing left have come out. */
  ghost predicate Emptied(deps: map<Bytes, Names>, listed: map<Bytes, Names>, order: Names)
    requires Covers(deps, listed)
  {
    Distinct(order) && forall h :: h in order <==> h in deps && Left(deps, listed, order, h) <= 0
  }

  lemma {:induction false} DrainEmpties(deps: map<Bytes, Names>, listed: map<Bytes, Names>, dMap: map<Bytes, Names>,
                                        t: Tally, done: Names)
    requires Covers(deps, listed) && Consistent(listed, dMap) && Kept(deps, listed, t, done)
    ensures Emptied(deps, listed, Drain(dMap, t, done))
    ensures AllPatient(deps, listed) && Respects(deps, done) ==> Respects(deps, Drain(dMap, t, done))
    decreases |Positive(t.counts)| + |t.queue|
  {
    hide Consistent, Notify, Respects, Distinct, Dependents, AllPatient, Left, Covers;
    if t.queue == [] {
      assert done + t.queue == done;
    } else {
      var u := t.queue[0];
      StepKeeps(deps, listed, dMap, t, done);
      if AllPatient(deps, listed) && Respects(deps, done) {
        FrontIsReady(deps, listed, t, done);
        RespectsStep(deps, done, u);
      }
      DrainEmpties(deps, listed, dMap, Notify(Tally(t.counts, t.queue[1..]), Dependents(dMap, u)), done + [u]);
    }
  }

  /** Every handler whose dependencies all come out has come out. */
  ghost predicate Exhausted(deps: map<Bytes, Names>, order: Names) {
    && Distinct(order)
    && Respects(deps, order)
    && (forall h :: h in order ==> h in deps)
    && (forall h :: h in deps && (forall d :: d in deps[h] ==> d in order) ==> h in order)
  }

  lemma NothingLeft(deps: map<Bytes, Names>, listed: map<Bytes, Names>, order: Names, h: Bytes)
    requires Covers(deps, listed) && h in deps && forall d :: d in deps[h] ==> d in order
    ensures Left(deps, listed, order, h) <= 0
  {
    hide Waiting;
    assert EndsWith(listed[h], deps[h]);
    var former := listed[h][..|listed[h]| - |deps[h]|];
    assert listed[h] == former + deps[h];
    WaitingInParts(former, deps[h], order);
    WaitingForNone(deps[h], order);
  }

  lemma {:induction false} DistinctCount(s: Names)
    requires Distinct(s)
    ensures |set x | x in s| == |s|
  {
    if s != [] {
      DistinctCount(s[1..]);
      assert (set x | x in s) == {s[0]} + set x | x in s[1..];
    }
  }

  lemma FullIsAll(deps: map<Bytes, Names>, order: Names)
    requires Distinct(order) && forall h :: h in order ==> h in deps
    ensures |order| <= |deps|
    ensures |order| == |deps| <==> forall h :: h in deps ==> h in order
  {
    DistinctCount(order);
    var out := set x | x in order;
    assert out <= deps.Keys;
    assert |deps.Keys - out| == |deps| - |out|;
    if |order| == |deps| {
      assert deps.Keys - out == {};
    } else {
      var h :| h in deps.Keys - out;
    }
  }

  /** Following an order, the first handler that did not come out waits only for handlers that did. */
  lemma {:induction false} OrderComesOut(deps: map<Bytes, Names>, order: Names, other: Names, n: nat)
    requires Exhausted(deps, order) && IsOrder(deps, other) && n <= |other|
    ensures forall h :: h in other[..n] ==> h in order
  {
    if n > 0 {
      OrderComesOut(deps, order, other, n - 1);
      assert other[n - 1] in order;
      assert other[..n] == other[..n - 1] + [other[n - 1]];
    }
  }

  lemma WhatComesOut(deps: map<Bytes, Names>, listed: map<Bytes, Names>, dMap: map<Bytes, Names>) returns (order: Names)
    requires Covers(deps, listed) && Consistent(listed, dMap)
    ensures Emptied(deps, listed, order)
    ensures AllPatient(deps, listed) ==> Exhausted(deps, order)
    ensures Sort(deps, dMap) == if forall h :: h in deps ==> h in order then Some(order) else None
  {
    hide Consistent, Start, Drain, Distinct, Kept, AllPatient, Left, Covers;
    StartKeeps(deps, listed);
    DrainEmpties(deps, listed, dMap, Start(deps), []);
    order := Drain(dMap, Start(deps), []);
    FullIsAll(deps, order);
    forall h | h in deps && forall d :: d in deps[h] ==> d in order
      ensures h in order
    {
      NothingLeft(deps, listed, order, h);
    }
  }

  /** The answer is right: an order that respects the dependencies, or the exception where there is none. */
  ghost predicate Right(deps: map<Bytes, Names>, dMap: map<Bytes, Names>) {
    && (Sort(deps, dMap).Some? ==> IsOrder(deps, Sort(deps, dMap).value))
    && (Sort(deps, dMap).None? <==> !exists other :: IsOrder(deps, other))
  }

  lemma PatientHandlersSortRight(deps: map<Bytes, Names>, listed: map<Bytes, Names>, dMap: map<Bytes, Names>)
    requires Covers(deps, listed) && Consistent(listed, dMap) && AllPatient(deps, listed)
    ensures Right(deps, dMap)
  {
    hide Consistent, Sort, Distinct, Respects, Emptied, AllPatient, Covers;
    var order := WhatComesOut(deps, listed, dMap);
    if other :| IsOrder(deps, other) {
      OrderComesOut(deps, order, other, |other|);
      assert other[..|other|] == other;
    }
    if Sort(deps, dMap).Some? {
      assert IsOrder(deps, order);
    }
  }

  /** The sort is sound and complete: it returns an order that respects the dependencies, and throws exactly when
      there is none. */
  lemma SortIsSoundAndComplete(deps: map<Bytes, Names>, dMap: map<Bytes, Names>)
    requires Consistent(deps, dMap)
    ensures Sort(deps, dMap).Some? ==> IsOrder(deps, Sort(deps, dMap).value)
    ensures Sort(deps, dMap).None? <==> !exists other :: IsOrder(deps, other)
  {
    hide Consistent, Sort, IsOrder, AllPatient, Covers;
    OwnListsArePatient(deps);
    PatientHandlersSortRight(deps, deps, dMap);
  }

  // ---- why it throws

  ghost predicate AllRegistered(deps: map<Bytes, Names>) {
    forall h, d :: h in deps && d in deps[h] ==> d in deps
  }

  /** Each name depends on the next. */
  ghost predicate Walk(deps: map<Bytes, Names>, p: Names) {
    forall i :: 0 <= i < |p| - 1 ==> p[i] in deps && p[i + 1] in deps[p[i]]
  }

  ghost predicate Cycle(deps: map<Bytes, Names>, p: Names) {
    |p| >= 2 && p[0] == p[|p| - 1] && Walk(deps, p)
  }

  /** Along a walk, the positions in an order fall. */
  lemma {:induction false} WalkFalls(deps: map<Bytes, Names>, order: Names, p: Names, k: nat)
    returns (at: nat, first: nat)
    requires IsOrder(deps, order) && Walk(deps, p) && k < |p| && p[0] in order
    ensures at < |order| && order[at] == p[k]
    ensures first < |order| && order[first] == p[0]
    ensures at + k <= first
  {
    if k == 0 {
      at :| 0 <= at < |order| && order[at] == p[0];
      first := at;
    } else {
      var later;
      later, first := WalkFalls(deps, order, p, k - 1);
      assert p[k - 1 + 1] in order[..later];
      at :| 0 <= at < later && order[at] == p[k];
    }
  }

  lemma OrdersHaveNoCycle(deps: map<Bytes, Names>, order: Names, p: Names)
    requires IsOrder(deps, order)
    ensures !Cycle(deps, p)
  {
    if Cycle(deps, p) {
      assert p[0] in deps;
      var last, first := WalkFalls(deps, order, p, |p| - 1);
    }
  }

  /** Every handler of the set waits for another of the set. */
  ghost predicate Blocked(deps: map<Bytes, Names>, blocked: set<Bytes>) {
    forall b :: b in blocked ==> b in deps && exists d :: d in deps[b] && d in blocked
  }

  lemma WalkOn(deps: map<Bytes, Names>, p: Names, d: Bytes)
    requires Walk(deps, p) && p != [] && p[|p| - 1] in deps && d in deps[p[|p| - 1]]
    ensures Walk(deps, p + [d])
  {
  }

  lemma WalkPart(deps: map<Bytes, Names>, p: Names, i: nat, j: nat)
    requires Walk(deps, p) && i < j < |p| && p[i] == p[j]
    ensures Cycle(deps, p[i..j + 1])
  {
    var c := p[i..j + 1];
    forall k | 0 <= k < |c| - 1
      ensures c[k] in deps && c[k + 1] in deps[c[k]]
    {
      assert c[k] == p[i + k] && c[k + 1] == p[i + k + 1];
    }
  }

  /** Among handlers that are all blocked by one another, there are walks of any length. */
  lemma {:induction false} BlockedWalk(deps: map<Bytes, Names>, blocked: set<Bytes>, h: Bytes, n: nat)
    returns (p: Names)
    requires h in blocked && Blocked(deps, blocked)
    ensures |p| == n + 1 && Walk(deps, p) && forall x :: x in p ==> x in blocked
  {
    if n == 0 {
      p := [h];
    } else {
      hide Walk;
      var q := BlockedWalk(deps, blocked, h, n - 1);
      var last := q[|q| - 1];
      assert last in blocked;
      var d :| d in deps[last] && d in blocked;
      WalkOn(deps, q, d);
      p := q + [d];
    }
  }

  lemma TooLongRepeats(p: Names, s: set<Bytes>) returns (i: nat, j: nat)
    requires |p| > |s| && forall x :: x in p ==> x in s
    ensures i < j < |p| && p[i] == p[j]
  {
    if Distinct(p) {
      DistinctCount(p);
      SubsetIsSmaller((set x | x in p), s);
      assert false;
    }
    i, j :| 0 <= i < j < |p| && p[i] == p[j];
  }

  lemma SubsetIsSmaller(s: set<Bytes>, t: set<Bytes>)
    requires s <= t
    ensures |s| <= |t|
  {
    assert |t - s| == |t| - |s|;
  }

  /** An order exists exactly when every dependency was registered and none leads back to itself. */
  lemma ThrowsOnCyclesAndStrangers(deps: map<Bytes, Names>, dMap: map<Bytes, Names>)
    requires Consistent(deps, dMap)
    ensures Sort(deps, dMap).None? <==> !AllRegistered(deps) || exists p :: Cycle(deps, p)
  {
    hide Consistent, Sort, Walk, Distinct;
    SortIsSoundAndComplete(deps, dMap);
    if Sort(deps, dMap).Some? {
      var order := Sort(deps, dMap).value;
      forall h, d | h in deps && d in deps[h]
        ensures d in deps
      {
        var i :| 0 <= i < |order| && order[i] == h;
        assert d in order[..i];
      }
      if p :| Cycle(deps, p) { OrdersHaveNoCycle(deps, order, p); }
    } else if AllRegistered(deps) {
      BlockedHaveCycle(deps, dMap);
    }
  }

  lemma BlockedHaveCycle(deps: map<Bytes, Names>, dMap: map<Bytes, Names>)
    requires Consistent(deps, dMap) && Sort(deps, dMap).None? && AllRegistered(deps)
    ensures exists p :: Cycle(deps, p)
  {
    hide *;
    OwnListsArePatient(deps);
    var order := WhatComesOut(deps, deps, dMap);
    var h :| h in deps && h !in order;
    var blocked := set h | h in deps && h !in order;
    RestIsBlocked(deps, order, blocked);
    var p := BlockedWalk(deps, blocked, h, |blocked|);
    var i, j := TooLongRepeats(p, blocked);
    WalkPart(deps, p, i, j);
  }

  lemma RestIsBlocked(deps: map<Bytes, Names>, order: Names, blocked: set<Bytes>)
    requires Exhausted(deps, order) && AllRegistered(deps)
    requires forall h :: h in blocked <==> h in deps && h !in order
    ensures Blocked(deps, blocked)
  {
    forall b | b in blocked
      ensures exists d :: d in deps[b] && d in blocked
    {
      var d :| d in deps[b] && d !in order;
      assert d in blocked;
    }
  }

  // ---- the class

  function Repeat(h: Bytes, n: nat): (r: Names)
    ensures multiset(r)[h] == n
    ensures forall k :: k in r ==> k == h
  {
    if n == 0 then [] else Repeat(h, n - 1) + [h]
  }

  /** The handler has joined the dependents of each name once per entry of its list. */
  ghost predicate Registered(d: map<Bytes, Names>, e: map<Bytes, Names>, handler: Bytes, dependency: Names) {
    forall u :: Dependents(e, u) == Dependents(d, u) + Repeat(handler, multiset(dependency)[u])
  }

  /** The reverse map after a registration. */
  function Joined(d: map<Bytes, Names>, handler: Bytes, dependency: Names): map<Bytes, Names> {
    if dependency == [] then d
    else
      var e, a := Joined(d, handler, dependency[..|dependency| - 1]), dependency[|dependency| - 1];
      e[a := Dependents(e, a) + [handler]]
  }

  lemma {:induction false} JoinedRegisters(d: map<Bytes, Names>, handler: Bytes, dependency: Names)
    ensures Registered(d, Joined(d, handler, dependency), handler, dependency)
  {
    hide Registered, Dependents, Repeat;
    var n := |dependency|;
    if n == 0 {
      RegisterNone(d, handler);
    } else {
      JoinedRegisters(d, handler, dependency[..n - 1]);
      RegisterOne(d, Joined(d, handler, dependency[..n - 1]), handler, dependency, n - 1);
      assert dependency[..n] == dependency;
    }
  }

  lemma JoinedStep(d: map<Bytes, Names>, handler: Bytes, dependency: Names, i: nat)
    requires i < |dependency|
    ensures var e := Joined(d, handler, dependency[..i]);
      Joined(d, handler, dependency[..i + 1]) == e[dependency[i] := Dependents(e, dependency[i]) + [handler]]
  {
    assert dependency[..i + 1][..i] == dependency[..i];
  }

  lemma JoinedNone(d: map<Bytes, Names>, handler: Bytes)
    ensures Joined(d, handler, []) == d
  {
  }

  lemma RegisterNone(d: map<Bytes, Names>, handler: Bytes)
    ensures Registered(d, d, handler, [])
  {
  }

  lemma CountWithLast(s: Names, a: Bytes, u: Bytes)
    ensures multiset(s + [a])[u] == multiset(s)[u] + if u == a then 1 else 0
  {
  }

  lemma RegisterOneFor(before: Names, now: Names, handler: Bytes, listed: Names, a: Bytes, u: Bytes)
    requires now == before + Repeat(handler, multiset(listed)[u])
    ensures (if u == a then now + [handler] else now) == before + Repeat(handler, multiset(listed + [a])[u])
  {
    hide Repeat;
    var n := multiset(listed)[u];
    CountWithLast(listed, a, u);
    RepeatOnce(handler, n);
    assert before + Repeat(handler, n) + [handler] == before + (Repeat(handler, n) + [handler]);
  }

  lemma RegisterOne(before: map<Bytes, Names>, d: map<Bytes, Names>, handler: Bytes, dependency: Names, i: nat)
    requires i < |dependency| && Registered(before, d, handler, dependency[..i])
    ensures var next := d[dependency[i] := Dependents(d, dependency[i]) + [handler]];
      Registered(before, next, handler, dependency[..i + 1])
  {
    hide Repeat, Dependents;
    var a, listed := dependency[i], dependency[..i];
    var e := d[a := Dependents(d, a) + [handler]];
    assert dependency[..i + 1] == listed + [a];
    forall u
      ensures Dependents(e, u) == Dependents(before, u) + Repeat(handler, multiset(listed + [a])[u])
    {
      DependentsWithOne(d, a, handler, u);
      RegisterOneFor(Dependents(before, u), Dependents(d, u), handler, listed, a, u);
    }
  }

  lemma DependentsWithOne(d: map<Bytes, Names>, a: Bytes, handler: Bytes, u: Bytes)
    ensures Dependents(d[a := Dependents(d, a) + [handler]], u) ==
      if u == a then Dependents(d, a) + [handler] else Dependents(d, u)
  {
  }

  lemma RepeatOnce(h: Bytes, n: nat)
    ensures Repeat(h, n + 1) == Repeat(h, n) + [h]
  {
  }

  class DependencySort {
    var dependencyMap: map<Bytes, Names>
    var dMap: map<Bytes, Names>

    constructor ()
      ensures dependencyMap == map[] && dMap == map[]
      ensures Consistent(dependencyMap, dMap)
    {
      dependencyMap, dMap := map[], map[];
    }

    /** The handler joins the dependents of each name once per entry.  The two maps stay consistent exactly when the
        handler was not registered before with dependencies. */
    method SetDependenciesMap(handler: Bytes, dependency: Names)
      modifies this
      ensures dependencyMap == old(dependencyMap)[handler := dependency]
      ensures dMap == Joined(old(dMap), handler, dependency) && Registered(old(dMap), dMap, handler, dependency)
      ensures old(Consistent(dependencyMap, dMap)) ==>
        (Consistent(dependencyMap, dMap) <==> handler !in old(dependencyMap) || old(dependencyMap)[handler] == [])
    {
      hide *;
      JoinedNone(dMap, handler);
      assert dependency[..0] == [];
      var i := 0;
      while i < |dependency|
        invariant 0 <= i <= |dependency|
        invariant dependencyMap == old(dependencyMap)
        invariant dMap == Joined(old(dMap), handler, dependency[..i])
      {
        var a := dependency[i];
        JoinedStep(old(dMap), handler, dependency, i);
        dMap := dMap[a := Dependents(dMap, a) + [handler]];
        i := i + 1;
      }
      assert dependency[..i] == dependency;
      JoinedRegisters(old(dMap), handler, dependency);
      dependencyMap := dependencyMap[handler := dependency];
      if old(Consistent(dependencyMap, dMap)) {
        RegisteringKeepsConsistency(old(dependencyMap), old(dMap), dMap, handler, dependency);
      }
    }

    /** The first two loops: count the dependencies of each handler, and enqueue those with none. */
    method Prepare() returns (dependencies: map<Bytes, int>, q: Names)
      ensures Tally(dependencies, q) == Start(dependencyMap)
    {
      hide *;
      var keys := SortedKeys(dependencyMap.Keys);
      dependencies := map[];
      var k := 0;
      while k < |keys|
        invariant 0 <= k <= |keys|
        invariant dependencies == map h | h in keys[..k] :: |dependencyMap[h]|
      {
        assert keys[..k + 1] == keys[..k] + [keys[k]];
        dependencies := dependencies[keys[k] := |dependencyMap[keys[k]]|];
        k := k + 1;
      }
      assert keys[..k] == keys;
      AllCounted(dependencyMap, keys, dependencies);
      q := [];
      k := 0;
      assert keys[0..] == keys;
      while k < |keys|
        invariant 0 <= k <= |keys|
        invariant q + Independent(dependencyMap, keys[k..]) == Independent(dependencyMap, keys)
      {
        IndependentStep(dependencyMap, keys, k, q);
        if dependencies[keys[k]] == 0 {
          q := q + [keys[k]];
        }
        k := k + 1;
      }
      IndependentNone(dependencyMap, keys[k..]);
      StartIs(dependencyMap, Tally(dependencies, q));
    }

    /** The inner loop of the main loop. */
    static method Visit(dependents: Names, counts: map<Bytes, int>, queue: Names)
      returns (dependencies: map<Bytes, int>, q: Names)
      ensures Tally(dependencies, q) == Notify(Tally(counts, queue), dependents)
    {
      hide *;
      dependencies, q := counts, queue;
      assert dependents[0..] == dependents;
      var itr := 0;
      while itr < |dependents|
        invariant 0 <= itr <= |dependents|
        invariant Notify(Tally(dependencies, q), dependents[itr..]) == Notify(Tally(counts, queue), dependents)
      {
        var h := dependents[itr];
        NotifyStep(Tally(dependencies, q), dependents, itr);
        DecrementIs(Tally(dependencies, q), h);
        dependencies := dependencies[h := Count(dependencies, h) - 1];
        if dependencies[h] == 0 { q := q + [h]; }
        itr := itr + 1;
      }
      NotifyNone(Tally(dependencies, q), dependents, itr);
    }

    /** The sort.  On the maps it leaves nothing but empty lists of dependents, so calling it again changes nothing. */
    method SortDependency() returns (result: Option<Names>)
      modifies this
      ensures dependencyMap == old(dependencyMap)
      ensures SameDependents(old(dMap), dMap)
      ensures result == Sort(dependencyMap, old(dMap)) == Sort(dependencyMap, dMap)
      ensures old(Consistent(dependencyMap, dMap)) <==> Consistent(dependencyMap, dMap)
      ensures Consistent(dependencyMap, dMap) ==> (result.None? <==> !exists order :: IsOrder(dependencyMap, order))
      ensures Consistent(dependencyMap, dMap) && result.Some? ==> IsOrder(dependencyMap, result.value)
    {
      hide *;
      ghost var deps, dependents := dependencyMap, dMap;
      var dependencies, q := Prepare();
      SameAtFirst(dMap);
      var cnt, order := 0, [];
      while q != []
        invariant dependencyMap == deps && cnt == |order|
        invariant SameDependents(dependents, dMap)
        invariant Drain(dependents, Tally(dependencies, q), order) == Drain(dependents, Start(deps), [])
        decreases |Positive(dependencies)| + |q|
      {
        DrainStep(dependents, Tally(dependencies, q), order);
        var u := q[0];
        q := q[1..];
        order := order + [u];
        if u !in dMap {
          DefaultIsEmpty(dependents, dMap, u);
          dMap := dMap[u := []];
        }
        FoundIs(dependents, dMap, u);
        dependencies, q := Visit(dMap[u], dependencies, q);
        cnt := cnt + 1;
      }
      DrainNone(dependents, Tally(dependencies, q), order);
      SortIs(deps, dependents, order);
      result := if cnt != |dependencyMap| then None else Some(order);
      SortReadsDependents(deps, dependents, dMap);
      if Consistent(deps, dMap) { SortIsSoundAndComplete(deps, dMap); }
    }
  }

  // ---- how the loops of SortDependency follow the functions

  ghost predicate SameDependents(d: map<Bytes, Names>, e: map<Bytes, Names>) {
    forall u :: Dependents(d, u) == Dependents(e, u)
  }

  lemma AllCounted(deps: map<Bytes, Names>, keys: Names, counts: map<Bytes, int>)
    requires forall k :: k in keys <==> k in deps
    requires counts == map h | h in keys :: |deps[h]|
    ensures counts == Degrees(deps)
  {
  }

  lemma IndependentStep(deps: map<Bytes, Names>, keys: Names, k: nat, q: Names)
    requires k < |keys| && keys[k] in deps
    ensures q + Independent(deps, keys[k..]) ==
      (if |deps[keys[k]]| == 0 then q + [keys[k]] else q) + Independent(deps, keys[k + 1..])
  {
    assert keys[k..][1..] == keys[k + 1..];
  }

  lemma IndependentNone(deps: map<Bytes, Names>, keys: Names)
    requires keys == []
    ensures Independent(deps, keys) == []
  {
  }

  lemma DrainStep(dMap: map<Bytes, Names>, t: Tally, order: Names)
    requires t.queue != []
    ensures var r := Notify(Tally(t.counts, t.queue[1..]), Dependents(dMap, t.queue[0]));
      && Drain(dMap, t, order) == Drain(dMap, r, order + [t.queue[0]])
      && |Positive(r.counts)| + |r.queue| < |Positive(t.counts)| + |t.queue|
  {
    hide Notify;
  }

  lemma DrainNone(dMap: map<Bytes, Names>, t: Tally, order: Names)
    requires t.queue == []
    ensures Drain(dMap, t, order) == order
  {
  }

  lemma DecrementIs(t: Tally, h: Bytes)
    ensures var n := Count(t.counts, h) - 1;
      Decrement(t, h) == Tally(t.counts[h := n], if n == 0 then t.queue + [h] else t.queue)
  {
  }

  lemma NotifyStep(t: Tally, ds: Names, i: nat)
    requires i < |ds|
    ensures Notify(t, ds[i..]) == Notify(Decrement(t, ds[i]), ds[i + 1..])
  {
    hide Notify, Decrement;
    NotifyHead(t, ds[i..]);
    assert ds[i..][1..] == ds[i + 1..];
  }

  lemma NotifyHead(t: Tally, ds: Names)
    requires ds != []
    ensures Notify(t, ds) == Notify(Decrement(t, ds[0]), ds[1..])
  {
  }

  lemma NotifyNone(t: Tally, ds: Names, i: nat)
    requires i == |ds|
    ensures Notify(t, ds[i..]) == t
  {
  }

  lemma SameAtFirst(d: map<Bytes, Names>)
    ensures SameDependents(d, d)
  {
  }

  lemma DefaultIsEmpty(d: map<Bytes, Names>, e: map<Bytes, Names>, u: Bytes)
    requires SameDependents(d, e) && u !in e
    ensures SameDependents(d, e[u := []])
  {
    forall v
      ensures Dependents(e[u := []], v) == Dependents(e, v)
    {
    }
  }

  lemma FoundIs(d: map<Bytes, Names>, e: map<Bytes, Names>, u: Bytes)
    requires SameDependents(d, e) && u in e
    ensures e[u] == Dependents(d, u)
  {
    assert Dependents(d, u) == Dependents(e, u);
  }

  lemma StartIs(deps: map<Bytes, Names>, t: Tally)
    requires t.counts == Degrees(deps) && t.queue == Independent(deps, SortedKeys(deps.Keys))
    ensures t == Start(deps)
  {
  }

  lemma SortIs(deps: map<Bytes, Names>, dMap: map<Bytes, Names>, order: Names)
    requires Drain(dMap, Start(deps), []) == order
    ensures Sort(deps, dMap) == if |order| != |deps| then None else Some(order)
  {
    hide Drain, Start;
  }

  lemma {:induction false} DrainReadsDependents(d: map<Bytes, Names>, e: map<Bytes, Names>, t: Tally, order: Names)
    requires SameDependents(d, e)
    ensures Drain(d, t, order) == Drain(e, t, order)
    decreases |Positive(t.counts)| + |t.queue|
  {
    if t.queue != [] {
      var u := t.queue[0];
      DrainReadsDependents(d, e, Notify(Tally(t.counts, t.queue[1..]), Dependents(d, u)), order + [u]);
    }
  }

  lemma SortReadsDependents(deps: map<Bytes, Names>, d: map<Bytes, Names>, e: map<Bytes, Names>)
    requires SameDependents(d, e)
    ensures Sort(deps, d) == Sort(deps, e)
    ensures Consistent(deps, d) <==> Consistent(deps, e)
  {
    DrainReadsDependents(d, e, Start(deps), []);
  }

  lemma EdgesGrow(d: map<Bytes, Names>, e: map<Bytes, Names>, handler: Bytes, dependency: Names, u: Bytes, h: Bytes)
    requires Registered(d, e, handler, dependency)
    ensures Edges(e, u, h) == Edges(d, u, h) + if h == handler then multiset(dependency)[u] else 0
  {
    var r := Repeat(handler, multiset(dependency)[u]);
    assert Dependents(e, u) == Dependents(d, u) + r;
    assert multiset(Dependents(e, u)) == multiset(Dependents(d, u)) + multiset(r);
    if h != handler { assert h !in r; }
  }

  lemma RegisteringKeepsConsistency(deps: map<Bytes, Names>, d: map<Bytes, Names>, e: map<Bytes, Names>,
                                    handler: Bytes, dependency: Names)
    requires Registered(d, e, handler, dependency)
    requires Consistent(deps, d)
    ensures Consistent(deps[handler := dependency], e) <==> handler !in deps || deps[handler] == []
  {
    hide Registered, Edges;
    var after := deps[handler := dependency];
    forall u, h
      ensures Edges(e, u, h) == Needs(deps, h, u) + if h == handler then multiset(dependency)[u] else 0
    {
      EdgesGrow(d, e, handler, dependency, u, h);
    }
    if handler in deps && deps[handler] != [] {
      var u := deps[handler][0];
      assert Needs(deps, handler, u) > 0;
      assert Edges(e, u, handler) != Needs(after, handler, u);
    }
  }
}
