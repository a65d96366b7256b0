/** Whole histories of registrations, and exactly which re-registrations the sort survives. */
module DependencyHistory {
  import opened ByteStrings
  import opened DependencySort

  datatype Registration = Registration(handler: Bytes, dependency: Names)

  datatype Maps = Maps(dependencyMap: map<Bytes, Names>, dMap: map<Bytes, Names>)

  /** What SetDependenciesMap makes of the two maps. */
  function Register(m: Maps, r: Registration): Maps {
    Maps(m.dependencyMap[r.handler := r.dependency], Joined(m.dMap, r.handler, r.dependency))
  }

  /** The maps of a new object after these registrations. */
  function After(rs: seq<Registration>): Maps {
    if rs == [] then Maps(map[], map[]) else Register(After(rs[..|rs| - 1]), rs[|rs| - 1])
  }

  /** The lists a handler was registered with, in order. */
  function History(rs: seq<Registration>, h: Bytes): seq<Names> {
    if rs == [] then []
    else
      var r := rs[|rs| - 1];
      History(rs[..|rs| - 1], h) + (if r.handler == h then [r.dependency] else [])
  }

  function Flatten(lists: seq<Names>): Names {
    if lists == [] then [] else Flatten(lists[..|lists| - 1]) + lists[|lists| - 1]
  }

  /** After a history, each handler has its last list, and all the entries of all its lists point to it. */
  ghost predicate Follows(m: Maps, rs: seq<Registration>) {
    && (forall h :: h in m.dependencyMap <==> History(rs, h) != [])
    && (forall h :: h in m.dependencyMap ==> m.dependencyMap[h] == History(rs, h)[|History(rs, h)| - 1])
    && (forall u, h :: Edges(m.dMap, u, h) == multiset(Flatten(History(rs, h)))[u])
  }

  lemma {:induction false} AfterFollows(rs: seq<Registration>)
    ensures Follows(After(rs), rs)
  {
    hide Follows;
    if rs == [] {
      NothingFollows();
    } else {
      var before, r := rs[..|rs| - 1], rs[|rs| - 1];
      AfterFollows(before);
      FollowsStep(After(before), before, r);
      assert rs == before + [r];
    }
  }

  lemma NothingFollows()
    ensures Follows(Maps(map[], map[]), [])
  {
  }

  lemma HistoryStep(rs: seq<Registration>, r: Registration, g: Bytes)
    ensures History(rs + [r], g) == History(rs, g) + (if r.handler == g then [r.dependency] else [])
    ensures r.handler != g ==> History(rs + [r], g) == History(rs, g)
  {
    assert (rs + [r])[..|rs|] == rs;
  }

  lemma FollowsStep(m: Maps, rs: seq<Registration>, r: Registration)
    requires Follows(m, rs)
    ensures Follows(Register(m, r), rs + [r])
  {
    hide Joined, History, Edges, Flatten;
    forall h
      ensures r.handler != h ==> History(rs + [r], h) == History(rs, h)
      ensures r.handler == h ==> History(rs + [r], h) == History(rs, h) + [r.dependency]
    {
      HistoryStep(rs, r, h);
    }
    forall u, h
      ensures Edges(Register(m, r).dMap, u, h) == multiset(Flatten(History(rs + [r], h)))[u]
    {
      EdgesFollow(m.dMap, rs, r, u, h);
    }
  }

  lemma EdgesFollow(d: map<Bytes, Names>, rs: seq<Registration>, r: Registration, u: Bytes, h: Bytes)
    requires Edges(d, u, h) == multiset(Flatten(History(rs, h)))[u]
    ensures Edges(Joined(d, r.handler, r.dependency), u, h) == multiset(Flatten(History(rs + [r], h)))[u]
  {
    hide Joined, History, Edges, Flatten, Registered;
    HistoryStep(rs, r, h);
    FlattenWithLast(History(rs, h), r.dependency);
    JoinedRegisters(d, r.handler, r.dependency);
    EdgesGrow(d, Joined(d, r.handler, r.dependency), r.handler, r.dependency, u, h);
  }

  lemma FlattenWithLast(lists: seq<Names>, last: Names)
    ensures Flatten(lists + [last]) == Flatten(lists) + last
  {
    assert (lists + [last])[..|lists|] == lists;
  }

  /** All the entries ever listed for each registered handler. */
  function Listed(rs: seq<Registration>): map<Bytes, Names> {
    map h | h in After(rs).dependencyMap :: Flatten(History(rs, h))
  }

  lemma ListedFits(rs: seq<Registration>)
    ensures Covers(After(rs).dependencyMap, Listed(rs)) && Consistent(Listed(rs), After(rs).dMap)
  {
    hide After, History;
    AfterFollows(rs);
    var m := After(rs);
    forall h | h in m.dependencyMap
      ensures EndsWith(Listed(rs)[h], m.dependencyMap[h])
    {
      var lists := History(rs, h);
      assert lists == lists[..|lists| - 1] + [m.dependencyMap[h]];
      FlattenWithLast(lists[..|lists| - 1], m.dependencyMap[h]);
    }
  }

  /** Whatever the history, the sort is right if every handler is patient, given all it was ever registered with. */
  lemma PatientHistoriesSortRight(rs: seq<Registration>)
    requires forall h :: h in After(rs).dependencyMap ==>
      Patient(After(rs).dependencyMap[h], Flatten(History(rs, h)), h)
    ensures Right(After(rs).dependencyMap, After(rs).dMap)
  {
    hide After, History, Patient, Right;
    ListedFits(rs);
    PatientHandlersSortRight(After(rs).dependencyMap, Listed(rs), After(rs).dMap);
  }

  // ---- one handler registered again and again

  /** Handler `h` was registered with these lists, and every other handler at most once. */
  ghost predicate OnlyReRegisters(rs: seq<Registration>, h: Bytes, lists: seq<Names>) {
    History(rs, h) == lists && forall g :: g != h ==> |History(rs, g)| <= 1
  }

  /** However the others are registered, and in whatever order: the sort is right for all of them exactly if the
      re-registered handler is patient. */
  lemma ReRegistrationIsHarmlessExactly(h: Bytes, lists: seq<Names>)
    requires lists != []
    ensures (forall rs :: OnlyReRegisters(rs, h, lists) ==> Right(After(rs).dependencyMap, After(rs).dMap)) <==>
      Patient(lists[|lists| - 1], Flatten(lists), h)
  {
    hide Right, After, Patient;
    if Patient(lists[|lists| - 1], Flatten(lists), h) {
      forall rs | OnlyReRegisters(rs, h, lists)
        ensures Right(After(rs).dependencyMap, After(rs).dMap)
      {
        PatientAmongOthers(rs, h, lists);
      }
    } else {
      var rs := ImpatientHistory(h, lists);
      assert OnlyReRegisters(rs, h, lists);
    }
  }

  lemma PatientAmongOthers(rs: seq<Registration>, h: Bytes, lists: seq<Names>)
    requires lists != [] && OnlyReRegisters(rs, h, lists) && Patient(lists[|lists| - 1], Flatten(lists), h)
    ensures Right(After(rs).dependencyMap, After(rs).dMap)
  {
    hide After, History, Right, Patient;
    AfterFollows(rs);
    forall g | g in After(rs).dependencyMap
      ensures Patient(After(rs).dependencyMap[g], Flatten(History(rs, g)), g)
    {
      if g != h {
        assert |History(rs, g)| == 1;
        OnceIsPatient(History(rs, g), g);
      }
    }
    PatientHistoriesSortRight(rs);
  }

  lemma OnceIsPatient(lists: seq<Names>, g: Bytes)
    requires |lists| == 1
    ensures Patient(lists[0], Flatten(lists), g)
  {
    FlattenWithLast([], lists[0]);
    assert [] + lists[0] == lists[0] && lists == [] + [lists[0]];
    var deps := map[g := lists[0]];
    OwnListsArePatient(deps);
    assert Patient(deps[g], deps[g], g);
  }

  // ---- where the handler is impatient, the sort can go wrong

  function Singles(names: Names): seq<Registration> {
    if names == [] then [] else Singles(names[..|names| - 1]) + [Registration(names[|names| - 1], [])]
  }

  function Repeated(h: Bytes, lists: seq<Names>): seq<Registration> {
    if lists == [] then [] else Repeated(h, lists[..|lists| - 1]) + [Registration(h, lists[|lists| - 1])]
  }

  lemma {:induction false} HistoryOfSingles(names: Names, g: Bytes)
    requires Distinct(names)
    ensures History(Singles(names), g) == if g in names then [[]] else []
  {
    if names != [] {
      var before, last := names[..|names| - 1], names[|names| - 1];
      HistoryOfSingles(before, g);
      HistoryStep(Singles(before), Registration(last, []), g);
      assert names == before + [last];
    }
  }

  lemma {:induction false} HistoryWithRepeated(rs: seq<Registration>, h: Bytes, lists: seq<Names>, g: Bytes)
    ensures History(rs + Repeated(h, lists), g) == History(rs, g) + (if g == h then lists else [])
  {
    hide History;
    if lists == [] {
      assert rs + Repeated(h, lists) == rs && History(rs, g) + [] == History(rs, g);
    } else {
      var before, r := lists[..|lists| - 1], Registration(h, lists[|lists| - 1]);
      HistoryWithRepeated(rs, h, before, g);
      HistoryStep(rs + Repeated(h, before), r, g);
      assert rs + Repeated(h, lists) == rs + Repeated(h, before) + [r];
      assert History(rs, g) + before + [r.dependency] == History(rs, g) + lists;
    }
  }

  /** Entries that are neither `x` nor `h` have been dequeued. */
  lemma {:induction false} OthersAreDequeued(all: Names, order: Names, x: Bytes, h: Bytes)
    requires forall y :: y in all && y != x && y != h ==> y in order
    ensures Waiting(all, order) + Waiting(all, [x, h]) <= |all|
  {
    if all != [] {
      OthersAreDequeued(all[1..], order, x, h);
    }
  }

  /** Every name but the missing dependency is registered without dependencies: the handler comes out although no
      order exists. */
  lemma ImpatientHistory(h: Bytes, lists: seq<Names>) returns (rs: seq<Registration>)
    requires lists != [] && !Patient(lists[|lists| - 1], Flatten(lists), h)
    ensures OnlyReRegisters(rs, h, lists)
    ensures !Right(After(rs).dependencyMap, After(rs).dMap)
  {
    hide Right, After, Singles, Repeated, History;
    var last, all := lists[|lists| - 1], Flatten(lists);
    var x := TooManyWaiting(last, all, h);
    hide Patient, Flatten, Waiting;
    var names := SortedKeys(set y | y in all && y != x && y != h);
    AscendingIsDistinct(names);
    rs := Singles(names) + Repeated(h, lists);
    HistoryOfBoth(names, h, lists);
    AnswersWithoutOrder(rs, h, lists, x, names);
  }

  lemma TooManyWaiting(last: Names, all: Names, h: Bytes) returns (x: Bytes)
    requires !Patient(last, all, h)
    ensures x in last && Waiting(all, [x, h]) >= |last|
  {
    x :| x in last && Waiting(all, [x, h]) >= |last|;
  }

  lemma HistoryOfBoth(names: Names, h: Bytes, lists: seq<Names>)
    requires Distinct(names) && h !in names
    ensures forall g ::
      History(Singles(names) + Repeated(h, lists), g) == if g == h then lists else if g in names then [[]] else []
  {
    hide History, Singles, Repeated;
    forall g
      ensures History(Singles(names) + Repeated(h, lists), g) ==
        if g == h then lists else if g in names then [[]] else []
    {
      HistoryOfSingles(names, g);
      HistoryWithRepeated(Singles(names), h, lists, g);
      assert [] + lists == lists && History(Singles(names), g) + [] == History(Singles(names), g);
    }
  }

  lemma AnswersWithoutOrder(rs: seq<Registration>, h: Bytes, lists: seq<Names>, x: Bytes, names: Names)
    requires lists != [] && x in lists[|lists| - 1] && x !in names
    requires Waiting(Flatten(lists), [x, h]) >= |lists[|lists| - 1]|
    requires forall y :: y in names <==> y in Flatten(lists) && y != x && y != h
    requires forall g :: History(rs, g) == if g == h then lists else if g in names then [[]] else []
    ensures !Right(After(rs).dependencyMap, After(rs).dMap)
  {
    hide After, History, Waiting, Consistent, Flatten, Covers, Right;
    var m := After(rs);
    AfterFollows(rs);
    ListedFits(rs);
    assert m.dependencyMap[h] == lists[|lists| - 1] && Listed(rs)[h] == Flatten(lists);
    ComesOutTooEarly(m.dependencyMap, Listed(rs), m.dMap, h, x, names);
  }

  lemma ComesOutTooEarly(deps: map<Bytes, Names>, listed: map<Bytes, Names>, dMap: map<Bytes, Names>, h: Bytes,
                         x: Bytes, names: Names)
    requires Covers(deps, listed) && Consistent(listed, dMap)
    requires forall g :: g in deps <==> g == h || g in names
    requires forall y :: y in names && y != h ==> deps[y] == []
    requires x in deps[h] && x !in names && Waiting(listed[h], [x, h]) >= |deps[h]|
    requires forall y :: y in listed[h] && y != x && y != h ==> y in names
    ensures !Right(deps, dMap)
  {
    hide Waiting, Sort, Consistent, EndsWith, IsOrder, Distinct, AllPatient;
    var order := WhatComesOut(deps, listed, dMap);
    forall y | y in names && y != h
      ensures y in order
    {
      NothingLeft(deps, listed, order, y);
    }
    OthersAreDequeued(listed[h], order, x, h);
    assert h in order;
    NoOrderWithout(deps, h, x);
  }

  /** A dependency that was never registered, or is the handler itself, rules out every order. */
  lemma NoOrderWithout(deps: map<Bytes, Names>, h: Bytes, x: Bytes)
    requires h in deps && x in deps[h] && (x == h || x !in deps)
    ensures !exists order :: IsOrder(deps, order)
  {
    if order :| IsOrder(deps, order) {
      DependencyComesBefore(deps, order, h, x);
    }
  }

  lemma DependencyComesBefore(deps: map<Bytes, Names>, order: Names, h: Bytes, x: Bytes)
    requires IsOrder(deps, order) && h in deps && x in deps[h]
    ensures x in deps && x != h
  {
    var i :| 0 <= i < |order| && order[i] == h;
    assert x in order[..i];
    var j :| 0 <= j < i && order[..i][j] == x;
    assert order[j] == x;
  }

  // ---- several handlers registered again and again

  /** No handler of these lists itself or another of these. */
  ghost predicate Apart(lists: map<Bytes, seq<Names>>) {
    forall h, x :: h in lists && x in Flatten(lists[h]) ==> x !in lists
  }

  /** The handlers were registered with these lists, and every other one at most once. */
  ghost predicate ReRegisters(rs: seq<Registration>, lists: map<Bytes, seq<Names>>) {
    && (forall h :: h in lists ==> History(rs, h) == lists[h])
    && (forall g :: g !in lists ==> |History(rs, g)| <= 1)
  }

  /** Each of these handlers is patient, given all its own lists. */
  ghost predicate EachPatient(lists: map<Bytes, seq<Names>>)
    requires forall h :: h in lists ==> lists[h] != []
  {
    forall h :: h in lists ==> Patient(lists[h][|lists[h]| - 1], Flatten(lists[h]), h)
  }

  /** Where the re-registered handlers are apart, the sort is right for all registrations of the others exactly if each
      of them is patient. */
  lemma SeveralReRegistrationsAreHarmlessExactly(lists: map<Bytes, seq<Names>>)
    requires Apart(lists) && forall h :: h in lists ==> lists[h] != []
    ensures (forall rs :: ReRegisters(rs, lists) ==> Right(After(rs).dependencyMap, After(rs).dMap)) <==>
      EachPatient(lists)
  {
    hide Right, After, Patient, Apart, ReRegisters;
    if EachPatient(lists) {
      forall rs | ReRegisters(rs, lists)
        ensures Right(After(rs).dependencyMap, After(rs).dMap)
      {
        AllPatientAmongOthers(rs, lists);
      }
    } else {
      var h :| h in lists && !Patient(lists[h][|lists[h]| - 1], Flatten(lists[h]), h);
      var rs := OneIsImpatient(lists, h);
      assert ReRegisters(rs, lists);
    }
  }

  lemma AllPatientAmongOthers(rs: seq<Registration>, lists: map<Bytes, seq<Names>>)
    requires ReRegisters(rs, lists) && (forall h :: h in lists ==> lists[h] != []) && EachPatient(lists)
    ensures Right(After(rs).dependencyMap, After(rs).dMap)
  {
    hide After, History, Right, Patient;
    AfterFollows(rs);
    forall g | g in After(rs).dependencyMap
      ensures Patient(After(rs).dependencyMap[g], Flatten(History(rs, g)), g)
    {
      if g !in lists {
        assert |History(rs, g)| == 1;
        OnceIsPatient(History(rs, g), g);
      }
    }
    PatientHistoriesSortRight(rs);
  }

  function AllRepeated(keys: Names, lists: map<Bytes, seq<Names>>): seq<Registration>
    requires forall k :: k in keys ==> k in lists
  {
    if keys == [] then []
    else
      var before, last := keys[..|keys| - 1], keys[|keys| - 1];
      AllRepeated(before, lists) + Repeated(last, lists[last])
  }

  lemma {:induction false} HistoryWithAll(rs: seq<Registration>, keys: Names, lists: map<Bytes, seq<Names>>, g: Bytes)
    requires Distinct(keys) && forall k :: k in keys ==> k in lists
    ensures History(rs + AllRepeated(keys, lists), g) == History(rs, g) + (if g in keys then lists[g] else [])
  {
    hide History, Repeated;
    if keys == [] {
      assert rs + AllRepeated(keys, lists) == rs && History(rs, g) + [] == History(rs, g);
    } else {
      var before, last := keys[..|keys| - 1], keys[|keys| - 1];
      assert keys == before + [last];
      HistoryWithAll(rs, before, lists, g);
      HistoryWithRepeated(rs + AllRepeated(before, lists), last, lists[last], g);
      assert rs + AllRepeated(keys, lists) == rs + AllRepeated(before, lists) + Repeated(last, lists[last]);
      assert History(rs, g) + [] == History(rs, g);
      assert g in before || g == last ==> History(rs, g) + lists[g] + [] == History(rs, g) + lists[g];
    }
  }

  /** The history of each name when that handler is impatient. */
  function Arranged(lists: map<Bytes, seq<Names>>, x: Bytes, h: Bytes, names: Names, g: Bytes): seq<Names> {
    if g in lists then lists[g] else if g == x then [[h]] else if g in names then [[]] else []
  }

  function Entries(lists: map<Bytes, seq<Names>>, x: Bytes): set<Bytes> {
    set h, y | h in lists && y in Flatten(lists[h]) && y != x :: y
  }

  /** The missing dependency depends on the impatient handler, and all other names on nothing: everything comes out,
      though no order exists. */
  lemma OneIsImpatient(lists: map<Bytes, seq<Names>>, h: Bytes) returns (rs: seq<Registration>)
    requires Apart(lists) && (forall g :: g in lists ==> lists[g] != []) && h in lists
    requires !Patient(lists[h][|lists[h]| - 1], Flatten(lists[h]), h)
    ensures ReRegisters(rs, lists) && !Right(After(rs).dependencyMap, After(rs).dMap)
  {
    hide Right, After, Singles, AllRepeated, History;
    var x := TooManyWaiting(lists[h][|lists[h]| - 1], Flatten(lists[h]), h);
    hide Patient, Waiting;
    LastIsListed(lists[h], x);
    EntriesAreApart(lists, h, x);
    hide Flatten, Apart, Entries, Distinct;
    var names, keys := SortedKeys(Entries(lists, x)), SortedKeys(lists.Keys);
    AscendingIsDistinct(names);
    AscendingIsDistinct(keys);
    rs := Singles(names) + [Registration(x, [h])] + AllRepeated(keys, lists);
    HistoryOfAll(names, x, h, keys, lists);
    OthersAtMostOnce(rs, lists, x, h, names);
    EverythingComesOut(rs, lists, h, x, names);
  }

  lemma EntriesAreApart(lists: map<Bytes, seq<Names>>, h: Bytes, x: Bytes)
    requires Apart(lists) && h in lists && x in Flatten(lists[h])
    ensures x !in lists && x !in Entries(lists, x) && forall y :: y in Entries(lists, x) ==> y !in lists
  {
    hide Flatten;
  }

  lemma OthersAtMostOnce(rs: seq<Registration>, lists: map<Bytes, seq<Names>>, x: Bytes, h: Bytes, names: Names)
    requires forall g :: History(rs, g) == Arranged(lists, x, h, names, g)
    ensures ReRegisters(rs, lists)
  {
    hide History;
  }

  lemma LastIsListed(lists: seq<Names>, x: Bytes)
    requires lists != [] && x in lists[|lists| - 1]
    ensures x in Flatten(lists)
  {
  }

  lemma HistoryOfAll(names: Names, x: Bytes, h: Bytes, keys: Names, lists: map<Bytes, seq<Names>>)
    requires Distinct(names) && Distinct(keys) && x !in names && x !in lists
    requires (forall k :: k in keys <==> k in lists) && forall k :: k in names ==> k !in lists
    ensures var rs := Singles(names) + [Registration(x, [h])] + AllRepeated(keys, lists);
      forall g :: History(rs, g) == Arranged(lists, x, h, names, g)
  {
    hide History, Singles, AllRepeated, Distinct;
    var rs := Singles(names) + [Registration(x, [h])];
    forall g
      ensures History(rs + AllRepeated(keys, lists), g) == Arranged(lists, x, h, names, g)
    {
      HistoryOfSingles(names, g);
      HistoryStep(Singles(names), Registration(x, [h]), g);
      HistoryWithAll(rs, keys, lists, g);
      assert forall l: seq<Names> :: [] + l == l && l + [] == l;
    }
  }

  lemma EverythingComesOut(rs: seq<Registration>, lists: map<Bytes, seq<Names>>, h: Bytes, x: Bytes, names: Names)
    requires Apart(lists) && (forall g :: g in lists ==> lists[g] != []) && h in lists
    requires x !in lists && x !in names && x in lists[h][|lists[h]| - 1]
    requires Waiting(Flatten(lists[h]), [x, h]) >= |lists[h][|lists[h]| - 1]|
    requires forall y :: y in names <==> y in Entries(lists, x)
    requires forall g :: History(rs, g) == Arranged(lists, x, h, names, g)
    ensures !Right(After(rs).dependencyMap, After(rs).dMap)
  {
    hide After, History, Waiting, Consistent, Flatten, Covers, Right;
    var m := After(rs);
    AfterFollows(rs);
    ListedFits(rs);
    assert forall g :: g in lists ==>
      m.dependencyMap[g] == lists[g][|lists[g]| - 1] && Listed(rs)[g] == Flatten(lists[g]);
    assert m.dependencyMap[x] == [h];
    forall g, y | g in lists && y in Listed(rs)[g]
      ensures y == x || y in names
    {
      assert y == x || y in Entries(lists, x);
    }
    forall y | y in names
      ensures y !in lists && m.dependencyMap[y] == []
    {
      assert y in Entries(lists, x);
    }
    ComesOutInACycle(m.dependencyMap, Listed(rs), m.dMap, lists.Keys, h, x, names);
  }

  lemma ComesOutInACycle(deps: map<Bytes, Names>, listed: map<Bytes, Names>, dMap: map<Bytes, Names>, again: set<Bytes>,
                         h: Bytes, x: Bytes, names: Names)
    requires Covers(deps, listed) && Consistent(listed, dMap)
    requires forall g :: g in deps <==> g in again || g == x || g in names
    requires h in again && x !in again && deps[x] == [h] && forall y :: y in names ==> y !in again && deps[y] == []
    requires forall g, y :: g in again && y in listed[g] ==> y == x || y in names
    requires x in deps[h] && Waiting(listed[h], [x, h]) >= |deps[h]|
    ensures !Right(deps, dMap)
  {
    hide Waiting, Sort, Consistent, Distinct, AllPatient, Left, IsOrder;
    var order := WhatComesOut(deps, listed, dMap);
    forall y | y in names
      ensures y in order
    {
      NothingLeft(deps, listed, order, y);
    }
    OthersAreDequeued(listed[h], order, x, h);
    NothingLeftOf(deps, listed, order, h, x);
    assert h in order;
    NothingLeft(deps, listed, order, x);
    forall g | g in again
      ensures g in order
    {
      assert EndsWith(listed[g], deps[g]);
      EndIsListed(listed[g], deps[g]);
      NothingLeft(deps, listed, order, g);
    }
    assert Sort(deps, dMap) == Some(order);
    if IsOrder(deps, order) {
      EachBeforeTheOther(deps, order, h, x);
    }
  }

  lemma NothingLeftOf(deps: map<Bytes, Names>, listed: map<Bytes, Names>, order: Names, h: Bytes, x: Bytes)
    requires Covers(deps, listed) && h in deps && Waiting(listed[h], [x, h]) >= |deps[h]|
    requires Waiting(listed[h], order) + Waiting(listed[h], [x, h]) <= |listed[h]|
    ensures Left(deps, listed, order, h) <= 0
  {
    hide Waiting;
  }

  lemma EndIsListed(all: Names, ds: Names)
    requires EndsWith(all, ds)
    ensures forall d :: d in ds ==> d in all
  {
    assert all == all[..|all| - |ds|] + ds;
  }

  lemma EachBeforeTheOther(deps: map<Bytes, Names>, order: Names, h: Bytes, x: Bytes)
    requires h in deps && x in deps && x in deps[h] && h in deps[x]
    ensures !IsOrder(deps, order)
  {
    hide IsOrder;
    if IsOrder(deps, order) {
      var i, j := Places(deps, order, h, x);
      var k, l := Places(deps, order, x, h);
      assert false;
    }
  }

  lemma Places(deps: map<Bytes, Names>, order: Names, h: Bytes, x: Bytes) returns (i: nat, j: nat)
    requires IsOrder(deps, order) && h in deps && x in deps[h]
    ensures j < i < |order| && order[i] == h && order[j] == x
    ensures forall k :: 0 <= k < |order| && order[k] == h ==> k == i
    ensures forall k :: 0 <= k < |order| && order[k] == x ==> k == j
  {
    i :| 0 <= i < |order| && order[i] == h;
    assert x in order[..i];
    j :| 0 <= j < i && order[..i][j] == x;
    assert order[j] == x;
  }

  // ---- the condition in numbers

  lemma {:induction false} WaitingCounts(all: Names, x: Bytes, h: Bytes)
    ensures Waiting(all, [x, h]) == |all| - multiset(all)[x] - if x == h then 0 else multiset(all)[h]
  {
    if all != [] {
      WaitingCounts(all[1..], x, h);
      assert all == [all[0]] + all[1..];
    }
  }

  /** A handler that lists itself never comes out before itself; one registered with `before` and then with `now`, and
      in neither, is patient exactly if each dependency has more entries in the new list than the old one has others. */
  lemma PatientInNumbers(before: Names, now: Names, h: Bytes)
    requires h !in before && h !in now
    ensures Patient(now, Flatten([before, now]), h) <==>
      forall x :: x in now ==> multiset(now)[x] > |before| - multiset(before)[x]
  {
    FlattenTwo(before, now);
    var all := before + now;
    forall x
      ensures Waiting(all, [x, h]) == |all| - multiset(before)[x] - multiset(now)[x]
    {
      WaitingCounts(all, x, h);
      assert multiset(all) == multiset(before) + multiset(now);
      assert h !in all;
    }
  }

  lemma FlattenTwo(before: Names, now: Names)
    ensures Flatten([before, now]) == before + now
  {
    FlattenWithLast([], before);
    FlattenWithLast([before], now);
    assert [] + [before] == [before] && [before] + [now] == [before, now] && [] + before == before;
  }

  // ---- an example

  const A: Bytes := [0x41]
  const B: Bytes := [0x42]
  const C: Bytes := [0x43]

  /** A registered as depending on B and then again as depending on B and C, where C depends on B. */
  const TWICE_HISTORY: seq<Registration> :=
    [Registration(A, [B]), Registration(A, [B, C]), Registration(C, [B]), Registration(B, [])]

  const TWICE: map<Bytes, Names> := map[A := [B, C], B := [], C := [B]]
  const TWICE_REVERSE: map<Bytes, Names> := map[B := [A, A, C], C := [A]]

  lemma OnlyOne(q: Names, b: Bytes)
    requires Distinct(q) && forall h :: h in q <==> h == b
    ensures q == [b]
  {
    assert b in q;
    DistinctCount(q);
    assert (set x | x in q) == {b};
    assert q[0] in q;
  }

  lemma Lowered(a: int, c: int, q: Names)
    ensures Decrement(Tally(map[A := a, B := 0, C := c], q), A) ==
      Tally(map[A := a - 1, B := 0, C := c], if a == 1 then q + [A] else q)
    ensures Decrement(Tally(map[A := a, B := 0, C := c], q), C) ==
      Tally(map[A := a, B := 0, C := c - 1], if c == 1 then q + [C] else q)
  {
  }

  lemma NotifyThree()
    ensures Notify(Tally(Degrees(TWICE), []), [A, A, C]) == Tally(map[A := 0, B := 0, C := 0], [A, C])
  {
    hide Notify, Decrement;
    var d, ds := Degrees(TWICE), [A, A, C];
    assert d == map[A := 2, B := 0, C := 1];
    var none: Names := [];
    assert ds[0..] == ds && none + [A] == [A] && [A] + [C] == [A, C];
    NotifyStep(Tally(d, none), ds, 0);
    Lowered(2, 1, none);
    var t1 := Tally(map[A := 1, B := 0, C := 1], []);
    NotifyStep(t1, ds, 1);
    Lowered(1, 1, none);
    var t2 := Tally(map[A := 0, B := 0, C := 1], [A]);
    NotifyStep(t2, ds, 2);
    Lowered(0, 1, [A]);
    NotifyNone(Tally(map[A := 0, B := 0, C := 0], [A, C]), ds, 3);
  }

  lemma LastTwo(t: Tally)
    requires t == Tally(map[A := 0, B := 0, C := 0], [A, C])
    ensures Drain(TWICE_REVERSE, t, [B]) == [B, A, C]
  {
    hide Drain, Notify;
    var ds := [A];
    assert Dependents(TWICE_REVERSE, A) == [] && Dependents(TWICE_REVERSE, C) == ds;
    DrainStep(TWICE_REVERSE, t, [B]);
    assert [A, C][1..] == [C] && [C][1..] == [] && ds[0..] == ds;
    var t' := Tally(t.counts, [C]);
    var none: Names := [];
    NotifyNone(t', none, 0);
    assert none[0..] == none;
    assert Drain(TWICE_REVERSE, t, [B]) == Drain(TWICE_REVERSE, t', [B] + [A]);
    DrainStep(TWICE_REVERSE, t', [B, A]);
    NotifyStep(Tally(t.counts, []), ds, 0);
    var last := Decrement(Tally(t.counts, []), A);
    NotifyNone(last, ds, 1);
    assert Notify(Tally(t.counts, []), ds) == last;
    assert last.queue == [];
    DrainNone(TWICE_REVERSE, last, [B, A] + [C]);
    assert [B] + [A] == [B, A];
    assert Drain(TWICE_REVERSE, t', [B, A]) == Drain(TWICE_REVERSE, last, [B, A] + [C]);
  }

  lemma OtherOrder()
    ensures IsOrder(TWICE, [B, C, A])
  {
    var o := [B, C, A];
    assert o[..0] == [] && o[..1] == [B] && o[..2] == [B, C];
    assert TWICE[B] == [] && TWICE[C] == [B] && TWICE[A] == [B, C];
    assert Respects(TWICE, o);
  }

  lemma OnlyBIsReady()
    ensures Start(TWICE) == Tally(Degrees(TWICE), [B])
  {
    hide SortedKeys, Independent, Degrees;
    var keys := SortedKeys(TWICE.Keys);
    AscendingIsDistinct(keys);
    IndependentIsDistinct(TWICE, keys);
    OnlyOne(Independent(TWICE, keys), B);
  }

  lemma ABeforeC()
    ensures !IsOrder(TWICE, [B, A, C])
  {
    var o := [B, A, C];
    assert o[..1] == [B] && TWICE[A] == [B, C];
    assert o[1] == A && C in TWICE[o[1]] && C !in o[..1];
  }

  lemma NamesDiffer()
    ensures A != B && A != C && B != C
  {
    assert A[0] != B[0] && B[0] != C[0] && A[0] != C[0];
  }

  lemma FirstHalf()
    ensures After([Registration(A, [B]), Registration(A, [B, C])]) == Maps(map[A := [B, C]], map[B := [A, A], C := [A]])
  {
    hide After, Joined;
    var r1, r2 := Registration(A, [B]), Registration(A, [B, C]);
    NamesDiffer();
    AfterNone();
    AfterOneMore([], r1);
    AfterOneMore([r1], r2);
    assert [] + [r1] == [r1] && [r1] + [r2] == [r1, r2];
    JoinedOneOrTwo(map[], A, B, B);
    assert map[][A := [B]] == map[A := [B]] && map[][B := [A]] == map[B := [A]] && [] + [A] == [A];
    JoinedOneOrTwo(map[B := [A]], A, B, C);
    assert map[A := [B]][A := [B, C]] == map[A := [B, C]] && [A] + [A] == [A, A];
    assert map[B := [A]][B := [A, A]][C := [A]] == map[B := [A, A], C := [A]];
  }

  lemma TwiceIsReached()
    ensures After(TWICE_HISTORY) == Maps(TWICE, TWICE_REVERSE)
  {
    hide After, Joined;
    var half := [Registration(A, [B]), Registration(A, [B, C])];
    var r3, r4 := Registration(C, [B]), Registration(B, []);
    NamesDiffer();
    FirstHalf();
    AfterOneMore(half, r3);
    AfterOneMore(half + [r3], r4);
    assert half + [r3] + [r4] == TWICE_HISTORY;
    JoinedOneOrTwo(map[B := [A, A], C := [A]], C, B, B);
    TheirMaps();
    JoinedNone(TWICE_REVERSE, B);
  }

  lemma TheirMaps()
    ensures map[B := [A, A], C := [A]][B := [A, A] + [C]] == TWICE_REVERSE
    ensures map[A := [B, C]][C := [B]][B := []] == TWICE
  {
    NamesDiffer();
    assert [A, A] + [C] == [A, A, C];
  }

  lemma AfterNone()
    ensures After([]) == Maps(map[], map[])
  {
  }

  lemma AfterOneMore(rs: seq<Registration>, r: Registration)
    ensures After(rs + [r]) == Register(After(rs), r)
  {
    assert (rs + [r])[..|rs|] == rs;
  }

  lemma JoinedOneOrTwo(d: map<Bytes, Names>, h: Bytes, a: Bytes, b: Bytes)
    ensures var e := d[a := Dependents(d, a) + [h]];
      Joined(d, h, [a]) == e && Joined(d, h, [a, b]) == e[b := Dependents(e, b) + [h]]
  {
    assert [a][..0] == [] && [a, b][..1] == [a];
  }

  /** These registrations leave the old edges behind, and A comes out before C. */
  lemma ReRegistrationBreaksTheOrder()
    ensures After(TWICE_HISTORY) == Maps(TWICE, TWICE_REVERSE)
    ensures Sort(TWICE, TWICE_REVERSE) == Some([B, A, C])
    ensures !IsOrder(TWICE, [B, A, C])
    ensures exists order :: IsOrder(TWICE, order)
  {
    hide Drain, Notify, Start, Degrees, IsOrder, After;
    TwiceIsReached();
    OnlyBIsReady();
    NotifyThree();
    DrainStep(TWICE_REVERSE, Start(TWICE), []);
    assert [B][1..] == [] && [] + [B] == [B];
    assert Dependents(TWICE_REVERSE, B) == [A, A, C];
    LastTwo(Notify(Tally(Degrees(TWICE), []), [A, A, C]));
    ABeforeC();
    OtherOrder();
  }
}
