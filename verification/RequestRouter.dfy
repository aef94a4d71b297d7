/** The router: routes in a multimap ordered by falling priority, searched from the front. */
module RequestRouter {
  import opened Strings
  import opened Router

  datatype Entry = Entry(priority: int, route: Route)

  // ----- the multimap

  predicate Sound(entries: seq<Entry>) {
    forall e | e in entries :: WellMade(e.route)
  }

  /** Where an entry with this priority goes: behind all that are not of lower priority. */
  function UpperBound(entries: seq<Entry>, priority: int): (k: nat)
    ensures k <= |entries|
  {
    if entries == [] || entries[0].priority < priority then 0 else 1 + UpperBound(entries[1..], priority)
  }

  function Insert<T>(s: seq<T>, k: nat, x: T): seq<T>
    requires k <= |s|
  {
    s[..k] + [x] + s[k..]
  }

  /** The multimap after the entries were added in this order. */
  function Build(added: seq<Entry>): (entries: seq<Entry>)
    ensures |entries| == |added|
    ensures Sound(added) ==> Sound(entries)
  {
    if added == [] then []
    else
      assert added[|added| - 1] in added;
      var before, last := Build(added[..|added| - 1]), added[|added| - 1];
      Insert(before, UpperBound(before, last.priority), last)
  }

  lemma BuildNext(added: seq<Entry>, e: Entry)
    ensures Build(added + [e]) == Insert(Build(added), UpperBound(Build(added), e.priority), e)
    ensures Sound(Build(added)) && WellMade(e.route) ==> Sound(Build(added + [e]))
  {
    assert (added + [e])[..|added|] == added;
  }

  // ----- the search

  datatype Found = Found(route: Option<Route>, level: MatchResult)

  /** find_route with the level reported so far. */
  function FindFrom(entries: seq<Entry>, path: string, verb: string, regex: Regex, best: MatchResult): Found
    requires Sound(entries)
  {
    if entries == [] then Found(None, best)
    else
      match Matches(entries[0].route, path, verb, regex)
      case FullMatch => Found(Some(entries[0].route), FullMatch)
      case PathMatch => FindFrom(entries[1..], path, verb, regex, PathMatch)
      case NoMatch => FindFrom(entries[1..], path, verb, regex, best)
  }

  class RequestRouter {
    var routes: seq<Entry>
    // all calls of add_route
    ghost var added: seq<Entry>

    ghost predicate Valid()
      reads this
    {
      routes == Build(added) && Sound(routes)
    }

    constructor ()
      ensures Valid() && added == []
    {
      routes, added := [], [];
    }

    method AddRoute(r: Route, priority: int)
      requires Valid() && WellMade(r)
      modifies this
      ensures Valid() && added == old(added) + [Entry(priority, r)]
    {
      hide Build;
      var k := 0;
      assert routes[0..] == routes;
      while k < |routes| && routes[k].priority >= priority
        invariant k <= |routes| && UpperBound(routes, priority) == k + UpperBound(routes[k..], priority)
      {
        assert routes[k..][1..] == routes[k + 1..];
        k := k + 1;
      }
      BuildNext(added, Entry(priority, r));
      routes := routes[..k] + [Entry(priority, r)] + routes[k..];
      added := added + [Entry(priority, r)];
    }

    method FindRoute(path: string, verb: string, regex: Regex) returns (found: Found)
      requires Valid()
      ensures found == FindFrom(routes, path, verb, regex, NoMatch)
    {
      var bestResult := NoMatch;
      for i := 0 to |routes|
        invariant FindFrom(routes, path, verb, regex, NoMatch) == FindFrom(routes[i..], path, verb, regex, bestResult)
      {
        assert routes[i] in routes;
        assert routes[i..][0] == routes[i] && routes[i..][1..] == routes[i + 1..];
        var matchLevel := MatchRoute(routes[i].route, path, verb, regex);
        if matchLevel == PathMatch {
          bestResult := PathMatch;
        } else if matchLevel == FullMatch {
          return Found(Some(routes[i].route), FullMatch);
        }
      }
      found := Found(None, bestResult);
    }
  }

  // ----- the multimap keeps priorities and, among equals, the order of insertion

  /** The calls of add_route, by number, in the order of the multimap. */
  function Order(added: seq<Entry>): (order: seq<nat>)
    ensures |order| == |added| && forall k :: 0 <= k < |order| ==> order[k] < |added|
  {
    if added == [] then []
    else
      var n := |added| - 1;
      Insert<nat>(Order(added[..n]), UpperBound(Build(added[..n]), added[n].priority), n)
  }

  /** Call i comes before call j in the multimap. */
  predicate Before(added: seq<Entry>, i: nat, j: nat)
    requires i < |added| && j < |added|
  {
    added[i].priority > added[j].priority || (added[i].priority == added[j].priority && i < j)
  }

  ghost predicate IsOrderOf(order: seq<nat>, added: seq<Entry>) {
    && |order| == |added|
    && (forall k :: 0 <= k < |order| ==> order[k] < |added|)
    && (forall i :: 0 <= i < |added| ==> i in order)
    && (forall k, m :: 0 <= k < m < |order| ==> Before(added, order[k], order[m]))
  }

  ghost predicate Sorted(entries: seq<Entry>) {
    forall k, m :: 0 <= k < m < |entries| ==> entries[k].priority >= entries[m].priority
  }

  lemma {:induction false} UpperBoundSplits(entries: seq<Entry>, priority: int)
    requires Sorted(entries)
    ensures var k := UpperBound(entries, priority);
            && (forall i :: 0 <= i < k ==> entries[i].priority >= priority)
            && (forall i :: k <= i < |entries| ==> entries[i].priority < priority)
    decreases |entries|
  {
    if entries != [] && entries[0].priority >= priority {
      assert forall i :: 0 < i < |entries| ==> entries[i] == entries[1..][i - 1];
      UpperBoundSplits(entries[1..], priority);
    }
  }

  lemma InsertAt<T>(s: seq<T>, k: nat, x: T)
    requires k <= |s|
    ensures var t := Insert(s, k, x);
            && |t| == |s| + 1 && t[k] == x
            && (forall i :: 0 <= i < k ==> t[i] == s[i])
            && (forall i :: k < i < |t| ==> t[i] == s[i - 1])
  {}

  lemma OrderCovers(order: seq<nat>, n: nat, k: nat)
    requires k <= |order| && forall i :: 0 <= i < n ==> i in order
    ensures forall i :: 0 <= i <= n ==> i in Insert<nat>(order, k, n)
  {
    forall i | 0 <= i <= n
      ensures i in Insert<nat>(order, k, n)
    {
      if i < n {
        assert i in order;
        assert order == order[..k] + order[k..];
      }
    }
  }

  lemma OrderStaysSorted(order: seq<nat>, added: seq<Entry>, k: nat)
    requires added != [] && k <= |order| && (forall i :: 0 <= i < |order| ==> order[i] < |added| - 1)
    requires forall i, m :: 0 <= i < m < |order| ==> Before(added, order[i], order[m])
    requires forall i :: 0 <= i < k ==> added[order[i]].priority >= added[|added| - 1].priority
    requires forall i :: k <= i < |order| ==> added[order[i]].priority < added[|added| - 1].priority
    ensures var o := Insert<nat>(order, k, |added| - 1);
            && (forall i :: 0 <= i < |o| ==> o[i] < |added|)
            && forall i, m :: 0 <= i < m < |o| ==> Before(added, o[i], o[m])
  {
    InsertAt<nat>(order, k, |added| - 1);
    hide Insert;
  }

  /** The multimap holds exactly the added entries, each once, ordered by priority and then by the
      time they were added. */
  lemma {:induction false} BuildIsOrdered(added: seq<Entry>)
    ensures IsOrderOf(Order(added), added)
    ensures forall k :: 0 <= k < |added| ==> Build(added)[k] == added[Order(added)[k]]
    ensures Sorted(Build(added))
    decreases |added|
  {
    hide UpperBound, Insert;
    if added != [] {
      var n := |added| - 1;
      var earlier, last := added[..n], added[n];
      BuildIsOrdered(earlier);
      var k := UpperBound(Build(earlier), last.priority);
      UpperBoundSplits(Build(earlier), last.priority);
      InsertKeepsOrder(Build(earlier), Order(earlier), added, k);
    }
  }

  lemma InsertKeepsOrder(entries: seq<Entry>, order: seq<nat>, added: seq<Entry>, k: nat)
    requires added != [] && |entries| == |added| - 1 && k <= |entries|
    requires IsOrderOf(order, added[..|added| - 1])
    requires forall i :: 0 <= i < |entries| ==> entries[i] == added[order[i]]
    requires forall i :: 0 <= i < k ==> entries[i].priority >= added[|added| - 1].priority
    requires forall i :: k <= i < |entries| ==> entries[i].priority < added[|added| - 1].priority
    ensures var o, e := Insert<nat>(order, k, |added| - 1), Insert<Entry>(entries, k, added[|added| - 1]);
            && IsOrderOf(o, added) && |e| == |added| && Sorted(e)
            && forall i :: 0 <= i < |e| ==> e[i] == added[o[i]]
  {
    hide Insert;
    var n := |added| - 1;
    forall i, m | 0 <= i < m < |order|
      ensures Before(added, order[i], order[m])
    {
      assert Before(added[..n], order[i], order[m]);
    }
    OrderStaysSorted(order, added, k);
    OrderCovers(order, n, k);
    InsertAt<nat>(order, k, n);
    InsertAt<Entry>(entries, k, added[n]);
    var o, e := Insert<nat>(order, k, n), Insert<Entry>(entries, k, added[n]);
    forall i | 0 <= i < |e|
      ensures e[i] == added[o[i]]
    {
      if i < k {
        assert e[i] == entries[i];
        assert o[i] == order[i];
      } else if i == k {
        assert e[i] == added[n];
        assert o[i] == n;
      } else {
        assert e[i] == entries[i - 1];
        assert o[i] == order[i - 1];
      }
    }
    forall i, m | 0 <= i < m < |e|
      ensures e[i].priority >= e[m].priority
    {
      assert Before(added, o[i], o[m]);
    }
  }

  // ----- what the search returns

  predicate IsFull(e: Entry, path: string, verb: string, regex: Regex)
    requires WellMade(e.route)
  {
    PathMatches(e.route, path, regex) && verb == e.route.verb
  }

  /** The route matches the path, but has another method. */
  predicate IsOther(e: Entry, path: string, verb: string, regex: Regex)
    requires WellMade(e.route)
  {
    PathMatches(e.route, path, regex) && verb != e.route.verb
  }

  /** The search stops at the first full match; without one, it reports whether a path matched. */
  lemma {:induction false} FindIsFirst(entries: seq<Entry>, path: string, verb: string, regex: Regex, best: MatchResult)
    requires Sound(entries)
    ensures var f := FindFrom(entries, path, verb, regex, best);
            if f.route.Some? then
              && f.level == FullMatch
              && exists k :: 0 <= k < |entries| && f.route.value == entries[k].route && IsFull(entries[k], path, verb, regex)
                   && forall m :: 0 <= m < k ==> !IsFull(entries[m], path, verb, regex)
            else
              && (forall k :: 0 <= k < |entries| ==> !IsFull(entries[k], path, verb, regex))
              && f.level == if exists k :: 0 <= k < |entries| && IsOther(entries[k], path, verb, regex)
                            then PathMatch else best
    decreases |entries|
  {
    hide Matches, PathMatches;
    if entries != [] {
      assert entries[0] in entries;
      MatchesExactly(entries[0].route, path, verb, regex);
      var m := Matches(entries[0].route, path, verb, regex);
      var rest := entries[1..];
      assert forall k :: 0 < k < |entries| ==> entries[k] == rest[k - 1];
      if m != FullMatch {
        var next := if m == PathMatch then PathMatch else best;
        FindIsFirst(rest, path, verb, regex, next);
        var f := FindFrom(rest, path, verb, regex, next);
        if f.route.Some? {
          var k :| 0 <= k < |rest| && f.route.value == rest[k].route && IsFull(rest[k], path, verb, regex)
                   && forall m :: 0 <= m < k ==> !IsFull(rest[m], path, verb, regex);
          assert entries[k + 1] == rest[k];
        } else {
          assert (exists k :: 0 <= k < |entries| && IsOther(entries[k], path, verb, regex))
              <==> m == PathMatch || (exists k :: 0 <= k < |rest| && IsOther(rest[k], path, verb, regex));
        }
      } else {
        assert IsFull(entries[0], path, verb, regex);
      }
    }
  }

  /** Routing refines its specification: after any sequence of add_route calls the search returns the
      full match that no other full match precedes, by priority and then by the time it was added;
      without any full match it reports a path match exactly when some route matches the path. */
  lemma RoutingSpecification(added: seq<Entry>, path: string, verb: string, regex: Regex)
    requires Sound(added)
    ensures var f := FindFrom(Build(added), path, verb, regex, NoMatch);
            if f.route.Some? then
              && f.level == FullMatch
              && exists i :: 0 <= i < |added| && f.route.value == added[i].route && IsFull(added[i], path, verb, regex)
                   && forall j :: 0 <= j < |added| && j != i && IsFull(added[j], path, verb, regex) ==> Before(added, i, j)
            else
              && (forall i :: 0 <= i < |added| ==> !IsFull(added[i], path, verb, regex))
              && f.level == if exists i :: 0 <= i < |added| && IsOther(added[i], path, verb, regex)
                            then PathMatch else NoMatch
  {
    hide Build, Order, FindFrom, Before, IsFull, IsOther;
    var entries := Build(added);
    FindIsFirst(entries, path, verb, regex, NoMatch);
    SameEntries(added);
    var f := FindFrom(entries, path, verb, regex, NoMatch);
    if f.route.Some? {
      var k :| 0 <= k < |entries| && f.route.value == entries[k].route && IsFull(entries[k], path, verb, regex)
               && forall m :: 0 <= m < k ==> !IsFull(entries[m], path, verb, regex);
      var i := FirstFullIsEarliest(added, k, path, verb, regex);
    } else {
      SameLevel(entries, added, path, verb, regex);
      SameLevel(added, entries, path, verb, regex);
      forall i | 0 <= i < |added|
        ensures !IsFull(added[i], path, verb, regex)
      {
        assert added[i] in entries;
      }
    }
  }

  lemma SameEntries(added: seq<Entry>)
    ensures forall e :: e in Build(added) <==> e in added
  {
    hide Build, Order, Before;
    BuildIsOrdered(added);
    forall e
      ensures e in Build(added) <==> e in added
    {
      if i :| 0 <= i < |added| && added[i] == e {
        assert i in Order(added);
        var k :| 0 <= k < |added| && Order(added)[k] == i;
        assert Build(added)[k] == e;
      }
    }
  }

  lemma SameLevel(a: seq<Entry>, b: seq<Entry>, path: string, verb: string, regex: Regex)
    requires Sound(a) && Sound(b) && forall e :: e in a ==> e in b
    ensures (exists i :: 0 <= i < |a| && IsOther(a[i], path, verb, regex))
        ==> (exists i :: 0 <= i < |b| && IsOther(b[i], path, verb, regex))
  {
    hide IsOther;
    if i :| 0 <= i < |a| && IsOther(a[i], path, verb, regex) {
      assert a[i] in b;
    }
  }

  lemma FirstFullIsEarliest(added: seq<Entry>, k: nat, path: string, verb: string, regex: Regex) returns (i: nat)
    requires Sound(added) && k < |added| && IsFull(Build(added)[k], path, verb, regex)
    requires forall m :: 0 <= m < k ==> !IsFull(Build(added)[m], path, verb, regex)
    ensures i < |added| && added[i] == Build(added)[k]
    ensures forall j :: 0 <= j < |added| && j != i && IsFull(added[j], path, verb, regex) ==> Before(added, i, j)
  {
    hide Build, Order, IsFull, Before;
    var order := Order(added);
    BuildIsOrdered(added);
    i := order[k];
    forall j | 0 <= j < |added| && j != i && IsFull(added[j], path, verb, regex)
      ensures Before(added, i, j)
    {
      assert j in order;
      var m :| 0 <= m < |order| && order[m] == j;
      assert !(m < k) && Before(added, order[k], order[m]);
    }
  }
}
