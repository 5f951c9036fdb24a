/**
 * The registry of live connections. It is a set of connection handles that
 * connections add themselves to and remove themselves from, and that
 * broadcast and unicast walk to reach other connections.
 *
 * The source's mutex makes every operation one atomic step, so each method
 * here is one step. A handle is the connection's shared pointer, and
 * `std::set` orders those by address, so the model uses an integer handle
 * and visits handles in ascending order.
 */
module ConnectionRegistry {

  type Handle = int

  /** Strictly ascending: every handle appears at most once, in set order. */
  predicate Increasing(xs: seq<Handle>) {
    forall i, j :: 0 <= i < j < |xs| ==> xs[i] < xs[j]
  }

  /** A non-empty set has a member. */
  lemma Inhabited(s: set<Handle>)
    requires s != {}
    ensures exists x :: x in s
  {
    if forall x :: x !in s {
      assert false;
    }
  }

  lemma AppendAssoc(a: seq<Handle>, b: seq<Handle>, c: seq<Handle>)
    ensures a + b + c == a + (b + c)
  {
  }

  /** A handle below every handle of an ascending sequence can lead it. */
  lemma IncreasingCons(a: Handle, xs: seq<Handle>)
    requires Increasing(xs)
    requires forall x :: x in xs ==> a < x
    ensures Increasing([a] + xs)
  {
    forall i, j | 0 <= i < j < |[a] + xs|
      ensures ([a] + xs)[i] < ([a] + xs)[j]
    {
      assert ([a] + xs)[j] == xs[j - 1];
      if i > 0 {
        assert ([a] + xs)[i] == xs[i - 1];
      } else {
        assert xs[j - 1] in xs;
      }
    }
  }

  /** Splitting off one handle `y`: the smaller of `y` and the least of the
      others is the least of all. */
  lemma LeastOfSplit(s: set<Handle>, y: Handle, m: Handle)
    requires y in s && m in s - {y}
    requires forall x :: x in s - {y} ==> m <= x
    ensures forall x :: x in s ==> (if y < m then y else m) <= x
  {
    forall x | x in s
      ensures (if y < m then y else m) <= x
    {
      if x != y {
        assert x in s - {y};
      }
    }
  }

  /** The first handle `std::set` iteration reaches. */
  ghost function Least(s: set<Handle>): (m: Handle)
    requires s != {}
    ensures m in s && forall x :: x in s ==> m <= x
    decreases s
  {
    Inhabited(s);
    var y :| y in s;
    if s == {y} then
      y
    else
      var m := Least(s - {y});
      LeastOfSplit(s, y, m);
      if y < m then y else m
  }

  /** The order in which iteration over the set visits its handles. */
  ghost function Ascending(s: set<Handle>): (r: seq<Handle>)
    ensures Increasing(r)
    ensures forall x :: x in r <==> x in s
    ensures |r| == |s|
    decreases s
  {
    if s == {} then
      []
    else
      var m := Least(s);
      [m] + Ascending(s - {m})
  }

  /** Iteration starts at the least handle and goes on with the others. */
  lemma AscendingFirst(s: set<Handle>, c: Handle)
    requires c in s && forall x :: x in s ==> c <= x
    ensures Ascending(s) == [c] + Ascending(s - {c})
  {
    assert Least(s) == c;
  }

  /** The handles of `xs` that satisfy `p`, in the order of `xs`. */
  function Filter(xs: seq<Handle>, p: Handle -> bool): (r: seq<Handle>)
    ensures forall x :: x in r <==> x in xs && p(x)
    ensures Increasing(xs) ==> Increasing(r)
  {
    if xs == [] then
      []
    else
      var rest := Filter(xs[1..], p);
      if p(xs[0]) then
        if Increasing(xs) then
          assert forall x :: x in xs[1..] ==> xs[0] < x by {
            assert forall i :: 1 <= i < |xs| ==> xs[0] < xs[i];
          }
          IncreasingCons(xs[0], rest);
          [xs[0]] + rest
        else
          [xs[0]] + rest
      else
        rest
  }

  /** Filtering a sequence that starts with `c`. */
  lemma FilterCons(c: Handle, xs: seq<Handle>, p: Handle -> bool)
    ensures p(c) ==> Filter([c] + xs, p) == [c] + Filter(xs, p)
    ensures !p(c) ==> Filter([c] + xs, p) == Filter(xs, p)
  {
    assert ([c] + xs)[0] == c;
    assert ([c] + xs)[1..] == xs;
  }

  /** The first handle of an ascending sequence is its least. */
  lemma HeadIsLeast(xs: seq<Handle>, s: set<Handle>)
    requires Increasing(xs) && xs != []
    requires forall x :: x in xs <==> x in s
    ensures xs[0] in s && forall x :: x in s ==> xs[0] <= x
  {
    assert xs[0] in xs;
    forall x | x in s
      ensures xs[0] <= x
    {
      assert x in xs;
      var k :| 0 <= k < |xs| && xs[k] == x;
      assert k == 0 || xs[0] < xs[k];
    }
  }

  /** The rest of an ascending sequence holds the other handles. */
  lemma TailHoldsRest(xs: seq<Handle>, s: set<Handle>)
    requires Increasing(xs) && xs != []
    requires forall x :: x in xs <==> x in s
    ensures Increasing(xs[1..])
    ensures forall x :: x in xs[1..] <==> x in s - {xs[0]}
  {
    forall x
      ensures x in xs[1..] <==> x in s - {xs[0]}
    {
      if x in xs[1..] {
        var k :| 0 <= k < |xs[1..]| && xs[1..][k] == x;
        assert xs[k + 1] == x && xs[0] < xs[k + 1];
      }
      if x in s - {xs[0]} {
        assert x in xs;
        var k :| 0 <= k < |xs| && xs[k] == x;
        assert k != 0 && xs[1..][k - 1] == x;
      }
    }
  }

  /** An ascending sequence whose tail is the visit order of the other
      handles is the visit order of them all. */
  lemma AscendingStep(xs: seq<Handle>, s: set<Handle>)
    requires Increasing(xs) && xs != []
    requires forall x :: x in xs <==> x in s
    requires xs[1..] == Ascending(s - {xs[0]})
    ensures xs == Ascending(s)
  {
    var c := xs[0];
    assert Ascending(s) == [c] + Ascending(s - {c}) by {
      HeadIsLeast(xs, s);
      AscendingFirst(s, c);
    }
    assert xs == [c] + xs[1..];
  }

  /** A strictly ascending sequence is determined by the handles it holds. */
  lemma {:induction false} AscendingUnique(xs: seq<Handle>, s: set<Handle>)
    requires Increasing(xs)
    requires forall x :: x in xs <==> x in s
    ensures xs == Ascending(s)
    decreases |xs|
  {
    if xs == [] {
      assert forall x :: x !in s;
      assert s == {};
    } else {
      TailHoldsRest(xs, s);
      AscendingUnique(xs[1..], s - {xs[0]});
      AscendingStep(xs, s);
    }
  }

  /** Filtering the visit order gives the visit order of the matching handles. */
  lemma FilterAscending(s: set<Handle>, p: Handle -> bool)
    ensures Filter(Ascending(s), p) == Ascending(set x | x in s && p(x))
  {
    AscendingUnique(Filter(Ascending(s), p), set x | x in s && p(x));
  }

  /** A predicate that holds everywhere filters nothing out. */
  lemma {:induction false} FilterAll(xs: seq<Handle>, p: Handle -> bool)
    requires forall x :: p(x)
    ensures Filter(xs, p) == xs
  {
    if xs != [] {
      FilterAll(xs[1..], p);
      assert xs == [xs[0]] + xs[1..];
    }
  }

  class ConnectionManager {
    /** `m_connections`: the registered handles. */
    var connections: set<Handle>

    constructor ()
      ensures connections == {}
    {
      connections := {};
    }

    /** `add`: insert the handle; inserting one already present changes
        nothing. */
    method Add(connection: Handle)
      modifies this
      ensures connections == old(connections) + {connection}
      ensures connection in connections
      ensures connection in old(connections) ==> connections == old(connections)
    {
      connections := connections + {connection};
    }

    /** `remove`: erase the handle if it is present; removing an absent
        handle is a no-op. */
    method Remove(connection: Handle)
      modifies this
      ensures connections == old(connections) - {connection}
      ensures connection !in old(connections) ==> connections == old(connections)
    {
      if connection in connections {
        connections := connections - {connection};
      }
    }

    /** `forEach`: call the function once on every registered handle in set
        order; `visited` is the sequence of handles it is called on. The
        registry is not changed. */
    method ForEach() returns (visited: seq<Handle>)
      ensures visited == Ascending(connections)
      ensures Increasing(visited)
      ensures forall c :: c in visited <==> c in connections
    {
      visited := [];
      var remaining := connections;
      while remaining != {}
        invariant remaining <= connections
        invariant visited + Ascending(remaining) == Ascending(connections)
        decreases remaining
      {
        Inhabited(remaining);
        ghost var least := Least(remaining);
        var c :| c in remaining && forall x :: x in remaining ==> c <= x;
        AscendingFirst(remaining, c);
        AppendAssoc(visited, [c], Ascending(remaining - {c}));
        visited := visited + [c];
        remaining := remaining - {c};
      }
    }

    /** `forEachIf`: call the function on every registered handle that
        satisfies `matches`, in set order, each once; every match is
        visited, not only the first. The registry is not changed. */
    method ForEachIf(matches: Handle -> bool) returns (visited: seq<Handle>)
      ensures visited == Filter(Ascending(connections), matches)
      ensures Increasing(visited)
      ensures forall c :: c in visited <==> c in connections && matches(c)
    {
      visited := [];
      var remaining := connections;
      while remaining != {}
        invariant remaining <= connections
        invariant visited + Filter(Ascending(remaining), matches)
               == Filter(Ascending(connections), matches)
        decreases remaining
      {
        Inhabited(remaining);
        ghost var least := Least(remaining);
        var c :| c in remaining && forall x :: x in remaining ==> c <= x;
        AscendingFirst(remaining, c);
        FilterCons(c, Ascending(remaining - {c}), matches);
        if matches(c) {
          AppendAssoc(visited, [c], Filter(Ascending(remaining - {c}), matches));
          visited := visited + [c];
        }
        remaining := remaining - {c};
      }
    }
  }

  /** Registering a new handle and removing it again restores the registry. */
  method AddThenRemove(registry: ConnectionManager, connection: Handle)
    requires connection !in registry.connections
    modifies registry
    ensures registry.connections == old(registry.connections)
  {
    registry.Add(connection);
    registry.Remove(connection);
  }

  /** `forEachIf` with a predicate that always holds visits exactly what
      `forEach` visits. */
  lemma ForEachIfAllIsForEach(s: set<Handle>, p: Handle -> bool)
    requires forall x :: p(x)
    ensures Filter(Ascending(s), p) == Ascending(s)
  {
    FilterAll(Ascending(s), p);
  }
}
