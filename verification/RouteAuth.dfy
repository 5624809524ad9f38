/**
 The route authentication gate of scripts/check_route_auth.py: a depth-first search of a route's
 dependency tree in which all recursive calls share one set of calls already seen.

 Main results: on trees in which a call determines its sub-dependencies, the search finds an
 authentication call exactly when one is reachable through calls (`SearchFindsAuthIff`); on any
 tree it is exact whichever calls authenticate, if and only if it looks at every call that can
 be reached (`ExactEverywhereIff`).
 */
module RouteAuth {
  import opened Wrappers

  const AUTH_FUNC_NAMES: set<string> := {
    "get_current_user", "get_current_active_user", "get_current_superuser", "get_current_admin_user",
    "require_admin", "require_manager_role", "require_policy_operator_role", "require_funds_operator_role",
    "verify_api_key", "verify_internal_token", "enforce_admin_include_deleted"
  }

  /** The identity of a callable. */
  type Id = nat

  datatype Dep = Dep(call: Option<Id>, name: string, deps: seq<Dep>)

  /** A dependency without a callable has no name either. */
  predicate IsAuth(d: Dep) { d.call.Some? && d.name in AUTH_FUNC_NAMES }

  // ---------------------------------------------------------------- the search

  datatype Outcome = Outcome(found: bool, seen: set<Id>)

  function Search(deps: seq<Dep>, seen: set<Id>): (r: Outcome)
    ensures seen <= r.seen
    decreases deps
  {
    if deps == [] then Outcome(false, seen)
    else
      var dep := deps[0];
      if IsAuth(dep) then Outcome(true, seen)
      else if dep.call.None? || dep.call.value in seen then Search(deps[1..], seen)
      else
        var below := Search(dep.deps, seen + {dep.call.value});
        if below.found then below else Search(deps[1..], below.seen)
  }

  /** The set that all recursive calls update. */
  class Seen {
    var ids: set<Id>

    constructor ()
      ensures ids == {}
    {
      ids := {};
    }
  }

  /** `_has_auth`; without a set the search starts with a new one. */
  method HasAuth(dependant: Dep, shared: Seen?) returns (found: bool)
    modifies shared
    ensures found == Search(dependant.deps, if shared == null then {} else old(shared.ids)).found
    ensures shared != null ==> shared.ids == Search(dependant.deps, old(shared.ids)).seen
    decreases dependant
  {
    var seen: Seen;
    if shared == null { seen := new Seen(); } else { seen := shared; }
    ghost var start := seen.ids;
    for i := 0 to |dependant.deps|
      invariant Search(dependant.deps, start) == Search(dependant.deps[i..], seen.ids)
    {
      var dep := dependant.deps[i];
      ghost var left := dependant.deps[i..];
      assert left[0] == dep && left[1..] == dependant.deps[i + 1..];
      if IsAuth(dep) { return true; }
      if dep.call.Some? && dep.call.value !in seen.ids {
        seen.ids := seen.ids + {dep.call.value};
        var below := HasAuth(dep, seen);
        if below { return true; }
      }
    }
    return false;
  }

  // ---------------------------------------------------------------- what it is meant to find

  /** A path from the dependencies down to an authentication call, through calls only. */
  ghost predicate LeadsToAuth(deps: seq<Dep>, path: seq<Dep>) {
    && path != [] && path[0] in deps
    && if |path| == 1 then IsAuth(path[0]) else path[0].call.Some? && LeadsToAuth(path[0].deps, path[1..])
  }

  ghost predicate AuthReachable(deps: seq<Dep>) { exists path :: LeadsToAuth(deps, path) }

  function Nodes(deps: seq<Dep>): set<Dep>
    decreases deps
  {
    if deps == [] then {} else {deps[0]} + Nodes(deps[0].deps) + Nodes(deps[1..])
  }

  ghost predicate DeterminedAmong(nodes: set<Dep>) {
    forall d, e :: d in nodes && e in nodes && d.call.Some? && d.call == e.call ==> d == e
  }

  /** Wherever a call occurs in the tree it has the same name and sub-dependencies. */
  ghost predicate Determined(deps: seq<Dep>) { DeterminedAmong(Nodes(deps)) }

  // ---------------------------------------------------------------- soundness

  lemma LongerPath(dep: Dep, deps: seq<Dep>, path: seq<Dep>)
    requires dep in deps && dep.call.Some? && LeadsToAuth(dep.deps, path)
    ensures AuthReachable(deps)
  {
    var longer := [dep] + path;
    assert longer[1..] == path;
    assert LeadsToAuth(deps, longer);
  }

  /** What the search finds is there, for every tree and every set of seen calls. */
  lemma {:induction false} FoundIsReachable(deps: seq<Dep>, seen: set<Id>)
    requires Search(deps, seen).found
    ensures AuthReachable(deps)
    decreases deps
  {
    var dep := deps[0];
    if IsAuth(dep) {
      assert LeadsToAuth(deps, [dep]);
    } else if dep.call.Some? && dep.call.value !in seen && Search(dep.deps, seen + {dep.call.value}).found {
      FoundIsReachable(dep.deps, seen + {dep.call.value});
      var path :| LeadsToAuth(dep.deps, path);
      LongerPath(dep, deps, path);
    } else {
      var seen' := if dep.call.None? || dep.call.value in seen then seen
                   else Search(dep.deps, seen + {dep.call.value}).seen;
      FoundIsReachable(deps[1..], seen');
      var path :| LeadsToAuth(deps[1..], path);
      assert LeadsToAuth(deps, path);
    }
  }

  // ---------------------------------------------------------------- completeness

  /** No dependency is an authentication call, and every call has been seen. */
  ghost predicate Covered(deps: seq<Dep>, seen: set<Id>) {
    forall i :: 0 <= i < |deps| ==> !IsAuth(deps[i]) && (deps[i].call.None? || deps[i].call.value in seen)
  }

  /** The calls seen since `before` have covered dependencies. */
  ghost predicate ClosedSince(nodes: set<Dep>, before: set<Id>, seen: set<Id>) {
    forall d :: d in nodes && d.call.Some? && d.call.value in seen - before ==> Covered(d.deps, seen)
  }

  lemma CoveredGrows(deps: seq<Dep>, seen: set<Id>, more: set<Id>)
    requires Covered(deps, seen) && seen <= more
    ensures Covered(deps, more)
  {}

  lemma ClosedJoins(nodes: set<Dep>, a: set<Id>, b: set<Id>, c: set<Id>)
    requires a <= b <= c && ClosedSince(nodes, a, b) && ClosedSince(nodes, b, c)
    ensures ClosedSince(nodes, a, c)
  {
    forall d | d in nodes && d.call.Some? && d.call.value in c - a ensures Covered(d.deps, c) {
      if d.call.value in b { CoveredGrows(d.deps, b, c); }
    }
  }

  lemma ClosedAfterCall(nodes: set<Dep>, dep: Dep, seen: set<Id>, after: set<Id>)
    requires DeterminedAmong(nodes) && dep in nodes && dep.call.Some?
    requires ClosedSince(nodes, seen + {dep.call.value}, after) && Covered(dep.deps, after)
    ensures ClosedSince(nodes, seen, after)
  {
    forall d | d in nodes && d.call.Some? && d.call.value in after - seen ensures Covered(d.deps, after) {
      if d.call.value == dep.call.value { assert d == dep; }
    }
  }

  lemma CoveredFirst(deps: seq<Dep>, seen: set<Id>)
    requires deps != [] && Covered(deps[1..], seen)
    requires !IsAuth(deps[0]) && (deps[0].call.None? || deps[0].call.value in seen)
    ensures Covered(deps, seen)
  {
    forall i | 0 <= i < |deps| ensures !IsAuth(deps[i]) && (deps[i].call.None? || deps[i].call.value in seen) {
      if i > 0 { assert deps[i] == deps[1..][i - 1]; }
    }
  }

  /** A search that finds nothing has covered its dependencies and closed what it added,
      whatever is still in progress further up. */
  lemma {:induction false} NothingFound(nodes: set<Dep>, deps: seq<Dep>, seen: set<Id>)
    requires DeterminedAmong(nodes) && Nodes(deps) <= nodes && !Search(deps, seen).found
    ensures Covered(deps, Search(deps, seen).seen)
    ensures ClosedSince(nodes, seen, Search(deps, seen).seen)
    decreases deps
  {
    if deps != [] {
      var dep, end := deps[0], Search(deps, seen).seen;
      if dep.call.None? || dep.call.value in seen {
        NothingFound(nodes, deps[1..], seen);
      } else {
        var middle := Search(dep.deps, seen + {dep.call.value}).seen;
        NothingFound(nodes, dep.deps, seen + {dep.call.value});
        ClosedAfterCall(nodes, dep, seen, middle);
        NothingFound(nodes, deps[1..], middle);
        ClosedJoins(nodes, seen, middle, end);
      }
      CoveredFirst(deps, end);
    }
  }

  lemma {:induction false} NodeBelow(deps: seq<Dep>, d: Dep)
    requires d in deps
    ensures d in Nodes(deps) && Nodes(d.deps) <= Nodes(deps)
    decreases deps
  {
    if d != deps[0] { NodeBelow(deps[1..], d); }
  }

  lemma {:induction false} CoveredLeadsNowhere(nodes: set<Dep>, deps: seq<Dep>, seen: set<Id>, path: seq<Dep>)
    requires Nodes(deps) <= nodes && Covered(deps, seen) && ClosedSince(nodes, {}, seen)
    ensures !LeadsToAuth(deps, path)
    decreases |path|
  {
    if LeadsToAuth(deps, path) {
      var d := path[0];
      NodeBelow(deps, d);
      if |path| > 1 { CoveredLeadsNowhere(nodes, d.deps, seen, path[1..]); }
    }
  }

  /** The shared set loses nothing: the search succeeds exactly when an authentication call is
      reachable through calls. */
  lemma SearchFindsAuthIff(deps: seq<Dep>)
    requires Determined(deps)
    ensures Search(deps, {}).found <==> AuthReachable(deps)
  {
    if Search(deps, {}).found {
      FoundIsReachable(deps, {});
    } else {
      NothingFound(Nodes(deps), deps, {});
      forall path ensures !LeadsToAuth(deps, path) {
        CoveredLeadsNowhere(Nodes(deps), deps, Search(deps, {}).seen, path);
      }
    }
  }

  // ---------------------------------------------------------------- trees of any kind

  /** The dependencies the search looks at, and the calls it has seen. */
  datatype Trail = Trail(seen: set<Id>, looked: set<Dep>)

  /** The order in which the search visits dependencies as long as it finds nothing: it depends
      on the calls and on nothing else. */
  function Walk(deps: seq<Dep>, seen: set<Id>): Trail
    decreases deps
  {
    if deps == [] then Trail(seen, {})
    else
      var dep := deps[0];
      if dep.call.None? || dep.call.value in seen then
        var rest := Walk(deps[1..], seen);
        rest.(looked := rest.looked + {dep})
      else
        var below := Walk(dep.deps, seen + {dep.call.value});
        var rest := Walk(deps[1..], below.seen);
        Trail(rest.seen, {dep} + below.looked + rest.looked)
  }

  ghost predicate SomeAuth(deps: set<Dep>) { exists d :: d in deps && IsAuth(d) }

  lemma SomeAuthUnion(a: set<Dep>, b: set<Dep>)
    ensures SomeAuth(a + b) <==> SomeAuth(a) || SomeAuth(b)
  {
    if SomeAuth(a) {
      var d :| d in a && IsAuth(d);
      assert d in a + b;
    }
    if SomeAuth(b) {
      var d :| d in b && IsAuth(d);
      assert d in a + b;
    }
  }

  lemma SomeAuthOne(d: Dep)
    ensures SomeAuth({d}) <==> IsAuth(d)
  {
    assert d in {d};
  }

  /** For every tree: the search succeeds exactly when a dependency it looks at is one. */
  lemma {:induction false} SearchFollowsWalk(deps: seq<Dep>, seen: set<Id>)
    ensures var r := Search(deps, seen); var t := Walk(deps, seen);
            && (r.found <==> SomeAuth(t.looked)) && (!r.found ==> r.seen == t.seen)
    decreases deps
  {
    if deps != [] {
      hide SomeAuth, IsAuth;
      var dep := deps[0];
      SomeAuthOne(dep);
      if dep.call.None? || dep.call.value in seen {
        SearchFollowsWalk(deps[1..], seen);
        SomeAuthUnion(Walk(deps[1..], seen).looked, {dep});
      } else {
        var below := Walk(dep.deps, seen + {dep.call.value});
        SearchFollowsWalk(dep.deps, seen + {dep.call.value});
        SearchFollowsWalk(deps[1..], below.seen);
        SomeAuthUnion({dep}, below.looked);
        SomeAuthUnion({dep} + below.looked, Walk(deps[1..], below.seen).looked);
      }
    }
  }

  /** A path through calls leads to this dependency. */
  ghost predicate LeadsTo(deps: seq<Dep>, path: seq<Dep>) {
    && path != [] && path[0] in deps
    && (|path| == 1 || (path[0].call.Some? && LeadsTo(path[0].deps, path[1..])))
  }

  ghost predicate Below(deps: seq<Dep>, d: Dep) {
    exists path :: LeadsTo(deps, path) && path[|path| - 1] == d
  }

  lemma {:induction false} LeadsToAuthIff(deps: seq<Dep>, path: seq<Dep>)
    ensures LeadsToAuth(deps, path) <==> LeadsTo(deps, path) && IsAuth(path[|path| - 1])
    decreases |path|
  {
    if |path| > 1 { LeadsToAuthIff(path[0].deps, path[1..]); }
  }

  lemma AuthReachableIff(deps: seq<Dep>)
    ensures AuthReachable(deps) <==> exists d :: Below(deps, d) && IsAuth(d)
  {
    hide LeadsToAuth, IsAuth;
    if AuthReachable(deps) {
      var path :| LeadsToAuth(deps, path);
      LeadsToAuthIff(deps, path);
      assert Below(deps, path[|path| - 1]);
    }
    if d :| Below(deps, d) && IsAuth(d) {
      var path :| LeadsTo(deps, path) && path[|path| - 1] == d;
      LeadsToAuthIff(deps, path);
    }
  }

  /** An authentication call lies below that the search never looks at. */
  ghost predicate AuthOverlooked(deps: seq<Dep>) {
    exists d :: Below(deps, d) && IsAuth(d) && d !in Walk(deps, {}).looked
  }

  lemma BelowFirst(deps: seq<Dep>, dep: Dep, d: Dep)
    requires dep in deps && dep.call.Some? && Below(dep.deps, d)
    ensures Below(deps, d)
  {
    var path :| LeadsTo(dep.deps, path) && path[|path| - 1] == d;
    var longer := [dep] + path;
    assert longer[1..] == path && LeadsTo(deps, longer) && longer[|longer| - 1] == d;
  }

  lemma BelowTail(deps: seq<Dep>, d: Dep)
    requires deps != [] && Below(deps[1..], d)
    ensures Below(deps, d)
  {
    var path :| LeadsTo(deps[1..], path) && path[|path| - 1] == d;
    assert LeadsTo(deps, path);
  }

  lemma {:induction false} LookedIsBelow(deps: seq<Dep>, seen: set<Id>, d: Dep)
    requires d in Walk(deps, seen).looked
    ensures Below(deps, d)
    decreases deps
  {
    var dep := deps[0];
    if d == dep {
      assert LeadsTo(deps, [dep]) && [dep][|[dep]| - 1] == d;
    } else {
      hide Below, IsAuth;
      var stays := dep.call.None? || dep.call.value in seen;
      var after := if stays then seen else Walk(dep.deps, seen + {dep.call.value}).seen;
      if d in Walk(deps[1..], after).looked {
        LookedIsBelow(deps[1..], after, d);
        BelowTail(deps, d);
      } else {
        LookedIsBelow(dep.deps, seen + {dep.call.value}, d);
        BelowFirst(deps, dep, d);
      }
    }
  }

  /** For trees of any kind: the verdict is wrong exactly when some authentication call below is
      never looked at and no dependency looked at is one. */
  lemma VerdictWrongIff(deps: seq<Dep>)
    ensures !(Search(deps, {}).found <==> AuthReachable(deps))
            <==> AuthOverlooked(deps) && !SomeAuth(Walk(deps, {}).looked)
  {
    hide Below, IsAuth, AuthReachable, Search, Walk;
    var looked := Walk(deps, {}).looked;
    SearchFollowsWalk(deps, {});
    AuthReachableIff(deps);
    forall d | d in looked ensures Below(deps, d) { LookedIsBelow(deps, {}, d); }
  }

  // ---------------------------------------------------------------- whichever calls authenticate

  /** The dependencies with authentication put into exactly these calls. */
  function MarkAll(deps: seq<Dep>, ids: set<Id>): (m: seq<Dep>)
    ensures |m| == |deps|
    decreases deps
  {
    if deps == [] then []
    else
      var d := deps[0];
      [Dep(d.call, MarkedName(d.call, ids), MarkAll(d.deps, ids))] + MarkAll(deps[1..], ids)
  }

  function MarkedName(call: Option<Id>, ids: set<Id>): string {
    if call.Some? && call.value in ids then "require_admin" else ""
  }

  function Mark(d: Dep, ids: set<Id>): Dep {
    Dep(d.call, MarkedName(d.call, ids), MarkAll(d.deps, ids))
  }

  predicate InCall(d: Dep, ids: set<Id>) { d.call.Some? && d.call.value in ids }

  lemma MarkedIsAuth(d: Dep, ids: set<Id>)
    ensures IsAuth(Mark(d, ids)) <==> InCall(d, ids)
  {
    assert "require_admin" in AUTH_FUNC_NAMES && "" !in AUTH_FUNC_NAMES;
  }

  lemma {:induction false} MarkAllAt(deps: seq<Dep>, ids: set<Id>, i: nat)
    requires i < |deps|
    ensures MarkAll(deps, ids)[i] == Mark(deps[i], ids)
  {
    if i > 0 { MarkAllAt(deps[1..], ids, i - 1); }
  }

  ghost predicate SomeInCall(deps: set<Dep>, ids: set<Id>) { exists d :: d in deps && InCall(d, ids) }

  lemma SomeInCallUnion(a: set<Dep>, b: set<Dep>, ids: set<Id>)
    ensures SomeInCall(a + b, ids) <==> SomeInCall(a, ids) || SomeInCall(b, ids)
  {
    if SomeInCall(a, ids) {
      var d :| d in a && InCall(d, ids);
      assert d in a + b;
    }
    if SomeInCall(b, ids) {
      var d :| d in b && InCall(d, ids);
      assert d in a + b;
    }
  }

  lemma FirstMarked(d: Dep, ids: set<Id>)
    ensures SomeAuth({Mark(d, ids)}) <==> SomeInCall({d}, ids)
  {
    hide IsAuth, InCall;
    SomeAuthOne(Mark(d, ids));
    MarkedIsAuth(d, ids);
    assert d in {d};
  }

  /** Marking moves no step of the walk. */
  lemma {:induction false} MarkingKeepsWalk(deps: seq<Dep>, ids: set<Id>, seen: set<Id>)
    ensures var t := Walk(deps, seen); var t' := Walk(MarkAll(deps, ids), seen);
            t'.seen == t.seen && (SomeAuth(t'.looked) <==> SomeInCall(t.looked, ids))
    decreases deps
  {
    hide SomeAuth, SomeInCall, IsAuth, InCall;
    if deps == [] {
      NothingLooked(ids);
    } else {
      var dep, tail, m := deps[0], deps[1..], MarkAll(deps, ids);
      assert m[0] == Mark(dep, ids) && m[1..] == MarkAll(tail, ids);
      FirstMarked(dep, ids);
      if dep.call.None? || dep.call.value in seen {
        MarkingKeepsWalk(tail, ids, seen);
        SomeAuthUnion(Walk(m[1..], seen).looked, {m[0]});
        SomeInCallUnion(Walk(tail, seen).looked, {dep}, ids);
      } else {
        var inner := seen + {dep.call.value};
        var below, below' := Walk(dep.deps, inner), Walk(MarkAll(dep.deps, ids), inner);
        MarkingKeepsWalk(dep.deps, ids, inner);
        MarkingKeepsWalk(tail, ids, below.seen);
        SomeAuthUnion({m[0]}, below'.looked);
        SomeAuthUnion({m[0]} + below'.looked, Walk(m[1..], below.seen).looked);
        SomeInCallUnion({dep}, below.looked, ids);
        SomeInCallUnion({dep} + below.looked, Walk(tail, below.seen).looked, ids);
      }
    }
  }

  lemma NothingLooked(ids: set<Id>)
    ensures !SomeAuth({}) && !SomeInCall({}, ids)
  {}

  ghost predicate SomeBelowInCall(deps: seq<Dep>, ids: set<Id>) { exists d :: Below(deps, d) && InCall(d, ids) }

  lemma {:induction false} MarkedPath(deps: seq<Dep>, ids: set<Id>, path: seq<Dep>)
    requires LeadsTo(deps, path) && InCall(path[|path| - 1], ids)
    ensures AuthReachable(MarkAll(deps, ids))
    decreases |path|
  {
    var i :| 0 <= i < |deps| && deps[i] == path[0];
    var first := Mark(path[0], ids);
    MarkAllAt(deps, ids, i);
    assert first in MarkAll(deps, ids);
    if |path| == 1 {
      MarkedIsAuth(path[0], ids);
      assert LeadsToAuth(MarkAll(deps, ids), [first]);
      assert AuthReachable(MarkAll(deps, ids));
    } else {
      MarkedPath(path[0].deps, ids, path[1..]);
      var rest :| LeadsToAuth(MarkAll(path[0].deps, ids), rest);
      LongerPath(first, MarkAll(deps, ids), rest);
    }
  }

  lemma {:induction false} UnmarkedPath(deps: seq<Dep>, ids: set<Id>, path: seq<Dep>)
    requires LeadsToAuth(MarkAll(deps, ids), path)
    ensures SomeBelowInCall(deps, ids)
    decreases |path|
  {
    hide IsAuth, InCall;
    var i :| 0 <= i < |deps| && MarkAll(deps, ids)[i] == path[0];
    var dep := deps[i];
    MarkAllAt(deps, ids, i);
    if |path| == 1 {
      MarkedIsAuth(dep, ids);
      assert LeadsTo(deps, [dep]) && [dep][|[dep]| - 1] == dep;
      assert Below(deps, dep);
    } else {
      UnmarkedPath(dep.deps, ids, path[1..]);
      var d :| Below(dep.deps, d) && InCall(d, ids);
      BelowFirst(deps, dep, d);
    }
  }

  lemma MarkedReachableIff(deps: seq<Dep>, ids: set<Id>)
    ensures AuthReachable(MarkAll(deps, ids)) <==> SomeBelowInCall(deps, ids)
  {
    hide InCall;
    if AuthReachable(MarkAll(deps, ids)) {
      var path :| LeadsToAuth(MarkAll(deps, ids), path);
      UnmarkedPath(deps, ids, path);
    }
    if d :| Below(deps, d) && InCall(d, ids) {
      var path :| LeadsTo(deps, path) && path[|path| - 1] == d;
      MarkedPath(deps, ids, path);
    }
  }

  ghost predicate Exact(deps: seq<Dep>) { Search(deps, {}).found <==> AuthReachable(deps) }

  /** Every call that is reached through calls is also looked at, here or at another place. */
  ghost predicate CallsAreLooked(deps: seq<Dep>) {
    forall d :: Below(deps, d) && d.call.Some? ==> SomeInCall(Walk(deps, {}).looked, {d.call.value})
  }

  lemma MarkedExactIff(deps: seq<Dep>, ids: set<Id>)
    ensures Exact(MarkAll(deps, ids))
            <==> (SomeBelowInCall(deps, ids) ==> SomeInCall(Walk(deps, {}).looked, ids))
  {
    hide Below, InCall, AuthReachable, Search, Walk, SomeAuth;
    SearchFollowsWalk(MarkAll(deps, ids), {});
    MarkingKeepsWalk(deps, ids, {});
    MarkedReachableIff(deps, ids);
    forall d | d in Walk(deps, {}).looked ensures Below(deps, d) { LookedIsBelow(deps, {}, d); }
  }

  /** For trees of any kind: the search is exact whichever calls are authentication calls, if and
      only if every call that can be reached is looked at. */
  lemma ExactEverywhereIff(deps: seq<Dep>)
    ensures (forall ids :: Exact(MarkAll(deps, ids))) <==> CallsAreLooked(deps)
  {
    hide Below, Exact, Walk;
    var looked := Walk(deps, {}).looked;
    if CallsAreLooked(deps) {
      forall ids ensures Exact(MarkAll(deps, ids)) {
        MarkedExactIff(deps, ids);
        if d :| Below(deps, d) && InCall(d, ids) {
          var e :| e in looked && InCall(e, {d.call.value});
          assert InCall(e, ids);
        }
      }
    } else {
      var d :| Below(deps, d) && d.call.Some? && !SomeInCall(looked, {d.call.value});
      MarkedExactIff(deps, {d.call.value});
      assert InCall(d, {d.call.value});
      assert !Exact(MarkAll(deps, {d.call.value}));
    }
  }

  /** When a call occurs with different sub-dependencies, the second occurrence is skipped and
      the authentication below it is missed. */
  lemma SecondOccurrenceIsSkipped(call: Id, login: Id)
    requires call != login
    ensures var auth := Dep(Some(login), "require_admin", []);
            var deps := [Dep(Some(call), "db", []), Dep(Some(call), "db", [auth])];
            !Search(deps, {}).found && AuthReachable(deps)
  {
    var auth := Dep(Some(login), "require_admin", []);
    var first, second := Dep(Some(call), "db", []), Dep(Some(call), "db", [auth]);
    assert [second, auth][1..] == [auth] && LeadsToAuth([auth], [auth]);
    assert LeadsToAuth([first, second], [second, auth]);
    assert [first, second][1..] == [second];
    assert Search([], {call}) == Outcome(false, {call});
    assert |[second][1..]| == 0;
    assert Search([second], {call}) == Search([second][1..], {call});
  }

  // ---------------------------------------------------------------- the gate

  datatype Route = Route(path: string, dependant: Dep)

  function RStripSlashes(s: string): string {
    if s != "" && s[|s| - 1] == '/' then RStripSlashes(s[..|s| - 1]) else s
  }

  /** Equal to a public prefix without its trailing slashes, or starting with a public prefix. */
  predicate Allowed(path: string, prefixes: seq<string>) {
    exists i :: 0 <= i < |prefixes| && (path == RStripSlashes(prefixes[i]) || prefixes[i] <= path)
  }

  ghost predicate Guarded(route: Route) { AuthReachable(route.dependant.deps) }

  predicate Offends(route: Route, prefixes: seq<string>) {
    !Search(route.dependant.deps, {}).found && !Allowed(route.path, prefixes)
  }

  function Offenders(routes: seq<Route>, prefixes: seq<string>): seq<Route> {
    if routes == [] then []
    else
      var last := routes[|routes| - 1];
      Offenders(routes[..|routes| - 1], prefixes) + (if Offends(last, prefixes) then [last] else [])
  }

  /** The loop of `main`; each route is searched with a set of its own. */
  method CheckRoutes(routes: seq<Route>, prefixes: seq<string>) returns (exit: nat, offenders: seq<Route>)
    ensures offenders == Offenders(routes, prefixes)
    ensures exit == if offenders == [] then 0 else 1
  {
    offenders := [];
    for i := 0 to |routes|
      invariant offenders == Offenders(routes[..i], prefixes)
    {
      assert routes[..i + 1][..i] == routes[..i];
      var found := HasAuth(routes[i].dependant, null);
      if !found && !Allowed(routes[i].path, prefixes) { offenders := offenders + [routes[i]]; }
    }
    assert routes[..|routes|] == routes;
    exit := if offenders != [] then 1 else 0;
  }

  lemma {:induction false} OffendersMembers(routes: seq<Route>, prefixes: seq<string>, r: Route)
    ensures r in Offenders(routes, prefixes) <==> r in routes && Offends(r, prefixes)
  {
    if routes != [] {
      var front, last := routes[..|routes| - 1], routes[|routes| - 1];
      OffendersMembers(front, prefixes, r);
      assert routes == front + [last];
    }
  }

  /** Reports keep the order of the routes: a list of routes is reported part by part. */
  lemma {:induction false} ReportsInOrder(a: seq<Route>, b: seq<Route>, prefixes: seq<string>)
    ensures Offenders(a + b, prefixes) == Offenders(a, prefixes) + Offenders(b, prefixes)
    decreases |b|
  {
    hide Offends;
    if b == [] {
      assert a + b == a;
    } else {
      var n := |b| - 1;
      assert (a + b)[..|a + b| - 1] == a + b[..n];
      ReportsInOrder(a, b[..n], prefixes);
    }
  }

  /** Public: the path starts with a prefix, or is a prefix without the slashes at its end. */
  predicate Public(path: string, prefix: string) {
    || prefix <= path
    || (&& path <= prefix && (path == "" || path[|path| - 1] != '/')
        && forall i :: |path| <= i < |prefix| ==> prefix[i] == '/')
  }

  lemma {:induction false} RStripSlashesIff(s: string, path: string)
    ensures RStripSlashes(s) == path
            <==> (&& path <= s && (path == "" || path[|path| - 1] != '/')
                  && forall i :: |path| <= i < |s| ==> s[i] == '/')
  {
    if s != "" && s[|s| - 1] == '/' {
      var front := s[..|s| - 1];
      RStripSlashesIff(front, path);
      if path <= s && |path| < |s| { assert path <= front; }
      if path <= front { assert s[..|path|] == front[..|path|]; }
      if path == s { assert path[|path| - 1] == '/'; }
    } else if s != "" && path <= s && |path| < |s| {
      assert s[|s| - 1] != '/';
    }
  }

  lemma AllowedIff(path: string, prefixes: seq<string>)
    ensures Allowed(path, prefixes) <==> exists i :: 0 <= i < |prefixes| && Public(path, prefixes[i])
  {
    hide RStripSlashes;
    forall i | 0 <= i < |prefixes|
      ensures Public(path, prefixes[i]) <==> path == RStripSlashes(prefixes[i]) || prefixes[i] <= path
    {
      RStripSlashesIff(prefixes[i], path);
    }
    if Allowed(path, prefixes) {
      var i :| 0 <= i < |prefixes| && (path == RStripSlashes(prefixes[i]) || prefixes[i] <= path);
      assert Public(path, prefixes[i]);
    }
    if i :| 0 <= i < |prefixes| && Public(path, prefixes[i]) {
      assert path == RStripSlashes(prefixes[i]) || prefixes[i] <= path;
    }
  }

  /** Exactly the routes are reported that reach no authentication call and whose path neither
      starts with a public prefix nor is one without its trailing slashes. */
  lemma ReportedIff(routes: seq<Route>, prefixes: seq<string>, r: Route)
    requires Determined(r.dependant.deps)
    ensures r in Offenders(routes, prefixes)
            <==> && r in routes && !Guarded(r)
                 && forall i :: 0 <= i < |prefixes| ==> !Public(r.path, prefixes[i])
  {
    hide Public, Allowed;
    OffendersMembers(routes, prefixes, r);
    SearchFindsAuthIff(r.dependant.deps);
    AllowedIff(r.path, prefixes);
  }

  /** Which calls authenticate: those of eleven functions. */
  lemma AuthenticatingNames(call: Option<Id>, name: string)
    ensures Search([Dep(call, name, [])], {}).found
            <==> call.Some? && name in {
                   "get_current_user", "get_current_active_user", "get_current_superuser", "get_current_admin_user",
                   "require_admin", "require_manager_role", "require_policy_operator_role",
                   "require_funds_operator_role", "verify_api_key", "verify_internal_token",
                   "enforce_admin_include_deleted"}
  {
    var deps := [Dep(call, name, [])];
    assert |deps[1..]| == 0;
    assert !Search(deps[1..], {}).found;
    if call.Some? { assert !Search(deps[1..], {call.value}).found && Search([], {call.value}).seen == {call.value}; }
  }
}
