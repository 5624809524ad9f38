/**
 The search behind backend/scripts/check_no_assert_tests.py: does a test function contain an
 assertion, itself or through assertion helpers of the same file? The search goes at most three
 helpers deep and all recursive calls share one set of helper names already seen.

 Which helpers it looks at does not depend on where the assertions are (`Walk`). Main results:
 the search succeeds exactly when the test or a walked helper asserts (`SearchFindsWalkedIff`);
 it is exact wherever the assertions are exactly when every helper called is walked
 (`ExactEverywhereIff`), which holds unless four distinct helpers call each other in a chain
 (`ThreeDeepIsEnough`).
 */
module AssertionSearch {

  /** The nodes of a function body in the order of the walk; a `With` lists the names of those
      context expressions that are calls. */
  datatype Node = Assert | Call(name: string) | With(calls: seq<string>) | Other

  /** The assertion helpers of the file by name. */
  type Helpers = map<string, seq<Node>>

  const ASSERTION_CALLS: set<string> := {"raises", "warns", "deprecated_call", "fail", "xfail", "skip"}

  const MAX_DEPTH := 3

  /** A node that is an assertion by itself. */
  predicate Direct(n: Node) {
    match n
    case Assert => true
    case Call(name) => "assert" <= name || name in ASSERTION_CALLS
    case With(calls) => exists i :: 0 <= i < |calls| && calls[i] in ASSERTION_CALLS
    case Other => false
  }

  // ---------------------------------------------------------------- the search

  datatype Outcome = Outcome(found: bool, seen: set<string>)

  function Search(body: seq<Node>, helpers: Helpers, seen: set<string>, depth: nat): (r: Outcome)
    ensures seen <= r.seen
    decreases if depth > MAX_DEPTH then 0 else MAX_DEPTH + 1 - depth, |body|
  {
    if depth > MAX_DEPTH || body == [] then Outcome(false, seen)
    else if Direct(body[0]) then Outcome(true, seen)
    else if body[0].Call? && body[0].name in helpers && body[0].name !in seen then
      var below := Search(helpers[body[0].name], helpers, seen + {body[0].name}, depth + 1);
      if below.found then below else Search(body[1..], helpers, below.seen, depth)
    else Search(body[1..], helpers, seen, depth)
  }

  /** The set that all recursive calls update. */
  class Seen {
    var names: set<string>

    constructor ()
      ensures names == {}
    {
      names := {};
    }
  }

  /** `_has_assertion`; without a set the search starts with a new one. */
  method HasAssertion(body: seq<Node>, helpers: Helpers, shared: Seen?, depth: nat) returns (found: bool)
    modifies shared
    ensures found == Search(body, helpers, if shared == null then {} else old(shared.names), depth).found
    ensures shared != null ==> shared.names == Search(body, helpers, old(shared.names), depth).seen
    decreases if depth > MAX_DEPTH then 0 else MAX_DEPTH + 1 - depth
  {
    var seen: Seen;
    if shared == null { seen := new Seen(); } else { seen := shared; }
    if depth > MAX_DEPTH { return false; }
    ghost var start := seen.names;
    for i := 0 to |body|
      invariant Search(body, helpers, start, depth) == Search(body[i..], helpers, seen.names, depth)
    {
      ghost var left := body[i..];
      assert left[0] == body[i] && left[1..] == body[i + 1..];
      if Direct(body[i]) { return true; }
      if body[i].Call? && body[i].name in helpers && body[i].name !in seen.names {
        seen.names := seen.names + {body[i].name};
        var below := HasAssertion(helpers[body[i].name], helpers, seen, depth + 1);
        if below { return true; }
      }
    }
    return false;
  }

  // ---------------------------------------------------------------- what it is meant to find

  predicate HasDirect(body: seq<Node>) { exists i :: 0 <= i < |body| && Direct(body[i]) }

  /** The body calls this helper, and the call is not an assertion by its name alone. */
  predicate Follows(body: seq<Node>, helpers: Helpers, name: string) {
    name in helpers && Call(name) in body && !Direct(Call(name))
  }

  /** A chain of helper calls that ends in a body with an assertion. */
  ghost predicate LeadsToAssertion(body: seq<Node>, helpers: Helpers, path: seq<string>)
    decreases |path|
  {
    if path == [] then HasDirect(body)
    else Follows(body, helpers, path[0]) && LeadsToAssertion(helpers[path[0]], helpers, path[1..])
  }

  ghost predicate AssertionReachable(body: seq<Node>, helpers: Helpers) {
    exists path :: LeadsToAssertion(body, helpers, path)
  }

  // ---------------------------------------------------------------- soundness

  lemma ExtendPath(body: seq<Node>, helpers: Helpers, name: string, path: seq<string>)
    requires Follows(body, helpers, name) && LeadsToAssertion(helpers[name], helpers, path)
    ensures LeadsToAssertion(body, helpers, [name] + path)
  {
    assert ([name] + path)[1..] == path;
  }

  lemma PathInLargerBody(body: seq<Node>, helpers: Helpers, path: seq<string>)
    requires body != [] && LeadsToAssertion(body[1..], helpers, path)
    ensures LeadsToAssertion(body, helpers, path)
  {
    if path == [] {
      var i :| 0 <= i < |body[1..]| && Direct(body[1..][i]);
      assert Direct(body[i + 1]);
    }
  }

  /** What is found is there, at most as many helpers away as the bound still allows. */
  lemma {:induction false} FoundIsReachable(body: seq<Node>, helpers: Helpers, seen: set<string>, depth: nat)
    requires Search(body, helpers, seen, depth).found
    ensures exists path :: LeadsToAssertion(body, helpers, path) && |path| + depth <= MAX_DEPTH
    decreases MAX_DEPTH + 1 - depth, |body|
  {
    var n := body[0];
    if Direct(n) {
      assert LeadsToAssertion(body, helpers, []);
    } else {
      var seen' := seen;
      if n.Call? && n.name in helpers && n.name !in seen {
        var below := Search(helpers[n.name], helpers, seen + {n.name}, depth + 1);
        if below.found {
          FoundIsReachable(helpers[n.name], helpers, seen + {n.name}, depth + 1);
          var path :| LeadsToAssertion(helpers[n.name], helpers, path) && |path| + depth + 1 <= MAX_DEPTH;
          ExtendPath(body, helpers, n.name, path);
          return;
        }
        seen' := below.seen;
      }
      FoundIsReachable(body[1..], helpers, seen', depth);
      var path :| LeadsToAssertion(body[1..], helpers, path) && |path| + depth <= MAX_DEPTH;
      PathInLargerBody(body, helpers, path);
    }
  }

  /** An assertion written out: an `assert`, a call whose name starts with "assert" or is one of
      six, or a `with` over a call of one of these. */
  predicate IsAssertion(n: Node) {
    || n == Assert
    || (n.Call? && ((|n.name| >= 6 && n.name[..6] == "assert") || OneOfSix(n.name)))
    || (n.With? && exists i :: 0 <= i < |n.calls| && OneOfSix(n.calls[i]))
  }

  predicate OneOfSix(name: string) {
    || name == "raises" || name == "warns" || name == "deprecated_call"
    || name == "fail" || name == "xfail" || name == "skip"
  }

  lemma DirectIff(n: Node)
    ensures Direct(n) <==> IsAssertion(n)
  {
    if n.Call? && |n.name| >= 6 { assert "assert" <= n.name <==> n.name[..6] == "assert"; }
    if n.With? {
      if Direct(n) {
        var i :| 0 <= i < |n.calls| && n.calls[i] in ASSERTION_CALLS;
        assert OneOfSix(n.calls[i]);
      }
      if IsAssertion(n) {
        var i :| 0 <= i < |n.calls| && OneOfSix(n.calls[i]);
        assert n.calls[i] in ASSERTION_CALLS;
      }
    }
  }

  /** A test with such an assertion of its own is accepted, whatever helpers there are; without
      helpers no other is. */
  lemma AcceptsOwnAssertions(body: seq<Node>, helpers: Helpers)
    ensures (exists k :: 0 <= k < |body| && IsAssertion(body[k])) ==> Search(body, helpers, {}, 0).found
    ensures helpers == map[] ==>
              (Search(body, helpers, {}, 0).found <==> exists k :: 0 <= k < |body| && IsAssertion(body[k]))
  {
    hide Direct, IsAssertion, Walk;
    forall k | 0 <= k < |body| ensures Direct(body[k]) <==> IsAssertion(body[k]) { DirectIff(body[k]); }
    SearchFindsWalkedIff(body, helpers);
    assert HasDirect(body) <==> exists k :: 0 <= k < |body| && IsAssertion(body[k]);
    assert helpers == map[] ==> !SomeAsserts(helpers, Walk(body, helpers, {}, 0).walked);
  }

  // ---------------------------------------------------------------- the walk behind the search

  /** The helpers the search looks into, those it enters only beyond the depth bound, and all it
      has seen. */
  datatype Trail = Trail(seen: set<string>, walked: set<string>, cut: set<string>)

  /** The order in which the search visits helpers as long as it finds nothing: it depends on
      the calls and on nothing else. */
  function Walk(body: seq<Node>, helpers: Helpers, seen: set<string>, depth: nat): (t: Trail)
    ensures seen <= t.seen && t.seen == seen + t.walked + t.cut
    ensures t.walked + t.cut <= helpers.Keys
    decreases if depth > MAX_DEPTH then 0 else MAX_DEPTH + 1 - depth, |body|
  {
    if depth > MAX_DEPTH || body == [] then Trail(seen, {}, {})
    else if body[0].Call? && !Direct(body[0]) && body[0].name in helpers && body[0].name !in seen then
      var name := body[0].name;
      var below := Walk(helpers[name], helpers, seen + {name}, depth + 1);
      var rest := Walk(body[1..], helpers, below.seen, depth);
      Trail(rest.seen,
            below.walked + rest.walked + if depth < MAX_DEPTH then {name} else {},
            below.cut + rest.cut + if depth < MAX_DEPTH then {} else {name})
    else Walk(body[1..], helpers, seen, depth)
  }

  ghost predicate SomeAsserts(helpers: Helpers, names: set<string>) {
    exists name :: name in names && name in helpers && HasDirect(helpers[name])
  }

  lemma HasDirectFirst(body: seq<Node>)
    requires body != []
    ensures HasDirect(body) <==> Direct(body[0]) || HasDirect(body[1..])
  {
    if HasDirect(body[1..]) {
      var i :| 0 <= i < |body[1..]| && Direct(body[1..][i]);
      assert Direct(body[i + 1]);
    }
    if HasDirect(body) && !Direct(body[0]) {
      var i :| 0 <= i < |body| && Direct(body[i]);
      assert Direct(body[1..][i - 1]);
    }
  }

  lemma AssertingUnion(helpers: Helpers, a: set<string>, b: set<string>)
    ensures SomeAsserts(helpers, a + b) <==> SomeAsserts(helpers, a) || SomeAsserts(helpers, b)
  {
    if SomeAsserts(helpers, a) {
      var n :| n in a && n in helpers && HasDirect(helpers[n]);
      assert n in a + b;
    }
    if SomeAsserts(helpers, b) {
      var n :| n in b && n in helpers && HasDirect(helpers[n]);
      assert n in a + b;
    }
  }

  lemma AssertingOne(helpers: Helpers, name: string)
    requires name in helpers
    ensures SomeAsserts(helpers, {name}) <==> HasDirect(helpers[name])
  {
    if HasDirect(helpers[name]) { assert name in {name}; }
  }

  /** At every stage: the search succeeds exactly when the body or a walked helper asserts, and
      otherwise has seen what the walk has seen. */
  lemma {:induction false} SearchFollowsWalk(body: seq<Node>, helpers: Helpers, seen: set<string>, depth: nat)
    requires depth <= MAX_DEPTH
    ensures var r := Search(body, helpers, seen, depth); var t := Walk(body, helpers, seen, depth);
            && (r.found <==> HasDirect(body) || SomeAsserts(helpers, t.walked))
            && (!r.found ==> r.seen == t.seen)
    decreases MAX_DEPTH + 1 - depth, |body|
  {
    hide HasDirect, SomeAsserts;
    if body == [] {
      NothingAsserts(helpers);
    } else {
      HasDirectFirst(body);
      var n := body[0];
      if !Direct(n) && n.Call? && n.name in helpers && n.name !in seen {
        CallFollowsWalk(body, helpers, seen, depth);
      } else if !Direct(n) {
        SearchFollowsWalk(body[1..], helpers, seen, depth);
      }
    }
  }

  lemma NothingAsserts(helpers: Helpers)
    ensures !HasDirect([]) && !SomeAsserts(helpers, {})
  {}

  lemma {:induction false} CallFollowsWalk(body: seq<Node>, helpers: Helpers, seen: set<string>, depth: nat)
    requires depth <= MAX_DEPTH && body != [] && !Direct(body[0])
    requires body[0].Call? && body[0].name in helpers && body[0].name !in seen
    ensures var r := Search(body, helpers, seen, depth); var t := Walk(body, helpers, seen, depth);
            && (r.found <==> HasDirect(body[1..]) || SomeAsserts(helpers, t.walked))
            && (!r.found ==> r.seen == t.seen)
    decreases MAX_DEPTH + 1 - depth, |body|, 0
  {
    hide HasDirect, SomeAsserts;
    var name := body[0].name;
    var below := Walk(helpers[name], helpers, seen + {name}, depth + 1);
    var rest := Walk(body[1..], helpers, below.seen, depth);
    var found := Search(helpers[name], helpers, seen + {name}, depth + 1);
    SearchFollowsWalk(body[1..], helpers, below.seen, depth);
    AssertingUnion(helpers, below.walked, rest.walked);
    if depth < MAX_DEPTH {
      SearchFollowsWalk(helpers[name], helpers, seen + {name}, depth + 1);
      AssertingUnion(helpers, below.walked + rest.walked, {name});
      AssertingOne(helpers, name);
      if found.found {
        assert SomeAsserts(helpers, {name}) || SomeAsserts(helpers, below.walked);
      }
    } else {
      assert below == Trail(seen + {name}, {}, {}) && found == Outcome(false, seen + {name});
      NothingAsserts(helpers);
      assert below.walked + rest.walked + {} == below.walked + rest.walked;
    }
  }

  /** The search succeeds exactly when the test or a walked helper has an assertion of its own. */
  lemma SearchFindsWalkedIff(body: seq<Node>, helpers: Helpers)
    ensures Search(body, helpers, {}, 0).found
            <==> HasDirect(body) || SomeAsserts(helpers, Walk(body, helpers, {}, 0).walked)
  {
    SearchFollowsWalk(body, helpers, {}, 0);
  }

  // ---------------------------------------------------------------- helpers called at all

  ghost predicate Chain(body: seq<Node>, helpers: Helpers, path: seq<string>)
    decreases |path|
  {
    path == [] || (Follows(body, helpers, path[0]) && Chain(helpers[path[0]], helpers, path[1..]))
  }

  /** A chain of helper calls leads to this helper. */
  ghost predicate Called(body: seq<Node>, helpers: Helpers, name: string) {
    exists path :: path != [] && path[|path| - 1] == name && Chain(body, helpers, path)
  }

  lemma {:induction false} ChainEnd(body: seq<Node>, helpers: Helpers, path: seq<string>)
    requires path != [] && Chain(body, helpers, path)
    ensures path[|path| - 1] in helpers
    ensures LeadsToAssertion(body, helpers, path) <==> HasDirect(helpers[path[|path| - 1]])
    decreases |path|
  {
    if |path| > 1 { ChainEnd(helpers[path[0]], helpers, path[1..]); }
  }

  lemma {:induction false} LeadingIsChain(body: seq<Node>, helpers: Helpers, path: seq<string>)
    requires LeadsToAssertion(body, helpers, path)
    ensures Chain(body, helpers, path)
    decreases |path|
  {
    if path != [] { LeadingIsChain(helpers[path[0]], helpers, path[1..]); }
  }

  /** An assertion is reachable exactly when the test or a called helper has one of its own. */
  lemma ReachableIff(body: seq<Node>, helpers: Helpers)
    ensures AssertionReachable(body, helpers)
            <==> HasDirect(body)
                 || exists name :: Called(body, helpers, name) && name in helpers && HasDirect(helpers[name])
  {
    if AssertionReachable(body, helpers) {
      var path :| LeadsToAssertion(body, helpers, path);
      LeadingIsChain(body, helpers, path);
      if path != [] {
        ChainEnd(body, helpers, path);
        assert Called(body, helpers, path[|path| - 1]);
      }
    }
    if HasDirect(body) { assert LeadsToAssertion(body, helpers, []); }
    if name :| Called(body, helpers, name) && name in helpers && HasDirect(helpers[name]) {
      var path :| path != [] && path[|path| - 1] == name && Chain(body, helpers, path);
      ChainEnd(body, helpers, path);
    }
  }

  lemma ExtendChain(body: seq<Node>, helpers: Helpers, name: string, target: string)
    requires Follows(body, helpers, name) && (target == name || Called(helpers[name], helpers, target))
    ensures Called(body, helpers, target)
  {
    assert name in helpers;
    hide Follows;
    if target == name {
      assert Chain(helpers[name], helpers, [name][1..]);
      assert [name][|[name]| - 1] == target && Chain(body, helpers, [name]);
    } else {
      var path :| path != [] && path[|path| - 1] == target && Chain(helpers[name], helpers, path);
      var longer := [name] + path;
      assert longer[1..] == path && longer[|longer| - 1] == target && Chain(body, helpers, longer);
    }
  }

  lemma CalledFromLargerBody(body: seq<Node>, helpers: Helpers, target: string)
    requires body != [] && Called(body[1..], helpers, target)
    ensures Called(body, helpers, target)
  {
    var path :| path != [] && path[|path| - 1] == target && Chain(body[1..], helpers, path);
    assert Follows(body, helpers, path[0]) && Chain(body, helpers, path);
  }

  lemma {:induction false} WalkedIsCalled(body: seq<Node>, helpers: Helpers, seen: set<string>, depth: nat, h: string)
    requires h in Walk(body, helpers, seen, depth).walked
    ensures Called(body, helpers, h)
    decreases MAX_DEPTH + 1 - depth, |body|
  {
    hide Called, Direct;
    var n := body[0];
    if n.Call? && !Direct(n) && n.name in helpers && n.name !in seen {
      var below := Walk(helpers[n.name], helpers, seen + {n.name}, depth + 1);
      if h == n.name || h in below.walked {
        if h != n.name { WalkedIsCalled(helpers[n.name], helpers, seen + {n.name}, depth + 1, h); }
        ExtendChain(body, helpers, n.name, h);
      } else {
        WalkedIsCalled(body[1..], helpers, below.seen, depth, h);
        CalledFromLargerBody(body, helpers, h);
      }
    } else {
      WalkedIsCalled(body[1..], helpers, seen, depth, h);
      CalledFromLargerBody(body, helpers, h);
    }
  }

  ghost predicate Exact(body: seq<Node>, helpers: Helpers) {
    Search(body, helpers, {}, 0).found <==> AssertionReachable(body, helpers)
  }

  /** Some helper that is called but not walked has an assertion of its own. */
  ghost predicate UnwalkedAsserts(body: seq<Node>, helpers: Helpers) {
    exists name :: && Called(body, helpers, name) && name !in Walk(body, helpers, {}, 0).walked
                   && name in helpers && HasDirect(helpers[name])
  }

  /** The verdict is wrong exactly when helpers that are called but not walked assert, and neither
      the test nor any walked helper does. */
  lemma VerdictWrongIff(body: seq<Node>, helpers: Helpers)
    ensures !Exact(body, helpers)
            <==> (&& UnwalkedAsserts(body, helpers) && !HasDirect(body)
                  && !SomeAsserts(helpers, Walk(body, helpers, {}, 0).walked))
  {
    hide Called, HasDirect, AssertionReachable, Search, Walk;
    var walked := Walk(body, helpers, {}, 0).walked;
    SearchFindsWalkedIff(body, helpers);
    ReachableIff(body, helpers);
    forall h | h in walked ensures Called(body, helpers, h) { WalkedIsCalled(body, helpers, {}, 0, h); }
  }

  // ---------------------------------------------------------------- wherever the assertions are

  /** The helpers with an assertion put into each of those named. */
  function Marked(helpers: Helpers, asserting: set<string>): (m: Helpers)
    ensures m.Keys == helpers.Keys
  {
    map name | name in helpers :: if name in asserting then helpers[name] + [Assert] else helpers[name]
  }

  ghost predicate NoAssertions(body: seq<Node>, helpers: Helpers) {
    !HasDirect(body) && forall name :: name in helpers ==> !HasDirect(helpers[name])
  }

  ghost predicate CalledAreWalked(body: seq<Node>, helpers: Helpers) {
    forall name :: Called(body, helpers, name) ==> name in Walk(body, helpers, {}, 0).walked
  }

  lemma {:induction false} WalkIgnoresAssertion(body: seq<Node>, helpers: Helpers, seen: set<string>, depth: nat)
    ensures Walk(body + [Assert], helpers, seen, depth) == Walk(body, helpers, seen, depth)
    decreases |body|
  {
    if body == [] {
      assert ([] + [Assert])[1..] == body;
    } else if depth <= MAX_DEPTH {
      assert (body + [Assert])[1..] == body[1..] + [Assert];
      var n := body[0];
      if n.Call? && !Direct(n) && n.name in helpers && n.name !in seen {
        var below := Walk(helpers[n.name], helpers, seen + {n.name}, depth + 1);
        WalkIgnoresAssertion(body[1..], helpers, below.seen, depth);
      } else {
        WalkIgnoresAssertion(body[1..], helpers, seen, depth);
      }
    }
  }

  lemma MarkedHelperWalks(helpers: Helpers, asserting: set<string>, name: string, seen: set<string>, depth: nat)
    requires name in helpers
    ensures name in Marked(helpers, asserting)
    ensures Walk(Marked(helpers, asserting)[name], Marked(helpers, asserting), seen, depth)
            == Walk(helpers[name], Marked(helpers, asserting), seen, depth)
  {
    WalkIgnoresAssertion(helpers[name], Marked(helpers, asserting), seen, depth);
  }

  lemma {:induction false} MarkingKeepsWalk(body: seq<Node>, helpers: Helpers, asserting: set<string>,
                                            seen: set<string>, depth: nat)
    ensures Walk(body, Marked(helpers, asserting), seen, depth) == Walk(body, helpers, seen, depth)
    decreases if depth > MAX_DEPTH then 0 else MAX_DEPTH + 1 - depth, |body|
  {
    hide Marked, Direct;
    if depth <= MAX_DEPTH && body != [] {
      var n, marked := body[0], Marked(helpers, asserting);
      assert n.Call? ==> (n.name in marked <==> n.name in marked.Keys);
      if n.Call? && !Direct(n) && n.name in helpers && n.name !in seen {
        var below := Walk(helpers[n.name], helpers, seen + {n.name}, depth + 1);
        MarkingKeepsWalk(helpers[n.name], helpers, asserting, seen + {n.name}, depth + 1);
        MarkedHelperWalks(helpers, asserting, n.name, seen + {n.name}, depth + 1);
        MarkingKeepsWalk(body[1..], helpers, asserting, below.seen, depth);
      } else {
        MarkingKeepsWalk(body[1..], helpers, asserting, seen, depth);
      }
    }
  }

  lemma FollowsIgnoresAssertion(body: seq<Node>, helpers: Helpers, marked: Helpers, name: string)
    requires marked.Keys == helpers.Keys
    ensures Follows(body + [Assert], marked, name) <==> Follows(body, helpers, name)
    ensures Follows(body, marked, name) <==> Follows(body, helpers, name)
  {
    assert name in marked <==> name in marked.Keys;
    assert name in helpers <==> name in helpers.Keys;
    assert Call(name) in body + [Assert] <==> Call(name) in body;
  }

  lemma {:induction false} ChainIgnoresAssertion(body: seq<Node>, helpers: Helpers, path: seq<string>)
    ensures Chain(body + [Assert], helpers, path) <==> Chain(body, helpers, path)
  {
    if path != [] { FollowsIgnoresAssertion(body, helpers, helpers, path[0]); }
  }

  lemma {:induction false} MarkingKeepsChains(body: seq<Node>, helpers: Helpers, asserting: set<string>,
                                              path: seq<string>)
    ensures Chain(body, Marked(helpers, asserting), path) <==> Chain(body, helpers, path)
    decreases |path|
  {
    if path != [] {
      var marked := Marked(helpers, asserting);
      FollowsIgnoresAssertion(body, helpers, marked, path[0]);
      if path[0] in helpers {
        MarkingKeepsChains(helpers[path[0]], helpers, asserting, path[1..]);
        ChainIgnoresAssertion(helpers[path[0]], marked, path[1..]);
      }
    }
  }

  lemma MarkingKeepsCalled(body: seq<Node>, helpers: Helpers, asserting: set<string>, name: string)
    ensures Called(body, Marked(helpers, asserting), name) <==> Called(body, helpers, name)
  {
    forall path ensures Chain(body, Marked(helpers, asserting), path) <==> Chain(body, helpers, path) {
      MarkingKeepsChains(body, helpers, asserting, path);
    }
  }

  lemma MarkedAsserts(body: seq<Node>, helpers: Helpers, asserting: set<string>, name: string)
    requires NoAssertions(body, helpers) && name in helpers
    ensures HasDirect(Marked(helpers, asserting)[name]) <==> name in asserting
  {
    if name in asserting { assert Direct(Marked(helpers, asserting)[name][|helpers[name]|]); }
  }

  /** For helpers whose calls are given and whose assertions are not: the search is exact for
      every choice of asserting helpers if and only if every helper called is walked. */
  lemma ExactEverywhereIff(body: seq<Node>, helpers: Helpers)
    requires NoAssertions(body, helpers)
    ensures (forall asserting :: Exact(body, Marked(helpers, asserting))) <==> CalledAreWalked(body, helpers)
  {
    hide Exact, Called, HasDirect, Walk;
    var walked := Walk(body, helpers, {}, 0).walked;
    if CalledAreWalked(body, helpers) {
      forall asserting ensures Exact(body, Marked(helpers, asserting)) {
        var marked := Marked(helpers, asserting);
        MarkingKeepsWalk(body, helpers, asserting, {}, 0);
        VerdictWrongIff(body, marked);
        forall name | Called(body, marked, name) ensures name in walked {
          MarkingKeepsCalled(body, helpers, asserting, name);
        }
      }
    } else {
      var missed :| Called(body, helpers, missed) && missed !in walked;
      WrongWhenOneAsserts(body, helpers, missed);
    }
  }

  lemma OnlyMissedAsserts(body: seq<Node>, helpers: Helpers, missed: string, walked: set<string>)
    requires NoAssertions(body, helpers) && missed in helpers && missed !in walked
    ensures var marked := Marked(helpers, {missed});
            !HasDirect(body) && missed in marked && HasDirect(marked[missed]) && !SomeAsserts(marked, walked)
  {
    hide HasDirect;
    var marked := Marked(helpers, {missed});
    MarkedAsserts(body, helpers, {missed}, missed);
    forall name | name in walked && name in marked ensures !HasDirect(marked[name]) {
      MarkedAsserts(body, helpers, {missed}, name);
    }
  }

  lemma WrongWhenOneAsserts(body: seq<Node>, helpers: Helpers, missed: string)
    requires NoAssertions(body, helpers)
    requires Called(body, helpers, missed) && missed !in Walk(body, helpers, {}, 0).walked
    ensures !Exact(body, Marked(helpers, {missed}))
  {
    hide Exact, Called, HasDirect, Walk, Marked, NoAssertions, SomeAsserts;
    var marked, walked := Marked(helpers, {missed}), Walk(body, helpers, {}, 0).walked;
    CalledIsHelper(body, helpers, missed);
    MarkingKeepsWalk(body, helpers, {missed}, {}, 0);
    MarkingKeepsCalled(body, helpers, {missed}, missed);
    OnlyMissedAsserts(body, helpers, missed, walked);
    VerdictWrongIff(body, marked);
  }

  lemma CalledIsHelper(body: seq<Node>, helpers: Helpers, name: string)
    requires Called(body, helpers, name)
    ensures name in helpers
  {
    var path :| path != [] && path[|path| - 1] == name && Chain(body, helpers, path);
    ChainEnd(body, helpers, path);
  }

  // ---------------------------------------------------------------- when nothing is cut off

  /** Every helper the body calls has been seen. */
  ghost predicate Covered(body: seq<Node>, helpers: Helpers, seen: set<string>) {
    forall name :: Follows(body, helpers, name) ==> name in seen
  }

  /** The walked helpers have covered bodies. */
  ghost predicate Closed(helpers: Helpers, walked: set<string>, seen: set<string>) {
    forall name :: name in walked && name in helpers ==> Covered(helpers[name], helpers, seen)
  }

  lemma CoveredFirst(body: seq<Node>, helpers: Helpers, seen: set<string>)
    requires body != [] && Covered(body[1..], helpers, seen)
    requires body[0].Call? && !Direct(body[0]) && body[0].name in helpers ==> body[0].name in seen
    ensures Covered(body, helpers, seen)
  {
    forall name | Follows(body, helpers, name) ensures name in seen {
      if Call(name) != body[0] { assert Follows(body[1..], helpers, name); }
    }
  }

  lemma ClosedGrows(helpers: Helpers, walked: set<string>, seen: set<string>, more: set<string>)
    requires Closed(helpers, walked, seen) && seen <= more
    ensures Closed(helpers, walked, more)
  {}

  lemma {:induction false} WalkCloses(body: seq<Node>, helpers: Helpers, seen: set<string>, depth: nat)
    requires depth <= MAX_DEPTH
    ensures var t := Walk(body, helpers, seen, depth);
            Covered(body, helpers, t.seen) && Closed(helpers, t.walked, t.seen)
    decreases MAX_DEPTH + 1 - depth, |body|
  {
    if body != [] {
      hide Covered, Direct;
      var n, all := body[0], Walk(body, helpers, seen, depth);
      if n.Call? && !Direct(n) && n.name in helpers && n.name !in seen {
        var below := Walk(helpers[n.name], helpers, seen + {n.name}, depth + 1);
        WalkCloses(body[1..], helpers, below.seen, depth);
        if depth < MAX_DEPTH {
          WalkCloses(helpers[n.name], helpers, seen + {n.name}, depth + 1);
          CoveredGrows(helpers[n.name], helpers, below.seen, all.seen);
        }
        ClosedGrows(helpers, below.walked, below.seen, all.seen);
      } else {
        WalkCloses(body[1..], helpers, seen, depth);
      }
      CoveredFirst(body, helpers, all.seen);
    }
  }

  lemma CoveredGrows(body: seq<Node>, helpers: Helpers, seen: set<string>, more: set<string>)
    requires Covered(body, helpers, seen) && seen <= more
    ensures Covered(body, helpers, more)
  {}

  lemma {:induction false} ChainStaysWalked(body: seq<Node>, helpers: Helpers, walked: set<string>, path: seq<string>)
    requires Covered(body, helpers, walked) && Closed(helpers, walked, walked)
    requires path != [] && Chain(body, helpers, path)
    ensures path[|path| - 1] in walked
    decreases |path|
  {
    if |path| > 1 { ChainStaysWalked(helpers[path[0]], helpers, walked, path[1..]); }
  }

  lemma NothingCutWalksAll(body: seq<Node>, helpers: Helpers)
    requires Walk(body, helpers, {}, 0).cut == {}
    ensures CalledAreWalked(body, helpers)
  {
    var t := Walk(body, helpers, {}, 0);
    WalkCloses(body, helpers, {}, 0);
    assert t.seen == t.walked;
    forall name | Called(body, helpers, name) ensures name in t.walked {
      var path :| path != [] && path[|path| - 1] == name && Chain(body, helpers, path);
      ChainStaysWalked(body, helpers, t.walked, path);
    }
  }

  ghost predicate DistinctOutside(path: seq<string>, seen: set<string>) {
    path == [] || (path[0] !in seen && DistinctOutside(path[1..], seen + {path[0]}))
  }

  lemma {:induction false} DistinctOutsideLess(path: seq<string>, seen: set<string>, more: set<string>)
    requires DistinctOutside(path, more) && seen <= more
    ensures DistinctOutside(path, seen)
  {
    if path != [] { DistinctOutsideLess(path[1..], seen + {path[0]}, more + {path[0]}); }
  }

  /** Behind every helper cut off stands a chain of distinct helpers up to the bound. */
  lemma {:induction false} CutHasChain(body: seq<Node>, helpers: Helpers, seen: set<string>, depth: nat)
    returns (path: seq<string>)
    requires Walk(body, helpers, seen, depth).cut != {}
    ensures Chain(body, helpers, path) && DistinctOutside(path, seen) && |path| + depth == MAX_DEPTH + 1
    decreases MAX_DEPTH + 1 - depth, |body|
  {
    var n := body[0];
    var seen' := seen;
    if n.Call? && !Direct(n) && n.name in helpers && n.name !in seen {
      var below := Walk(helpers[n.name], helpers, seen + {n.name}, depth + 1);
      if depth == MAX_DEPTH {
        path := [n.name];
        assert path[1..] == [] && Chain(helpers[n.name], helpers, path[1..]);
        assert DistinctOutside(path[1..], seen + {n.name});
        return;
      }
      if below.cut != {} {
        var deeper := CutHasChain(helpers[n.name], helpers, seen + {n.name}, depth + 1);
        path := [n.name] + deeper;
        assert path[1..] == deeper;
        return;
      }
      seen' := below.seen;
    }
    path := CutHasChain(body[1..], helpers, seen', depth);
    DistinctOutsideLess(path, seen, seen');
    assert Follows(body, helpers, path[0]);
  }

  /** No four distinct helpers call each other in a chain from the body on. */
  ghost predicate NoDeepChain(body: seq<Node>, helpers: Helpers) {
    forall path :: Chain(body, helpers, path) && DistinctOutside(path, {}) ==> |path| <= MAX_DEPTH
  }

  /** Without such a chain every helper called is walked and the search is exact, whatever cycles
      the helpers form. */
  lemma ThreeDeepIsEnough(body: seq<Node>, helpers: Helpers)
    requires NoDeepChain(body, helpers)
    ensures CalledAreWalked(body, helpers) && Exact(body, helpers)
  {
    if Walk(body, helpers, {}, 0).cut != {} {
      var path := CutHasChain(body, helpers, {}, 0);
      assert false;
    }
    NothingCutWalksAll(body, helpers);
    VerdictWrongIff(body, helpers);
  }

  // ---------------------------------------------------------------- a missed assertion

  /** Four helpers in a chain, of which only the last asserts. */
  function ChainOfFour(a: string, b: string, c: string, d: string): Helpers {
    map[a := [Call(b)], b := [Call(c)], c := [Call(d)], d := [Assert]]
  }

  lemma SearchOneCall(name: string, helpers: Helpers, seen: set<string>, depth: nat)
    requires depth <= MAX_DEPTH && name in helpers && name !in seen && !Direct(Call(name))
    ensures var below := Search(helpers[name], helpers, seen + {name}, depth + 1);
            var r := Search([Call(name)], helpers, seen, depth);
            r.found == below.found && r.seen == below.seen
  {
    var body := [Call(name)];
    var below := Search(helpers[name], helpers, seen + {name}, depth + 1);
    assert |body[1..]| == 0;
    assert Search(body[1..], helpers, below.seen, depth) == Outcome(false, below.seen);
  }

  lemma ChainUsesUpTheLast(a: string, b: string, c: string, d: string)
    requires a !in {b, c, d} && b !in {c, d} && c != d
    requires !Direct(Call(b)) && !Direct(Call(c)) && !Direct(Call(d))
    ensures var below := Search([Call(b)], ChainOfFour(a, b, c, d), {a}, 1);
            !below.found && d in below.seen
  {
    var helpers := ChainOfFour(a, b, c, d);
    SearchOneCall(d, helpers, {a, b, c}, 3);
    SearchOneCall(c, helpers, {a, b}, 2);
    SearchOneCall(b, helpers, {a}, 1);
    assert {a} + {b} == {a, b} && {a, b} + {c} == {a, b, c};
  }

  lemma LastCallSkipped(d: string, helpers: Helpers, seen: set<string>)
    requires d in seen && !Direct(Call(d))
    ensures !Search([Call(d)], helpers, seen, 0).found
  {
    assert |[Call(d)][1..]| == 0;
  }

  lemma SecondOfTwoCalls(a: string, d: string, helpers: Helpers)
    requires a in helpers && !Direct(Call(a)) && !Direct(Call(d))
    requires var below := Search(helpers[a], helpers, {a}, 1); !below.found && d in below.seen
    ensures !Search([Call(a), Call(d)], helpers, {}, 0).found
  {
    var body := [Call(a), Call(d)];
    assert body[1..] == [Call(d)] && {} + {a} == {a};
    LastCallSkipped(d, helpers, Search(helpers[a], helpers, {a}, 1).seen);
  }

  /** The first call uses the last helper up at the depth bound, so that the test's own direct
      call of it, one helper away from an assertion, is skipped as already seen. */
  lemma SharedSetMisses(a: string, b: string, c: string, d: string)
    requires a !in {b, c, d} && b !in {c, d} && c != d
    requires !Direct(Call(a)) && !Direct(Call(b)) && !Direct(Call(c)) && !Direct(Call(d))
    ensures var helpers, body := ChainOfFour(a, b, c, d), [Call(a), Call(d)];
            !Search(body, helpers, {}, 0).found && LeadsToAssertion(body, helpers, [d])
  {
    var helpers, body := ChainOfFour(a, b, c, d), [Call(a), Call(d)];
    ChainUsesUpTheLast(a, b, c, d);
    SecondOfTwoCalls(a, d, helpers);
    assert Direct([Assert][0]) && LeadsToAssertion(helpers[d], helpers, []);
    assert body[1] == Call(d);
    ExtendPath(body, helpers, d, []);
    assert [d] + [] == [d];
  }
}
