/**
 * The client-side suite hierarchy: a tree of named suites that hold specifications.
 *
 * The tree is a value (`Suite`) owned by a `SuiteTree` object, which plays the role of
 * the arena in which suites and specifications keep non-owning back-references to their
 * container. A back-reference is the `Address` of a suite: the indices of the child
 * suites followed from the root. The queries (height, all specs, summary, icon, filter,
 * childSuite, hasSpec) are functions of a suite value; addSpec, addChildSuite and
 * replaceSpec change the tree in place and keep every back-reference correct.
 */
module Suites {
  import Wrappers

  type SpecId = string

  /** The indices of the child suites that lead from the root to a suite. */
  type Address = seq<nat>

  /** A back-reference to a containing suite, or none before a spec is attached. */
  datatype Link = Detached | Attached(at: Address)

  datatype Lifecycle = Acceptance | Regression

  /** The display state of a specification. */
  datatype State = None | Success | Failed | Error | Running

  /** A specification as it arrives in the suite document; the lifecycle may be missing. */
  datatype SpecData = SpecData(id: SpecId, title: string, lifecycle: Wrappers.Option<Lifecycle>)

  datatype Spec = Spec(id: SpecId, title: string, lifecycle: Lifecycle, state: State, suite: Link)

  /** A suite as it arrives in the suite document. */
  datatype SuiteData = SuiteData(name: string, path: string, specs: seq<SpecData>, suites: seq<SuiteData>)

  datatype Suite = Suite(name: string, path: string, parent: Link, specs: seq<Spec>, suites: seq<Suite>)

  /** Aggregate of specification outcomes: by lifecycle, by state, and in all. */
  datatype Counts = Counts(acceptance: nat, regression: nat, success: nat, failed: nat, none: nat, total: nat)

  // ---------------------------------------------------------------------------
  // Construction

  /** A new specification: missing lifecycle means Acceptance, the state starts as none. */
  function NewSpec(data: SpecData): (s: Spec)
    ensures s.id == data.id && s.title == data.title
    ensures data.lifecycle.None? ==> s.lifecycle == Acceptance
    ensures data.lifecycle.Some? ==> s.lifecycle == data.lifecycle.value
    ensures s.state == None && s.suite == Detached
  {
    Spec(data.id, data.title, if data.lifecycle.Some? then data.lifecycle.value else Acceptance, None, Detached)
  }

  /** Builds the suite at address `at` from its document, linking every child to it. */
  function Build(data: SuiteData, parent: Link, at: Address): Suite
    decreases data
  {
    Suite(data.name, data.path, parent,
          seq(|data.specs|, k requires 0 <= k < |data.specs| => NewSpec(data.specs[k]).(suite := Attached(at))),
          seq(|data.suites|, i requires 0 <= i < |data.suites| => Build(data.suites[i], Attached(at), at + [i])))
  }

  /**
   * The back-reference invariant of the suite at address `at`: each of its specs names it
   * as `suite`, each child suite names it as `parent`, and so on down the tree.
   */
  predicate Linked(s: Suite, at: Address)
    decreases s
  {
    && (forall k :: 0 <= k < |s.specs| ==> s.specs[k].suite == Attached(at))
    && (forall i :: 0 <= i < |s.suites| ==> s.suites[i].parent == Attached(at) && Linked(s.suites[i], at + [i]))
  }

  /** Construction sets every back-reference. */
  lemma {:induction false} BuildIsLinked(data: SuiteData, parent: Link, at: Address)
    ensures Build(data, parent, at).parent == parent
    ensures Linked(Build(data, parent, at), at)
    decreases data
  {
    var s := Build(data, parent, at);
    forall i | 0 <= i < |s.suites|
      ensures s.suites[i].parent == Attached(at) && Linked(s.suites[i], at + [i])
    {
      BuildIsLinked(data.suites[i], Attached(at), at + [i]);
    }
  }

  // ---------------------------------------------------------------------------
  // Queries

  /** The height counts the suite itself, its own specs and the heights of its children. */
  function Height(s: Suite): nat
    decreases s
  {
    1 + |s.specs| + HeightSum(s.suites)
  }

  function HeightSum(ss: seq<Suite>): nat
    decreases ss
  {
    if ss == [] then 0 else Height(ss[0]) + HeightSum(ss[1..])
  }

  /** The number of suite nodes in the subtree, the suite itself included. */
  function SuiteCount(s: Suite): nat
    decreases s
  {
    1 + SuiteCountSum(s.suites)
  }

  function SuiteCountSum(ss: seq<Suite>): nat
    decreases ss
  {
    if ss == [] then 0 else SuiteCount(ss[0]) + SuiteCountSum(ss[1..])
  }

  /** Pre-order: the suite's own specs, then each child suite in declaration order. */
  function AllSpecs(s: Suite): seq<Spec>
    decreases s
  {
    s.specs + AllSpecsIn(s.suites)
  }

  function AllSpecsIn(ss: seq<Suite>): seq<Spec>
    decreases ss
  {
    if ss == [] then [] else AllSpecs(ss[0]) + AllSpecsIn(ss[1..])
  }

  function Ids(specs: seq<Spec>): (r: seq<SpecId>)
    ensures |r| == |specs|
    ensures forall k :: 0 <= k < |specs| ==> r[k] == specs[k].id
  {
    seq(|specs|, k requires 0 <= k < |specs| => specs[k].id)
  }

  function AllSpecIds(s: Suite): seq<SpecId>
  {
    Ids(AllSpecs(s))
  }

  /** Whether the suite itself holds a spec with this id. */
  predicate HasSpec(s: Suite, id: SpecId)
  {
    exists k :: 0 <= k < |s.specs| && s.specs[k].id == id
  }

  /** The height is the number of suite nodes plus the number of specs underneath. */
  lemma {:induction false} HeightCountsSuitesAndSpecs(s: Suite)
    ensures Height(s) == SuiteCount(s) + |AllSpecs(s)|
    decreases s
  {
    HeightSumCountsSuitesAndSpecs(s.suites);
  }

  lemma {:induction false} HeightSumCountsSuitesAndSpecs(ss: seq<Suite>)
    ensures HeightSum(ss) == SuiteCountSum(ss) + |AllSpecsIn(ss)|
    decreases ss
  {
    if ss != [] {
      HeightCountsSuitesAndSpecs(ss[0]);
      HeightSumCountsSuitesAndSpecs(ss[1..]);
    }
  }

  // Summary

  const NoCounts := Counts(0, 0, 0, 0, 0, 0)

  function Plus(a: Counts, b: Counts): Counts
  {
    Counts(a.acceptance + b.acceptance, a.regression + b.regression, a.success + b.success,
           a.failed + b.failed, a.none + b.none, a.total + b.total)
  }

  /** What a single specification contributes to a summary. */
  function CountOf(spec: Spec): Counts
  {
    Counts(if spec.lifecycle == Acceptance then 1 else 0,
           if spec.lifecycle == Regression then 1 else 0,
           if spec.state == Success then 1 else 0,
           if spec.state == Failed then 1 else 0,
           if spec.state == None then 1 else 0,
           1)
  }

  /** The reference count of a flat list of specifications: each one once. */
  function Tally(specs: seq<Spec>): Counts
  {
    if specs == [] then NoCounts else Plus(CountOf(specs[0]), Tally(specs[1..]))
  }

  /** A suite's summary: its own specs plus the summaries of its child suites. */
  function Summary(s: Suite): Counts
    decreases s
  {
    Plus(Tally(s.specs), SummarySum(s.suites))
  }

  function SummarySum(ss: seq<Suite>): Counts
    decreases ss
  {
    if ss == [] then NoCounts else Plus(Summary(ss[0]), SummarySum(ss[1..]))
  }

  lemma {:induction false} TallyAppend(a: seq<Spec>, b: seq<Spec>)
    ensures Tally(a + b) == Plus(Tally(a), Tally(b))
  {
    if a == [] {
      assert a + b == b;
    } else {
      var ab := a + b;
      assert ab[0] == a[0];
      assert ab[1..] == a[1..] + b;
      TallyAppend(a[1..], b);
      calc {
        Tally(ab);
        Plus(CountOf(a[0]), Tally(a[1..] + b));
        Plus(CountOf(a[0]), Plus(Tally(a[1..]), Tally(b)));
        { PlusAssociative(CountOf(a[0]), Tally(a[1..]), Tally(b)); }
        Plus(Tally(a), Tally(b));
      }
    }
  }

  lemma PlusAssociative(x: Counts, y: Counts, z: Counts)
    ensures Plus(Plus(x, y), z) == Plus(x, Plus(y, z))
  {
  }

  /** The summary counts every specification under the suite exactly once. */
  lemma {:induction false} SummaryCountsEachSpecOnce(s: Suite)
    ensures Summary(s) == Tally(AllSpecs(s))
    decreases s
  {
    SummarySumCountsEachSpecOnce(s.suites);
    TallyAppend(s.specs, AllSpecsIn(s.suites));
  }

  lemma {:induction false} SummarySumCountsEachSpecOnce(ss: seq<Suite>)
    ensures SummarySum(ss) == Tally(AllSpecsIn(ss))
    decreases ss
  {
    if ss != [] {
      SummaryCountsEachSpecOnce(ss[0]);
      SummarySumCountsEachSpecOnce(ss[1..]);
      TallyAppend(AllSpecs(ss[0]), AllSpecsIn(ss[1..]));
    }
  }

  /**
   * The categories of a tally add up: the two lifecycles make the total, and the three
   * state counters make the total once no spec is in error or running.
   */
  lemma {:induction false} TallyAddsUp(specs: seq<Spec>)
    ensures Tally(specs).total == |specs|
    ensures Tally(specs).acceptance + Tally(specs).regression == Tally(specs).total
    ensures Tally(specs).success + Tally(specs).failed + Tally(specs).none <= Tally(specs).total
    ensures (forall k :: 0 <= k < |specs| ==> specs[k].state != Error && specs[k].state != Running) ==>
              Tally(specs).success + Tally(specs).failed + Tally(specs).none == Tally(specs).total
  {
    if specs != [] {
      var rest := specs[1..];
      TallyAddsUp(rest);
      assert Tally(specs) == Plus(CountOf(specs[0]), Tally(rest));
      if forall k :: 0 <= k < |specs| ==> specs[k].state != Error && specs[k].state != Running {
        assert forall k :: 0 <= k < |rest| ==> rest[k] == specs[k + 1];
        assert specs[0].state != Error && specs[0].state != Running;
      }
    }
  }

  // Icon

  /** The first spec in the given state, if there is one. */
  function FirstInState(specs: seq<Spec>, st: State): (r: Wrappers.Option<nat>)
    ensures r.Some? ==> r.value < |specs| && specs[r.value].state == st
    ensures r.Some? ==> forall k :: 0 <= k < r.value ==> specs[k].state != st
    ensures r.None? <==> forall k :: 0 <= k < |specs| ==> specs[k].state != st
  {
    if specs == [] then Wrappers.None
    else if specs[0].state == st then Wrappers.Some(0)
    else match FirstInState(specs[1..], st)
      case None => Wrappers.None
      case Some(j) => Wrappers.Some(j + 1)
  }

  /** The icon of a list of specs; `specIcon` is the running spec's own icon. */
  function IconOf(specs: seq<Spec>, specIcon: Spec -> string): string
  {
    match FirstInState(specs, Running)
    case Some(k) => specIcon(specs[k])
    case None =>
      if FirstInState(specs, Failed).Some? then "failed"
      else if FirstInState(specs, Success).Some? then "success"
      else "none"
  }

  /** A suite's icon is derived from all the specs under it. */
  function Icon(s: Suite, specIcon: Spec -> string): string
  {
    IconOf(AllSpecs(s), specIcon)
  }

  /** Whether some spec of the list is in the given state. */
  predicate AnyInState(specs: seq<Spec>, st: State)
  {
    exists k :: 0 <= k < |specs| && specs[k].state == st
  }

  /**
   * The icon's priority: the first running spec's own icon beats "failed", which beats
   * "success", which beats "none" (also the icon of a suite without specs).
   */
  lemma IconPriority(s: Suite, specIcon: Spec -> string)
    ensures forall k :: (0 <= k < |AllSpecs(s)| && AllSpecs(s)[k].state == Running &&
                         forall j :: 0 <= j < k ==> AllSpecs(s)[j].state != Running) ==>
              Icon(s, specIcon) == specIcon(AllSpecs(s)[k])
    ensures !AnyInState(AllSpecs(s), Running) && AnyInState(AllSpecs(s), Failed) ==>
              Icon(s, specIcon) == "failed"
    ensures !AnyInState(AllSpecs(s), Running) && !AnyInState(AllSpecs(s), Failed) && AnyInState(AllSpecs(s), Success) ==>
              Icon(s, specIcon) == "success"
    ensures !AnyInState(AllSpecs(s), Running) && !AnyInState(AllSpecs(s), Failed) && !AnyInState(AllSpecs(s), Success) ==>
              Icon(s, specIcon) == "none"
  {
  }

  // Filter

  /** The specs satisfying `p`, in their original order. */
  function KeepSpecs(specs: seq<Spec>, p: Spec -> bool): (r: seq<Spec>)
    ensures |r| <= |specs|
    ensures forall x :: x in r <==> x in specs && p(x)
  {
    if specs == [] then []
    else (if p(specs[0]) then [specs[0]] else []) + KeepSpecs(specs[1..], p)
  }

  predicate IsEmpty(s: Suite)
  {
    |s.specs| == 0 && |s.suites| == 0
  }

  /**
   * A new suite with the same name and path that keeps only the specs satisfying `p`;
   * child suites left with no specs and no child suites are dropped.
   */
  function Filter(s: Suite, p: Spec -> bool): Suite
    decreases s
  {
    s.(specs := KeepSpecs(s.specs, p), suites := FilterChildren(s.suites, p))
  }

  /** The filtered copy keeps the suite's name, path and parent. */
  lemma FilterKeepsIdentity(s: Suite, p: Spec -> bool)
    ensures Filter(s, p).name == s.name && Filter(s, p).path == s.path && Filter(s, p).parent == s.parent
  {
  }

  function FilterChildren(ss: seq<Suite>, p: Spec -> bool): seq<Suite>
    decreases ss
  {
    if ss == [] then []
    else
      var f := Filter(ss[0], p);
      (if IsEmpty(f) then [] else [f]) + FilterChildren(ss[1..], p)
  }

  lemma {:induction false} KeepSpecsAppend(a: seq<Spec>, b: seq<Spec>, p: Spec -> bool)
    ensures KeepSpecs(a + b, p) == KeepSpecs(a, p) + KeepSpecs(b, p)
  {
    if a == [] {
      assert a + b == b;
    } else {
      var ab := a + b;
      assert ab[0] == a[0];
      assert ab[1..] == a[1..] + b;
      KeepSpecsAppend(a[1..], b, p);
    }
  }

  /** Filtering keeps exactly the specs satisfying `p`, in their pre-order. */
  lemma {:induction false} FilterKeepsMatchingSpecs(s: Suite, p: Spec -> bool)
    ensures AllSpecs(Filter(s, p)) == KeepSpecs(AllSpecs(s), p)
    decreases s
  {
    FilterChildrenKeepsMatchingSpecs(s.suites, p);
    KeepSpecsAppend(s.specs, AllSpecsIn(s.suites), p);
  }

  lemma {:induction false} FilterChildrenKeepsMatchingSpecs(ss: seq<Suite>, p: Spec -> bool)
    ensures AllSpecsIn(FilterChildren(ss, p)) == KeepSpecs(AllSpecsIn(ss), p)
    decreases ss
  {
    if ss != [] {
      var f := Filter(ss[0], p);
      var rest := FilterChildren(ss[1..], p);
      FilterKeepsMatchingSpecs(ss[0], p);
      FilterChildrenKeepsMatchingSpecs(ss[1..], p);
      KeepSpecsAppend(AllSpecs(ss[0]), AllSpecsIn(ss[1..]), p);
      if IsEmpty(f) {
        assert AllSpecs(f) == [];
        assert FilterChildren(ss, p) == rest;
      } else {
        var r := FilterChildren(ss, p);
        assert r == [f] + rest;
        assert r[0] == f && r[1..] == rest;
      }
    }
  }

  /** Every suite below the root of the tree has a spec or a child suite. */
  predicate NoEmptyChildren(s: Suite)
    decreases s
  {
    forall i :: 0 <= i < |s.suites| ==> !IsEmpty(s.suites[i]) && NoEmptyChildren(s.suites[i])
  }

  /** A filtered tree holds no empty suite below its root. */
  lemma {:induction false} FilterDropsEmptySuites(s: Suite, p: Spec -> bool)
    ensures NoEmptyChildren(Filter(s, p))
    decreases s
  {
    FilterChildrenNotEmpty(s.suites, p);
  }

  lemma {:induction false} FilterChildrenNotEmpty(ss: seq<Suite>, p: Spec -> bool)
    ensures forall i :: 0 <= i < |FilterChildren(ss, p)| ==>
              !IsEmpty(FilterChildren(ss, p)[i]) && NoEmptyChildren(FilterChildren(ss, p)[i])
    decreases ss
  {
    if ss != [] {
      var f := Filter(ss[0], p);
      var r := FilterChildren(ss, p);
      FilterDropsEmptySuites(ss[0], p);
      FilterChildrenNotEmpty(ss[1..], p);
      if !IsEmpty(f) {
        assert r == [f] + FilterChildren(ss[1..], p);
      }
    }
  }

  /** Each filtered child suite is the filtered copy of an original child. */
  lemma {:induction false} FilterChildrenFromOriginals(ss: seq<Suite>, p: Spec -> bool)
    ensures forall f :: f in FilterChildren(ss, p) ==> exists c :: c in ss && f == Filter(c, p)
    decreases ss
  {
    if ss != [] {
      var f0 := Filter(ss[0], p);
      var rest := FilterChildren(ss[1..], p);
      FilterChildrenFromOriginals(ss[1..], p);
      assert FilterChildren(ss, p) == (if IsEmpty(f0) then [] else [f0]) + rest;
      forall f | f in FilterChildren(ss, p)
        ensures exists c :: c in ss && f == Filter(c, p)
      {
        if f in rest {
          var c :| c in ss[1..] && f == Filter(c, p);
          assert c in ss;
        } else {
          assert f == f0 && ss[0] in ss;
        }
      }
    }
  }

  lemma {:induction false} NonEmptyHasSpecs(s: Suite)
    requires NoEmptyChildren(s) && !IsEmpty(s)
    ensures |AllSpecs(s)| > 0
    decreases s
  {
    if |s.specs| == 0 {
      NonEmptyHasSpecs(s.suites[0]);
    }
  }

  /** A child suite survives filtering exactly when some spec under it satisfies `p`. */
  lemma KeptIffSomeSpecSurvives(c: Suite, p: Spec -> bool)
    ensures !IsEmpty(Filter(c, p)) <==> exists x :: x in AllSpecs(c) && p(x)
  {
    var f := Filter(c, p);
    FilterKeepsMatchingSpecs(c, p);
    if !IsEmpty(f) {
      FilterDropsEmptySuites(c, p);
      NonEmptyHasSpecs(f);
      assert AllSpecs(f)[0] in KeepSpecs(AllSpecs(c), p);
    } else {
      assert AllSpecs(f) == [];
    }
  }

  // ---------------------------------------------------------------------------
  // Child suites and paths

  /** The root's path is empty; below it a path is the parent's path, '/', and the name. */
  function JoinPath(parentPath: string, name: string): string
  {
    if parentPath == "" then name else parentPath + "/" + name
  }

  /** The index of the first suite with the given name. */
  function ChildSuiteIn(ss: seq<Suite>, name: string): (r: Wrappers.Option<nat>)
    ensures r.Some? ==> r.value < |ss| && ss[r.value].name == name
    ensures r.Some? ==> forall j :: 0 <= j < r.value ==> ss[j].name != name
    ensures r.None? <==> forall j :: 0 <= j < |ss| ==> ss[j].name != name
  {
    if ss == [] then Wrappers.None
    else if ss[0].name == name then Wrappers.Some(0)
    else match ChildSuiteIn(ss[1..], name)
      case None => Wrappers.None
      case Some(j) => Wrappers.Some(j + 1)
  }

  /** childSuite(name): the position of the child suite called `name`, or none. */
  function ChildSuite(s: Suite, name: string): Wrappers.Option<nat>
  {
    ChildSuiteIn(s.suites, name)
  }

  /** The suite that addChildSuite appends under `s`, which sits at address `at`. */
  function NewChild(s: Suite, at: Address, name: string): Suite
  {
    Suite(name, JoinPath(s.path, name), Attached(at), [], [])
  }

  /** After adding a child named `name`, childSuite finds a suite with that name; when no
      child had that name before, it is the new one, with the derived path. */
  lemma AddedChildIsFound(s: Suite, at: Address, name: string)
    ensures var s' := s.(suites := s.suites + [NewChild(s, at, name)]);
            && ChildSuite(s', name).Some?
            && s'.suites[ChildSuite(s', name).value].name == name
            && (ChildSuite(s, name).None? ==>
                  ChildSuite(s', name).value == |s.suites| &&
                  s'.suites[ChildSuite(s', name).value].path == JoinPath(s.path, name))
  {
    var s' := s.(suites := s.suites + [NewChild(s, at, name)]);
    assert s'.suites[|s.suites|].name == name;
  }

  // ---------------------------------------------------------------------------
  // Replacing a spec

  /** The specs with every one carrying the id of `spec` swapped for `spec`, in place. */
  function ReplaceById(specs: seq<Spec>, spec: Spec): seq<Spec>
  {
    seq(|specs|, k requires 0 <= k < |specs| => if specs[k].id == spec.id then spec else specs[k])
  }

  /** After replaceSpec the suite still has the id, holds the new spec where the old one
      was, holds no other spec with that id, and keeps every other spec in place. */
  lemma ReplaceSpecEffect(s: Suite, spec: Spec)
    requires HasSpec(s, spec.id)
    ensures var s' := s.(specs := ReplaceById(s.specs, spec));
            && HasSpec(s', spec.id)
            && spec in s'.specs
            && spec in AllSpecs(s')
            && (forall x :: x in s'.specs && x.id == spec.id ==> x == spec)
            && |s'.specs| == |s.specs|
            && (forall k :: 0 <= k < |s.specs| && s.specs[k].id != spec.id ==> s'.specs[k] == s.specs[k])
  {
    var k :| 0 <= k < |s.specs| && s.specs[k].id == spec.id;
    var s' := s.(specs := ReplaceById(s.specs, spec));
    assert s'.specs[k] == spec;
  }

  // ---------------------------------------------------------------------------
  // Addresses in the tree

  predicate IsAddress(s: Suite, a: Address)
    decreases a
  {
    a == [] || (a[0] < |s.suites| && IsAddress(s.suites[a[0]], a[1..]))
  }

  function NodeAt(s: Suite, a: Address): Suite
    requires IsAddress(s, a)
    decreases a
  {
    if a == [] then s else NodeAt(s.suites[a[0]], a[1..])
  }

  /** The tree with the suite at address `a` replaced by `n`. */
  function Replace(s: Suite, a: Address, n: Suite): Suite
    requires IsAddress(s, a)
    decreases a
  {
    if a == [] then n else s.(suites := s.suites[a[0] := Replace(s.suites[a[0]], a[1..], n)])
  }

  /** Two addresses neither of which leads through the other. */
  predicate Unrelated(a: Address, b: Address)
  {
    !(a <= b) && !(b <= a)
  }

  lemma {:induction false} LinkedAt(s: Suite, base: Address, a: Address)
    requires Linked(s, base) && IsAddress(s, a)
    ensures Linked(NodeAt(s, a), base + a)
    ensures a != [] ==> NodeAt(s, a).parent == Attached(base + a[..|a| - 1])
    decreases a
  {
    if a == [] {
      assert base + a == base;
    } else {
      LinkedAt(s.suites[a[0]], base + [a[0]], a[1..]);
      assert base + [a[0]] + a[1..] == base + a;
      if |a| > 1 {
        assert base + [a[0]] + a[1..][..|a[1..]| - 1] == base + a[..|a| - 1];
      } else {
        assert a[..|a| - 1] == [];
        assert base + a[..|a| - 1] == base;
      }
    }
  }

  lemma {:induction false} ReplacedAt(s: Suite, a: Address, n: Suite)
    requires IsAddress(s, a)
    ensures IsAddress(Replace(s, a, n), a) && NodeAt(Replace(s, a, n), a) == n
    decreases a
  {
    if a != [] {
      ReplacedAt(s.suites[a[0]], a[1..], n);
    }
  }

  /** Replacing one suite leaves every suite at an unrelated address as it was. */
  lemma {:induction false} ReplaceLeavesOthers(s: Suite, a: Address, n: Suite, b: Address)
    requires IsAddress(s, a) && IsAddress(s, b) && Unrelated(a, b)
    ensures IsAddress(Replace(s, a, n), b) && NodeAt(Replace(s, a, n), b) == NodeAt(s, b)
    decreases a
  {
    if a[0] == b[0] {
      assert a[1..] <= b[1..] ==> a <= b;
      assert b[1..] <= a[1..] ==> b <= a;
      ReplaceLeavesOthers(s.suites[a[0]], a[1..], n, b[1..]);
    }
  }

  /** Replacing a suite by one that keeps (and maybe extends) its children keeps every address. */
  lemma {:induction false} ReplaceKeepsAddresses(s: Suite, a: Address, n: Suite, b: Address)
    requires IsAddress(s, a) && NodeAt(s, a).suites <= n.suites
    ensures IsAddress(s, b) ==> IsAddress(Replace(s, a, n), b)
    ensures n.suites == NodeAt(s, a).suites ==> (IsAddress(Replace(s, a, n), b) <==> IsAddress(s, b))
    decreases a
  {
    if a == [] {
      if b != [] && b[0] < |s.suites| {
        assert n.suites[b[0]] == s.suites[b[0]];
      }
    } else if b != [] && b[0] == a[0] {
      ReplaceKeepsAddresses(s.suites[a[0]], a[1..], n, b[1..]);
    }
  }

  /** Replacing the suite at `a` changes an ancestor of it only in the one child on the way
      to `a`: its name, path, parent, own specs and all its other children stay. */
  lemma {:induction false} ReplaceKeepsAncestors(s: Suite, a: Address, n: Suite, b: Address)
    requires IsAddress(s, a) && b < a
    ensures IsAddress(s, b) && IsAddress(Replace(s, a, n), b)
    ensures var before, after := NodeAt(s, b), NodeAt(Replace(s, a, n), b);
              after.name == before.name && after.path == before.path && after.parent == before.parent &&
              after.specs == before.specs && |after.suites| == |before.suites| &&
              forall j :: 0 <= j < |before.suites| && j != a[|b|] ==> after.suites[j] == before.suites[j]
    decreases a
  {
    if b != [] {
      assert b[0] == a[0];
      assert b[1..] < a[1..];
      ReplaceKeepsAncestors(s.suites[a[0]], a[1..], n, b[1..]);
    }
  }

  /** The height of the whole tree changes by exactly the change in height of the suite replaced. */
  lemma {:induction false} ReplaceHeight(s: Suite, a: Address, n: Suite)
    requires IsAddress(s, a)
    ensures Height(Replace(s, a, n)) + Height(NodeAt(s, a)) == Height(s) + Height(n)
    decreases a
  {
    if a != [] {
      ReplaceHeight(s.suites[a[0]], a[1..], n);
      HeightSumUpdate(s.suites, a[0], Replace(s.suites[a[0]], a[1..], n));
    }
  }

  lemma {:induction false} HeightSumUpdate(ss: seq<Suite>, i: nat, x: Suite)
    requires i < |ss|
    ensures HeightSum(ss[i := x]) + Height(ss[i]) == HeightSum(ss) + Height(x)
    decreases ss
  {
    if i == 0 {
      assert ss[i := x][1..] == ss[1..];
    } else {
      assert ss[i := x][1..] == ss[1..][i - 1 := x];
      HeightSumUpdate(ss[1..], i - 1, x);
    }
  }

  /** The summary of the whole tree changes by exactly the change in summary of the suite
      replaced. */
  lemma {:induction false} ReplaceSummary(s: Suite, a: Address, n: Suite)
    requires IsAddress(s, a)
    ensures Plus(Summary(Replace(s, a, n)), Summary(NodeAt(s, a))) == Plus(Summary(s), Summary(n))
    decreases a
  {
    if a != [] {
      var c := s.suites[a[0]];
      var c' := Replace(c, a[1..], n);
      ReplaceSummary(c, a[1..], n);
      SummarySumUpdate(s.suites, a[0], c');
      assert Replace(s, a, n).suites == s.suites[a[0] := c'];
      assert NodeAt(s, a) == NodeAt(c, a[1..]);
      PlusChain(Tally(s.specs), SummarySum(s.suites[a[0] := c']), Summary(c), SummarySum(s.suites), Summary(c'),
                Summary(NodeAt(c, a[1..])), Summary(n));
    }
  }

  lemma PlusSwap(x: Counts, t: Counts, y: Counts)
    ensures Plus(Plus(x, t), y) == Plus(Plus(y, t), x)
  {
  }

  lemma PlusChain(t: Counts, u': Counts, c: Counts, u: Counts, c': Counts, m: Counts, n: Counts)
    requires Plus(u', c) == Plus(u, c') && Plus(c', m) == Plus(c, n)
    ensures Plus(Plus(t, u'), m) == Plus(Plus(t, u), n)
  {
  }

  lemma PlusShift(h: Counts, t': Counts, y: Counts, t: Counts, x: Counts)
    requires Plus(t', y) == Plus(t, x)
    ensures Plus(Plus(h, t'), y) == Plus(Plus(h, t), x)
  {
  }

  lemma {:induction false} SummarySumUpdate(ss: seq<Suite>, i: nat, x: Suite)
    requires i < |ss|
    ensures Plus(SummarySum(ss[i := x]), Summary(ss[i])) == Plus(SummarySum(ss), Summary(x))
    decreases ss
  {
    var t := SummarySum(ss[1..]);
    if i == 0 {
      assert ss[i := x][1..] == ss[1..];
      PlusSwap(Summary(x), t, Summary(ss[0]));
    } else {
      assert ss[i := x][1..] == ss[1..][i - 1 := x];
      SummarySumUpdate(ss[1..], i - 1, x);
      PlusShift(Summary(ss[0]), SummarySum(ss[1..][i - 1 := x]), Summary(ss[i]), t, Summary(x));
    }
  }

  /** Replacing a suite by a correctly linked one keeps the whole tree linked. */
  lemma {:induction false} ReplaceKeepsLinked(s: Suite, base: Address, a: Address, n: Suite)
    requires Linked(s, base) && IsAddress(s, a)
    requires Linked(n, base + a)
    requires a != [] ==> n.parent == NodeAt(s, a).parent
    ensures Linked(Replace(s, a, n), base)
    ensures a != [] ==> Replace(s, a, n).parent == s.parent
    decreases a
  {
    if a == [] {
      assert base + a == base;
    } else {
      var i := a[0];
      var c := s.suites[i];
      assert base + [i] + a[1..] == base + a;
      ReplaceKeepsLinked(c, base + [i], a[1..], n);
      var s' := Replace(s, a, n);
      assert s'.suites[i] == Replace(c, a[1..], n);
      assert s'.suites[i].parent == Attached(base);
      forall j | 0 <= j < |s'.suites|
        ensures s'.suites[j].parent == Attached(base) && Linked(s'.suites[j], base + [j])
      {
        if j != i {
          assert s'.suites[j] == s.suites[j];
        }
      }
    }
  }

  // ---------------------------------------------------------------------------
  // The suite document of the client tests

  const SampleDocument: SuiteData :=
    SuiteData("Top", "", [], [
      SuiteData("Sentences", "Sentences",
        [SpecData("3", "Simple 1", Wrappers.None), SpecData("4", "Simple 2", Wrappers.None)],
        [SuiteData("Facts", "Sentences/Facts",
           [SpecData("1", "True Facts", Wrappers.Some(Acceptance)), SpecData("2", "False Facts", Wrappers.Some(Acceptance))],
           [])]),
      SuiteData("Tables", "Tables",
        [SpecData("5", "Table 1", Wrappers.Some(Regression)), SpecData("6", "Table 2", Wrappers.Some(Regression))],
        [])])

  /** The height of each suite of the sample document: 10, 6, 3 and 3. */
  lemma SampleHeights()
    ensures var top := Build(SampleDocument, Detached, []);
            && Height(top) == 10
            && Height(top.suites[0]) == 6
            && Height(top.suites[0].suites[0]) == 3
            && Height(top.suites[1]) == 3
  {
    var top := Build(SampleDocument, Detached, []);
    var sentences, tables := top.suites[0], top.suites[1];
    var facts := sentences.suites[0];
    assert |facts.specs| == 2 && facts.suites == [];
    assert sentences.suites[1..] == [];
    assert HeightSum(sentences.suites) == Height(facts) + HeightSum(sentences.suites[1..]);
    assert top.suites[1..][1..] == [];
    assert HeightSum(top.suites) == Height(sentences) + HeightSum(top.suites[1..]);
    assert HeightSum(top.suites[1..]) == Height(tables) + HeightSum(top.suites[1..][1..]);
  }

  /** The pre-order ids of the sample document: 3, 4, 1, 2, 5, 6. */
  lemma SampleSpecIds()
    ensures AllSpecIds(Build(SampleDocument, Detached, [])) == ["3", "4", "1", "2", "5", "6"]
  {
    var top := Build(SampleDocument, Detached, []);
    var sentences, tables := top.suites[0], top.suites[1];
    var facts := sentences.suites[0];
    assert facts.suites == [] && sentences.suites[1..] == [] && top.suites[1..][1..] == [];
    assert AllSpecs(facts) == facts.specs;
    assert AllSpecsIn(sentences.suites) == AllSpecs(facts) + AllSpecsIn(sentences.suites[1..]);
    assert AllSpecs(sentences) == sentences.specs + facts.specs;
    assert AllSpecs(tables) == tables.specs;
    assert AllSpecsIn(top.suites) == AllSpecs(sentences) + AllSpecs(tables);
  }

  /** A list of acceptance specs in state none tallies as that many acceptance and none. */
  lemma {:induction false} TallyOfPending(specs: seq<Spec>)
    requires forall k :: 0 <= k < |specs| ==> specs[k].lifecycle == Acceptance && specs[k].state == None
    ensures Tally(specs) == Counts(|specs|, 0, 0, 0, |specs|, |specs|)
  {
    if specs != [] {
      TallyOfPending(specs[1..]);
    }
  }

  /** Sentences summarises four acceptance specs, all in state none. */
  lemma SampleSummary()
    ensures Summary(Build(SampleDocument, Detached, []).suites[0]) == Counts(4, 0, 0, 0, 4, 4)
  {
    var sentences := Build(SampleDocument, Detached, []).suites[0];
    var facts := sentences.suites[0];
    assert facts.suites == [] && sentences.suites[1..] == [];
    assert AllSpecs(facts) == facts.specs;
    assert AllSpecsIn(sentences.suites) == AllSpecs(facts) + AllSpecsIn(sentences.suites[1..]);
    var all := AllSpecs(sentences);
    assert all == sentences.specs + facts.specs;
    assert forall k :: 0 <= k < |facts.specs| ==> facts.specs[k].lifecycle == Acceptance && facts.specs[k].state == None;
    assert forall k :: 0 <= k < |sentences.specs| ==> sentences.specs[k].lifecycle == Acceptance && sentences.specs[k].state == None;
    assert |all| == 4;
    forall k | 0 <= k < |all| ensures all[k].lifecycle == Acceptance && all[k].state == None {
      if k >= |sentences.specs| {
        assert all[k] == facts.specs[k - |sentences.specs|];
      }
    }
    SummaryCountsEachSpecOnce(sentences);
    TallyOfPending(all);
  }

  /** Facts holds spec 1; Top holds no spec 'non existent'. */
  lemma SampleHasSpec()
    ensures HasSpec(Build(SampleDocument, Detached, []).suites[0].suites[0], "1")
    ensures !HasSpec(Build(SampleDocument, Detached, []), "non existent")
  {
    var facts := Build(SampleDocument, Detached, []).suites[0].suites[0];
    assert facts.specs[0].id == "1";
  }

  // ---------------------------------------------------------------------------
  // The mutable tree

  /** The suite tree: the root suite value, which owns every suite and spec. */
  class SuiteTree {
    var root: Suite

    /** The root has no parent and every back-reference names its actual container. */
    ghost predicate Valid()
      reads this
    {
      root.parent == Detached && Linked(root, [])
    }

    /** Builds the tree from a suite document; this sets all back-references. */
    constructor (data: SuiteData)
      ensures Valid()
      ensures root == Build(data, Detached, [])
    {
      root := Build(data, Detached, []);
      BuildIsLinked(data, Detached, []);
    }

    /** addSpec: appends the spec to the suite at `at` and sets its `suite` to that suite. */
    method AddSpec(at: Address, spec: Spec)
      requires Valid() && IsAddress(root, at)
      modifies this
      ensures Valid() && IsAddress(root, at)
      ensures NodeAt(root, at) == NodeAt(old(root), at).(specs := NodeAt(old(root), at).specs + [spec.(suite := Attached(at))])
      ensures root == Replace(old(root), at, NodeAt(old(root), at).(specs := NodeAt(old(root), at).specs + [spec.(suite := Attached(at))]))
      ensures forall b :: IsAddress(root, b) <==> IsAddress(old(root), b)
      ensures forall b :: IsAddress(old(root), b) && Unrelated(at, b) ==> NodeAt(root, b) == NodeAt(old(root), b)
    {
      var n := NodeAt(root, at);
      var n' := n.(specs := n.specs + [spec.(suite := Attached(at))]);
      LinkedAt(root, [], at);
      assert [] + at == at;
      ReplaceKeepsLinked(root, [], at, n');
      ReplacedAt(root, at, n');
      forall b ensures IsAddress(Replace(root, at, n'), b) <==> IsAddress(root, b) {
        ReplaceKeepsAddresses(root, at, n', b);
      }
      forall b | IsAddress(root, b) && Unrelated(at, b)
        ensures NodeAt(Replace(root, at, n'), b) == NodeAt(root, b)
      {
        ReplaceLeavesOthers(root, at, n', b);
      }
      root := Replace(root, at, n');
    }

    /** addChildSuite: appends a new empty child named `name` under the suite at `at`,
        with its path derived from the parent's path and `parent` set to that suite. */
    method AddChildSuite(at: Address, name: string)
      requires Valid() && IsAddress(root, at)
      modifies this
      ensures Valid() && IsAddress(root, at)
      ensures NodeAt(root, at) == NodeAt(old(root), at).(suites := NodeAt(old(root), at).suites + [NewChild(NodeAt(old(root), at), at, name)])
      ensures root == Replace(old(root), at, NodeAt(old(root), at).(suites := NodeAt(old(root), at).suites + [NewChild(NodeAt(old(root), at), at, name)]))
      ensures forall b :: IsAddress(old(root), b) ==> IsAddress(root, b)
      ensures forall b :: IsAddress(old(root), b) && Unrelated(at, b) ==> NodeAt(root, b) == NodeAt(old(root), b)
    {
      var n := NodeAt(root, at);
      var n' := n.(suites := n.suites + [NewChild(n, at, name)]);
      LinkedAt(root, [], at);
      assert [] + at == at;
      forall i | 0 <= i < |n'.suites|
        ensures n'.suites[i].parent == Attached(at) && Linked(n'.suites[i], at + [i])
      {
        if i < |n.suites| {
          assert n'.suites[i] == n.suites[i];
        }
      }
      ReplaceKeepsLinked(root, [], at, n');
      ReplacedAt(root, at, n');
      forall b | IsAddress(root, b) ensures IsAddress(Replace(root, at, n'), b) {
        ReplaceKeepsAddresses(root, at, n', b);
      }
      forall b | IsAddress(root, b) && Unrelated(at, b)
        ensures NodeAt(Replace(root, at, n'), b) == NodeAt(root, b)
      {
        ReplaceLeavesOthers(root, at, n', b);
      }
      root := Replace(root, at, n');
    }

    /** replaceSpec: puts `spec`, with `suite` set to the suite at `at`, in place of every
        spec of that suite with the same id. */
    method ReplaceSpec(at: Address, spec: Spec)
      requires Valid() && IsAddress(root, at)
      modifies this
      ensures Valid() && IsAddress(root, at)
      ensures NodeAt(root, at) == NodeAt(old(root), at).(specs := ReplaceById(NodeAt(old(root), at).specs, spec.(suite := Attached(at))))
      ensures root == Replace(old(root), at, NodeAt(old(root), at).(specs := ReplaceById(NodeAt(old(root), at).specs, spec.(suite := Attached(at)))))
      ensures forall b :: IsAddress(root, b) <==> IsAddress(old(root), b)
      ensures forall b :: IsAddress(old(root), b) && Unrelated(at, b) ==> NodeAt(root, b) == NodeAt(old(root), b)
    {
      var n := NodeAt(root, at);
      var n' := n.(specs := ReplaceById(n.specs, spec.(suite := Attached(at))));
      LinkedAt(root, [], at);
      assert [] + at == at;
      ReplaceKeepsLinked(root, [], at, n');
      ReplacedAt(root, at, n');
      forall b ensures IsAddress(Replace(root, at, n'), b) <==> IsAddress(root, b) {
        ReplaceKeepsAddresses(root, at, n', b);
      }
      forall b | IsAddress(root, b) && Unrelated(at, b)
        ensures NodeAt(Replace(root, at, n'), b) == NodeAt(root, b)
      {
        ReplaceLeavesOthers(root, at, n', b);
      }
      root := Replace(root, at, n');
    }
  }
}
