/**
 Action results and how they are merged (healthcheck/action/action.go, healthcheck/rulecheck/rule_check.go).

 A resource.Quantity is an integer number of milli-units.
 */
module Action {
  import opened Folds

  datatype Formula = Step | Total | Percent

  type Quantities = map<Formula, int>

  datatype ActionResource = ActionResource(name: string, conflicting: bool, quantity: Quantities)

  // ---------------------------------------------------------------- merging one resource

  /** The lesser of the quantities that are there. */
  function Lesser(a: Quantities, b: Quantities): (r: Quantities)
    ensures r.Keys == a.Keys + b.Keys
    ensures forall f :: f in r ==> r[f] == if f in a && f in b then (if a[f] < b[f] then a[f] else b[f])
                                           else if f in a then a[f] else b[f]
  {
    map f | f in a.Keys + b.Keys ::
      if f in a && f in b then (if a[f] < b[f] then a[f] else b[f]) else if f in a then a[f] else b[f]
  }

  function MergeByLittle(a: ActionResource, b: ActionResource): ActionResource {
    ActionResource(a.name, a.conflicting || b.conflicting, Lesser(a.quantity, b.quantity))
  }

  predicate IsNegative(a: ActionResource) {
    a.conflicting || exists f :: f in a.quantity && a.quantity[f] < 0
  }

  lemma MergeByLittleLaws(a: ActionResource, b: ActionResource, c: ActionResource)
    requires a.name == b.name == c.name
    ensures MergeByLittle(a, a) == a
    ensures MergeByLittle(a, b) == MergeByLittle(b, a)
    ensures MergeByLittle(MergeByLittle(a, b), c) == MergeByLittle(a, MergeByLittle(b, c))
  {
    LesserIdempotent(a.quantity);
    LesserCommutative(a.quantity, b.quantity);
    LesserAssociative(a.quantity, b.quantity, c.quantity);
  }

  lemma LesserIdempotent(a: Quantities)
    ensures Lesser(a, a) == a
  {
  }

  lemma LesserCommutative(a: Quantities, b: Quantities)
    ensures Lesser(a, b) == Lesser(b, a)
  {
  }

  lemma LesserAssociative(a: Quantities, b: Quantities, c: Quantities)
    ensures Lesser(Lesser(a, b), c) == Lesser(a, Lesser(b, c))
  {
    var ab, bc := Lesser(a, b), Lesser(b, c);
    var l, r := Lesser(ab, c), Lesser(a, bc);
    forall f | f in l
      ensures f in r && l[f] == r[f]
    {
      assert f in ab <==> f in a || f in b;
      assert f in bc <==> f in b || f in c;
    }
    assert l.Keys == r.Keys;
  }

  /** Each part of a round holds what some of its results hold. */
  lemma RoundMeans(vs: seq<View>, m: string)
    ensures var w := Fold(Join, EMPTY, vs);
            && (w.sync <==> SomeOf(vs, (v: View) => v.sync))
            && (m in w.messages <==> SomeOf(vs, (v: View) => m in v.messages))
            && (m in w.pods <==> SomeOf(vs, (v: View) => m in v.pods))
  {
    FoldSome(Join, EMPTY, vs, (v: View) => v.sync);
    FoldSome(Join, EMPTY, vs, (v: View) => m in v.messages);
    FoldSome(Join, EMPTY, vs, (v: View) => m in v.pods);
  }

  /** Scheduling is stopped when some result stops it. */
  lemma RoundUnschedules(vs: seq<View>, k: string)
    ensures var w := Fold(Join, EMPTY, vs).unschedule;
            && (k in w <==> SomeOf(vs, (v: View) => k in v.unschedule))
            && (k in w && w[k] <==> SomeOf(vs, (v: View) => k in v.unschedule && v.unschedule[k]))
  {
    FoldSome(Join, EMPTY, vs, (v: View) => k in v.unschedule);
    FoldSome(Join, EMPTY, vs, (v: View) => k in v.unschedule && v.unschedule[k]);
  }

  /** A resource is adjusted when some result adjusts it, and in conflict when some result says so. */
  lemma RoundAdjusts(vs: seq<View>, k: string)
    ensures var w := Fold(Join, EMPTY, vs).adjust;
            && (k in w <==> SomeOf(vs, (v: View) => k in v.adjust))
            && (k in w && w[k].conflicting <==> SomeOf(vs, (v: View) => k in v.adjust && v.adjust[k].conflicting))
  {
    FoldSome(Join, EMPTY, vs, (v: View) => k in v.adjust);
    FoldSome(Join, EMPTY, vs, (v: View) => k in v.adjust && v.adjust[k].conflicting);
  }

  /** It then asks, per formula, for no more than q exactly when some result does: for the least of them. */
  lemma RoundAsksLeast(vs: seq<View>, k: string, f: Formula, q: int)
    ensures var w := Fold(Join, EMPTY, vs).adjust;
            (k in w && f in w[k].quantity && w[k].quantity[f] <= q) <==>
            SomeOf(vs, (v: View) => k in v.adjust && f in v.adjust[k].quantity && v.adjust[k].quantity[f] <= q)
  {
    var holds := (v: View) => k in v.adjust && f in v.adjust[k].quantity && v.adjust[k].quantity[f] <= q;
    FoldSome(Join, EMPTY, vs, holds);
  }

  // ---------------------------------------------------------------- merging whole results

  datatype Pod = Pod(namespace: string, name: string)

  function PodKey(p: Pod): string {
    p.namespace + "/" + p.name
  }

  /** A namespace holds no '/', so the key tells pods apart. */
  lemma {:induction false} PodKeyInjective(p: Pod, q: Pod)
    requires '/' !in p.namespace && '/' !in q.namespace && PodKey(p) == PodKey(q)
    ensures p == q
  {
    var i, j := |p.namespace|, |q.namespace|;
    assert PodKey(p)[i] == '/' && PodKey(q)[j] == '/';
    assert i == j;
    assert PodKey(p)[..i] == p.namespace && PodKey(q)[..i] == q.namespace;
    assert PodKey(p)[i + 1..] == p.name && PodKey(q)[i + 1..] == q.name;
  }

  /** What a result says, whatever the order its lists were filled in. */
  datatype View = View(
    sync: bool,
    messages: set<string>,
    unschedule: map<string, bool>,
    pods: set<string>,
    adjust: map<string, ActionResource>)

  const EMPTY := View(false, {}, map[], {}, map[])

  function JoinUnschedule(a: map<string, bool>, b: map<string, bool>): (r: map<string, bool>)
    ensures r.Keys == a.Keys + b.Keys
    ensures forall k :: k in r ==> r[k] == ((k in a && a[k]) || (k in b && b[k]))
  {
    map k | k in a.Keys + b.Keys :: (k in a && a[k]) || (k in b && b[k])
  }

  function JoinAdjust(a: map<string, ActionResource>, b: map<string, ActionResource>): (r: map<string, ActionResource>)
    ensures r.Keys == a.Keys + b.Keys
    ensures forall k :: k in r ==> r[k] == if k in a && k in b then MergeByLittle(a[k], b[k])
                                           else if k in a then a[k] else b[k]
  {
    map k | k in a.Keys + b.Keys ::
      if k in a && k in b then MergeByLittle(a[k], b[k]) else if k in a then a[k] else b[k]
  }

  function Join(v: View, w: View): View {
    View(v.sync || w.sync, v.messages + w.messages, JoinUnschedule(v.unschedule, w.unschedule),
         v.pods + w.pods, JoinAdjust(v.adjust, w.adjust))
  }

  /** A key is always used with the same resource name. */
  ghost predicate Named(naming: map<string, string>, v: View) {
    forall k :: k in v.adjust ==> k in naming && v.adjust[k].name == naming[k]
  }

  lemma JoinAdjustAssociative(a: map<string, ActionResource>, b: map<string, ActionResource>,
                              c: map<string, ActionResource>)
    requires forall k :: k in a && k in b ==> a[k].name == b[k].name
    requires forall k :: k in b && k in c ==> b[k].name == c[k].name
    requires forall k :: k in a && k in c ==> a[k].name == c[k].name
    ensures JoinAdjust(JoinAdjust(a, b), c) == JoinAdjust(a, JoinAdjust(b, c))
  {
    var l, r := JoinAdjust(JoinAdjust(a, b), c), JoinAdjust(a, JoinAdjust(b, c));
    forall k | k in l
      ensures l[k] == r[k]
    {
      if k in a && k in b && k in c {
        MergeByLittleLaws(a[k], b[k], c[k]);
      }
    }
  }

  lemma JoinAdjustCommutative(a: map<string, ActionResource>, b: map<string, ActionResource>)
    requires forall k :: k in a && k in b ==> a[k].name == b[k].name
    ensures JoinAdjust(a, b) == JoinAdjust(b, a)
    ensures JoinAdjust(a, a) == a
  {
    forall k | k in a && k in b
      ensures MergeByLittle(a[k], b[k]) == MergeByLittle(b[k], a[k])
    {
      MergeByLittleLaws(a[k], b[k], b[k]);
    }
    forall k | k in a
      ensures MergeByLittle(a[k], a[k]) == a[k]
    {
      MergeByLittleLaws(a[k], a[k], a[k]);
    }
  }

  lemma JoinUnscheduleLaws(a: map<string, bool>, b: map<string, bool>, c: map<string, bool>)
    ensures JoinUnschedule(a, b) == JoinUnschedule(b, a)
    ensures JoinUnschedule(JoinUnschedule(a, b), c) == JoinUnschedule(a, JoinUnschedule(b, c))
    ensures JoinUnschedule(a, a) == a
  {
    assert JoinUnschedule(JoinUnschedule(a, b), c).Keys == JoinUnschedule(a, JoinUnschedule(b, c)).Keys;
  }

  lemma JoinCommutative(naming: map<string, string>, u: View, v: View)
    requires Named(naming, u) && Named(naming, v)
    ensures Join(u, v) == Join(v, u) && Join(u, u) == u && Named(naming, Join(u, v))
  {
    JoinAdjustCommutative(u.adjust, v.adjust);
    JoinUnscheduleLaws(u.unschedule, v.unschedule, v.unschedule);
  }

  lemma JoinAssociative(naming: map<string, string>, u: View, v: View, w: View)
    requires Named(naming, u) && Named(naming, v) && Named(naming, w)
    ensures Join(Join(u, v), w) == Join(u, Join(v, w))
  {
    JoinAdjustAssociative(u.adjust, v.adjust, w.adjust);
    JoinUnscheduleLaws(u.unschedule, v.unschedule, w.unschedule);
  }

  /** Merging is commutative and associative on results that name their resources alike. */
  lemma JoinLawful(naming: map<string, string>)
    ensures Lawful(Join, EMPTY, v => Named(naming, v))
  {
    forall u, v | Named(naming, u) && Named(naming, v)
      ensures Named(naming, Join(u, v)) && Join(u, v) == Join(v, u)
    {
      JoinCommutative(naming, u, v);
    }
    forall u, v, w | Named(naming, u) && Named(naming, v) && Named(naming, w)
      ensures Join(Join(u, v), w) == Join(u, Join(v, w))
    {
      JoinAssociative(naming, u, v, w);
    }
  }

  /** The result of a parallel round does not depend on the order in which the checkers finish. */
  lemma RoundOrderIrrelevant(naming: map<string, string>, vs: seq<View>, ws: seq<View>)
    requires multiset(vs) == multiset(ws)
    requires forall v :: v in vs ==> Named(naming, v)
    ensures Fold(Join, EMPTY, vs) == Fold(Join, EMPTY, ws)
  {
    JoinLawful(naming);
    forall i | 0 <= i < |ws|
      ensures Named(naming, ws[i])
    {
      assert ws[i] in multiset(vs);
    }
    FoldPermutation(Join, EMPTY, v => Named(naming, v), vs, ws);
  }

  class ActionResult {
    var unscheduleMap: map<string, bool>
    var evictPods: seq<Pod>
    var adjustResources: map<string, ActionResource>
    var syncEvent: bool
    var messages: seq<string>

    constructor ()
      ensures Says() == EMPTY
    {
      unscheduleMap, evictPods, adjustResources, syncEvent, messages := map[], [], map[], false, [];
      new;
      assert PodKeys(evictPods) == {};
    }

    ghost function Says(): View
      reads this
    {
      View(syncEvent, (set m | m in messages), unscheduleMap, PodKeys(evictPods), adjustResources)
    }

    /** Merging keeps the order of what was there and adds only what is new. */
    method Merge(other: ActionResult)
      modifies this
      ensures Says() == Join(old(Says()), old(other.Says()))
      ensures old(messages) <= messages && old(evictPods) <= evictPods
    {
      syncEvent := syncEvent || other.syncEvent;
      var unschedule, adjust := other.unscheduleMap, other.adjustResources;
      messages := AppendNew(messages, other.messages);
      evictPods := AppendNewPods(evictPods, other.evictPods);
      unscheduleMap := MergeUnschedule(unscheduleMap, unschedule);
      adjustResources := MergeAdjust(adjustResources, adjust);
    }
  }

  function PodKeys(pods: seq<Pod>): set<string> {
    set p | p in pods :: PodKey(p)
  }

  method AppendNew(messages: seq<string>, more: seq<string>) returns (r: seq<string>)
    ensures (set m | m in r) == (set m | m in messages) + (set m | m in more)
    ensures messages <= r
    ensures forall i, j :: |messages| <= i < j < |r| ==> r[i] != r[j]
    ensures forall i, j :: 0 <= i < |messages| <= j < |r| ==> r[i] != r[j]
  {
    var seen := set m | m in messages;
    r := messages;
    for k := 0 to |more|
      invariant messages <= r
      invariant seen == (set m | m in r)
      invariant seen == (set m | m in messages) + (set m | m in more[..k])
      invariant forall i, j :: |messages| <= i < j < |r| ==> r[i] != r[j]
      invariant forall i, j :: 0 <= i < |messages| <= j < |r| ==> r[i] != r[j]
    {
      if more[k] !in seen {
        seen := seen + {more[k]};
        r := r + [more[k]];
      }
      assert more[..k + 1] == more[..k] + [more[k]];
    }
    assert more[..|more|] == more;
  }

  method AppendNewPods(pods: seq<Pod>, more: seq<Pod>) returns (r: seq<Pod>)
    ensures PodKeys(r) == PodKeys(pods) + PodKeys(more)
    ensures pods <= r
  {
    var seen := PodKeys(pods);
    r := pods;
    for k := 0 to |more|
      invariant pods <= r
      invariant seen == PodKeys(r) == PodKeys(pods) + PodKeys(more[..k])
    {
      var key := PodKey(more[k]);
      PodKeysSnoc(more[..k], more[k]);
      assert more[..k + 1] == more[..k] + [more[k]];
      if key !in seen {
        PodKeysSnoc(r, more[k]);
        seen := seen + {key};
        r := r + [more[k]];
      }
    }
    assert more[..|more|] == more;
  }

  lemma PodKeysSnoc(pods: seq<Pod>, p: Pod)
    ensures PodKeys(pods + [p]) == PodKeys(pods) + {PodKey(p)}
  {
    forall key | key in PodKeys(pods) + {PodKey(p)}
      ensures key in PodKeys(pods + [p])
    {
      if key == PodKey(p) {
        assert p in pods + [p];
      } else {
        var q :| q in pods && PodKey(q) == key;
        assert q in pods + [p];
      }
    }
  }

  /** Go visits the keys of a map in any order. */
  method MergeUnschedule(a: map<string, bool>, b: map<string, bool>) returns (r: map<string, bool>)
    ensures r == JoinUnschedule(a, b)
  {
    r := a;
    var todo := b.Keys;
    while todo != {}
      invariant todo <= b.Keys
      invariant r.Keys == a.Keys + (b.Keys - todo)
      invariant forall k :: k in r ==> r[k] == ((k in a && a[k]) || (k in b && k !in todo && b[k]))
      decreases todo
    {
      var k :| k in todo;
      todo := todo - {k};
      if b[k] {
        r := r[k := true];
      } else if k !in r {
        r := r[k := false];
      }
    }
  }

  method MergeAdjust(a: map<string, ActionResource>, b: map<string, ActionResource>)
      returns (r: map<string, ActionResource>)
    ensures r == JoinAdjust(a, b)
  {
    r := a;
    var todo := b.Keys;
    while todo != {}
      invariant todo <= b.Keys
      invariant r == JoinAdjust(a, b - todo)
      decreases todo
    {
      var k :| k in todo;
      JoinAdjustOneMore(a, b, todo, k);
      todo := todo - {k};
      if k !in r {
        r := r[k := b[k]];
      } else {
        r := r[k := MergeByLittle(r[k], b[k])];
      }
    }
    assert b - {} == b;
  }

  lemma JoinAdjustOneMore(a: map<string, ActionResource>, b: map<string, ActionResource>, todo: set<string>, k: string)
    requires k in todo && todo <= b.Keys
    ensures var r := JoinAdjust(a, b - todo);
            JoinAdjust(a, b - (todo - {k})) == r[k := if k in r then MergeByLittle(r[k], b[k]) else b[k]]
  {
    var r, s := JoinAdjust(a, b - todo), JoinAdjust(a, b - (todo - {k}));
    assert s.Keys == r.Keys + {k};
  }

  /** The results of one round, merged into a fresh one as the checkers finish. */
  method RunRound(finished: seq<ActionResult>, ghost views: seq<View>) returns (final: ActionResult)
    requires |views| == |finished| && forall i :: 0 <= i < |finished| ==> finished[i].Says() == views[i]
    ensures fresh(final) && final.Says() == Fold(Join, EMPTY, views)
  {
    final := new ActionResult();
    for i := 0 to |finished|
      invariant fresh(final) && final.Says() == Fold(Join, EMPTY, views[..i])
      invariant forall j :: 0 <= j < |finished| ==> finished[j].Says() == views[j]
    {
      assert views[..i + 1][..i] == views[..i];
      final.Merge(finished[i]);
    }
    assert views[..|finished|] == views;
  }

  /** The results of the actions that did not fail. */
  ghost function Obtained(outcomes: seq<ActionResult?>, views: seq<View>): seq<View>
    requires |views| == |outcomes|
  {
    if outcomes == [] then []
    else
      var n := |outcomes| - 1;
      var rest := Obtained(outcomes[..n], views[..n]);
      if outcomes[n] == null then rest else rest + [views[n]]
  }

  /** One more action: its result is joined in, unless it fails. */
  lemma ObtainedStep(outcomes: seq<ActionResult?>, views: seq<View>, i: nat)
    requires |views| == |outcomes| && i < |outcomes|
    ensures Fold(Join, EMPTY, Obtained(outcomes[..i + 1], views[..i + 1])) ==
            var part := Fold(Join, EMPTY, Obtained(outcomes[..i], views[..i]));
            if outcomes[i] == null then part else Join(part, views[i])
  {
    assert outcomes[..i + 1][..i] == outcomes[..i] && views[..i + 1][..i] == views[..i];
    var part := Obtained(outcomes[..i], views[..i]);
    assert (part + [views[i]])[..|part|] == part;
  }

  /** mergeAction: the results of the actions of one check, null for one that fails, merged in order. */
  method MergeActions(outcomes: seq<ActionResult?>, ghost views: seq<View>) returns (acRet: ActionResult)
    requires |views| == |outcomes|
    requires forall i :: 0 <= i < |outcomes| && outcomes[i] != null ==> outcomes[i].Says() == views[i]
    ensures fresh(acRet) && acRet.Says() == Fold(Join, EMPTY, Obtained(outcomes, views))
  {
    acRet := new ActionResult();
    ghost var said := EMPTY;
    for i := 0 to |outcomes|
      invariant fresh(acRet) && acRet.Says() == said
      invariant said == Fold(Join, EMPTY, Obtained(outcomes[..i], views[..i]))
      invariant forall j :: 0 <= j < |outcomes| && outcomes[j] != null ==> outcomes[j].Says() == views[j]
    {
      ObtainedStep(outcomes, views, i);
      if outcomes[i] != null {
        acRet.Merge(outcomes[i]);
        said := Join(said, views[i]);
      }
    }
    assert outcomes[..|outcomes|] == outcomes && views[..|outcomes|] == views;
  }
}
