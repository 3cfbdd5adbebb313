/**
 Conflict bookkeeping (healthcheck/conflict/conflict.go): signed quantities under three formulas are
 accumulated per key, subtracted from a prediction and clamped in place.

 Quantities are integers in milli-units; Go visits the keys of a map in any order.
 */
module Conflict {
  import opened Wrappers
  import opened Action
  import opened AdjustAction

  type Store = map<string, ActionResource>

  // ---------------------------------------------------------------- what an update means

  /** A quantity that is not negative any more is dropped. */
  function Kept(v: int): Option<int> {
    if v >= 0 then None else Some(v)
  }

  function NewStep(o: Quantities, v: Quantities): Option<int> {
    if Step !in v then Find(o, Step) else Kept((if Step in o then o[Step] else 0) + v[Step])
  }

  function NewPercent(o: Quantities, v: Quantities): Option<int> {
    if Percent in v then Kept(v[Percent]) else Find(o, Percent)
  }

  /** A positive step also gives back on the total. */
  function Relief(v: Quantities): int {
    if Step in v && v[Step] > 0 then v[Step] else 0
  }

  function Relieved(t: Option<int>, relief: int): Option<int> {
    if t.Some? && relief > 0 then Kept(t.value + relief) else t
  }

  /** The new total; only when a total and a positive step come together does it matter which is visited first. */
  function NewTotal(o: Quantities, v: Quantities, totalFirst: bool): Option<int> {
    if Total !in v then Relieved(Find(o, Total), Relief(v))
    else if totalFirst then Relieved(Kept(v[Total]), Relief(v))
    else Kept(v[Total])
  }

  function NewQuantity(o: Quantities, v: Quantities, totalFirst: bool, f: Formula): Option<int> {
    match f
    case Step => NewStep(o, v)
    case Total => NewTotal(o, v, totalFirst)
    case Percent => NewPercent(o, v)
  }

  function NewQuantities(o: Quantities, v: Quantities, totalFirst: bool): (r: Quantities)
    ensures forall f :: Find(r, f) == NewQuantity(o, v, totalFirst, f)
  {
    map f | f in {Step, Total, Percent} && NewQuantity(o, v, totalFirst, f).Some? ::
      NewQuantity(o, v, totalFirst, f).value
  }

  /** What becomes of one key: o is what is stored under it, v what the update says about it. */
  function EntryAfter(o: Option<ActionResource>, v: Option<ActionResource>, totalFirst: bool): Option<ActionResource> {
    if v.None? then o
    else if o.None? then (if IsNegative(v.value) then v else None)
    else
      var q := NewQuantities(o.value.quantity, v.value.quantity, totalFirst);
      if q == map[] then None else Some(ActionResource(o.value.name, v.value.conflicting, q))
  }

  ghost predicate Follows(o: Option<ActionResource>, v: Option<ActionResource>, e: Option<ActionResource>) {
    exists b :: e == EntryAfter(o, v, b)
  }

  ghost predicate Updates(s: Store, list: Store, s': Store) {
    forall k :: Follows(Find(s, k), Find(list, k), Find(s', k))
  }

  /** The same, for a given visiting order of the formulas of each key. */
  ghost predicate UpdatesInOrder(s: Store, list: Store, s': Store, first: map<string, bool>) {
    && list.Keys <= first.Keys
    && forall k :: Find(s', k) == EntryAfter(Find(s, k), Find(list, k), k in list && first[k])
  }

  lemma InOrderUpdates(s: Store, list: Store, s': Store, first: map<string, bool>)
    requires UpdatesInOrder(s, list, s', first)
    ensures Updates(s, list, s')
  {
    forall k
      ensures Follows(Find(s, k), Find(list, k), Find(s', k))
    {
      assert Find(s', k) == EntryAfter(Find(s, k), Find(list, k), k in list && first[k]);
    }
  }

  /** An update leaves the outcome to the map order exactly when it brings both a positive step and a negative total. */
  lemma UpdateOrderMattersIff(o: ActionResource, v: ActionResource)
    ensures EntryAfter(Some(o), Some(v), true) == EntryAfter(Some(o), Some(v), false)
            <==> !(Relief(v.quantity) > 0 && Total in v.quantity && v.quantity[Total] < 0)
  {
    var a := NewQuantities(o.quantity, v.quantity, true);
    var b := NewQuantities(o.quantity, v.quantity, false);
    if Relief(v.quantity) > 0 && Total in v.quantity && v.quantity[Total] < 0 {
      assert Find(b, Total) == Some(v.quantity[Total]);
      assert Find(a, Total) != Find(b, Total);
    } else {
      assert forall f :: Find(a, f) == Find(b, f);
      SameQuantities(a, b);
    }
  }

  lemma SameQuantities(a: Quantities, b: Quantities)
    requires forall f :: Find(a, f) == Find(b, f)
    ensures a == b
  {
    forall f
      ensures f in a <==> f in b
      ensures f in a ==> a[f] == b[f]
    {
      assert Find(a, f) == Find(b, f);
    }
  }

  /** The quantities that take something away. */
  function Negatives(o: Option<ActionResource>): Quantities {
    if o.None? then map[] else NegativePart(o.value.quantity)
  }

  /** A step is reported when it takes away, is added to something, or meets a stored total it can relieve. */
  predicate ReportsStep(o: Quantities, v: Quantities, totalFirst: bool) {
    Step in v && (|| v[Step] < 0
                  || (Step in o && o[Step] != 0)
                  || (v[Step] > 0 && (if totalFirst && Total in v then v[Total] < 0 else Total in o)))
  }

  /** A total or a share is reported when it differs from the stored one. */
  predicate ReportsTotal(o: Quantities, v: Quantities) {
    Total in v && Find(o, Total) != Some(v[Total])
  }

  predicate ReportsPercent(o: Quantities, v: Quantities) {
    Percent in v && Find(o, Percent) != Some(v[Percent])
  }

  /** What an update of a stored entry reports as a change. */
  predicate Reports(o: Quantities, v: Quantities, totalFirst: bool) {
    || ReportsStep(o, v, totalFirst)
    || ReportsTotal(o, v)
    || ReportsPercent(o, v)
  }

  /** What the update of a key reports: a new entry, or a change of a stored one. */
  predicate ReportsKey(o: Option<ActionResource>, v: ActionResource, totalFirst: bool) {
    if o.None? then IsNegative(v) else Reports(o.value.quantity, v.quantity, totalFirst)
  }

  // ---------------------------------------------------------------- what a subtraction means

  /** A share is taken of the prediction, the other two count as they are. */
  function Effective(q: Quantities, f: Formula, p: int): int {
    if f !in q then 0 else if f == Percent then Quotient(p * q[f], 1000) else q[f]
  }

  /** The least of zero and the effective quantities of one entry. */
  function EntryLeast(q: Quantities, p: int): int {
    Min(0, Min(Effective(q, Step, p), Min(Effective(q, Total, p), Effective(q, Percent, p))))
  }

  function Clamp(f: Formula, v: int, p: int): int {
    if f != Percent && v != 0 && v + p < 0 then -p else v
  }

  function ClampedQuantities(q: Quantities, p: int): (r: Quantities)
    ensures r.Keys == q.Keys && forall f :: f in q ==> r[f] == Clamp(f, q[f], p)
  {
    map f | f in q :: Clamp(f, q[f], p)
  }

  /** The resource an entry is aimed at: its own name, or the key when it has none. */
  function Target(k: string, a: ActionResource): string {
    if |a.name| != 0 then a.name else k
  }

  function ClampedEntry(k: string, a: ActionResource, predict: map<string, int>): ActionResource {
    if Target(k, a) in predict then a.(quantity := ClampedQuantities(a.quantity, predict[Target(k, a)])) else a
  }

  function Clamped(s: Store, predict: map<string, int>): (r: Store)
    ensures r.Keys == s.Keys && forall k :: k in s ==> r[k] == ClampedEntry(k, s[k], predict)
  {
    map k | k in s :: ClampedEntry(k, s[k], predict)
  }

  /** What one entry asks for: the resource, the least effective quantity, and whether it is in conflict. */
  datatype Claim = Claim(target: string, least: int, conflicting: bool)

  type Claims = map<string, Claim>

  /** An entry aimed at a resource that is not predicted asks for nothing. */
  function ClaimOf(k: string, a: ActionResource, predict: map<string, int>): Claim {
    var res := Target(k, a);
    Claim(res, if res in predict then EntryLeast(a.quantity, predict[res]) else 0, a.conflicting)
  }

  function ClaimsOf(s: Store, predict: map<string, int>): (c: Claims)
    ensures c.Keys == s.Keys && forall k :: k in s ==> c[k] == ClaimOf(k, s[k], predict)
  {
    map k | k in s :: ClaimOf(k, s[k], predict)
  }

  predicate Aimed(c: Claims, k: string, res: string) {
    k in c && c[k].target == res
  }

  /** m is the least of zero and all effective quantities aimed at the resource. */
  ghost predicate IsLeast(c: Claims, res: string, m: int) {
    && m <= 0
    && (forall k :: Aimed(c, k, res) ==> m <= c[k].least)
    && (m < 0 ==> exists k :: Aimed(c, k, res) && m == c[k].least)
  }

  /** A claim that takes something away from the resource, made in conflict. */
  predicate TakesInConflict(c: Claims, k: string, res: string) {
    Aimed(c, k, res) && c[k].least < 0 && c[k].conflicting
  }

  /** What is left of a prediction p when m is taken away. */
  function Adjusted(p: int, m: int): int {
    if m < 0 then Max(0, p + m) else p
  }

  /**
   What a subtraction leaves of one resource: the prediction less the least quantity aimed at it, and a
   flag just when something was taken, telling whether a conflict took it.
   */
  ghost predicate SubtractedFor(c: Claims, res: string, p: int, adjusted: int, flag: Option<bool>) {
    exists m :: SubtractedBy(c, res, p, adjusted, flag, m)
  }

  ghost predicate SubtractedBy(c: Claims, res: string, p: int, adjusted: int, flag: Option<bool>, m: int) {
    && IsLeast(c, res, m) && adjusted == Adjusted(p, m)
    && flag == if m < 0 then Some(exists k :: TakesInConflict(c, k, res)) else None
  }

  /**
   The adjusted amount does not depend on the order of the maps, and for a prediction that is not negative it is
   max(0, p + m).
   */
  lemma AdjustedIsDetermined(c: Claims, res: string, p: int, adjusted: int, flag: Option<bool>, m: int)
    requires SubtractedFor(c, res, p, adjusted, flag) && IsLeast(c, res, m)
    ensures adjusted == Adjusted(p, m)
    ensures p >= 0 ==> adjusted == Max(0, p + m)
  {
    var m' :| SubtractedBy(c, res, p, adjusted, flag, m');
    assert m == m';
  }

  predicate Close(m: int, m': int, p: int) {
    m == m' || m <= m' <= -p
  }

  lemma ClampKeepsLeast(q: Quantities, p: int)
    requires p >= 0
    ensures Close(EntryLeast(q, p), EntryLeast(ClampedQuantities(q, p), p), p)
  {
    var r := ClampedQuantities(q, p);
    assert Effective(r, Percent, p) == Effective(q, Percent, p);
    assert Effective(r, Step, p) == if Step in q then Clamp(Step, q[Step], p) else 0;
    assert Effective(r, Total, p) == if Total in q then Clamp(Total, q[Total], p) else 0;
  }

  /** Claims on the same resources that are close for this one; with nothing predicted the second ones take nothing. */
  ghost predicate CloseClaims(c: Claims, d: Claims, res: string, p: int) {
    && c.Keys == d.Keys
    && (forall k :: k in c ==> c[k].target == d[k].target && c[k].conflicting == d[k].conflicting)
    && (forall k :: Aimed(c, k, res) ==> Close(c[k].least, d[k].least, p) && (p == 0 ==> d[k].least == 0))
  }

  lemma CloseLeasts(c: Claims, d: Claims, res: string, p: int, m: int, m': int)
    requires p >= 0 && CloseClaims(c, d, res, p) && IsLeast(c, res, m) && IsLeast(d, res, m')
    ensures Adjusted(p, m) == Adjusted(p, m')
    ensures if p == 0 then m' == 0 else (m < 0 <==> m' < 0)
  {
    assert forall k :: Aimed(c, k, res) <==> Aimed(d, k, res);
    if m < 0 {
      var k :| Aimed(c, k, res) && m == c[k].least;
      assert m' <= d[k].least;
    }
    if m' < 0 {
      var k :| Aimed(d, k, res) && m' == d[k].least;
      assert m <= c[k].least;
    }
  }

  lemma CloseConflicts(c: Claims, d: Claims, res: string, p: int)
    requires p > 0 && CloseClaims(c, d, res, p)
    ensures (exists k :: TakesInConflict(c, k, res)) <==> (exists k :: TakesInConflict(d, k, res))
  {
    if k :| TakesInConflict(c, k, res) {
      assert TakesInConflict(d, k, res);
    }
    if k :| TakesInConflict(d, k, res) {
      assert TakesInConflict(c, k, res);
    }
  }

  lemma ClampedClaims(s: Store, predict: map<string, int>, res: string)
    requires res in predict && predict[res] >= 0
    ensures CloseClaims(ClaimsOf(s, predict), ClaimsOf(Clamped(s, predict), predict), res, predict[res])
  {
    var c, d, p := ClaimsOf(s, predict), ClaimsOf(Clamped(s, predict), predict), predict[res];
    forall k | Aimed(c, k, res)
      ensures Close(c[k].least, d[k].least, p) && (p == 0 ==> d[k].least == 0)
    {
      ClampKeepsLeast(s[k].quantity, p);
    }
  }

  lemma CloseSubtractions(c: Claims, d: Claims, res: string, p: int, m: int, m': int,
                          adjusted: int, flag: Option<bool>, adjusted': int, flag': Option<bool>)
    requires p >= 0 && CloseClaims(c, d, res, p)
    requires SubtractedBy(c, res, p, adjusted, flag, m) && SubtractedBy(d, res, p, adjusted', flag', m')
    ensures adjusted' == adjusted
    ensures flag' == flag <==> p > 0 || flag.None?
  {
    CloseLeasts(c, d, res, p, m, m');
    if p > 0 {
      CloseConflicts(c, d, res, p);
    }
  }

  /**
   Subtracting again from the same prediction gives the same amount, although stored quantities were
   clamped. The flag is the same too, except that a prediction of zero is flagged only once.
   */
  lemma SubtractAgain(s: Store, predict: map<string, int>, res: string,
                      adjusted: int, flag: Option<bool>, adjusted': int, flag': Option<bool>)
    requires res in predict && predict[res] >= 0
    requires SubtractedFor(ClaimsOf(s, predict), res, predict[res], adjusted, flag)
    requires SubtractedFor(ClaimsOf(Clamped(s, predict), predict), res, predict[res], adjusted', flag')
    ensures adjusted' == adjusted
    ensures flag' == flag <==> predict[res] > 0 || flag.None?
  {
    var c, d, p := ClaimsOf(s, predict), ClaimsOf(Clamped(s, predict), predict), predict[res];
    var m :| SubtractedBy(c, res, p, adjusted, flag, m);
    var m' :| SubtractedBy(d, res, p, adjusted', flag', m');
    ClampedClaims(s, predict, res);
    CloseSubtractions(c, d, res, p, m, m', adjusted, flag, adjusted', flag');
  }

  // ---------------------------------------------------------------- in terms of the stored quantities

  /** What an update makes of the stored quantities, formula by formula. */
  lemma UpdateMeans(o: Quantities, v: Quantities, b: bool)
    ensures var r, relief := NewQuantities(o, v, b), Step in v && v[Step] > 0;
            && (Step !in v ==> Find(r, Step) == Find(o, Step))
            && (Step in v ==> Holds(r, Step, v[Step] + if Step in o then o[Step] else 0))
            && (Percent !in v ==> Find(r, Percent) == Find(o, Percent))
            && (Percent in v ==> Holds(r, Percent, v[Percent]))
            && (Total !in v && (!relief || Total !in o) ==> Find(r, Total) == Find(o, Total))
            && (Total !in v && relief && Total in o ==> Holds(r, Total, o[Total] + v[Step]))
            && (Total in v && !relief ==> Holds(r, Total, v[Total]))
  {
    var r := NewQuantities(o, v, b);
    assert Find(r, Step) == NewQuantity(o, v, b, Step);
    assert Find(r, Total) == NewQuantity(o, v, b, Total);
    assert Find(r, Percent) == NewQuantity(o, v, b, Percent);
  }

  /** The quantity is stored if it is negative, and not stored otherwise. */
  predicate Holds(r: Quantities, f: Formula, v: int) {
    if v < 0 then f in r && r[f] == v else f !in r
  }

  /** A key enters the store when it is in conflict or takes something away, and leaves it with its last quantity. */
  lemma EntryMeans(v: ActionResource, o: ActionResource, b: bool)
    ensures var e := EntryAfter(None, Some(v), b);
            if v.conflicting || exists f :: f in v.quantity && v.quantity[f] < 0 then e == Some(v) else e == None
    ensures var e, r := EntryAfter(Some(o), Some(v), b), NewQuantities(o.quantity, v.quantity, b);
            if r == map[] then e == None
            else e.Some? && e.value.name == o.name && e.value.conflicting == v.conflicting && e.value.quantity == r
  {
  }

  /** An entry is aimed at the resource it names, and one without a name at its key. */
  predicate IsAimedAt(k: string, a: ActionResource, res: string) {
    if a.name != "" then a.name == res else k == res
  }

  /** The quantity v takes t from the prediction p: a share the whole units of that share, the others what they say. */
  predicate Takes(f: Formula, v: int, p: int, t: int) {
    if v >= 0 then t == 0
    else if f == Percent then 1000 * t <= -(p * v) < 1000 * t + 1000
    else t == -v
  }

  /** The stored quantity under k and f is aimed at the resource and takes t from it. */
  predicate Asks(s: Store, res: string, p: int, k: string, f: Formula, t: int) {
    k in s && IsAimedAt(k, s[k], res) && f in s[k].quantity && Takes(f, s[k].quantity[f], p, t)
  }

  /** The resource loses the most that any stored quantity asks of it, and is flagged if it loses something. */
  ghost predicate Loses(s: Store, res: string, p: int, adjusted: int, flag: Option<bool>, t: int) {
    && t >= 0 && adjusted == Max(0, p - t)
    && (forall k, f, u :: Asks(s, res, p, k, f, u) ==> u <= t)
    && (t > 0 ==> exists k, f :: Asks(s, res, p, k, f, t))
    && flag == if t == 0 then None else Some(AskedInConflict(s, res, p))
  }

  /** A stored quantity in conflict asks for something. */
  ghost predicate AskedInConflict(s: Store, res: string, p: int) {
    exists k, f, u :: Asks(s, res, p, k, f, u) && u > 0 && s[k].conflicting
  }

  lemma ShareTakes(p: int, v: int, t: int)
    requires p >= 0 && v < 0
    ensures Takes(Percent, v, p, t) <==> t == -Quotient(p * v, 1000)
    ensures Quotient(p * v, 1000) <= 0
  {
    ProductSign(p, v);
  }

  lemma ProductSign(p: int, v: int)
    requires p >= 0
    ensures v <= 0 ==> p * v <= 0
    ensures v >= 0 ==> p * v >= 0
  {
  }

  /** What a stored quantity takes is what its effective quantity is below zero. */
  lemma TakesIsEffective(q: Quantities, f: Formula, p: int, t: int)
    requires p >= 0 && f in q
    ensures Takes(f, q[f], p, t) <==> t == Max(0, -Effective(q, f, p))
  {
    if f == Percent {
      if q[f] < 0 {
        ShareTakes(p, q[f], t);
      } else {
        ProductSign(p, q[f]);
      }
    }
  }

  /** The least of an entry is the most that one of its quantities takes. */
  lemma LeastIsMost(q: Quantities, p: int)
    requires p >= 0
    ensures forall f, t :: f in q && Takes(f, q[f], p, t) ==> t <= -EntryLeast(q, p)
    ensures EntryLeast(q, p) < 0 ==> exists f :: f in q && Takes(f, q[f], p, -EntryLeast(q, p))
    ensures EntryLeast(q, p) <= 0
  {
    forall f, t | f in q
      ensures Takes(f, q[f], p, t) <==> t == Max(0, -Effective(q, f, p))
    {
      TakesIsEffective(q, f, p, t);
    }
    var m := EntryLeast(q, p);
    if m < 0 {
      var f := if m == Effective(q, Step, p) then Step else if m == Effective(q, Total, p) then Total else Percent;
      assert m == Effective(q, f, p) && f in q;
      assert Takes(f, q[f], p, -m);
    }
  }

  lemma ClaimIsMost(s: Store, predict: map<string, int>, res: string, k: string)
    requires res in predict && predict[res] >= 0
    ensures var c := ClaimsOf(s, predict);
            && (Aimed(c, k, res) <==> k in s && IsAimedAt(k, s[k], res))
            && (Aimed(c, k, res) ==>
                  && c[k].conflicting == s[k].conflicting
                  && (forall f, t :: Asks(s, res, predict[res], k, f, t) ==> t <= -c[k].least)
                  && (c[k].least < 0 ==> exists f, t :: Asks(s, res, predict[res], k, f, t) && t == -c[k].least))
  {
    if k in s && IsAimedAt(k, s[k], res) {
      LeastIsMost(s[k].quantity, predict[res]);
      var least := EntryLeast(s[k].quantity, predict[res]);
      if least < 0 {
        var f :| f in s[k].quantity && Takes(f, s[k].quantity[f], predict[res], -least);
        assert Asks(s, res, predict[res], k, f, -least);
      }
    }
  }

  /** A conflict takes something exactly when a stored quantity in conflict asks for something. */
  lemma ConflictsAsk(s: Store, predict: map<string, int>, res: string)
    requires res in predict && predict[res] >= 0
    ensures (exists k :: TakesInConflict(ClaimsOf(s, predict), k, res)) <==> AskedInConflict(s, res, predict[res])
  {
    var c, p := ClaimsOf(s, predict), predict[res];
    if k :| TakesInConflict(c, k, res) {
      ClaimIsMost(s, predict, res, k);
      var f, t :| Asks(s, res, p, k, f, t) && t == -c[k].least;
    }
    if k, f, u :| Asks(s, res, p, k, f, u) && u > 0 && s[k].conflicting {
      ClaimIsMost(s, predict, res, k);
      assert TakesInConflict(c, k, res);
    }
  }

  lemma LeastIsMostAsked(s: Store, predict: map<string, int>, res: string, t: int)
    requires res in predict && predict[res] >= 0 && IsLeast(ClaimsOf(s, predict), res, -t)
    ensures forall k, f, u :: Asks(s, res, predict[res], k, f, u) ==> u <= t
    ensures t > 0 ==> exists k, f :: Asks(s, res, predict[res], k, f, t)
  {
    var c, p := ClaimsOf(s, predict), predict[res];
    forall k, f, u | Asks(s, res, p, k, f, u)
      ensures u <= t
    {
      ClaimIsMost(s, predict, res, k);
    }
    if t > 0 {
      var k :| Aimed(c, k, res) && -t == c[k].least;
      ClaimIsMost(s, predict, res, k);
      var f, u :| Asks(s, res, p, k, f, u) && u == t;
      assert Asks(s, res, p, k, f, t);
    }
  }

  lemma LeastIsLost(s: Store, predict: map<string, int>, res: string, adjusted: int, flag: Option<bool>, t: int)
    requires res in predict && predict[res] >= 0
    requires SubtractedBy(ClaimsOf(s, predict), res, predict[res], adjusted, flag, -t)
    ensures Loses(s, res, predict[res], adjusted, flag, t)
  {
    LeastIsMostAsked(s, predict, res, t);
    ConflictsAsk(s, predict, res);
  }

  /** What a subtraction leaves, in terms of the stored quantities. */
  lemma SubtractionMeans(s: Store, predict: map<string, int>, res: string, adjusted: int, flag: Option<bool>)
    requires res in predict && predict[res] >= 0
    requires SubtractedFor(ClaimsOf(s, predict), res, predict[res], adjusted, flag)
    ensures exists t :: Loses(s, res, predict[res], adjusted, flag, t)
  {
    var m :| SubtractedBy(ClaimsOf(s, predict), res, predict[res], adjusted, flag, m);
    LeastIsLost(s, predict, res, adjusted, flag, -m);
  }

  /** A share that is the only quantity aimed at a resource takes its whole units: half of 10000 leaves 5000. */
  lemma HalfIsTaken(s: Store, predict: map<string, int>, adjusted: int, flag: Option<bool>)
    requires s == map["cpu" := ActionResource("", true, map[Percent := -500])] && predict == map["cpu" := 10000]
    requires SubtractedFor(ClaimsOf(s, predict), "cpu", 10000, adjusted, flag)
    ensures adjusted == 5000 && flag == Some(true)
  {
    SubtractionMeans(s, predict, "cpu", adjusted, flag);
    var t :| Loses(s, "cpu", 10000, adjusted, flag, t);
    assert Asks(s, "cpu", 10000, "cpu", Percent, 5000);
  }

  // ---------------------------------------------------------------- the manager

  class Manager {
    var conflictingResources: Store

    constructor ()
      ensures conflictingResources == map[]
    {
      conflictingResources := map[];
    }

    /** Update the store; first tells for which keys the map order put a total before the step. */
    method UpdateConflictList(list: Store) returns (changed: bool, ghost first: map<string, bool>)
      modifies this
      ensures first.Keys == list.Keys
      ensures UpdatesInOrder(old(conflictingResources), list, conflictingResources, first)
      ensures changed <==> exists k :: k in list && ReportsKey(Find(old(conflictingResources), k), list[k], first[k])
    {
      changed, first := false, map[];
      ghost var before := conflictingResources;
      var todo := list.Keys;
      while todo != {}
        invariant HalfUpdated(before, list, todo, conflictingResources, first, changed)
        decreases todo
      {
        var k :| k in todo;
        conflictingResources, changed, first := UpdateOne(k, list, conflictingResources, changed, before, todo, first);
        todo := todo - {k};
      }
      assert list - {} == list;
    }

    method CheckAndSubConflictResource(predict: map<string, int>)
        returns (adjusted: map<string, int>, conflicted: map<string, bool>)
      modifies this
      ensures conflictingResources == Clamped(old(conflictingResources), predict)
      ensures adjusted.Keys == predict.Keys && conflicted.Keys <= predict.Keys
      ensures forall res :: res in predict ==>
                SubtractedFor(ClaimsOf(old(conflictingResources), predict), res, predict[res],
                              adjusted[res], Find(conflicted, res))
      ensures forall res :: res in predict && predict[res] >= 0 ==>
                exists t :: Loses(old(conflictingResources), res, predict[res], adjusted[res], Find(conflicted, res), t)
    {
      adjusted, conflicted := SubtractClaims(predict);
      forall res | res in predict && predict[res] >= 0
        ensures exists t :: Loses(old(conflictingResources), res, predict[res], adjusted[res], Find(conflicted, res), t)
      {
        SubtractionMeans(old(conflictingResources), predict, res, adjusted[res], Find(conflicted, res));
      }
    }

    method SubtractClaims(predict: map<string, int>)
        returns (adjusted: map<string, int>, conflicted: map<string, bool>)
      modifies this
      ensures conflictingResources == Clamped(old(conflictingResources), predict)
      ensures adjusted.Keys == predict.Keys && conflicted.Keys <= predict.Keys
      ensures forall res :: res in predict ==>
                SubtractedFor(ClaimsOf(old(conflictingResources), predict), res, predict[res],
                              adjusted[res], Find(conflicted, res))
    {
      var merged, conflicting, claims := MergeConflictResource(predict);
      adjusted, conflicted := predict, map[];
      var todo := merged.Keys;
      while todo != {}
        invariant todo <= merged.Keys
        invariant adjusted.Keys == predict.Keys && conflicted.Keys == merged.Keys - todo
        invariant forall res :: res in conflicted ==> conflicted[res] == conflicting[res]
        invariant forall res :: res in conflicted ==> adjusted[res] == Max(0, predict[res] + merged[res])
        invariant forall res :: res in predict && res !in conflicted ==> adjusted[res] == predict[res]
        decreases todo
      {
        var res :| res in todo;
        var amount := predict[res] + merged[res];
        if amount < 0 {
          amount := 0;
        }
        adjusted := adjusted[res := amount];
        conflicted := conflicted[res := conflicting[res]];
        todo := todo - {res};
      }
      forall res | res in predict
        ensures SubtractedFor(claims, res, predict[res], adjusted[res], Find(conflicted, res))
      {
        MergedIsSubtracted(claims, res, predict[res], Find(merged, res), Find(conflicting, res));
      }
    }

    /** The least quantity per resource, and whether an entry that takes something from it is in conflict. */
    method MergeConflictResource(predict: map<string, int>)
        returns (merged: map<string, int>, conflicting: map<string, bool>, ghost claims: Claims)
      modifies this
      ensures conflictingResources == Clamped(old(conflictingResources), predict)
      ensures claims == ClaimsOf(old(conflictingResources), predict)
      ensures merged.Keys == conflicting.Keys <= predict.Keys
      ensures AllMerged(claims, merged, conflicting)
    {
      ghost var before := conflictingResources;
      merged, conflicting, claims := map[], map[], map[];
      var todo := conflictingResources.Keys;
      while todo != {}
        invariant HalfClamped(before, todo, conflictingResources, claims, predict)
        invariant merged.Keys == conflicting.Keys <= predict.Keys
        invariant AllMerged(claims, merged, conflicting)
        decreases todo
      {
        var k :| k in todo;
        conflictingResources, merged, conflicting, claims :=
          Visit(k, conflictingResources, merged, conflicting, predict, claims, before, todo);
        todo := todo - {k};
      }
      AllVisited(before, conflictingResources, claims, predict);
    }
  }

  // ---------------------------------------------------------------- steps of the loops

  ghost predicate MergedFor(c: Claims, res: string, m: Option<int>, flag: Option<bool>) {
    && IsLeast(c, res, if m.Some? then m.value else 0)
    && (m.Some? <==> flag.Some?)
    && (m.Some? ==> m.value < 0 && (flag.value <==> exists k :: TakesInConflict(c, k, res)))
  }

  lemma MergedIsSubtracted(c: Claims, res: string, p: int, m: Option<int>, flag: Option<bool>)
    requires MergedFor(c, res, m, flag)
    ensures SubtractedFor(c, res, p, if m.Some? then Max(0, p + m.value) else p, flag)
  {
    var adjusted := if m.Some? then Max(0, p + m.value) else p;
    assert SubtractedBy(c, res, p, adjusted, flag, if m.Some? then m.value else 0);
  }

  /** A claim on another resource, or one that takes nothing, changes nothing. */
  lemma MergedElsewhere(c: Claims, k: string, a: Claim, res: string, m: Option<int>, flag: Option<bool>)
    requires k !in c && (a.target != res || a.least == 0) && MergedFor(c, res, m, flag)
    ensures MergedFor(c[k := a], res, m, flag)
  {
    var d := c[k := a];
    assert forall j :: Aimed(d, j, res) <==> Aimed(c, j, res) || (j == k && a.target == res);
    assert forall j :: TakesInConflict(d, j, res) <==> TakesInConflict(c, j, res);
    if m.Some? {
      var j :| Aimed(c, j, res) && m.value == c[j].least;
      assert Aimed(d, j, res) && m.value == d[j].least;
    }
  }

  /** A claim on the resource brings in its quantity and its flag. */
  lemma MergedHere(c: Claims, k: string, a: Claim, m: Option<int>, flag: Option<bool>)
    requires k !in c && a.least < 0 && MergedFor(c, a.target, m, flag)
    ensures MergedFor(c[k := a], a.target, Some(if m.Some? then Min(a.least, m.value) else a.least),
                      Some(a.conflicting || (flag.Some? && flag.value)))
  {
    var d, res := c[k := a], a.target;
    assert forall j :: Aimed(d, j, res) <==> Aimed(c, j, res) || j == k;
    assert forall j :: TakesInConflict(d, j, res) <==> TakesInConflict(c, j, res) || (j == k && a.conflicting);
    if m.Some? {
      var j :| Aimed(c, j, res) && m.value == c[j].least;
      assert Aimed(d, j, res) && m.value == d[j].least;
    }
    assert Aimed(d, k, res) && a.least == d[k].least;
    if a.conflicting {
      assert TakesInConflict(d, k, res);
    } else if flag.Some? && flag.value {
      var j :| TakesInConflict(c, j, res);
      assert TakesInConflict(d, j, res);
    }
  }

  /** Keep the smaller quantity, and the flag once it is set. */
  function AbsorbQuantity(merged: map<string, int>, a: Claim): map<string, int> {
    merged[a.target := if a.target in merged then Min(a.least, merged[a.target]) else a.least]
  }

  function AbsorbFlag(conflicting: map<string, bool>, a: Claim): map<string, bool> {
    conflicting[a.target := a.conflicting || (a.target in conflicting && conflicting[a.target])]
  }

  ghost predicate AllMerged(c: Claims, merged: map<string, int>, conflicting: map<string, bool>) {
    forall res :: MergedFor(c, res, Find(merged, res), Find(conflicting, res))
  }

  lemma MergedOneMore(c: Claims, k: string, a: Claim, merged: map<string, int>, conflicting: map<string, bool>)
    requires k !in c && a.least <= 0 && AllMerged(c, merged, conflicting)
    ensures a.least == 0 ==> AllMerged(c[k := a], merged, conflicting)
    ensures a.least < 0 ==> AllMerged(c[k := a], AbsorbQuantity(merged, a), AbsorbFlag(conflicting, a))
  {
    var m, f := merged, conflicting;
    if a.least < 0 {
      m, f := AbsorbQuantity(merged, a), AbsorbFlag(conflicting, a);
    }
    forall res
      ensures MergedFor(c[k := a], res, Find(m, res), Find(f, res))
    {
      assert MergedFor(c, res, Find(merged, res), Find(conflicting, res));
      if a.least == 0 || res != a.target {
        MergedElsewhere(c, k, a, res, Find(merged, res), Find(conflicting, res));
      } else {
        MergedHere(c, k, a, Find(merged, a.target), Find(conflicting, a.target));
      }
    }
  }

  /** The store and the claims while the entries in todo are still to be visited. */
  ghost predicate HalfClamped(before: Store, todo: set<string>, now: Store, claims: Claims, predict: map<string, int>) {
    && todo <= before.Keys == now.Keys && claims.Keys == before.Keys - todo
    && (forall k :: k in todo ==> now[k] == before[k])
    && (forall k :: k in claims ==>
          now[k] == ClampedEntry(k, before[k], predict) && claims[k] == ClaimOf(k, before[k], predict))
  }

  lemma AllVisited(before: Store, now: Store, claims: Claims, predict: map<string, int>)
    requires HalfClamped(before, {}, now, claims, predict)
    ensures now == Clamped(before, predict) && claims == ClaimsOf(before, predict)
  {
  }

  lemma OneVisited(before: Store, todo: set<string>, now: Store, claims: Claims, predict: map<string, int>, k: string)
    requires HalfClamped(before, todo, now, claims, predict) && k in todo
    ensures HalfClamped(before, todo - {k}, now[k := ClampedEntry(k, now[k], predict)],
                        claims[k := ClaimOf(k, now[k], predict)], predict)
  {
  }

  /** Visit one entry: clamp it, and merge what it asks for. */
  method Visit(k: string, store: Store, merged: map<string, int>, conflicting: map<string, bool>,
               predict: map<string, int>,
               ghost claims: Claims, ghost before: Store, ghost todo: set<string>)
      returns (store': Store, m: map<string, int>, c: map<string, bool>, ghost claims': Claims)
    requires HalfClamped(before, todo, store, claims, predict) && k in todo
    requires merged.Keys == conflicting.Keys <= predict.Keys && AllMerged(claims, merged, conflicting)
    ensures HalfClamped(before, todo - {k}, store', claims', predict)
    ensures m.Keys == c.Keys <= predict.Keys && AllMerged(claims', m, c)
  {
    OneVisited(before, todo, store, claims, predict, k);
    var entry, claim := MergeEntry(k, store[k], predict);
    m, c := Absorb(merged, conflicting, claim, claims, k);
    store', claims' := store[k := entry], claims[k := claim];
  }

  /** Bring one more claim in. */
  method Absorb(merged: map<string, int>, conflicting: map<string, bool>, a: Claim, ghost claims: Claims,
                ghost k: string)
      returns (m: map<string, int>, c: map<string, bool>)
    requires merged.Keys == conflicting.Keys && AllMerged(claims, merged, conflicting)
    requires k !in claims && a.least <= 0
    ensures m.Keys == c.Keys == (if a.least < 0 then merged.Keys + {a.target} else merged.Keys)
    ensures AllMerged(claims[k := a], m, c)
  {
    MergedOneMore(claims, k, a, merged, conflicting);
    m, c := merged, conflicting;
    if a.least == 0 {
      return;
    }
    if a.target !in merged {
      m := merged[a.target := a.least];
      c := conflicting[a.target := a.conflicting];
    } else {
      if a.least < merged[a.target] {
        m := merged[a.target := a.least];
      }
      if a.conflicting {
        c := conflicting[a.target := true];
      }
    }
    assert m == AbsorbQuantity(merged, a) && c == AbsorbFlag(conflicting, a);
  }

  method MergeEntry(k: string, rq: ActionResource, predict: map<string, int>)
      returns (entry: ActionResource, claim: Claim)
    ensures entry == ClampedEntry(k, rq, predict)
    ensures claim == ClaimOf(k, rq, predict) && claim.least <= 0
    ensures claim.least < 0 ==> claim.target in predict
  {
    var res := k;
    if |rq.name| != 0 {
      res := rq.name;
    }
    if res !in predict {
      return rq, Claim(res, 0, rq.conflicting);
    }
    var current, quantity := MergeQuantities(rq.quantity, predict[res]);
    return rq.(quantity := quantity), Claim(res, current, rq.conflicting);
  }

  /** The least effective quantity of one entry, and its quantities clamped to the prediction. */
  method MergeQuantities(q: Quantities, p: int) returns (current: int, quantity: Quantities)
    ensures current == EntryLeast(q, p)
    ensures quantity == ClampedQuantities(q, p)
  {
    current, quantity := 0, q;
    var todo := q.Keys;
    while todo != {}
      invariant todo <= q.Keys && quantity.Keys == q.Keys
      invariant current == EntryLeast(q - todo, p)
      invariant forall f :: f in q ==> quantity[f] == if f in todo then q[f] else Clamp(f, q[f], p)
      decreases todo
    {
      var f :| f in todo;
      var v := q[f];
      EntryLeastOneMore(q, todo, f, p);
      todo := todo - {f};
      if v == 0 {
        continue;
      }
      if f != Percent {
        if v + p < 0 {
          quantity := quantity[f := -p];
        }
        if v < current {
          current := v;
        }
      } else {
        var share := Quotient(p * v, 1000);
        if share < current {
          current := share;
        }
      }
    }
    assert q - {} == q;
  }

  lemma EntryLeastOneMore(q: Quantities, todo: set<Formula>, f: Formula, p: int)
    requires f in todo && todo <= q.Keys
    ensures EntryLeast(q - (todo - {f}), p) == Min(EntryLeast(q - todo, p), Effective(q, f, p))
  {
    var a, b := q - todo, q - (todo - {f});
    assert Effective(a, f, p) == 0;
    assert forall g :: Effective(b, g, p) == if g == f then Effective(q, f, p) else Effective(a, g, p);
  }

  function NegativeOf(v: Option<int>): Option<int> {
    if v.Some? && v.value < 0 then v else None
  }

  ghost predicate SameNegatives(a: Quantities, b: Quantities) {
    forall f :: NegativeOf(Find(a, f)) == NegativeOf(Find(b, f))
  }

  /** A step is added up; a positive one is also given back on the total. */
  method ApplyStep(o: Quantities, q: int) returns (r: Quantities, changed: bool)
    ensures Find(r, Step) == Kept((if Step in o then o[Step] else 0) + q)
    ensures Find(r, Total) == if q > 0 then Relieved(Find(o, Total), q) else Find(o, Total)
    ensures Find(r, Percent) == Find(o, Percent)
    ensures changed <==> q < 0 || (Step in o && o[Step] != 0) || (q > 0 && Total in o)
  {
    r, changed := o, q < 0;
    var stepQ := q;
    if Step in o {
      if o[Step] != 0 {
        changed := true;
      }
      stepQ := o[Step] + q;
    }
    if Total in o && q > 0 {
      changed := true;
      if o[Total] + q >= 0 {
        r := r - {Total};
      } else {
        r := r[Total := o[Total] + q];
      }
    }
    if stepQ >= 0 {
      r := r - {Step};
    } else {
      r := r[Step := stepQ];
    }
  }

  /** A total or a share replaces the stored one. */
  method ApplyReplace(o: Quantities, f: Formula, q: int) returns (r: Quantities, changed: bool)
    ensures Find(r, f) == Kept(q)
    ensures forall g :: g != f ==> Find(r, g) == Find(o, g)
    ensures changed <==> Find(o, f) != Some(q)
  {
    changed := f !in o || o[f] != q;
    if q >= 0 {
      r := o - {f};
    } else {
      r := o[f := q];
    }
  }

  /** The stored total while an update is half applied. */
  function TotalSoFar(o: Quantities, v: Quantities, todo: set<Formula>, totalFirst: bool): Option<int> {
    if Total !in v || Total in todo then
      (if Step in v && Step !in todo then Relieved(Find(o, Total), Relief(v)) else Find(o, Total))
    else if Step in v && Step in todo then Kept(v[Total])
    else NewTotal(o, v, totalFirst)
  }

  /** The quantities and the report while the formulas in todo are still to be visited. */
  ghost predicate HalfApplied(o: Quantities, v: Quantities, todo: set<Formula>, totalFirst: bool, r: Quantities,
                              changed: bool) {
    && todo <= v.Keys
    && (Step in todo && Total in v && Total !in todo ==> totalFirst)
    && (Total in todo ==> !totalFirst)
    && Find(r, Step) == (if Step in todo then Find(o, Step) else NewStep(o, v))
    && Find(r, Percent) == (if Percent in todo then Find(o, Percent) else NewPercent(o, v))
    && Find(r, Total) == TotalSoFar(o, v, todo, totalFirst)
    && (changed <==> || (Step !in todo && ReportsStep(o, v, totalFirst))
                     || (Total !in todo && ReportsTotal(o, v))
                     || (Percent !in todo && ReportsPercent(o, v)))
  }

  /** One formula applied to the quantities r. */
  method ApplyFormula(o: Quantities, v: Quantities, r: Quantities, f: Formula, ghost todo: set<Formula>,
                      ghost totalFirst: bool, changed: bool)
      returns (r': Quantities, changed': bool)
    requires f in todo && HalfApplied(o, v, todo, totalFirst, r, changed)
    ensures HalfApplied(o, v, todo - {f}, totalFirst || (f == Total && Step in todo), r', changed')
  {
    var c;
    if f == Step {
      r', c := ApplyStep(r, v[f]);
    } else {
      r', c := ApplyReplace(r, f, v[f]);
    }
    changed' := changed || c;
  }

  method UpdateQuantities(o: Quantities, v: Quantities) returns (r: Quantities, changed: bool, ghost totalFirst: bool)
    ensures Find(r, Step) == NewStep(o, v) && Find(r, Percent) == NewPercent(o, v)
    ensures r == NewQuantities(o, v, totalFirst)
    ensures changed <==> Reports(o, v, totalFirst)
  {
    r, changed, totalFirst := o, false, false;
    var todo := v.Keys;
    while todo != {}
      invariant HalfApplied(o, v, todo, totalFirst, r, changed)
      decreases todo
    {
      var f :| f in todo;
      r, changed := ApplyFormula(o, v, r, f, todo, totalFirst, changed);
      totalFirst := totalFirst || (f == Total && Step in todo);
      todo := todo - {f};
    }
    assert forall f :: Find(r, f) == NewQuantity(o, v, totalFirst, f);
    SameQuantities(r, NewQuantities(o, v, totalFirst));
  }

  method UpdateKey(o: Option<ActionResource>, v: ActionResource)
      returns (entry: Option<ActionResource>, changed: bool, ghost totalFirst: bool)
    ensures entry == EntryAfter(o, Some(v), totalFirst)
    ensures changed <==> ReportsKey(o, v, totalFirst)
  {
    entry, changed, totalFirst := None, false, true;
    if o.None? {
      if IsNegative(v) {
        entry, changed := Some(v), true;
      }
    } else {
      var q;
      q, changed, totalFirst := UpdateQuantities(o.value.quantity, v.quantity);
      if q != map[] {
        entry := Some(ActionResource(o.value.name, v.conflicting, q));
      }
    }
  }

  lemma OneUpdated(before: Store, list: Store, todo: set<string>, was: Store, now: Store, first: map<string, bool>,
                   k: string, b: bool)
    requires k in todo && todo <= list.Keys && first.Keys == list.Keys - todo
    requires UpdatesInOrder(before, list - todo, was, first)
    requires Find(now, k) == EntryAfter(Find(before, k), Some(list[k]), b)
    requires forall j :: j != k ==> Find(now, j) == Find(was, j)
    ensures UpdatesInOrder(before, list - (todo - {k}), now, first[k := b])
  {
    var l, l' := list - todo, list - (todo - {k});
    forall j
      ensures Find(now, j) == EntryAfter(Find(before, j), Find(l', j), j in l' && first[k := b][j])
    {
      assert j != k ==> Find(l', j) == Find(l, j);
      assert j != k ==> Find(was, j) == EntryAfter(Find(before, j), Find(l, j), j in l && first[j]);
    }
  }

  lemma ReportsOneMore(before: Store, list: Store, first: map<string, bool>, k: string, b: bool)
    requires first.Keys <= list.Keys && k in list && k !in first
    ensures (exists j :: j in first[k := b] && ReportsKey(Find(before, j), list[j], first[k := b][j])) <==>
            || (exists j :: j in first && ReportsKey(Find(before, j), list[j], first[j]))
            || ReportsKey(Find(before, k), list[k], b)
  {
    var f := first[k := b];
    assert forall j :: j in first ==> j in f && f[j] == first[j];
    assert k in f && f[k] == b;
  }

  /** The store and the report while the keys in todo are still to be visited. */
  ghost predicate HalfUpdated(before: Store, list: Store, todo: set<string>, now: Store, first: map<string, bool>,
                              changed: bool) {
    && todo <= list.Keys && first.Keys == list.Keys - todo
    && UpdatesInOrder(before, list - todo, now, first)
    && (changed <==> exists k :: k in first && ReportsKey(Find(before, k), list[k], first[k]))
  }

  method UpdateOne(k: string, list: Store, store: Store, changed: bool,
                   ghost before: Store, ghost todo: set<string>, ghost first: map<string, bool>)
      returns (store': Store, changed': bool, ghost first': map<string, bool>)
    requires k in todo && HalfUpdated(before, list, todo, store, first, changed)
    ensures HalfUpdated(before, list, todo - {k}, store', first', changed')
  {
    assert Find(store, k) == Find(before, k);
    var entry, changes, totalFirst := UpdateKey(Find(store, k), list[k]);
    if entry.Some? {
      store' := store[k := entry.value];
    } else {
      store' := store - {k};
    }
    OneUpdated(before, list, todo, store, store', first, k, totalFirst);
    ReportsOneMore(before, list, first, k, totalFirst);
    first' := first[k := totalFirst];
    changed' := changed || changes;
  }

  /** What is not reported leaves every quantity that takes something away as it was. */
  lemma UnreportedChangesNothing(o: Option<ActionResource>, v: ActionResource, b: bool)
    requires !ReportsKey(o, v, b)
    ensures Negatives(EntryAfter(o, Some(v), b)) == Negatives(o)
  {
    if o.Some? {
      var r := NewQuantities(o.value.quantity, v.quantity, b);
      forall f
        ensures NegativeOf(Find(r, f)) == NegativeOf(Find(o.value.quantity, f))
      {
        assert Find(r, f) == NewQuantity(o.value.quantity, v.quantity, b, f);
      }
      SameNegativesMaps(o.value.quantity, r);
    }
  }

  /** A zero share for an entry without one, or a recovery that meets nothing but a total of zero. */
  predicate FalseAlarm(o: Quantities, v: Quantities) {
    || (Percent in v && v[Percent] == 0 && Percent !in o)
    || (Step in v && v[Step] > 0 && Find(o, Total) == Some(0) && (Step in o ==> o[Step] == 0))
  }

  /**
   For requests as they are generated, a report on a stored entry means that something changed, with two
   exceptions.
   */
  lemma ReportedIsChangedIff(o: Quantities, v: ActionResource, b: bool)
    requires NonPositive(o) && Shaped(v) && Reports(o, v.quantity, b)
    ensures NegativePart(NewQuantities(o, v.quantity, b)) == NegativePart(o) <==> FalseAlarm(o, v.quantity)
  {
    var r := NewQuantities(o, v.quantity, b);
    var f := OnlyFormula(v.quantity);
    forall g
      ensures Find(r, g) == NewQuantity(o, v.quantity, b, g)
    {
    }
    if FalseAlarm(o, v.quantity) {
      SameNegativesMaps(o, r);
    } else if f == Step && !(Step in o && o[Step] != 0) && v.quantity[Step] > 0 {
      assert Total in NegativePart(o);
      assert NegativeOf(Find(r, Total)) != Some(o[Total]);
    } else {
      assert NegativeOf(Find(r, f)) != NegativeOf(Find(o, f));
      assert f in NegativePart(r) || f in NegativePart(o);
    }
  }

  /** The one formula of a generated request that says anything. */
  lemma OnlyFormula(v: Quantities) returns (f: Formula)
    requires |v.Keys| == 1
    ensures v.Keys == {f}
  {
    f :| f in v.Keys;
    assert |v.Keys - {f}| == 0;
  }

  function NegativePart(q: Quantities): Quantities {
    map f | f in q && q[f] < 0 :: q[f]
  }

  lemma SameNegativesMaps(a: Quantities, b: Quantities)
    requires SameNegatives(b, a)
    ensures NegativePart(a) == NegativePart(b)
  {
    forall f
      ensures f in NegativePart(a) <==> f in NegativePart(b)
      ensures f in NegativePart(a) ==> a[f] == b[f]
    {
      assert NegativeOf(Find(a, f)) == NegativeOf(Find(b, f));
    }
  }

  // ---------------------------------------------------------------- whole runs

  datatype Op = Update(list: Store) | Subtract(predict: map<string, int>)

  ghost predicate Does(op: Op, s: Store, s': Store) {
    match op
    case Update(list) => Updates(s, list, s')
    case Subtract(predict) => s' == Clamped(s, predict)
  }

  ghost predicate IsRun(ops: seq<Op>, states: seq<Store>) {
    |states| == |ops| + 1 && forall i :: 0 <= i < |ops| ==> Does(ops[i], states[i], states[i + 1])
  }

  ghost predicate NonPositive(q: Quantities) {
    forall f :: f in q ==> q[f] <= 0
  }

  ghost predicate AllNonPositive(s: Store) {
    forall k :: k in s ==> NonPositive(s[k].quantity)
  }

  /** What an update may bring in for a key that is not stored yet. */
  ghost predicate EntersClean(s: Store, list: Store) {
    forall k :: k in list && k !in s && IsNegative(list[k]) ==> NonPositive(list[k].quantity)
  }

  lemma NewQuantitiesNonPositive(o: Quantities, v: Quantities, b: bool)
    requires NonPositive(o)
    ensures NonPositive(NewQuantities(o, v, b))
  {
    var r := NewQuantities(o, v, b);
    forall f | f in r
      ensures r[f] <= 0
    {
      assert Find(r, f) == NewQuantity(o, v, b, f);
    }
  }

  /** Stored quantities stay free of positive ones exactly when no new key brings one in. */
  lemma UpdateKeepsNonPositiveIff(s: Store, list: Store, s': Store)
    requires AllNonPositive(s) && Updates(s, list, s')
    ensures AllNonPositive(s') <==> EntersClean(s, list)
  {
    forall k | k in s'
      ensures NonPositive(s'[k].quantity) || (k in list && k !in s && IsNegative(list[k]) && s'[k] == list[k])
    {
      assert Follows(Find(s, k), Find(list, k), Find(s', k));
      var b :| Find(s', k) == EntryAfter(Find(s, k), Find(list, k), b);
      if k in s && k in list {
        NewQuantitiesNonPositive(s[k].quantity, list[k].quantity, b);
      }
    }
    forall k | k in list && k !in s && IsNegative(list[k])
      ensures k in s' && s'[k] == list[k]
    {
      assert Follows(Find(s, k), Find(list, k), Find(s', k));
      var b :| Find(s', k) == EntryAfter(Find(s, k), Find(list, k), b);
    }
  }

  ghost predicate ShapedOp(op: Op) {
    match op
    case Update(list) => forall k :: k in list ==> Shaped(list[k])
    case Subtract(predict) => forall res :: res in predict ==> predict[res] >= 0
  }

  lemma ShapedEntersClean(a: ActionResource)
    requires Shaped(a) && IsNegative(a)
    ensures NonPositive(a.quantity)
  {
    forall f | f in a.quantity
      ensures a.quantity[f] <= 0
    {
      if f == Step && !a.conflicting {
        var g :| g in a.quantity && a.quantity[g] < 0;
        assert {f, g} <= a.quantity.Keys && |{f, g}| == 2;
        CardinalityMonotone({f, g}, a.quantity.Keys);
      }
    }
  }

  lemma {:induction false} CardinalityMonotone<T>(a: set<T>, b: set<T>)
    requires a <= b
    ensures |a| <= |b|
  {
    if a != {} {
      var x :| x in a;
      CardinalityMonotone(a - {x}, b - {x});
    }
  }

  /** In every run fed with actions as they are generated, stored quantities are never positive. */
  lemma {:induction false} RunsStayNonPositive(ops: seq<Op>, states: seq<Store>)
    requires IsRun(ops, states) && states[0] == map[]
    requires forall i :: 0 <= i < |ops| ==> ShapedOp(ops[i])
    ensures forall i :: 0 <= i < |states| ==> AllNonPositive(states[i])
  {
    for n := 0 to |ops|
      invariant forall i :: 0 <= i <= n ==> AllNonPositive(states[i])
    {
      assert Does(ops[n], states[n], states[n + 1]);
      if ops[n].Update? {
        forall k | k in ops[n].list && IsNegative(ops[n].list[k])
          ensures NonPositive(ops[n].list[k].quantity)
        {
          ShapedEntersClean(ops[n].list[k]);
        }
        UpdateKeepsNonPositiveIff(states[n], ops[n].list, states[n + 1]);
      }
    }
  }

  /** For key k the operation is a recovery by q, or does not concern it. */
  ghost predicate OnlyRecovers(op: Op, k: string, q: int) {
    op.Update? && k in op.list ==> !op.list[k].conflicting && op.list[k].quantity == map[Step := q]
  }

  /** How many updates concern the key. */
  function Mentions(ops: seq<Op>, k: string): nat {
    if ops == [] then 0
    else Mentions(ops[..|ops| - 1], k) + if ops[|ops| - 1].Update? && k in ops[|ops| - 1].list then 1 else 0
  }

  /** No step or total stored under k takes away more than the bound. */
  predicate TakesAtMost(s: Store, k: string, bound: int) {
    k in s ==> forall f :: f in s[k].quantity && f != Percent ==> s[k].quantity[f] >= -bound
  }

  lemma RecoveryStep(op: Op, s: Store, s': Store, k: string, q: int, bound: int)
    requires Does(op, s, s') && OnlyRecovers(op, k, q) && q > 0 && TakesAtMost(s, k, bound)
    ensures TakesAtMost(s', k, if op.Update? && k in op.list then bound - q else bound)
            || (k in s' && Step !in s'[k].quantity && Total !in s'[k].quantity)
  {
    if op.Update? {
      assert Follows(Find(s, k), Find(op.list, k), Find(s', k));
      var b :| Find(s', k) == EntryAfter(Find(s, k), Find(op.list, k), b);
      if k in s && k in op.list {
        var r := NewQuantities(s[k].quantity, op.list[k].quantity, b);
        assert Find(r, Step) == NewStep(s[k].quantity, op.list[k].quantity);
        assert Find(r, Total) == NewTotal(s[k].quantity, op.list[k].quantity, b);
      }
    } else if k in s {
      assert s'[k] == ClampedEntry(k, s[k], op.predict);
    }
  }

  /**
   After a subtraction from prediction p, recoveries of size q that add up to p cancel the step and the
   total of an entry, however large they had grown before, whatever happens to other keys and however
   many further subtractions come in between.
   */
  lemma {:induction false} RecoveryCancels(s: Store, predict: map<string, int>, ops: seq<Op>, states: seq<Store>,
                                           k: string, q: int)
    requires k in s && Target(k, s[k]) in predict && predict[Target(k, s[k])] >= 0
    requires IsRun(ops, states) && states[0] == Clamped(s, predict)
    requires q > 0 && forall i :: 0 <= i < |ops| ==> OnlyRecovers(ops[i], k, q)
    ensures TakesAtMost(states[|ops|], k, Max(0, predict[Target(k, s[k])] - Mentions(ops, k) * q))
  {
    var p := predict[Target(k, s[k])];
    if ops == [] {
      assert states[0][k] == ClampedEntry(k, s[k], predict);
    } else {
      var n := |ops| - 1;
      var init := ops[..n];
      RecoveryCancels(s, predict, init, states[..n + 1], k, q);
      assert Does(ops[n], states[n], states[n + 1]);
      var c := Mentions(init, k);
      assert (c + 1) * q == c * q + q;
      RecoveryStep(ops[n], states[n], states[n + 1], k, q, Max(0, p - c * q));
    }
  }

  /** For key k the operation is an update that reports a conflict by q, or does not concern it. */
  ghost predicate OnlyConflicts(op: Op, k: string, q: int) {
    op.Update? && (k in op.list ==> op.list[k].conflicting && op.list[k].quantity == map[Step := -q])
  }

  /** What the stored step of a key takes away. */
  function StepTaken(s: Store, k: string): int {
    if k in s && Step in s[k].quantity then -s[k].quantity[Step] else 0
  }

  lemma ConflictStep(op: Op, s: Store, s': Store, k: string, q: int)
    requires Does(op, s, s') && OnlyConflicts(op, k, q) && q > 0 && StepTaken(s, k) >= 0
    ensures StepTaken(s', k) == StepTaken(s, k) + if k in op.list then q else 0
  {
    assert Follows(Find(s, k), Find(op.list, k), Find(s', k));
    var b :| Find(s', k) == EntryAfter(Find(s, k), Find(op.list, k), b);
    if k in op.list {
      EntryMeans(op.list[k], op.list[k], b);
      if k in s {
        UpdateMeans(s[k].quantity, op.list[k].quantity, b);
      }
    }
  }

  /** Conflicts add up: each one takes another q, until a subtraction clamps what is stored. */
  lemma {:induction false} ConflictsAccumulate(ops: seq<Op>, states: seq<Store>, k: string, q: int)
    requires IsRun(ops, states) && q > 0 && StepTaken(states[0], k) >= 0
    requires forall i :: 0 <= i < |ops| ==> OnlyConflicts(ops[i], k, q)
    ensures StepTaken(states[|ops|], k) == StepTaken(states[0], k) + Mentions(ops, k) * q
  {
    if ops != [] {
      var n := |ops| - 1;
      ConflictsAccumulate(ops[..n], states[..n + 1], k, q);
      assert Does(ops[n], states[n], states[n + 1]);
      var c := Mentions(ops[..n], k);
      assert (c + 1) * q == c * q + q && c * q >= 0;
      ConflictStep(ops[n], states[n], states[n + 1], k, q);
    }
  }
}
