/**
 The project-quota manager (diskquota/manager/projectquota/projectquota.go): four maps that have to
 agree, a bounded search for a fresh id, and system calls that may fail.
 */
module ProjectQuota {
  import opened Wrappers
  import opened Sorting
  import opened Text
  import opened ProjectFile

  const NO_QUOTA_ID: QuotaID := 0
  const FIRST_QUOTA_ID: QuotaID := 1048577
  const MAX_SEARCH := 256

  /** What the kernel says about the quota of an id: not allocated, an error, or a limit. */
  datatype QuotaReply = NotAllocated | QuotaError | Limit(size: nat)

  /** The answers of the system during one call. */
  datatype Sys = Sys(
    device: bool,                 // a supported backing device was found
    projectId: Option<QuotaID>,   // the project id the kernel has for the path
    bindOk: bool,                 // setting the project id of the path succeeds
    limitOk: bool,                // writing the limit of an id succeeds
    saveOk: bool,                 // rewriting the project files succeeds
    quotaOf: int -> QuotaReply)   // the quota of each id on the device

  // ---------------------------------------------------------------- searching for a fresh id

  predicate IsFree(r: QuotaReply) {
    r == NotAllocated || r == Limit(0)
  }

  predicate IsBusy(r: QuotaReply) {
    r.Limit? && r.size > 0
  }

  ghost function UsedFrom(used: set<QuotaID>, id: int): set<QuotaID> {
    set u | u in used && u >= id
  }

  lemma PassOne(used: set<QuotaID>, id: int)
    ensures |UsedFrom(used, id + 1)| == |UsedFrom(used, id)| - if id in used then 1 else 0
  {
    if id in used {
      assert UsedFrom(used, id) == UsedFrom(used, id + 1) + {id};
    } else {
      assert UsedFrom(used, id) == UsedFrom(used, id + 1);
    }
  }

  lemma {:induction false} UsedFromBound(used: set<QuotaID>, id: int)
    ensures |UsedFrom(used, id)| <= |used|
  {
    var a := UsedFrom(used, id);
    assert used == a + (used - a);
    assert |used| == |a| + |used - a|;
  }

  /** The id given out: the first one that is neither recorded nor busy; NO_QUOTA_ID when the search gives up. */
  function Search(used: set<QuotaID>, sys: Sys, id: int, searched: nat): int
    requires searched <= MAX_SEARCH
    decreases |UsedFrom(used, id)| + MAX_SEARCH - searched
  {
    PassOne(used, id);
    if id in used then Search(used, sys, id + 1, searched)
    else if !sys.device then NO_QUOTA_ID
    else match sys.quotaOf(id)
      case NotAllocated => id
      case QuotaError => NO_QUOTA_ID
      case Limit(size) =>
        if size == 0 then id
        else if searched + 1 > MAX_SEARCH then NO_QUOTA_ID
        else Search(used, sys, id + 1, searched + 1)
  }

  /** The search ends within the recorded ids and the searches left, at the least id that is free. */
  lemma {:induction false} SearchFindsLeastFree(used: set<QuotaID>, sys: Sys, id: int, searched: nat)
    requires searched <= MAX_SEARCH && id > NO_QUOTA_ID
    ensures var r := Search(used, sys, id, searched);
            r != NO_QUOTA_ID ==>
              && id <= r <= id + |UsedFrom(used, id)| + MAX_SEARCH - searched
              && r !in used && IsFree(sys.quotaOf(r))
              && forall j :: id <= j < r ==> j in used || IsBusy(sys.quotaOf(j))
    decreases |UsedFrom(used, id)| + MAX_SEARCH - searched
  {
    PassOne(used, id);
    if id in used {
      SearchFindsLeastFree(used, sys, id + 1, searched);
    } else if sys.device && IsBusy(sys.quotaOf(id)) && searched < MAX_SEARCH {
      SearchFindsLeastFree(used, sys, id + 1, searched + 1);
    }
  }

  /** The ids from start on and before e that nobody recorded and that have a limit on the device all the same. */
  ghost function BusyBetween(used: set<QuotaID>, sys: Sys, start: int, e: int): set<int> {
    set j | start <= j < e && j !in used && IsBusy(sys.quotaOf(j))
  }

  /** The search from start on ends at e: the first unrecorded id that is not busy, or one busy id too many. */
  ghost predicate EndsAt(used: set<QuotaID>, sys: Sys, start: int, left: int, e: int) {
    && start <= e && e !in used
    && (forall j :: start <= j < e ==> j in used || IsBusy(sys.quotaOf(j)))
    && |BusyBetween(used, sys, start, e)| <= left
    && (IsBusy(sys.quotaOf(e)) ==> |BusyBetween(used, sys, start, e)| == left)
  }

  lemma BusyStep(used: set<QuotaID>, sys: Sys, start: int, e: int)
    requires start < e
    ensures |BusyBetween(used, sys, start, e)| ==
            |BusyBetween(used, sys, start + 1, e)| + if start !in used && IsBusy(sys.quotaOf(start)) then 1 else 0
  {
    var a, b := BusyBetween(used, sys, start, e), BusyBetween(used, sys, start + 1, e);
    if start !in used && IsBusy(sys.quotaOf(start)) {
      assert a == b + {start};
    } else {
      assert a == b;
    }
  }

  /** With a device, the search gives the id it ends at if that is free, and gives up otherwise. */
  lemma {:induction false} SearchExactly(used: set<QuotaID>, sys: Sys, id: int, searched: nat) returns (e: int)
    requires searched <= MAX_SEARCH && sys.device
    ensures EndsAt(used, sys, id, MAX_SEARCH - searched, e)
    ensures Search(used, sys, id, searched) == if IsFree(sys.quotaOf(e)) then e else NO_QUOTA_ID
    decreases |UsedFrom(used, id)| + MAX_SEARCH - searched
  {
    PassOne(used, id);
    if id in used {
      e := SearchExactly(used, sys, id + 1, searched);
      BusyStep(used, sys, id, e);
    } else if IsBusy(sys.quotaOf(id)) && searched < MAX_SEARCH {
      e := SearchExactly(used, sys, id + 1, searched + 1);
      BusyStep(used, sys, id, e);
    } else {
      e := id;
      assert BusyBetween(used, sys, id, e) == {};
    }
  }

  lemma BusyGrows(used: set<QuotaID>, sys: Sys, start: int, e: int, e': int)
    requires start <= e < e' && e !in used && IsBusy(sys.quotaOf(e))
    ensures |BusyBetween(used, sys, start, e')| > |BusyBetween(used, sys, start, e)|
  {
    var a, b := BusyBetween(used, sys, start, e), BusyBetween(used, sys, start, e');
    assert e !in a && b == (a + {e}) + (b - (a + {e}));
    assert |b| == |a + {e}| + |b - (a + {e})|;
  }

  lemma EndIsUnique(used: set<QuotaID>, sys: Sys, start: int, left: int, e: int, e': int)
    requires EndsAt(used, sys, start, left, e) && EndsAt(used, sys, start, left, e') && e <= e'
    ensures e == e'
  {
    if e < e' {
      BusyGrows(used, sys, start, e, e');
      assert false;
    }
  }

  /** There is room for the search below the 32-bit limit. */
  predicate Room(used: set<QuotaID>) {
    FIRST_QUOTA_ID + |used| + MAX_SEARCH < 0x8000_0000
  }

  function Allocate(used: set<QuotaID>, sys: Sys): (id: QuotaID)
    requires Room(used)
    ensures id != NO_QUOTA_ID ==> id !in used && FIRST_QUOTA_ID <= id <= FIRST_QUOTA_ID + |used| + MAX_SEARCH
  {
    SearchFindsLeastFree(used, sys, FIRST_QUOTA_ID, 0);
    UsedFromBound(used, FIRST_QUOTA_ID);
    Search(used, sys, FIRST_QUOTA_ID, 0)
  }

  /** The id the device has to offer: the search from 1048577 on ends at it, within 256 busy ids, and it is free. */
  ghost predicate IsOffered(used: set<QuotaID>, sys: Sys, id: int) {
    sys.device && EndsAt(used, sys, 1048577, 256, id) && IsFree(sys.quotaOf(id))
  }

  /** An id is given out exactly when there is one to offer, and it is that one. */
  lemma AllocateExactly(used: set<QuotaID>, sys: Sys)
    requires Room(used)
    ensures forall id :: IsOffered(used, sys, id) <==> id == Allocate(used, sys) != NO_QUOTA_ID
  {
    if sys.device {
      var e := SearchExactly(used, sys, FIRST_QUOTA_ID, 0);
      forall id | IsOffered(used, sys, id)
        ensures id == e
      {
        if id <= e {
          EndIsUnique(used, sys, FIRST_QUOTA_ID, MAX_SEARCH, id, e);
        } else {
          EndIsUnique(used, sys, FIRST_QUOTA_ID, MAX_SEARCH, e, id);
        }
      }
    } else {
      NoDeviceNoId(used, sys, FIRST_QUOTA_ID, 0);
    }
  }

  lemma {:induction false} NoDeviceNoId(used: set<QuotaID>, sys: Sys, id: int, searched: nat)
    requires searched <= MAX_SEARCH && !sys.device
    ensures Search(used, sys, id, searched) == NO_QUOTA_ID
    decreases |UsedFrom(used, id)| + MAX_SEARCH - searched
  {
    PassOne(used, id);
    if id in used {
      NoDeviceNoId(used, sys, id + 1, searched);
    }
  }

  /** The search gives up exactly without a device, at an error, or after 256 busy ids that nobody recorded. */
  lemma GivesUpIff(used: set<QuotaID>, sys: Sys)
    requires Room(used)
    ensures Allocate(used, sys) == NO_QUOTA_ID <==>
            || !sys.device
            || exists e :: EndsAt(used, sys, 1048577, 256, e)
                           && (sys.quotaOf(e) == QuotaError || IsBusy(sys.quotaOf(e)))
  {
    AllocateExactly(used, sys);
    if sys.device {
      var e := SearchExactly(used, sys, FIRST_QUOTA_ID, 0);
      forall e' | EndsAt(used, sys, 1048577, 256, e')
        ensures e' == e
      {
        if e' <= e {
          EndIsUnique(used, sys, FIRST_QUOTA_ID, MAX_SEARCH, e', e);
        } else {
          EndIsUnique(used, sys, FIRST_QUOTA_ID, MAX_SEARCH, e, e');
        }
      }
    } else {
      NoDeviceNoId(used, sys, FIRST_QUOTA_ID, 0);
    }
  }

  method AllocateProjectID(used: set<QuotaID>, sys: Sys) returns (r: QuotaID, ghost examined: nat)
    requires Room(used)
    ensures r == Allocate(used, sys)
    ensures forall id :: IsOffered(used, sys, id) <==> id == r != 0
    ensures r != 0 ==> r !in used && 1048577 <= r <= 1048577 + |used| + 256
    ensures examined <= |used| + 257
  {
    AllocateExactly(used, sys);
    var searched := 0;
    var id: int := FIRST_QUOTA_ID;
    examined := 0;
    UsedFromBound(used, FIRST_QUOTA_ID);
    SearchFindsLeastFree(used, sys, FIRST_QUOTA_ID, 0);
    while true
      invariant searched <= MAX_SEARCH && id >= FIRST_QUOTA_ID
      invariant Search(used, sys, id, searched) == Search(used, sys, FIRST_QUOTA_ID, 0)
      invariant examined + |UsedFrom(used, id)| + MAX_SEARCH - searched <= |used| + MAX_SEARCH
      decreases |UsedFrom(used, id)| + MAX_SEARCH - searched
    {
      examined := examined + 1;
      PassOne(used, id);
      if id in used {
        id := id + 1;
        continue;
      }
      if !sys.device {
        return NO_QUOTA_ID, examined;
      }
      var quota := sys.quotaOf(id);
      if quota == NotAllocated {
        return id, examined;
      }
      if quota == QuotaError {
        return NO_QUOTA_ID, examined;
      }
      if quota.size == 0 {
        return id, examined;
      }
      searched := searched + 1;
      if searched > MAX_SEARCH {
        return NO_QUOTA_ID, examined;
      }
      id := id + 1;
    }
  }

  // ---------------------------------------------------------------- the four maps

  datatype State = State(
    pathIds: map<string, QuotaID>,
    idPaths: IdPaths,
    idNames: IdNames,
    nameIds: map<string, QuotaID>)

  function IdName(flag: string, id: QuotaID): string {
    flag + "-" + Decimal(id)
  }

  function Record(s: State, path: string, id: QuotaID, name: string): State {
    s.(pathIds := s.pathIds[path := id], idPaths := s.idPaths[id := [path]], idNames := s.idNames[id := name])
  }

  /** The id for a path that has none yet. */
  function FreshId(s: State, sys: Sys): Option<QuotaID>
    requires Room(s.idPaths.Keys)
  {
    if sys.projectId.None? then None
    else if sys.projectId.value != NO_QUOTA_ID && sys.projectId.value !in s.idPaths then sys.projectId
    else
      var id := Allocate(s.idPaths.Keys, sys);
      if id == NO_QUOTA_ID || !sys.bindOk then None else Some(id)
  }

  /** findOrCreateProjectId, asked to create. */
  function FindOrCreate(s: State, path: string, flag: string, sys: Sys): (State, Option<QuotaID>)
    requires Room(s.idPaths.Keys)
  {
    if path in s.pathIds then (s, Some(s.pathIds[path]))
    else
      var id := FreshId(s, sys);
      if id.None? then (s, None) else (Record(s, path, id.value, IdName(flag, id.value)), id)
  }

  function Bind(s: State, path: string, id: QuotaID, sys: Sys): (State, Option<QuotaID>) {
    if path in s.pathIds && s.pathIds[path] == id then (s, Some(id))
    else if !sys.bindOk then (s, None)
    else
      var paths := (if id in s.idPaths then s.idPaths[id] else []) + [path];
      (s.(pathIds := s.pathIds[path := id], idPaths := s.idPaths[id := paths]), Some(id))
  }

  function FindOrCreateShared(s: State, path: string, flag: string, group: string, sys: Sys): (State, Option<QuotaID>)
    requires Room(s.idPaths.Keys)
  {
    var name := flag + "-" + group;
    if group == "" then (s, None)
    else if name in s.nameIds then Bind(s, path, s.nameIds[name], sys)
    else
      var (t, id) := FindOrCreate(s, path, group, sys);
      if id.None? then (t, None)
      else (t.(nameIds := t.nameIds[name := id.value], idNames := t.idNames[id.value := name]), id)
  }

  /** SetQuota; group is None for a path with a quota of its own. */
  function SetQuota(s: State, path: string, flag: string, group: Option<string>, sized: bool, sys: Sys): State
    requires Room(s.idPaths.Keys)
  {
    if !sized || !sys.device then s
    else if group.Some? then FindOrCreateShared(s, path, flag, group.value, sys).0
    else FindOrCreate(s, path, flag, sys).0
  }

  /** The id ClearQuota works on: the recorded one, or whatever the kernel has. */
  function ClearedId(s: State, path: string, sys: Sys): Option<QuotaID> {
    if !sys.device then None else if path in s.pathIds then Some(s.pathIds[path]) else sys.projectId
  }

  function ClearQuota(s: State, path: string, sys: Sys): State {
    var id := ClearedId(s, path, sys);
    if id.None? then s
    else State(s.pathIds - {path}, s.idPaths - {id.value}, s.idNames - {id.value},
               if id.value in s.idNames then s.nameIds - {s.idNames[id.value]} else s.nameIds)
  }

  // ---------------------------------------------------------------- the invariant

  /** How a path is used: with a quota of its own, or in the group of that project name. */
  datatype Kind = Exclusive | Member(name: string)

  /** Only group names hold a '/': a group is "namespace/pod", a volume type and a number hold none. */
  predicate IsGroupName(name: string) {
    '/' in name
  }

  ghost predicate PathOk(s: State, p: string) {
    p in s.pathIds ==> s.pathIds[p] in s.idPaths && p in s.idPaths[s.pathIds[p]]
  }

  ghost predicate IdOk(s: State, kind: string -> Kind, id: QuotaID) {
    id in s.idPaths ==>
      && s.idPaths[id] != [] && NoDup(s.idPaths[id])
      && (forall p :: p in s.idPaths[id] ==> p in s.pathIds && s.pathIds[p] == id)
      && id in s.idNames
      && (if IsGroupName(s.idNames[id]) then
            && (forall p :: p in s.idPaths[id] ==> kind(p) == Member(s.idNames[id]))
            && s.idNames[id] in s.nameIds && s.nameIds[s.idNames[id]] == id
          else |s.idPaths[id]| == 1 && kind(s.idPaths[id][0]) == Exclusive)
  }

  ghost predicate NameOk(s: State, n: string) {
    n in s.nameIds ==> s.nameIds[n] in s.idNames && s.idNames[s.nameIds[n]] == n
  }

  /** The four maps agree. */
  ghost predicate Inv(s: State, kind: string -> Kind) {
    && (forall p :: PathOk(s, p))
    && (forall id :: IdOk(s, kind, id))
    && (forall n :: NameOk(s, n))
    && s.idNames.Keys == s.idPaths.Keys
  }

  /** Paths share an id exactly when they are the same path or members of the same group. */
  lemma SharedIdIffSameGroup(s: State, kind: string -> Kind, p: string, q: string)
    requires Inv(s, kind) && p in s.pathIds && q in s.pathIds
    ensures s.pathIds[p] == s.pathIds[q] <==> p == q || (kind(p).Member? && kind(p) == kind(q))
    ensures forall id :: id in s.idPaths ==> (p in s.idPaths[id] <==> s.pathIds[p] == id)
  {
    assert PathOk(s, p) && PathOk(s, q);
    assert IdOk(s, kind, s.pathIds[p]) && IdOk(s, kind, s.pathIds[q]);
    forall id | id in s.idPaths
      ensures p in s.idPaths[id] <==> s.pathIds[p] == id
    {
      assert IdOk(s, kind, id);
    }
    var a, b := s.idPaths[s.pathIds[p]], s.idPaths[s.pathIds[q]];
    assert |a| == 1 ==> a[0] == p;
    assert |b| == 1 ==> b[0] == q;
  }

  // ---------------------------------------------------------------- setting

  lemma IdNameIsNoGroup(flag: string, id: QuotaID)
    requires '/' !in flag
    ensures !IsGroupName(IdName(flag, id))
  {
    DecimalChars(id);
  }

  /** A path recorded under a fresh id, alone or as the first member of its group. */
  lemma RecordKeepsInv(s: State, kind: string -> Kind, path: string, id: QuotaID, name: string)
    requires Inv(s, kind) && path !in s.pathIds && id !in s.idPaths
    requires if IsGroupName(name) then kind(path) == Member(name) && name !in s.nameIds else kind(path) == Exclusive
    ensures var t := Record(s, path, id, name);
            Inv(if IsGroupName(name) then t.(nameIds := t.nameIds[name := id]) else t, kind)
  {
    var t := Record(s, path, id, name);
    var u := if IsGroupName(name) then t.(nameIds := t.nameIds[name := id]) else t;
    forall p
      ensures PathOk(u, p)
    {
      assert PathOk(s, p);
    }
    forall i
      ensures IdOk(u, kind, i)
    {
      assert IdOk(s, kind, i);
    }
    forall n
      ensures NameOk(u, n)
    {
      assert NameOk(s, n);
    }
  }

  /** One more member of a group. */
  lemma BindKeepsInv(s: State, kind: string -> Kind, path: string, name: string, sys: Sys)
    requires Inv(s, kind) && IsGroupName(name) && kind(path) == Member(name) && name in s.nameIds
    ensures Inv(Bind(s, path, s.nameIds[name], sys).0, kind)
  {
    var id := s.nameIds[name];
    assert NameOk(s, name) && IdOk(s, kind, id);
    if path in s.pathIds {
      assert PathOk(s, path) && IdOk(s, kind, s.pathIds[path]);
      assert s.pathIds[path] == id;
    } else if sys.bindOk {
      var u := Bind(s, path, id, sys).0;
      forall p
        ensures PathOk(u, p)
      {
        assert PathOk(s, p);
      }
      forall i
        ensures IdOk(u, kind, i)
      {
        assert IdOk(s, kind, i);
      }
      forall n
        ensures NameOk(u, n)
      {
        assert NameOk(s, n);
      }
    }
  }

  lemma FreshIdIsFresh(s: State, sys: Sys)
    requires Room(s.idPaths.Keys)
    ensures FreshId(s, sys).Some? ==> FreshId(s, sys).value !in s.idPaths && FreshId(s, sys).value != NO_QUOTA_ID
  {
  }

  /** A path is always set the way its kind says. */
  ghost predicate FitsKind(kind: string -> Kind, path: string, flag: string, group: Option<string>) {
    && '/' !in flag
    && (group.None? ==> kind(path) == Exclusive)
    && (group.Some? && group.value != "" ==> '/' in group.value && kind(path) == Member(flag + "-" + group.value))
  }

  lemma SetKeepsInv(s: State, kind: string -> Kind, path: string, flag: string, group: Option<string>, sized: bool,
                    sys: Sys)
    requires Inv(s, kind) && Room(s.idPaths.Keys) && FitsKind(kind, path, flag, group)
    ensures Inv(SetQuota(s, path, flag, group, sized, sys), kind)
  {
    if !sized || !sys.device || group == Some("") {
    } else if group.None? {
      ExclusiveKeepsInv(s, kind, path, flag, sys);
    } else {
      SharedKeepsInv(s, kind, path, flag, group.value, sys);
    }
  }

  lemma ExclusiveKeepsInv(s: State, kind: string -> Kind, path: string, flag: string, sys: Sys)
    requires Inv(s, kind) && Room(s.idPaths.Keys) && '/' !in flag && kind(path) == Exclusive
    ensures Inv(FindOrCreate(s, path, flag, sys).0, kind)
  {
    FreshIdIsFresh(s, sys);
    var id := FreshId(s, sys);
    if path !in s.pathIds && id.Some? {
      IdNameIsNoGroup(flag, id.value);
      RecordKeepsInv(s, kind, path, id.value, IdName(flag, id.value));
    }
  }

  lemma SharedKeepsInv(s: State, kind: string -> Kind, path: string, flag: string, group: string, sys: Sys)
    requires Inv(s, kind) && Room(s.idPaths.Keys)
    requires '/' in group && kind(path) == Member(flag + "-" + group)
    ensures Inv(FindOrCreateShared(s, path, flag, group, sys).0, kind)
  {
    var name := flag + "-" + group;
    assert IsGroupName(name);
    if name in s.nameIds {
      BindKeepsInv(s, kind, path, name, sys);
    } else {
      MemberIsNamed(s, kind, path);
      FreshIdIsFresh(s, sys);
      var id := FreshId(s, sys);
      if id.Some? {
        RecordKeepsInv(s, kind, path, id.value, name);
        var t := Record(s, path, id.value, name);
        var r := Record(s, path, id.value, IdName(group, id.value));
        assert r.idNames[id.value := name] == t.idNames;
      }
    }
  }

  /** A recorded member's group has a name. */
  lemma MemberIsNamed(s: State, kind: string -> Kind, path: string)
    requires Inv(s, kind) && kind(path).Member?
    ensures path in s.pathIds ==> kind(path).name in s.nameIds
  {
    if path in s.pathIds {
      assert PathOk(s, path) && IdOk(s, kind, s.pathIds[path]);
    }
  }

  /** The answers with which a path that has no id yet gets this one: it has it already, or it is offered. */
  ghost predicate Gets(s: State, sys: Sys, id: int) {
    sys.projectId.Some? &&
    var own := sys.projectId.value;
    if own != 0 && own !in s.idPaths then id == own else IsOffered(s.idPaths.Keys, sys, id) && sys.bindOk
  }

  lemma FreshIdExactly(s: State, sys: Sys)
    requires Room(s.idPaths.Keys)
    ensures forall id: QuotaID :: FreshId(s, sys) == Some(id) <==> Gets(s, sys, id)
  {
    AllocateExactly(s.idPaths.Keys, sys);
  }

  /** Setting an unrecorded path records it exactly with the id that the answers of the system allow. */
  lemma SetRecordsIff(s: State, path: string, flag: string, group: Option<string>, sys: Sys, id: QuotaID)
    requires Room(s.idPaths.Keys) && path !in s.pathIds
    ensures var t := SetQuota(s, path, flag, group, true, sys);
            var name := flag + "-" + (if group.Some? then group.value else "");
            Find(t.pathIds, path) == Some(id) <==>
            && sys.device && group != Some("")
            && if group.Some? && name in s.nameIds then sys.bindOk && id == s.nameIds[name] else Gets(s, sys, id)
  {
    FreshIdExactly(s, sys);
  }

  /** A new id is named after the volume type and itself, or after the volume type and the group that shares it. */
  lemma NewIdIsNamed(s: State, path: string, flag: string, group: Option<string>, sys: Sys)
    requires Room(s.idPaths.Keys) && path !in s.pathIds
    requires sys.device && path in SetQuota(s, path, flag, group, true, sys).pathIds
    requires group.Some? ==> flag + "-" + group.value !in s.nameIds
    ensures var t := SetQuota(s, path, flag, group, true, sys);
            var id := t.pathIds[path];
            && id in t.idPaths && t.idPaths[id] == [path] && id in t.idNames
            && (group.None? ==> t.idNames[id] == flag + "-" + Decimal(id) && t.nameIds == s.nameIds)
            && (group.Some? ==> && t.idNames[id] == flag + "-" + group.value
                                && t.nameIds == s.nameIds[flag + "-" + group.value := id])
  {
  }

  /** A path that joins a group is added to the paths of the group's id, and nothing else changes. */
  lemma MemberJoins(s: State, path: string, flag: string, group: string, sys: Sys)
    requires Room(s.idPaths.Keys) && path !in s.pathIds && group != "" && sys.device && sys.bindOk
    requires flag + "-" + group in s.nameIds
    ensures var t, id := SetQuota(s, path, flag, Some(group), true, sys), s.nameIds[flag + "-" + group];
            && t.pathIds == s.pathIds[path := id] && t.idNames == s.idNames && t.nameIds == s.nameIds
            && t.idPaths == s.idPaths[id := (if id in s.idPaths then s.idPaths[id] else []) + [path]]
  {
  }

  // ---------------------------------------------------------------- clearing

  /** Nobody but the path is recorded under the id. */
  predicate OnlyUser(s: State, path: string, id: QuotaID) {
    id in s.idPaths ==> s.idPaths[id] == [path]
  }

  /** The maps without an id and without the paths recorded under it. */
  function Removed(s: State, paths: set<string>, id: QuotaID): State {
    State(s.pathIds - paths, s.idPaths - {id}, s.idNames - {id},
          if id in s.idNames then s.nameIds - {s.idNames[id]} else s.nameIds)
  }

  lemma RemovedKeepsInv(s: State, kind: string -> Kind, paths: set<string>, id: QuotaID)
    requires Inv(s, kind)
    requires forall p :: p in s.pathIds ==> (p in paths <==> s.pathIds[p] == id)
    ensures Inv(Removed(s, paths, id), kind)
  {
    var t := Removed(s, paths, id);
    forall p
      ensures PathOk(t, p)
    {
      assert PathOk(s, p);
    }
    forall i
      ensures IdOk(t, kind, i)
    {
      assert IdOk(s, kind, i) && IdOk(s, kind, id);
    }
    forall n
      ensures NameOk(t, n)
    {
      assert NameOk(s, n);
    }
  }

  /** Clearing one path keeps the maps in agreement exactly when it fails or the id is used by nobody else. */
  lemma ClearKeepsInvIff(s: State, kind: string -> Kind, path: string, sys: Sys)
    requires Inv(s, kind)
    ensures Inv(ClearQuota(s, path, sys), kind) <==>
            ClearedId(s, path, sys).None? || OnlyUser(s, path, ClearedId(s, path, sys).value)
  {
    var id := ClearedId(s, path, sys);
    if id.Some? {
      assert PathOk(s, path) && IdOk(s, kind, id.value);
      if OnlyUser(s, path, id.value) {
        forall p | p in s.pathIds
          ensures p in {path} <==> s.pathIds[p] == id.value
        {
          assert PathOk(s, p);
        }
        RemovedKeepsInv(s, kind, {path}, id.value);
      } else {
        AnotherUser(s.idPaths[id.value], path);
        var q :| q in s.idPaths[id.value] && q != path;
        assert !PathOk(ClearQuota(s, path, sys), q);
      }
    }
  }

  lemma AnotherUser(paths: seq<string>, path: string)
    requires paths != [] && NoDup(paths) && paths != [path]
    ensures exists q :: q in paths && q != path
  {
    if paths[0] == path {
      assert |paths| > 1;
      assert paths[1] in paths && paths[1] != path;
    } else {
      assert paths[0] in paths;
    }
  }

  /** A kernel id left on a directory is enough to cut off another path. */
  lemma ClearCanCutOffAnother()
    ensures exists s: State, kind: string -> Kind, sys: Sys ::
              Inv(s, kind) && "b" !in s.pathIds && !Inv(ClearQuota(s, "b", sys), kind)
  {
    var kind: string -> Kind := (p: string) => Exclusive;
    var s := State(map["a" := 7], map[7 := ["a"]], map[7 := "n"], map[]);
    var sys := Sys(true, Some(7), true, true, true, i => QuotaError);
    assert Inv(s, kind) by {
      assert forall id :: IdOk(s, kind, id);
    }
    ClearKeepsInvIff(s, kind, "b", sys);
    assert !OnlyUser(s, "b", 7) by {
      assert s.idPaths[7][0] != "b";
    }
  }

  /** One path to clear, and the answers of the system while it is cleared. */
  datatype Clearing = Clearing(path: string, sys: Sys)

  /** Clearing paths one after the other, each with answers of its own. */
  function ClearEach(s: State, clears: seq<Clearing>): State {
    if clears == [] then s
    else
      var last := clears[|clears| - 1];
      ClearQuota(ClearEach(s, clears[..|clears| - 1]), last.path, last.sys)
  }

  /** The paths whose clearing gets as far as changing the maps. */
  ghost function Cleared(clears: seq<Clearing>): set<string> {
    if clears == [] then {}
    else
      var init, last := Cleared(clears[..|clears| - 1]), clears[|clears| - 1];
      if last.sys.device then init + {last.path} else init
  }

  lemma {:induction false} ClearedMembers(clears: seq<Clearing>, p: string)
    ensures p in Cleared(clears) <==> exists i :: 0 <= i < |clears| && clears[i].path == p && clears[i].sys.device
  {
    if clears != [] {
      var n := |clears| - 1;
      ClearedMembers(clears[..n], p);
      if i :| 0 <= i < n && clears[..n][i].path == p && clears[..n][i].sys.device {
        assert clears[i].path == p;
      }
    }
  }

  /** Different paths, all of them recorded. */
  ghost predicate Recorded(s: State, clears: seq<Clearing>) {
    && (forall i, j :: 0 <= i < j < |clears| ==> clears[i].path != clears[j].path)
    && forall i :: 0 <= i < |clears| ==> clears[i].path in s.pathIds
  }

  lemma ClearedIsRecorded(s: State, clears: seq<Clearing>)
    requires Recorded(s, clears)
    ensures Cleared(clears) <= s.pathIds.Keys
  {
    forall p | p in Cleared(clears)
      ensures p in s.pathIds
    {
      ClearedMembers(clears, p);
    }
  }

  /** The ids of the paths. */
  ghost function IdsOf(s: State, paths: set<string>): set<QuotaID>
    requires paths <= s.pathIds.Keys
  {
    set p | p in paths :: s.pathIds[p]
  }

  ghost function NamesOf(s: State, ids: set<QuotaID>): set<string> {
    set id | id in ids && id in s.idNames :: s.idNames[id]
  }

  /** The maps without the paths and without all that belongs to their ids. */
  ghost function WithoutPaths(s: State, paths: set<string>): State
    requires paths <= s.pathIds.Keys
  {
    var ids := IdsOf(s, paths);
    State(s.pathIds - paths, s.idPaths - ids, s.idNames - ids, s.nameIds - NamesOf(s, ids))
  }

  lemma WithoutOneMore(s: State, paths: set<string>, p: string, sys: Sys)
    requires paths <= s.pathIds.Keys && p in s.pathIds && p !in paths && sys.device
    ensures ClearQuota(WithoutPaths(s, paths), p, sys) == WithoutPaths(s, paths + {p})
  {
    var id, ids := s.pathIds[p], IdsOf(s, paths);
    assert IdsOf(s, paths + {p}) == ids + {id};
    var names, names' := NamesOf(s, ids), NamesOf(s, ids + {id});
    assert s.pathIds - paths - {p} == s.pathIds - (paths + {p});
    assert s.idPaths - ids - {id} == s.idPaths - (ids + {id});
    assert s.idNames - ids - {id} == s.idNames - (ids + {id});
    if id in s.idNames - ids {
      assert names' == names + {s.idNames[id]};
      assert s.nameIds - names - {s.idNames[id]} == s.nameIds - names';
    } else {
      assert names' == names;
    }
  }

  /** Clearing paths one after the other takes the ids of those that are cleared. */
  lemma {:induction false} ClearEachRemoves(s: State, clears: seq<Clearing>)
    requires Recorded(s, clears)
    ensures Cleared(clears) <= s.pathIds.Keys && ClearEach(s, clears) == WithoutPaths(s, Cleared(clears))
  {
    ClearedIsRecorded(s, clears);
    if clears == [] {
      assert IdsOf(s, {}) == {} && NamesOf(s, {}) == {};
    } else {
      var init, last := clears[..|clears| - 1], clears[|clears| - 1];
      ClearEachRemoves(s, init);
      ClearedMembers(init, last.path);
      if last.sys.device {
        WithoutOneMore(s, Cleared(init), last.path, last.sys);
      }
    }
  }

  /** Of every id none or all of the paths. */
  ghost predicate WholeIds(s: State, paths: set<string>) {
    forall id :: id in s.idPaths ==> Elements(s.idPaths[id]) !! paths || Elements(s.idPaths[id]) <= paths
  }

  lemma PathsOfId(s: State, kind: string -> Kind, id: QuotaID, p: string)
    requires Inv(s, kind) && id in s.idPaths
    ensures p in Elements(s.idPaths[id]) <==> p in s.pathIds && s.pathIds[p] == id
  {
    assert IdOk(s, kind, id) && PathOk(s, p);
  }

  lemma WithoutKeepsInv(s: State, kind: string -> Kind, paths: set<string>)
    requires Inv(s, kind) && paths <= s.pathIds.Keys && WholeIds(s, paths)
    ensures Inv(WithoutPaths(s, paths), kind)
  {
    var t, ids := WithoutPaths(s, paths), IdsOf(s, paths);
    forall p
      ensures PathOk(t, p)
    {
      assert PathOk(s, p);
      if p in t.pathIds {
        StaysRecorded(s, kind, paths, p);
      }
    }
    forall id
      ensures IdOk(t, kind, id)
    {
      assert IdOk(s, kind, id);
      if id in t.idPaths {
        StaysComplete(s, kind, paths, id);
      }
    }
    forall n
      ensures NameOk(t, n)
    {
      assert NameOk(s, n);
    }
  }

  lemma StaysRecorded(s: State, kind: string -> Kind, paths: set<string>, p: string)
    requires Inv(s, kind) && paths <= s.pathIds.Keys && WholeIds(s, paths) && p in s.pathIds && p !in paths
    ensures s.pathIds[p] !in IdsOf(s, paths)
  {
    var id := s.pathIds[p];
    assert PathOk(s, p);
    if q :| q in paths && s.pathIds[q] == id {
      PathsOfId(s, kind, id, q);
      assert false;
    }
  }

  lemma StaysComplete(s: State, kind: string -> Kind, paths: set<string>, id: QuotaID)
    requires Inv(s, kind) && paths <= s.pathIds.Keys && id in s.idPaths && id !in IdsOf(s, paths)
    ensures forall p :: p in s.idPaths[id] ==> p !in paths
    ensures IsGroupName(s.idNames[id]) ==> s.idNames[id] !in NamesOf(s, IdsOf(s, paths))
  {
    assert IdOk(s, kind, id);
    forall p | p in s.idPaths[id]
      ensures p !in paths
    {
      PathsOfId(s, kind, id, p);
    }
    if IsGroupName(s.idNames[id]) {
      forall other | other in IdsOf(s, paths) && other in s.idNames
        ensures s.idNames[other] != s.idNames[id]
      {
        assert IdOk(s, kind, other);
      }
    }
  }

  /**
   Recorded paths of any ids, cleared in any order, each with answers of its own, leave the maps in
   agreement exactly when of every id none or all of the paths are cleared.
   */
  lemma ClearEachKeepsInvIff(s: State, kind: string -> Kind, clears: seq<Clearing>)
    requires Inv(s, kind) && Recorded(s, clears)
    ensures Inv(ClearEach(s, clears), kind) <==> WholeIds(s, Cleared(clears))
  {
    ClearEachRemoves(s, clears);
    var paths, t := Cleared(clears), ClearEach(s, clears);
    if WholeIds(s, paths) {
      WithoutKeepsInv(s, kind, paths);
    } else {
      var id :| id in s.idPaths && !(Elements(s.idPaths[id]) !! paths) && !(Elements(s.idPaths[id]) <= paths);
      var p :| p in Elements(s.idPaths[id]) && p in paths;
      var q :| q in Elements(s.idPaths[id]) && q !in paths;
      PathsOfId(s, kind, id, p);
      PathsOfId(s, kind, id, q);
      assert id in IdsOf(s, paths);
      assert !PathOk(t, q);
    }
  }

  /** The paths of one id, all of them. */
  ghost predicate AllOfOneId(s: State, clears: seq<Clearing>, id: QuotaID) {
    && (forall i :: 0 <= i < |clears| ==> clears[i].path in s.pathIds && s.pathIds[clears[i].path] == id)
    && (forall p :: p in s.pathIds && s.pathIds[p] == id ==> exists i :: 0 <= i < |clears| && clears[i].path == p)
  }

  /** All paths of an id, cleared together: the maps agree exactly when all the clears succeed or all fail. */
  lemma ClearTogetherKeepsInvIff(s: State, kind: string -> Kind, clears: seq<Clearing>, id: QuotaID)
    requires Inv(s, kind) && Recorded(s, clears) && id in s.idPaths && AllOfOneId(s, clears, id)
    ensures Inv(ClearEach(s, clears), kind) <==>
            || (forall i :: 0 <= i < |clears| ==> clears[i].sys.device)
            || (forall i :: 0 <= i < |clears| ==> !clears[i].sys.device)
  {
    ClearEachKeepsInvIff(s, kind, clears);
    forall i | 0 <= i < |clears|
      ensures clears[i].path in Cleared(clears) <==> clears[i].sys.device
      ensures clears[i].path in Elements(s.idPaths[id])
    {
      ClearedMembers(clears, clears[i].path);
      PathsOfId(s, kind, id, clears[i].path);
    }
    forall other, p | other in s.idPaths && p in Elements(s.idPaths[other])
      ensures p in Cleared(clears) ==> other == id
      ensures other == id ==> exists i :: 0 <= i < |clears| && clears[i].path == p
    {
      ClearedMembers(clears, p);
      PathsOfId(s, kind, other, p);
    }
  }

  /** A group of two whose second path has no device left: it keeps an id that is gone. */
  lemma HalfClearedGroupDisagrees(ok: Sys, failing: Sys)
    requires ok.device && !failing.device
    ensures var s := State(map["a" := 7, "b" := 7], map[7 := ["a", "b"]], map[7 := "e-n/p"], map["e-n/p" := 7]);
            var kind: string -> Kind := (p: string) => Member("e-n/p");
            var t := ClearEach(s, [Clearing("a", ok), Clearing("b", failing)]);
            Inv(s, kind) && !Inv(t, kind) && "b" in t.pathIds && t.pathIds["b"] !in t.idPaths
  {
    var s := State(map["a" := 7, "b" := 7], map[7 := ["a", "b"]], map[7 := "e-n/p"], map["e-n/p" := 7]);
    var kind: string -> Kind := (p: string) => Member("e-n/p");
    var clears := [Clearing("a", ok), Clearing("b", failing)];
    assert "e-n/p"[3] == '/';
    assert forall id :: IdOk(s, kind, id);
    assert Inv(s, kind);
    ClearEachRemoves(s, clears);
    ClearedMembers(clears, "a");
    ClearedMembers(clears, "b");
    assert clears[0].path == "a" && clears[0].sys.device;
    assert !PathOk(ClearEach(s, clears), "b");
  }

  // ---------------------------------------------------------------- whole runs

  datatype Op =
    | Set(path: string, flag: string, group: Option<string>, sized: bool, sys: Sys)
    | Clear(path: string, sys: Sys)
    | ClearPaths(clears: seq<Clearing>)

  function Apply(s: State, op: Op): State
    requires Room(s.idPaths.Keys)
  {
    match op
    case Set(path, flag, group, sized, sys) => SetQuota(s, path, flag, group, sized, sys)
    case Clear(path, sys) => ClearQuota(s, path, sys)
    case ClearPaths(clears) => ClearEach(s, clears)
  }

  /** A path keeps its kind, and a pass clears recorded paths, each of them once. */
  ghost predicate Orderly(s: State, kind: string -> Kind, op: Op) {
    match op
    case Set(path, flag, group, _, _) => FitsKind(kind, path, flag, group)
    case Clear(_, _) => true
    case ClearPaths(clears) => Recorded(s, clears)
  }

  /** No path loses its id to the clearing of another: none of the paths of an id is cleared, or all of them are. */
  ghost predicate CutsOffNobody(s: State, op: Op) {
    match op
    case Set(_, _, _, _, _) => true
    case Clear(path, sys) => ClearedId(s, path, sys).None? || OnlyUser(s, path, ClearedId(s, path, sys).value)
    case ClearPaths(clears) => WholeIds(s, Cleared(clears))
  }

  ghost predicate IsStep(kind: string -> Kind, op: Op, s: State, t: State) {
    Room(s.idPaths.Keys) && Orderly(s, kind, op) && t == Apply(s, op)
  }

  ghost predicate IsRun(kind: string -> Kind, ops: seq<Op>, states: seq<State>) {
    |states| == |ops| + 1 && forall i :: 0 <= i < |ops| ==> IsStep(kind, ops[i], states[i], states[i + 1])
  }

  lemma ApplyKeepsInvIff(s: State, kind: string -> Kind, op: Op)
    requires Inv(s, kind) && Room(s.idPaths.Keys) && Orderly(s, kind, op)
    ensures Inv(Apply(s, op), kind) <==> CutsOffNobody(s, op)
  {
    match op
    case Set(path, flag, group, sized, sys) => SetKeepsInv(s, kind, path, flag, group, sized, sys);
    case Clear(path, sys) => ClearKeepsInvIff(s, kind, path, sys);
    case ClearPaths(clears) => ClearEachKeepsInvIff(s, kind, clears);
  }

  lemma StepKeepsInvIff(s: State, kind: string -> Kind, op: Op, t: State)
    requires Inv(s, kind) && IsStep(kind, op, s, t)
    ensures Inv(t, kind) <==> CutsOffNobody(s, op)
  {
    ApplyKeepsInvIff(s, kind, op);
  }

  lemma {:induction false} RunKeepsInv(kind: string -> Kind, ops: seq<Op>, states: seq<State>, n: nat)
    requires IsRun(kind, ops, states) && Inv(states[0], kind) && n < |states|
    requires forall i :: 0 <= i < n ==> CutsOffNobody(states[i], ops[i])
    ensures Inv(states[n], kind)
  {
    if n > 0 {
      RunKeepsInv(kind, ops, states, n - 1);
      StepKeepsInvIff(states[n - 1], kind, ops[n - 1], states[n]);
    }
  }

  /**
   In every orderly run, whatever the system answers, the four maps agree all along exactly when no step cuts off
   a path.
   */
  lemma RunsKeepInvIff(kind: string -> Kind, ops: seq<Op>, states: seq<State>)
    requires IsRun(kind, ops, states) && Inv(states[0], kind)
    ensures (forall i :: 0 <= i < |states| ==> Inv(states[i], kind)) <==>
            (forall i :: 0 <= i < |ops| ==> CutsOffNobody(states[i], ops[i]))
  {
    if forall i :: 0 <= i < |states| ==> Inv(states[i], kind) {
      forall i | 0 <= i < |ops|
        ensures CutsOffNobody(states[i], ops[i])
      {
        assert Inv(states[i], kind) && Inv(states[i + 1], kind);
        StepKeepsInvIff(states[i], kind, ops[i], states[i + 1]);
      }
    }
    if forall i :: 0 <= i < |ops| ==> CutsOffNobody(states[i], ops[i]) {
      forall n | 0 <= n < |states|
        ensures Inv(states[n], kind)
      {
        RunKeepsInv(kind, ops, states, n);
      }
    }
  }

  // ---------------------------------------------------------------- limits

  /** The id SetQuota finds for the path. */
  function FoundId(s: State, path: string, flag: string, group: Option<string>, sys: Sys): Option<QuotaID>
    requires Room(s.idPaths.Keys)
  {
    if group.Some? then FindOrCreateShared(s, path, flag, group.value, sys).1 else FindOrCreate(s, path, flag, sys).1
  }

  /** The id whose limit SetQuota writes: only one that the call found to be new. */
  function NewId(s: State, path: string, flag: string, group: Option<string>, sized: bool, sys: Sys): Option<QuotaID>
    requires Room(s.idPaths.Keys)
  {
    if !sized || !sys.device then None
    else if group.None? && path in s.pathIds then None
    else if group.Some? && flag + "-" + group.value in s.nameIds then None
    else FoundId(s, path, flag, group, sys)
  }

  /** The ids with a limit on the device after setting: a write that fails is not made up for. */
  function LimitedAfterSet(s: State, limited: set<QuotaID>, path: string, flag: string, group: Option<string>,
                           sized: bool, sys: Sys): set<QuotaID>
    requires Room(s.idPaths.Keys)
  {
    var id := NewId(s, path, flag, group, sized, sys);
    if id.Some? && sys.limitOk then limited + {id.value} else limited
  }

  /** Clearing writes a limit of zero; when that fails the old limit stays. */
  function LimitedAfterClear(s: State, limited: set<QuotaID>, path: string, sys: Sys): set<QuotaID> {
    var id := ClearedId(s, path, sys);
    if id.Some? && sys.limitOk then limited - {id.value} else limited
  }

  function LimitedAfterEach(s: State, limited: set<QuotaID>, clears: seq<Clearing>): set<QuotaID> {
    if clears == [] then limited
    else
      var init, last := clears[..|clears| - 1], clears[|clears| - 1];
      LimitedAfterClear(ClearEach(s, init), LimitedAfterEach(s, limited, init), last.path, last.sys)
  }

  function LimitedAfter(s: State, limited: set<QuotaID>, op: Op): set<QuotaID>
    requires Room(s.idPaths.Keys)
  {
    match op
    case Set(path, flag, group, sized, sys) => LimitedAfterSet(s, limited, path, flag, group, sized, sys)
    case Clear(path, sys) => LimitedAfterClear(s, limited, path, sys)
    case ClearPaths(clears) => LimitedAfterEach(s, limited, clears)
  }

  /** In maps that agree, an id found to be new was not recorded, and is recorded afterwards for the path. */
  lemma NewIdIsFresh(s: State, kind: string -> Kind, path: string, flag: string, group: Option<string>, sized: bool,
                     sys: Sys)
    requires Inv(s, kind) && Room(s.idPaths.Keys) && FitsKind(kind, path, flag, group)
    ensures var id := NewId(s, path, flag, group, sized, sys);
            var t := SetQuota(s, path, flag, group, sized, sys);
            id.Some? ==>
              && id.value !in s.idPaths && id.value in t.idPaths
              && path in t.pathIds && t.pathIds[path] == id.value
  {
    FreshIdIsFresh(s, sys);
    if group.Some? && group.value != "" {
      MemberIsNamed(s, kind, path);
    }
  }

  /** Clears that touch the limit of an id also remove the id. */
  lemma {:induction false} ClearEachLimits(s: State, limited: set<QuotaID>, clears: seq<Clearing>, id: QuotaID)
    requires Recorded(s, clears) && id in ClearEach(s, clears).idPaths
    ensures id in LimitedAfterEach(s, limited, clears) <==> id in limited
  {
    if clears != [] {
      var init, last := clears[..|clears| - 1], clears[|clears| - 1];
      ClearEachRemoves(s, init);
      ClearedMembers(init, last.path);
      ClearEachLimits(s, limited, init, id);
    }
  }

  /** No step writes or lifts the limit of an id that is recorded before and after it. */
  lemma RecordedLimitStays(s: State, kind: string -> Kind, limited: set<QuotaID>, op: Op, id: QuotaID)
    requires Inv(s, kind) && Room(s.idPaths.Keys) && Orderly(s, kind, op)
    requires id in s.idPaths && id in Apply(s, op).idPaths
    ensures id in LimitedAfter(s, limited, op) <==> id in limited
  {
    match op
    case Set(path, flag, group, sized, sys) => NewIdIsFresh(s, kind, path, flag, group, sized, sys);
    case Clear(path, sys) =>
    case ClearPaths(clears) => ClearEachLimits(s, limited, clears, id);
  }

  /** The ids with a limit, all along a run. */
  ghost predicate LimitsAlong(ops: seq<Op>, states: seq<State>, limits: seq<set<QuotaID>>) {
    && |states| == |limits| == |ops| + 1
    && forall i :: 0 <= i < |ops| ==> IsLimitStep(ops[i], states[i], limits[i], limits[i + 1])
  }

  ghost predicate IsLimitStep(op: Op, s: State, before: set<QuotaID>, after: set<QuotaID>) {
    Room(s.idPaths.Keys) && after == LimitedAfter(s, before, op)
  }

  lemma LimitStepStays(s: State, kind: string -> Kind, op: Op, t: State, before: set<QuotaID>, after: set<QuotaID>,
                       id: QuotaID)
    requires Inv(s, kind) && IsStep(kind, op, s, t) && IsLimitStep(op, s, before, after)
    requires id in s.idPaths && id in t.idPaths
    ensures id in after <==> id in before
  {
    RecordedLimitStays(s, kind, before, op, id);
  }

  /** The step is a set that gives the path a new id. */
  ghost predicate Introduces(op: Op, s: State, id: QuotaID) {
    op.Set? && Room(s.idPaths.Keys) && NewId(s, op.path, op.flag, op.group, op.sized, op.sys) == Some(id)
  }

  /**
   A limit is written with the set that introduces an id or not at all: if that write fails, no later
   step writes it for as long as the id is recorded.
   */
  lemma {:induction false} FirstWriteDecidesLimit(kind: string -> Kind, ops: seq<Op>, states: seq<State>,
                                                  limits: seq<set<QuotaID>>, id: QuotaID, n: nat)
    requires IsRun(kind, ops, states) && LimitsAlong(ops, states, limits) && Inv(states[0], kind)
    requires 1 <= n <= |ops| && Introduces(ops[0], states[0], id) && id !in limits[0]
    requires forall i :: 0 <= i < n ==> CutsOffNobody(states[i], ops[i])
    requires forall i :: 1 <= i <= n ==> id in states[i].idPaths
    ensures id in limits[n] <==> ops[0].sys.limitOk
  {
    if n == 1 {
      assert IsLimitStep(ops[0], states[0], limits[0], limits[1]);
    } else {
      FirstWriteDecidesLimit(kind, ops, states, limits, id, n - 1);
      RunKeepsInv(kind, ops, states, n - 1);
      LimitStepStays(states[n - 1], kind, ops[n - 1], states[n], limits[n - 1], limits[n], id);
    }
  }

  // ---------------------------------------------------------------- starting from the files

  /** Files that a consistent manager can have written. */
  ghost predicate FilesOk(idPaths: IdPaths, idNames: IdNames, kind: string -> Kind) {
    && idNames.Keys == idPaths.Keys
    && (forall id :: id in idPaths ==>
          && idPaths[id] != [] && NoDup(idPaths[id])
          && (if IsGroupName(idNames[id]) then forall p :: p in idPaths[id] ==> kind(p) == Member(idNames[id])
              else |idPaths[id]| == 1 && kind(idPaths[id][0]) == Exclusive))
    && (forall i, j, p :: i in idPaths && j in idPaths && p in idPaths[i] && p in idPaths[j] ==> i == j)
    && (forall i, j :: i in idNames && j in idNames && idNames[i] == idNames[j] && IsGroupName(idNames[i]) ==> i == j)
  }

  /** pathIds and nameIds as they come out of reading the two maps in some order. */
  ghost predicate Indexed(idPaths: IdPaths, idNames: IdNames, pathIds: map<string, QuotaID>,
                          nameIds: map<string, QuotaID>) {
    && (forall id, p :: id in idPaths && p in idPaths[id] ==> p in pathIds)
    && (forall p :: p in pathIds ==> pathIds[p] in idPaths && p in idPaths[pathIds[p]])
    && (forall id :: id in idNames ==> idNames[id] in nameIds)
    && (forall n :: n in nameIds ==> nameIds[n] in idNames && idNames[nameIds[n]] == n)
  }

  lemma LoadedFilesAgree(idPaths: IdPaths, idNames: IdNames, pathIds: map<string, QuotaID>,
                         nameIds: map<string, QuotaID>,
                         kind: string -> Kind)
    requires FilesOk(idPaths, idNames, kind) && Indexed(idPaths, idNames, pathIds, nameIds)
    ensures Inv(State(pathIds, idPaths, idNames, nameIds), kind)
  {
  }

  /** What a consistent manager holds is fit to be written. */
  lemma InvGivesFilesOk(s: State, kind: string -> Kind)
    requires Inv(s, kind)
    ensures FilesOk(s.idPaths, s.idNames, kind)
  {
    forall id | id in s.idPaths
      ensures IdOk(s, kind, id)
    {
    }
  }

  /** A restart from files that hold the maps gives every path the id it had, and maps that agree. */
  lemma RestartKeepsIds(s: State, kind: string -> Kind, pathIds: map<string, QuotaID>, nameIds: map<string, QuotaID>)
    requires Inv(s, kind) && Indexed(s.idPaths, s.idNames, pathIds, nameIds)
    ensures pathIds == s.pathIds
    ensures Inv(State(pathIds, s.idPaths, s.idNames, nameIds), kind)
  {
    InvGivesFilesOk(s, kind);
    LoadedFilesAgree(s.idPaths, s.idNames, pathIds, nameIds, kind);
    forall p
      ensures p in pathIds <==> p in s.pathIds
      ensures p in pathIds ==> pathIds[p] == s.pathIds[p]
    {
      assert PathOk(s, p);
      if p in pathIds {
        assert IdOk(s, kind, pathIds[p]);
      }
    }
  }
}
