/**
 The manager object of diskquota/manager/projectquota/projectquota.go, whose methods update the four
 maps in place, proved against the functions of ProjectQuota.
 */
module ProjectQuotaManager {
  import opened Wrappers
  import opened Sorting
  import opened ProjectFile
  import opened ProjectQuota

  class Manager {
    var pathIds: map<string, QuotaID>
    var idPaths: IdPaths
    var idNames: IdNames
    var nameIds: map<string, QuotaID>
    // what the two project files hold
    var savedPaths: IdPaths
    var savedNames: IdNames
    // the ids that have a limit on the device
    var limited: set<QuotaID>

    ghost function View(): State
      reads this
    {
      State(pathIds, idPaths, idNames, nameIds)
    }

    /** The project files are up to date. */
    ghost predicate Saved()
      reads this
    {
      savedPaths == idPaths && savedNames == idNames
    }

    /** NewProjectQuota: build the two reverse maps from the maps read from the files. */
    constructor (idPaths: IdPaths, idNames: IdNames, limited: set<QuotaID>)
      ensures this.idPaths == idPaths && this.idNames == idNames && this.limited == limited && Saved()
      ensures Indexed(idPaths, idNames, pathIds, nameIds)
    {
      this.idPaths, this.idNames, this.limited := idPaths, idNames, limited;
      savedPaths, savedNames := idPaths, idNames;
      pathIds, nameIds := map[], map[];
      new;
      pathIds := IndexPaths(idPaths);
      nameIds := IndexNames(idNames);
    }

    /** Rewrite the projects file; a failure is ignored and leaves the old one. */
    method SavePaths(sys: Sys)
      modifies this`savedPaths
      ensures savedPaths == if sys.saveOk then idPaths else old(savedPaths)
    {
      if sys.saveOk {
        savedPaths := idPaths;
      }
    }

    method SaveNames(sys: Sys)
      modifies this`savedNames
      ensures savedNames == if sys.saveOk then idNames else old(savedNames)
    {
      if sys.saveOk {
        savedNames := idNames;
      }
    }

    method FindOrCreateProjectId(path: string, flag: string, noCreate: bool, persist: bool, sys: Sys)
        returns (id: Option<QuotaID>, isNew: bool)
      requires noCreate || Room(idPaths.Keys)
      modifies this`pathIds, this`idPaths, this`idNames, this`savedPaths, this`savedNames
      ensures isNew <==> path !in old(pathIds)
      ensures !noCreate ==> (View(), id) == FindOrCreate(old(View()), path, flag, sys)
      ensures noCreate ==> View() == old(View()) && id == if isNew then sys.projectId else Some(pathIds[path])
      ensures !persist || !sys.saveOk ==> savedPaths == old(savedPaths) && savedNames == old(savedNames)
      ensures persist && sys.saveOk && old(Saved()) ==> Saved()
    {
      if path in pathIds {
        return Some(pathIds[path]), false;
      }
      isNew := true;
      if sys.projectId.None? || noCreate {
        return sys.projectId, true;
      }
      var fromSys := sys.projectId.value;
      var needNewId := fromSys == NO_QUOTA_ID || fromSys in idPaths;
      var newId := fromSys;
      if needNewId {
        ghost var examined;
        newId, examined := AllocateProjectID(idPaths.Keys, sys);
        if newId == NO_QUOTA_ID || !sys.bindOk {
          return None, true;
        }
      }
      pathIds := pathIds[path := newId];
      idPaths := idPaths[newId := [path]];
      idNames := idNames[newId := IdName(flag, newId)];
      id := Some(newId);
      if persist {
        SavePaths(sys);
        SaveNames(sys);
      }
    }

    method BindProjectId(path: string, id: QuotaID, sys: Sys) returns (bound: Option<QuotaID>, updated: bool)
      modifies this`pathIds, this`idPaths
      ensures (View(), bound) == Bind(old(View()), path, id, sys)
      ensures !updated ==> View() == old(View())
      ensures bound.None? ==> !updated
    {
      updated := false;
      if path !in pathIds || pathIds[path] != id {
        if !sys.bindOk {
          return None, false;
        }
        pathIds := pathIds[path := id];
        var paths := [];
        if id in idPaths {
          paths := idPaths[id];
        }
        idPaths := idPaths[id := paths + [path]];
        updated := true;
      }
      bound := Some(id);
    }

    method FindOrCreateSharedProjectId(path: string, flag: string, group: string, sys: Sys)
        returns (id: Option<QuotaID>, isNew: bool)
      requires Room(idPaths.Keys)
      modifies this`pathIds, this`idPaths, this`idNames, this`nameIds, this`savedPaths, this`savedNames
      ensures (View(), id) == FindOrCreateShared(old(View()), path, flag, group, sys)
      ensures isNew <==> id.Some? && flag + "-" + group !in old(nameIds)
      ensures !sys.saveOk ==> savedPaths == old(savedPaths) && savedNames == old(savedNames)
      ensures sys.saveOk && old(Saved()) ==> Saved()
    {
      if group == "" {
        return None, false;
      }
      var name := flag + "-" + group;
      if name in nameIds {
        var updated;
        id, updated := BindProjectId(path, nameIds[name], sys);
        if updated {
          SavePaths(sys);
        }
        return id, false;
      }
      id, isNew := FindOrCreateProjectId(path, group, false, false, sys);
      if id.None? {
        return None, false;
      }
      nameIds := nameIds[name := id.value];
      idNames := idNames[id.value := name];
      SavePaths(sys);
      SaveNames(sys);
      isNew := true;
    }

    /** Give the path an id, and the id its limit if it is new; ok means that no error is returned. */
    method SetQuota(path: string, flag: string, group: Option<string>, sized: bool, sys: Sys) returns (ok: bool)
      requires Room(idPaths.Keys)
      modifies this
      ensures View() == ProjectQuota.SetQuota(old(View()), path, flag, group, sized, sys)
      ensures limited == LimitedAfterSet(old(View()), old(limited), path, flag, group, sized, sys)
      ensures ok <==> !sized || (&& sys.device && FoundId(old(View()), path, flag, group, sys).Some?
                                 && (NewId(old(View()), path, flag, group, sized, sys).Some? ==> sys.limitOk))
      // an error that leaves the maps changed is a failed write of the limit
      ensures !ok && View() != old(View()) ==> NewId(old(View()), path, flag, group, sized, sys).Some? && !sys.limitOk
      ensures ok && sized ==> path in pathIds
      ensures sys.saveOk && old(Saved()) ==> Saved()
    {
      if !sized {
        return true;
      }
      if !sys.device {
        return false;
      }
      var id, isNew;
      if group.Some? {
        id, isNew := FindOrCreateSharedProjectId(path, flag, group.value, sys);
      } else {
        id, isNew := FindOrCreateProjectId(path, flag, false, true, sys);
      }
      if id.None? {
        return false;
      }
      if isNew {
        if !sys.limitOk {
          return false;
        }
        limited := limited + {id.value};
      }
      ok := true;
    }

    method ClearQuota(path: string, sys: Sys) returns (ok: bool)
      modifies this
      ensures View() == ProjectQuota.ClearQuota(old(View()), path, sys)
      ensures limited == LimitedAfterClear(old(View()), old(limited), path, sys)
      ensures ok <==> ClearedId(old(View()), path, sys).Some?
      ensures !ok ==> View() == old(View())
      ensures ok ==> path !in pathIds
      ensures sys.saveOk && old(Saved()) ==> Saved()
    {
      if !sys.device {
        return false;
      }
      var found, isNew := FindOrCreateProjectId(path, "", true, true, sys);
      if found.None? {
        return false;
      }
      var id := found.value;
      if sys.limitOk {
        limited := limited - {id};
      }
      if id in idNames {
        nameIds := nameIds - {idNames[id]};
      }
      pathIds := pathIds - {path};
      idPaths := idPaths - {id};
      idNames := idNames - {id};
      SavePaths(sys);
      SaveNames(sys);
      ok := true;
    }
  }

  /** Go visits the ids in any order; a path listed under two ids keeps the one visited last. */
  method IndexPaths(idPaths: IdPaths) returns (pathIds: map<string, QuotaID>)
    ensures forall id, p :: id in idPaths && p in idPaths[id] ==> p in pathIds
    ensures forall p :: p in pathIds ==> pathIds[p] in idPaths && p in idPaths[pathIds[p]]
  {
    pathIds := map[];
    var todo := idPaths.Keys;
    while todo != {}
      invariant todo <= idPaths.Keys
      invariant forall id, p :: id in idPaths.Keys - todo && p in idPaths[id] ==> p in pathIds
      invariant forall p :: p in pathIds ==> pathIds[p] in idPaths && p in idPaths[pathIds[p]]
      decreases todo
    {
      var id :| id in todo;
      todo := todo - {id};
      pathIds := IndexOne(pathIds, id, idPaths[id]);
    }
  }

  method IndexOne(m: map<string, QuotaID>, id: QuotaID, paths: seq<string>) returns (r: map<string, QuotaID>)
    ensures r.Keys == m.Keys + Elements(paths)
    ensures forall p :: p in r ==> r[p] == if p in Elements(paths) then id else m[p]
  {
    r := m;
    for i := 0 to |paths|
      invariant r.Keys == m.Keys + Elements(paths[..i])
      invariant forall p :: p in r ==> r[p] == if p in Elements(paths[..i]) then id else m[p]
    {
      assert Elements(paths[..i + 1]) == Elements(paths[..i]) + {paths[i]};
      r := r[paths[i] := id];
    }
    assert paths[..|paths|] == paths;
  }

  method IndexNames(idNames: IdNames) returns (nameIds: map<string, QuotaID>)
    ensures forall id :: id in idNames ==> idNames[id] in nameIds
    ensures forall n :: n in nameIds ==> nameIds[n] in idNames && idNames[nameIds[n]] == n
  {
    nameIds := map[];
    var todo := idNames.Keys;
    while todo != {}
      invariant todo <= idNames.Keys
      invariant forall id :: id in idNames.Keys - todo ==> idNames[id] in nameIds
      invariant forall n :: n in nameIds ==> nameIds[n] in idNames && idNames[nameIds[n]] == n
      decreases todo
    {
      var id :| id in todo;
      todo := todo - {id};
      nameIds := nameIds[idNames[id] := id];
    }
  }

  /** A manager that is stopped and started again from its files gives every path the id it had. */
  method Restart(m: Manager, ghost kind: string -> Kind) returns (r: Manager)
    requires Inv(m.View(), kind) && m.Saved()
    requires AllClean(m.idPaths) && forall id :: id in m.idNames ==> Clean(m.idNames[id])
    ensures fresh(r) && Inv(r.View(), kind)
    ensures r.pathIds == m.pathIds && r.idPaths == m.idPaths && r.idNames == m.idNames && r.limited == m.limited
  {
    ghost var s := m.View();
    forall id | id in m.idPaths
      ensures m.idPaths[id] != []
    {
      assert IdOk(s, kind, id);
    }
    var idPaths, idNames := SaveAndLoad(m.savedPaths, m.savedNames);
    r := new Manager(idPaths, idNames, m.limited);
    RestartKeepsIds(s, kind, r.pathIds, r.nameIds);
  }
}
