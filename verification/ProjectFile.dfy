/**
 The files that keep project ids across restarts (diskquota/manager/projectquota/projectfile.go):
 printing /etc/projects and /etc/projid and reading them back, in the host namespace.
 */
module ProjectFile {
  import opened Wrappers
  import opened Text
  import opened Sorting

  /** quotaID is a 32-bit integer. */
  type QuotaID = i: int | -0x8000_0000 <= i < 0x8000_0000

  /** The conversion quotaID(id) keeps the low 32 bits. */
  function ToQuotaID(v: int): (id: QuotaID)
    ensures -0x8000_0000 <= v < 0x8000_0000 ==> id == v
  {
    (v + 0x8000_0000) % 0x1_0000_0000 - 0x8000_0000
  }

  type IdPaths = map<QuotaID, seq<string>>
  type IdNames = map<QuotaID, string>

  // ---------------------------------------------------------------- printing

  function PathLine(id: QuotaID, path: string): string {
    Decimal(id) + ":" + path + "\n"
  }

  function PathLines(id: QuotaID, paths: seq<string>): string {
    if paths == [] then "" else PathLines(id, paths[..|paths| - 1]) + PathLine(id, paths[|paths| - 1])
  }

  /** The file for the ids in the order in which the map is visited. */
  function PathListing(m: IdPaths, order: seq<QuotaID>): string
    requires forall id :: id in order ==> id in m
  {
    if order == [] then ""
    else PathListing(m, order[..|order| - 1]) + PathLines(order[|order| - 1], m[order[|order| - 1]])
  }

  function NameLine(name: string, id: QuotaID): string {
    name + ":" + Decimal(id) + "\n"
  }

  function NameListing(m: IdNames, order: seq<QuotaID>): string
    requires forall id :: id in order ==> id in m
  {
    if order == [] then ""
    else NameListing(m, order[..|order| - 1]) + NameLine(m[order[|order| - 1]], order[|order| - 1])
  }

  /** An order in which the keys of a map can be visited. */
  ghost predicate IsOrder<T>(order: seq<T>, keys: set<T>) {
    NoDup(order) && Elements(order) == keys
  }

  method UpdateProjects(m: IdPaths) returns (text: string, ghost order: seq<QuotaID>)
    ensures IsOrder(order, m.Keys) && (forall id :: id in order ==> id in m) && text == PathListing(m, order)
  {
    text, order := "", [];
    var todo := m.Keys;
    while todo != {}
      invariant todo <= m.Keys && IsOrder(order, m.Keys - todo)
      invariant forall id :: id in order ==> id in m
      invariant text == PathListing(m, order)
      decreases todo
    {
      var id :| id in todo;
      todo := todo - {id};
      var lines := PrintPaths(id, m[id]);
      assert id !in Elements(order);
      assert (order + [id])[..|order|] == order && Elements(order + [id]) == Elements(order) + {id};
      order := order + [id];
      text := text + lines;
    }
  }

  method PrintPaths(id: QuotaID, paths: seq<string>) returns (text: string)
    ensures text == PathLines(id, paths)
  {
    text := "";
    for i := 0 to |paths|
      invariant text == PathLines(id, paths[..i])
    {
      assert paths[..i + 1][..i] == paths[..i];
      text := text + PathLine(id, paths[i]);
    }
    assert paths[..|paths|] == paths;
  }

  method UpdateProjIds(m: IdNames) returns (text: string, ghost order: seq<QuotaID>)
    ensures IsOrder(order, m.Keys) && (forall id :: id in order ==> id in m) && text == NameListing(m, order)
  {
    text, order := "", [];
    var todo := m.Keys;
    while todo != {}
      invariant todo <= m.Keys && IsOrder(order, m.Keys - todo)
      invariant forall id :: id in order ==> id in m
      invariant text == NameListing(m, order)
      decreases todo
    {
      var id :| id in todo;
      todo := todo - {id};
      assert id !in Elements(order);
      assert (order + [id])[..|order|] == order && Elements(order + [id]) == Elements(order) + {id};
      order := order + [id];
      text := text + NameLine(m[id], id);
    }
  }

  // ---------------------------------------------------------------- reading

  /** The two fields of a line; other lines are skipped. */
  function Fields(line: string): Option<(string, string)> {
    var parts := Split(line, ':');
    if |parts| == 2 then Some((TrimSpace(parts[0]), TrimSpace(parts[1]))) else None
  }

  function AppendPath(m: IdPaths, id: QuotaID, path: string): IdPaths {
    m[id := (if id in m then m[id] else []) + [path]]
  }

  /** A line of /etc/projects: an id and a path. */
  function AddPathLine(m: IdPaths, line: string): IdPaths {
    var f := Fields(line);
    if f.None? || Atoi(f.value.0).None? then m
    else AppendPath(m, ToQuotaID(Atoi(f.value.0).value), f.value.1)
  }

  /** A line of /etc/projid: a name and an id. */
  function AddNameLine(m: IdNames, line: string): IdNames {
    var f := Fields(line);
    if f.None? || Atoi(f.value.1).None? then m else m[ToQuotaID(Atoi(f.value.1).value) := f.value.0]
  }

  function ReadPaths(lines: seq<string>): IdPaths {
    if lines == [] then map[] else AddPathLine(ReadPaths(lines[..|lines| - 1]), lines[|lines| - 1])
  }

  function ReadNames(lines: seq<string>): IdNames {
    if lines == [] then map[] else AddNameLine(ReadNames(lines[..|lines| - 1]), lines[|lines| - 1])
  }

  method DumpProjectIds(projects: string, projid: string) returns (idPaths: IdPaths, idNames: IdNames)
    ensures idPaths == ReadPaths(Lines(projects)) && idNames == ReadNames(Lines(projid))
  {
    idPaths, idNames := map[], map[];
    var lines := Lines(projects);
    for i := 0 to |lines|
      invariant idPaths == ReadPaths(lines[..i])
    {
      assert lines[..i + 1][..i] == lines[..i];
      idPaths := AddPathLine(idPaths, lines[i]);
    }
    assert lines[..|lines|] == lines;
    lines := Lines(projid);
    for i := 0 to |lines|
      invariant idNames == ReadNames(lines[..i])
    {
      assert lines[..i + 1][..i] == lines[..i];
      idNames := AddNameLine(idNames, lines[i]);
    }
    assert lines[..|lines|] == lines;
  }

  // ---------------------------------------------------------------- what survives

  /** A line that does not have exactly one colon, or has no number where the id belongs, says nothing. */
  lemma MalformedIsSkipped(line: string, m: IdPaths, n: IdNames)
    ensures multiset(line)[':'] != 1 ==> AddPathLine(m, line) == m && AddNameLine(n, line) == n
    ensures Fields(line).Some? && Atoi(Fields(line).value.0).None? ==> AddPathLine(m, line) == m
    ensures Fields(line).Some? && Atoi(Fields(line).value.1).None? ==> AddNameLine(n, line) == n
  {
    SplitCount(line, ':');
  }

  /** The two formats, by example: the id comes first for a path and last for a name. */
  lemma FormatsByExample()
    ensures PathLine(12, "/d") == "12:/d\n" && NameLine("e-12", 12) == "e-12:12\n"
  {
    assert Digits(1) == "1" && Digits(12) == "12";
    assert Decimal(12) == "12";
  }

  /** A field that can be told apart again. */
  predicate Clean(s: string) {
    ':' !in s && '\n' !in s && NoOuterBlanks(s)
  }

  lemma DecimalIsClean(id: QuotaID)
    ensures Clean(Decimal(id)) && Atoi(Decimal(id)) == Some(id as int)
  {
    DecimalChars(id);
    AtoiOfDecimal(id);
  }

  lemma CleanPair(a: string, b: string)
    requires Clean(a) && Clean(b)
    ensures Fields(a + ":" + b) == Some((a, b))
    ensures Lines(a + ":" + b + "\n") == [a + ":" + b]
  {
    TwoFields(a, b, ':');
    TrimSpaceTrims(a);
    TrimSpaceTrims(b);
    var line := a + ":" + b;
    assert forall c :: c in line ==> c in a || c == ':' || c in b;
    assert b != "" ==> line[|line| - 1] == b[|b| - 1];
    assert b == "" ==> line[|line| - 1] == ':';
    OneLine(line);
  }

  lemma ReadPathsSnoc(lines: seq<string>, line: string)
    ensures ReadPaths(lines + [line]) == AddPathLine(ReadPaths(lines), line)
    ensures ReadNames(lines + [line]) == AddNameLine(ReadNames(lines), line)
  {
    assert (lines + [line])[..|lines|] == lines;
  }

  predicate EndsLine(text: string) {
    text == "" || text[|text| - 1] == '\n'
  }

  /** One more printed path is read back as one more path of its id. */
  lemma PathLineReadBack(text: string, id: QuotaID, path: string)
    requires EndsLine(text) && Clean(path)
    ensures var m := ReadPaths(Lines(text));
            ReadPaths(Lines(text + PathLine(id, path))) == AppendPath(m, id, path)
    ensures EndsLine(text + PathLine(id, path))
  {
    DecimalIsClean(id);
    CleanPair(Decimal(id), path);
    LinesConcat(text, PathLine(id, path));
    ReadPathsSnoc(Lines(text), Decimal(id) + ":" + path);
  }

  lemma NameLineReadBack(text: string, id: QuotaID, name: string)
    requires EndsLine(text) && Clean(name)
    ensures ReadNames(Lines(text + NameLine(name, id))) == ReadNames(Lines(text))[id := name]
    ensures EndsLine(text + NameLine(name, id))
  {
    DecimalIsClean(id);
    CleanPair(name, Decimal(id));
    LinesConcat(text, NameLine(name, id));
    ReadPathsSnoc(Lines(text), name + ":" + Decimal(id));
  }

  function SetPaths(m: IdPaths, id: QuotaID, paths: seq<string>): IdPaths {
    if paths == [] then m else m[id := paths]
  }

  lemma AppendToPaths(m: IdPaths, id: QuotaID, paths: seq<string>, path: string)
    requires id !in m
    ensures AppendPath(SetPaths(m, id, paths), id, path) == SetPaths(m, id, paths + [path])
  {
    assert paths == [] ==> paths + [path] == [] + [path];
  }

  lemma Regroup(a: string, b: string, c: string)
    ensures a + (b + c) == (a + b) + c
  {
  }

  lemma InitAndLast<T>(s: seq<T>)
    requires s != []
    ensures s[..|s| - 1] + [s[|s| - 1]] == s
  {
  }

  lemma {:induction false} PathLinesReadBack(text: string, id: QuotaID, paths: seq<string>)
    requires EndsLine(text) && id !in ReadPaths(Lines(text)) && forall p :: p in paths ==> Clean(p)
    ensures ReadPaths(Lines(text + PathLines(id, paths))) == SetPaths(ReadPaths(Lines(text)), id, paths)
    ensures EndsLine(text + PathLines(id, paths))
  {
    if paths == [] {
      assert text + "" == text;
    } else {
      var init, last := paths[..|paths| - 1], paths[|paths| - 1];
      var mid := text + PathLines(id, init);
      PathLinesReadBack(text, id, init);
      Regroup(text, PathLines(id, init), PathLine(id, last));
      PathLineReadBack(mid, id, last);
      AppendToPaths(ReadPaths(Lines(text)), id, init, last);
      InitAndLast(paths);
    }
  }

  ghost predicate AllClean(m: IdPaths) {
    forall id, p :: id in m && p in m[id] ==> Clean(p)
  }

  function Restrict<V>(m: map<QuotaID, V>, order: seq<QuotaID>): map<QuotaID, V> {
    map id | id in order && id in m :: m[id]
  }

  lemma RestrictSnoc<V>(m: map<QuotaID, V>, order: seq<QuotaID>)
    requires order != [] && order[|order| - 1] in m
    ensures var id := order[|order| - 1];
            Restrict(m, order) == Restrict(m, order[..|order| - 1])[id := m[id]]
  {
    assert forall i :: i in order <==> i in order[..|order| - 1] || i == order[|order| - 1];
  }

  lemma {:induction false} PathListingReadBack(m: IdPaths, order: seq<QuotaID>)
    requires NoDup(order) && (forall id :: id in order ==> id in m && m[id] != []) && AllClean(m)
    ensures ReadPaths(Lines(PathListing(m, order))) == Restrict(m, order)
    ensures EndsLine(PathListing(m, order))
  {
    if order != [] {
      var init, id := order[..|order| - 1], order[|order| - 1];
      PathListingReadBack(m, init);
      assert id !in init;
      PathLinesReadBack(PathListing(m, init), id, m[id]);
      RestrictSnoc(m, order);
    }
  }

  lemma {:induction false} NameListingReadBack(m: IdNames, order: seq<QuotaID>)
    requires (forall id :: id in order ==> id in m) && forall id :: id in m ==> Clean(m[id])
    ensures ReadNames(Lines(NameListing(m, order))) == Restrict(m, order)
    ensures EndsLine(NameListing(m, order))
  {
    if order != [] {
      var init, id := order[..|order| - 1], order[|order| - 1];
      NameListingReadBack(m, init);
      NameLineReadBack(NameListing(m, init), id, m[id]);
      RestrictSnoc(m, order);
    }
  }

  // ---------------------------------------------------------------- only clean maps survive

  lemma FieldsAreClean(line: string)
    requires '\n' !in line
    ensures Fields(line).Some? ==> Clean(Fields(line).value.0) && Clean(Fields(line).value.1)
  {
    var parts := Split(line, ':');
    FieldsAreFree(line, ':');
    if |parts| == 2 {
      assert parts[0] in parts && parts[1] in parts;
      TrimSpaceTrims(parts[0]);
      TrimSpaceTrims(parts[1]);
    }
  }

  lemma {:induction false} ReadPathsAreClean(lines: seq<string>)
    requires forall l :: l in lines ==> '\n' !in l
    ensures AllClean(ReadPaths(lines)) && forall id :: id in ReadPaths(lines) ==> ReadPaths(lines)[id] != []
  {
    if lines != [] {
      ReadPathsAreClean(lines[..|lines| - 1]);
      FieldsAreClean(lines[|lines| - 1]);
    }
  }

  lemma {:induction false} ReadNamesAreClean(lines: seq<string>)
    requires forall l :: l in lines ==> '\n' !in l
    ensures forall id :: id in ReadNames(lines) ==> Clean(ReadNames(lines)[id])
  {
    if lines != [] {
      ReadNamesAreClean(lines[..|lines| - 1]);
      FieldsAreClean(lines[|lines| - 1]);
    }
  }

  /**
   Reading what was written returns the same map, path order included and in whatever order the ids
   were written, exactly when every path is clean and no id has an empty list.
   */
  lemma PathsSurviveIff(m: IdPaths, order: seq<QuotaID>)
    requires IsOrder(order, m.Keys) && forall id :: id in order ==> id in m
    ensures ReadPaths(Lines(PathListing(m, order))) == m <==> AllClean(m) && forall id :: id in m ==> m[id] != []
  {
    var text := PathListing(m, order);
    assert forall id :: id in m <==> id in Elements(order);
    if AllClean(m) && forall id :: id in m ==> m[id] != [] {
      PathListingReadBack(m, order);
    } else {
      LinesAreFree(text);
      ReadPathsAreClean(Lines(text));
    }
  }

  /** The same for names: exactly the clean ones survive. */
  lemma NamesSurviveIff(m: IdNames, order: seq<QuotaID>)
    requires IsOrder(order, m.Keys) && forall id :: id in order ==> id in m
    ensures ReadNames(Lines(NameListing(m, order))) == m <==> forall id :: id in m ==> Clean(m[id])
  {
    var text := NameListing(m, order);
    assert forall id :: id in m <==> id in Elements(order);
    if forall id :: id in m ==> Clean(m[id]) {
      NameListingReadBack(m, order);
    } else {
      LinesAreFree(text);
      ReadNamesAreClean(Lines(text));
    }
  }

  /** Writing both files and reading them again. */
  method SaveAndLoad(idPaths: IdPaths, idNames: IdNames) returns (loadedPaths: IdPaths, loadedNames: IdNames)
    ensures loadedPaths == idPaths <==> AllClean(idPaths) && forall id :: id in idPaths ==> idPaths[id] != []
    ensures loadedNames == idNames <==> forall id :: id in idNames ==> Clean(idNames[id])
  {
    var projects, order := UpdateProjects(idPaths);
    PathsSurviveIff(idPaths, order);
    var projid, order' := UpdateProjIds(idNames);
    NamesSurviveIff(idNames, order');
    loadedPaths, loadedNames := DumpProjectIds(projects, projid);
  }
}
