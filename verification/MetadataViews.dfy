/** The view of the RETS metadata that the rest of the driver asks: resources and classes are
    indexed once, tables class by class when first asked for. SQL table names encode a resource
    and a class as `data:Resource:Class`. */
module MetadataViews {
  import opened Text

  // ---- The metadata, an immutable snapshot

  /** librets hands out pointers; `id` stands for the address, so that entries with equal names
      stay different. */
  datatype MetadataResource = MetadataResource(id: nat, resourceID: string, standardName: string)
  datatype MetadataClass = MetadataClass(id: nat, className: string, standardName: string)
  datatype MetadataTable = MetadataTable(id: nat, systemName: string, standardName: string)

  /** Classes are listed by resource ID and tables by class. */
  datatype RetsMetadata = RetsMetadata(resources: seq<MetadataResource>,
                                       classes: map<string, seq<MetadataClass>>,
                                       tables: map<MetadataClass, seq<MetadataTable>>)
  {
    function AllClasses(resourceID: string): seq<MetadataClass> {
      if resourceID in classes then classes[resourceID] else []
    }

    function AllTables(clazz: MetadataClass): seq<MetadataTable> {
      if clazz in tables then tables[clazz] else []
    }
  }

  function ResourceName(std: bool): MetadataResource -> string {
    (r: MetadataResource) => if std then r.standardName else r.resourceID
  }

  function ClassName(std: bool): MetadataClass -> string {
    (c: MetadataClass) => if std then c.standardName else c.className
  }

  function TableName(std: bool): MetadataTable -> string {
    (t: MetadataTable) => if std then t.standardName else t.systemName
  }

  // ---- What a scan of the metadata answers

  /** The last entry with that name; no entry is found by the empty name. */
  function LastNamed<T>(items: seq<T>, nameOf: T -> string, name: string): (found: Option<T>)
    ensures found.Some? ==> found.value in items && nameOf(found.value) == name != ""
    ensures found.None? && name != "" ==> forall t | t in items :: nameOf(t) != name
  {
    if items == [] then None
    else
      var last := items[|items| - 1];
      if name != "" && nameOf(last) == name then Some(last)
      else LastNamed(items[..|items| - 1], nameOf, name)
  }

  function FindResource(m: RetsMetadata, std: bool, name: string): Option<MetadataResource> {
    LastNamed(m.resources, ResourceName(std), name)
  }

  function FindClass(m: RetsMetadata, std: bool, r: MetadataResource, name: string): Option<MetadataClass> {
    LastNamed(m.AllClasses(r.resourceID), ClassName(std), name)
  }

  function FindTable(m: RetsMetadata, std: bool, clazz: MetadataClass, name: string): Option<MetadataTable> {
    LastNamed(m.AllTables(clazz), TableName(std), name)
  }

  /** What a scan finds, by the fields that hold the names: the last entry with the name in its
      standard or its system field, as the mode says; none by the empty name. */
  lemma FoundTable(m: RetsMetadata, std: bool, clazz: MetadataClass, name: string)
    ensures var tables, found := m.AllTables(clazz), FindTable(m, std, clazz, name);
            && (found.None? <==>
                  name == "" || forall t | t in tables :: (if std then t.standardName else t.systemName) != name)
            && (found.Some? ==>
                  (if std then found.value.standardName else found.value.systemName) == name
                  && exists i | 0 <= i < |tables| :: tables[i] == found.value
                       && forall j | i < j < |tables| ::
                            (if std then tables[j].standardName else tables[j].systemName) != name)
  {
    LastIsLast(m.AllTables(clazz), TableName(std), name);
  }

  lemma FoundClass(m: RetsMetadata, std: bool, r: MetadataResource, name: string)
    ensures var classes, found := m.AllClasses(r.resourceID), FindClass(m, std, r, name);
            && (found.None? <==>
                  name == "" || forall c | c in classes :: (if std then c.standardName else c.className) != name)
            && (found.Some? ==>
                  (if std then found.value.standardName else found.value.className) == name
                  && exists i | 0 <= i < |classes| :: classes[i] == found.value
                       && forall j | i < j < |classes| ::
                            (if std then classes[j].standardName else classes[j].className) != name)
  {
    LastIsLast(m.AllClasses(r.resourceID), ClassName(std), name);
  }

  lemma FoundResource(m: RetsMetadata, std: bool, name: string)
    ensures var found := FindResource(m, std, name);
            && (found.None? <==>
                  name == ""
                  || forall r | r in m.resources :: (if std then r.standardName else r.resourceID) != name)
            && (found.Some? ==>
                  (if std then found.value.standardName else found.value.resourceID) == name
                  && exists i | 0 <= i < |m.resources| :: m.resources[i] == found.value
                       && forall j | i < j < |m.resources| ::
                            (if std then m.resources[j].standardName else m.resources[j].resourceID) != name)
  {
    LastIsLast(m.resources, ResourceName(std), name);
  }

  lemma {:induction false} LastIsLast<T>(items: seq<T>, nameOf: T -> string, name: string)
    ensures var found := LastNamed(items, nameOf, name);
            found.Some? ==> exists i | 0 <= i < |items| :: items[i] == found.value
                              && forall j | i < j < |items| :: nameOf(items[j]) != name
    ensures LastNamed(items, nameOf, name).None? <==> name == "" || forall t | t in items :: nameOf(t) != name
  {
    if items != [] {
      var last := |items| - 1;
      LastIsLast(items[..last], nameOf, name);
      if LastNamed(items, nameOf, name).Some? && !(name != "" && nameOf(items[last]) == name) {
        var i :| 0 <= i < last && items[..last][i] == LastNamed(items, nameOf, name).value
                 && forall j | i < j < last :: nameOf(items[..last][j]) != name;
        assert forall j | i < j < |items| :: nameOf(items[j]) != name by {
          forall j | i < j < |items| ensures nameOf(items[j]) != name {
            if j < last {
              assert items[..last][j] == items[j];
            }
          }
        }
      }
      assert forall t | t in items :: t in items[..last] || t == items[last];
    }
  }

  function Find<K(==), V>(m: map<K, V>, k: K): Option<V> {
    if k in m then Some(m[k]) else None
  }

  /** A map after entering items one by one under (owner, name), except those without a name. */
  function Entered<O(==), T>(m: map<(O, string), T>, owner: O, items: seq<T>, nameOf: T -> string)
    : map<(O, string), T>
  {
    if items == [] then m
    else
      var last := items[|items| - 1];
      var before := Entered(m, owner, items[..|items| - 1], nameOf);
      if nameOf(last) == "" then before else before[(owner, nameOf(last)) := last]
  }

  lemma {:induction false} FindInEntered<O, T>(m: map<(O, string), T>, owner: O, items: seq<T>, nameOf: T -> string,
                                               o: O, name: string)
    ensures Find(Entered(m, owner, items, nameOf), (o, name)) ==
            if o == owner && LastNamed(items, nameOf, name).Some? then LastNamed(items, nameOf, name)
            else Find(m, (o, name))
  {
    if items != [] {
      FindInEntered(m, owner, items[..|items| - 1], nameOf, o, name);
    }
  }

  lemma EnteredOneMore<O, T>(m: map<(O, string), T>, owner: O, items: seq<T>, nameOf: T -> string, i: nat)
    requires i < |items|
    ensures Entered(m, owner, items[..i + 1], nameOf) ==
            var before := Entered(m, owner, items[..i], nameOf);
            if nameOf(items[i]) == "" then before else before[(owner, nameOf(items[i])) := items[i]]
  {
    assert items[..i + 1][..i] == items[..i];
  }

  // ---- Tables, loaded lazily

  type TableMap = map<(MetadataClass, string), MetadataTable>

  datatype TableCache = TableCache(std: TableMap, sys: TableMap, lists: map<MetadataClass, seq<MetadataTable>>,
                                   inited: map<MetadataClass, bool>)
  {
    predicate AreTablesInited(clazz: MetadataClass) {
      clazz in inited && inited[clazz]
    }
  }

  const EMPTY := TableCache(map[], map[], map[], map[])

  function Load(cache: TableCache, m: RetsMetadata, clazz: MetadataClass): TableCache {
    var tables := m.AllTables(clazz);
    TableCache(Entered(cache.std, clazz, tables, TableName(true)),
               Entered(cache.sys, clazz, tables, TableName(false)),
               cache.lists[clazz := tables], cache.inited[clazz := true])
  }

  function Prepared(cache: TableCache, m: RetsMetadata, clazz: MetadataClass): TableCache {
    if cache.AreTablesInited(clazz) then cache else Load(cache, m, clazz)
  }

  datatype Query = TableQuery(clazz: MetadataClass, name: string, std: bool) | ListQuery(clazz: MetadataClass)

  datatype Reply = TableReply(table: Option<MetadataTable>) | ListReply(tables: seq<MetadataTable>)

  /** A query as the view answers it, with the cache that it leaves. */
  function Ask(cache: TableCache, m: RetsMetadata, q: Query): (TableCache, Reply) {
    var next := Prepared(cache, m, q.clazz);
    match q
    case TableQuery(clazz, name, std) =>
      (next, TableReply(Find(if std then next.std else next.sys, (clazz, name))))
    case ListQuery(clazz) => (next, ListReply(Find(next.lists, clazz).GetOr([])))
  }

  /** A query as a scan of the metadata answers it. */
  function Scan(m: RetsMetadata, q: Query): Reply {
    match q
    case TableQuery(clazz, name, std) => TableReply(FindTable(m, std, clazz, name))
    case ListQuery(clazz) => ListReply(m.AllTables(clazz))
  }

  /** The indexes hold what a scan finds for the classes loaded, and nothing for the others. */
  ghost predicate Consistent(cache: TableCache, m: RetsMetadata) {
    && (forall c, name :: Find(cache.std, (c, name)) ==
                          if cache.AreTablesInited(c) then FindTable(m, true, c, name) else None)
    && (forall c, name :: Find(cache.sys, (c, name)) ==
                          if cache.AreTablesInited(c) then FindTable(m, false, c, name) else None)
    && (forall c | cache.AreTablesInited(c) :: Find(cache.lists, c) == Some(m.AllTables(c)))
  }

  /** Loading a class makes its answers those of a scan and leaves every other class alone. */
  lemma LoadIsConsistent(cache: TableCache, m: RetsMetadata, clazz: MetadataClass)
    requires Consistent(cache, m)
    ensures Consistent(Load(cache, m, clazz), m)
  {
    var next, tables := Load(cache, m, clazz), m.AllTables(clazz);
    forall c, name
      ensures Find(next.std, (c, name)) == if next.AreTablesInited(c) then FindTable(m, true, c, name) else None
      ensures Find(next.sys, (c, name)) == if next.AreTablesInited(c) then FindTable(m, false, c, name) else None
    {
      FindInEntered(cache.std, clazz, tables, TableName(true), c, name);
      FindInEntered(cache.sys, clazz, tables, TableName(false), c, name);
    }
  }

  /** Loading enters every table of the class that has a standard name under that name, and every
      one that has a system name under that: each name leads to the last table that has it. */
  lemma LoadEnters(cache: TableCache, m: RetsMetadata, clazz: MetadataClass, t: MetadataTable)
    requires t in m.AllTables(clazz)
    ensures t.standardName != "" ==>
              (clazz, t.standardName) in Load(cache, m, clazz).std
              && Load(cache, m, clazz).std[(clazz, t.standardName)].standardName == t.standardName
              && Some(Load(cache, m, clazz).std[(clazz, t.standardName)]) == FindTable(m, true, clazz, t.standardName)
    ensures t.systemName != "" ==>
              (clazz, t.systemName) in Load(cache, m, clazz).sys
              && Load(cache, m, clazz).sys[(clazz, t.systemName)].systemName == t.systemName
              && Some(Load(cache, m, clazz).sys[(clazz, t.systemName)]) == FindTable(m, false, clazz, t.systemName)
  {
    FindInEntered(cache.std, clazz, m.AllTables(clazz), TableName(true), clazz, t.standardName);
    FindInEntered(cache.sys, clazz, m.AllTables(clazz), TableName(false), clazz, t.systemName);
    FoundTable(m, true, clazz, t.standardName);
    FoundTable(m, false, clazz, t.systemName);
  }

  lemma AskIsScan(cache: TableCache, m: RetsMetadata, q: Query)
    requires Consistent(cache, m)
    ensures Ask(cache, m, q).1 == Scan(m, q) && Consistent(Ask(cache, m, q).0, m)
  {
    if !cache.AreTablesInited(q.clazz) {
      LoadIsConsistent(cache, m, q.clazz);
    }
  }

  function AskAll(cache: TableCache, m: RetsMetadata, queries: seq<Query>): (replies: seq<Reply>)
    ensures |replies| == |queries|
    decreases |queries|
  {
    if queries == [] then []
    else
      var (next, reply) := Ask(cache, m, queries[0]);
      [reply] + AskAll(next, m, queries[1..])
  }

  /** After any history of queries, every one was answered as a scan of the metadata answers
      it: neither the order of loading nor what else was loaded shows. */
  lemma {:induction false} HistoryIsScan(cache: TableCache, m: RetsMetadata, queries: seq<Query>)
    requires Consistent(cache, m)
    ensures forall i | 0 <= i < |queries| :: AskAll(cache, m, queries)[i] == Scan(m, queries[i])
    decreases |queries|
  {
    if queries != [] {
      AskIsScan(cache, m, queries[0]);
      HistoryIsScan(Ask(cache, m, queries[0]).0, m, queries[1..]);
    }
  }

  /** That is so from the start, when nothing is loaded. */
  lemma EveryHistoryIsScan(m: RetsMetadata, queries: seq<Query>)
    ensures forall i | 0 <= i < |queries| :: AskAll(EMPTY, m, queries)[i] == Scan(m, queries[i])
  {
    HistoryIsScan(EMPTY, m, queries);
  }

  // ---- SQL names of tables

  function MakeSQLDataTableName(std: bool, r: MetadataResource, c: MetadataClass): string {
    var resName, className := ResourceName(std)(r), ClassName(std)(c);
    if resName == "" || className == "" then "" else "data:" + resName + ":" + className
  }

  /** Parts one and two of a name; both are missing where the name has too few of them, the
      second one alone where only that is. */
  function NameParts(tableName: string): (string, string) {
    var parts := Split(tableName, ':');
    (if |parts| > 1 then parts[1] else "", if |parts| > 2 then parts[2] else "")
  }

  function Resolve(m: RetsMetadata, std: bool, tableName: string): Option<(MetadataResource, MetadataClass)> {
    var (resName, className) := NameParts(tableName);
    var res := FindResource(m, std, resName);
    if res.None? then None
    else
      var clazz := FindClass(m, std, res.value, className);
      if clazz.None? then None else Some((res.value, clazz.value))
  }

  lemma SplitOfDataName(resName: string, className: string)
    ensures Split("data:" + resName + ":" + className, ':') == ["data"] + Split(resName, ':') + Split(className, ':')
  {
    assert "data:" + resName + ":" + className == "data" + [':'] + (resName + [':'] + className);
    SplitOfConcat("data", resName + [':'] + className, ':');
    SplitOfConcat(resName, className, ':');
    SplitOfFree("data", ':');
  }

  /** Resolving the name of an enumerated pair gives the pair back exactly when both names are
      there, contain no colon, and are not taken again by a later entry. */
  lemma ResolveOfMake(m: RetsMetadata, std: bool, r: MetadataResource, c: MetadataClass)
    requires r in m.resources && c in m.AllClasses(r.resourceID)
    ensures var resName, className := ResourceName(std)(r), ClassName(std)(c);
            Resolve(m, std, MakeSQLDataTableName(std, r, c)) == Some((r, c)) <==>
            && resName != "" && className != "" && Free(resName, ':') && Free(className, ':')
            && FindResource(m, std, resName) == Some(r)
            && FindClass(m, std, r, className) == Some(c)
  {
    var resName, className := ResourceName(std)(r), ClassName(std)(c);
    SplitOfDataName(resName, className);
    SplitPartsAreFree(resName, ':');
    SplitPartsAreFree(className, ':');
    if Free(resName, ':') {
      SplitOfFree(resName, ':');
    }
    if Free(className, ':') {
      SplitOfFree(className, ':');
    }
  }

  ghost predicate UniqueNames<T(!new)>(items: seq<T>, nameOf: T -> string) {
    forall s, t | s in items && t in items && nameOf(s) == nameOf(t) :: s == t
  }

  /** Names that are there, unique and without a colon round-trip for every enumerated pair. */
  lemma UniqueNamesRoundTrip(m: RetsMetadata, std: bool, r: MetadataResource, c: MetadataClass)
    requires r in m.resources && c in m.AllClasses(r.resourceID)
    requires UniqueNames(m.resources, ResourceName(std)) && UniqueNames(m.AllClasses(r.resourceID), ClassName(std))
    requires ResourceName(std)(r) != "" && Free(ResourceName(std)(r), ':')
    requires ClassName(std)(c) != "" && Free(ClassName(std)(c), ':')
    ensures Resolve(m, std, MakeSQLDataTableName(std, r, c)) == Some((r, c))
  {
    ResolveOfMake(m, std, r, c);
    UniqueIsLast(m.resources, ResourceName(std), r);
    UniqueIsLast(m.AllClasses(r.resourceID), ClassName(std), c);
  }

  lemma UniqueIsLast<T(!new)>(items: seq<T>, nameOf: T -> string, t: T)
    requires t in items && nameOf(t) != "" && UniqueNames(items, nameOf)
    ensures LastNamed(items, nameOf, nameOf(t)) == Some(t)
  {
    var found := LastNamed(items, nameOf, nameOf(t));
    assert found.Some? && nameOf(found.value) == nameOf(t);
  }

  /** Printing the pair that a name resolves to gives the name back exactly when it has three
      parts of which the first is `data`; the resolver itself checks neither. */
  lemma MakeOfResolved(m: RetsMetadata, std: bool, tableName: string)
    ensures Resolve(m, std, tableName).Some? ==>
              var (r, c) := Resolve(m, std, tableName).value;
              (MakeSQLDataTableName(std, r, c) == tableName <==>
                 |Split(tableName, ':')| == 3 && Split(tableName, ':')[0] == "data")
  {
    if Resolve(m, std, tableName).Some? {
      var parts := Split(tableName, ':');
      var (resName, className) := NameParts(tableName);
      JoinOfSplit(tableName, ':');
      SplitPartsAreFree(tableName, ':');
      SplitOfDataName(resName, className);
      SplitOfFree(resName, ':');
      SplitOfFree(className, ':');
      if |parts| == 3 && parts[0] == "data" {
        assert parts == ["data", resName, className];
        JoinOfDataParts(resName, className);
      }
    }
  }

  lemma JoinOfDataParts(resName: string, className: string)
    ensures Join(["data", resName, className], ':') == "data:" + resName + ":" + className
  {
    assert ["data", resName, className][1..] == [resName, className];
    assert [resName, className][1..] == [className];
    assert Join([resName, className], ':') == resName + [':'] + className;
    assert "data" + [':'] + (resName + [':'] + className) == "data:" + resName + ":" + className;
  }

  /** The SQL name of a table is `data` and the two names of the naming mode, unless one is empty. */
  lemma SQLNameParts(std: bool, r: MetadataResource, c: MetadataClass)
    ensures var resName := if std then r.standardName else r.resourceID;
            var className := if std then c.standardName else c.className;
            && (resName == "" || className == "" ==> MakeSQLDataTableName(std, r, c) == "")
            && (resName != "" && className != "" && Free(resName, ':') && Free(className, ':') ==>
                  Split(MakeSQLDataTableName(std, r, c), ':') == ["data", resName, className])
  {
    var resName := if std then r.standardName else r.resourceID;
    var className := if std then c.standardName else c.className;
    if resName != "" && className != "" && Free(resName, ':') && Free(className, ':') {
      SplitOfDataName(resName, className);
      SplitOfFree(resName, ':');
      SplitOfFree(className, ':');
    }
  }

  /** A name that resolves has at least three parts, of which the second and third are the names,
      in that mode, of the pair, which the metadata lists. */
  lemma ResolvedNames(m: RetsMetadata, std: bool, tableName: string)
    requires Resolve(m, std, tableName).Some?
    ensures var parts, (r, c) := Split(tableName, ':'), Resolve(m, std, tableName).value;
            && |parts| >= 3 && r in m.resources && c in m.AllClasses(r.resourceID)
            && parts[1] == (if std then r.standardName else r.resourceID)
            && parts[2] == (if std then c.standardName else c.className)
  {
  }

  /** Every class of every resource is enumerated, and nothing else. */
  lemma {:induction false} PairsAreAll(m: RetsMetadata, resources: seq<MetadataResource>, r: MetadataResource,
                                       c: MetadataClass)
    ensures (r, c) in PairsOf(m, resources) <==> r in resources && c in m.AllClasses(r.resourceID)
  {
    if resources != [] {
      var last := |resources| - 1;
      var classes := m.AllClasses(resources[last].resourceID);
      PairsAreAll(m, resources[..last], r, c);
      assert forall i | 0 <= i < |classes| :: PairsWith(resources[last], classes)[i] == (resources[last], classes[i]);
      if c in classes {
        var i :| 0 <= i < |classes| && classes[i] == c;
        assert PairsWith(resources[last], classes)[i] == (resources[last], c);
      }
      assert r in resources <==> r in resources[..last] || r == resources[last];
    }
  }

  // ---- The class

  class MetadataView {
    const standardNames: bool
    const metadata: RetsMetadata
    var resourceBySysName: map<string, MetadataResource>
    var resourceByStdName: map<string, MetadataResource>
    var classSysMap: map<(MetadataResource, string), MetadataClass>
    var classStdMap: map<(MetadataResource, string), MetadataClass>
    var tableSysMap: TableMap
    var tableStdMap: TableMap
    var tablesInit: map<MetadataClass, bool>
    var tableListByClass: map<MetadataClass, seq<MetadataTable>>

    function Cache(): TableCache
      reads this
    {
      TableCache(tableStdMap, tableSysMap, tableListByClass, tablesInit)
    }

    /** An index of the first n resources by name. */
    ghost predicate ResourceIndex(index: map<string, MetadataResource>, n: nat, std: bool)
      requires n <= |metadata.resources|
    {
      forall name :: Find(index, name) == LastNamed(metadata.resources[..n], ResourceName(std), name)
    }

    ghost predicate ResourcesIndexed(n: nat)
      requires n <= |metadata.resources|
      reads this
    {
      ResourceIndex(resourceByStdName, n, true) && ResourceIndex(resourceBySysName, n, false)
    }

    ghost predicate ClassesIndexed(n: nat)
      requires n <= |metadata.resources|
      reads this
    {
      && (forall r, name :: Find(classStdMap, (r, name)) ==
                            if r in metadata.resources[..n] then FindClass(metadata, true, r, name) else None)
      && (forall r, name :: Find(classSysMap, (r, name)) ==
                            if r in metadata.resources[..n] then FindClass(metadata, false, r, name) else None)
    }

    ghost predicate Valid()
      reads this
    {
      && ResourcesIndexed(|metadata.resources|)
      && ClassesIndexed(|metadata.resources|)
      && Consistent(Cache(), metadata)
    }

    constructor (standardNames: bool, metadata: RetsMetadata)
      ensures Valid() && this.standardNames == standardNames && this.metadata == metadata
    {
      this.standardNames, this.metadata := standardNames, metadata;
      resourceBySysName, resourceByStdName := map[], map[];
      classSysMap, classStdMap := map[], map[];
      tableSysMap, tableStdMap, tablesInit, tableListByClass := map[], map[], map[], map[];
      new;
      InitResources();
      InitClasses();
    }

    /** One more resource entered, if it has a name. */
    lemma ResourcesOneMore(index: map<string, MetadataResource>, i: nat, std: bool, name: string)
      requires i < |metadata.resources| && ResourceIndex(index, i, std) == true
      requires name == ResourceName(std)(metadata.resources[i])
      ensures ResourceIndex(if name == "" then index else index[name := metadata.resources[i]], i + 1, std) == true
    {
      var items, nameOf := metadata.resources, ResourceName(std);
      var after := if name == "" then index else index[name := items[i]];
      assert items[..i + 1][..i] == items[..i];
      forall n ensures Find(after, n) == LastNamed(items[..i + 1], nameOf, n) {
        assert Find(index, n) == LastNamed(items[..i], nameOf, n);
      }
    }

    method InitResources()
      requires resourceBySysName == map[] && resourceByStdName == map[]
      modifies this`resourceBySysName, this`resourceByStdName
      ensures ResourcesIndexed(|metadata.resources|)
    {
      var resources := metadata.resources;
      for i := 0 to |resources|
        invariant ResourceIndex(resourceByStdName, i, true) == true
        invariant ResourceIndex(resourceBySysName, i, false) == true
      {
        var res := resources[i];
        ResourcesOneMore(resourceByStdName, i, true, res.standardName);
        ResourcesOneMore(resourceBySysName, i, false, res.resourceID);
        if res.resourceID != "" {
          resourceBySysName := resourceBySysName[res.resourceID := res];
        }
        if res.standardName != "" {
          resourceByStdName := resourceByStdName[res.standardName := res];
        }
      }
    }

    method InitClasses()
      requires classSysMap == map[] && classStdMap == map[]
      modifies this`classSysMap, this`classStdMap
      ensures ClassesIndexed(|metadata.resources|)
    {
      var resources := metadata.resources;
      for i := 0 to |resources|
        invariant ClassesIndexed(i)
      {
        var res := resources[i];
        var classes := metadata.AllClasses(res.resourceID);
        ghost var std, sys := classStdMap, classSysMap;
        for j := 0 to |classes|
          invariant classStdMap == Entered(std, res, classes[..j], ClassName(true))
          invariant classSysMap == Entered(sys, res, classes[..j], ClassName(false))
        {
          var clazz := classes[j];
          EnteredOneMore(std, res, classes, ClassName(true), j);
          EnteredOneMore(sys, res, classes, ClassName(false), j);
          if clazz.standardName != "" {
            classStdMap := classStdMap[(res, clazz.standardName) := clazz];
          }
          if clazz.className != "" {
            classSysMap := classSysMap[(res, clazz.className) := clazz];
          }
        }
        assert classes[..|classes|] == classes;
        ClassesOfOneMore(std, i, true);
        ClassesOfOneMore(sys, i, false);
      }
    }

    lemma ClassesOfOneMore(before: map<(MetadataResource, string), MetadataClass>, i: nat, std: bool)
      requires i < |metadata.resources|
      requires forall r, name :: Find(before, (r, name)) ==
                 if r in metadata.resources[..i] then FindClass(metadata, std, r, name) else None
      ensures var res := metadata.resources[i];
              var after := Entered(before, res, metadata.AllClasses(res.resourceID), ClassName(std));
              forall r, name :: Find(after, (r, name)) ==
                if r in metadata.resources[..i + 1] then FindClass(metadata, std, r, name) else None
    {
      var res := metadata.resources[i];
      var classes := metadata.AllClasses(res.resourceID);
      assert metadata.resources[..i + 1] == metadata.resources[..i] + [res];
      forall r, name
        ensures Find(Entered(before, res, classes, ClassName(std)), (r, name)) ==
                if r in metadata.resources[..i + 1] then FindClass(metadata, std, r, name) else None
      {
        FindInEntered(before, res, classes, ClassName(std), r, name);
      }
    }

    method InitTablesForClass(clazz: MetadataClass)
      modifies this`tableStdMap, this`tableSysMap, this`tableListByClass, this`tablesInit
      ensures Cache() == Load(old(Cache()), metadata, clazz)
      ensures forall t | t in metadata.AllTables(clazz) && t.standardName != "" ::
                (clazz, t.standardName) in tableStdMap
                && tableStdMap[(clazz, t.standardName)].standardName == t.standardName
      ensures forall t | t in metadata.AllTables(clazz) && t.systemName != "" ::
                (clazz, t.systemName) in tableSysMap
                && tableSysMap[(clazz, t.systemName)].systemName == t.systemName
    {
      ghost var before := Cache();
      var tables := metadata.AllTables(clazz);
      var ourTables := [];
      for i := 0 to |tables|
        invariant tableStdMap == Entered(old(tableStdMap), clazz, tables[..i], TableName(true))
        invariant tableSysMap == Entered(old(tableSysMap), clazz, tables[..i], TableName(false))
        invariant ourTables == tables[..i]
        invariant tableListByClass == old(tableListByClass) && tablesInit == old(tablesInit)
      {
        var table := tables[i];
        EnteredOneMore(old(tableStdMap), clazz, tables, TableName(true), i);
        EnteredOneMore(old(tableSysMap), clazz, tables, TableName(false), i);
        if table.standardName != "" {
          tableStdMap := tableStdMap[(clazz, table.standardName) := table];
        }
        if table.systemName != "" {
          tableSysMap := tableSysMap[(clazz, table.systemName) := table];
        }
        ourTables := ourTables + [table];
      }
      assert tables[..|tables|] == tables;
      tableListByClass := tableListByClass[clazz := ourTables];
      tablesInit := tablesInit[clazz := true];
      forall t | t in tables
        ensures t.standardName != "" ==>
                  (clazz, t.standardName) in tableStdMap
                  && tableStdMap[(clazz, t.standardName)].standardName == t.standardName
        ensures t.systemName != "" ==>
                  (clazz, t.systemName) in tableSysMap
                  && tableSysMap[(clazz, t.systemName)].systemName == t.systemName
      {
        LoadEnters(before, metadata, clazz, t);
      }
    }

    /** A lookup in the naming mode given: what a scan of the class finds, whatever was loaded
        before. */
    method GetTableBy(clazz: MetadataClass, tableName: string, stdNames: bool) returns (table: Option<MetadataTable>)
      requires Valid()
      modifies this`tableStdMap, this`tableSysMap, this`tableListByClass, this`tablesInit
      ensures Valid()
      ensures Cache() == Ask(old(Cache()), metadata, TableQuery(clazz, tableName, stdNames)).0
      ensures table == FindTable(metadata, stdNames, clazz, tableName)
      ensures table.Some? ==>
                table.value in metadata.AllTables(clazz)
                && (if stdNames then table.value.standardName else table.value.systemName) == tableName
      ensures table.None? && tableName != "" ==>
                forall t | t in metadata.AllTables(clazz) ::
                  (if stdNames then t.standardName else t.systemName) != tableName
    {
      FoundTable(metadata, stdNames, clazz, tableName);
      AskIsScan(Cache(), metadata, TableQuery(clazz, tableName, stdNames));
      if !Cache().AreTablesInited(clazz) {
        InitTablesForClass(clazz);
      }
      var key := (clazz, tableName);
      table := None;
      if stdNames {
        if key in tableStdMap {
          table := Some(tableStdMap[key]);
        }
      } else if key in tableSysMap {
        table := Some(tableSysMap[key]);
      }
    }

    method GetTable(clazz: MetadataClass, tableName: string) returns (table: Option<MetadataTable>)
      requires Valid()
      modifies this`tableStdMap, this`tableSysMap, this`tableListByClass, this`tablesInit
      ensures Valid() && table == FindTable(metadata, standardNames, clazz, tableName)
      ensures table.Some? ==>
                table.value in metadata.AllTables(clazz)
                && (if standardNames then table.value.standardName else table.value.systemName) == tableName
      ensures table.None? && tableName != "" ==>
                forall t | t in metadata.AllTables(clazz) ::
                  (if standardNames then t.standardName else t.systemName) != tableName
    {
      FoundTable(metadata, standardNames, clazz, tableName);
      table := GetTableBy(clazz, tableName, standardNames);
    }

    /** Key fields are system names in either mode. */
    method GetKeyFieldTable(clazz: MetadataClass, keyField: string) returns (table: Option<MetadataTable>)
      requires Valid()
      modifies this`tableStdMap, this`tableSysMap, this`tableListByClass, this`tablesInit
      ensures Valid() && table == FindTable(metadata, false, clazz, keyField)
      ensures table.Some? ==> table.value in metadata.AllTables(clazz) && table.value.systemName == keyField
      ensures table.None? && keyField != "" ==> forall t | t in metadata.AllTables(clazz) :: t.systemName != keyField
    {
      FoundTable(metadata, false, clazz, keyField);
      table := GetTableBy(clazz, keyField, false);
    }

    method GetTablesForClass(clazz: MetadataClass) returns (tables: seq<MetadataTable>)
      requires Valid()
      modifies this`tableStdMap, this`tableSysMap, this`tableListByClass, this`tablesInit
      ensures Valid()
      ensures Cache() == Ask(old(Cache()), metadata, ListQuery(clazz)).0
      ensures tables == metadata.AllTables(clazz)
    {
      AskIsScan(Cache(), metadata, ListQuery(clazz));
      if !Cache().AreTablesInited(clazz) {
        InitTablesForClass(clazz);
      }
      if clazz !in tableListByClass {
        return [];
      }
      return tableListByClass[clazz];
    }

    function GetResource(resName: string): (res: Option<MetadataResource>)
      requires Valid()
      reads this
      ensures res == FindResource(metadata, standardNames, resName)
      ensures res.Some? ==>
                res.value in metadata.resources
                && (if standardNames then res.value.standardName else res.value.resourceID) == resName
      ensures res.None? && resName != "" ==>
                forall r | r in metadata.resources ::
                  (if standardNames then r.standardName else r.resourceID) != resName
    {
      FoundResource(metadata, standardNames, resName);
      assert metadata.resources[..|metadata.resources|] == metadata.resources;
      Find(if standardNames then resourceByStdName else resourceBySysName, resName)
    }

    function GetClass(resName: string, className: string): (clazz: Option<MetadataClass>)
      requires Valid()
      reads this
      ensures clazz == var res := FindResource(metadata, standardNames, resName);
                       if res.None? then None else FindClass(metadata, standardNames, res.value, className)
      ensures clazz.Some? ==> (if standardNames then clazz.value.standardName else clazz.value.className) == className
    {
      assert metadata.resources[..|metadata.resources|] == metadata.resources;
      var res := GetResource(resName);
      if res.None? then None
      else Find(if standardNames then classStdMap else classSysMap, (res.value, className))
    }

    method GetResourceClassPairBySQLTable(tableName: string)
      returns (pair: Option<(MetadataResource, MetadataClass)>)
      requires Valid()
      ensures pair == Resolve(metadata, standardNames, tableName)
      ensures pair.Some? ==>
                var parts, (r, c) := Split(tableName, ':'), pair.value;
                && |parts| >= 3 && r in metadata.resources && c in metadata.AllClasses(r.resourceID)
                && parts[1] == (if standardNames then r.standardName else r.resourceID)
                && parts[2] == (if standardNames then c.standardName else c.className)
    {
      if Resolve(metadata, standardNames, tableName).Some? {
        ResolvedNames(metadata, standardNames, tableName);
      }
      var parts := Split(tableName, ':');
      var resName, className := "", "";
      if |parts| > 1 {
        resName := parts[1];
        if |parts| > 2 {
          className := parts[2];
        }
      }
      pair := None;
      if resName != "" || className != "" {
        var res := GetResource(resName);
        var clazz := GetClass(resName, className);
        if res.Some? && clazz.Some? {
          pair := Some((res.value, clazz.value));
        }
      }
    }

    method GetResourceClassPairs() returns (pairs: seq<(MetadataResource, MetadataClass)>)
      ensures pairs == PairsOf(metadata, metadata.resources)
    {
      pairs := [];
      var resources := metadata.resources;
      for i := 0 to |resources|
        invariant pairs == PairsOf(metadata, resources[..i])
      {
        var res := resources[i];
        var classes := metadata.AllClasses(res.resourceID);
        ghost var before := pairs;
        for j := 0 to |classes|
          invariant pairs == before + PairsWith(res, classes[..j])
        {
          pairs := pairs + [(res, classes[j])];
        }
        assert classes[..|classes|] == classes && resources[..i + 1][..i] == resources[..i];
      }
      assert resources[..|resources|] == resources;
    }
  }

  function PairsWith(r: MetadataResource, classes: seq<MetadataClass>): (pairs: seq<(MetadataResource, MetadataClass)>)
    ensures |pairs| == |classes|
    ensures forall i | 0 <= i < |classes| :: pairs[i] == (r, classes[i])
  {
    seq(|classes|, i requires 0 <= i < |classes| => (r, classes[i]))
  }

  function PairsOf(m: RetsMetadata, resources: seq<MetadataResource>): seq<(MetadataResource, MetadataClass)> {
    if resources == [] then []
    else
      var last := resources[|resources| - 1];
      PairsOf(m, resources[..|resources| - 1]) + PairsWith(last, m.AllClasses(last.resourceID))
  }
}
