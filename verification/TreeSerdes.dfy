/**
 Flattening nested dictionaries to rows, naming the columns, and building the nested dictionary
 back by grouping consecutive rows (`flatten_tree`, `annotate_flat_tree`,
 `unflatten_annotated_tree`).
 */
module TreeSerdes {
  import opened Wrappers

  /** Dictionary keys and leaf values. */
  datatype Atom = Text(text: string) | Number(value: int) | List(items: seq<Atom>)

  /** `Nothing` is a None value. A dictionary keeps its insertion order. */
  datatype Tree = Leaf(value: Atom) | Nothing | Dict(entries: seq<Entry>)

  datatype Entry = Entry(key: Atom, value: Tree)

  type Row = seq<Atom>

  datatype Error = MissingFields(names: seq<string>) | TooManyLevels(cells: Row)

  // ----- Flattening -----

  function Prefixed(k: Atom, rows: seq<Row>): seq<Row> {
    seq(|rows|, i requires 0 <= i < |rows| => [k] + rows[i])
  }

  /** The rows of one entry, without its key. */
  function FlattenValue(t: Tree): seq<Row>
    decreases t, 1
  {
    match t
    case Leaf(x) => [[x]]
    case Nothing => []
    case Dict(entries) => FlattenTree(entries)
  }

  function FlattenEntry(e: Entry): seq<Row>
    decreases e, 2
  {
    Prefixed(e.key, FlattenValue(e.value))
  }

  function FlattenTree(entries: seq<Entry>): seq<Row>
    decreases entries, 0
  {
    if entries == [] then []
    else FlattenEntry(entries[0]) + FlattenTree(entries[1..])
  }

  // ----- Annotating -----

  function Zip(names: seq<string>, row: Row): map<string, Atom>
    requires |names| == |row|
  {
    if names == [] then map[]
    else Zip(names[..|names| - 1], row[..|row| - 1])[names[|names| - 1] := row[|row| - 1]]
  }

  function AnnotateRow(row: Row, names: seq<string>): Result<map<string, Atom>, Error> {
    if |names| > |row| then Failure(MissingFields(names[|row|..]))
    else if |names| < |row| then Failure(TooManyLevels(row[|names|..]))
    else Success(Zip(names, row))
  }

  function AnnotateFlatTree(rows: seq<Row>, names: seq<string>): Result<seq<map<string, Atom>>, Error> {
    if rows == [] then Success([])
    else
      match AnnotateRow(rows[0], names)
      case Failure(e) => Failure(e)
      case Success(m) =>
        match AnnotateFlatTree(rows[1..], names)
        case Failure(e) => Failure(e)
        case Success(ms) => Success([m] + ms)
  }

  // ----- Building back -----

  type Named = map<string, Atom>

  predicate HasFields(rows: seq<Named>, fields: seq<string>) {
    forall r, f | r in rows && f in fields :: f in r
  }

  /** `res[key] = value`. */
  function Assign(res: seq<Entry>, key: Atom, value: Tree): seq<Entry> {
    if res == [] then [Entry(key, value)]
    else if res[0].key == key then [Entry(key, value)] + res[1..]
    else [res[0]] + Assign(res[1..], key, value)
  }

  /** Length of the group of rows at the front that agree on a field. */
  function GroupLength(rows: seq<Named>, field: string): (n: nat)
    requires rows != [] && forall r | r in rows :: field in r
    ensures 1 <= n <= |rows|
    ensures forall i | 0 <= i < n :: rows[i] in rows && rows[i][field] == rows[0][field]
    ensures n < |rows| ==> rows[n] in rows && rows[n][field] != rows[0][field]
  {
    assert rows[0] in rows;
    if |rows| > 1 && (assert rows[1] in rows; rows[1][field] == rows[0][field])
    then
      assert rows[1..][0] == rows[1];
      1 + GroupLength(rows[1..], field)
    else 1
  }

  function LeafValues(rows: seq<Named>, field: string): seq<Atom>
    requires forall r | r in rows :: field in r
  {
    if rows == [] then []
    else
      assert rows[0] in rows;
      [rows[0][field]] + LeafValues(rows[1..], field)
  }

  function Unflatten(rows: seq<Named>, fields: seq<string>): Tree
    requires fields != [] && HasFields(rows, fields)
    decreases |fields|, |rows| + 1
  {
    if |fields| == 1 then
      var values := LeafValues(rows, fields[0]);
      Leaf(if |rows| == 1 then values[0] else List(values))
    else Dict(UnflattenGroups(rows, fields, []))
  }

  /** The groups still to come, added to `res`. */
  function UnflattenGroups(rows: seq<Named>, fields: seq<string>, res: seq<Entry>): seq<Entry>
    requires |fields| > 1 && HasFields(rows, fields)
    decreases |fields|, |rows|
  {
    if rows == [] then res
    else
      assert rows[0] in rows && fields[0] in fields;
      var n := GroupLength(rows, fields[0]);
      assert forall f | f in fields[1..] :: f in fields;
      UnflattenGroups(rows[n..], fields, Assign(res, rows[0][fields[0]], Unflatten(rows[..n], fields[1..])))
  }

  // ----- Trees that describe a table -----

  ghost predicate DistinctKeys(entries: seq<Entry>) {
    forall i, j | 0 <= i < j < |entries| :: entries[i].key != entries[j].key
  }

  /** A dictionary all of whose leaves are `depth` keys down; values may be missing. */
  ghost predicate Uniform(entries: seq<Entry>, depth: nat)
    decreases depth
  {
    && depth > 0
    && DistinctKeys(entries)
    && forall i | 0 <= i < |entries| :: UniformValue(entries[i].value, depth - 1)
  }

  ghost predicate UniformValue(t: Tree, depth: nat)
    decreases depth
  {
    match t
    case Nothing => true
    case Leaf(_) => depth == 0
    case Dict(entries) =>
      && depth > 0
      && DistinctKeys(entries)
      && forall i | 0 <= i < |entries| :: UniformValue(entries[i].value, depth - 1)
  }

  /** The tree without None values and without dictionaries that hold nothing. */
  function PruneValue(t: Tree): Option<Tree>
    decreases t, 1
  {
    match t
    case Leaf(_) => Some(t)
    case Nothing => None
    case Dict(entries) =>
      var kept := Prune(entries);
      if kept == [] then None else Some(Dict(kept))
  }

  function PruneEntry(e: Entry): seq<Entry>
    decreases e, 2
  {
    match PruneValue(e.value)
    case None => []
    case Some(v) => [Entry(e.key, v)]
  }

  function Prune(entries: seq<Entry>): seq<Entry>
    decreases entries, 0
  {
    if entries == [] then [] else PruneEntry(entries[0]) + Prune(entries[1..])
  }

  /** No None value and no empty dictionary below the top. */
  predicate Clean(entries: seq<Entry>)
    decreases entries, 0
  {
    entries == [] || (CleanEntry(entries[0]) && Clean(entries[1..]))
  }

  predicate CleanEntry(e: Entry)
    decreases e, 2
  {
    CleanValue(e.value)
  }

  predicate CleanValue(t: Tree)
    decreases t, 1
  {
    match t
    case Leaf(_) => true
    case Nothing => false
    case Dict(entries) => entries != [] && Clean(entries)
  }

  // ----- Rows -----

  ghost predicate RowsOfLength(rows: seq<Row>, n: nat) {
    forall r | r in rows :: |r| == n
  }

  lemma {:induction false} FlattenLength(t: Tree, depth: nat)
    requires UniformValue(t, depth)
    ensures RowsOfLength(FlattenValue(t), depth + 1)
    decreases depth, 0, 1
  {
    match t
    case Nothing =>
    case Leaf(_) =>
    case Dict(entries) => FlattenTreeLength(entries, depth);
  }

  lemma {:induction false} FlattenTreeLength(entries: seq<Entry>, depth: nat)
    requires depth > 0 && forall i | 0 <= i < |entries| :: UniformValue(entries[i].value, depth - 1)
    ensures RowsOfLength(FlattenTree(entries), depth + 1)
    decreases depth, 0, 0, |entries|
  {
    if entries != [] {
      FlattenLength(entries[0].value, depth - 1);
      var values := FlattenValue(entries[0].value);
      forall r | r in FlattenEntry(entries[0])
        ensures |r| == depth + 1
      {
        var i :| 0 <= i < |values| && FlattenEntry(entries[0])[i] == r;
        assert values[i] in values;
      }
      FlattenTreeLength(entries[1..], depth);
    }
  }

  /** Every row starts with the key of the entry it came from. */
  lemma {:induction false} RowKeys(entries: seq<Entry>, r: Row)
    requires r in FlattenTree(entries)
    ensures r != [] && exists i | 0 <= i < |entries| :: entries[i].key == r[0]
  {
    if r in FlattenEntry(entries[0]) {
    } else {
      RowKeys(entries[1..], r);
      var i :| 0 <= i < |entries[1..]| && entries[1..][i].key == r[0];
      assert entries[i + 1].key == r[0];
    }
  }

  lemma {:induction false} FlattenEmptyIff(t: Tree)
    ensures FlattenValue(t) == [] <==> PruneValue(t).None?
    decreases t, 1
  {
    if t.Dict? {
      FlattenTreeEmptyIff(t.entries);
    }
  }

  lemma {:induction false} FlattenEntryEmptyIff(e: Entry)
    ensures FlattenEntry(e) == [] <==> PruneEntry(e) == []
    decreases e, 2
  {
    FlattenEmptyIff(e.value);
    assert |FlattenEntry(e)| == |FlattenValue(e.value)|;
  }

  lemma {:induction false} FlattenTreeEmptyIff(entries: seq<Entry>)
    ensures FlattenTree(entries) == [] <==> Prune(entries) == []
    decreases entries, 0
  {
    if entries != [] {
      FlattenEntryEmptyIff(entries[0]);
      FlattenTreeEmptyIff(entries[1..]);
    }
  }

  // ----- Named rows -----

  ghost predicate DistinctNames(names: seq<string>) {
    forall i, j | 0 <= i < j < |names| :: names[i] != names[j]
  }

  ghost predicate Agrees(m: Named, row: Row, fields: seq<string>) {
    |row| == |fields| && forall j | 0 <= j < |fields| :: fields[j] in m && m[fields[j]] == row[j]
  }

  ghost predicate AllAgree(ms: seq<Named>, rows: seq<Row>, fields: seq<string>) {
    |ms| == |rows| && forall i | 0 <= i < |ms| :: Agrees(ms[i], rows[i], fields)
  }

  lemma {:induction false} ZipAgrees(names: seq<string>, row: Row)
    requires |names| == |row| && DistinctNames(names)
    ensures Agrees(Zip(names, row), row, names)
  {
    if names != [] {
      ZipAgrees(names[..|names| - 1], row[..|row| - 1]);
    }
  }

  lemma {:induction false} AnnotateAgrees(rows: seq<Row>, names: seq<string>)
    requires RowsOfLength(rows, |names|) && DistinctNames(names)
    ensures AnnotateFlatTree(rows, names).Success?
    ensures AllAgree(AnnotateFlatTree(rows, names).value, rows, names)
  {
    if rows != [] {
      assert rows[0] in rows;
      AnnotateAgrees(rows[1..], names);
      ZipAgrees(names, rows[0]);
      var ms := AnnotateFlatTree(rows, names).value;
      forall i | 0 <= i < |ms|
        ensures Agrees(ms[i], rows[i], names)
      {
        assert i > 0 ==> ms[i] == ms[1..][i - 1] && rows[i] == rows[1..][i - 1];
      }
    }
  }

  lemma AgreeHasFields(ms: seq<Named>, rows: seq<Row>, fields: seq<string>)
    requires AllAgree(ms, rows, fields)
    ensures HasFields(ms, fields)
  {
  }

  lemma {:induction false} GroupIs(ms: seq<Named>, field: string, n: nat)
    requires ms != [] && forall r | r in ms :: field in r
    requires 1 <= n <= |ms|
    requires forall i | 0 <= i < n :: ms[i] in ms && ms[i][field] == ms[0][field]
    requires n < |ms| ==> ms[n] in ms && ms[n][field] != ms[0][field]
    ensures GroupLength(ms, field) == n
  {
    if n > 1 {
      assert ms[1] in ms && ms[1..][0] == ms[1];
      forall i | 0 <= i < n - 1
        ensures ms[1..][i] in ms[1..] && ms[1..][i][field] == ms[1..][0][field]
      {
        assert ms[1..][i] == ms[i + 1];
      }
      assert n < |ms| ==> ms[1..][n - 1] == ms[n];
      GroupIs(ms[1..], field, n - 1);
    }
  }

  lemma {:induction false} AssignNew(res: seq<Entry>, key: Atom, value: Tree)
    requires forall i | 0 <= i < |res| :: res[i].key != key
    ensures Assign(res, key, value) == res + [Entry(key, value)]
  {
    if res != [] {
      AssignNew(res[1..], key, value);
    }
  }

  // ----- The round trip -----

  lemma RebuildLeaf(x: Atom, ms: seq<Named>, fields: seq<string>)
    requires |fields| == 1 && HasFields(ms, fields) && AllAgree(ms, FlattenValue(Leaf(x)), fields)
    ensures Unflatten(ms, fields) == Leaf(x)
  {
    assert Agrees(ms[0], [x], fields);
    assert fields == [fields[0]] && LeafValues(ms, fields[0])[0] == x;
  }

  lemma {:induction false} RebuildValue(t: Tree, depth: nat, ms: seq<Named>, fields: seq<string>)
    requires UniformValue(t, depth) && |fields| == depth + 1
    requires FlattenValue(t) != [] && AllAgree(ms, FlattenValue(t), fields)
    ensures HasFields(ms, fields) && Some(Unflatten(ms, fields)) == PruneValue(t)
    decreases depth, 1, 0
  {
    AgreeHasFields(ms, FlattenValue(t), fields);
    FlattenEmptyIff(t);
    match t
    case Leaf(x) =>
      RebuildLeaf(x, ms, fields);
    case Dict(entries) =>
      RebuildEntries(entries, depth, ms, fields, []);
      UnflattenDict(ms, fields, Prune(entries));
  }

  lemma UnflattenDict(ms: seq<Named>, fields: seq<string>, kept: seq<Entry>)
    requires |fields| > 1 && HasFields(ms, fields) && UnflattenGroups(ms, fields, []) == [] + kept
    ensures Unflatten(ms, fields) == Dict(kept)
  {
    assert [] + kept == kept;
  }

  lemma SplitAgrees(ms: seq<Named>, first: seq<Row>, rest: seq<Row>, fields: seq<string>)
    requires AllAgree(ms, first + rest, fields)
    ensures AllAgree(ms[..|first|], first, fields) && AllAgree(ms[|first|..], rest, fields)
  {
    forall i | 0 <= i < |first|
      ensures Agrees(ms[i], first[i], fields)
    {
      assert (first + rest)[i] == first[i];
    }
    forall i | 0 <= i < |rest|
      ensures Agrees(ms[|first| + i], rest[i], fields)
    {
      assert (first + rest)[|first| + i] == rest[i];
    }
  }

  /** A row that starts with a key agrees with the rest of it on the other fields. */
  lemma AgreesBelow(m: Named, key: Atom, row: Row, fields: seq<string>)
    requires fields != [] && Agrees(m, [key] + row, fields)
    ensures fields[0] in m && m[fields[0]] == key && Agrees(m, row, fields[1..])
  {
    assert ([key] + row)[0] == key;
    forall j | 0 <= j < |fields| - 1
      ensures fields[1..][j] in m && m[fields[1..][j]] == row[j]
    {
      assert fields[1..][j] == fields[j + 1] && ([key] + row)[j + 1] == row[j];
    }
  }

  lemma AllAgreeBelow(ms: seq<Named>, key: Atom, rows: seq<Row>, fields: seq<string>)
    requires fields != [] && AllAgree(ms, Prefixed(key, rows), fields)
    ensures forall i | 0 <= i < |ms| :: fields[0] in ms[i] && ms[i][fields[0]] == key
    ensures AllAgree(ms, rows, fields[1..])
  {
    forall i | 0 <= i < |ms|
      ensures fields[0] in ms[i] && ms[i][fields[0]] == key && Agrees(ms[i], rows[i], fields[1..])
    {
      AgreesBelow(ms[i], key, rows[i], fields);
    }
  }

  /** No row of other entries has the key. */
  lemma OtherKey(entries: seq<Entry>, m: Named, row: Row, fields: seq<string>)
    requires entries != [] && DistinctKeys(entries) && fields != []
    requires row in FlattenTree(entries[1..]) && Agrees(m, row, fields)
    ensures fields[0] in m && m[fields[0]] != entries[0].key
  {
    RowKeys(entries[1..], row);
  }

  /** The group of the first entry is exactly its rows. */
  lemma FirstGroup(entries: seq<Entry>, ms: seq<Named>, fields: seq<string>)
    requires entries != [] && DistinctKeys(entries) && fields != []
    requires AllAgree(ms, FlattenTree(entries), fields)
    requires FlattenEntry(entries[0]) != []
    ensures HasFields(ms, fields) && ms != [] && fields[0] in ms[0]
    ensures GroupLength(ms, fields[0]) == |FlattenEntry(entries[0])| && ms[0][fields[0]] == entries[0].key
    ensures AllAgree(ms[..|FlattenEntry(entries[0])|], FlattenValue(entries[0].value), fields[1..])
    ensures AllAgree(ms[|FlattenEntry(entries[0])|..], FlattenTree(entries[1..]), fields)
  {
    var block, rest := FlattenEntry(entries[0]), FlattenTree(entries[1..]);
    var n := |block|;
    AgreeHasFields(ms, FlattenTree(entries), fields);
    SplitAgrees(ms, block, rest, fields);
    AllAgreeBelow(ms[..n], entries[0].key, FlattenValue(entries[0].value), fields);
    forall i | 0 <= i < n
      ensures ms[i] in ms && ms[i][fields[0]] == entries[0].key
    {
      assert ms[i] == ms[..n][i];
    }
    if n < |ms| {
      assert ms[n] == ms[n..][0] && Agrees(ms[n..][0], rest[0], fields);
      OtherKey(entries, ms[n], rest[0], fields);
    }
    GroupIs(ms, fields[0], n);
  }

  ghost predicate NewKeys(entries: seq<Entry>, res: seq<Entry>) {
    forall i, j | 0 <= i < |entries| && 0 <= j < |res| :: entries[i].key != res[j].key
  }

  ghost predicate UniformEntries(entries: seq<Entry>, depth: nat) {
    forall i | 0 <= i < |entries| :: UniformValue(entries[i].value, depth)
  }

  lemma EntriesTail(entries: seq<Entry>, depth: nat, res: seq<Entry>, value: Tree)
    requires entries != [] && DistinctKeys(entries) && UniformEntries(entries, depth) && NewKeys(entries, res)
    ensures DistinctKeys(entries[1..]) && UniformEntries(entries[1..], depth) && NewKeys(entries[1..], res)
    ensures NewKeys(entries[1..], res + [Entry(entries[0].key, value)])
    ensures Assign(res, entries[0].key, value) == res + [Entry(entries[0].key, value)]
  {
    AssignNew(res, entries[0].key, value);
  }

  lemma GroupStep(ms: seq<Named>, fields: seq<string>, res: seq<Entry>, n: nat, value: Tree)
    requires |fields| > 1 && HasFields(ms, fields) && ms != [] && fields[0] in ms[0]
    requires GroupLength(ms, fields[0]) == n
    requires HasFields(ms[..n], fields[1..]) && Unflatten(ms[..n], fields[1..]) == value
    ensures HasFields(ms[n..], fields)
    ensures UnflattenGroups(ms, fields, res) == UnflattenGroups(ms[n..], fields, Assign(res, ms[0][fields[0]], value))
  {
  }

  /** An entry that flattens to no rows leaves no trace. */
  lemma SkipEntry(entries: seq<Entry>)
    requires entries != [] && FlattenEntry(entries[0]) == []
    ensures FlattenTree(entries) == FlattenTree(entries[1..]) && Prune(entries) == Prune(entries[1..])
  {
    FlattenEntryEmptyIff(entries[0]);
  }

  lemma TakeEntry(entries: seq<Entry>, res: seq<Entry>)
    requires entries != [] && FlattenEntry(entries[0]) != []
    ensures FlattenValue(entries[0].value) != [] && PruneValue(entries[0].value).Some?
    ensures
      var e := Entry(entries[0].key, PruneValue(entries[0].value).value);
      res + [e] + Prune(entries[1..]) == res + Prune(entries)
  {
    FlattenEmptyIff(entries[0].value);
    FlattenEntryEmptyIff(entries[0]);
  }

  lemma {:induction false} RebuildEntries(entries: seq<Entry>, depth: nat, ms: seq<Named>, fields: seq<string>,
                                          res: seq<Entry>)
    requires depth > 0 && |fields| == depth + 1
    requires DistinctKeys(entries) && UniformEntries(entries, depth - 1) && NewKeys(entries, res)
    requires AllAgree(ms, FlattenTree(entries), fields)
    ensures HasFields(ms, fields) && UnflattenGroups(ms, fields, res) == res + Prune(entries)
    decreases depth, 0, |entries|
  {
    AgreeHasFields(ms, FlattenTree(entries), fields);
    if entries != [] {
      if FlattenEntry(entries[0]) == [] {
        SkipEntry(entries);
        EntriesTail(entries, depth - 1, res, Nothing);
        RebuildEntries(entries[1..], depth, ms, fields, res);
      } else {
        RebuildFirst(entries, depth, ms, fields, res);
      }
    }
  }

  lemma {:induction false} RebuildFirst(entries: seq<Entry>, depth: nat, ms: seq<Named>, fields: seq<string>,
                                        res: seq<Entry>)
    requires depth > 0 && |fields| == depth + 1 && entries != [] && FlattenEntry(entries[0]) != []
    requires DistinctKeys(entries) && UniformEntries(entries, depth - 1) && NewKeys(entries, res)
    requires AllAgree(ms, FlattenTree(entries), fields)
    ensures HasFields(ms, fields) && UnflattenGroups(ms, fields, res) == res + Prune(entries)
    decreases depth, 0, |entries|, 0
  {
    TakeEntry(entries, res);
    FirstGroup(entries, ms, fields);
    var e, n := entries[0], |FlattenEntry(entries[0])|;
    RebuildValue(e.value, depth - 1, ms[..n], fields[1..]);
    var value := PruneValue(e.value).value;
    EntriesTail(entries, depth - 1, res, value);
    GroupStep(ms, fields, res, n, value);
    RebuildEntries(entries[1..], depth, ms[n..], fields, res + [Entry(e.key, value)]);
  }

  lemma {:induction false} PruneValueIff(t: Tree)
    ensures PruneValue(t) == Some(t) <==> CleanValue(t)
    decreases t, 1
  {
    if t.Dict? {
      PruneIff(t.entries);
    }
  }

  lemma {:induction false} PruneEntryIff(e: Entry)
    ensures PruneEntry(e) == [e] <==> CleanEntry(e)
    ensures |PruneEntry(e)| <= 1
    decreases e, 2
  {
    PruneValueIff(e.value);
    if PruneEntry(e) == [e] {
      assert PruneEntry(e)[0] == e;
    }
  }

  lemma {:induction false} PruneIff(entries: seq<Entry>)
    ensures Prune(entries) == entries <==> Clean(entries)
    ensures |Prune(entries)| <= |entries|
    decreases entries, 0
  {
    if entries != [] {
      PruneEntryIff(entries[0]);
      PruneIff(entries[1..]);
      assert entries == [entries[0]] + entries[1..];
      if Prune(entries) == entries {
        assert |PruneEntry(entries[0])| == 1;
        assert Prune(entries)[0] == PruneEntry(entries[0])[0];
        assert Prune(entries)[1..] == Prune(entries[1..]);
      }
    }
  }

  /**
   For every dictionary whose leaves are all equally deep, flattening, naming and building back
   gives the dictionary without its None values and empty branches, so it gives the same
   dictionary exactly when there are none.
   */
  lemma {:induction false} RoundTripIff(entries: seq<Entry>, depth: nat, names: seq<string>)
    requires Uniform(entries, depth) && |names| == depth + 1 && DistinctNames(names)
    ensures
      var annotated := AnnotateFlatTree(FlattenTree(entries), names);
      && annotated.Success? && HasFields(annotated.value, names)
      && Unflatten(annotated.value, names) == Dict(Prune(entries))
      && (Unflatten(annotated.value, names) == Dict(entries) <==> Clean(entries))
  {
    FlattenTreeLength(entries, depth);
    AnnotateAgrees(FlattenTree(entries), names);
    var annotated := AnnotateFlatTree(FlattenTree(entries), names).value;
    RebuildEntries(entries, depth, annotated, names, []);
    assert Unflatten(annotated, names) == Dict(Prune(entries));
    PruneIff(entries);
  }

  // ----- The grouping loop of the source -----

  /** A dictionary that holds an empty one comes back empty. */
  lemma EmptyDictionaryExample()
    ensures
      var entries, names := [Entry(Text("a"), Dict([]))], ["x", "y", "z"];
      && Uniform(entries, 2) && DistinctNames(names) && HasFields([], names)
      && FlattenTree(entries) == [] && Unflatten([], names) == Dict([]) != Dict(entries)
  {
    var e := Entry(Text("a"), Dict([]));
    assert FlattenValue(Dict([])) == [] && FlattenEntry(e) == [];
    assert [e][1..] == [];
    assert UniformValue(Dict([]), 1);
  }

  // ----- Any trees -----

  /** The row leads from the top of the tree to one of its leaves. */
  ghost predicate IsPath(t: Tree, r: Row)
    decreases t
  {
    match t
    case Leaf(x) => r == [x]
    case Nothing => false
    case Dict(entries) =>
      r != [] && exists i | 0 <= i < |entries| :: entries[i].key == r[0] && IsPath(entries[i].value, r[1..])
  }

  /** The rows of a tree are its paths, whatever its shape. */
  lemma {:induction false} RowsArePaths(t: Tree, r: Row)
    ensures r in FlattenValue(t) <==> IsPath(t, r)
    decreases t, 1
  {
    match t
    case Dict(entries) => TreeRowsArePaths(entries, r);
    case _ =>
  }

  lemma {:induction false} EntryRowsArePaths(e: Entry, r: Row)
    ensures r in FlattenEntry(e) <==> r != [] && e.key == r[0] && IsPath(e.value, r[1..])
    decreases e, 2
  {
    PrefixedRows(e.key, FlattenValue(e.value), r);
    if r != [] {
      RowsArePaths(e.value, r[1..]);
    }
  }

  lemma {:induction false} TreeRowsArePaths(entries: seq<Entry>, r: Row)
    ensures r in FlattenTree(entries) <==>
            r != [] && exists i | 0 <= i < |entries| :: entries[i].key == r[0] && IsPath(entries[i].value, r[1..])
    decreases entries, 0
  {
    if entries != [] {
      var more := entries[1..];
      EntryRowsArePaths(entries[0], r);
      TreeRowsArePaths(more, r);
      assert forall i | 0 <= i < |more| :: more[i] == entries[i + 1];
    }
  }

  lemma PrefixedRows(k: Atom, rows: seq<Row>, r: Row)
    ensures r in Prefixed(k, rows) <==> r != [] && r[0] == k && r[1..] in rows
  {
    if r != [] && r[0] == k && r[1..] in rows {
      var i :| 0 <= i < |rows| && rows[i] == r[1..];
      assert Prefixed(k, rows)[i] == r;
    }
  }

  // ----- Any rows, in any order -----

  /** Rows are annotated iff each has a cell for every name; the first that has not decides the error. */
  lemma {:induction false} AnnotateIff(rows: seq<Row>, names: seq<string>)
    ensures AnnotateFlatTree(rows, names).Success? <==> forall r | r in rows :: |r| == |names|
    ensures AnnotateFlatTree(rows, names).Failure? ==>
              exists i | 0 <= i < |rows| ::
                && |rows[i]| != |names| && (forall j | 0 <= j < i :: |rows[j]| == |names|)
                && AnnotateFlatTree(rows, names) ==
                   Failure(if |rows[i]| < |names| then MissingFields(names[|rows[i]|..])
                           else TooManyLevels(rows[i][|names|..]))
  {
    if rows != [] {
      AnnotateIff(rows[1..], names);
      assert forall r :: r in rows <==> r == rows[0] || r in rows[1..];
      if |rows[0]| == |names| && AnnotateFlatTree(rows[1..], names).Failure? {
        var i :| 0 <= i < |rows[1..]| && |rows[1..][i]| != |names|
                 && (forall j | 0 <= j < i :: |rows[1..][j]| == |names|)
                 && AnnotateFlatTree(rows[1..], names) ==
                    Failure(if |rows[1..][i]| < |names| then MissingFields(names[|rows[1..][i]|..])
                            else TooManyLevels(rows[1..][i][|names|..]));
        assert rows[i + 1] == rows[1..][i];
        forall j | 0 <= j < i + 1
          ensures |rows[j]| == |names|
        {
          assert j > 0 ==> rows[j] == rows[1..][j - 1];
        }
      }
    }
  }

  lemma {:induction false} LeafValuesAre(rows: seq<Named>, field: string)
    requires forall r | r in rows :: field in r
    ensures |LeafValues(rows, field)| == |rows|
    ensures forall i | 0 <= i < |rows| :: rows[i] in rows && LeafValues(rows, field)[i] == rows[i][field]
  {
    if rows != [] {
      LeafValuesAre(rows[1..], field);
    }
  }

  /** At the last field a single row gives its value, and several rows the list of theirs, in order. */
  lemma UnflattenLeaf(rows: seq<Named>, field: string)
    requires HasFields(rows, [field])
    ensures forall r | r in rows :: field in r
    ensures
      match Unflatten(rows, [field])
      case Leaf(List(values)) =>
        if |rows| == 1 then rows[0] in rows && rows[0][field] == List(values)
        else |values| == |rows| && forall i | 0 <= i < |rows| :: rows[i] in rows && values[i] == rows[i][field]
      case Leaf(value) => |rows| == 1 && rows[0] in rows && value == rows[0][field]
      case _ => false
  {
    assert field in [field];
    LeafValuesAre(rows, field);
  }

  /** The value of a key. */
  function Lookup(entries: seq<Entry>, key: Atom): Option<Tree> {
    if entries == [] then None
    else if entries[0].key == key then Some(entries[0].value)
    else Lookup(entries[1..], key)
  }

  lemma {:induction false} LookupAssign(res: seq<Entry>, key: Atom, value: Tree, other: Atom)
    ensures Lookup(Assign(res, key, value), other) == if other == key then Some(value) else Lookup(res, other)
  {
    if res != [] && res[0].key != key {
      LookupAssign(res[1..], key, value, other);
    }
  }

  /** The first group of the rows, and what is left of them. */
  lemma FirstRun(rows: seq<Named>, fields: seq<string>) returns (n: nat)
    requires |fields| > 1 && HasFields(rows, fields) && rows != []
    ensures 1 <= n <= |rows| && rows[0] in rows && fields[0] in rows[0] && HasFields(rows[n..], fields)
    ensures HasFields(rows[..n], fields[1..])
    ensures forall i | 0 <= i < n :: rows[i] in rows && rows[i][fields[0]] == rows[0][fields[0]]
    ensures n < |rows| ==> rows[n] in rows && rows[n][fields[0]] != rows[0][fields[0]]
    ensures forall res ::
              UnflattenGroups(rows, fields, res) ==
              UnflattenGroups(rows[n..], fields, Assign(res, rows[0][fields[0]], Unflatten(rows[..n], fields[1..])))
  {
    assert rows[0] in rows && fields[0] in fields;
    assert forall f | f in fields[1..] :: f in fields;
    n := GroupLength(rows, fields[0]);
  }

  ghost predicate KeysAre(rows: seq<Named>, field: string, key: Atom) {
    forall r | r in rows :: field in r && r[field] == key
  }

  ghost predicate NoKeyIs(rows: seq<Named>, field: string, key: Atom) {
    forall r | r in rows :: field in r && r[field] != key
  }

  lemma {:induction false} OtherKeysStay(rows: seq<Named>, fields: seq<string>, res: seq<Entry>, key: Atom)
    requires |fields| > 1 && HasFields(rows, fields) && NoKeyIs(rows, fields[0], key)
    ensures Lookup(UnflattenGroups(rows, fields, res), key) == Lookup(res, key)
    decreases |rows|
  {
    if rows != [] {
      var n := FirstRun(rows, fields);
      var value := Unflatten(rows[..n], fields[1..]);
      LookupAssign(res, rows[0][fields[0]], value, key);
      OtherKeysStay(rows[n..], fields, Assign(res, rows[0][fields[0]], value), key);
    }
  }

  lemma RunFirst(run: seq<Named>, after: seq<Named>, fields: seq<string>, key: Atom, res: seq<Entry>)
    requires |fields| > 1 && HasFields(run + after, fields)
    requires run != [] && KeysAre(run, fields[0], key) && NoKeyIs(after, fields[0], key)
    ensures HasFields(run, fields[1..])
    ensures Lookup(UnflattenGroups(run + after, fields, res), key) == Some(Unflatten(run, fields[1..]))
  {
    var rows := run + after;
    var n := FirstRun(rows, fields);
    assert rows[0] == run[0] && run[0] in run;
    RunIsFirst(run, after, fields[0], key, n);
    assert rows[..n] == run && rows[n..] == after;
    var value := Unflatten(run, fields[1..]);
    LookupAssign(res, key, value, key);
    OtherKeysStay(after, fields, Assign(res, key, value), key);
  }

  /** A group of rows before a run of another key ends where the run starts, if not earlier. */
  lemma GroupStaysBefore(before: seq<Named>, run: seq<Named>, after: seq<Named>, field: string, key: Atom, n: nat)
    requires before != [] && run != [] && KeysAre(run, field, key) && n <= |before + run + after|
    requires field in before[|before| - 1] && before[|before| - 1][field] != key
    requires
      var rows := before + run + after;
      field in rows[0] && forall i | 0 <= i < n :: field in rows[i] && rows[i][field] == rows[0][field]
    ensures n <= |before|
    ensures n <= |before| ==> (before + run + after)[n..] == before[n..] + run + after
  {
    var rows := before + run + after;
    assert rows[|before| - 1] == before[|before| - 1];
    assert rows[|before|] == run[0] && run[0] in run;
  }

  /**
   A key has the value that the last run of consecutive rows with that key unflattens to: rows of one
   key are taken together only if they are next to each other, and a later run replaces an earlier one.
   */
  lemma {:induction false} LastRunWins(before: seq<Named>, run: seq<Named>, after: seq<Named>, fields: seq<string>,
                                       key: Atom, res: seq<Entry>)
    requires |fields| > 1 && HasFields(before + run + after, fields)
    requires run != [] && KeysAre(run, fields[0], key) && NoKeyIs(after, fields[0], key)
    requires before != [] ==> fields[0] in before[|before| - 1] && before[|before| - 1][fields[0]] != key
    ensures HasFields(run, fields[1..])
    ensures Lookup(UnflattenGroups(before + run + after, fields, res), key) == Some(Unflatten(run, fields[1..]))
    decreases |before|
  {
    if before == [] {
      assert before + run + after == run + after;
      RunFirst(run, after, fields, key, res);
    } else {
      var rows := before + run + after;
      var n := FirstRun(rows, fields);
      GroupStaysBefore(before, run, after, fields[0], key, n);
      LastRunWins(before[n..], run, after, fields, key,
                  Assign(res, rows[0][fields[0]], Unflatten(rows[..n], fields[1..])));
    }
  }

  lemma RunIsFirst(run: seq<Named>, after: seq<Named>, field: string, key: Atom, n: nat)
    requires run != [] && KeysAre(run, field, key) && NoKeyIs(after, field, key)
    requires 1 <= n <= |run + after|
    requires forall i | 0 <= i < n :: field in (run + after)[i] && (run + after)[i][field] == key
    requires n < |run + after| ==> field in (run + after)[n] && (run + after)[n][field] != key
    ensures n == |run|
  {
    var rows := run + after;
    forall i | 0 <= i < |rows|
      ensures field in rows[i] && (rows[i][field] == key <==> i < |run|)
    {
      if i < |run| {
        assert rows[i] == run[i] && run[i] in run;
      } else {
        assert rows[i] == after[i - |run|] && after[i - |run|] in after;
      }
    }
    assert rows[n - 1][field] == key;
    assert n < |rows| ==> rows[n][field] != key;
  }

  // ----- The loop of the source -----

  method UnflattenAnnotatedTree(rows: seq<Named>, fields: seq<string>) returns (t: Tree)
    requires fields != [] && HasFields(rows, fields)
    ensures t == Unflatten(rows, fields)
    decreases |fields|
  {
    if |fields| == 1 {
      var values := LeafValues(rows, fields[0]);
      if |rows| == 1 {
        return Leaf(values[0]);
      }
      return Leaf(List(values));
    }
    var res: seq<Entry> := [];
    var left := rows;
    while left != []
      invariant HasFields(left, fields)
      invariant Dict(UnflattenGroups(left, fields, res)) == Unflatten(rows, fields)
      decreases |left|
    {
      assert left[0] in left && fields[0] in fields;
      assert forall f | f in fields[1..] :: f in fields;
      var n := GroupLength(left, fields[0]);
      var key := left[0][fields[0]];
      var group := UnflattenAnnotatedTree(left[..n], fields[1..]);
      res := Assign(res, key, group);
      left := left[n..];
    }
    return Dict(res);
  }
}
