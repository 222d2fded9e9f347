/**
 * The data layer: turning the lines of the edges and nodes files into
 * vertices and edges of the graph, and the facades that start the TSP
 * routines.  Opening files is a parameter mapping a path to its lines (or
 * None when the file cannot be opened); `std::stoi` and `std::stod` are
 * parameters returning None where they would throw.
 */
module Data {
  import opened Graph
  import TSP
  import Prim

  /** `std::stoi`: the int a field denotes, or None where it throws. */
  type Stoi = string -> Option<int>
  /** `std::stod`: the double a field denotes, or None where it throws. */
  type Stod = string -> Option<real>
  /** The lines `std::getline` reads from the file at a path, or None when it cannot be opened. */
  type Files = string -> Option<seq<string>>

  /** One accepted line of the edges file. */
  datatype EdgeRecord = EdgeRecord(origin: int, dest: int, distance: real)
  /** One accepted line of the nodes file. */
  datatype NodeRecord = NodeRecord(id: int, longitude: real, latitude: real)

  /** How `Data::readFiles` ends: normally, or with the runtime_error it throws. */
  datatype LoadResult = Loaded | Failed(message: string)

  const MissingFiles: string := "Invalid input. Some files are missing in the given path."
  const NodesOpenError: string := "Error opening the nodes file."
  const EdgesOpenError: string := "Error opening the edges file."

  // ---------------------------------------------------------------------
  // One line
  // ---------------------------------------------------------------------

  /** The erase-remove of '\r': the line without its carriage returns, every other character kept. */
  function RemoveCR(s: string): (r: string)
    ensures '\r' !in r
    ensures forall c :: c != '\r' ==> (c in r <==> c in s)
    decreases |s|
  {
    if |s| == 0 then []
    else
      assert forall c :: c in s <==> c == s[0] || c in s[1..];
      (if s[0] == '\r' then [] else [s[0]]) + RemoveCR(s[1..])
  }

  /** Removing carriage returns works piecewise, so the order of the other characters is kept. */
  lemma {:induction false} RemoveCRAppend(a: string, b: string)
    ensures RemoveCR(a + b) == RemoveCR(a) + RemoveCR(b)
    decreases |a|
  {
    if |a| == 0 {
      assert a + b == b;
    } else {
      assert (a + b)[0] == a[0] && (a + b)[1..] == a[1..] + b;
      RemoveCRAppend(a[1..], b);
      var h: string := if a[0] == '\r' then [] else [a[0]];
      assert RemoveCR(a + b) == h + (RemoveCR(a[1..]) + RemoveCR(b));
      assert RemoveCR(a) == h + RemoveCR(a[1..]);
    }
  }

  /** A run of carriage returns disappears entirely. */
  lemma {:induction false} RemoveCRAll(cr: string)
    requires forall i :: 0 <= i < |cr| ==> cr[i] == '\r'
    ensures RemoveCR(cr) == []
    decreases |cr|
  {
    if |cr| > 0 {
      RemoveCRAll(cr[1..]);
    }
  }

  /** A line without carriage returns is left as it is. */
  lemma {:induction false} RemoveCRNone(s: string)
    requires '\r' !in s
    ensures RemoveCR(s) == s
    decreases |s|
  {
    if |s| > 0 {
      RemoveCRNone(s[1..]);
    }
  }

  /**
   * `std::getline(ss, field, ',')`: the characters up to the first comma,
   * and what follows that comma; without a comma, all of it and nothing
   * left (a stream already exhausted yields the empty field).
   */
  function NextField(s: string): (r: (string, string))
    ensures ',' !in r.0
    ensures ',' in s ==> s == r.0 + [','] + r.1
    ensures ',' !in s ==> r == (s, [])
    decreases |s|
  {
    if |s| == 0 then ([], [])
    else if s[0] == ',' then ([], s[1..])
    else
      var t := NextField(s[1..]);
      assert s == [s[0]] + s[1..];
      ([s[0]] + t.0, t.1)
  }

  /** The three leading comma-separated fields of a line; further fields are ignored. */
  function Fields3(line: string): (r: (string, string, string))
    ensures ',' !in r.0 && ',' !in r.1 && ',' !in r.2
    ensures |r.0| + |r.1| + |r.2| <= |line|
  {
    var (a, r1) := NextField(line);
    var (b, r2) := NextField(r1);
    var (c, _) := NextField(r2);
    (a, b, c)
  }

  /** Splitting a field off the front of a joined line gives back that field and the rest. */
  lemma {:induction false} NextFieldJoin(f: string, rest: string)
    requires ',' !in f
    ensures NextField(f + [','] + rest) == (f, rest)
    decreases |f|
  {
    var s := f + [','] + rest;
    if |f| == 0 {
      assert s == [','] + rest;
    } else {
      assert s[0] == f[0] && s[1..] == f[1..] + [','] + rest;
      NextFieldJoin(f[1..], rest);
      assert [f[0]] + f[1..] == f;
    }
  }

  /** A joined line splits back into its three fields, whatever further fields follow. */
  lemma Fields3Join(a: string, b: string, c: string, t: string)
    requires ',' !in a && ',' !in b && ',' !in c
    requires t == [] || t[0] == ','
    ensures Fields3(a + [','] + b + [','] + c + t) == (a, b, c)
  {
    var s2 := c + t;
    var s1 := b + [','] + s2;
    var s := a + [','] + b + [','] + c + t;
    assert s == a + [','] + s1;
    assert NextField(s) == (a, s1) by {
      NextFieldJoin(a, s1);
    }
    assert NextField(s1) == (b, s2) by {
      NextFieldJoin(b, s2);
    }
    assert NextField(s2).0 == c by {
      if t != [] {
        assert s2 == c + [','] + t[1..];
        NextFieldJoin(c, t[1..]);
      } else {
        assert s2 == c;
      }
    }
  }

  /**
   * The per-line rule of `Data::readEdgesFile`: carriage returns removed,
   * three fields split off, the line skipped when a field is empty or does
   * not convert.
   */
  function ParseEdgeLine(line: string, stoi: Stoi, stod: Stod): Option<EdgeRecord>
  {
    var (a, b, c) := Fields3(RemoveCR(line));
    if a == [] || b == [] || c == [] then None
    else
      match (stoi(a), stoi(b), stod(c))
      case (Some(o), Some(d), Some(w)) => Some(EdgeRecord(o, d, w))
      case _ => None
  }

  /** The per-line rule of `Data::readNodesFile`: as for edges, with an id and two coordinates. */
  function ParseNodeLine(line: string, stoi: Stoi, stod: Stod): Option<NodeRecord>
  {
    var (a, b, c) := Fields3(RemoveCR(line));
    if a == [] || b == [] || c == [] then None
    else
      match (stoi(a), stod(b), stod(c))
      case (Some(i), Some(lon), Some(lat)) => Some(NodeRecord(i, lon, lat))
      case _ => None
  }

  /**
   * A line made of three non-empty fields, any further fields and any
   * carriage returns in place of its line ending is accepted exactly when
   * the three fields convert, and then with their values.
   */
  lemma ParseEdgeJoin(a: string, b: string, c: string, t: string, cr: string, stoi: Stoi, stod: Stod)
    requires a != [] && b != [] && c != []
    requires ',' !in a && ',' !in b && ',' !in c && (t == [] || t[0] == ',')
    requires '\r' !in a + [','] + b + [','] + c + t
    requires forall i :: 0 <= i < |cr| ==> cr[i] == '\r'
    ensures ParseEdgeLine(a + [','] + b + [','] + c + t + cr, stoi, stod) ==
      if stoi(a).Some? && stoi(b).Some? && stod(c).Some? then Some(EdgeRecord(stoi(a).value, stoi(b).value, stod(c).value)) else None
  {
    var body := a + [','] + b + [','] + c + t;
    RemoveCRAppend(body, cr);
    RemoveCRNone(body);
    RemoveCRAll(cr);
    assert body + [] == body;
    Fields3Join(a, b, c, t);
  }

  /** The same for a nodes line. */
  lemma ParseNodeJoin(a: string, b: string, c: string, t: string, cr: string, stoi: Stoi, stod: Stod)
    requires a != [] && b != [] && c != []
    requires ',' !in a && ',' !in b && ',' !in c && (t == [] || t[0] == ',')
    requires '\r' !in a + [','] + b + [','] + c + t
    requires forall i :: 0 <= i < |cr| ==> cr[i] == '\r'
    ensures ParseNodeLine(a + [','] + b + [','] + c + t + cr, stoi, stod) ==
      if stoi(a).Some? && stod(b).Some? && stod(c).Some? then Some(NodeRecord(stoi(a).value, stod(b).value, stod(c).value)) else None
  {
    var body := a + [','] + b + [','] + c + t;
    RemoveCRAppend(body, cr);
    RemoveCRNone(body);
    RemoveCRAll(cr);
    assert body + [] == body;
    Fields3Join(a, b, c, t);
  }

  /** A line with an empty leading field is skipped. */
  lemma ParseEmptyFirstField(line: string, stoi: Stoi, stod: Stod)
    requires |line| > 0 && line[0] == ','
    ensures ParseEdgeLine(line, stoi, stod) == None && ParseNodeLine(line, stoi, stod) == None
  {
    assert line == [line[0]] + line[1..];
    RemoveCRAppend([line[0]], line[1..]);
    assert RemoveCR([line[0]]) == [','] by {
      assert [line[0]][1..] == [];
    }
  }

  /** A line of three fields, any of them empty, is skipped by both readers whatever fields follow. */
  lemma ParseEmptyField(a: string, b: string, c: string, t: string, stoi: Stoi, stod: Stod)
    requires a == [] || b == [] || c == []
    requires ',' !in a && ',' !in b && ',' !in c && (t == [] || t[0] == ',')
    requires '\r' !in a + [','] + b + [','] + c + t
    ensures ParseEdgeLine(a + [','] + b + [','] + c + t, stoi, stod) == None
    ensures ParseNodeLine(a + [','] + b + [','] + c + t, stoi, stod) == None
  {
    RemoveCRNone(a + [','] + b + [','] + c + t);
    Fields3Join(a, b, c, t);
  }

  /** A line of fewer than three fields is skipped by both readers: the missing fields read as empty. */
  lemma ParseShortLine(a: string, b: string, stoi: Stoi, stod: Stod)
    requires ',' !in a && ',' !in b && '\r' !in a + [','] + b
    ensures ParseEdgeLine(a, stoi, stod) == None && ParseNodeLine(a, stoi, stod) == None
    ensures ParseEdgeLine(a + [','] + b, stoi, stod) == None && ParseNodeLine(a + [','] + b, stoi, stod) == None
  {
    assert '\r' !in a by {
      assert forall i :: 0 <= i < |a| ==> a[i] == (a + [','] + b)[i];
    }
    RemoveCRNone(a);
    RemoveCRNone(a + [','] + b);
    NextFieldJoin(a, b);
  }

  // ---------------------------------------------------------------------
  // Whole files, on values
  // ---------------------------------------------------------------------

  /** The accepted records of an edges file, in file order. */
  function EdgeRecords(lines: seq<string>, stoi: Stoi, stod: Stod): (recs: seq<EdgeRecord>)
    ensures |recs| <= |lines|
    decreases |lines|
  {
    if |lines| == 0 then []
    else
      match ParseEdgeLine(lines[0], stoi, stod)
      case None => EdgeRecords(lines[1..], stoi, stod)
      case Some(rec) => [rec] + EdgeRecords(lines[1..], stoi, stod)
  }

  /** The accepted records of a nodes file, in file order. */
  function NodeRecords(lines: seq<string>, stoi: Stoi, stod: Stod): (recs: seq<NodeRecord>)
    ensures |recs| <= |lines|
    decreases |lines|
  {
    if |lines| == 0 then []
    else
      match ParseNodeLine(lines[0], stoi, stod)
      case None => NodeRecords(lines[1..], stoi, stod)
      case Some(rec) => [rec] + NodeRecords(lines[1..], stoi, stod)
  }

  /** Every accepted line gives a record, and every record comes from an accepted line. */
  lemma {:induction false} EdgeRecordsFromLines(lines: seq<string>, stoi: Stoi, stod: Stod)
    ensures forall i :: 0 <= i < |lines| && ParseEdgeLine(lines[i], stoi, stod).Some? ==>
              ParseEdgeLine(lines[i], stoi, stod).value in EdgeRecords(lines, stoi, stod)
    ensures forall rec :: rec in EdgeRecords(lines, stoi, stod) ==>
              exists i :: 0 <= i < |lines| && ParseEdgeLine(lines[i], stoi, stod) == Some(rec)
    decreases |lines|
  {
    if |lines| > 0 {
      var rest := lines[1..];
      EdgeRecordsFromLines(rest, stoi, stod);
      forall i | 1 <= i < |lines| ensures lines[i] == rest[i - 1] { }
      forall rec | rec in EdgeRecords(lines, stoi, stod)
        ensures exists i :: 0 <= i < |lines| && ParseEdgeLine(lines[i], stoi, stod) == Some(rec)
      {
        if rec in EdgeRecords(rest, stoi, stod) {
          var j :| 0 <= j < |rest| && ParseEdgeLine(rest[j], stoi, stod) == Some(rec);
          assert ParseEdgeLine(lines[j + 1], stoi, stod) == Some(rec);
        } else {
          assert ParseEdgeLine(lines[0], stoi, stod) == Some(rec);
        }
      }
    }
  }

  /** The vertex map with id present: id is added as a vertex without coordinates when it is missing. */
  function WithVertex(vs: map<int, Vertex>, id: int): map<int, Vertex>
  {
    if id in vs then vs else vs[id := NewVertex(id, 0.0, 0.0)]
  }

  /** Ensuring a vertex keeps the graph well formed, adds just that id, and a new one has no coordinates. */
  lemma WithVertexEffect(vs: map<int, Vertex>, es: seq<Edge>, id: int)
    requires WellFormed(vs, es)
    ensures WellFormed(WithVertex(vs, id), es)
    ensures WithVertex(vs, id).Keys == vs.Keys + {id}
    ensures forall x :: x in vs ==> WithVertex(vs, id)[x] == vs[x]
    ensures id !in vs ==> WithVertex(vs, id)[id] == NewVertex(id, 0.0, 0.0)
  {
    if id !in vs {
      NewVertexWellFormed(vs, es, id, 0.0, 0.0);
    }
  }

  /**
   * One accepted edges record on values: create either endpoint that
   * is missing, as a vertex without coordinates, then link the two both ways.
   */
  function AddEdgeRecord(vs: map<int, Vertex>, es: seq<Edge>, rec: EdgeRecord): (map<int, Vertex>, seq<Edge>)
  {
    LinkBidirectional(WithVertex(WithVertex(vs, rec.origin), rec.dest), es, rec.origin, rec.dest, rec.distance, 0.0, 0.0)
  }

  /** The vertices and edges after adding every record in turn. */
  function LoadEdges(vs: map<int, Vertex>, es: seq<Edge>, recs: seq<EdgeRecord>): (map<int, Vertex>, seq<Edge>)
    decreases |recs|
  {
    if |recs| == 0 then (vs, es)
    else
      var s := AddEdgeRecord(vs, es, recs[0]);
      LoadEdges(s.0, s.1, recs[1..])
  }

  /** The vertex ids the records mention. */
  function EdgeEndpoints(recs: seq<EdgeRecord>): set<int>
  {
    (set i | 0 <= i < |recs| :: recs[i].origin) + (set i | 0 <= i < |recs| :: recs[i].dest)
  }

  /** Peeling the first record off the endpoint set. */
  lemma EdgeEndpointsCons(recs: seq<EdgeRecord>)
    requires |recs| > 0
    ensures EdgeEndpoints(recs) == {recs[0].origin, recs[0].dest} + EdgeEndpoints(recs[1..])
  {
    var rest := recs[1..];
    forall x | x in EdgeEndpoints(recs) ensures x in {recs[0].origin, recs[0].dest} + EdgeEndpoints(rest) {
      var i :| 0 <= i < |recs| && (recs[i].origin == x || recs[i].dest == x);
      if i > 0 {
        assert rest[i - 1] == recs[i];
      }
    }
    forall x | x in EdgeEndpoints(rest) ensures x in EdgeEndpoints(recs) {
      var i :| 0 <= i < |rest| && (rest[i].origin == x || rest[i].dest == x);
      assert recs[i + 1] == rest[i];
    }
  }

  /** Adding one record keeps the graph well formed, adds its two endpoints and joins them both ways. */
  lemma AddEdgeRecordGraph(vs: map<int, Vertex>, es: seq<Edge>, rec: EdgeRecord)
    requires WellFormed(vs, es)
    ensures WellFormed(AddEdgeRecord(vs, es, rec).0, AddEdgeRecord(vs, es, rec).1)
    ensures AddEdgeRecord(vs, es, rec).0.Keys == vs.Keys + {rec.origin, rec.dest}
    ensures rec.dest in AddEdgeRecord(vs, es, rec).0[rec.origin].adj && rec.origin in AddEdgeRecord(vs, es, rec).0[rec.dest].adj
  {
    var vs1 := WithVertex(vs, rec.origin);
    WithVertexEffect(vs, es, rec.origin);
    var vs2 := WithVertex(vs1, rec.dest);
    WithVertexEffect(vs1, es, rec.dest);
    LinkBidirectionalEffect(vs2, es, rec.origin, rec.dest, rec.distance, 0.0, 0.0);
  }

  /**
   * Adding one record keeps old adjacency entries and coordinates, and the
   * vertices it creates have none.
   */
  lemma AddEdgeRecordKeeps(vs: map<int, Vertex>, es: seq<Edge>, rec: EdgeRecord)
    requires WellFormed(vs, es)
    ensures forall id, d :: id in vs && d in vs[id].adj ==> d in AddEdgeRecord(vs, es, rec).0[id].adj
    ensures forall id :: id in vs ==>
      AddEdgeRecord(vs, es, rec).0[id].longitude == vs[id].longitude && AddEdgeRecord(vs, es, rec).0[id].latitude == vs[id].latitude
    ensures forall id :: id in AddEdgeRecord(vs, es, rec).0 && id !in vs ==>
      AddEdgeRecord(vs, es, rec).0[id].longitude == 0.0 && AddEdgeRecord(vs, es, rec).0[id].latitude == 0.0
  {
    var vs1 := WithVertex(vs, rec.origin);
    WithVertexEffect(vs, es, rec.origin);
    var vs2 := WithVertex(vs1, rec.dest);
    WithVertexEffect(vs1, es, rec.dest);
    LinkBidirectionalEffect(vs2, es, rec.origin, rec.dest, rec.distance, 0.0, 0.0);
  }

  /** Adding one record appends exactly the two twin edges of the record to the table. */
  lemma AddEdgeRecordTable(vs: map<int, Vertex>, es: seq<Edge>, rec: EdgeRecord)
    requires WellFormed(vs, es)
    ensures |AddEdgeRecord(vs, es, rec).1| == |es| + 2 && AddEdgeRecord(vs, es, rec).1[..|es|] == es
    ensures AddEdgeRecord(vs, es, rec).1[|es|] == Edge(rec.origin, rec.dest, rec.distance, Some(|es| + 1), 0.0)
    ensures AddEdgeRecord(vs, es, rec).1[|es| + 1] == Edge(rec.dest, rec.origin, rec.distance, Some(|es|), 0.0)
  {
    var vs1 := WithVertex(vs, rec.origin);
    WithVertexEffect(vs, es, rec.origin);
    var vs2 := WithVertex(vs1, rec.dest);
    WithVertexEffect(vs1, es, rec.dest);
    LinkBidirectionalEffect(vs2, es, rec.origin, rec.dest, rec.distance, 0.0, 0.0);
  }

  /**
   * Loading the records of an edges file keeps the graph well formed; its
   * vertices become the old ones plus every endpoint named; old adjacency
   * entries and coordinates are kept and the new vertices have none.
   */
  lemma {:induction false} LoadEdgesGraph(vs: map<int, Vertex>, es: seq<Edge>, recs: seq<EdgeRecord>)
    requires WellFormed(vs, es)
    ensures WellFormed(LoadEdges(vs, es, recs).0, LoadEdges(vs, es, recs).1)
    ensures LoadEdges(vs, es, recs).0.Keys == vs.Keys + EdgeEndpoints(recs)
    ensures forall id, d :: id in vs && d in vs[id].adj ==> d in LoadEdges(vs, es, recs).0[id].adj
    ensures forall id :: id in vs ==>
      LoadEdges(vs, es, recs).0[id].longitude == vs[id].longitude && LoadEdges(vs, es, recs).0[id].latitude == vs[id].latitude
    ensures forall id :: id in LoadEdges(vs, es, recs).0 && id !in vs ==>
      LoadEdges(vs, es, recs).0[id].longitude == 0.0 && LoadEdges(vs, es, recs).0[id].latitude == 0.0
    decreases |recs|
  {
    if |recs| > 0 {
      var s := AddEdgeRecord(vs, es, recs[0]);
      AddEdgeRecordGraph(vs, es, recs[0]);
      AddEdgeRecordKeeps(vs, es, recs[0]);
      LoadEdgesGraph(s.0, s.1, recs[1..]);
      EdgeEndpointsCons(recs);
    }
  }

  /**
   * From position base on, t holds two edges per record: origin -> dest and
   * dest -> origin with the record's distance, each the other's reverse.
   */
  ghost predicate TableOf(base: nat, t: seq<Edge>, recs: seq<EdgeRecord>)
  {
    && |t| == base + 2 * |recs|
    && forall i :: 0 <= i < |recs| ==>
         && t[base + 2 * i] == Edge(recs[i].origin, recs[i].dest, recs[i].distance, Some(base + 2 * i + 1), 0.0)
         && t[base + 2 * i + 1] == Edge(recs[i].dest, recs[i].origin, recs[i].distance, Some(base + 2 * i), 0.0)
  }

  lemma TableCons(base: nat, t: seq<Edge>, recs: seq<EdgeRecord>)
    requires |recs| > 0 && TableOf(base + 2, t, recs[1..])
    requires t[base] == Edge(recs[0].origin, recs[0].dest, recs[0].distance, Some(base + 1), 0.0)
    requires t[base + 1] == Edge(recs[0].dest, recs[0].origin, recs[0].distance, Some(base), 0.0)
    ensures TableOf(base, t, recs)
  {
    forall i | 1 <= i < |recs|
      ensures t[base + 2 * i] == Edge(recs[i].origin, recs[i].dest, recs[i].distance, Some(base + 2 * i + 1), 0.0)
      ensures t[base + 2 * i + 1] == Edge(recs[i].dest, recs[i].origin, recs[i].distance, Some(base + 2 * i), 0.0)
    {
      var j := i - 1;
      assert recs[1..][j] == recs[i];
      assert base + 2 + 2 * j == base + 2 * i;
    }
  }

  /**
   * Loading the records of an edges file keeps the old edges in front, and
   * record i adds edges |es| + 2i and |es| + 2i + 1, origin -> dest and back,
   * each the other's reverse.
   */
  lemma {:induction false} LoadEdgesTable(vs: map<int, Vertex>, es: seq<Edge>, recs: seq<EdgeRecord>)
    requires WellFormed(vs, es)
    ensures |LoadEdges(vs, es, recs).1| >= |es| && LoadEdges(vs, es, recs).1[..|es|] == es
    ensures TableOf(|es|, LoadEdges(vs, es, recs).1, recs)
    decreases |recs|
  {
    if |recs| > 0 {
      var s := AddEdgeRecord(vs, es, recs[0]);
      AddEdgeRecordGraph(vs, es, recs[0]);
      AddEdgeRecordTable(vs, es, recs[0]);
      LoadEdgesTable(s.0, s.1, recs[1..]);
      var t := LoadEdges(vs, es, recs).1;
      assert t == LoadEdges(s.0, s.1, recs[1..]).1;
      assert t[|es|] == t[..|s.1|][|es|] && t[|es| + 1] == t[..|s.1|][|es| + 1];
      TableCons(|es|, t, recs);
      PrefixOfPrefix(es, s.1, t);
    }
  }

  /** A prefix of a prefix is a prefix. */
  lemma PrefixOfPrefix<T>(a: seq<T>, b: seq<T>, c: seq<T>)
    requires |a| <= |b| <= |c| && c[..|b|] == b && b[..|a|] == a
    ensures c[..|a|] == a
  {
    assert c[..|a|] == c[..|b|][..|a|];
  }

  /** Every record's endpoints end up joined both ways. */
  lemma {:induction false} LoadEdgesLinks(vs: map<int, Vertex>, es: seq<Edge>, recs: seq<EdgeRecord>)
    requires WellFormed(vs, es)
    ensures forall i :: 0 <= i < |recs| ==>
      recs[i].origin in LoadEdges(vs, es, recs).0 && recs[i].dest in LoadEdges(vs, es, recs).0[recs[i].origin].adj
      && recs[i].dest in LoadEdges(vs, es, recs).0 && recs[i].origin in LoadEdges(vs, es, recs).0[recs[i].dest].adj
    decreases |recs|
  {
    if |recs| > 0 {
      var s := AddEdgeRecord(vs, es, recs[0]);
      AddEdgeRecordGraph(vs, es, recs[0]);
      var rest := recs[1..];
      LoadEdgesLinks(s.0, s.1, rest);
      LoadEdgesGraph(s.0, s.1, rest);
      forall i | 1 <= i < |recs| ensures recs[i] == rest[i - 1] { }
    }
  }

  /**
   * The nodes reader on values: a record whose id is new adds a vertex
   * with its coordinates; one whose id is taken changes nothing.
   */
  function LoadNodes(vs: map<int, Vertex>, recs: seq<NodeRecord>): map<int, Vertex>
    decreases |recs|
  {
    if |recs| == 0 then vs
    else
      var rec := recs[0];
      LoadNodes(if rec.id in vs then vs else vs[rec.id := NewVertex(rec.id, rec.longitude, rec.latitude)], recs[1..])
  }

  /** The vertex ids the records name. */
  function NodeIds(recs: seq<NodeRecord>): set<int>
  {
    set i | 0 <= i < |recs| :: recs[i].id
  }

  /**
   * Loading the records of a nodes file keeps the graph well formed; its
   * vertices become the old ones plus every id named; an old vertex is left
   * as it was, and a new id takes the coordinates of its first record.
   */
  lemma {:induction false} LoadNodesEffect(vs: map<int, Vertex>, es: seq<Edge>, recs: seq<NodeRecord>)
    requires WellFormed(vs, es)
    ensures var r := LoadNodes(vs, recs);
            && WellFormed(r, es)
            && r.Keys == vs.Keys + NodeIds(recs)
            && (forall id :: id in vs ==> r[id] == vs[id])
            && (forall k :: 0 <= k < |recs| && recs[k].id !in vs && (forall j :: 0 <= j < k ==> recs[j].id != recs[k].id) ==>
                  r[recs[k].id] == NewVertex(recs[k].id, recs[k].longitude, recs[k].latitude))
    decreases |recs|
  {
    if |recs| > 0 {
      var rec := recs[0];
      var vs1 := if rec.id in vs then vs else vs[rec.id := NewVertex(rec.id, rec.longitude, rec.latitude)];
      if rec.id !in vs {
        NewVertexWellFormed(vs, es, rec.id, rec.longitude, rec.latitude);
      }
      var rest := recs[1..];
      LoadNodesEffect(vs1, es, rest);
      var r := LoadNodes(vs, recs);
      assert r == LoadNodes(vs1, rest);
      assert forall j :: 1 <= j < |recs| ==> recs[j] == rest[j - 1];
      assert NodeIds(recs) == {rec.id} + NodeIds(rest) by {
        forall x | x in NodeIds(recs) ensures x in {rec.id} + NodeIds(rest) {
          var i :| 0 <= i < |recs| && recs[i].id == x;
          if i > 0 {
            assert rest[i - 1].id == x;
          }
        }
      }
      forall k | 0 <= k < |recs| && recs[k].id !in vs && (forall j :: 0 <= j < k ==> recs[j].id != recs[k].id)
        ensures r[recs[k].id] == NewVertex(recs[k].id, recs[k].longitude, recs[k].latitude)
      {
        if k > 0 {
          assert rest[k - 1] == recs[k];
          assert recs[k].id !in vs1;
          assert forall j :: 0 <= j < k - 1 ==> rest[j].id != rest[k - 1].id by {
            forall j | 0 <= j < k - 1 ensures rest[j].id != rest[k - 1].id {
              assert rest[j] == recs[j + 1];
            }
          }
        }
      }
    }
  }

  /**
   * The run fields after loading, against those before: entries of old
   * vertices are kept, and every new vertex is unvisited with key 0 and no path.
   */
  ghost predicate RunFieldsExtended(visited: map<int, bool>, dist: map<int, real>, path: map<int, Option<nat>>,
                                    visited': map<int, bool>, dist': map<int, real>, path': map<int, Option<nat>>)
  {
    && (forall x :: x in visited ==> x in visited' && visited'[x] == visited[x])
    && (forall x :: x in dist ==> x in dist' && dist'[x] == dist[x])
    && (forall x :: x in path ==> x in path' && path'[x] == path[x])
    && (forall x :: x in visited' && x !in visited ==> !visited'[x])
    && (forall x :: x in dist' && x !in dist ==> dist'[x] == 0.0)
    && (forall x :: x in path' && x !in path ==> path'[x] == None)
  }

  lemma RunFieldsTrans(v1: map<int, bool>, d1: map<int, real>, p1: map<int, Option<nat>>,
                       v2: map<int, bool>, d2: map<int, real>, p2: map<int, Option<nat>>,
                       v3: map<int, bool>, d3: map<int, real>, p3: map<int, Option<nat>>)
    requires RunFieldsExtended(v1, d1, p1, v2, d2, p2) && RunFieldsExtended(v2, d2, p2, v3, d3, p3)
    ensures RunFieldsExtended(v1, d1, p1, v3, d3, p3)
  {
  }

  /** Taking out the record of line i. */
  lemma EdgeRecordsAt(lines: seq<string>, i: nat, stoi: Stoi, stod: Stod)
    requires i < |lines|
    ensures EdgeRecords(lines[i..], stoi, stod) ==
      (if ParseEdgeLine(lines[i], stoi, stod).Some? then [ParseEdgeLine(lines[i], stoi, stod).value] else []) + EdgeRecords(lines[i + 1..], stoi, stod)
  {
    assert lines[i..][0] == lines[i] && lines[i..][1..] == lines[i + 1..];
  }

  /** Taking out the record of line i. */
  lemma NodeRecordsAt(lines: seq<string>, i: nat, stoi: Stoi, stod: Stod)
    requires i < |lines|
    ensures NodeRecords(lines[i..], stoi, stod) ==
      (if ParseNodeLine(lines[i], stoi, stod).Some? then [ParseNodeLine(lines[i], stoi, stod).value] else []) + NodeRecords(lines[i + 1..], stoi, stod)
  {
    assert lines[i..][0] == lines[i] && lines[i..][1..] == lines[i + 1..];
  }

  lemma LoadEdgesCons(vs: map<int, Vertex>, es: seq<Edge>, rec: EdgeRecord, recs: seq<EdgeRecord>)
    ensures LoadEdges(vs, es, [rec] + recs) == LoadEdges(AddEdgeRecord(vs, es, rec).0, AddEdgeRecord(vs, es, rec).1, recs)
  {
    assert ([rec] + recs)[0] == rec && ([rec] + recs)[1..] == recs;
  }

  /** One step of the nodes reader, as LoadNodes takes it. */
  lemma LoadNodesAt(vs: map<int, Vertex>, vs': map<int, Vertex>, lines: seq<string>, i: nat, stoi: Stoi, stod: Stod)
    requires i < |lines|
    requires var rec := ParseNodeLine(lines[i], stoi, stod);
      vs' == if rec.None? || rec.value.id in vs then vs
             else vs[rec.value.id := NewVertex(rec.value.id, rec.value.longitude, rec.value.latitude)]
    ensures LoadNodes(vs', NodeRecords(lines[i + 1..], stoi, stod)) == LoadNodes(vs, NodeRecords(lines[i..], stoi, stod))
  {
    NodeRecordsAt(lines, i, stoi, stod);
    var rest := NodeRecords(lines[i + 1..], stoi, stod);
    var rec := ParseNodeLine(lines[i], stoi, stod);
    if rec.Some? {
      LoadNodesCons(vs, rec.value, rest);
    } else {
      assert [] + rest == rest;
    }
  }

  lemma LoadNodesCons(vs: map<int, Vertex>, rec: NodeRecord, recs: seq<NodeRecord>)
    ensures LoadNodes(vs, [rec] + recs) == LoadNodes(if rec.id in vs then vs else vs[rec.id := NewVertex(rec.id, rec.longitude, rec.latitude)], recs)
  {
    assert ([rec] + recs)[0] == rec && ([rec] + recs)[1..] == recs;
  }

  // ---------------------------------------------------------------------
  // The data object
  // ---------------------------------------------------------------------

  /** `Data`: the graph being loaded and the two file paths. */
  class Data {
    var g: Graph
    var edgesFilePath: string
    var nodesFilePath: string

    ghost predicate Valid()
      reads this, g
    {
      g.Valid()
    }

    /** `Data::Data`: an empty graph and no paths. */
    constructor ()
      ensures Valid() && fresh(g)
      ensures g.vertices == map[] && g.edges == [] && edgesFilePath == [] && nodesFilePath == []
    {
      g := new Graph();
      edgesFilePath, nodesFilePath := [], [];
    }

    /** `Data::isGraphLoaded`: whether the graph has any vertex. */
    function IsGraphLoaded(): (b: bool)
      reads this, g
      requires Valid()
      ensures b <==> exists id :: g.FindVertex(id).Some?
    {
      assert forall id :: g.FindVertex(id).Some? <==> id in g.vertices;
      if g.GetVertexSet() == map[] then false
      else
        NoElementEmpty(g.vertices.Keys);
        true
    }

    /** `Data::vertexExists`: whether a vertex has the given id. */
    function VertexExists(id: int): (b: bool)
      reads this, g
      requires Valid()
      ensures b <==> id in g.vertices
      ensures b ==> IsGraphLoaded()
    {
      g.FindVertex(id).Some?
    }

    /** `Data::setEdgesFilePath`. */
    method SetEdgesFilePath(path: string)
      modifies this
      ensures edgesFilePath == path && nodesFilePath == old(nodesFilePath) && g == old(g)
    {
      edgesFilePath := path;
    }

    /** `Data::setNodesFilePath`. */
    method SetNodesFilePath(path: string)
      modifies this
      ensures nodesFilePath == path && edgesFilePath == old(edgesFilePath) && g == old(g)
    {
      nodesFilePath := path;
    }

    /**
     * `Data::readEdgesFile`: every accepted line adds its missing endpoints
     * and a pair of twin edges; the graph ends as LoadEdges says.
     */
    method ReadEdgesFile(lines: seq<string>, stoi: Stoi, stod: Stod)
      requires Valid()
      modifies g
      ensures Valid()
      ensures (g.vertices, g.edges) == LoadEdges(old(g.vertices), old(g.edges), EdgeRecords(lines, stoi, stod))
      ensures RunFieldsExtended(old(g.visited), old(g.dist), old(g.path), g.visited, g.dist, g.path)
    {
      var i := 0;
      while i < |lines|
        invariant 0 <= i <= |lines| && Valid()
        invariant LoadEdges(g.vertices, g.edges, EdgeRecords(lines[i..], stoi, stod))
               == LoadEdges(old(g.vertices), old(g.edges), EdgeRecords(lines, stoi, stod))
        invariant RunFieldsExtended(old(g.visited), old(g.dist), old(g.path), g.visited, g.dist, g.path)
      {
        ghost var vs, es, visited, dist, path := g.vertices, g.edges, g.visited, g.dist, g.path;
        var rec := ParseEdgeLine(lines[i], stoi, stod);
        EdgeRecordsAt(lines, i, stoi, stod);
        if rec.Some? {
          LoadEdgesCons(vs, es, rec.value, EdgeRecords(lines[i + 1..], stoi, stod));
          AddRecord(rec.value);
          RunFieldsTrans(old(g.visited), old(g.dist), old(g.path), visited, dist, path, g.visited, g.dist, g.path);
        } else {
          assert EdgeRecords(lines[i..], stoi, stod) == EdgeRecords(lines[i + 1..], stoi, stod);
        }
        i := i + 1;
      }
      assert lines[i..] == [];
    }

    /** Adds id as a vertex without coordinates when it is missing. */
    method AddEndpoint(id: int)
      requires Valid()
      modifies g
      ensures Valid()
      ensures g.vertices == WithVertex(old(g.vertices), id) && g.edges == old(g.edges)
      ensures RunFieldsExtended(old(g.visited), old(g.dist), old(g.path), g.visited, g.dist, g.path)
    {
      if g.FindVertex(id).None? {
        var added := g.AddVertex(id);
      }
    }

    /** One accepted edges record: both endpoints made present, then joined both ways. */
    method AddRecord(rec: EdgeRecord)
      requires Valid()
      modifies g
      ensures Valid()
      ensures (g.vertices, g.edges) == AddEdgeRecord(old(g.vertices), old(g.edges), rec)
      ensures RunFieldsExtended(old(g.visited), old(g.dist), old(g.path), g.visited, g.dist, g.path)
    {
      AddEndpoint(rec.origin);
      ghost var visited, dist, path := g.visited, g.dist, g.path;
      AddEndpoint(rec.dest);
      RunFieldsTrans(old(g.visited), old(g.dist), old(g.path), visited, dist, path, g.visited, g.dist, g.path);
      var ok := g.AddBidirectionalEdge(rec.origin, rec.dest, rec.distance, 0.0, 0.0);
    }

    /** One accepted nodes record: the vertex with its coordinates, added only when the id is free. */
    method AddNode(rec: NodeRecord)
      requires Valid()
      modifies g
      ensures Valid()
      ensures g.vertices == (if rec.id in old(g.vertices) then old(g.vertices)
                             else old(g.vertices)[rec.id := NewVertex(rec.id, rec.longitude, rec.latitude)])
      ensures g.edges == old(g.edges)
      ensures RunFieldsExtended(old(g.visited), old(g.dist), old(g.path), g.visited, g.dist, g.path)
    {
      var added := g.AddVertexAt(rec.id, rec.longitude, rec.latitude);
    }

    /**
     * `Data::readNodesFile`: every accepted line adds a vertex with its
     * coordinates unless the id is taken; the graph ends as LoadNodes says.
     */
    method ReadNodesFile(lines: seq<string>, stoi: Stoi, stod: Stod)
      requires Valid()
      modifies g
      ensures Valid()
      ensures g.vertices == LoadNodes(old(g.vertices), NodeRecords(lines, stoi, stod)) && g.edges == old(g.edges)
      ensures RunFieldsExtended(old(g.visited), old(g.dist), old(g.path), g.visited, g.dist, g.path)
    {
      var i := 0;
      while i < |lines|
        invariant 0 <= i <= |lines| && Valid() && g.edges == old(g.edges)
        invariant LoadNodes(g.vertices, NodeRecords(lines[i..], stoi, stod))
               == LoadNodes(old(g.vertices), NodeRecords(lines, stoi, stod))
        invariant RunFieldsExtended(old(g.visited), old(g.dist), old(g.path), g.visited, g.dist, g.path)
      {
        ghost var vs, visited, dist, path := g.vertices, g.visited, g.dist, g.path;
        var rec := ParseNodeLine(lines[i], stoi, stod);
        if rec.Some? {
          AddNode(rec.value);
          RunFieldsTrans(old(g.visited), old(g.dist), old(g.path), visited, dist, path, g.visited, g.dist, g.path);
        }
        LoadNodesAt(vs, g.vertices, lines, i, stoi, stod);
        i := i + 1;
      }
      assert lines[i..] == [];
    }

    /**
     * `Data::readFiles`: fails without an edges path; reads the nodes file
     * first when a nodes path is set (failing if it cannot be opened), then
     * the edges file (failing if it cannot be opened, with the nodes already
     * loaded).
     */
    method ReadFiles(files: Files, stoi: Stoi, stod: Stod) returns (result: LoadResult)
      requires Valid()
      modifies g
      ensures Valid()
      ensures RunFieldsExtended(old(g.visited), old(g.dist), old(g.path), g.visited, g.dist, g.path)
      ensures edgesFilePath == [] ==> result == Failed(MissingFiles) && g.vertices == old(g.vertices) && g.edges == old(g.edges)
      ensures edgesFilePath != [] && nodesFilePath != [] && files(nodesFilePath).None? ==>
                result == Failed(NodesOpenError) && g.vertices == old(g.vertices) && g.edges == old(g.edges)
      ensures var nodes := if nodesFilePath == [] || files(nodesFilePath).None? then [] else NodeRecords(files(nodesFilePath).value, stoi, stod);
              edgesFilePath != [] && (nodesFilePath == [] || files(nodesFilePath).Some?) ==>
                if files(edgesFilePath).None? then
                  result == Failed(EdgesOpenError) && g.vertices == LoadNodes(old(g.vertices), nodes) && g.edges == old(g.edges)
                else
                  result == Loaded &&
                  (g.vertices, g.edges) == LoadEdges(LoadNodes(old(g.vertices), nodes), old(g.edges), EdgeRecords(files(edgesFilePath).value, stoi, stod))
    {
      if edgesFilePath == [] {
        return Failed(MissingFiles);
      }
      if nodesFilePath != [] {
        var nodesFile := files(nodesFilePath);
        if nodesFile.None? {
          return Failed(NodesOpenError);
        }
        ReadNodesFile(nodesFile.value, stoi, stod);
      }
      assert nodesFilePath == [] ==> g.vertices == LoadNodes(old(g.vertices), []);
      var edgesFile := files(edgesFilePath);
      if edgesFile.None? {
        return Failed(EdgesOpenError);
      }
      ghost var visited, dist, path := g.visited, g.dist, g.path;
      ReadEdgesFile(edgesFile.value, stoi, stod);
      RunFieldsTrans(old(g.visited), old(g.dist), old(g.path), visited, dist, path, g.visited, g.dist, g.path);
      result := Loaded;
    }

    /** Every vertex gets `visited` = false; nothing else changes. */
    method ClearVisited()
      requires Valid()
      modifies g
      ensures Valid() && g.vertices == old(g.vertices) && g.edges == old(g.edges)
      ensures g.dist == old(g.dist) && g.path == old(g.path)
      ensures forall x :: x in g.visited ==> !g.visited[x]
    {
      var todo := g.GetVertexSet().Keys;
      while todo != {}
        invariant todo <= g.vertices.Keys
        invariant Valid() && g.vertices == old(g.vertices) && g.edges == old(g.edges)
        invariant g.dist == old(g.dist) && g.path == old(g.path)
        invariant forall x :: x in g.visited && x !in todo ==> !g.visited[x]
        decreases |todo|
      {
        var id := Choose(todo);
        g.visited := g.visited[id := false];
        todo := todo - {id};
      }
    }

    /**
     * `Data::TSPBacktracking`: clears the visited flags, marks vertex 0 and
     * searches from it with the bound DoubleMax.  The result is at most the
     * weight of every tour through all vertices from 0 and back, and is
     * DoubleMax or the weight of one; only vertex 0 is left visited.
     */
    method TSPBacktracking() returns (res: real)
      requires Valid() && 0 in g.vertices
      modifies g
      ensures Valid() && g.vertices == old(g.vertices) && g.edges == old(g.edges)
      ensures g.dist == old(g.dist) && g.path == old(g.path)
      ensures TSP.StartState(g.vertices, g.visited)
      ensures res <= DoubleMax
      ensures forall p :: TSP.Cycle(g.vertices, p) ==> res <= TSP.CycleCost(g.vertices, g.edges, p)
      ensures res == DoubleMax || exists p :: TSP.Cycle(g.vertices, p) && res == TSP.CycleCost(g.vertices, g.edges, p)
    {
      ClearVisited();
      res := DoubleMax;
      g.visited := g.visited[0 := true];
      res := TSP.Backtracking(g, 0, 0, 1, 0.0, res);
      TSP.SearchFindsCheapestCycle(g.vertices, g.edges, g.visited, res);
    }

    /** `Data::TSPTriangular`: the triangular approximation summed from 0. */
    method TSPTriangular(haversine: Prim.Haversine, preorder: TSP.Preorder) returns (out: TSP.TourOutcome)
      requires Valid() && (g.vertices == map[] || 0 in g.vertices)
      modifies g
      ensures Valid() && Prim.Extends(old(g.vertices), old(g.edges), g.vertices, g.edges)
      ensures out.Aborted? ==> exists v :: v in g.vertices && (g.vertices[v].longitude == DoubleMax || g.vertices[v].latitude == DoubleMax)
      ensures !out.Aborted? ==> out == TSP.Outcome(0.0, TSP.TourCost(g.vertices, g.edges, preorder(g.vertices, g.edges, g.path, 0, |g.vertices|)))
    {
      out := TSP.Triangular(g, haversine, preorder, 0.0);
    }
  }
}
