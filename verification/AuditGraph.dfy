/** The npm audit of the mobile app: every reported package must be there because of the image-size advisories. */
module AuditGraph {
  import opened Wrappers

  const IMAGE_SIZE := "image-size"
  const EXPECTED_ADVISORIES := multiset{"GHSA-5p2g-fcmc-qvqq", "GHSA-w3rx-r6r6-pgpr"}

  /** A cause: another package, an advisory with the id its URL ends in, if it does, or neither. */
  datatype Cause = Package(name: string) | Advisory(id: Option<string>) | Unusable

  /** A record; [via] is none when it is not a list. */
  datatype Vulnerability = Vulnerability(name: string, via: Option<seq<Cause>>) | NoRecord

  type Edges = map<string, seq<string>>

  // -------------------------------------------------------------- the search

  /** `reachesImageSize`, for any goal: the search avoids only the packages on its current path. */
  predicate Reaches<N(==)>(edges: map<N, seq<N>>, goal: N, name: N, visiting: set<N>)
    decreases |edges.Keys - visiting|
  {
    name == goal ||
    (name !in visiting && name in edges &&
     (Fewer(edges.Keys, visiting, name);
      exists i :: 0 <= i < |edges[name]| && Reaches(edges, goal, edges[name][i], visiting + {name})))
  }

  lemma Fewer<N>(keys: set<N>, visiting: set<N>, name: N)
    requires name in keys && name !in visiting
    ensures |keys - (visiting + {name})| < |keys - visiting|
  {
    assert keys - visiting == keys - (visiting + {name}) + {name};
  }

  /** A path of dependencies, from its first package to its last. */
  predicate IsPath<N(==)>(edges: map<N, seq<N>>, p: seq<N>)
  {
    p != [] && forall i :: 0 <= i < |p| - 1 ==> p[i] in edges && p[i + 1] in edges[p[i]]
  }

  ghost predicate Leads<N(!new)>(edges: map<N, seq<N>>, name: N, goal: N)
  {
    exists p :: IsPath(edges, p) && p[0] == name && p[|p| - 1] == goal
  }

  lemma {:induction false} ReachesAlong<N>(edges: map<N, seq<N>>, goal: N, name: N, visiting: set<N>)
    returns (p: seq<N>)
    requires Reaches(edges, goal, name, visiting)
    ensures IsPath(edges, p) && p[0] == name && p[|p| - 1] == goal
    decreases |edges.Keys - visiting|
  {
    if name == goal {
      p := [name];
    } else {
      Fewer(edges.Keys, visiting, name);
      var i :| 0 <= i < |edges[name]| && Reaches(edges, goal, edges[name][i], visiting + {name});
      var rest := ReachesAlong(edges, goal, edges[name][i], visiting + {name});
      p := [name] + rest;
      assert forall k :: 0 <= k < |rest| ==> p[k + 1] == rest[k];
    }
  }

  predicate Simple<N(==)>(p: seq<N>)
  {
    forall i, j :: 0 <= i < j < |p| ==> p[i] != p[j]
  }

  lemma Prefixed<N>(edges: map<N, seq<N>>, first: N, rest: seq<N>)
    requires IsPath(edges, rest) && first in edges && rest[0] in edges[first]
    ensures IsPath(edges, [first] + rest)
    ensures Simple(rest) && first !in rest ==> Simple([first] + rest)
  {
    var p := [first] + rest;
    assert forall k :: 0 <= k < |rest| ==> p[k + 1] == rest[k];
    assert forall k :: 1 <= k < |p| ==> p[k] == rest[k - 1];
  }

  lemma Dropped<N>(edges: map<N, seq<N>>, p: seq<N>, n: nat)
    requires IsPath(edges, p) && n < |p|
    ensures IsPath(edges, p[n..]) && p[n..][|p| - n - 1] == p[|p| - 1]
  {
    assert forall k :: 0 <= k < |p| - n ==> p[n..][k] == p[n + k];
  }

  /** A path without repeats between the same ends. */
  lemma {:induction false} Shortcut<N(!new)>(edges: map<N, seq<N>>, p: seq<N>) returns (q: seq<N>)
    requires IsPath(edges, p)
    ensures IsPath(edges, q) && Simple(q) && q[0] == p[0] && q[|q| - 1] == p[|p| - 1]
    ensures forall x :: x in q ==> x in p
    decreases |p|
  {
    if i :| 0 < i < |p| && p[i] == p[0] {
      Dropped(edges, p, i);
      q := Shortcut(edges, p[i..]);
    } else if |p| == 1 {
      q := p;
    } else {
      Dropped(edges, p, 1);
      assert p[0] !in p[1..];
      var rest := Shortcut(edges, p[1..]);
      Prefixed(edges, p[0], rest);
      q := [p[0]] + rest;
    }
  }

  lemma {:induction false} PathReaches<N(!new)>(edges: map<N, seq<N>>, p: seq<N>, visiting: set<N>)
    requires IsPath(edges, p) && Simple(p) && forall x :: x in p ==> x !in visiting
    ensures Reaches(edges, p[|p| - 1], p[0], visiting)
    decreases |p|
  {
    if |p| > 1 {
      assert p[0] in edges && p[1] in edges[p[0]];
      var rest := p[1..];
      Dropped(edges, p, 1);
      assert forall k :: 0 <= k < |rest| ==> rest[k] == p[k + 1];
      PathReaches(edges, rest, visiting + {p[0]});
      var i :| 0 <= i < |edges[p[0]]| && edges[p[0]][i] == p[1];
      assert Reaches(edges, p[|p| - 1], edges[p[0]][i], visiting + {p[0]});
    }
  }

  /** On every finite graph, cycles included, the search ends, and succeeds exactly when a path leads to the goal. */
  lemma ReachesIffLeads<N(!new)>(edges: map<N, seq<N>>, goal: N, name: N)
    ensures Reaches(edges, goal, name, {}) <==> Leads(edges, name, goal)
  {
    if Reaches(edges, goal, name, {}) {
      var p := ReachesAlong(edges, goal, name, {});
    }
    if Leads(edges, name, goal) {
      var p :| IsPath(edges, p) && p[0] == name && p[|p| - 1] == goal;
      var q := Shortcut(edges, p);
      PathReaches(edges, q, {});
    }
  }

  // ------------------------------------------------------------- the validator

  function Names(causes: seq<Cause>): seq<string>
  {
    if causes == [] then []
    else Names(causes[..|causes| - 1]) + if causes[|causes| - 1].Package? then [causes[|causes| - 1].name] else []
  }

  /** The advisory ids among the causes. */
  function Ids(causes: seq<Cause>): seq<string>
  {
    if causes == [] then []
    else
      var last := causes[|causes| - 1];
      Ids(causes[..|causes| - 1]) + if last.Advisory? && last.id.Some? then [last.id.value] else []
  }

  predicate Usable(causes: seq<Cause>)
  {
    forall i :: 0 <= i < |causes| ==> causes[i] != Unusable && (causes[i].Advisory? ==> causes[i].id.Some?)
  }

  predicate GoodRecord(name: string, record: Vulnerability)
  {
    record.Vulnerability? && record.name == name && record.via.Some? && Usable(record.via.value)
  }

  predicate WellFormed(report: map<string, Vulnerability>)
  {
    forall name :: name in report ==> GoodRecord(name, report[name])
  }

  function Via(record: Vulnerability): seq<Cause>
  {
    if record.Vulnerability? && record.via.Some? then record.via.value else []
  }

  function EdgesOf(report: map<string, Vulnerability>): Edges
  {
    map name | name in report :: Names(Via(report[name]))
  }

  /** No advisory but the one package's own, and there exactly the expected ones. */
  predicate OnlyExpected(report: map<string, Vulnerability>, source: string, expected: multiset<string>)
  {
    && (forall name :: name in report && name != source ==> Ids(Via(report[name])) == [])
    && source in report && multiset(Ids(Via(report[source]))) == expected
  }

  predicate Closed(edges: Edges)
  {
    forall name, i :: name in edges && 0 <= i < |edges[name]| ==> edges[name][i] in edges
  }

  /** What an accepted report is: well-formed, with exactly the expected advisories; every cause it names is in
    * it, and from every package in it a path of causes leads to image-size. */
  ghost predicate Acceptable(report: map<string, Vulnerability>)
  {
    && WellFormed(report) && OnlyExpected(report, IMAGE_SIZE, EXPECTED_ADVISORIES) && Closed(EdgesOf(report))
    && (forall name :: name in report ==> Leads(EdgesOf(report), name, IMAGE_SIZE))
  }

  /** One record: its dependency edges, and its direct advisories. */
  method ReadCauses(causes: seq<Cause>) returns (ok: bool, edges: seq<string>, ids: seq<string>)
    ensures ok <==> Usable(causes)
    ensures ok ==> edges == Names(causes) && ids == Ids(causes)
  {
    edges, ids := [], [];
    for i := 0 to |causes|
      invariant Usable(causes[..i]) && edges == Names(causes[..i]) && ids == Ids(causes[..i])
    {
      assert causes[..i + 1][..i] == causes[..i];
      match causes[i] {
        case Package(dependency) => edges := edges + [dependency];
        case Advisory(id) =>
          if id.None? {
            return false, [], [];
          }
          ids := ids + [id.value];
        case Unusable => return false, [], [];
      }
    }
    assert causes[..|causes|] == causes;
    ok := true;
  }

  method ReadRecord(name: string, record: Vulnerability) returns (ok: bool, edges: seq<string>, ids: seq<string>)
    ensures ok <==> GoodRecord(name, record)
    ensures ok ==> edges == Names(Via(record)) && ids == Ids(Via(record))
  {
    hide Usable, Names, Ids;
    if !record.Vulnerability? || record.name != name || record.via.None? {
      return false, [], [];
    }
    ok, edges, ids := ReadCauses(record.via.value);
  }

  /** What has been read of the report: good records, their edges, and their advisories. */
  ghost predicate ReadSoFar(report: map<string, Vulnerability>, source: string, edges: Edges, foreign: bool,
      observed: seq<string>)
  {
    && edges.Keys <= report.Keys
    && (forall name :: name in edges ==> GoodRecord(name, report[name]) && edges[name] == Names(Via(report[name])))
    && (foreign <==> exists name :: name in edges && name != source && Ids(Via(report[name])) != [])
    && observed == if source in edges then Ids(Via(report[source])) else []
  }

  lemma NothingRead(report: map<string, Vulnerability>, source: string)
    ensures ReadSoFar(report, source, map[], false, [])
  {
  }

  lemma ReadOne(report: map<string, Vulnerability>, source: string, edges: Edges, foreign: bool,
      observed: seq<string>, name: string)
    requires ReadSoFar(report, source, edges, foreign, observed)
    requires name in report && name !in edges && GoodRecord(name, report[name])
    ensures var ids := Ids(Via(report[name]));
            ReadSoFar(report, source, edges[name := Names(Via(report[name]))],
                      foreign || (name != source && ids != []), if name == source then ids else observed)
  {
    hide GoodRecord, Names, Ids, Via;
  }

  lemma ReadAll(report: map<string, Vulnerability>, source: string, edges: Edges, foreign: bool, observed: seq<string>)
    requires ReadSoFar(report, source, edges, foreign, observed) && edges.Keys == report.Keys
    ensures WellFormed(report) && edges == EdgesOf(report)
    ensures forall expected :: expected != multiset{} ==>
              (OnlyExpected(report, source, expected) <==> !foreign && multiset(observed) == expected)
  {
    hide GoodRecord, Names, Ids, Via;
  }

  /** The records read: all the edges; whether an advisory is not the source's own; and the source's advisories. */
  method ReadReport(report: map<string, Vulnerability>, source: string)
    returns (ok: bool, edges: Edges, foreign: bool, observed: seq<string>)
    ensures ok <==> WellFormed(report)
    ensures ok ==> edges == EdgesOf(report)
    ensures ok ==> forall expected :: expected != multiset{} ==>
                     (OnlyExpected(report, source, expected) <==> !foreign && multiset(observed) == expected)
  {
    hide GoodRecord, Names, Ids, Via, OnlyExpected, EdgesOf, ReadSoFar;
    edges, foreign, observed := map[], false, [];
    NothingRead(report, source);
    var rest := report.Keys;
    while rest != {}
      invariant forall name :: name in report <==> name in rest || name in edges
      invariant forall name :: name in rest ==> name !in edges
      invariant ReadSoFar(report, source, edges, foreign, observed)
      decreases |rest|
    {
      var name :| name in rest;
      var good, own, ids := ReadRecord(name, report[name]);
      if !good {
        return false, map[], false, [];
      }
      ReadOne(report, source, edges, foreign, observed, name);
      edges := edges[name := own];
      if name == source {
        observed := ids;
      } else {
        foreign := foreign || ids != [];
      }
      rest := rest - {name};
    }
    ReadAll(report, source, edges, foreign, observed);
    ok := true;
  }

  lemma NoneExpected()
    ensures multiset{} != EXPECTED_ADVISORIES
  {
    assert "GHSA-5p2g-fcmc-qvqq" in EXPECTED_ADVISORIES;
  }

  /** `validateMobileAuditReport`; false where it throws. */
  method Validate(report: map<string, Vulnerability>) returns (ok: bool)
    ensures ok <==> Acceptable(report)
  {
    hide WellFormed, OnlyExpected, Reaches, Leads;
    var edges, foreign, observed;
    ok, edges, foreign, observed := ReadReport(report, IMAGE_SIZE);
    NoneExpected();
    if !ok || foreign || multiset(observed) != EXPECTED_ADVISORIES {
      return false;
    }
    assert edges == EdgesOf(report) && edges.Keys == report.Keys;
    if exists name, i :: name in edges && 0 <= i < |edges[name]| && edges[name][i] !in edges {
      assert !Closed(edges);
      return false;
    }
    assert Closed(edges);
    forall name ensures Reaches(edges, IMAGE_SIZE, name, {}) <==> Leads(edges, name, IMAGE_SIZE) {
      ReachesIffLeads(edges, IMAGE_SIZE, name);
    }
    var rest := edges.Keys;
    while rest != {}
      invariant rest <= edges.Keys && forall name :: name in edges.Keys - rest ==> Leads(edges, name, IMAGE_SIZE)
      decreases |rest|
    {
      var name :| name in rest;
      if !Reaches(edges, IMAGE_SIZE, name, {}) {
        assert !Leads(edges, name, IMAGE_SIZE);
        return false;
      }
      rest := rest - {name};
    }
  }
}
