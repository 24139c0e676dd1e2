/** HTTP messages as the http crate holds them. */
module HttpMessage {
  import opened Bytes

  datatype Line = Line(name: bytes, value: bytes)

  /** A header map: one group per name in order of first appearance, each with its values in order. */
  datatype Group = Group(name: bytes, values: seq<bytes>)
  type HeaderMap = seq<Group>

  datatype Uri = Uri(scheme: Option<bytes>, authority: Option<bytes>, path: bytes, query: Option<bytes>)
  datatype Request = Request(verb: bytes, uri: Uri, headers: HeaderMap)
  datatype Response = Response(status: nat, headers: HeaderMap)

  /** The parsers of the http crate: what they accept, and the canonical form they keep. */
  datatype Grammar = Grammar(
    verb: bytes -> Option<bytes>,
    scheme: bytes -> Option<bytes>,
    authority: bytes -> Option<bytes>,
    path: bytes -> Option<bytes>,
    name: bytes -> Option<bytes>,
    value: bytes -> Option<bytes>)

  const HOST: bytes := [104, 111, 115, 116]
  const QUESTION_MARK: byte := 63

  predicate WellFormed(m: HeaderMap) {
    && (forall i :: 0 <= i < |m| ==> m[i].values != [])
    && (forall i, j :: 0 <= i < j < |m| ==> m[i].name != m[j].name)
  }

  function IndexOf(m: HeaderMap, name: bytes): (i: nat)
    ensures i <= |m|
    ensures i < |m| ==> m[i].name == name
    ensures forall j :: 0 <= j < i ==> m[j].name != name
  {
    if m == [] then 0
    else if m[0].name == name then 0
    else
      var i := IndexOf(m[1..], name);
      assert forall j :: 1 <= j < i + 1 ==> m[j] == m[1..][j - 1];
      i + 1
  }

  function AppendLine(m: HeaderMap, l: Line): HeaderMap {
    var i := IndexOf(m, l.name);
    if i < |m| then m[i := Group(l.name, m[i].values + [l.value])]
    else m + [Group(l.name, [l.value])]
  }

  /** The first value of a header, if there is one. */
  function Lookup(m: HeaderMap, name: bytes): Option<bytes> {
    var i := IndexOf(m, name);
    if i < |m| && m[i].values != [] then Some(m[i].values[0]) else None
  }

  function Collect(lines: seq<Line>): HeaderMap {
    if lines == [] then [] else AppendLine(Collect(lines[..|lines| - 1]), lines[|lines| - 1])
  }

  function GroupLines(g: Group): (ls: seq<Line>)
    ensures |ls| == |g.values|
  {
    seq(|g.values|, i requires 0 <= i < |g.values| => Line(g.name, g.values[i]))
  }

  /** The field lines in iteration order. */
  function Lines(m: HeaderMap): seq<Line> {
    if m == [] then [] else Lines(m[..|m| - 1]) + GroupLines(m[|m| - 1])
  }

  /** Path and query, split at the first question mark. */
  function SplitQuery(pq: bytes): (r: (bytes, Option<bytes>))
    ensures pq == JoinQuery(r.0, r.1)
    ensures QUESTION_MARK !in r.0
  {
    if pq == [] then ([], None)
    else if pq[0] == QUESTION_MARK then ([], Some(pq[1..]))
    else
      var (p, q) := SplitQuery(pq[1..]);
      assert pq == [pq[0]] + pq[1..];
      JoinQueryFront(pq[0], p, q);
      ([pq[0]] + p, q)
  }

  lemma JoinQueryFront(b: byte, path: bytes, query: Option<bytes>)
    ensures [b] + JoinQuery(path, query) == JoinQuery([b] + path, query)
  {
    if query.Some? {
      assert [b] + (path + [QUESTION_MARK] + query.value) == [b] + path + [QUESTION_MARK] + query.value;
    }
  }

  function JoinQuery(path: bytes, query: Option<bytes>): bytes {
    match query
    case None => path
    case Some(q) => path + [QUESTION_MARK] + q
  }

  lemma {:induction false} SplitJoinQuery(path: bytes, query: Option<bytes>)
    requires QUESTION_MARK !in path
    ensures SplitQuery(JoinQuery(path, query)) == (path, query)
  {
    var pq := JoinQuery(path, query);
    if path != [] {
      assert pq[1..] == JoinQuery(path[1..], query);
      SplitJoinQuery(path[1..], query);
      assert path == [path[0]] + path[1..];
    } else if query.Some? {
      assert pq[1..] == query.value;
    }
  }

  // ---------- header maps ----------

  lemma AppendWellFormed(m: HeaderMap, l: Line)
    requires WellFormed(m)
    ensures WellFormed(AppendLine(m, l))
  {
    var i := IndexOf(m, l.name);
    var r := AppendLine(m, l);
    forall j, k | 0 <= j < k < |r|
      ensures r[j].name != r[k].name
    {
      assert j < |m| && (k < |m| || l.name == r[k].name);
    }
  }

  /** Appending never changes which value of a header comes first. */
  lemma LookupAppend(m: HeaderMap, l: Line, name: bytes)
    requires WellFormed(m)
    ensures Lookup(AppendLine(m, l), name) ==
            if Lookup(m, name).Some? then Lookup(m, name) else if l.name == name then Some(l.value) else None
  {
    var i, k := IndexOf(m, l.name), IndexOf(m, name);
    var r := AppendLine(m, l);
    var k' := IndexOf(r, name);
    AppendWellFormed(m, l);
    if k < |m| {
      assert r[k].name == name;
      assert k' == k;
    } else if l.name == name {
      assert r[|m|].name == name;
      assert k' == |m|;
    } else {
      assert forall j :: 0 <= j < |r| ==> r[j].name != name;
    }
  }

  lemma {:induction false} CollectWellFormed(lines: seq<Line>)
    ensures WellFormed(Collect(lines))
  {
    if lines != [] {
      CollectWellFormed(lines[..|lines| - 1]);
      AppendWellFormed(Collect(lines[..|lines| - 1]), lines[|lines| - 1]);
    }
  }

  /** The values of a header in a map. */
  function Values(m: HeaderMap, name: bytes): seq<bytes> {
    var i := IndexOf(m, name);
    if i < |m| then m[i].values else []
  }

  /** The values that lines with that name carry, in the order of the lines. */
  function ValuesOf(lines: seq<Line>, name: bytes): seq<bytes> {
    if lines == [] then []
    else (if lines[0].name == name then [lines[0].value] else []) + ValuesOf(lines[1..], name)
  }

  function Names(m: HeaderMap): (ns: seq<bytes>)
    ensures |ns| == |m|
  {
    seq(|m|, i requires 0 <= i < |m| => m[i].name)
  }

  /** The names of the lines in order of first appearance. */
  function FirstNames(lines: seq<Line>): seq<bytes> {
    if lines == [] then []
    else
      var before, last := FirstNames(lines[..|lines| - 1]), lines[|lines| - 1].name;
      if last in before then before else before + [last]
  }

  lemma AppendValues(m: HeaderMap, l: Line, name: bytes)
    requires WellFormed(m)
    ensures Values(AppendLine(m, l), name) == Values(m, name) + if l.name == name then [l.value] else []
    ensures Names(AppendLine(m, l)) == if l.name in Names(m) then Names(m) else Names(m) + [l.name]
  {
    var i, k := IndexOf(m, l.name), IndexOf(m, name);
    var r := AppendLine(m, l);
    AppendWellFormed(m, l);
    if i < |m| {
      assert Names(m)[i] == l.name;
      assert Names(r) == Names(m);
    } else {
      assert l.name !in Names(m);
      assert Names(r) == Names(m) + [l.name];
    }
    if k < |m| {
      assert r[k].name == name;
      assert IndexOf(r, name) == k;
    } else if l.name == name {
      assert r[|m|].name == name;
      assert IndexOf(r, name) == |m|;
    } else {
      assert forall j :: 0 <= j < |r| ==> r[j].name != name;
    }
  }

  lemma {:induction false} ValuesOfLast(lines: seq<Line>, l: Line, name: bytes)
    ensures ValuesOf(lines + [l], name) == ValuesOf(lines, name) + if l.name == name then [l.value] else []
  {
    if lines == [] {
      assert ([] + [l])[1..] == [];
    } else {
      assert (lines + [l])[1..] == lines[1..] + [l];
      ValuesOfLast(lines[1..], l, name);
    }
  }

  /** Lines in any order, interleaved or not: each header keeps exactly its own values in their order,
      and the headers stand in order of first appearance. */
  lemma {:induction false} CollectKeepsOrder(lines: seq<Line>, name: bytes)
    ensures Values(Collect(lines), name) == ValuesOf(lines, name)
    ensures Names(Collect(lines)) == FirstNames(lines)
  {
    hide AppendLine, Values, Names;
    if lines == [] {
      NothingCollected(name);
    } else {
      var init, last := lines[..|lines| - 1], lines[|lines| - 1];
      CollectKeepsOrder(init, name);
      CollectWellFormed(init);
      AppendValues(Collect(init), last, name);
      ValuesOfLast(init, last, name);
      assert lines == init + [last];
    }
  }

  lemma NothingCollected(name: bytes)
    ensures Values([], name) == [] && Names([]) == []
  {
  }

  /** A header found in a prefix of the lines is found with the same value in all of them. */
  lemma {:induction false} LookupPrefix(lines: seq<Line>, n: nat, name: bytes)
    requires n <= |lines|
    requires Lookup(Collect(lines[..n]), name).Some?
    ensures Lookup(Collect(lines), name) == Lookup(Collect(lines[..n]), name)
  {
    if n == |lines| {
      assert lines[..n] == lines;
    } else {
      var init := lines[..|lines| - 1];
      assert init[..n] == lines[..n];
      LookupPrefix(init, n, name);
      CollectWellFormed(init);
      LookupAppend(Collect(init), lines[|lines| - 1], name);
    }
  }

  /** The lines of a map, read one by one, build the map again. */
  lemma {:induction false} CollectLines(m: HeaderMap)
    requires WellFormed(m)
    ensures Collect(Lines(m)) == m
  {
    hide AppendLine;
    if m != [] {
      var init, last := m[..|m| - 1], m[|m| - 1];
      CollectLines(init);
      CollectGroup(Lines(init), init, last, |last.values|);
      assert GroupLines(last)[..|last.values|] == GroupLines(last);
      assert Lines(m) == Lines(init) + GroupLines(last);
      assert Group(last.name, last.values[..|last.values|]) == last by {
        assert last.values[..|last.values|] == last.values;
      }
      assert init + [last] == m;
    }
  }

  lemma {:induction false} CollectGroup(base: seq<Line>, m: HeaderMap, g: Group, n: nat)
    requires n <= |g.values| && Collect(base) == m
    requires forall i :: 0 <= i < |m| ==> m[i].name != g.name
    ensures Collect(base + GroupLines(g)[..n]) == Grown(m, g, n)
  {
    hide AppendLine, Collect, Grown;
    if n == 0 {
      assert base + GroupLines(g)[..0] == base;
      GrownNone(m, g);
    } else {
      CollectGroup(base, m, g, n - 1);
      CollectLast(base + GroupLines(g)[..n - 1], Line(g.name, g.values[n - 1]));
      OneMoreLine(base, g, n);
      GrowGroup(m, g, n);
    }
  }

  lemma GrownNone(m: HeaderMap, g: Group)
    ensures Grown(m, g, 0) == m
  {
  }

  lemma OneMoreLine(base: seq<Line>, g: Group, n: nat)
    requires 0 < n <= |g.values|
    ensures base + GroupLines(g)[..n] == base + GroupLines(g)[..n - 1] + [Line(g.name, g.values[n - 1])]
  {
  }

  lemma CollectLast(lines: seq<Line>, l: Line)
    ensures Collect(lines + [l]) == AppendLine(Collect(lines), l)
  {
    assert (lines + [l])[..|lines|] == lines;
  }

  /** `m` after the first `n` values of the new group `g`. */
  function Grown(m: HeaderMap, g: Group, n: nat): HeaderMap
    requires n <= |g.values|
  {
    if n == 0 then m else m + [Group(g.name, g.values[..n])]
  }

  lemma GrowGroup(m: HeaderMap, g: Group, n: nat)
    requires 0 < n <= |g.values|
    requires forall i :: 0 <= i < |m| ==> m[i].name != g.name
    ensures AppendLine(Grown(m, g, n - 1), Line(g.name, g.values[n - 1])) == Grown(m, g, n)
  {
    var before := Grown(m, g, n - 1);
    if n == 1 {
      assert g.values[..1] == [g.values[0]];
    } else {
      assert before[|m|].name == g.name;
      assert g.values[..n - 1] + [g.values[n - 1]] == g.values[..n];
    }
    assert IndexOf(before, g.name) == |m|;
  }
}
