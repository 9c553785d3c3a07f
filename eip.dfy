/**
  `EIPBetweennessCentrality.py`: every author of every EIP row is reduced
  to a last-name key, the keys of one row are paired into a weighted
  undirected graph, self-loops and then isolated nodes are removed, the
  keys' occurrences are tallied, and the twenty best-scored keys are
  reported with their tally.
 */
module EipPipeline {
  import opened PyText
  import opened WeightedGraph
  import opened Centrality

  // ---------------------------------------------------------------------
  // get_last_name

  /** `get_last_name(full_name)`: the last `split()` token, or the name itself when it has none. */
  function GetLastName(full: string): (last: string)
    ensures last == full || (last != [] && NoSpace(last))
  {
    var ws := Words(full);
    if |ws| > 0 then ws[|ws| - 1] else full
  }

  /**
    A name with a token gives its last token: a non-empty run of
    non-whitespace characters that starts the name or follows a whitespace
    character, and after which only whitespace remains.
   */
  lemma LastNameIsLastToken(full: string) returns (i: nat, j: nat)
    requires !AllSpace(full)
    ensures i < j <= |full| && GetLastName(full) == full[i..j]
    ensures NoSpace(full[i..j])
    ensures i == 0 || IsSpace(full[i - 1])
    ensures AllSpace(full[j..])
  {
    WordsNone(full);
    i, j := LastWordSpan(full);
    assert Words(full)[|Words(full)| - 1] in Words(full);
  }

  /** A name that is empty or all whitespace is returned unchanged. */
  lemma LastNameOfBlank(full: string)
    requires AllSpace(full)
    ensures GetLastName(full) == full
  {
    WordsNone(full);
  }

  /** The key of an entry is stripped, made of the entry's characters, and empty exactly for a blank entry. */
  lemma KeyOfEntry(entry: string)
    ensures var key := GetLastName(Strip(entry));
            && IsStripped(key)
            && (key == [] <==> AllSpace(entry))
            && (forall c :: c in key ==> c in entry)
  {
    var s := Strip(entry);
    StripBlank(entry);
    var a := StripSpan(entry);
    if AllSpace(s) {
      LastNameOfBlank(s);
    } else {
      var i, j := LastNameIsLastToken(s);
    }
  }

  /**
    `get_last_name(author.strip())` for one entry of `row['Author'].split(',')`:
    a key never begins or ends with whitespace, holds only characters of its
    entry, and is empty exactly when the entry is blank.
   */
  function AuthorKey(entry: string): (key: string)
    ensures IsStripped(key)
    ensures key == [] <==> AllSpace(entry)
    ensures forall c :: c in key ==> c in entry
  {
    KeyOfEntry(entry);
    GetLastName(Strip(entry))
  }

  /**
    The keys of one row, one per comma-separated entry, in order: one more
    key than the field has commas, none of them holding a comma.
   */
  function RowKeys(field: string): (keys: seq<string>)
    ensures |keys| == multiset(field)[','] + 1
    ensures forall k :: 0 <= k < |keys| ==> IsStripped(keys[k]) && ',' !in keys[k]
    ensures var parts := Split(field, ",");
            |keys| == |parts| && forall k :: 0 <= k < |keys| ==> keys[k] == AuthorKey(parts[k])
  {
    var parts := Split(field, ",");
    SplitCount(field, ',');
    SplitPiecesPlain(field, ',');
    seq(|parts|, k requires 0 <= k < |parts| => AuthorKey(parts[k]))
  }

  /** The key lists of all rows, in row order. */
  function KeyRows(fields: seq<string>): (lists: seq<seq<string>>)
    ensures |lists| == |fields| && forall r :: 0 <= r < |fields| ==> lists[r] == RowKeys(fields[r])
  {
    seq(|fields|, r requires 0 <= r < |fields| => RowKeys(fields[r]))
  }

  /** Every key of every row. */
  function KeysOf(lists: seq<seq<string>>): set<string>
  {
    if lists == [] then {} else KeysOf(lists[..|lists| - 1]) + Elems(lists[|lists| - 1])
  }

  /** A key belongs to the key set exactly when some row holds it. */
  lemma {:induction false} KeysOfMembers(lists: seq<seq<string>>, x: string)
    ensures x in KeysOf(lists) <==> exists r :: 0 <= r < |lists| && x in lists[r]
  {
    if lists != [] {
      var init := lists[..|lists| - 1];
      KeysOfMembers(init, x);
      if exists r :: 0 <= r < |init| && x in init[r] {
        var r :| 0 <= r < |init| && x in init[r];
        assert lists[r] == init[r];
      }
      if exists r :: 0 <= r < |lists| && x in lists[r] {
        var r :| 0 <= r < |lists| && x in lists[r];
        if r < |init| {
          assert init[r] == lists[r];
        }
      }
    }
  }

  // ---------------------------------------------------------------------
  // The graph loop, self-loop removal and isolate removal

  lemma PairedNodesAreElems(xs: seq<string>)
    ensures PairedNodes(xs) <= Elems(xs)
  {
  }

  /** Lines 22-24: every key of the row that is not yet a node becomes one. */
  method AddNodes(g: Graph, authors: seq<string>)
    requires g.Valid()
    modifies g
    ensures g.Valid()
    ensures g.nodes == old(g.nodes) + Elems(authors) && g.weight == old(g.weight)
  {
    for k := 0 to |authors|
      invariant g.Valid()
      invariant g.nodes == old(g.nodes) + Elems(authors[..k]) && g.weight == old(g.weight)
    {
      if authors[k] !in g.nodes {
        g.AddNode(authors[k]);
      }
      assert authors[..k + 1] == authors[..k] + [authors[k]];
    }
    assert authors[..|authors|] == authors;
  }

  /**
    The loop of lines 20-30: every key of every row becomes a node, and the
    weight of `{u, v}` is the number of index pairs naming `u` and `v`,
    over all rows.
   */
  method BuildLastNameGraph(fields: seq<string>) returns (g: Graph)
    ensures fresh(g) && g.Valid()
    ensures g.nodes == KeysOf(KeyRows(fields))
    ensures forall u, v :: Weight(g.Value(), u, v) == TotalPairs(KeyRows(fields), u, v)
  {
    var lists := KeyRows(fields);
    g := new Graph();
    for r := 0 to |fields|
      invariant g.Valid()
      invariant g.nodes == KeysOf(lists[..r])
      invariant forall u, v :: Weight(g.Value(), u, v) == TotalPairs(lists[..r], u, v)
    {
      var authors := RowKeys(fields[r]);
      AddNodes(g, authors);
      AddPairs(g, authors);
      PairedNodesAreElems(authors);
      RowsStep(lists, r);
    }
    assert lists[..|fields|] == lists;
  }

  /**
    The graph left by lines 33-38 for the given key lists: no self-loop,
    every other weight as the loop counted it, and as nodes exactly the
    keys that share a row with a different key.
   */
  ghost predicate IsPrunedGraph(g: UGraph, lists: seq<seq<string>>)
  {
    && IsUndirected(g)
    && (forall u, v :: Weight(g, u, v) == if u == v then 0 else TotalPairs(lists, u, v))
    && (forall u :: u in g.nodes <==> exists v :: u != v && TotalPairs(lists, u, v) > 0)
  }

  /**
    `remove_edges_from(selfloop_edges(G))` followed by
    `remove_nodes_from(list(isolates(G)))`: loops go, every other edge stays
    with its weight, and a node stays exactly when it has an edge to a
    different node.
   */
  method Prune(g: Graph)
    requires g.Valid()
    modifies g
    ensures g.Valid()
    ensures forall u, v :: Weight(g.Value(), u, v) == if u == v then 0 else old(Weight(g.Value(), u, v))
    ensures forall u :: u in g.nodes <==> u in old(g.nodes) && exists v :: u != v && old(Weight(g.Value(), u, v)) > 0
  {
    g.RemoveSelfLoops();
    var isolates := Isolates(g.Value());
    g.RemoveNodes(isolates);
    forall u | u in g.nodes ensures exists v :: u != v && old(Weight(g.Value(), u, v)) > 0 {
      var v :| Weight(g.Value(), u, v) != 0;
    }
  }

  /** After pruning, every node has an edge, so no node is isolated. */
  lemma PrunedHasNoIsolates(g: UGraph, lists: seq<seq<string>>)
    requires IsPrunedGraph(g, lists)
    ensures Isolates(g) == {}
  {
    forall u | u in g.nodes ensures exists v :: Weight(g, u, v) > 0 {
      var v :| u != v && TotalPairs(lists, u, v) > 0;
      assert Weight(g, u, v) > 0;
    }
  }

  lemma {:induction false} TotalPairsPositive(lists: seq<seq<string>>, u: string, v: string)
    ensures TotalPairs(lists, u, v) > 0 <==> exists r :: 0 <= r < |lists| && PairCount(lists[r], u, v) > 0
  {
    if lists != [] {
      var init := lists[..|lists| - 1];
      TotalPairsPositive(init, u, v);
      if exists r :: 0 <= r < |init| && PairCount(init[r], u, v) > 0 {
        var r :| 0 <= r < |init| && PairCount(init[r], u, v) > 0;
        assert lists[r] == init[r];
      }
      if exists r :: 0 <= r < |lists| && PairCount(lists[r], u, v) > 0 {
        var r :| 0 <= r < |lists| && PairCount(lists[r], u, v) > 0;
        if r < |init| {
          assert init[r] == lists[r];
        }
      }
    }
  }

  /**
    A key survives the pruning exactly when some row holds it together with
    a different key; a key that only ever shared rows with itself is gone.
   */
  lemma PrunedNodeMeaning(lists: seq<seq<string>>, u: string)
    ensures (exists v :: u != v && TotalPairs(lists, u, v) > 0) <==>
            (exists r, v :: 0 <= r < |lists| && u in lists[r] && v in lists[r] && u != v)
  {
    if exists v :: u != v && TotalPairs(lists, u, v) > 0 {
      var v :| u != v && TotalPairs(lists, u, v) > 0;
      TotalPairsPositive(lists, u, v);
      var r :| 0 <= r < |lists| && PairCount(lists[r], u, v) > 0;
      PairCountPositive(lists[r], u, v);
    }
    if exists r, v :: 0 <= r < |lists| && u in lists[r] && v in lists[r] && u != v {
      var r, v :| 0 <= r < |lists| && u in lists[r] && v in lists[r] && u != v;
      PairCountPositive(lists[r], u, v);
      TotalPairsPositive(lists, u, v);
    }
  }

  // ---------------------------------------------------------------------
  // author_eip_count

  /** Occurrences of key `a` over all rows, repeats inside one row included. */
  function Occurrences(lists: seq<seq<string>>, a: string): nat
  {
    if lists == [] then 0 else Occurrences(lists[..|lists| - 1], a) + Count(lists[|lists| - 1], a)
  }

  /** The number of author entries over all rows. */
  function TotalEntries(lists: seq<seq<string>>): nat
  {
    if lists == [] then 0 else TotalEntries(lists[..|lists| - 1]) + |lists[|lists| - 1]|
  }

  /** The sum of a tally's values. */
  ghost function MapSum(m: map<string, nat>): nat
    decreases |m.Keys|
  {
    if m == map[] then 0
    else
      var k :| k in m;
      assert (m - {k}).Keys == m.Keys - {k};
      m[k] + MapSum(m - {k})
  }

  /** The sum does not depend on which key is taken out first. */
  lemma MapSumRemove(m: map<string, nat>, k: string)
    requires k in m
    ensures MapSum(m) == m[k] + MapSum(m - {k})
    decreases |m.Keys|
  {
    var j :| j in m && MapSum(m) == m[j] + MapSum(m - {j});
    if j != k {
      assert (m - {j}).Keys == m.Keys - {j};
      assert (m - {k}).Keys == m.Keys - {k};
      MapSumRemove(m - {j}, k);
      MapSumRemove(m - {k}, j);
      assert m - {j} - {k} == m - {k} - {j};
    }
  }

  /** `author_eip_count.get(a, 0)`. */
  function Get(m: map<string, nat>, a: string): nat
  {
    if a in m then m[a] else 0
  }

  /**
    `author_eip_count[a] = author_eip_count.get(a, 0) + 1`: `a` becomes a key
    and its count goes up by one; every other count stays.
   */
  function Bump(m: map<string, nat>, a: string): (r: map<string, nat>)
    ensures r.Keys == m.Keys + {a}
    ensures forall b :: Get(r, b) == Get(m, b) + if a == b then 1 else 0
  {
    m[a := Get(m, a) + 1]
  }

  /** One bump adds one to the sum of the counts. */
  lemma MapSumBump(m: map<string, nat>, a: string)
    ensures MapSum(Bump(m, a)) == MapSum(m) + 1
  {
    var m' := Bump(m, a);
    MapSumRemove(m', a);
    if a in m {
      MapSumRemove(m, a);
      assert m' - {a} == m - {a};
    } else {
      assert m' - {a} == m;
    }
  }

  lemma {:induction false} CountSnoc(xs: seq<string>, y: string, x: string)
    ensures Count(xs + [y], x) == Count(xs, x) + if y == x then 1 else 0
  {
    if xs != [] {
      assert (xs + [y])[1..] == xs[1..] + [y];
      CountSnoc(xs[1..], y, x);
    } else {
      assert [y][1..] == [];
    }
  }

  /** The inner loop of lines 63-64 for one row's keys. */
  method TallyRow(count: map<string, nat>, authors: seq<string>) returns (next: map<string, nat>)
    ensures next.Keys == count.Keys + Elems(authors)
    ensures forall a :: Get(next, a) == Get(count, a) + Count(authors, a)
    ensures MapSum(next) == MapSum(count) + |authors|
  {
    next := count;
    for k := 0 to |authors|
      invariant next.Keys == count.Keys + Elems(authors[..k])
      invariant forall a :: Get(next, a) == Get(count, a) + Count(authors[..k], a)
      invariant MapSum(next) == MapSum(count) + k
    {
      var a := authors[k];
      MapSumBump(next, a);
      next := Bump(next, a);
      assert authors[..k + 1] == authors[..k] + [a];
      assert Elems(authors[..k + 1]) == Elems(authors[..k]) + {a};
      forall b ensures Count(authors[..k + 1], b) == Count(authors[..k], b) + if a == b then 1 else 0 {
        CountSnoc(authors[..k], a, b);
      }
    }
    assert authors[..|authors|] == authors;
  }

  lemma RowsStep(lists: seq<seq<string>>, r: nat)
    requires r < |lists|
    ensures KeysOf(lists[..r + 1]) == KeysOf(lists[..r]) + Elems(lists[r])
    ensures forall a :: Occurrences(lists[..r + 1], a) == Occurrences(lists[..r], a) + Count(lists[r], a)
    ensures TotalEntries(lists[..r + 1]) == TotalEntries(lists[..r]) + |lists[r]|
    ensures forall u, v :: TotalPairs(lists[..r + 1], u, v) == TotalPairs(lists[..r], u, v) + PairCount(lists[r], u, v)
  {
    assert lists[..r + 1][..r] == lists[..r];
  }

  /**
    The tally loop of lines 60-64: a key is in the tally exactly when some
    row holds it, its value is its number of occurrences, and the values
    add up to the number of author entries.
   */
  method AuthorEipCount(fields: seq<string>) returns (count: map<string, nat>)
    ensures count.Keys == KeysOf(KeyRows(fields))
    ensures forall a :: Get(count, a) == Occurrences(KeyRows(fields), a)
    ensures MapSum(count) == TotalEntries(KeyRows(fields))
  {
    var lists := KeyRows(fields);
    count := map[];
    for r := 0 to |fields|
      invariant count.Keys == KeysOf(lists[..r])
      invariant forall a :: Get(count, a) == Occurrences(lists[..r], a)
      invariant MapSum(count) == TotalEntries(lists[..r])
    {
      count := TallyRow(count, RowKeys(fields[r]));
      RowsStep(lists, r);
    }
    assert lists[..|fields|] == lists;
  }

  // ---------------------------------------------------------------------
  // The top-20 report

  /** One `(author, centrality, author_eip_count[author])` triple of the report. */
  datatype Report = Report(author: string, centrality: real, eips: nat)

  predicate Descending(s: seq<Scored>)
  {
    forall i, j | 0 <= i < j < |s| :: s[i].score >= s[j].score
  }

  /** `x` placed after every entry of `s` whose score is at least its own. */
  function InsertDesc(s: seq<Scored>, x: Scored): (r: seq<Scored>)
    ensures multiset(r) == multiset(s) + multiset{x} && |r| == |s| + 1
  {
    if s == [] then [x]
    else
      var init := s[..|s| - 1];
      var last := s[|s| - 1];
      assert s == init + [last];
      if last.score >= x.score then s + [x] else InsertDesc(init, x) + [last]
  }

  /** Inserting into a descending list keeps it descending. */
  lemma {:induction false} InsertDescSorted(s: seq<Scored>, x: Scored)
    requires Descending(s)
    ensures Descending(InsertDesc(s, x))
  {
    if s != [] {
      var init := s[..|s| - 1];
      var last := s[|s| - 1];
      assert s == init + [last];
      if last.score >= x.score {
        var r := s + [x];
        assert InsertDesc(s, x) == r;
        forall i, j | 0 <= i < j < |r| ensures r[i].score >= r[j].score {
          if j == |s| {
            assert s[i].score >= last.score;
          }
        }
      } else {
        InsertDescSorted(init, x);
        var t := InsertDesc(init, x);
        var r := t + [last];
        assert InsertDesc(s, x) == r;
        forall k | 0 <= k < |t| ensures t[k].score >= last.score {
          assert t[k] in multiset(t);
          if t[k] != x {
            assert t[k] in multiset(init);
            var m :| 0 <= m < |init| && init[m] == t[k];
            assert s[m] == init[m];
          }
        }
        forall i, j | 0 <= i < j < |r| ensures r[i].score >= r[j].score {
          if j < |t| {
            assert r[i] == t[i] && r[j] == t[j];
          }
        }
      }
    }
  }

  /**
    `sorted(items, key=lambda x: x[1], reverse=True)`: Python's sort is
    stable also when reversed, so entries of equal score keep their order.
   */
  function SortDesc(items: seq<Scored>): (r: seq<Scored>)
    ensures multiset(r) == multiset(items) && |r| == |items|
    ensures Descending(r)
  {
    if items == [] then []
    else
      var init := items[..|items| - 1];
      assert items == init + [items[|items| - 1]];
      InsertDescSorted(SortDesc(init), items[|items| - 1]);
      InsertDesc(SortDesc(init), items[|items| - 1])
  }

  /** The entries of `s` whose score is `v`, in order. */
  function WithScore(s: seq<Scored>, v: real): seq<Scored>
  {
    if s == [] then [] else WithScore(s[..|s| - 1], v) + (if s[|s| - 1].score == v then [s[|s| - 1]] else [])
  }

  lemma WithScoreSnoc(s: seq<Scored>, y: Scored, v: real)
    ensures WithScore(s + [y], v) == WithScore(s, v) + (if y.score == v then [y] else [])
  {
    assert (s + [y])[..|s|] == s;
  }

  lemma {:induction false} WithScoreInsert(s: seq<Scored>, x: Scored, v: real)
    ensures WithScore(InsertDesc(s, x), v) == WithScore(s, v) + (if x.score == v then [x] else [])
  {
    if s == [] {
      WithScoreSnoc([], x, v);
      assert [] + [x] == [x];
    } else {
      var init := s[..|s| - 1];
      var last := s[|s| - 1];
      assert s == init + [last];
      if last.score >= x.score {
        assert InsertDesc(s, x) == s + [x];
        WithScoreSnoc(s, x, v);
      } else {
        var t := InsertDesc(init, x);
        assert InsertDesc(s, x) == t + [last];
        WithScoreSnoc(t, last, v);
        WithScoreSnoc(init, last, v);
        WithScoreInsert(init, x, v);
        // `last` scores below `x`, so at most one of the two has score `v`.
        if x.score == v {
          assert WithScore(s, v) == WithScore(init, v);
          assert WithScore(t + [last], v) == WithScore(init, v) + [x];
        } else {
          assert WithScore(t + [last], v) == WithScore(t, v) + (if last.score == v then [last] else []);
        }
      }
    }
  }

  /** Stability: the entries of any one score appear in the sorted list in their original order. */
  lemma {:induction false} SortStable(items: seq<Scored>, v: real)
    ensures WithScore(SortDesc(items), v) == WithScore(items, v)
  {
    if items != [] {
      var init := items[..|items| - 1];
      SortStable(init, v);
      WithScoreInsert(SortDesc(init), items[|items| - 1], v);
    }
  }

  /** Every scored node has a tally entry, so `author_eip_count[author]` is defined. */
  predicate AllCounted(items: seq<Scored>, count: map<string, nat>)
  {
    forall i :: 0 <= i < |items| ==> items[i].node in count
  }

  lemma SortKeepsCounted(items: seq<Scored>, count: map<string, nat>)
    requires AllCounted(items, count)
    ensures AllCounted(SortDesc(items), count)
  {
    var s := SortDesc(items);
    forall k | 0 <= k < |s| ensures s[k].node in count {
      assert s[k] in multiset(s);
      var i :| 0 <= i < |items| && items[i] == s[k];
    }
  }

  function Min(a: int, b: int): int
  {
    if a < b then a else b
  }

  /**
    The report of lines 67-68: the first twenty entries of the stably
    sorted items, in that order, each with its tally.
   */
  function Top20(items: seq<Scored>, count: map<string, nat>): (report: seq<Report>)
    requires AllCounted(items, count)
    ensures |report| == Min(20, |items|)
    ensures forall k | 0 <= k < |report| :: Scored(report[k].author, report[k].centrality) == SortDesc(items)[k]
    ensures forall k :: 0 <= k < |report| ==> report[k].author in count && report[k].eips == count[report[k].author]
    ensures forall k, l | 0 <= k < l < |report| :: report[k].centrality >= report[l].centrality
  {
    SortKeepsCounted(items, count);
    var s := SortDesc(items);
    var n := Min(20, |items|);
    seq(n, k requires 0 <= k < n => Report(s[k].node, s[k].score, count[s[k].node]))
  }

  /** Nothing left out of the report scores above its last entry. */
  lemma Top20Dominates(items: seq<Scored>, count: map<string, nat>, i: int)
    requires AllCounted(items, count) && 0 <= i < |items|
    ensures var report := Top20(items, count);
            items[i].score > report[|report| - 1].centrality ==>
              exists k :: 0 <= k < |report| && report[k].author == items[i].node && report[k].centrality == items[i].score
  {
    var report := Top20(items, count);
    var s := SortDesc(items);
    assert items[i] in multiset(items);
    var p :| 0 <= p < |s| && s[p] == items[i];
    if p < |report| {
      assert report[p].author == items[i].node && report[p].centrality == items[i].score;
    }
  }

  // ---------------------------------------------------------------------
  // The script

  /**
    The whole script: the pruned last-name graph, its centrality scores
    unchanged, the tally, and the report built from them.
   */
  method EipScript(fields: seq<string>, centrality: UGraph -> seq<Scored>)
    returns (g: UGraph, bc: seq<Scored>, count: map<string, nat>, report: seq<Report>)
    requires IsCentrality(centrality)
    ensures IsPrunedGraph(g, KeyRows(fields))
    ensures bc == centrality(g)
    ensures count.Keys == KeysOf(KeyRows(fields))
    ensures forall a :: Get(count, a) == Occurrences(KeyRows(fields), a)
    ensures AllCounted(bc, count) && report == Top20(bc, count)
  {
    var lists := KeyRows(fields);
    var graph := BuildLastNameGraph(fields);
    Prune(graph);
    g := graph.Value();
    bc := centrality(g);
    count := AuthorEipCount(fields);
    assert ScoresGraph(bc, g);
    forall i | 0 <= i < |bc| ensures bc[i].node in count {
      assert bc[i].node in ScoredNodes(bc);
    }
    report := Top20(bc, count);
  }
}
