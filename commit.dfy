/**
  `CommitBetweennessCentrality.py`: commit rows are deduplicated and
  grouped per EIP, excluded author names are removed, and the weighted
  co-authorship graph is built from each EIP's author list. The subgraph
  of the nodes with a positive centrality score is returned with the
  scores.
 */
module CommitPipeline {
  import opened PyText
  import opened WeightedGraph
  import opened Centrality

  /**
    One row of the commits table: its `EIP_Number`, its `Author` field and
    the remaining columns. `drop_duplicates` compares whole rows.
   */
  datatype CommitRow = CommitRow(eip: int, author: string, others: seq<string>)

  /** One row of `format_input_data`'s result: an EIP number and its cleaned author string. */
  datatype EipAuthors = EipAuthors(eip: int, authors: string)

  // ---------------------------------------------------------------------
  // remove_names

  /** Every entry stripped, in order. */
  function Stripped(parts: seq<string>): (r: seq<string>)
    ensures |r| == |parts|
  {
    if parts == [] then [] else [Strip(parts[0])] + Stripped(parts[1..])
  }

  lemma {:induction false} StrippedAt(parts: seq<string>, i: nat)
    requires i < |parts|
    ensures Stripped(parts)[i] == Strip(parts[i])
  {
    if i > 0 {
      StrippedAt(parts[1..], i - 1);
    }
  }

  lemma {:induction false} StrippedAppend(a: seq<string>, b: seq<string>)
    ensures Stripped(a + b) == Stripped(a) + Stripped(b)
  {
    if a == [] {
      assert a + b == b;
    } else {
      assert (a + b)[0] == a[0] && (a + b)[1..] == a[1..] + b;
      StrippedAppend(a[1..], b);
    }
  }

  /** The entries of `xs` that are not excluded, in their original order. */
  function Keep(xs: seq<string>, excluded: set<string>): (r: seq<string>)
    ensures |r| <= |xs|
  {
    if xs == [] then [] else (if xs[0] in excluded then [] else [xs[0]]) + Keep(xs[1..], excluded)
  }

  lemma {:induction false} KeepMembers(xs: seq<string>, excluded: set<string>, x: string)
    ensures x in Keep(xs, excluded) <==> x in xs && x !in excluded
  {
    if xs != [] {
      KeepMembers(xs[1..], excluded, x);
      assert xs == [xs[0]] + xs[1..];
    }
  }

  lemma {:induction false} KeepAppend(a: seq<string>, b: seq<string>, excluded: set<string>)
    ensures Keep(a + b, excluded) == Keep(a, excluded) + Keep(b, excluded)
  {
    if a == [] {
      assert a + b == b;
    } else {
      assert (a + b)[0] == a[0] && (a + b)[1..] == a[1..] + b;
      KeepAppend(a[1..], b, excluded);
    }
  }

  /**
    The comprehension in `remove_names`: every entry stripped, those whose
    stripped form is excluded dropped, the rest in their original order.
   */
  function KeptNames(parts: seq<string>, excluded: set<string>): seq<string>
  {
    Keep(Stripped(parts), excluded)
  }

  /**
    A name is kept exactly when some entry strips to it and it is not
    excluded; so every kept name is stripped and none is excluded.
   */
  lemma KeptNamesMembers(parts: seq<string>, excluded: set<string>, x: string)
    ensures x in KeptNames(parts, excluded) <==> exists i :: 0 <= i < |parts| && Strip(parts[i]) == x && x !in excluded
    ensures x in KeptNames(parts, excluded) ==> IsStripped(x)
  {
    KeepMembers(Stripped(parts), excluded, x);
    if x in Stripped(parts) {
      var i :| 0 <= i < |parts| && Stripped(parts)[i] == x;
      StrippedAt(parts, i);
    }
    if exists i :: 0 <= i < |parts| && Strip(parts[i]) == x && x !in excluded {
      var i :| 0 <= i < |parts| && Strip(parts[i]) == x && x !in excluded;
      StrippedAt(parts, i);
    }
  }

  /** `remove_names(author_list, names_to_remove)`. */
  function RemoveNames(parts: seq<string>, excluded: set<string>): string
  {
    Join(KeptNames(parts, excluded), ", ")
  }

  /** Filtering two lists one after the other is filtering their concatenation. */
  lemma KeptNamesAppend(a: seq<string>, b: seq<string>, excluded: set<string>)
    ensures KeptNames(a + b, excluded) == KeptNames(a, excluded) + KeptNames(b, excluded)
  {
    StrippedAppend(a, b);
    KeepAppend(Stripped(a), Stripped(b), excluded);
  }

  /**
    Splitting `remove_names`' result on `", "`, as the graph loop does, gives
    back the kept names when there are any, and `[""]` when every name was
    removed. The entries come from a split on `","`, so none holds a comma.
   */
  lemma RemoveNamesRoundTrip(parts: seq<string>, excluded: set<string>)
    requires forall i :: 0 <= i < |parts| ==> ',' !in parts[i]
    ensures var kept := KeptNames(parts, excluded);
            Split(RemoveNames(parts, excluded), ", ") == if kept == [] then [""] else kept
  {
    var kept := KeptNames(parts, excluded);
    if kept != [] {
      forall k | 0 <= k < |kept| ensures ", "[0] !in kept[k] {
        assert kept[k] in kept;
        KeptNamesMembers(parts, excluded, kept[k]);
        var i :| 0 <= i < |parts| && Strip(parts[i]) == kept[k] && kept[k] !in excluded;
        StripKeepsChars(parts[i], ',');
      }
      SplitJoin(kept, ", ");
    }
  }

  // ---------------------------------------------------------------------
  // format_input_data: drop_duplicates, then groupby('EIP_Number')

  /** `drop_duplicates()` keeping the first copy: a row goes when an equal row came before it. */
  function Dedup(rows: seq<CommitRow>): (r: seq<CommitRow>)
    ensures forall x :: x in r <==> x in rows
    ensures forall i, j | 0 <= i < j < |r| :: r[i] != r[j]
  {
    if rows == [] then []
    else
      var init := rows[..|rows| - 1];
      var last := rows[|rows| - 1];
      assert rows == init + [last];
      if last in init then Dedup(init) else Dedup(init) + [last]
  }

  /** A table without repeated rows is left as it is. */
  lemma {:induction false} DedupDistinct(rows: seq<CommitRow>)
    requires forall i, j | 0 <= i < j < |rows| :: rows[i] != rows[j]
    ensures Dedup(rows) == rows
  {
    if rows != [] {
      var init := rows[..|rows| - 1];
      DedupDistinct(init);
      assert rows[|rows| - 1] !in init;
      assert init + [rows[|rows| - 1]] == rows;
    }
  }

  /** Dropping duplicates twice drops nothing more. */
  lemma DedupIdempotent(rows: seq<CommitRow>)
    ensures Dedup(Dedup(rows)) == Dedup(rows)
  {
    DedupDistinct(Dedup(rows));
  }

  /**
    The indices of the first copies among `rows[..m]`, in increasing order:
    `i` is taken when no row before it is equal to `rows[i]`.
   */
  function FirstIndices(rows: seq<CommitRow>, m: nat): (idx: seq<nat>)
    requires m <= |rows|
    ensures forall k :: 0 <= k < |idx| ==> idx[k] < m
    ensures forall k, l | 0 <= k < l < |idx| :: idx[k] < idx[l]
  {
    if m == 0 then []
    else
      var p := FirstIndices(rows, m - 1);
      if rows[m - 1] in rows[..m - 1] then p else p + [m - 1]
  }

  lemma {:induction false} FirstIndicesMembers(rows: seq<CommitRow>, m: nat, i: nat)
    requires i < m <= |rows|
    ensures i in FirstIndices(rows, m) <==> rows[i] !in rows[..i]
  {
    var p := FirstIndices(rows, m - 1);
    if i < m - 1 {
      FirstIndicesMembers(rows, m - 1, i);
    }
  }

  /** One step of `Dedup` on a prefix of the table. */
  lemma DedupStep(rows: seq<CommitRow>, m: nat)
    requires 0 < m <= |rows|
    ensures Dedup(rows[..m]) ==
              if rows[m - 1] in rows[..m - 1] then Dedup(rows[..m - 1]) else Dedup(rows[..m - 1]) + [rows[m - 1]]
  {
    assert rows[..m][..m - 1] == rows[..m - 1];
  }

  lemma {:induction false} DedupPrefix(rows: seq<CommitRow>, m: nat)
    requires m <= |rows|
    ensures var idx := FirstIndices(rows, m);
            |idx| == |Dedup(rows[..m])| && forall k :: 0 <= k < |idx| ==> Dedup(rows[..m])[k] == rows[idx[k]]
  {
    if m > 0 {
      DedupPrefix(rows, m - 1);
      DedupStep(rows, m);
    }
  }

  /**
    `drop_duplicates()` keeps the first copy of every row, in table order:
    the result is `rows` at a strictly increasing sequence of indices, and an
    index is taken exactly when no equal row comes before it.
   */
  lemma DedupKeepsFirst(rows: seq<CommitRow>) returns (idx: seq<nat>)
    ensures |idx| == |Dedup(rows)|
    ensures forall k :: 0 <= k < |idx| ==> idx[k] < |rows| && Dedup(rows)[k] == rows[idx[k]]
    ensures forall k, l | 0 <= k < l < |idx| :: idx[k] < idx[l]
    ensures forall i :: 0 <= i < |rows| ==> (i in idx <==> rows[i] !in rows[..i])
  {
    idx := FirstIndices(rows, |rows|);
    DedupPrefix(rows, |rows|);
    assert rows[..|rows|] == rows;
    forall i | 0 <= i < |rows| ensures i in idx <==> rows[i] !in rows[..i] {
      FirstIndicesMembers(rows, |rows|, i);
    }
  }

  /** Deduplicating a table with one more row at the end. */
  lemma DedupSnoc(p: seq<CommitRow>, y: CommitRow)
    ensures Dedup(p + [y]) == if y in p then Dedup(p) else Dedup(p) + [y]
  {
    assert (p + [y])[..|p|] == p;
  }

  /** A copy of a row inserted anywhere after the row itself is dropped again. */
  lemma {:induction false} DedupInsertCopy(a: seq<CommitRow>, x: CommitRow, b: seq<CommitRow>)
    requires x in a
    ensures Dedup(a + [x] + b) == Dedup(a + b)
    decreases |b|
  {
    if b == [] {
      assert a + [x] + b == a + [x] && a + b == a;
      DedupSnoc(a, x);
    } else {
      var b' := b[..|b| - 1];
      var y := b[|b| - 1];
      assert b == b' + [y];
      DedupInsertCopy(a, x, b');
      assert a + [x] + b == (a + [x] + b') + [y];
      assert a + b == (a + b') + [y];
      DedupSnoc(a + [x] + b', y);
      DedupSnoc(a + b', y);
      assert y in a + [x] + b' <==> y in a + b';
    }
  }

  predicate StrictlyIncreasing(ks: seq<int>)
  {
    forall i, j | 0 <= i < j < |ks| :: ks[i] < ks[j]
  }

  /** `k` put into its place in a strictly increasing list, unless it is there already. */
  function InsertSorted(k: int, ks: seq<int>): (r: seq<int>)
    requires StrictlyIncreasing(ks)
    ensures StrictlyIncreasing(r)
    ensures forall x :: x in r <==> x == k || x in ks
  {
    if ks == [] then [k]
    else if k < ks[0] then [k] + ks
    else if k == ks[0] then ks
    else
      var t := InsertSorted(k, ks[1..]);
      var r := [ks[0]] + t;
      assert forall j | 0 <= j < |t| :: ks[0] < t[j] by {
        forall j | 0 <= j < |t| ensures ks[0] < t[j] {
          assert t[j] in t;
          if t[j] != k {
            var m :| 0 <= m < |ks[1..]| && ks[1..][m] == t[j];
            assert ks[m + 1] == t[j];
          }
        }
      }
      assert forall x :: x in r <==> x == ks[0] || x in t;
      assert ks == [ks[0]] + ks[1..];
      r
  }

  /** The group keys of `groupby('EIP_Number')`: each EIP number once, in increasing order. */
  function EipNumbers(rows: seq<CommitRow>): (r: seq<int>)
    ensures StrictlyIncreasing(r)
    ensures forall x :: x in r <==> exists i :: 0 <= i < |rows| && rows[i].eip == x
  {
    if rows == [] then []
    else
      var init := rows[..|rows| - 1];
      var r := InsertSorted(rows[|rows| - 1].eip, EipNumbers(init));
      forall x | x in r ensures exists i :: 0 <= i < |rows| && rows[i].eip == x {
        if x != rows[|rows| - 1].eip {
          var i :| 0 <= i < |init| && init[i].eip == x;
          assert rows[i] == init[i];
        }
      }
      forall i | 0 <= i < |rows| ensures rows[i].eip in r {
        if i < |rows| - 1 {
          assert init[i] == rows[i];
        }
      }
      r
  }

  /** The `Author` fields of the rows of EIP `e`, in row order. */
  function AuthorsOf(rows: seq<CommitRow>, e: int): seq<string>
  {
    if rows == [] then []
    else AuthorsOf(rows[..|rows| - 1], e) + (if rows[|rows| - 1].eip == e then [rows[|rows| - 1].author] else [])
  }

  /**
    `groupby('EIP_Number')['Author'].apply(', '.join)`: one row per EIP
    number of the table, in increasing order, with that EIP's authors joined.
   */
  function GroupByEip(rows: seq<CommitRow>): (g: seq<EipAuthors>)
    ensures forall i, j | 0 <= i < j < |g| :: g[i].eip < g[j].eip
    ensures GroupedEips(g) == RowEips(rows)
  {
    var ks := EipNumbers(rows);
    var g := seq(|ks|, i requires 0 <= i < |ks| => EipAuthors(ks[i], Join(AuthorsOf(rows, ks[i]), ", ")));
    forall e | e in RowEips(rows) ensures e in GroupedEips(g) {
      assert e in ks;
      var k :| 0 <= k < |ks| && ks[k] == e;
      assert g[k].eip == e;
    }
    forall e | e in GroupedEips(g) ensures e in RowEips(rows) {
      var k :| 0 <= k < |g| && g[k].eip == e;
      assert ks[k] in ks;
    }
    g
  }

  /**
    `remove_names(x.split(','), names_to_remove)` applied to one grouped row:
    the EIP number stays, and the new author string splits on `", "` into
    the row's kept names, or into `[""]` when every name was removed.
   */
  function CleanRow(r: EipAuthors, excluded: set<string>): (c: EipAuthors)
    ensures c.eip == r.eip
    ensures var kept := KeptNames(Split(r.authors, ","), excluded);
            Split(c.authors, ", ") == if kept == [] then [""] else kept
  {
    SplitPiecesPlain(r.authors, ',');
    RemoveNamesRoundTrip(Split(r.authors, ","), excluded);
    EipAuthors(r.eip, RemoveNames(Split(r.authors, ","), excluded))
  }

  /** The table `format_input_data` returns for the given rows. */
  function FormattedRows(rows: seq<CommitRow>, excluded: set<string>): seq<EipAuthors>
  {
    var g := GroupByEip(Dedup(rows));
    seq(|g|, i requires 0 <= i < |g| => CleanRow(g[i], excluded))
  }

  /** The cleaned names of every author field in `fields`, one field after the other. */
  function FlatKept(fields: seq<string>, excluded: set<string>): seq<string>
  {
    if fields == [] then []
    else FlatKept(fields[..|fields| - 1], excluded) + KeptNames(Split(fields[|fields| - 1], ","), excluded)
  }

  /** `"a, b".join` then `split(',')` then strip: the joining `", "` leaves no trace. */
  lemma {:induction false} CleanJoined(fields: seq<string>, excluded: set<string>)
    requires |fields| >= 1
    ensures KeptNames(Split(Join(fields, ", "), ","), excluded) == FlatKept(fields, excluded)
    decreases |fields|
  {
    var n := |fields|;
    var init := fields[..n - 1];
    var last := fields[n - 1];
    if n == 1 {
      assert fields == [last];
      assert init == [];
    } else {
      CleanJoined(init, excluded);
      LastSplit(fields);
      JoinSnoc(init, last, ", ");
      CommaSpace(Join(init, ", "), last);
      SplitAtSep(Join(init, ", "), " " + last, ',');
      KeptNamesAppend(Split(Join(init, ", "), ","), Split(" " + last, ","), excluded);
      KeptIgnoresLeadingSpace(last, excluded);
    }
  }

  lemma LastSplit<T>(xs: seq<T>)
    requires |xs| >= 1
    ensures xs == xs[..|xs| - 1] + [xs[|xs| - 1]]
  {
  }

  lemma CommaSpace(a: string, b: string)
    ensures a + ", " + b == a + [','] + (" " + b)
  {
  }

  /** Appending one more entry to a non-empty join. */
  lemma {:induction false} JoinSnoc(xs: seq<string>, x: string, sep: string)
    requires |xs| >= 1
    ensures Join(xs + [x], sep) == Join(xs, sep) + sep + x
    decreases |xs|
  {
    if |xs| == 1 {
      assert xs + [x] == [xs[0], x];
    } else {
      assert (xs + [x])[1..] == xs[1..] + [x];
      JoinSnoc(xs[1..], x, sep);
    }
  }

  /** The space that `", "` leaves in front of an author field is stripped away again. */
  lemma KeptIgnoresLeadingSpace(s: string, excluded: set<string>)
    ensures KeptNames(Split(" " + s, ","), excluded) == KeptNames(Split(s, ","), excluded)
  {
    var t := Split(s, ",");
    SplitAfterPlain(" ", s, ",");
    StripSkipsSpace(' ', t[0]);
    KeptSameHead([' '] + t[0], t, excluded);
  }

  /** Only the stripped form of the first entry matters to the filter. */
  lemma KeptSameHead(a: string, t: seq<string>, excluded: set<string>)
    requires |t| >= 1 && Strip(a) == Strip(t[0])
    ensures KeptNames([a] + t[1..], excluded) == KeptNames(t, excluded)
  {
    assert ([a] + t[1..])[0] == a && ([a] + t[1..])[1..] == t[1..];
  }

  /** The cleaned author list of EIP `e`: the cleaned names of its rows, in row order. */
  function EipAuthorList(rows: seq<CommitRow>, e: int, excluded: set<string>): seq<string>
  {
    FlatKept(AuthorsOf(rows, e), excluded)
  }

  lemma {:induction false} AuthorsOfPresent(rows: seq<CommitRow>, e: int)
    requires exists i :: 0 <= i < |rows| && rows[i].eip == e
    ensures |AuthorsOf(rows, e)| >= 1
  {
    var n := |rows|;
    if rows[n - 1].eip != e {
      var i :| 0 <= i < n && rows[i].eip == e;
      assert rows[..n - 1][i] == rows[i];
      AuthorsOfPresent(rows[..n - 1], e);
    }
  }

  /** An author string belongs to EIP `e`'s group exactly when some row of `e` carries it. */
  lemma {:induction false} AuthorsOfMembers(rows: seq<CommitRow>, e: int, x: string)
    ensures x in AuthorsOf(rows, e) <==> exists i :: 0 <= i < |rows| && rows[i].eip == e && rows[i].author == x
  {
    if rows != [] {
      var n := |rows|;
      var init := rows[..n - 1];
      AuthorsOfMembers(init, e, x);
      if exists i :: 0 <= i < n - 1 && init[i].eip == e && init[i].author == x {
        var i :| 0 <= i < n - 1 && init[i].eip == e && init[i].author == x;
        assert rows[i] == init[i];
      }
      if exists i :: 0 <= i < n && rows[i].eip == e && rows[i].author == x {
        var i :| 0 <= i < n && rows[i].eip == e && rows[i].author == x;
        if i < n - 1 {
          assert init[i] == rows[i];
        }
      }
    }
  }

  /** The group keeps row order: the authors of two tables glued together are glued together. */
  lemma {:induction false} AuthorsOfAppend(a: seq<CommitRow>, b: seq<CommitRow>, e: int)
    ensures AuthorsOf(a + b, e) == AuthorsOf(a, e) + AuthorsOf(b, e)
    decreases |b|
  {
    if b == [] {
      assert a + b == a;
    } else {
      var b' := b[..|b| - 1];
      assert (a + b)[..|a + b| - 1] == a + b';
      AuthorsOfAppend(a, b', e);
    }
  }

  /**
    `format_input_data` gives one row per distinct `EIP_Number`, in
    increasing order, and each row's author string, split on `", "` as the
    graph loop splits it, is the cleaned names of that EIP's deduplicated
    rows in row order (or `[""]` when every name was removed).
   */
  lemma FormattedRowsMeaning(rows: seq<CommitRow>, excluded: set<string>)
    ensures var f := FormattedRows(rows, excluded);
            && (forall i, j | 0 <= i < j < |f| :: f[i].eip < f[j].eip)
            && GroupedEips(f) == RowEips(rows)
            && (forall k | 0 <= k < |f| ::
                  var list := EipAuthorList(Dedup(rows), f[k].eip, excluded);
                  Split(f[k].authors, ", ") == if list == [] then [""] else list)
  {
    var d := Dedup(rows);
    var ks := EipNumbers(d);
    var f := FormattedRows(rows, excluded);
    assert forall k | 0 <= k < |f| :: f[k].eip == ks[k];
    SameEips(rows, ks, f);
    forall k | 0 <= k < |f|
      ensures var list := EipAuthorList(d, f[k].eip, excluded);
              Split(f[k].authors, ", ") == if list == [] then [""] else list
    {
      CleanedRow(d, ks, k, excluded);
    }
  }

  /** The EIP numbers of the commit rows. */
  function RowEips(rows: seq<CommitRow>): set<int>
  {
    set i | 0 <= i < |rows| :: rows[i].eip
  }

  /** The EIP numbers of the grouped rows. */
  function GroupedEips(f: seq<EipAuthors>): set<int>
  {
    set k | 0 <= k < |f| :: f[k].eip
  }

  lemma SameEips(rows: seq<CommitRow>, ks: seq<int>, f: seq<EipAuthors>)
    requires ks == EipNumbers(Dedup(rows))
    requires |f| == |ks| && forall k | 0 <= k < |f| :: f[k].eip == ks[k]
    ensures GroupedEips(f) == RowEips(rows)
  {
    var d := Dedup(rows);
    forall e | e in RowEips(rows) ensures e in GroupedEips(f) {
      var i :| 0 <= i < |rows| && rows[i].eip == e;
      assert rows[i] in d;
      var j :| 0 <= j < |d| && d[j] == rows[i];
      assert e in ks;
      var k :| 0 <= k < |ks| && ks[k] == e;
      assert f[k].eip == e;
    }
    forall e | e in GroupedEips(f) ensures e in RowEips(rows) {
      var k :| 0 <= k < |f| && f[k].eip == e;
      assert ks[k] == e && ks[k] in ks;
      var j :| 0 <= j < |d| && d[j].eip == e;
      assert d[j] in rows;
      var i :| 0 <= i < |rows| && rows[i] == d[j];
    }
  }

  lemma CleanedRow(d: seq<CommitRow>, ks: seq<int>, k: int, excluded: set<string>)
    requires ks == EipNumbers(d) && 0 <= k < |ks|
    ensures var list := EipAuthorList(d, ks[k], excluded);
            var row := CleanRow(EipAuthors(ks[k], Join(AuthorsOf(d, ks[k]), ", ")), excluded);
            Split(row.authors, ", ") == if list == [] then [""] else list
  {
    var e := ks[k];
    assert ks[k] in ks;
    AuthorsOfPresent(d, e);
    var fields := AuthorsOf(d, e);
    CleanJoined(fields, excluded);
  }

  /**
    Exact duplicate rows never count twice: a copy of a row, inserted
    anywhere after that row, leaves the formatted table unchanged.
   */
  lemma DuplicatesDoNotCount(rows: seq<CommitRow>, i: nat, x: CommitRow, excluded: set<string>)
    requires i <= |rows| && x in rows[..i]
    ensures FormattedRows(rows[..i] + [x] + rows[i..], excluded) == FormattedRows(rows, excluded)
  {
    DedupInsertCopy(rows[..i], x, rows[i..]);
    assert rows[..i] + rows[i..] == rows;
  }

  /** The commits table, which `format_input_data` changes in place. */
  class CommitTable {
    var rows: seq<CommitRow>

    constructor (rows: seq<CommitRow>)
      ensures this.rows == rows
    {
      this.rows := rows;
    }

    /** `data.drop_duplicates(inplace=True)`. */
    method DropDuplicates()
      modifies this
      ensures rows == Dedup(old(rows))
    {
      rows := Dedup(rows);
    }
  }

  /** `format_input_data(data, names_to_remove)`. */
  method FormatInputData(data: CommitTable, excluded: set<string>) returns (grouped: seq<EipAuthors>)
    modifies data
    ensures data.rows == Dedup(old(data.rows))
    ensures grouped == FormattedRows(old(data.rows), excluded)
  {
    data.DropDuplicates();
    var g := GroupByEip(data.rows);
    grouped := seq(|g|, i requires 0 <= i < |g| => CleanRow(g[i], excluded));
  }

  // ---------------------------------------------------------------------
  // create_and_analyze_graph

  /** `str(row['Author']).split(', ')` for every row of the formatted table. */
  function AuthorLists(data: seq<EipAuthors>): (lists: seq<seq<string>>)
    ensures |lists| == |data|
    ensures forall r :: 0 <= r < |data| ==> lists[r] == Split(data[r].authors, ", ")
  {
    seq(|data|, r requires 0 <= r < |data| => Split(data[r].authors, ", "))
  }

  /**
    The lists `create_and_analyze_graph` reads from the formatted table:
    the `k`-th is the kept names of the `k`-th EIP number, or `[""]` when
    none is kept.
   */
  lemma AuthorListsOfFormatted(rows: seq<CommitRow>, excluded: set<string>)
    ensures var f := FormattedRows(rows, excluded);
            var lists := AuthorLists(f);
            forall k | 0 <= k < |lists| ::
              var list := EipAuthorList(Dedup(rows), f[k].eip, excluded);
              lists[k] == if list == [] then [""] else list
  {
    FormattedRowsMeaning(rows, excluded);
  }

  /**
    `g` is the graph the loop builds from the author lists: its nodes are
    the ends of the counted pairs and each weight is the number of index
    pairs naming that edge's ends, over all lists.
   */
  ghost predicate IsCoauthorGraph(g: UGraph, lists: seq<seq<string>>)
  {
    && IsUndirected(g)
    && g.nodes == AllPairedNodes(lists)
    && forall u, v :: Weight(g, u, v) == TotalPairs(lists, u, v)
  }

  /** `[node for node, bc in betweenness_centrality.items() if bc > 0]`. */
  function PositiveNodes(items: seq<Scored>): (r: seq<string>)
    ensures forall x :: x in r <==> exists i :: 0 <= i < |items| && items[i].node == x && items[i].score > 0.0
  {
    if items == [] then []
    else
      var rest := PositiveNodes(items[1..]);
      forall x | x in rest ensures exists i :: 0 <= i < |items| && items[i].node == x && items[i].score > 0.0 {
        var i :| 0 <= i < |items[1..]| && items[1..][i].node == x && items[1..][i].score > 0.0;
        assert items[i + 1] == items[1..][i];
      }
      forall i | 0 <= i < |items| && items[i].score > 0.0
        ensures items[i].node in (if items[0].score > 0.0 then [items[0].node] + rest else rest)
      {
        if i > 0 {
          assert items[1..][i - 1] == items[i];
        }
      }
      if items[0].score > 0.0 then [items[0].node] + rest else rest
  }

  /**
    `create_and_analyze_graph(data)`: the co-authorship graph of the rows'
    author lists, its centrality, and the subgraph of the nodes whose
    centrality is positive, with all the edges between them unchanged.
   */
  method CreateAndAnalyzeGraph(data: seq<EipAuthors>, centrality: UGraph -> seq<Scored>)
    returns (sub: UGraph, bc: seq<Scored>)
    ensures exists g :: IsCoauthorGraph(g, AuthorLists(data)) && bc == centrality(g)
                        && sub == Induced(g, Elems(PositiveNodes(bc)))
    ensures forall u, v :: Weight(sub, u, v) ==
              if u in sub.nodes && v in sub.nodes then TotalPairs(AuthorLists(data), u, v) else 0
  {
    var lists := AuthorLists(data);
    var g := new Graph();
    for r := 0 to |data|
      invariant g.Valid()
      invariant g.nodes == AllPairedNodes(lists[..r])
      invariant forall u, v :: Weight(g.Value(), u, v) == TotalPairs(lists[..r], u, v)
    {
      var authors := Split(data[r].authors, ", ");
      AddPairs(g, authors);
      assert lists[..r + 1][..r] == lists[..r];
    }
    assert lists[..|data|] == lists;
    var full := g.Value();
    bc := centrality(full);
    var keep := Elems(PositiveNodes(bc));
    sub := Induced(full, keep);
  }

  /** The graph the loop builds is determined by the author lists. */
  lemma CoauthorGraphUnique(g: UGraph, h: UGraph, lists: seq<seq<string>>)
    requires IsCoauthorGraph(g, lists) && IsCoauthorGraph(h, lists)
    ensures g == h
  {
    forall e | e in g.weight ensures e in h.weight && h.weight[e] == g.weight[e] {
      assert Weight(g, e.0, e.1) == g.weight[e] >= 1;
      assert Weight(h, e.0, e.1) == Weight(g, e.0, e.1);
    }
    forall e | e in h.weight ensures e in g.weight {
      assert Weight(h, e.0, e.1) == h.weight[e] >= 1;
      assert Weight(g, e.0, e.1) == Weight(h, e.0, e.1);
    }
    assert g.weight == h.weight;
  }

  /** Nodes are created only by `add_edge`: a node is exactly an end of a counted pair. */
  lemma {:induction false} NodesAreEdgeEnds(lists: seq<seq<string>>, x: string)
    ensures x in AllPairedNodes(lists) <==> exists y :: TotalPairs(lists, x, y) > 0
  {
    if lists != [] {
      var init := lists[..|lists| - 1];
      var last := lists[|lists| - 1];
      NodesAreEdgeEnds(init, x);
      PairedNodesAreEndpoints(last, x);
      if exists y :: TotalPairs(lists, x, y) > 0 {
        var y :| TotalPairs(lists, x, y) > 0;
        assert TotalPairs(init, x, y) > 0 || PairCount(last, x, y) > 0;
      }
      if x in AllPairedNodes(init) {
        var y :| TotalPairs(init, x, y) > 0;
        assert TotalPairs(lists, x, y) > 0;
      }
      if x in PairedNodes(last) {
        var y :| PairCount(last, x, y) > 0;
        assert TotalPairs(lists, x, y) > 0;
      }
    }
  }

  /** A list with fewer than two entries, such as the `[""]` of an EIP whose names were all removed, adds no weight. */
  lemma ShortListAddsNothing(xs: seq<string>, u: string, v: string)
    requires |xs| < 2
    ensures PairCount(xs, u, v) == 0 && PairedNodes(xs) == {}
  {
    PairCountPositive(xs, u, v);
    CountAtMostLength(xs, u);
  }
}
