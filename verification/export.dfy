/**
 `exportResults`: the entries are sorted by average with
 `results.sort((a, b) => parseFloat(a.avgPing) - parseFloat(b.avgPing))`
 and written as CSV, a header line and one line per entry.

 `Array.prototype.sort` is stable (section 22.1.3.27 of ECMAScript 2019
 onwards), so the sort is modelled as a stable insertion sort. What the
 sort is required to produce is stated independently of how it is done:
 sorted by average, and the entries of each average in their original
 order. `StableSortUnique` shows that exactly one sequence meets that.
 */
module Export {
  import opened Wrappers
  import opened Text
  import opened Seqs
  import opened Results
  import opened Address
  import opened Scheduler

  // ---------------------------------------------------------------------
  // The sort
  // ---------------------------------------------------------------------

  /**
   The comparator's key, `parseFloat(r.avgPing)`: the stored text of the
   average read back as a number is the average itself, so comparing keys
   is comparing averages.
   */
  lemma SortKey(r: Result)
    ensures ParseDigits(DecimalString(r.avg)) == r.avg
  {
    ParseDecimalString(r.avg);
  }

  predicate SortedByAverage(xs: seq<Result>) {
    forall i, j :: 0 <= i < j < |xs| ==> xs[i].avg <= xs[j].avg
  }

  /** The entries whose average is `v`, in their order. */
  function WithAverage(xs: seq<Result>, v: nat): seq<Result> {
    if |xs| == 0 then []
    else WithAverage(xs[..|xs| - 1], v) + (if xs[|xs| - 1].avg == v then [xs[|xs| - 1]] else [])
  }

  lemma {:induction false} WithAverageMembers(xs: seq<Result>, v: nat, y: Result)
    ensures y in WithAverage(xs, v) <==> y in xs && y.avg == v
    decreases |xs|
  {
    if |xs| > 0 {
      var init, last := xs[..|xs| - 1], xs[|xs| - 1];
      assert xs == init + [last];
      WithAverageMembers(init, v, y);
    }
  }

  lemma {:induction false} WithAverageAppend(a: seq<Result>, b: seq<Result>, v: nat)
    ensures WithAverage(a + b, v) == WithAverage(a, v) + WithAverage(b, v)
    decreases |b|
  {
    if |b| == 0 {
      assert a + b == a;
    } else {
      var init, last := b[..|b| - 1], b[|b| - 1];
      WithAverageAppend(a, init, v);
      assert (a + b)[..|a + b| - 1] == a + init;
    }
  }

  /**
   `x` placed after every entry whose average is not larger than its own:
   one step of the stable sort.
   */
  function Insert(sorted: seq<Result>, x: Result): (r: seq<Result>)
    ensures multiset(r) == multiset(sorted) + multiset{x}
  {
    if |sorted| == 0 || sorted[|sorted| - 1].avg <= x.avg then sorted + [x]
    else
      var init, last := sorted[..|sorted| - 1], sorted[|sorted| - 1];
      assert sorted == init + [last];
      Insert(init, x) + [last]
  }

  /** Inserting into a sorted sequence keeps it sorted. */
  lemma {:induction false} InsertSorted(sorted: seq<Result>, x: Result)
    requires SortedByAverage(sorted)
    ensures SortedByAverage(Insert(sorted, x))
    decreases |sorted|
  {
    if !(|sorted| == 0 || sorted[|sorted| - 1].avg <= x.avg) {
      var init, last := sorted[..|sorted| - 1], sorted[|sorted| - 1];
      InsertSorted(init, x);
      var r := Insert(init, x);
      forall i | 0 <= i < |r|
        ensures r[i].avg <= last.avg
      {
        assert r[i] in multiset(r);
        assert r[i] in multiset(init) + multiset{x};
        if r[i] != x {
          assert r[i] in init;
        }
      }
    }
  }

  lemma WithAverageSingle(x: Result, v: nat)
    ensures WithAverage([x], v) == if x.avg == v then [x] else []
  {
    assert [x][..0] == [];
  }

  /** Inserting at the end. */
  lemma InsertAtEnd(sorted: seq<Result>, x: Result, v: nat)
    requires |sorted| == 0 || sorted[|sorted| - 1].avg <= x.avg
    ensures WithAverage(Insert(sorted, x), v) == WithAverage(sorted, v) + WithAverage([x], v)
  {
    assert Insert(sorted, x) == sorted + [x];
    WithAverageAppend(sorted, [x], v);
  }

  /** Inserting before the last entry, which has a larger average. */
  lemma InsertBeforeLast(sorted: seq<Result>, x: Result, v: nat)
    requires |sorted| > 0 && x.avg < sorted[|sorted| - 1].avg
    requires var init := sorted[..|sorted| - 1];
      WithAverage(Insert(init, x), v) == WithAverage(init, v) + WithAverage([x], v)
    ensures WithAverage(Insert(sorted, x), v) == WithAverage(sorted, v) + WithAverage([x], v)
  {
    var init, last := sorted[..|sorted| - 1], sorted[|sorted| - 1];
    var ins, r := Insert(sorted, x), Insert(init, x);
    InsertBefore(sorted, x);
    var w, wx, wl := WithAverage(init, v), WithAverage([x], v), WithAverage([last], v);
    assert WithAverage(ins, v) == WithAverage(r, v) + wl by {
      WithAverageAppend(r, [last], v);
    }
    assert WithAverage(sorted, v) == w + wl by {
      assert sorted == init + [last];
      WithAverageAppend(init, [last], v);
    }
    assert wx == [] || wl == [] by {
      WithAverageSingle(x, v);
      WithAverageSingle(last, v);
    }
    SwapEmpty(WithAverage(ins, v), WithAverage(sorted, v), w, wx, wl);
  }

  /** An entry with a smaller average than the last goes in before the last. */
  lemma InsertBefore(sorted: seq<Result>, x: Result)
    requires |sorted| > 0 && x.avg < sorted[|sorted| - 1].avg
    ensures Insert(sorted, x) == Insert(sorted[..|sorted| - 1], x) + [sorted[|sorted| - 1]]
  {
  }

  /** Insertion keeps, for every average, the earlier entries ahead of the inserted one. */
  lemma {:induction false} InsertStable(sorted: seq<Result>, x: Result, v: nat)
    ensures WithAverage(Insert(sorted, x), v) == WithAverage(sorted, v) + WithAverage([x], v)
    decreases |sorted|
  {
    if |sorted| == 0 || sorted[|sorted| - 1].avg <= x.avg {
      InsertAtEnd(sorted, x, v);
    } else {
      InsertStable(sorted[..|sorted| - 1], x, v);
      InsertBeforeLast(sorted, x, v);
    }
  }

  /** `results.sort(...)` on the entries `rs`. */
  function SortByAverage(rs: seq<Result>): (s: seq<Result>)
    ensures multiset(s) == multiset(rs)
  {
    if |rs| == 0 then []
    else
      var init := rs[..|rs| - 1];
      assert rs == init + [rs[|rs| - 1]];
      Insert(SortByAverage(init), rs[|rs| - 1])
  }

  lemma {:induction false} SortSorted(rs: seq<Result>)
    ensures SortedByAverage(SortByAverage(rs))
    decreases |rs|
  {
    if |rs| > 0 {
      SortSorted(rs[..|rs| - 1]);
      InsertSorted(SortByAverage(rs[..|rs| - 1]), rs[|rs| - 1]);
    }
  }

  /** The sort is stable: the entries of each average keep their order. */
  lemma {:induction false} SortStable(rs: seq<Result>, v: nat)
    ensures WithAverage(SortByAverage(rs), v) == WithAverage(rs, v)
    decreases |rs|
  {
    if |rs| > 0 {
      var init, last := rs[..|rs| - 1], rs[|rs| - 1];
      assert rs == init + [last];
      SortStable(init, v);
      InsertStable(SortByAverage(init), last, v);
      WithAverageAppend(init, [last], v);
    }
  }

  /** In a sequence sorted by average, the last entry has the largest average. */
  lemma LastIsLargest(xs: seq<Result>, y: Result)
    requires SortedByAverage(xs) && y in xs
    ensures y.avg <= xs[|xs| - 1].avg
  {
    var i :| 0 <= i < |xs| && xs[i] == y;
  }

  /**
   Equal filters of two sequences whose last entries share their average
   stay equal without those entries, and at that average the two last
   entries are the same.
   */
  lemma FiltersWithoutLast(ia: seq<Result>, x: Result, ib: seq<Result>, y: Result, v: nat)
    requires x.avg == y.avg
    requires WithAverage(ia + [x], v) == WithAverage(ib + [y], v)
    ensures WithAverage(ia, v) == WithAverage(ib, v)
    ensures v == x.avg ==> x == y
  {
    WithAverageAppend(ia, [x], v);
    WithAverageAppend(ib, [y], v);
    assert [x][..0] == [] && [y][..0] == [];
    var fa, fb := WithAverage(ia, v), WithAverage(ib, v);
    if v == x.avg {
      assert fa + [x] == fb + [y];
      assert |fa| == |fb|;
      assert fa == (fa + [x])[..|fa|] && fb == (fb + [y])[..|fb|];
      assert x == (fa + [x])[|fa|];
    } else {
      assert fa + [] == fa && fb + [] == fb;
    }
  }

  lemma SortedPrefix(xs: seq<Result>)
    requires SortedByAverage(xs) && |xs| > 0
    ensures SortedByAverage(xs[..|xs| - 1])
  {
  }

  /**
   Two non-empty sequences sorted by average, with the same entries at each
   average in the same order, end in the same entry and agree on all
   filters without it.
   */
  lemma LastAgree(ia: seq<Result>, x: Result, ib: seq<Result>, y: Result)
    requires SortedByAverage(ia + [x]) && SortedByAverage(ib + [y])
    requires forall v :: WithAverage(ia + [x], v) == WithAverage(ib + [y], v)
    ensures x == y
    ensures forall v :: WithAverage(ia, v) == WithAverage(ib, v)
  {
    var a, b := ia + [x], ib + [y];
    assert a[|a| - 1] == x && b[|b| - 1] == y;
    // the last entries carry the largest average of both
    WithAverageMembers(a, y.avg, y);
    WithAverageMembers(b, y.avg, y);
    LastIsLargest(a, y);
    WithAverageMembers(a, x.avg, x);
    WithAverageMembers(b, x.avg, x);
    LastIsLargest(b, x);
    forall v
      ensures WithAverage(ia, v) == WithAverage(ib, v)
    {
      FiltersWithoutLast(ia, x, ib, y, v);
    }
    FiltersWithoutLast(ia, x, ib, y, x.avg);
  }

  /** A non-empty sequence has an entry at its first entry's average. */
  lemma FilterOfFirst(xs: seq<Result>)
    requires |xs| > 0
    ensures WithAverage(xs, xs[0].avg) != []
  {
    WithAverageMembers(xs, xs[0].avg, xs[0]);
  }

  /**
   Two sequences sorted by average that hold, for every average, the same
   entries in the same order, are equal.
   */
  lemma {:induction false} StableSortUnique(a: seq<Result>, b: seq<Result>)
    requires SortedByAverage(a) && SortedByAverage(b)
    requires forall v :: WithAverage(a, v) == WithAverage(b, v)
    ensures a == b
    decreases |a| + |b|
  {
    if |a| == 0 && |b| > 0 {
      FilterOfFirst(b);
    } else if |a| > 0 && |b| == 0 {
      FilterOfFirst(a);
    } else if |a| > 0 {
      var ia, x := a[..|a| - 1], a[|a| - 1];
      var ib, y := b[..|b| - 1], b[|b| - 1];
      assert a == ia + [x] && b == ib + [y];
      LastAgree(ia, x, ib, y);
      SortedPrefix(a);
      SortedPrefix(b);
      StableSortUnique(ia, ib);
    }
  }

  /** The sort meets its specification: sorted by average, and stable. */
  lemma SortMeetsSpec(rs: seq<Result>)
    ensures SortedByAverage(SortByAverage(rs))
    ensures forall v :: WithAverage(SortByAverage(rs), v) == WithAverage(rs, v)
  {
    SortSorted(rs);
    forall v
      ensures WithAverage(SortByAverage(rs), v) == WithAverage(rs, v)
    {
      SortStable(rs, v);
    }
  }

  /**
   What the sort produces, independently of how: `s` is the sort of `rs`
   exactly when it is sorted by average and holds each average's entries
   in their original order.
   */
  lemma SortCharacterized(rs: seq<Result>, s: seq<Result>)
    ensures s == SortByAverage(rs) ==>
      SortedByAverage(s) && forall v :: WithAverage(s, v) == WithAverage(rs, v)
    ensures SortedByAverage(s) && (forall v :: WithAverage(s, v) == WithAverage(rs, v)) ==>
      s == SortByAverage(rs)
  {
    SortMeetsSpec(rs);
    if SortedByAverage(s) && (forall v :: WithAverage(s, v) == WithAverage(rs, v)) {
      StableSortUnique(s, SortByAverage(rs));
    }
  }

  /**
   Sorting sorted entries changes nothing: a second export, of the entries
   the first one left sorted in place, writes them in the same order.
   */
  lemma SortIdempotent(rs: seq<Result>)
    ensures SortByAverage(SortByAverage(rs)) == SortByAverage(rs)
  {
    var s := SortByAverage(rs);
    SortSorted(rs);
    SortCharacterized(s, s);
  }

  // ---------------------------------------------------------------------
  // The CSV text
  // ---------------------------------------------------------------------

  /** The column titles. */
  const COLUMNS := ["IP Address", "Ping 1 (ms)", "Ping 2 (ms)", "Ping 3 (ms)", "Average Ping (ms)"]

  /** The first line of the file: the titles separated by commas. */
  const HEADER := Join(COLUMNS, ',')

  /** The number of ping columns, `3` in `3 - result.pings.length`. */
  const PING_COLUMNS: nat := 3

  /**
   Every entry has room for its samples. With more than three,
   `','.repeat(3 - n)` would throw a `RangeError`.
   */
  predicate Fits(rs: seq<Result>) {
    forall r :: r in rs ==> |r.pings| <= PING_COLUMNS
  }

  /**
   An entry the CSV represents faithfully: one to three samples
   (`addResult` is only called with a sample, and at most three are taken)
   and an address with no comma and no line break.
   */
  predicate Printable(r: Result) {
    1 <= |r.pings| <= PING_COLUMNS && ',' !in r.ip && '\n' !in r.ip
  }

  predicate AllPrintable(rs: seq<Result>) {
    Fits(rs) && forall r :: r in rs ==> Printable(r)
  }

  function Empties(m: nat): (es: seq<string>)
    ensures |es| == m && forall k :: 0 <= k < m ==> es[k] == ""
  {
    seq(m, _ => "")
  }

  /** The cells of an entry's line: address, the samples, empty cells for missing samples, average. */
  function Fields(r: Result): (cells: seq<string>)
    requires |r.pings| <= PING_COLUMNS
    ensures |cells| == |COLUMNS|
  {
    [r.ip] + DecimalTexts(r.pings) + Empties(PING_COLUMNS - |r.pings|) + [DecimalString(r.avg)]
  }

  /** An entry's line without its terminator: the cells joined by commas. */
  function Line(r: Result): string
    requires |r.pings| <= PING_COLUMNS
  {
    Join(Fields(r), ',')
  }

  /**
   What the `forEach` appends for one entry:
   `${ip},${pings.join(',')}${','.repeat(3 - pings.length)},${avgPing}` and a line break.
   */
  function Row(r: Result): string
    requires |r.pings| <= PING_COLUMNS
  {
    r.ip + "," + Join(DecimalTexts(r.pings), ',') + Repeat(',', PING_COLUMNS - |r.pings|)
      + "," + DecimalString(r.avg) + "\n"
  }

  /** The rows of `rs`, appended in order, as the `forEach` builds them. */
  function Rows(rs: seq<Result>): string
    requires Fits(rs)
  {
    if |rs| == 0 then ""
    else
      var init := rs[..|rs| - 1];
      assert rs == init + [rs[|rs| - 1]];
      Rows(init) + Row(rs[|rs| - 1])
  }

  /** The lines of `rs` without terminators. */
  function Lines(rs: seq<Result>): (ls: seq<string>)
    requires Fits(rs)
    ensures |ls| == |rs| && forall k :: 0 <= k < |rs| ==> ls[k] == Line(rs[k])
  {
    seq(|rs|, k requires 0 <= k < |rs| => Line(rs[k]))
  }

  /** Sorting keeps the entries, so whatever holds of every entry holds after the sort. */
  lemma SortKeepsEntries(rs: seq<Result>)
    ensures forall r :: r in SortByAverage(rs) <==> r in rs
  {
    var s := SortByAverage(rs);
    forall r
      ensures r in s <==> r in rs
    {
      assert r in s <==> r in multiset(s);
      assert r in rs <==> r in multiset(rs);
    }
  }

  /**
   `exportResults` on `results`: the entries left in `results` and the CSV
   text, if any. With no entries nothing happens; otherwise the entries are
   sorted in place and the text is the header and one row per entry.
   */
  function ExportResults(results: seq<Result>): (out: (seq<Result>, Option<string>))
    requires Fits(results)
    ensures out.1.None? <==> |results| == 0
    ensures |results| == 0 ==> out.0 == results
    ensures multiset(out.0) == multiset(results)
    ensures forall r :: r in out.0 <==> r in results
    ensures SortedByAverage(out.0)
    ensures forall v :: WithAverage(out.0, v) == WithAverage(results, v)
  {
    if |results| == 0 then (results, None)
    else
      var sorted := SortByAverage(results);
      SortMeetsSpec(results);
      SortKeepsEntries(results);
      (sorted, Some(HEADER + "\n" + Rows(sorted)))
  }

  // ---------------------------------------------------------------------
  // Reading the CSV back
  // ---------------------------------------------------------------------

  /** Reads the ping cells back: decimal numbers, then only empty cells. */
  function ParsePings(cells: seq<string>): (ps: Option<seq<nat>>)
    ensures ps.Some? ==> |ps.value| <= |cells|
  {
    if |cells| == 0 then Some([])
    else if cells[0] == "" then
      if forall k :: 0 <= k < |cells| ==> cells[k] == "" then Some([]) else None
    else if IsCanonicalDecimal(cells[0]) then
      match ParsePings(cells[1..])
      case Some(ps) => Some([ParseDigits(cells[0])] + ps)
      case None => None
    else None
  }

  /** Reads one line back into the entry it was written for. */
  function ParseRow(line: string): Option<Result> {
    var cells := Split(line, ',');
    if |cells| != |COLUMNS| || !IsCanonicalDecimal(cells[PING_COLUMNS + 1]) then None
    else
      match ParsePings(cells[1..PING_COLUMNS + 1])
      case Some(ps) =>
        if |ps| == 0 then None else Some(Result(cells[0], ps, ParseDigits(cells[PING_COLUMNS + 1])))
      case None => None
  }

  lemma {:induction false} JoinEmpties(m: nat, last: string, sep: char)
    ensures Join(Empties(m) + [last], sep) == Repeat(sep, m) + last
    decreases m
  {
    if m == 0 {
      assert Empties(m) + [last] == [last];
      assert Repeat(sep, m) + last == last;
    } else {
      var rest := Empties(m - 1) + [last];
      assert (Empties(m) + [last])[1..] == rest;
      JoinEmpties(m - 1, last, sep);
      assert [sep] + Repeat(sep, m - 1) == Repeat(sep, m);
    }
  }

  /** The row is the line and a line break. */
  lemma RowIsLine(r: Result)
    requires 1 <= |r.pings| <= PING_COLUMNS
    ensures Row(r) == Line(r) + "\n"
  {
    var m := PING_COLUMNS - |r.pings|;
    var p, e, a := DecimalTexts(r.pings), Empties(m), DecimalString(r.avg);
    var jp, commas := Join(p, ','), Repeat(',', m);
    assert Line(r) == r.ip + [','] + (jp + [','] + (commas + a)) by {
      assert Fields(r) == [r.ip] + (p + (e + [a]));
      JoinAppend([r.ip], p + (e + [a]), ',');
      JoinAppend(p, e + [a], ',');
      JoinEmpties(m, a, ',');
    }
    assert [','] + commas == commas + [','];
    assert Row(r) == r.ip + [','] + jp + commas + [','] + a + "\n";
  }

  /** No cell of an entry holds a character that is no digit and not in its address. */
  lemma FieldsAvoid(r: Result, c: char)
    requires |r.pings| <= PING_COLUMNS && !IsDigit(c) && c !in r.ip
    ensures forall k :: 0 <= k < |Fields(r)| ==> c !in Fields(r)[k]
  {
    var cells := Fields(r);
    forall k | 0 <= k < |cells|
      ensures c !in cells[k]
    {
      if 1 <= k <= |r.pings| {
        DigitsAvoid(DecimalString(r.pings[k - 1]), c);
      } else if k == |cells| - 1 {
        DigitsAvoid(DecimalString(r.avg), c);
      }
    }
  }

  lemma {:induction false} ParsePingsTexts(ps: seq<nat>, m: nat)
    ensures ParsePings(DecimalTexts(ps) + Empties(m)) == Some(ps)
    decreases |ps|
  {
    var cells := DecimalTexts(ps) + Empties(m);
    if |ps| == 0 {
      assert cells == Empties(m);
    } else {
      assert cells[0] == DecimalString(ps[0]);
      assert cells[1..] == DecimalTexts(ps[1..]) + Empties(m);
      ParsePingsTexts(ps[1..], m);
      ParseDecimalString(ps[0]);
      assert [ps[0]] + ps[1..] == ps;
    }
  }

  lemma {:induction false} ParsePingsInverse(cells: seq<string>, ps: seq<nat>)
    requires ParsePings(cells) == Some(ps)
    ensures cells == DecimalTexts(ps) + Empties(|cells| - |ps|)
    decreases |cells|
  {
    if |cells| == 0 {
      assert ps == [];
    } else if cells[0] == "" {
      assert ps == [];
      assert cells == Empties(|cells|);
      assert DecimalTexts(ps) + Empties(|cells|) == Empties(|cells|);
    } else {
      var head := cells[0];
      assert IsCanonicalDecimal(head);
      var tail, m := cells[1..], |cells| - |ps|;
      var rest :| ParsePings(tail) == Some(rest) && ps == [ParseDigits(head)] + rest;
      calc {
        cells;
        [head] + tail;
        { ParsePingsInverse(tail, rest); }
        [head] + (DecimalTexts(rest) + Empties(m));
        { AppendAssoc([head], DecimalTexts(rest), Empties(m)); }
        [head] + DecimalTexts(rest) + Empties(m);
        { DecimalStringOfParse(head); DecimalTextsCons(ParseDigits(head), rest); }
        DecimalTexts(ps) + Empties(m);
      }
    }
  }

  /** Reading back the line of a printable entry gives the entry. */
  lemma RowRoundTrip(r: Result)
    requires Printable(r)
    ensures ParseRow(Line(r)) == Some(r)
  {
    var cells := Fields(r);
    FieldsAvoid(r, ',');
    SplitJoin(cells, ',');
    assert cells[1..PING_COLUMNS + 1] == DecimalTexts(r.pings) + Empties(PING_COLUMNS - |r.pings|);
    ParsePingsTexts(r.pings, PING_COLUMNS - |r.pings|);
    ParseDecimalString(r.avg);
  }

  /** The line of a printable entry splits into its five cells, as many as the header has. */
  lemma RowCells(r: Result)
    requires Printable(r)
    ensures Split(Line(r), ',') == Fields(r)
    ensures |Split(Line(r), ',')| == |COLUMNS| == 5
  {
    FieldsAvoid(r, ',');
    SplitJoin(Fields(r), ',');
  }

  /**
   Whatever reads back as an entry is that entry's line, and the entry has
   one to three samples and an address without commas.
   */
  lemma ParseRowInverse(line: string, r: Result)
    requires ParseRow(line) == Some(r)
    ensures 1 <= |r.pings| <= PING_COLUMNS && ',' !in r.ip
    ensures Line(r) == line
  {
    var cells := Split(line, ',');
    var pingCells, avgCell := cells[1..PING_COLUMNS + 1], cells[PING_COLUMNS + 1];
    assert |cells| == |COLUMNS| && IsCanonicalDecimal(avgCell);
    var ps :| ParsePings(pingCells) == Some(ps) && |ps| > 0
      && r == Result(cells[0], ps, ParseDigits(avgCell));
    ParsePingsInverse(pingCells, ps);
    DecimalStringOfParse(avgCell);
    AppendAssoc([r.ip], DecimalTexts(ps), Empties(PING_COLUMNS - |ps|));
    Frame(cells);
    JoinSplit(line, ',');
  }

  // ---------------------------------------------------------------------
  // The whole file
  // ---------------------------------------------------------------------

  /** The header is one line, and its cells are the column titles. */
  lemma HeaderCells()
    ensures '\n' !in HEADER
    ensures Split(HEADER, ',') == COLUMNS
  {
    assert forall k :: 0 <= k < |COLUMNS| ==> '\n' !in COLUMNS[k] && ',' !in COLUMNS[k];
    JoinAvoids(COLUMNS, ',', '\n');
    SplitJoin(COLUMNS, ',');
  }

  lemma LinesSnoc(rs: seq<Result>)
    requires |rs| > 0 && Fits(rs) && Fits(rs[..|rs| - 1])
    ensures Lines(rs) == Lines(rs[..|rs| - 1]) + [Line(rs[|rs| - 1])]
  {
  }

  /** A header and rows, appended, are the lines joined by line breaks with an empty last line. */
  lemma {:induction false} RowsJoined(header: string, rs: seq<Result>)
    requires AllPrintable(rs)
    ensures header + "\n" + Rows(rs) == Join([header] + Lines(rs) + [""], '\n')
    decreases |rs|
  {
    if |rs| == 0 {
      assert [header] + Lines(rs) + [""] == [header] + [""];
      JoinAppend([header], [""], '\n');
    } else {
      var init, last := rs[..|rs| - 1], rs[|rs| - 1];
      assert AllPrintable(init) && Printable(last) by {
        assert rs == init + [last];
        assert forall r :: r in init ==> r in rs;
        assert last in rs;
      }
      var xs, l := [header] + Lines(init), Line(last);
      // the lines: one more before the final empty piece
      assert [header] + Lines(rs) + [""] == xs + [l] + [""] by {
        LinesSnoc(rs);
        AppendAssoc([header], Lines(init), [l]);
      }
      JoinSnocEmpty(xs, l, '\n');
      RowsJoined(header, init);
      // the text: one more row
      RowIsLine(last);
      assert Rows(rs) == Rows(init) + (l + "\n");
      AppendAssoc(header + "\n", Rows(init), l + "\n");
      AppendAssoc(header + "\n" + Rows(init), l, "\n");
    }
  }

  /** No line of printable entries holds a line break. */
  lemma LinesOneLine(rs: seq<Result>)
    requires AllPrintable(rs)
    ensures forall k :: 0 <= k < |rs| ==> '\n' !in Line(rs[k])
  {
    forall k | 0 <= k < |rs|
      ensures '\n' !in Line(rs[k])
    {
      assert rs[k] in rs;
      FieldsAvoid(rs[k], '\n');
      JoinAvoids(Fields(rs[k]), ',', '\n');
    }
  }

  /** The header, the lines of printable entries and the empty last piece hold no line break. */
  lemma PiecesOneLine(header: string, rs: seq<Result>)
    requires AllPrintable(rs) && '\n' !in header
    ensures var ls := [header] + Lines(rs) + [""];
      forall k :: 0 <= k < |ls| ==> '\n' !in ls[k]
  {
    var ls := [header] + Lines(rs) + [""];
    LinesOneLine(rs);
    forall k | 0 <= k < |ls|
      ensures '\n' !in ls[k]
    {
      if 0 < k < |ls| - 1 {
        assert ls[k] == Line(rs[k - 1]);
      }
    }
  }

  /** Splitting a file at line breaks gives its header, its lines and an empty last piece. */
  lemma FileLines(header: string, rs: seq<Result>)
    requires AllPrintable(rs) && '\n' !in header
    ensures Split(header + "\n" + Rows(rs), '\n') == [header] + Lines(rs) + [""]
  {
    RowsJoined(header, rs);
    PiecesOneLine(header, rs);
    SplitJoin([header] + Lines(rs) + [""], '\n');
  }

  /**
   The exported file, split at line breaks, is the header, one line per
   entry in sorted order and an empty last piece, and each entry's line
   reads back as that entry.
   */
  lemma ExportLines(results: seq<Result>)
    requires |results| > 0 && AllPrintable(results)
    ensures var out := ExportResults(results);
      && out.1.Some?
      && Split(out.1.value, '\n') == [HEADER] + Lines(out.0) + [""]
      && forall k :: 0 <= k < |out.0| ==> ParseRow(Lines(out.0)[k]) == Some(out.0[k])
  {
    var sorted := SortByAverage(results);
    SortKeepsEntries(results);
    assert AllPrintable(sorted);
    HeaderCells();
    FileLines(HEADER, sorted);
    forall k | 0 <= k < |sorted|
      ensures ParseRow(Lines(sorted)[k]) == Some(sorted[k])
    {
      RowRoundTrip(sorted[k]);
    }
  }

  /**
   What the scan records exports faithfully, when the worklist holds dotted
   quads and no address kept more than three samples.
   */
  lemma RecordedPrintable(worklist: seq<string>, samples: seq<seq<nat>>, found: seq<nat>, results: seq<Result>)
    requires |samples| == |worklist| && Recorded(worklist, samples, found, results)
    requires forall a :: 0 <= a < |worklist| ==> IsDottedQuad(worklist[a]) && |samples[a]| <= PING_COLUMNS
    ensures AllPrintable(results)
  {
    forall r | r in results
      ensures Printable(r)
    {
      var k :| 0 <= k < |results| && results[k] == r;
      var a := found[k];
      DottedQuadAvoids(worklist[a], ',');
      DottedQuadAvoids(worklist[a], '\n');
    }
  }
}
