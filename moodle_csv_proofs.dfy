/** What the Moodle CSV builder promises, proved about the model: how `build`
    accumulates values, that the recorded maxima are the largest lengths seen,
    how the padding and the header expansion shape each line, and when every
    line of the output has the same number of columns. */
module MoodleCsvProofs {
  import opened Text
  import opened MoodleCsv

  // ---------------------------------------------------------------------
  // build
  // ---------------------------------------------------------------------

  /** Two list builds on a dynamic header concatenate in call order. */
  lemma BuildListsConcatenate(c: Content, name: string, xs: seq<string>, ys: seq<string>)
    requires IsDynamic(name) && name in c
    ensures Apply(c, name, List(xs)).Ok?
    ensures Apply(Apply(c, name, List(xs)).value, name, List(ys)) == Apply(c, name, List(xs + ys))
  {
    var once := c[name := c[name] + xs];
    assert c[name] + xs + ys == c[name] + (xs + ys);
    assert once[name := once[name] + ys] == c[name := c[name] + (xs + ys)];
  }

  /** A later string build on a static header replaces the earlier one. */
  lemma BuildStringReplaces(c: Content, name: string, a: string, b: string)
    requires !IsDynamic(name)
    ensures Apply(c, name, Str(a)).Ok?
    ensures Apply(Apply(c, name, Str(a)).value, name, Str(b)) == Apply(c, name, Str(b))
  {
    assert c[name := [a]][name := [b]] == c[name := [b]];
  }

  // ---------------------------------------------------------------------
  // The recorded maxima
  // ---------------------------------------------------------------------

  /** No row holds more values under a header than the maximum. */
  lemma {:induction false} MaxLenBound(rows: seq<Content>, h: string, i: nat)
    requires i < |rows| && h in rows[i]
    ensures |rows[i][h]| <= MaxLen(rows, h)
  {
    var prefix := rows[..|rows| - 1];
    if i < |rows| - 1 {
      assert prefix[i] == rows[i];
      MaxLenBound(prefix, h, i);
    }
  }

  /** A non-zero maximum is the length of some row's entry. */
  lemma {:induction false} MaxLenAttained(rows: seq<Content>, h: string)
    ensures MaxLen(rows, h) == 0 ||
      exists i :: 0 <= i < |rows| && h in rows[i] && |rows[i][h]| == MaxLen(rows, h)
  {
    if rows != [] {
      var prefix := rows[..|rows| - 1];
      MaxLenAttained(prefix, h);
      if MaxLen(rows, h) != 0 && MaxLen(rows, h) == MaxLen(prefix, h) {
        var i :| 0 <= i < |prefix| && h in prefix[i] && |prefix[i][h]| == MaxLen(prefix, h);
        assert rows[i] == prefix[i];
      }
    }
  }

  /** Adding rows never lowers a maximum. */
  lemma {:induction false} MaxLenMonotone(rows: seq<Content>, more: seq<Content>, h: string)
    ensures MaxLen(rows, h) <= MaxLen(rows + more, h)
    decreases |more|
  {
    if more == [] {
      assert rows + more == rows;
    } else {
      var shorter := more[..|more| - 1];
      MaxLenMonotone(rows, shorter, h);
      assert (rows + more)[..|rows + more| - 1] == rows + shorter;
    }
  }

  // ---------------------------------------------------------------------
  // Column counts
  // ---------------------------------------------------------------------

  /** The sum of the maxima of `hs`. */
  function Total(hs: seq<string>, info: map<string, nat>): (r: nat)
    requires forall h :: h in hs ==> h in info
  {
    if hs == [] then 0 else Total(hs[..|hs| - 1], info) + info[hs[|hs| - 1]]
  }

  /** The number of static headers plus the sum of the dynamic maxima. */
  function Width(hs: seq<string>, info: map<string, nat>): (r: nat)
    requires forall h :: h in hs ==> h in info
  {
    if hs == [] then 0
    else Width(hs[..|hs| - 1], info) + (if IsDynamic(hs[|hs| - 1]) then info[hs[|hs| - 1]] else 1)
  }

  /** The number of headers of `hs` whose maximum is 0. */
  function ZeroCount(hs: seq<string>, info: map<string, nat>): (r: nat)
    requires forall h :: h in hs ==> h in info
  {
    if hs == [] then 0
    else ZeroCount(hs[..|hs| - 1], info) + (if info[hs[|hs| - 1]] == 0 then 1 else 0)
  }

  /** A row whose entries fit their maxima renders one column per unit of
      maximum: header h contributes exactly info[h] columns. */
  lemma {:induction false} RowColumnsWidth(hs: seq<string>, c: Content, info: map<string, nat>)
    requires forall h :: h in hs ==> h in c && h in info && |c[h]| <= info[h]
    ensures RowColumns(hs, c, info).Ok?
    ensures |RowColumns(hs, c, info).value| == Total(hs, info)
  {
    if hs != [] {
      RowColumnsWidth(hs[..|hs| - 1], c, info);
    }
  }

  /** The header line has one column per unit of maximum, plus one column for
      each header whose maximum is 0 (its raw name). */
  lemma {:induction false} HeaderColumnsWidth(hs: seq<string>, info: map<string, nat>)
    requires forall h :: h in hs ==> h in info
    requires forall h :: h in hs && !IsDynamic(h) ==> info[h] <= 1
    ensures |HeaderColumns(hs, info)| == Total(hs, info) + ZeroCount(hs, info)
  {
    if hs != [] {
      HeaderColumnsWidth(hs[..|hs| - 1], info);
    }
  }

  lemma {:induction false} TotalIsWidth(hs: seq<string>, info: map<string, nat>)
    requires forall h :: h in hs ==> h in info && info[h] >= 1
    requires forall h :: h in hs && !IsDynamic(h) ==> info[h] <= 1
    ensures Total(hs, info) == Width(hs, info)
    ensures ZeroCount(hs, info) == 0
    ensures Width(hs, info) >= |hs|
  {
    if hs != [] {
      TotalIsWidth(hs[..|hs| - 1], info);
    }
  }

  lemma {:induction false} ZeroCountPositive(hs: seq<string>, info: map<string, nat>, i: nat)
    requires forall h :: h in hs ==> h in info
    requires i < |hs| && info[hs[i]] == 0
    ensures ZeroCount(hs, info) > 0
  {
    if i < |hs| - 1 {
      ZeroCountPositive(hs[..|hs| - 1], info, i);
    }
  }

  /** When every header has maximum at least 1, the header line and a row
      line that fits the maxima have the same number of columns: the number of
      static headers plus the sum of the dynamic maxima. */
  lemma Rectangular(hs: seq<string>, c: Content, info: map<string, nat>)
    requires forall h :: h in hs ==> h in c && h in info && |c[h]| <= info[h]
    requires forall h :: h in hs ==> info[h] >= 1
    requires forall h :: h in hs && !IsDynamic(h) ==> info[h] <= 1
    ensures RowColumns(hs, c, info).Ok?
    ensures |HeaderColumns(hs, info)| == |RowColumns(hs, c, info).value| == Width(hs, info)
  {
    RowColumnsWidth(hs, c, info);
    HeaderColumnsWidth(hs, info);
    TotalIsWidth(hs, info);
  }

  /** A header whose maximum is 0 breaks the equal column count: it still
      takes a column in the header line but none in any row. */
  lemma ZeroMaximumWidensHeader(hs: seq<string>, c: Content, info: map<string, nat>, i: nat)
    requires forall h :: h in hs ==> h in c && h in info && |c[h]| <= info[h]
    requires forall h :: h in hs && !IsDynamic(h) ==> info[h] <= 1
    requires i < |hs| && info[hs[i]] == 0
    ensures RowColumns(hs, c, info).Ok?
    ensures |HeaderColumns(hs, info)| > |RowColumns(hs, c, info).value|
  {
    RowColumnsWidth(hs, c, info);
    HeaderColumnsWidth(hs, info);
    ZeroCountPositive(hs, info, i);
  }

  // ---------------------------------------------------------------------
  // Padding and header expansion
  // ---------------------------------------------------------------------

  /** Maximum 3 and the single value "x" render as `,,x`. */
  lemma RightAlignedExample()
    ensures Join(Block(["x"], 3), ',') == ",,x"
  {
    assert Block(["x"], 3) == ["", "", "x"];
  }

  /** The numbered columns of a dynamic header are pairwise distinct. */
  lemma NumberedDistinct(stem: string, m: nat, i: nat, j: nat)
    requires i < m && j < m && i != j
    ensures Numbered(stem, m)[i] != Numbered(stem, m)[j]
  {
    var a, b := NatToString(i + 1), NatToString(j + 1);
    assert Numbered(stem, m)[i] == stem + a && Numbered(stem, m)[j] == stem + b;
    PrefixCancels(stem, a, b);
    NatToStringInjective(i + 1, j + 1);
  }

  lemma PrefixCancels<T>(p: seq<T>, s: seq<T>, t: seq<T>)
    ensures p + s == p + t ==> s == t
  {
    if p + s == p + t {
      assert s == (p + s)[|p|..];
      assert t == (p + t)[|p|..];
    }
  }

  /** A dynamic header with maximum m > 0 becomes `stem1` ... `stemm`. */
  lemma DynamicHeaderExpansion(h: string, m: nat, k: nat)
    requires IsDynamic(h) && 0 < m && k < m
    ensures |HeaderBlock(h, m)| == m
    ensures HeaderBlock(h, m)[k] == Stem(h) + NatToString(k + 1)
    ensures HeaderBlock(h, m)[k] != h
  {
  }

  // ---------------------------------------------------------------------
  // Errors and the shape of the output
  // ---------------------------------------------------------------------

  /** A row line fails exactly when some header is missing from the maxima or
      the content, and the error names the first such header. */
  lemma {:induction false} RowColumnsResult(hs: seq<string>, c: Content, info: map<string, nat>)
    ensures var k := FirstMissing(hs, c.Keys * info.Keys);
      (RowColumns(hs, c, info).Ok? <==> k == |hs|) &&
      (k < |hs| ==> RowColumns(hs, c, info) == Err(KeyError(hs[k])))
    decreases |hs|
  {
    if hs != [] {
      var n := |hs|;
      var prefix := hs[..n - 1];
      RowColumnsResult(prefix, c, info);
      var k' := FirstMissing(prefix, c.Keys * info.Keys);
      if k' < n - 1 {
        assert prefix[k'] == hs[k'];
      }
    }
  }

  /** The row lines succeed exactly when every row's line does, and then there
      is one line per row, in insertion order. */
  lemma {:induction false} RowLinesAt(hs: seq<string>, rows: seq<Content>, info: map<string, nat>)
    ensures RowLines(hs, rows, info).Ok? <==> forall i :: 0 <= i < |rows| ==> RowLine(hs, rows[i], info).Ok?
    ensures RowLines(hs, rows, info).Ok? ==>
      |RowLines(hs, rows, info).value| == |rows| &&
      forall i :: 0 <= i < |rows| ==> RowLine(hs, rows[i], info) == Ok(RowLines(hs, rows, info).value[i])
    decreases |rows|
  {
    if rows != [] {
      var n := |rows|;
      var prefix := rows[..n - 1];
      RowLinesAt(hs, prefix, info);
      if RowLines(hs, prefix, info).Ok? && RowLine(hs, rows[n - 1], info).Ok? {
        var v := RowLines(hs, prefix, info).value + [RowLine(hs, rows[n - 1], info).value];
        assert RowLines(hs, rows, info) == Ok(v);
        forall i | 0 <= i < n
          ensures RowLine(hs, rows[i], info) == Ok(v[i])
        {
          if i < n - 1 {
            assert rows[i] == prefix[i];
          }
        }
      } else if RowLines(hs, prefix, info).Ok? {
        assert !RowLines(hs, rows, info).Ok?;
      } else {
        assert !RowLines(hs, rows, info).Ok?;
        var i :| 0 <= i < n - 1 && !RowLine(hs, prefix[i], info).Ok?;
        assert rows[i] == prefix[i];
      }
    }
  }

  /** With no rows the output is the header line followed by a newline. */
  lemma NoRowsEndsWithNewline(hs: seq<string>, info: map<string, nat>)
    requires forall h :: h in hs ==> h in info
    ensures Render(hs, info, []) == Ok(Join(HeaderColumns(hs, info), ',') + "\n")
  {
    var line := Join(HeaderColumns(hs, info), ',') + "\n";
    assert line + Join([], '\n') == line;
  }

  // ---------------------------------------------------------------------
  // The rendered text is rectangular
  // ---------------------------------------------------------------------

  /** Maxima recorded for exactly the header list, static ones at most 1. */
  ghost predicate Registered(hs: seq<string>, info: map<string, nat>) {
    (forall h :: h in info <==> h in hs) &&
    (forall h :: h in info && !IsDynamic(h) ==> info[h] <= 1)
  }

  /** A file whose every header has maximum at least 1 and whose rows all
      have every header and were added through `add_row` renders a header
      line and row lines with the same number of columns. */
  lemma OutputRectangular(hs: seq<string>, info: map<string, nat>, rows: seq<Content>)
    requires Registered(hs, info) && Tracked(info, rows)
    requires forall h :: h in info ==> info[h] >= 1
    requires forall i, h :: 0 <= i < |rows| && h in hs ==> h in rows[i]
    ensures |HeaderColumns(hs, info)| == Width(hs, info)
    ensures forall i :: 0 <= i < |rows| ==>
      RowColumns(hs, rows[i], info).Ok? && |RowColumns(hs, rows[i], info).value| == Width(hs, info)
  {
    HeaderColumnsWidth(hs, info);
    TotalIsWidth(hs, info);
    forall i | 0 <= i < |rows|
      ensures RowColumns(hs, rows[i], info).Ok? && |RowColumns(hs, rows[i], info).value| == Width(hs, info)
    {
      forall h | h in hs
        ensures |rows[i][h]| <= info[h]
      {
        MaxLenBound(rows, h, i);
      }
      Rectangular(hs, rows[i], info);
    }
  }

  lemma {:induction false} HeaderColumnsAvoid(hs: seq<string>, info: map<string, nat>, ch: char)
    requires forall h :: h in hs ==> h in info && ch !in h
    requires !('0' <= ch <= '9')
    ensures forall j :: 0 <= j < |HeaderColumns(hs, info)| ==> ch !in HeaderColumns(hs, info)[j]
  {
    if hs != [] {
      var h := hs[|hs| - 1];
      HeaderColumnsAvoid(hs[..|hs| - 1], info, ch);
      if info[h] > 0 && IsDynamic(h) {
        var cols := Numbered(Stem(h), info[h]);
        assert Stem(h) + "_" == h;
        forall k | 0 <= k < info[h]
          ensures ch !in cols[k]
        {
          assert cols[k] == Stem(h) + NatToString(k + 1);
        }
      }
    }
  }

  lemma {:induction false} RowColumnsAvoid(hs: seq<string>, c: Content, info: map<string, nat>, ch: char)
    requires forall h, j :: h in c && 0 <= j < |c[h]| ==> ch !in c[h][j]
    requires RowColumns(hs, c, info).Ok?
    ensures forall j :: 0 <= j < |RowColumns(hs, c, info).value| ==> ch !in RowColumns(hs, c, info).value[j]
  {
    if hs != [] {
      RowColumnsAvoid(hs[..|hs| - 1], c, info, ch);
    }
  }

  /** A header line with no comma or newline in any header name splits back
      into its columns and holds no newline. */
  lemma HeaderLineSplits(hs: seq<string>, info: map<string, nat>)
    requires forall h :: h in hs ==> h in info && ',' !in h && '\n' !in h
    requires |HeaderColumns(hs, info)| > 0
    ensures Split(Join(HeaderColumns(hs, info), ','), ',') == HeaderColumns(hs, info)
    ensures '\n' !in Join(HeaderColumns(hs, info), ',')
  {
    var header := HeaderColumns(hs, info);
    HeaderColumnsAvoid(hs, info, ',');
    HeaderColumnsAvoid(hs, info, '\n');
    SplitJoin(header, ',');
    JoinAvoids(header, ',', '\n');
  }

  /** A row line with no comma or newline in any value splits back into its
      columns and holds no newline. */
  lemma RowLineSplits(hs: seq<string>, c: Content, info: map<string, nat>)
    requires forall h, j :: h in c && 0 <= j < |c[h]| ==> ',' !in c[h][j] && '\n' !in c[h][j]
    requires RowColumns(hs, c, info).Ok? && |RowColumns(hs, c, info).value| > 0
    ensures RowLine(hs, c, info).Ok?
    ensures Split(RowLine(hs, c, info).value, ',') == RowColumns(hs, c, info).value
    ensures '\n' !in RowLine(hs, c, info).value
  {
    var cols := RowColumns(hs, c, info).value;
    RowColumnsAvoid(hs, c, info, ',');
    RowColumnsAvoid(hs, c, info, '\n');
    SplitJoin(cols, ',');
    JoinAvoids(cols, ',', '\n');
  }

  /** The row lines of rows whose values hold no comma or newline and whose
      columns are not empty: each splits back into its row's columns. */
  lemma RowLinesSplit(hs: seq<string>, info: map<string, nat>, rows: seq<Content>)
    requires forall i, h, j :: 0 <= i < |rows| && h in rows[i] && 0 <= j < |rows[i][h]| ==>
      ',' !in rows[i][h][j] && '\n' !in rows[i][h][j]
    requires forall i :: 0 <= i < |rows| ==>
      RowColumns(hs, rows[i], info).Ok? && |RowColumns(hs, rows[i], info).value| > 0
    ensures RowLines(hs, rows, info).Ok?
    ensures |RowLines(hs, rows, info).value| == |rows|
    ensures forall i :: 0 <= i < |rows| ==>
      Split(RowLines(hs, rows, info).value[i], ',') == RowColumns(hs, rows[i], info).value &&
      '\n' !in RowLines(hs, rows, info).value[i]
  {
    forall i | 0 <= i < |rows|
      ensures RowLine(hs, rows[i], info).Ok?
      ensures Split(RowLine(hs, rows[i], info).value, ',') == RowColumns(hs, rows[i], info).value
      ensures '\n' !in RowLine(hs, rows[i], info).value
    {
      RowLineSplits(hs, rows[i], info);
    }
    RowLinesAt(hs, rows, info);
  }

  /** A header line and row lines free of newlines, joined as the exporter
      joins them, split back into the same lines. */
  lemma LinesSplit(headerLine: string, lines: seq<string>)
    requires |lines| > 0
    requires '\n' !in headerLine && forall i :: 0 <= i < |lines| ==> '\n' !in lines[i]
    ensures Split(headerLine + "\n" + Join(lines, '\n'), '\n') == [headerLine] + lines
  {
    JoinCons(headerLine, lines, '\n');
    var all := [headerLine] + lines;
    assert forall i :: 0 <= i < |lines| ==> all[i + 1] == lines[i];
    SplitJoin(all, '\n');
  }

  /** The rendered text splits at newlines into the header line followed by
      one line per row, and each of those splits at commas into its columns. */
  lemma RenderedLines(hs: seq<string>, info: map<string, nat>, rows: seq<Content>)
    requires forall h :: h in hs ==> h in info && ',' !in h && '\n' !in h
    requires |HeaderColumns(hs, info)| > 0 && |rows| > 0
    requires forall i, h, j :: 0 <= i < |rows| && h in rows[i] && 0 <= j < |rows[i][h]| ==>
      ',' !in rows[i][h][j] && '\n' !in rows[i][h][j]
    requires forall i :: 0 <= i < |rows| ==>
      RowColumns(hs, rows[i], info).Ok? && |RowColumns(hs, rows[i], info).value| > 0
    ensures Render(hs, info, rows).Ok?
    ensures var lines := Split(Render(hs, info, rows).value, '\n');
      |lines| == |rows| + 1 &&
      Split(lines[0], ',') == HeaderColumns(hs, info) &&
      forall i :: 0 <= i < |rows| ==> Split(lines[i + 1], ',') == RowColumns(hs, rows[i], info).value
  {
    HeaderLineSplits(hs, info);
    RowLinesSplit(hs, info, rows);
    var headerLine := Join(HeaderColumns(hs, info), ',');
    var rowLines := RowLines(hs, rows, info).value;
    assert Render(hs, info, rows) == Ok(headerLine + "\n" + Join(rowLines, '\n'));
    LinesSplit(headerLine, rowLines);
    var lines := [headerLine] + rowLines;
    assert lines[0] == headerLine;
    forall i | 0 <= i < |rows|
      ensures Split(lines[i + 1], ',') == RowColumns(hs, rows[i], info).value
    {
      assert lines[i + 1] == rowLines[i];
    }
  }

  /** When neither header names nor values contain a comma or a newline, a
      consumer that splits the output at newlines and each line at commas reads
      back the header columns and each row's columns, in order, and every line
      has Width(hs, info) fields. */
  lemma RenderedTextRectangular(hs: seq<string>, info: map<string, nat>, rows: seq<Content>)
    requires Registered(hs, info) && Tracked(info, rows)
    requires forall h :: h in info ==> info[h] >= 1
    requires forall i, h :: 0 <= i < |rows| && h in hs ==> h in rows[i]
    requires |hs| > 0 && |rows| > 0
    requires forall h :: h in hs ==> ',' !in h && '\n' !in h
    requires forall i, h, j :: 0 <= i < |rows| && h in rows[i] && 0 <= j < |rows[i][h]| ==>
      ',' !in rows[i][h][j] && '\n' !in rows[i][h][j]
    ensures Render(hs, info, rows).Ok?
    ensures forall i :: 0 <= i < |rows| ==> RowColumns(hs, rows[i], info).Ok?
    ensures var lines := Split(Render(hs, info, rows).value, '\n');
      |lines| == |rows| + 1 &&
      Split(lines[0], ',') == HeaderColumns(hs, info) &&
      (forall i :: 0 <= i < |rows| ==> Split(lines[i + 1], ',') == RowColumns(hs, rows[i], info).value) &&
      (forall i :: 0 <= i < |lines| ==> |Split(lines[i], ',')| == Width(hs, info))
  {
    OutputRectangular(hs, info, rows);
    TotalIsWidth(hs, info);
    RenderedLines(hs, info, rows);
    var lines := Split(Render(hs, info, rows).value, '\n');
    forall i | 0 <= i < |lines|
      ensures |Split(lines[i], ',')| == Width(hs, info)
    {
      if i > 0 {
        assert Split(lines[(i - 1) + 1], ',') == RowColumns(hs, rows[i - 1], info).value;
      }
    }
  }
}
