/** The Moodle "upload users" CSV builder: a row object that enforces the
    static/dynamic value shape of each header, and a file object that collects
    rows, keeps the largest number of values seen per header, and renders the
    rows right-aligned under numbered dynamic header columns. */
module MoodleCsv {
  import opened Text

  /** A row's content: header name to the list of values stored under it. */
  type Content = map<string, seq<string>>

  /** What a caller passes to `build`: a single string or a list of strings. */
  datatype Value = Str(s: string) | List(xs: seq<string>)

  /** The exceptions the builder raises: the two `PSI_Error` messages of
      `build`, and Python's `KeyError` for a missing dictionary key. */
  datatype Error =
    | DynamicGivenString
    | StaticGivenList
    | KeyError(key: string)

  datatype Result<T> = Ok(value: T) | Err(error: Error)

  /** The outcome of a call that returns nothing useful on success. */
  datatype Status = Done | Failed(error: Error)

  /** A header is dynamic (a repeated group such as `course_`) when its name
      ends with an underscore; any other header is static. */
  predicate IsDynamic(name: string) {
    |name| > 0 && name[|name| - 1] == '_'
  }

  /** `name[:-1]`: a dynamic header without its underscore. */
  function Stem(name: string): (r: string)
    requires IsDynamic(name)
    ensures r + "_" == name
  {
    name[..|name| - 1]
  }

  function Max(a: nat, b: nat): (r: nat) {
    if a < b then b else a
  }

  // ---------------------------------------------------------------------
  // Building a row
  // ---------------------------------------------------------------------

  /** The effect of `build(name, value)` on a row's content. */
  function Apply(c: Content, name: string, v: Value): (r: Result<Content>)
    ensures v.Str? ==> (r.Err? <==> IsDynamic(name))
    ensures v.List? ==> (r.Err? <==> !IsDynamic(name) || name !in c)
    ensures r.Err? && v.Str? ==> r.error == DynamicGivenString
    ensures r.Err? && v.List? ==> r.error == (if IsDynamic(name) then KeyError(name) else StaticGivenList)
    ensures r.Ok? ==> r.value.Keys == c.Keys + {name}
    ensures r.Ok? && v.Str? ==> r.value[name] == [v.s]
    ensures r.Ok? && v.List? ==> r.value[name] == c[name] + v.xs
    ensures r.Ok? ==> forall k :: k in c && k != name ==> r.value[k] == c[k]
  {
    match v
    case Str(s) =>
      if IsDynamic(name) then Err(DynamicGivenString) else Ok(c[name := [s]])
    case List(xs) =>
      if !IsDynamic(name) then Err(StaticGivenList)
      else if name !in c then Err(KeyError(name))
      else Ok(c[name := c[name] + xs])
  }

  /** Every static entry of a content holds at most one value. */
  predicate StaticsSingle(c: Content) {
    forall k :: k in c && !IsDynamic(k) ==> |c[k]| <= 1
  }

  // ---------------------------------------------------------------------
  // Rendering
  // ---------------------------------------------------------------------

  function Blanks(n: nat): (r: seq<string>) {
    seq(n, _ => "")
  }

  /** One header's columns in a row line: the values, left-padded with empty
      strings up to `m` columns, so that they end up right-aligned. */
  function Block(vals: seq<string>, m: nat): (r: seq<string>)
    ensures |r| == Max(m, |vals|)
    ensures r[|r| - |vals|..] == vals
    ensures forall i :: 0 <= i < |r| - |vals| ==> r[i] == ""
  {
    if |vals| < m then Blanks(m - |vals|) + vals else vals
  }

  /** The columns of a row line, or the `KeyError` for the first header that
      is missing from the maxima or from the content. */
  function RowColumns(hs: seq<string>, c: Content, maxes: map<string, nat>): (r: Result<seq<string>>)
    decreases |hs|
  {
    if hs == [] then Ok([])
    else
      match RowColumns(hs[..|hs| - 1], c, maxes)
      case Err(e) => Err(e)
      case Ok(cols) =>
        var h := hs[|hs| - 1];
        if h !in maxes || h !in c then Err(KeyError(h))
        else Ok(cols + Block(c[h], maxes[h]))
  }

  function RowLine(hs: seq<string>, c: Content, maxes: map<string, nat>): (r: Result<string>) {
    match RowColumns(hs, c, maxes)
    case Err(e) => Err(e)
    case Ok(cols) => Ok(Join(cols, ','))
  }

  /** `stem1`, ..., `stemm`. */
  function Numbered(stem: string, m: nat): (r: seq<string>) {
    seq(m, i requires 0 <= i < m => stem + NatToString(i + 1))
  }

  /** One header's columns in the header line. A header whose maximum is 0
      keeps its raw name, underscore included. */
  function HeaderBlock(h: string, m: nat): (r: seq<string>) {
    if m == 0 then [h]
    else if IsDynamic(h) then Numbered(Stem(h), m)
    else [h]
  }

  function HeaderColumns(hs: seq<string>, info: map<string, nat>): (r: seq<string>)
    requires forall h :: h in hs ==> h in info
  {
    if hs == [] then []
    else HeaderColumns(hs[..|hs| - 1], info) + HeaderBlock(hs[|hs| - 1], info[hs[|hs| - 1]])
  }

  /** The row lines in insertion order, or the first row's error. */
  function RowLines(hs: seq<string>, rows: seq<Content>, info: map<string, nat>): (r: Result<seq<string>>)
    decreases |rows|
  {
    if rows == [] then Ok([])
    else
      match RowLines(hs, rows[..|rows| - 1], info)
      case Err(e) => Err(e)
      case Ok(lines) =>
        match RowLine(hs, rows[|rows| - 1], info)
        case Err(e) => Err(e)
        case Ok(line) => Ok(lines + [line])
  }

  /** The text `MoodleCSVFile.output` returns: the header line, a newline,
      and the row lines joined by newlines. */
  function Render(hs: seq<string>, info: map<string, nat>, rows: seq<Content>): (r: Result<string>)
    requires forall h :: h in hs ==> h in info
  {
    match RowLines(hs, rows, info)
    case Err(e) => Err(e)
    case Ok(lines) => Ok(Join(HeaderColumns(hs, info), ',') + "\n" + Join(lines, '\n'))
  }

  lemma {:induction false} RowColumnsPrefixErr(hs: seq<string>, k: nat, c: Content, maxes: map<string, nat>)
    requires k <= |hs| && RowColumns(hs[..k], c, maxes).Err?
    ensures RowColumns(hs, c, maxes) == RowColumns(hs[..k], c, maxes)
    decreases |hs| - k
  {
    if k < |hs| {
      assert hs[..|hs| - 1][..k] == hs[..k];
      RowColumnsPrefixErr(hs[..|hs| - 1], k, c, maxes);
    } else {
      assert hs[..k] == hs;
    }
  }

  lemma {:induction false} RowLinesPrefixErr(hs: seq<string>, rows: seq<Content>, k: nat, info: map<string, nat>)
    requires k <= |rows| && RowLines(hs, rows[..k], info).Err?
    ensures RowLines(hs, rows, info) == RowLines(hs, rows[..k], info)
    decreases |rows| - k
  {
    if k < |rows| {
      assert rows[..|rows| - 1][..k] == rows[..k];
      RowLinesPrefixErr(hs, rows[..|rows| - 1], k, info);
    } else {
      assert rows[..k] == rows;
    }
  }

  /** One header's share of a row line: as many empty columns as the values
      fall short of the maximum, then the values. */
  method PadBlock(vals: seq<string>, m: nat) returns (out: seq<string>)
    ensures out == Block(vals, m)
  {
    out := [];
    var l := |vals|;
    if l < m {
      for j := 0 to m - l
        invariant out == Blanks(j)
      {
        assert Blanks(j) + [""] == Blanks(j + 1);
        out := out + [""];
      }
    }
    out := out + vals;
  }

  /** `moodle_csv_row.output(max_dict)` on a row with header list `hs` and
      content `c`: builds the column list header by header (padding, then the
      values) and joins it with commas. */
  method RenderRow(hs: seq<string>, c: Content, maxes: map<string, nat>) returns (r: Result<string>)
    ensures r == RowLine(hs, c, maxes)
  {
    var out: seq<string> := [];
    for i := 0 to |hs|
      invariant RowColumns(hs[..i], c, maxes) == Ok(out)
    {
      var h := hs[i];
      assert hs[..i + 1][..i] == hs[..i];
      if h !in maxes || h !in c {
        RowColumnsPrefixErr(hs, i + 1, c, maxes);
        return Err(KeyError(h));
      }
      var block := PadBlock(c[h], maxes[h]);
      out := out + block;
    }
    assert hs[..|hs|] == hs;
    r := Ok(Join(out, ','));
  }

  /** The header-line loop of `MoodleCSVFile.output`: a header whose maximum
      is 0 is kept verbatim, a dynamic header with maximum m becomes m numbered
      columns, a static header appears once. */
  method RenderHeader(hs: seq<string>, info: map<string, nat>) returns (out: seq<string>)
    requires forall h :: h in hs ==> h in info
    ensures out == HeaderColumns(hs, info)
  {
    out := [];
    for i := 0 to |hs|
      invariant out == HeaderColumns(hs[..i], info)
    {
      var h := hs[i];
      var m := info[h];
      assert hs[..i + 1] == hs[..i] + [h];
      HeaderColumnsAppend(hs[..i], h, info);
      if m == 0 {
        out := out + [h];
      } else if IsDynamic(h) {
        var cols := NumberedColumns(Stem(h), m);
        out := out + cols;
      } else {
        out := out + [h];
      }
    }
    assert hs[..|hs|] == hs;
  }

  /** The inner loop of the header line: `stem1`, ..., `stemm`. */
  method NumberedColumns(stem: string, m: nat) returns (cols: seq<string>)
    ensures cols == Numbered(stem, m)
  {
    cols := [];
    for t := 1 to m + 1
      invariant cols == Numbered(stem, t - 1)
    {
      NumberedSnoc(stem, t - 1);
      cols := cols + [stem + NatToString(t)];
    }
  }

  /** The header line grows by one header's block at a time. */
  lemma HeaderColumnsAppend(hs: seq<string>, h: string, info: map<string, nat>)
    requires h in info && forall g :: g in hs ==> g in info
    ensures HeaderColumns(hs + [h], info) == HeaderColumns(hs, info) + HeaderBlock(h, info[h])
  {
    assert (hs + [h])[..|hs|] == hs;
  }

  lemma NumberedSnoc(stem: string, m: nat)
    ensures Numbered(stem, m + 1) == Numbered(stem, m) + [stem + NatToString(m + 1)]
  {
  }

  // ---------------------------------------------------------------------
  // Maxima
  // ---------------------------------------------------------------------

  /** The largest number of values stored under `h` among the rows that have
      `h`, or 0. */
  ghost function MaxLen(rows: seq<Content>, h: string): (r: nat) {
    if rows == [] then 0
    else
      var last := rows[|rows| - 1];
      Max(MaxLen(rows[..|rows| - 1], h), if h in last then |last[h]| else 0)
  }

  /** Every recorded maximum is the largest length seen among the rows. */
  ghost predicate Tracked(info: map<string, nat>, rows: seq<Content>) {
    forall h :: h in info ==> info[h] == MaxLen(rows, h)
  }

  lemma MaxLenSnoc(rows: seq<Content>, c: Content, h: string)
    ensures MaxLen(rows + [c], h) == Max(MaxLen(rows, h), if h in c then |c[h]| else 0)
  {
    assert (rows + [c])[..|rows|] == rows;
  }

  /** The index of the first header of `hs` that is not in `keys`, or `|hs|`
      when there is none. */
  function FirstMissing(hs: seq<string>, keys: set<string>): (k: nat)
    ensures k <= |hs|
    ensures forall j :: 0 <= j < k ==> hs[j] in keys
    ensures k < |hs| ==> hs[k] !in keys
  {
    if hs == [] then 0
    else
      var n := |hs|;
      var k := FirstMissing(hs[..n - 1], keys);
      if k < n - 1 then k else if hs[n - 1] in keys then n else n - 1
  }

  /** `info` after raising, header by header along `done`, each maximum to
      the row's length. */
  function Raised(info: map<string, nat>, done: seq<string>, c: Content): (r: map<string, nat>)
    decreases |done|
  {
    if done == [] then info
    else
      var before := Raised(info, done[..|done| - 1], c);
      var h := done[|done| - 1];
      if h in before && h in c then before[h := Max(before[h], |c[h]|)] else before
  }

  /** Raising leaves each header's maximum at the larger of its old value and
      the row's length when the header was walked, and unchanged otherwise. */
  lemma {:induction false} RaisedAt(info: map<string, nat>, done: seq<string>, c: Content)
    ensures Raised(info, done, c).Keys == info.Keys
    ensures forall h :: h in info ==>
      Raised(info, done, c)[h] == if h in done && h in c then Max(info[h], |c[h]|) else info[h]
    decreases |done|
  {
    if done != [] {
      var prefix := done[..|done| - 1];
      RaisedAt(info, prefix, c);
      assert done == prefix + [done[|done| - 1]];
    }
  }

  /** The loop of `add_row`: walks the headers in order, reads each one's
      list through `row[header]` and raises its maximum to the list's length,
      stopping at the first header the row lacks (whose index it returns, or
      `|hs|`). */
  method RaiseMaxima(info: map<string, nat>, hs: seq<string>, row: MoodleCsvRow) returns (raised: map<string, nat>, k: nat)
    requires forall h :: h in hs ==> h in info
    ensures k == FirstMissing(hs, row.content.Keys)
    ensures raised == Raised(info, hs[..k], row.content)
  {
    ghost var c := row.content;
    raised := info;
    for i := 0 to |hs|
      invariant forall j :: 0 <= j < i ==> hs[j] in c
      invariant raised == Raised(info, hs[..i], c)
    {
      var h := hs[i];
      var item := row.Item(h);
      if item.Err? {
        FirstMissingAt(hs, c.Keys, i);
        return raised, i;
      }
      var len := |item.value|;
      RaisedAt(info, hs[..i], c);
      assert hs[..i + 1][..i] == hs[..i];
      assert Raised(info, hs[..i + 1], c) == raised[h := Max(raised[h], len)];
      var nowMax := raised[h];
      if nowMax < len {
        raised := raised[h := len];
      } else {
        assert raised[h := Max(raised[h], len)] == raised;
      }
    }
    assert hs[..|hs|] == hs;
    FirstMissingAt(hs, c.Keys, |hs|);
    k := |hs|;
  }

  lemma FirstMissingAt(hs: seq<string>, keys: set<string>, i: nat)
    requires i <= |hs| && (i < |hs| ==> hs[i] !in keys)
    requires forall j :: 0 <= j < i ==> hs[j] in keys
    ensures FirstMissing(hs, keys) == i
  {
  }

  /** Raising keeps the keys, never lowers a maximum, and keeps static
      maxima at most 1 when the row's static entries hold at most one value. */
  lemma RaisedKeeps(info: map<string, nat>, done: seq<string>, c: Content)
    ensures Raised(info, done, c).Keys == info.Keys
    ensures forall h :: h in info ==> info[h] <= Raised(info, done, c)[h]
    ensures StaticsSingle(c) && (forall h :: h in info && !IsDynamic(h) ==> info[h] <= 1) ==>
      forall h :: h in info && !IsDynamic(h) ==> Raised(info, done, c)[h] <= 1
  {
    RaisedAt(info, done, c);
  }

  /** Raising every maximum by a row that has all the headers keeps the
      maxima equal to the largest lengths seen. */
  lemma RaisedTracked(info: map<string, nat>, rows: seq<Content>, hs: seq<string>, c: Content)
    requires Tracked(info, rows)
    requires forall h :: h in info ==> h in hs
    requires forall h :: h in hs ==> h in c
    ensures Tracked(Raised(info, hs, c), rows + [c])
  {
    RaisedAt(info, hs, c);
    forall h | h in info
      ensures Raised(info, hs, c)[h] == MaxLen(rows + [c], h)
    {
      MaxLenSnoc(rows, c, h);
    }
  }

  // ---------------------------------------------------------------------
  // The two classes
  // ---------------------------------------------------------------------

  /** `moodle_csv_row`: one record, keyed by header name. */
  class MoodleCsvRow {
    var headerList: seq<string>
    var content: Content

    ghost predicate Valid()
      reads this
    {
      (forall h :: h in headerList ==> h in content) && StaticsSingle(content)
    }

    /** Every header of the list starts with no values, and there is no
        other key. */
    constructor (headerList: seq<string>)
      ensures Valid() && this.headerList == headerList
      ensures forall h :: h in content <==> h in headerList
      ensures forall h :: h in content ==> content[h] == []
    {
      this.headerList := headerList;
      var c: Content := map[];
      for i := 0 to |headerList|
        invariant forall h :: h in c <==> h in headerList[..i]
        invariant forall h :: h in c ==> c[h] == []
      {
        assert headerList[..i + 1] == headerList[..i] + [headerList[i]];
        c := c[headerList[i] := []];
      }
      assert headerList[..|headerList|] == headerList;
      content := c;
    }

    /** `build(name, objects)`: a string on a static header replaces the entry
        with `[s]`, a list on a dynamic header is appended to it; a mismatch,
        or a list for a header the row does not have, fails and leaves the row
        as it was. */
    method Build(name: string, v: Value) returns (r: Status)
      requires Valid()
      modifies this
      ensures Valid() && headerList == old(headerList)
      ensures var a := Apply(old(content), name, v);
        (a.Ok? ==> r == Done && content == a.value) &&
        (a.Err? ==> r == Failed(a.error) && content == old(content))
    {
      match v
      case Str(s) =>
        if IsDynamic(name) {
          return Failed(DynamicGivenString);
        }
        content := content[name := [s]];
        r := Done;
      case List(xs) =>
        if !IsDynamic(name) {
          return Failed(StaticGivenList);
        }
        if name !in content {
          return Failed(KeyError(name));
        }
        content := content[name := content[name] + xs];
        r := Done;
    }

    /** `row[name]`. */
    function Item(name: string): (r: Result<seq<string>>)
      reads this
      ensures r.Ok? <==> name in content
      ensures r.Ok? ==> r.value == content[name]
      ensures r.Err? ==> r.error == KeyError(name)
    {
      if name in content then Ok(content[name]) else Err(KeyError(name))
    }

    /** `output(max_dict)`. */
    method Output(maxes: map<string, nat>) returns (r: Result<string>)
      requires Valid()
      ensures r == RowLine(headerList, content, maxes)
    {
      r := RenderRow(headerList, content, maxes);
    }
  }

  /** `MoodleCSVFile`: the header list, the rows added so far (as the content
      each had when it was added) and the running maximum per header. */
  class MoodleCsvFile {
    var rows: seq<Content>
    var headerInfo: map<string, nat>
    var headerList: seq<string>

    /** The maxima are kept for exactly the headers of the list, and a static
        header's maximum is 0 or 1. */
    ghost predicate Valid()
      reads this
    {
      (forall h :: h in headerInfo <==> h in headerList) &&
      (forall h :: h in headerInfo && !IsDynamic(h) ==> headerInfo[h] <= 1)
    }

    constructor ()
      ensures Valid()
      ensures rows == [] && headerInfo == map[] && headerList == []
      ensures Tracked(headerInfo, rows)
    {
      rows := [];
      headerInfo := map[];
      headerList := [];
    }

    /** `build_headers(objects)`: appends the names to the header list and
        sets each one's maximum to 0. */
    method BuildHeaders(objects: seq<string>)
      requires Valid()
      modifies this
      ensures Valid()
      ensures rows == old(rows)
      ensures headerList == old(headerList) + objects
      ensures forall h :: h in headerInfo <==> h in old(headerInfo) || h in objects
      ensures forall h :: h in objects ==> headerInfo[h] == 0
      ensures forall h :: h in old(headerInfo) && h !in objects ==> headerInfo[h] == old(headerInfo)[h]
      ensures rows == [] && old(Tracked(headerInfo, rows)) ==> Tracked(headerInfo, rows)
    {
      for i := 0 to |objects|
        invariant forall h :: h in headerInfo <==> h in old(headerInfo) || h in objects[..i]
        invariant forall h :: h in objects[..i] ==> headerInfo[h] == 0
        invariant forall h :: h in old(headerInfo) && h !in objects[..i] ==> headerInfo[h] == old(headerInfo)[h]
        invariant forall h :: h in headerInfo && !IsDynamic(h) ==> headerInfo[h] <= 1
        invariant headerList == old(headerList) && rows == old(rows)
      {
        assert objects[..i + 1] == objects[..i] + [objects[i]];
        headerInfo := headerInfo[objects[i] := 0];
      }
      assert objects[..|objects|] == objects;
      headerList := headerList + objects;
    }

    /** `factory()`: a fresh row over the current header list. */
    method Factory() returns (row: MoodleCsvRow)
      ensures fresh(row) && row.Valid() && row.headerList == headerList
      ensures forall h :: h in row.content <==> h in headerList
      ensures forall h :: h in row.content ==> row.content[h] == []
    {
      row := new MoodleCsvRow(headerList);
    }

    /** `add_row(r)`: appends the row, then walks the headers and raises each
        maximum to the row's length. A header the row lacks stops the walk
        with a `KeyError`, after the row was appended and the maxima of the
        earlier headers were raised. */
    method AddRow(row: MoodleCsvRow) returns (r: Status)
      requires Valid() && row.Valid()
      modifies this
      ensures Valid() && headerList == old(headerList)
      ensures rows == old(rows) + [row.content]
      ensures r.Done? <==> forall h :: h in headerList ==> h in row.content
      ensures var k := FirstMissing(headerList, row.content.Keys);
        r == (if k == |headerList| then Done else Failed(KeyError(headerList[k]))) &&
        (forall h :: h in headerInfo <==> h in old(headerInfo)) &&
        (forall h :: h in old(headerInfo) ==>
           headerInfo[h] == if h in headerList[..k] then Max(old(headerInfo)[h], |row.content[h]|) else old(headerInfo)[h])
      ensures forall h :: h in old(headerInfo) ==> old(headerInfo)[h] <= headerInfo[h]
      ensures r.Done? && old(Tracked(headerInfo, rows)) ==> Tracked(headerInfo, rows)
    {
      var c := row.content;
      rows := rows + [c];
      var raised, k := RaiseMaxima(headerInfo, headerList, row);
      headerInfo := raised;
      r := if k == |headerList| then Done else Failed(KeyError(headerList[k]));
      RaisedKeeps(old(headerInfo), headerList[..k], c);
      RaisedAt(old(headerInfo), headerList[..k], c);
      if k == |headerList| && old(Tracked(headerInfo, rows)) {
        assert headerList[..k] == headerList;
        RaisedTracked(old(headerInfo), old(rows), headerList, c);
      }
    }

    /** `output()` without the file write: the header line (each header
        expanded by its maximum), a newline, and the row lines. */
    method Output() returns (r: Result<string>)
      requires Valid()
      ensures r == Render(headerList, headerInfo, rows)
    {
      var out := RenderHeader(headerList, headerInfo);
      var s := Join(out, ',') + "\n";
      var lines: seq<string> := [];
      for j := 0 to |rows|
        invariant RowLines(headerList, rows[..j], headerInfo) == Ok(lines)
      {
        var line := RenderRow(headerList, rows[j], headerInfo);
        assert rows[..j + 1][..j] == rows[..j];
        if line.Err? {
          RowLinesPrefixErr(headerList, rows, j + 1, headerInfo);
          return Err(line.error);
        }
        lines := lines + [line.value];
      }
      assert rows[..|rows|] == rows;
      r := Ok(s + Join(lines, '\n'));
    }
  }
}
