/** The worked example at the end of the exporter module: four headers, two
    of them dynamic, and two rows that use them to different extents. */
module MoodleCsvDemo {
  import opened Text
  import opened MoodleCsv

  const HEADERS: seq<string> := ["username", "profile_field_blah", "course_", "cohort_"]

  /** A row built the way the example builds its rows: one value under each
      of the first two headers (`build_username`, `build_profile_field_blah`)
      and lists under the two dynamic ones (`build_course_`, `build_cohort_`).
      Header names and cell values are parameters. */
  function DemoRow(h1: string, h2: string, h3: string, h4: string,
                   user: string, field: string, courses: seq<string>, cohorts: seq<string>): (c: Content) {
    map[h1 := [user], h2 := [field], h3 := courses, h4 := cohorts]
  }

  /** The maxima after the example's two rows: one value under each of the
      first two headers, at most three under each dynamic one. */
  function DemoMaxima(h1: string, h2: string, h3: string, h4: string): (maxes: map<string, nat>) {
    map[h1 := 1, h2 := 1, h3 := 3, h4 := 3]
  }

  const MAXIMA: map<string, nat> := DemoMaxima("username", "profile_field_blah", "course_", "cohort_")

  predicate Distinct4(h1: string, h2: string, h3: string, h4: string) {
    h1 != h2 && h1 != h3 && h1 != h4 && h2 != h3 && h2 != h4 && h3 != h4
  }

  lemma HeadersDistinct()
    ensures "username" != "profile_field_blah" && "username" != "course_" && "username" != "cohort_"
    ensures "profile_field_blah" != "course_" && "profile_field_blah" != "cohort_"
    ensures "course_" != "cohort_"
  {
    assert |"username"| == 8 && |"profile_field_blah"| == 18 && |"course_"| == 7;
    assert "course_"[2] != "cohort_"[2];
  }

  lemma RowColumnsAppend(hs: seq<string>, h: string, c: Content, maxes: map<string, nat>)
    requires h in c && h in maxes && RowColumns(hs, c, maxes).Ok?
    ensures RowColumns(hs + [h], c, maxes) == Ok(RowColumns(hs, c, maxes).value + Block(c[h], maxes[h]))
  {
    assert (hs + [h])[..|hs|] == hs;
  }

  /** Sequence-display facts, stated once over any element type so that the
      proofs below do not compare strings character by character. */
  lemma Snoc0<T>(s: seq<T>, x: T)
    ensures [] + s == s && [] + [x] == [x]
  {
  }

  lemma Snoc1<T>(x: T, y: T)
    ensures [x] + [y] == [x, y]
  {
  }

  lemma Snoc2<T>(x: T, y: T, z: T)
    ensures [x, y] + [z] == [x, y, z]
  {
  }

  lemma Snoc3<T>(x: T, y: T, z: T, w: T)
    ensures [x, y, z] + [w] == [x, y, z, w]
  {
  }

  lemma Cons2<T>(x: T, y: T, z: T)
    ensures [x] + [y, z] == [x, y, z]
  {
  }

  /** Four blocks of one, one, three and three columns side by side. */
  lemma Concat1133<T>(x1: T, x2: T, x3: T, x4: T, x5: T, x6: T, x7: T, x8: T)
    ensures [x1] + [x2] + [x3, x4, x5] + [x6, x7, x8] == [x1, x2, x3, x4, x5, x6, x7, x8]
  {
  }

  /** A row over four headers is the four blocks side by side. */
  lemma FourHeaderRow(h1: string, h2: string, h3: string, h4: string, c: Content, maxes: map<string, nat>)
    requires h1 in c && h2 in c && h3 in c && h4 in c
    requires h1 in maxes && h2 in maxes && h3 in maxes && h4 in maxes
    ensures RowColumns([h1, h2, h3, h4], c, maxes) == Ok(
      Block(c[h1], maxes[h1]) + Block(c[h2], maxes[h2]) + Block(c[h3], maxes[h3]) + Block(c[h4], maxes[h4]))
  {
    var b1, b2, b3, b4 := Block(c[h1], maxes[h1]), Block(c[h2], maxes[h2]), Block(c[h3], maxes[h3]), Block(c[h4], maxes[h4]);
    assert RowColumns([h1], c, maxes) == Ok(b1) by {
      RowColumnsAppend([], h1, c, maxes);
      Snoc0(b1, h1);
    }
    assert RowColumns([h1, h2], c, maxes) == Ok(b1 + b2) by {
      RowColumnsAppend([h1], h2, c, maxes);
      Snoc1(h1, h2);
    }
    assert RowColumns([h1, h2, h3], c, maxes) == Ok(b1 + b2 + b3) by {
      RowColumnsAppend([h1, h2], h3, c, maxes);
      Snoc2(h1, h2, h3);
    }
    RowColumnsAppend([h1, h2, h3], h4, c, maxes);
    Snoc3(h1, h2, h3, h4);
  }

  /** After the example's two rows, with three courses and one cohort, then
      two courses and three cohorts, the recorded maxima are the ones above. */
  lemma DemoTracked(h1: string, h2: string, h3: string, h4: string,
                    user: string, field: string, c1: string, c2: string, c3: string, co: string,
                    user': string, field': string, d1: string, d2: string, o1: string, o2: string, o3: string)
    requires Distinct4(h1, h2, h3, h4)
    ensures Tracked(DemoMaxima(h1, h2, h3, h4),
      [DemoRow(h1, h2, h3, h4, user, field, [c1, c2, c3], [co]), DemoRow(h1, h2, h3, h4, user', field', [d1, d2], [o1, o2, o3])])
  {
    var r1 := DemoRow(h1, h2, h3, h4, user, field, [c1, c2, c3], [co]);
    var r2 := DemoRow(h1, h2, h3, h4, user', field', [d1, d2], [o1, o2, o3]);
    var rows := [r1, r2];
    var none: seq<Content> := [];
    assert rows[..1] == [r1] && [r1][..0] == none;
    forall h | h in DemoMaxima(h1, h2, h3, h4)
      ensures DemoMaxima(h1, h2, h3, h4)[h] == MaxLen(rows, h)
    {
      assert MaxLen([r1], h) == |r1[h]|;
    }
  }

  /** The blocks of the example's first row. */
  lemma FirstRowBlocks(h1: string, h2: string, h3: string, h4: string,
                       user: string, field: string, c1: string, c2: string, c3: string, co: string)
    requires Distinct4(h1, h2, h3, h4)
    ensures var c, maxes := DemoRow(h1, h2, h3, h4, user, field, [c1, c2, c3], [co]), DemoMaxima(h1, h2, h3, h4);
      Block(c[h1], maxes[h1]) == [user] && Block(c[h2], maxes[h2]) == [field] &&
      Block(c[h3], maxes[h3]) == [c1, c2, c3] && Block(c[h4], maxes[h4]) == ["", "", co]
  {
    assert Blanks(2) == ["", ""];
    Snoc2("", "", co);
  }

  /** The first row of the example: its single cohort is right-aligned
      behind two empty columns. */
  lemma DemoFirstRow(h1: string, h2: string, h3: string, h4: string,
                     user: string, field: string, c1: string, c2: string, c3: string, co: string)
    requires Distinct4(h1, h2, h3, h4)
    ensures RowColumns([h1, h2, h3, h4], DemoRow(h1, h2, h3, h4, user, field, [c1, c2, c3], [co]), DemoMaxima(h1, h2, h3, h4)) ==
      Ok([user, field, c1, c2, c3, "", "", co])
  {
    FirstRowBlocks(h1, h2, h3, h4, user, field, c1, c2, c3, co);
    FourHeaderRow(h1, h2, h3, h4, DemoRow(h1, h2, h3, h4, user, field, [c1, c2, c3], [co]), DemoMaxima(h1, h2, h3, h4));
    Concat1133(user, field, c1, c2, c3, "", "", co);
  }

  /** The blocks of the example's second row. */
  lemma SecondRowBlocks(h1: string, h2: string, h3: string, h4: string,
                        user: string, field: string, c1: string, c2: string, o1: string, o2: string, o3: string)
    requires Distinct4(h1, h2, h3, h4)
    ensures var c, maxes := DemoRow(h1, h2, h3, h4, user, field, [c1, c2], [o1, o2, o3]), DemoMaxima(h1, h2, h3, h4);
      Block(c[h1], maxes[h1]) == [user] && Block(c[h2], maxes[h2]) == [field] &&
      Block(c[h3], maxes[h3]) == ["", c1, c2] && Block(c[h4], maxes[h4]) == [o1, o2, o3]
  {
    assert Blanks(1) == [""];
    Cons2("", c1, c2);
  }

  /** The second row of the example: its two courses are right-aligned
      behind one empty column. */
  lemma DemoSecondRow(h1: string, h2: string, h3: string, h4: string,
                      user: string, field: string, c1: string, c2: string, o1: string, o2: string, o3: string)
    requires Distinct4(h1, h2, h3, h4)
    ensures RowColumns([h1, h2, h3, h4], DemoRow(h1, h2, h3, h4, user, field, [c1, c2], [o1, o2, o3]), DemoMaxima(h1, h2, h3, h4)) ==
      Ok([user, field, "", c1, c2, o1, o2, o3])
  {
    SecondRowBlocks(h1, h2, h3, h4, user, field, c1, c2, o1, o2, o3);
    FourHeaderRow(h1, h2, h3, h4, DemoRow(h1, h2, h3, h4, user, field, [c1, c2], [o1, o2, o3]), DemoMaxima(h1, h2, h3, h4));
    Concat1133(user, field, "", c1, c2, o1, o2, o3);
  }

  lemma NumberedThree(h: string, one: string, two: string, three: string)
    requires IsDynamic(h)
    requires one == Stem(h) + "1" && two == Stem(h) + "2" && three == Stem(h) + "3"
    ensures HeaderBlock(h, 3) == [one, two, three]
  {
    assert NatToString(1) == "1" && NatToString(2) == "2" && NatToString(3) == "3";
  }

  /** The header line over four headers is their four blocks side by side. */
  lemma FourHeaderColumns(h1: string, h2: string, h3: string, h4: string, info: map<string, nat>)
    requires h1 in info && h2 in info && h3 in info && h4 in info
    ensures HeaderColumns([h1, h2, h3, h4], info) ==
      HeaderBlock(h1, info[h1]) + HeaderBlock(h2, info[h2]) + HeaderBlock(h3, info[h3]) + HeaderBlock(h4, info[h4])
  {
    var b1, b2, b3 := HeaderBlock(h1, info[h1]), HeaderBlock(h2, info[h2]), HeaderBlock(h3, info[h3]);
    assert HeaderColumns([h1], info) == b1 by {
      HeaderColumnsAppend([], h1, info);
      Snoc0(b1, h1);
    }
    assert HeaderColumns([h1, h2], info) == b1 + b2 by {
      HeaderColumnsAppend([h1], h2, info);
      Snoc1(h1, h2);
    }
    assert HeaderColumns([h1, h2, h3], info) == b1 + b2 + b3 by {
      HeaderColumnsAppend([h1, h2], h3, info);
      Snoc2(h1, h2, h3);
    }
    HeaderColumnsAppend([h1, h2, h3], h4, info);
    Snoc3(h1, h2, h3, h4);
  }

  /** The example's header columns: each dynamic header expands to as many
      numbered columns as its maximum. */
  lemma DemoHeaderColumns()
    ensures HeaderColumns(HEADERS, MAXIMA) ==
      ["username", "profile_field_blah", "course1", "course2", "course3", "cohort1", "cohort2", "cohort3"]
  {
    HeadersDistinct();
    assert MAXIMA["username"] == 1 && MAXIMA["profile_field_blah"] == 1;
    assert MAXIMA["course_"] == 3 && MAXIMA["cohort_"] == 3;
    assert !IsDynamic("username") && !IsDynamic("profile_field_blah");
    NumberedThree("course_", "course1", "course2", "course3");
    NumberedThree("cohort_", "cohort1", "cohort2", "cohort3");
    FourHeaderColumns("username", "profile_field_blah", "course_", "cohort_", MAXIMA);
    Concat1133("username", "profile_field_blah", "course1", "course2", "course3", "cohort1", "cohort2", "cohort3");
  }
}
