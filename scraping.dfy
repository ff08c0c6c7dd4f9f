/**
 * The catalog scraper: segmentation of a department's course-description page
 * into course titles, requisite numbers and descriptions, the rows stored for
 * them, and the address the page is fetched from.
 *
 * The page itself is not parsed here: a scrape receives the texts of its
 * "courseblocktitle" blocks and of its "courseblockdesc" blocks, in page order.
 */
module Scraping {
  import opened Wrappers
  import opened Text

  /** Course numbers above this belong to graduate courses; the scan stops there. */
  const GraduateBoundary := 5000

  /** Numbers in a description above this are taken to be course numbers. */
  const RequisiteFloor := 1000

  const CatalogBase := "https://catalog.uta.edu/coursedescriptions/"

  function Min(a: nat, b: nat): nat { if a <= b then a else b }

  // ---------------------------------------------------------------------------
  // Titles

  /** The number a title block is judged by: the first digit run before its first '.'. */
  function CourseNumber(title: string): (r: Option<nat>)
    ensures r == None <==> forall i :: 0 <= i < |Split(title, '.')[0]| ==> !IsDigit(Split(title, '.')[0][i])
  {
    var runs := Runs(Split(title, '.')[0], IsDigit);
    RunsShape(Split(title, '.')[0], IsDigit);
    if runs == [] then None else Some(Value(runs[0]))
  }

  /** A title block the scan keeps: its course number exists and is not graduate level. */
  predicate Kept(title: string)
  {
    CourseNumber(title).Some? && CourseNumber(title).value <= GraduateBoundary
  }

  /** A title block the scan stops at. */
  predicate Graduate(title: string)
  {
    CourseNumber(title).Some? && CourseNumber(title).value > GraduateBoundary
  }

  /** A stored title: at most the first two '.'-separated fields of the block. */
  function TitleFields(title: string): (r: seq<string>)
    ensures 1 <= |r| <= 2
  {
    var fields := Split(title, '.');
    fields[..Min(2, |fields|)]
  }

  // ---------------------------------------------------------------------------
  // Requisites

  /** `department + " " + j` for every run j in `runs` with int(j) above the floor, in order. */
  function RequisitesOf(department: string, runs: seq<string>): seq<string>
    requires forall k :: 0 <= k < |runs| ==> AllDigits(runs[k])
  {
    if runs == [] then []
    else
      var rest := RequisitesOf(department, runs[1..]);
      if Value(runs[0]) > RequisiteFloor then [department + " " + runs[0]] + rest else rest
  }

  /** The requisite list of one description: every number in it above 1000. */
  function Requisites(department: string, desc: string): seq<string>
  {
    RunsShape(desc, IsDigit);
    RequisitesOf(department, Runs(desc, IsDigit))
  }

  /** Requisites are collected run by run: the list of a concatenation is the concatenation of the lists. */
  lemma {:induction false} RequisitesOfAppend(department: string, a: seq<string>, b: seq<string>)
    requires forall k :: 0 <= k < |a| ==> AllDigits(a[k])
    requires forall k :: 0 <= k < |b| ==> AllDigits(b[k])
    ensures RequisitesOf(department, a + b) == RequisitesOf(department, a) + RequisitesOf(department, b)
  {
    if a != [] {
      assert (a + b)[1..] == a[1..] + b;
      RequisitesOfAppend(department, a[1..], b);
    } else {
      assert a + b == b;
    }
  }

  /**
   * An entry is in the requisite list exactly when it is the department, a space
   * and a digit run of the description worth more than 1000; such a run has at
   * least four digits.
   */
  lemma {:induction false} RequisitesMembership(department: string, runs: seq<string>, x: string)
    requires forall k :: 0 <= k < |runs| ==> AllDigits(runs[k])
    ensures x in RequisitesOf(department, runs) <==>
      exists k :: 0 <= k < |runs| && Value(runs[k]) > RequisiteFloor && x == department + " " + runs[k]
    ensures x in RequisitesOf(department, runs) ==>
      |x| >= |department| + 5 && x[..|department| + 1] == department + " "
  {
    if runs != [] {
      RequisitesMembership(department, runs[1..], x);
      if x in RequisitesOf(department, runs[1..]) {
        var k :| 0 <= k < |runs[1..]| && Value(runs[1..][k]) > RequisiteFloor && x == department + " " + runs[1..][k];
        assert runs[k + 1] == runs[1..][k];
      }
      if Value(runs[0]) > RequisiteFloor {
        AboveThousandHasFourDigits(runs[0]);
      }
      if exists k :: 0 <= k < |runs| && Value(runs[k]) > RequisiteFloor && x == department + " " + runs[k] {
        var k :| 0 <= k < |runs| && Value(runs[k]) > RequisiteFloor && x == department + " " + runs[k];
        if k > 0 {
          assert runs[1..][k - 1] == runs[k];
        }
      }
    }
  }

  /** Requisites never join numbers across a non-digit: such a character splits the list. */
  lemma RequisitesSeparated(department: string, a: string, c: char, b: string)
    requires !IsDigit(c)
    ensures Requisites(department, a + [c] + b) == Requisites(department, a) + Requisites(department, b)
  {
    RunsSeparated(a, c, b, IsDigit);
    RunsShape(a, IsDigit);
    RunsShape(b, IsDigit);
    RunsShape(a + [c] + b, IsDigit);
    RequisitesOfAppend(department, Runs(a, IsDigit), Runs(b, IsDigit));
  }

  /** A description whose numbers are all at most 1000 yields no requisite. */
  lemma {:induction false} NoLargeNumberNoRequisite(department: string, runs: seq<string>)
    requires forall k :: 0 <= k < |runs| ==> AllDigits(runs[k]) && Value(runs[k]) <= RequisiteFloor
    ensures RequisitesOf(department, runs) == []
  {
    if runs != [] {
      NoLargeNumberNoRequisite(department, runs[1..]);
    }
  }

  // ---------------------------------------------------------------------------
  // find_data

  datatype Catalog = Catalog(titles: seq<seq<string>>, reqs: seq<seq<string>>, descs: seq<string>)

  /** The outcome of `find_data`: the three lists, or the index of the title block without a number that stops it with an error. */
  datatype FindResult = Found(catalog: Catalog) | NoCourseNumber(index: nat)

  /** The scan of title blocks stops at index `n`: all before are kept, and `n` is the end or a graduate course. */
  ghost predicate StopsAt(titleBlocks: seq<string>, n: nat)
  {
    && n <= |titleBlocks|
    && (forall k :: 0 <= k < n ==> Kept(titleBlocks[k]))
    && (n < |titleBlocks| ==> Graduate(titleBlocks[n]))
  }

  /** What `find_data` returns for blocks whose scan stops at the length of `c.titles`. */
  ghost predicate Segments(titleBlocks: seq<string>, descBlocks: seq<string>, department: string, c: Catalog)
  {
    && StopsAt(titleBlocks, |c.titles|)
    && (forall k :: 0 <= k < |c.titles| ==> c.titles[k] == TitleFields(titleBlocks[k]))
    && |c.descs| == |c.reqs| == Min(|c.titles|, |descBlocks|)
    && (forall k :: 0 <= k < |c.descs| ==> c.descs[k] == descBlocks[k])
    && (forall k :: 0 <= k < |c.reqs| ==> c.reqs[k] == Requisites(department, descBlocks[k]))
  }

  /**
   * The title half of find_data: each block is split at '.', and the scan goes
   * on until the end or the first graduate course number. A reached block with
   * no digit before its first '.' stops it with an error, reported as `missing`.
   */
  method ScanTitles(titleBlocks: seq<string>) returns (listOfTitles: seq<seq<string>>, missing: Option<nat>)
    ensures missing.None? ==>
      && StopsAt(titleBlocks, |listOfTitles|)
      && forall k :: 0 <= k < |listOfTitles| ==> listOfTitles[k] == Split(titleBlocks[k], '.')
    ensures missing.Some? ==>
      && missing.value < |titleBlocks|
      && CourseNumber(titleBlocks[missing.value]) == None
      && forall k :: 0 <= k < missing.value ==> Kept(titleBlocks[k])
  {
    listOfTitles := [];
    var i := 0;
    while i < |titleBlocks|
      invariant 0 <= i <= |titleBlocks| && |listOfTitles| == i
      invariant forall k :: 0 <= k < i ==> Kept(titleBlocks[k])
      invariant forall k :: 0 <= k < i ==> listOfTitles[k] == Split(titleBlocks[k], '.')
    {
      var delimited := Split(titleBlocks[i], '.');
      var numbers := Runs(delimited[0], IsDigit);
      RunsShape(delimited[0], IsDigit);
      if numbers == [] {
        return listOfTitles, Some(i);
      }
      var number := Value(numbers[0]);
      assert CourseNumber(titleBlocks[i]) == Some(number);
      if number > GraduateBoundary {
        return listOfTitles, None;
      }
      listOfTitles := listOfTitles + [delimited];
      i := i + 1;
    }
    missing := None;
  }

  /** The description half of find_data: the first `count` descriptions and the requisites of each. */
  method CollectDescriptions(descBlocks: seq<string>, count: nat, department: string)
    returns (descs: seq<string>, reqs: seq<seq<string>>)
    ensures |descs| == |reqs| == Min(count, |descBlocks|)
    ensures forall k :: 0 <= k < |descs| ==> descs[k] == descBlocks[k]
    ensures forall k :: 0 <= k < |reqs| ==> reqs[k] == Requisites(department, descBlocks[k])
  {
    reqs, descs := [], [];
    var descOfCourses := descBlocks[..Min(count, |descBlocks|)];
    for j := 0 to |descOfCourses|
      invariant |descs| == |reqs| == j
      invariant forall k :: 0 <= k < j ==> descs[k] == descBlocks[k]
      invariant forall k :: 0 <= k < j ==> reqs[k] == Requisites(department, descBlocks[k])
    {
      descs := descs + [descOfCourses[j]];
      reqs := reqs + [Requisites(department, descOfCourses[j])];
    }
  }

  /**
   * find_data on the title and description texts of one department's page.
   * Titles are kept up to (not including) the first graduate course number;
   * a reached title with no digit before its first '.' is an error.
   * Descriptions are cut to the number of kept titles.
   */
  method FindData(titleBlocks: seq<string>, descBlocks: seq<string>, department: string) returns (r: FindResult)
    ensures r.Found? ==> Segments(titleBlocks, descBlocks, department, r.catalog)
    ensures r.NoCourseNumber? ==>
      && r.index < |titleBlocks|
      && CourseNumber(titleBlocks[r.index]) == None
      && forall k :: 0 <= k < r.index ==> Kept(titleBlocks[k])
  {
    var listOfTitles, missing := ScanTitles(titleBlocks);
    if missing.Some? {
      return NoCourseNumber(missing.value);
    }
    var titles := seq(|listOfTitles|, k requires 0 <= k < |listOfTitles| => listOfTitles[k][..Min(2, |listOfTitles[k]|)]);
    var descs, reqs := CollectDescriptions(descBlocks, |titles|, department);
    r := Found(Catalog(titles, reqs, descs));
  }

  /**
   * The fields of a kept title: the course code is the text before the first '.',
   * the course name (when the block has a '.') the text between the first and second '.'.
   */
  lemma KeptTitleFields(title: string)
    ensures var t := TitleFields(title);
      && |t[0]| <= |title| && title[..|t[0]|] == t[0] && '.' !in t[0]
      && (|t| == 2 <==> '.' in title)
      && (|t| == 2 ==> var e := |t[0]| + 1 + |t[1]|;
            e <= |title| && title[|t[0]|] == '.' && title[|t[0]| + 1..e] == t[1] && '.' !in t[1])
  {
    SplitLeadingFields(title, '.');
  }

  // ---------------------------------------------------------------------------
  // insert_courses rows

  /** One stored row: Course_Num, Course_Name, Pre_Co_Requisites, Description. */
  datatype CourseRow = CourseRow(courseNum: string, courseName: string, requisites: string, description: string)

  /** Python's str() of a list of strings: ['a', 'b'] (no quote escaping). */
  function ListRepr(xs: seq<string>): (r: string)
    ensures |r| >= 2 && r[0] == '[' && r[|r| - 1] == ']'
    ensures |r| == 2 <==> xs == []
  {
    "[" + ListItems(xs) + "]"
  }

  function ListItems(xs: seq<string>): (r: string)
    ensures xs != [] ==> |r| >= 2
  {
    if xs == [] then ""
    else if |xs| == 1 then "'" + xs[0] + "'"
    else "'" + xs[0] + "', " + ListItems(xs[1..])
  }

  /**
   * The rows insert_courses stores, one per kept title; None when building row i
   * would index past a list (a title without a name field, or fewer descriptions
   * than titles), in which case nothing is committed.
   */
  function Rows(c: Catalog): (r: Option<seq<CourseRow>>)
    ensures r.Some? <==>
      (forall i :: 0 <= i < |c.titles| ==> |c.titles[i]| >= 2) && |c.reqs| >= |c.titles| && |c.descs| >= |c.titles|
    ensures r.Some? ==> |r.value| == |c.titles|
  {
    if (forall i :: 0 <= i < |c.titles| ==> |c.titles[i]| >= 2) && |c.reqs| >= |c.titles| && |c.descs| >= |c.titles| then
      Some(seq(|c.titles|, i requires 0 <= i < |c.titles| =>
        CourseRow(c.titles[i][0], c.titles[i][1], ListRepr(c.reqs[i]), c.descs[i])))
    else None
  }

  /**
   * For a scraped catalog, the rows can be stored exactly when every kept title
   * has a '.' and there are at least as many description blocks as kept titles;
   * then row i carries the i-th block's code and name fields, the repr of its
   * requisite list and its description verbatim.
   */
  lemma RowsOfSegments(titleBlocks: seq<string>, descBlocks: seq<string>, department: string, c: Catalog)
    requires Segments(titleBlocks, descBlocks, department, c)
    ensures Rows(c).Some? <==>
      (forall k :: 0 <= k < |c.titles| ==> '.' in titleBlocks[k]) && |descBlocks| >= |c.titles|
    ensures Rows(c).Some? ==> forall i :: 0 <= i < |c.titles| ==>
      && Rows(c).value[i].courseNum == Split(titleBlocks[i], '.')[0]
      && Rows(c).value[i].courseName == Split(titleBlocks[i], '.')[1]
      && Rows(c).value[i].requisites == ListRepr(Requisites(department, descBlocks[i]))
      && Rows(c).value[i].description == descBlocks[i]
  {
    forall k | 0 <= k < |c.titles|
      ensures |c.titles[k]| >= 2 <==> '.' in titleBlocks[k]
    {
      KeptTitleFields(titleBlocks[k]);
    }
  }

  // ---------------------------------------------------------------------------
  // get_html_content

  /** The page fetched for a department: the catalog base followed by the lower-cased code. */
  function CatalogUrl(department: string): (url: string)
    ensures |url| == |CatalogBase| + |department| && url[..|CatalogBase|] == CatalogBase
    ensures forall i :: |CatalogBase| <= i < |url| ==> !IsUpper(url[i])
    ensures forall i :: 0 <= i < |department| ==> url[|CatalogBase| + i] == LowerChar(department[i])
  {
    CatalogBase + Lower(department)
  }

  /** Department codes that differ only in letter case name the same page. */
  lemma CatalogUrlIgnoresCase(department: string)
    ensures CatalogUrl(Lower(department)) == CatalogUrl(department)
  {
  }
}
