/**
 * Course codes read from an unofficial transcript: the text of each page is
 * searched for test-credit transfers ("Transferred to Term ... as CODE") and for
 * lines that begin with a course code; the codes found are returned sorted and
 * without repeats.
 *
 * The PDF is not read here: a transcript is the sequence of what text
 * extraction gave for each page.
 */
module Transcript {
  import opened Wrappers
  import opened Text

  /** What text extraction gives for one page: no text (None), some text, or an exception. */
  datatype PageText = Blank | Extracted(text: string) | Unreadable

  /** A transcript file: it could not be opened, or its pages. */
  datatype Pdf = Unopenable | Opened(pages: seq<PageText>)

  // ---------------------------------------------------------------------------
  // The course-code pattern [A-Z]{3,4}\s\d{4}

  /** `[A-Z]{k}\s\d{4}` matches at the start of `s`. */
  predicate CodeAt(s: string, k: nat)
  {
    && |s| >= k + 5
    && (forall i :: 0 <= i < k ==> IsUpper(s[i]))
    && IsSpace(s[k])
    && (forall i :: k + 1 <= i < k + 5 ==> IsDigit(s[i]))
  }

  /** `[A-Z]{3,4}\s\d{4}` matches at the start of `s`. */
  predicate StartsWithCode(s: string) { CodeAt(s, 3) || CodeAt(s, 4) }

  /** The number of letters the pattern matched (the regex tries four first; at most one length fits). */
  function LetterCount(s: string): (k: nat)
    requires StartsWithCode(s)
    ensures (k == 3 || k == 4) && CodeAt(s, k)
  {
    if CodeAt(s, 4) then 4 else 3
  }

  /** A string that is exactly one match of the pattern. */
  predicate IsCode(c: string) { (|c| == 8 && CodeAt(c, 3)) || (|c| == 9 && CodeAt(c, 4)) }

  /** The text a match of the pattern covers is a code. */
  lemma CodeMatch(u: string, k: nat)
    requires (k == 3 || k == 4) && CodeAt(u, k)
    ensures IsCode(u[..k + 5])
  {
    var c := u[..k + 5];
    assert forall i :: 0 <= i < k + 5 ==> c[i] == u[i];
  }

  // ---------------------------------------------------------------------------
  // Course lines

  /**
   * On a stripped line that starts with a code, s.split() gives the letters and
   * then the whole non-space token that begins with the four digits.
   */
  lemma CodeLineWords(t: string)
    requires StartsWithCode(t)
    ensures var k := LetterCount(t); var parts := Runs(t, NotSpace);
      && |parts| >= 2 && parts[0] == t[..k]
      && parts[1] == t[k + 1..k + 1 + RunLength(t[k + 1..], NotSpace)]
      && RunLength(t[k + 1..], NotSpace) >= 4
  {
    var k := LetterCount(t);
    assert forall i :: 0 <= i < k ==> NotSpace(t[i]);
    RunsFirstTwo(t, NotSpace, k);
    var v := t[k + 1..];
    assert forall i :: 0 <= i < 4 ==> v[i] == t[k + 1 + i];
  }

  /** The code a course line stores matches the pattern itself. */
  lemma StoredCodeMatches(t: string, k: nat, m: nat)
    requires (k == 3 || k == 4) && CodeAt(t, k) && 4 <= m && k + 1 + m <= |t|
    ensures CodeAt(t[..k] + " " + t[k + 1..k + 1 + m], k)
  {
    var c := t[..k] + " " + t[k + 1..k + 1 + m];
    assert forall i :: 0 <= i < k ==> c[i] == t[i];
    assert forall i :: k + 1 <= i < k + 5 ==> c[i] == t[i];
  }

  /**
   * The code one transcript line contributes: when the stripped line starts with
   * 3-4 capitals, one whitespace character and 4 digits, its first two
   * whitespace-separated words joined by one space: the capitals, a space, and
   * everything from the first digit up to the next whitespace.
   */
  function LineCourse(line: string): (r: Option<string>)
    ensures r.Some? <==> StartsWithCode(Strip(line))
    ensures r.Some? ==> var t := Strip(line); var k := LetterCount(t);
      && r.value == t[..k] + " " + t[k + 1..k + 1 + RunLength(t[k + 1..], NotSpace)]
      && CodeAt(r.value, k)
  {
    var t := Strip(line);
    if !StartsWithCode(t) then None
    else
      var parts := Runs(t, NotSpace);
      CodeLineWords(t);
      StoredCodeMatches(t, LetterCount(t), RunLength(t[LetterCount(t) + 1..], NotSpace));
      Some(parts[0] + " " + parts[1])
  }

  // ---------------------------------------------------------------------------
  // Test credits: findall of  Transferred to Term .*? as\s+([A-Z]{3,4}\s\d{4})

  const TransferMarker := "Transferred to Term "
  const AsMarker := " as"

  /** ` as`, one or more whitespace characters and a code starting at `q` follow position `p`. */
  predicate AsCodeEndsAt(s: string, p: nat, q: nat)
  {
    && p + |AsMarker| < q <= |s|
    && s[p..p + |AsMarker|] == AsMarker
    && (forall i :: p + |AsMarker| <= i < q ==> IsSpace(s[i]))
    && StartsWithCode(s[q..])
  }

  /**
   * ` as\s+` then a code, at position `p`: the position where the code starts.
   * There is at most one such position, as `\s+` cannot stop before a capital.
   */
  function AsCodeAt(s: string, p: nat): (r: Option<nat>)
    requires p <= |s|
    ensures r.Some? ==> AsCodeEndsAt(s, p, r.value)
    ensures forall q: nat :: AsCodeEndsAt(s, p, q) ==> r == Some(q)
  {
    if |s| - p >= |AsMarker| && s[p..p + |AsMarker|] == AsMarker then
      var w := RunLength(s[p + |AsMarker|..], IsSpace);
      AsCodeUnique(s, p, w);
      if w >= 1 && StartsWithCode(s[p + |AsMarker| + w..]) then Some(p + |AsMarker| + w) else None
    else None
  }

  /** The code after ` as` starts right after the whole whitespace run. */
  lemma AsCodeUnique(s: string, p: nat, w: nat)
    requires p + |AsMarker| <= |s| && w == RunLength(s[p + |AsMarker|..], IsSpace)
    ensures forall i :: p + |AsMarker| <= i < p + |AsMarker| + w ==> IsSpace(s[i])
    ensures forall q: nat :: AsCodeEndsAt(s, p, q) ==> q == p + |AsMarker| + w
  {
    var a := p + |AsMarker|;
    forall i | a <= i < a + w ensures IsSpace(s[i]) {
      assert s[a..][i - a] == s[i];
    }
    forall q: nat | AsCodeEndsAt(s, p, q) ensures q == a + w {
      assert IsUpper(s[q..][0]);
    }
  }

  /** The lazy `.*?` from position `p`: the first place, before any newline, where ` as\s+CODE` begins. */
  function LazyScan(s: string, p: nat): (r: Option<nat>)
    requires p <= |s|
    decreases |s| - p
    ensures r.Some? ==> p <= r.value <= |s| && AsCodeAt(s, r.value).Some?
    ensures r.Some? ==> forall i :: p <= i < r.value ==> s[i] != '\n' && AsCodeAt(s, i).None?
    ensures r.None? ==>
      forall i :: p <= i <= |s| && (forall j :: p <= j < i ==> s[j] != '\n') ==> AsCodeAt(s, i).None?
  {
    if AsCodeAt(s, p).Some? then Some(p)
    else if p < |s| && s[p] != '\n' then LazyScan(s, p + 1)
    else None
  }

  /** Text `s` has "Transferred to Term " at position `i`. */
  predicate MarkerAt(s: string, i: nat)
  {
    i + |TransferMarker| <= |s| && s[i..i + |TransferMarker|] == TransferMarker
  }

  /** The test-credit pattern matched at the start of `s`: the captured code and where the match ends. */
  function CreditAt(s: string): (r: Option<(string, nat)>)
    ensures r.Some? ==> 0 < r.value.1 <= |s| && IsCode(r.value.0)
    ensures r.Some? ==> MarkerAt(s, 0)
  {
    if MarkerAt(s, 0) then
      match LazyScan(s, |TransferMarker|)
      case Some(p) =>
        var q := AsCodeAt(s, p).value;
        var k := LetterCount(s[q..]);
        CodeMatch(s[q..], k);
        Some((s[q..][..k + 5], q + k + 5))
      case None => None
    else None
  }

  /** Every capture of the test-credit pattern in `s`, left to right, matches not overlapping. */
  function TestCredits(s: string): (r: seq<string>)
    decreases |s|
    ensures forall k :: 0 <= k < |r| ==> IsCode(r[k])
  {
    if s == [] then []
    else
      match CreditAt(s)
      case Some(m) => [m.0] + TestCredits(s[m.1..])
      case None => TestCredits(s[1..])
  }

  /** Text that never says "Transferred to Term " holds no test credit. */
  lemma {:induction false} NoMarkerNoCredits(s: string)
    requires forall i :: 0 <= i < |s| ==> !MarkerAt(s, i)
    ensures TestCredits(s) == []
    decreases |s|
  {
    if s != [] {
      assert !MarkerAt(s, 0);
      forall i | 0 <= i < |s[1..]|
        ensures !MarkerAt(s[1..], i)
      {
        assert !MarkerAt(s, i + 1);
        if i + |TransferMarker| <= |s[1..]| {
          assert s[1..][i..i + |TransferMarker|] == s[i + 1..i + 1 + |TransferMarker|];
        }
      }
      NoMarkerNoCredits(s[1..]);
    }
  }

  // ---------------------------------------------------------------------------
  // What the pages contribute

  function Elems(xs: seq<string>): set<string> { set x | x in xs }

  /** The union of `f` over `xs`, accumulated left to right as a set that only grows. */
  function UnionOf<T>(xs: seq<T>, f: T -> set<string>): set<string>
  {
    if xs == [] then {} else UnionOf(xs[..|xs| - 1], f) + f(xs[|xs| - 1])
  }

  lemma UnionStep<T>(xs: seq<T>, f: T -> set<string>, i: nat)
    requires i < |xs|
    ensures UnionOf(xs[..i + 1], f) == UnionOf(xs[..i], f) + f(xs[i])
  {
    assert xs[..i + 1][..i] == xs[..i];
  }

  /** An element is in the union exactly when some item contributes it. */
  lemma {:induction false} UnionMembership<T>(xs: seq<T>, f: T -> set<string>, c: string)
    ensures c in UnionOf(xs, f) <==> exists i :: 0 <= i < |xs| && c in f(xs[i])
  {
    if xs != [] {
      var init := xs[..|xs| - 1];
      UnionMembership(init, f, c);
      if c in UnionOf(init, f) {
        var i :| 0 <= i < |init| && c in f(init[i]);
        assert xs[i] == init[i];
      } else if c !in f(xs[|xs| - 1]) {
        forall i | 0 <= i < |xs| ensures c !in f(xs[i]) {
          if i < |xs| - 1 { assert init[i] == xs[i]; }
        }
      }
    }
  }

  /** The union depends only on which items occur: not on their order or repeats. */
  lemma UnionIgnoresOrder<T>(xs: seq<T>, ys: seq<T>, f: T -> set<string>)
    requires forall x :: x in xs <==> x in ys
    ensures UnionOf(xs, f) == UnionOf(ys, f)
  {
    forall c | c in UnionOf(xs, f) ensures c in UnionOf(ys, f) {
      UnionMembership(xs, f, c);
      var i :| 0 <= i < |xs| && c in f(xs[i]);
      assert xs[i] in ys;
      var j :| 0 <= j < |ys| && ys[j] == xs[i];
      UnionMembership(ys, f, c);
    }
    forall c | c in UnionOf(ys, f) ensures c in UnionOf(xs, f) {
      UnionMembership(ys, f, c);
      var j :| 0 <= j < |ys| && c in f(ys[j]);
      assert ys[j] in xs;
      var i :| 0 <= i < |xs| && xs[i] == ys[j];
      UnionMembership(xs, f, c);
    }
  }

  /** Processing more items never loses an element. */
  lemma UnionGrows<T>(xs: seq<T>, ys: seq<T>, f: T -> set<string>)
    ensures UnionOf(xs, f) <= UnionOf(xs + ys, f)
  {
    forall c | c in UnionOf(xs, f) ensures c in UnionOf(xs + ys, f) {
      UnionMembership(xs, f, c);
      var i :| 0 <= i < |xs| && c in f(xs[i]);
      assert (xs + ys)[i] == xs[i];
      UnionMembership(xs + ys, f, c);
    }
  }

  /** The code of one line, as a set: empty when the line does not start with a code. */
  function LineCodes(line: string): set<string>
  {
    match LineCourse(line) case Some(c) => {c} case None => {}
  }

  /** Everything one page adds: its test credits and the codes of its course lines. */
  function PageCourses(page: PageText): set<string>
  {
    match page
    case Extracted(text) => Elems(TestCredits(text)) + UnionOf(Split(text, '\n'), LineCodes)
    case _ => {}
  }

  /** The union of what the pages add, page by page. */
  function Collected(pages: seq<PageText>): set<string>
  {
    UnionOf(pages, PageCourses)
  }

  /** Every page could be read; otherwise extraction gives up. */
  predicate Readable(pdf: Pdf)
  {
    pdf.Opened? && forall i :: 0 <= i < |pdf.pages| ==> !pdf.pages[i].Unreadable?
  }

  /** A page whose extracted text is empty adds no code. */
  lemma EmptyPageAddsNothing()
    ensures PageCourses(Extracted("")) == {}
  {
    assert Split("", '\n') == [""];
    assert Strip("") == "";
    assert LineCodes("") == {};
    assert UnionOf([""], LineCodes) == UnionOf([], LineCodes) + LineCodes("");
  }

  /** The collected codes depend only on which pages occur: not on their order or repeats. */
  lemma CollectedIgnoresOrder(ps: seq<PageText>, qs: seq<PageText>)
    requires forall p :: p in ps <==> p in qs
    ensures Collected(ps) == Collected(qs)
  {
    UnionIgnoresOrder(ps, qs, PageCourses);
  }

  /** A code is collected exactly when some page adds it. */
  lemma CollectedMembership(pages: seq<PageText>, c: string)
    ensures c in Collected(pages) <==> exists i :: 0 <= i < |pages| && c in PageCourses(pages[i])
  {
    UnionMembership(pages, PageCourses, c);
  }

  // ---------------------------------------------------------------------------
  // sorted(list(set))

  /** Strictly ascending in Python's string order: sorted and without repeats. */
  predicate StrictlyAscending(xs: seq<string>)
  {
    forall i, j :: 0 <= i < j < |xs| ==> Less(xs[i], xs[j])
  }

  /** Insert `x` into an ascending sequence, keeping it ascending and without repeats. */
  function Insert(xs: seq<string>, x: string): (r: seq<string>)
    requires StrictlyAscending(xs)
    ensures StrictlyAscending(r)
    ensures Elems(r) == Elems(xs) + {x}
    ensures |r| == if x in xs then |xs| else |xs| + 1
  {
    if xs == [] then [x]
    else if x == xs[0] then xs
    else if Less(x, xs[0]) then
      PrependSmaller(xs, x);
      [x] + xs
    else
      LessTotal(x, xs[0]);
      var rest := Insert(xs[1..], x);
      PrependToInserted(xs, x, rest);
      [xs[0]] + rest
  }

  /** A string below the head of an ascending sequence can go in front of it. */
  lemma PrependSmaller(xs: seq<string>, x: string)
    requires StrictlyAscending(xs) && xs != [] && Less(x, xs[0])
    ensures StrictlyAscending([x] + xs) && x !in xs
  {
    LessIrreflexive(x);
    forall j | 0 <= j < |xs| ensures Less(x, xs[j]) {
      if j > 0 { LessTransitive(x, xs[0], xs[j]); }
    }
  }

  /** The head of an ascending sequence stays in front of the tail with a larger string inserted. */
  lemma PrependToInserted(xs: seq<string>, x: string, rest: seq<string>)
    requires StrictlyAscending(xs) && xs != [] && Less(xs[0], x)
    requires StrictlyAscending(rest) && Elems(rest) == Elems(xs[1..]) + {x}
    ensures StrictlyAscending([xs[0]] + rest)
    ensures Elems([xs[0]] + rest) == Elems(xs) + {x}
    ensures x in xs <==> x in xs[1..]
  {
    assert xs == [xs[0]] + xs[1..];
    assert Elems(xs) == {xs[0]} + Elems(xs[1..]);
    assert Elems([xs[0]] + rest) == {xs[0]} + Elems(rest);
    LessIrreflexive(x);
    forall y | y in rest ensures Less(xs[0], y) {
      assert y in Elems(rest);
    }
  }

  /** The elements of a finite set in strictly ascending order. */
  method SortedList(s: set<string>) returns (r: seq<string>)
    ensures StrictlyAscending(r) && Elems(r) == s && |r| == |s|
  {
    r := [];
    var remaining := s;
    while remaining != {}
      invariant StrictlyAscending(r)
      invariant Elems(r) + remaining == s && Elems(r) !! remaining
      invariant |r| + |remaining| == |s|
      decreases remaining
    {
      var x :| x in remaining;
      assert x !in r by { assert x !in Elems(r); }
      r := Insert(r, x);
      remaining := remaining - {x};
    }
  }

  // ---------------------------------------------------------------------------
  // extract_all_courses

  /** One page's pass: add its test credits, then the code of each course line, to `found`. */
  method AddPageCourses(found: set<string>, text: string) returns (result: set<string>)
    ensures result == found + Elems(TestCredits(text)) + UnionOf(Split(text, '\n'), LineCodes)
  {
    result := found;
    var credits := TestCredits(text);
    for j := 0 to |credits|
      invariant result == found + Elems(credits[..j])
    {
      assert Elems(credits[..j + 1]) == Elems(credits[..j]) + {credits[j]} by {
        assert credits[..j + 1] == credits[..j] + [credits[j]];
      }
      result := result + {credits[j]};
    }
    assert credits[..|credits|] == credits;
    var lines := Split(text, '\n');
    for j := 0 to |lines|
      invariant result == found + Elems(credits) + UnionOf(lines[..j], LineCodes)
    {
      UnionStep(lines, LineCodes, j);
      match LineCourse(lines[j]) {
        case Some(code) =>
          result := result + {code};
        case None =>
      }
    }
    assert lines[..|lines|] == lines;
  }

  /** One more readable page keeps every page read so far readable. */
  lemma ReadableExtend(pages: seq<PageText>, i: nat)
    requires i < |pages| && !pages[i].Unreadable?
    requires forall j :: 0 <= j < i ==> !pages[j].Unreadable?
    ensures forall j :: 0 <= j < i + 1 ==> !pages[j].Unreadable?
  {
  }

  /**
   * The body of the page loop: skip a page without text, otherwise add what it
   * contributes; `ok` is false when extracting the page's text raises.
   */
  method ProcessPage(found: set<string>, page: PageText) returns (ok: bool, result: set<string>)
    ensures ok <==> !page.Unreadable?
    ensures ok ==> result == found + PageCourses(page)
  {
    match page {
      case Unreadable =>
        return false, found;
      case Blank =>
        return true, found;
      case Extracted(text) =>
        if text == "" {
          EmptyPageAddsNothing();
          return true, found;
        }
        result := AddPageCourses(found, text);
        ok := true;
    }
  }

  /**
   * extract_all_courses: the codes of all pages, ascending and without repeats;
   * an unopenable file or a page whose extraction raises gives the empty list.
   */
  method ExtractAllCourses(pdf: Pdf) returns (courses: seq<string>)
    ensures !Readable(pdf) ==> courses == []
    ensures Readable(pdf) ==> StrictlyAscending(courses) && Elems(courses) == Collected(pdf.pages)
  {
    if pdf.Unopenable? {
      return [];
    }
    var pages := pdf.pages;
    var found: set<string> := {};
    var i := 0;
    while i < |pages|
      invariant 0 <= i <= |pages|
      invariant found == Collected(pages[..i])
      invariant forall j :: 0 <= j < i ==> !pages[j].Unreadable?
    {
      var ok, next := ProcessPage(found, pages[i]);
      if !ok {
        return [];
      }
      ReadableExtend(pages, i);
      UnionStep(pages, PageCourses, i);
      assert next == Collected(pages[..i + 1]);
      found, i := next, i + 1;
    }
    assert pages[..|pages|] == pages;
    courses := SortedList(found);
  }
}
