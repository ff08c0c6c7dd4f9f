/**
 * The string primitives the catalog scraper and the transcript parser rely on:
 * maximal character runs (re.findall(r'\d+') and str.split()), str.split on one
 * separator, str.strip, int() of a digit string, str.lower and Python's ordering
 * of strings. Character classes are the ASCII ones.
 */
module Text {

  predicate IsDigit(c: char) { '0' <= c <= '9' }

  predicate IsUpper(c: char) { 'A' <= c <= 'Z' }

  /** The whitespace the model uses: space, \t, \n, \r, \v and \f (Python's ASCII whitespace also has \x1c-\x1f). */
  predicate IsSpace(c: char) {
    c == ' ' || c == '\t' || c == '\n' || c == '\r' || c == '\U{0B}' || c == '\U{0C}'
  }

  predicate NotSpace(c: char) { !IsSpace(c) }

  predicate AllDigits(s: string) { forall i :: 0 <= i < |s| ==> IsDigit(s[i]) }

  // ---------------------------------------------------------------------------
  // Maximal runs

  /** Length of the longest prefix of `s` whose characters all satisfy `p`. */
  function RunLength(s: string, p: char -> bool): (n: nat)
    ensures n <= |s|
    ensures forall i :: 0 <= i < n ==> p(s[i])
    ensures n < |s| ==> !p(s[n])
  {
    if s != [] && p(s[0]) then 1 + RunLength(s[1..], p) else 0
  }

  /**
   * The maximal runs of characters satisfying `p`, left to right: with `IsDigit`
   * this is re.findall(r'\d+', s), with `NotSpace` it is s.split().
   */
  function Runs(s: string, p: char -> bool): seq<string>
    decreases |s|
  {
    if s == [] then []
    else if !p(s[0]) then Runs(s[1..], p)
    else
      var n := RunLength(s, p);
      [s[..n]] + Runs(s[n..], p)
  }

  /** Every run is non-empty and made of `p` characters; there are none exactly when no character satisfies `p`. */
  lemma {:induction false} RunsShape(s: string, p: char -> bool)
    ensures var r := Runs(s, p);
      && (forall k :: 0 <= k < |r| ==> r[k] != [] && forall i :: 0 <= i < |r[k]| ==> p(r[k][i]))
      && (r == [] <==> forall i :: 0 <= i < |s| ==> !p(s[i]))
    decreases |s|
  {
    if s != [] {
      if !p(s[0]) {
        RunsShape(s[1..], p);
        assert forall i :: 1 <= i < |s| ==> s[i] == s[1..][i - 1];
      } else {
        var n := RunLength(s, p);
        RunsShape(s[n..], p);
      }
    }
  }

  /** A non-empty string made only of `p` characters is a single run. */
  lemma {:induction false} RunsOfRun(s: string, p: char -> bool)
    requires s != [] && forall i :: 0 <= i < |s| ==> p(s[i])
    ensures Runs(s, p) == [s]
  {
    var n := RunLength(s, p);
    assert p(s[0]);
    assert n == |s|;
    assert s[..n] == s && s[n..] == [];
    assert Runs(s[n..], p) == [];
  }

  /** A run never crosses a character outside `p`: such a character splits the runs. */
  lemma {:induction false} RunsSeparated(a: string, c: char, b: string, p: char -> bool)
    requires !p(c)
    ensures Runs(a + [c] + b, p) == Runs(a, p) + Runs(b, p)
    decreases |a|
  {
    var s := a + [c] + b;
    if a == [] {
      assert s == [c] + b && s[1..] == b;
      assert Runs(s, p) == Runs(b, p);
    } else if !p(a[0]) {
      assert s[0] == a[0];
      assert s[1..] == a[1..] + [c] + b;
      assert Runs(s, p) == Runs(s[1..], p);
      assert Runs(a, p) == Runs(a[1..], p);
      RunsSeparated(a[1..], c, b, p);
    } else {
      var n := RunLength(a, p);
      RunLengthExtend(a, [c] + b, p);
      assert s == a + ([c] + b);
      assert s[0] == a[0];
      assert s[..n] == a[..n];
      assert s[n..] == a[n..] + [c] + b;
      assert Runs(s, p) == [s[..n]] + Runs(s[n..], p);
      assert Runs(a, p) == [a[..n]] + Runs(a[n..], p);
      RunsSeparated(a[n..], c, b, p);
    }
  }

  /** A prefix of `p` characters followed by the end or a non-`p` character is the leading run. */
  lemma {:induction false} RunLengthExact(s: string, p: char -> bool, n: nat)
    requires n <= |s| && (forall i :: 0 <= i < n ==> p(s[i])) && (n < |s| ==> !p(s[n]))
    ensures RunLength(s, p) == n
    decreases n
  {
    if n > 0 {
      assert forall i :: 0 <= i < n - 1 ==> s[1..][i] == s[i + 1];
      RunLengthExact(s[1..], p, n - 1);
    }
  }

  /** A string that starts with a run of length `n` splits into that run and the runs after it. */
  lemma RunsAfterRun(s: string, p: char -> bool, n: nat)
    requires 0 < n <= |s| && (forall i :: 0 <= i < n ==> p(s[i])) && (n < |s| ==> !p(s[n]))
    ensures Runs(s, p) == [s[..n]] + Runs(s[n..], p)
  {
    RunLengthExact(s, p, n);
  }

  /** A leading character outside `p` starts no run. */
  lemma RunsSkip(s: string, p: char -> bool)
    requires s != [] && !p(s[0])
    ensures Runs(s, p) == Runs(s[1..], p)
  {
  }

  /** A run, one character outside `p`, then a second run: the first two runs are those two. */
  lemma RunsFirstTwo(t: string, p: char -> bool, k: nat)
    requires 0 < k && k + 1 < |t| && (forall i :: 0 <= i < k ==> p(t[i])) && !p(t[k]) && p(t[k + 1])
    ensures var m := RunLength(t[k + 1..], p);
      && |Runs(t, p)| >= 2 && Runs(t, p)[0] == t[..k] && Runs(t, p)[1] == t[k + 1..k + 1 + m]
  {
    RunsAfterRun(t, p, k);
    var u := t[k..];
    assert u[0] == t[k] && u[1..] == t[k + 1..];
    RunsSkip(u, p);
    var v := t[k + 1..];
    var m := RunLength(v, p);
    RunsAfterRun(v, p, m);
    assert v[..m] == t[k + 1..k + 1 + m];
  }

  /** Appending text that starts outside `p` does not lengthen a leading run. */
  lemma {:induction false} RunLengthExtend(a: string, t: string, p: char -> bool)
    requires t == [] || !p(t[0])
    ensures RunLength(a + t, p) == RunLength(a, p)
    decreases |a|
  {
    if a != [] && p(a[0]) {
      assert (a + t)[1..] == a[1..] + t;
      RunLengthExtend(a[1..], t, p);
    } else if a == [] {
      assert a + t == t;
    }
  }

  // ---------------------------------------------------------------------------
  // int() of a digit string

  function DigitValue(c: char): nat
    requires IsDigit(c)
  {
    (c as int) - ('0' as int)
  }

  /** int(s) for a string of decimal digits (leading zeros allowed). */
  function Value(s: string): nat
    requires AllDigits(s)
  {
    if s == [] then 0 else 10 * Value(s[..|s| - 1]) + DigitValue(s[|s| - 1])
  }

  /** A leading zero does not change the value. */
  lemma {:induction false} ValueLeadingZero(s: string)
    requires AllDigits(s)
    ensures Value("0" + s) == Value(s)
    decreases |s|
  {
    if s != [] {
      var z := "0" + s;
      assert z[..|z| - 1] == "0" + s[..|s| - 1];
      assert z[|z| - 1] == s[|s| - 1];
      ValueLeadingZero(s[..|s| - 1]);
    }
  }

  function Pow10(n: nat): (r: nat)
    ensures r >= 1
  {
    if n == 0 then 1 else 10 * Pow10(n - 1)
  }

  /** A run of n digits denotes a number below 10^n. */
  lemma {:induction false} ValueBound(s: string)
    requires AllDigits(s)
    ensures Value(s) < Pow10(|s|)
  {
    if s != [] {
      ValueBound(s[..|s| - 1]);
    }
  }

  /** A digit string whose value exceeds 999 has at least four digits. */
  lemma AboveThousandHasFourDigits(s: string)
    requires AllDigits(s) && Value(s) > 999
    ensures |s| >= 4
  {
    ValueBound(s);
    assert Pow10(0) == 1 && Pow10(1) == 10 && Pow10(2) == 100 && Pow10(3) == 1000;
  }

  // ---------------------------------------------------------------------------
  // str.split(sep) for a one-character separator, and its inverse sep.join

  function Split(s: string, sep: char): (r: seq<string>)
    decreases |s|
    ensures |r| >= 1
    ensures forall k :: 0 <= k < |r| ==> sep !in r[k]
  {
    if s == [] then [[]]
    else
      var rest := Split(s[1..], sep);
      if s[0] == sep then [[]] + rest
      else
        assert forall k :: 1 <= k < |rest| ==> ([[s[0]] + rest[0]] + rest[1..])[k] == rest[k];
        [[s[0]] + rest[0]] + rest[1..]
  }

  function Join(parts: seq<string>, sep: char): string
  {
    if parts == [] then []
    else if |parts| == 1 then parts[0]
    else parts[0] + [sep] + Join(parts[1..], sep)
  }

  /** Joining the fields of a split gives back the original string. */
  lemma {:induction false} JoinSplit(s: string, sep: char)
    ensures Join(Split(s, sep), sep) == s
    decreases |s|
  {
    if s != [] {
      JoinSplit(s[1..], sep);
      var rest := Split(s[1..], sep);
      if s[0] != sep {
        var r := Split(s, sep);
        if |rest| == 1 {
          assert r == [[s[0]] + rest[0]];
        } else {
          assert r[1..] == rest[1..];
          assert Join(rest, sep) == rest[0] + [sep] + Join(rest[1..], sep);
        }
      }
    }
  }

  /** Splitting a join of separator-free fields gives back the fields. */
  lemma {:induction false} SplitJoin(parts: seq<string>, sep: char)
    requires |parts| >= 1 && forall k :: 0 <= k < |parts| ==> sep !in parts[k]
    ensures Split(Join(parts, sep), sep) == parts
    decreases |parts|, |parts[0]|
  {
    var s := Join(parts, sep);
    if parts[0] == [] {
      if |parts| > 1 {
        assert s == [sep] + Join(parts[1..], sep);
        assert s[1..] == Join(parts[1..], sep);
        SplitJoin(parts[1..], sep);
      }
    } else {
      var tail := [parts[0][1..]] + parts[1..];
      assert sep !in parts[0][1..];
      assert forall k :: 1 <= k < |tail| ==> tail[k] == parts[k];
      if |parts| == 1 {
        assert s[1..] == Join(tail, sep);
      } else {
        assert s == parts[0] + [sep] + Join(parts[1..], sep);
        assert s[1..] == parts[0][1..] + [sep] + Join(parts[1..], sep);
        assert tail[1..] == parts[1..];
      }
      SplitJoin(tail, sep);
      assert [parts[0][0]] + parts[0][1..] == parts[0];
    }
  }

  /**
   * The first field is the text before the first separator; when there is a second
   * field, it is the text between the first and the second separator.
   */
  lemma SplitLeadingFields(s: string, sep: char)
    ensures var f := Split(s, sep);
      && |f[0]| <= |s| && s[..|f[0]|] == f[0]
      && (|f| == 1 <==> |f[0]| == |s|)
      && (|f| >= 2 ==>
            var e := |f[0]| + 1 + |f[1]|;
            s[|f[0]|] == sep && e <= |s| && s[|f[0]| + 1..e] == f[1]
            && (|f| == 2 <==> e == |s|))
  {
    var f := Split(s, sep);
    JoinSplit(s, sep);
    if |f| >= 2 {
      assert s == f[0] + [sep] + Join(f[1..], sep);
      if |f| == 2 {
        assert s == f[0] + [sep] + f[1];
      } else {
        assert Join(f[1..], sep) == f[1] + [sep] + Join(f[2..], sep);
        assert s == f[0] + [sep] + f[1] + [sep] + Join(f[2..], sep);
      }
    }
  }

  // ---------------------------------------------------------------------------
  // str.strip()

  /** Index of the first character after the trailing whitespace has been removed. */
  function TrailingStart(s: string): (j: nat)
    ensures j <= |s|
    ensures forall i :: j <= i < |s| ==> IsSpace(s[i])
    ensures j > 0 ==> !IsSpace(s[j - 1])
  {
    if s != [] && IsSpace(s[|s| - 1]) then TrailingStart(s[..|s| - 1]) else |s|
  }

  /**
   * The bounds of s.strip() within s: everything before `i` and from `j` on is
   * whitespace, and what is kept neither starts nor ends with whitespace.
   */
  function StripBounds(s: string): (b: (nat, nat))
    ensures b.0 <= b.1 <= |s|
    ensures forall k :: 0 <= k < b.0 ==> IsSpace(s[k])
    ensures forall k :: b.1 <= k < |s| ==> IsSpace(s[k])
    ensures b.0 < b.1 ==> NotSpace(s[b.0]) && NotSpace(s[b.1 - 1])
  {
    var i := RunLength(s, IsSpace);
    var t := s[i..];
    var j := TrailingStart(t);
    assert forall k :: 0 <= k < |t| ==> t[k] == s[i + k];
    (i, i + j)
  }

  /** s.strip(): drop leading and trailing whitespace. */
  function Strip(s: string): (r: string)
    ensures r == [] || (NotSpace(r[0]) && NotSpace(r[|r| - 1]))
  {
    var b := StripBounds(s);
    s[b.0..b.1]
  }

  // ---------------------------------------------------------------------------
  // str.lower()

  function LowerChar(c: char): (d: char)
    ensures !IsUpper(d)
    ensures IsUpper(c) ==> d as int == c as int + 32
    ensures !IsUpper(c) ==> d == c
  {
    if IsUpper(c) then (c as int - 'A' as int + 'a' as int) as char else c
  }

  function Lower(s: string): (r: string)
    ensures |r| == |s| && forall i :: 0 <= i < |s| ==> r[i] == LowerChar(s[i])
  {
    seq(|s|, i requires 0 <= i < |s| => LowerChar(s[i]))
  }

  // ---------------------------------------------------------------------------
  // Python's ordering of str: lexicographic by code point

  predicate Less(a: string, b: string)
  {
    if a == [] then b != []
    else if b == [] then false
    else if a[0] != b[0] then a[0] < b[0]
    else Less(a[1..], b[1..])
  }

  lemma {:induction false} LessIrreflexive(a: string)
    ensures !Less(a, a)
  {
    if a != [] { LessIrreflexive(a[1..]); }
  }

  lemma {:induction false} LessTransitive(a: string, b: string, c: string)
    requires Less(a, b) && Less(b, c)
    ensures Less(a, c)
  {
    if a != [] && b != [] && c != [] && a[0] == b[0] && b[0] == c[0] {
      LessTransitive(a[1..], b[1..], c[1..]);
    }
  }

  lemma {:induction false} LessTotal(a: string, b: string)
    requires a != b
    ensures Less(a, b) || Less(b, a)
  {
    if a != [] && b != [] && a[0] == b[0] {
      assert a == [a[0]] + a[1..] && b == [b[0]] + b[1..];
      LessTotal(a[1..], b[1..]);
    }
  }
}
