/**
 * The string operations the framework takes from JavaScript: `split`,
 * `filter(String)`, `indexOf`, `replace` (first occurrence of a string pattern),
 * a global one-character `replace` and `slice(-1)`.
 */
module Strings {
  import opened Common

  /** `s.split(sep)`: the pieces between occurrences of `sep`, one more than there are separators. */
  function Split(s: string, sep: char): (parts: seq<string>)
    ensures |parts| >= 1
    decreases |s|
  {
    if s == [] then [""]
    else
      var rest := Split(s[1..], sep);
      if s[0] == sep then [""] + rest
      else [[s[0]] + rest[0]] + rest[1..]
  }

  /** No piece of a split contains the separator. */
  lemma {:induction false} SplitPiecesFree(s: string, sep: char)
    ensures forall p | p in Split(s, sep) :: sep !in p
    decreases |s|
  {
    if s != [] {
      SplitPiecesFree(s[1..], sep);
      var rest := Split(s[1..], sep);
      if s[0] != sep {
        assert sep !in [s[0]] + rest[0];
        forall p | p in Split(s, sep)
          ensures sep !in p
        {
          if p != [s[0]] + rest[0] {
            assert p in rest[1..];
          }
        }
      }
    }
  }

  /** Every character of a piece of a split comes from the string split. */
  lemma {:induction false} SplitPiecesWithin(s: string, sep: char)
    ensures forall p, x | p in Split(s, sep) && x in p :: x in s
    decreases |s|
  {
    if s != [] {
      SplitPiecesWithin(s[1..], sep);
      var rest := Split(s[1..], sep);
      forall p, x | p in Split(s, sep) && x in p
        ensures x in s
      {
        if s[0] != sep && p == [s[0]] + rest[0] && x != s[0] {
          assert x in rest[0];
        } else if s[0] != sep && p != [s[0]] + rest[0] {
          assert p in rest[1..];
        } else if s[0] == sep {
          assert p in rest;
        }
        assert s == [s[0]] + s[1..];
      }
    }
  }

  /** `parts.join(sep)`, the inverse of `Split`. */
  function Join(parts: seq<string>, sep: char): string
    requires |parts| >= 1
    decreases |parts|
  {
    if |parts| == 1 then parts[0] else parts[0] + [sep] + Join(parts[1..], sep)
  }

  /** Joining the pieces of `s` gives `s` back. */
  lemma {:induction false} JoinSplit(s: string, sep: char)
    ensures Join(Split(s, sep), sep) == s
    decreases |s|
  {
    if s != [] {
      JoinSplit(s[1..], sep);
      var rest := Split(s[1..], sep);
      if s[0] == sep {
        assert Split(s, sep)[1..] == rest;
      } else {
        var parts := Split(s, sep);
        assert parts[1..] == rest[1..];
        if |rest| > 1 {
          assert rest[1..] == rest[1..];
          assert Join(rest, sep) == rest[0] + [sep] + Join(rest[1..], sep);
        }
        assert s == [s[0]] + s[1..];
      }
    }
  }

  /** A string without the separator is a single piece. */
  lemma {:induction false} SplitNoSeparator(s: string, sep: char)
    requires sep !in s
    ensures Split(s, sep) == [s]
    decreases |s|
  {
    if s != [] {
      SplitNoSeparator(s[1..], sep);
      assert s == [s[0]] + s[1..];
    }
  }

  /** Splitting a string with a known first character. */
  lemma SplitCons(c: char, t: string, sep: char)
    ensures Split([c] + t, sep) ==
      var rest := Split(t, sep);
      if c == sep then [""] + rest else [[c] + rest[0]] + rest[1..]
  {
    assert ([c] + t)[1..] == t;
  }

  /** Splitting distributes over one occurrence of the separator. */
  lemma {:induction false} SplitConcat(a: string, b: string, sep: char)
    ensures Split(a + [sep] + b, sep) == Split(a, sep) + Split(b, sep)
    decreases |a|
  {
    if a == [] {
      assert a + [sep] + b == [sep] + b;
      SplitCons(sep, b, sep);
    } else {
      SplitConcat(a[1..], b, sep);
      SplitConcatStep(a[0], a[1..], b, sep);
      assert a == [a[0]] + a[1..];
      assert a + [sep] + b == [a[0]] + (a[1..] + [sep] + b);
    }
  }

  /** The inductive step of `SplitConcat`: one more character in front. */
  lemma SplitConcatStep(c: char, a: string, b: string, sep: char)
    requires Split(a + [sep] + b, sep) == Split(a, sep) + Split(b, sep)
    ensures Split([c] + (a + [sep] + b), sep) == Split([c] + a, sep) + Split(b, sep)
  {
    SplitCons(c, a + [sep] + b, sep);
    SplitCons(c, a, sep);
    FirstPieceExtended(c == sep, [c], Split(a, sep), Split(b, sep));
  }

  /** The sequence algebra behind `SplitConcatStep`. */
  lemma FirstPieceExtended(separator: bool, h: string, ra: seq<string>, rb: seq<string>)
    requires |ra| >= 1
    ensures (if separator then [""] + (ra + rb) else [h + (ra + rb)[0]] + (ra + rb)[1..])
         == (if separator then [""] + ra else [h + ra[0]] + ra[1..]) + rb
  {
    if !separator {
      assert (ra + rb)[1..] == ra[1..] + rb;
    }
  }

  /** Splitting a join of separator-free pieces gives the pieces back. */
  lemma {:induction false} SplitJoin(parts: seq<string>, sep: char)
    requires |parts| >= 1
    requires forall p | p in parts :: sep !in p
    ensures Split(Join(parts, sep), sep) == parts
    decreases |parts|
  {
    SplitNoSeparator(parts[0], sep);
    if |parts| > 1 {
      SplitJoin(parts[1..], sep);
      SplitConcat(parts[0], Join(parts[1..], sep), sep);
      assert parts == [parts[0]] + parts[1..];
    }
  }

  /** `parts.filter(String)`: the non-empty pieces, in order. */
  function NonEmpty(parts: seq<string>): (r: seq<string>)
    ensures |r| <= |parts|
    ensures forall i | 0 <= i < |r| :: r[i] != ""
    ensures forall x :: x in r <==> x in parts && x != ""
    decreases |parts|
  {
    if parts == [] then []
    else (if parts[0] == "" then [] else [parts[0]]) + NonEmpty(parts[1..])
  }

  lemma {:induction false} NonEmptyConcat(a: seq<string>, b: seq<string>)
    ensures NonEmpty(a + b) == NonEmpty(a) + NonEmpty(b)
    decreases |a|
  {
    if a != [] {
      NonEmptyConcat(a[1..], b);
      assert (a + b)[0] == a[0];
      assert (a + b)[1..] == a[1..] + b;
      var h: seq<string> := if a[0] == "" then [] else [a[0]];
      calc {
        NonEmpty(a + b);
        h + NonEmpty(a[1..] + b);
        h + (NonEmpty(a[1..]) + NonEmpty(b));
        (h + NonEmpty(a[1..])) + NonEmpty(b);
        NonEmpty(a) + NonEmpty(b);
      }
    } else {
      assert a + b == b;
    }
  }

  /** `s.split('/').filter(String)`: the non-empty `/`-separated segments of a path. */
  function Segments(s: string): (r: seq<string>)
    ensures forall i | 0 <= i < |r| :: r[i] != "" && '/' !in r[i]
  {
    SplitPiecesFree(s, '/');
    NonEmpty(Split(s, '/'))
  }

  /** `url.split('?')[0]`: the part of a URL before its query. */
  function BeforeQuery(url: string): (r: string)
    ensures '?' !in r
  {
    SplitPiecesFree(url, '?');
    Split(url, '?')[0]
  }

  /** `url.split('?')[0].split('/').filter(String)`: the path segments of a URL. */
  function UrlSegments(url: string): (r: seq<string>)
    ensures forall i | 0 <= i < |r| :: r[i] != "" && '/' !in r[i] && '?' !in r[i]
  {
    var path := BeforeQuery(url);
    SplitPiecesWithin(path, '/');
    Segments(path)
  }

  /** One `/` between two strings contributes no segment of its own. */
  lemma SegmentsConcat(a: string, b: string)
    ensures Segments(a + "/" + b) == Segments(a) + Segments(b)
  {
    SplitConcat(a, b, '/');
    NonEmptyConcat(Split(a, '/'), Split(b, '/'));
  }

  /** A string without `/` is one segment, or none when empty. */
  lemma SegmentsOfPlain(s: string)
    requires '/' !in s
    ensures Segments(s) == if s == "" then [] else [s]
  {
    SplitNoSeparator(s, '/');
  }

  /** The query part of a URL never reaches the path segments. */
  lemma {:induction false} QueryIgnored(u: string, q: string)
    requires '?' !in u
    ensures BeforeQuery(u) == u
    ensures BeforeQuery(u + "?" + q) == u
    ensures UrlSegments(u + "?" + q) == UrlSegments(u)
  {
    SplitNoSeparator(u, '?');
    SplitConcat(u, q, '?');
  }

  /** A string without `?` has the same URL segments as path segments. */
  lemma UrlSegmentsOfPath(p: string)
    requires '?' !in p
    ensures UrlSegments(p) == Segments(p)
  {
    SplitNoSeparator(p, '?');
  }

  /** `/`, the empty URL and `/?q` have no segments. */
  lemma RootUrlExamples()
    ensures UrlSegments("") == []
    ensures UrlSegments("/") == []
    ensures UrlSegments("/?q") == []
  {
    SegmentsOfPlain("");
    UrlSegmentsOfPath("");
    UrlSegmentsOfPath("/");
    SegmentsConcat("", "");
    assert "" + "/" + "" == "/";
    QueryIgnored("/", "q");
    assert "/" + "?" + "q" == "/?q";
  }

  /** `/a` and `a/` are the one segment `a`. */
  lemma OneSegmentA()
    ensures Segments("/a") == ["a"] && Segments("a/") == ["a"]
  {
    SegmentsOfPlain("");
    SegmentsOfPlain("a");
    SegmentsConcat("", "a");
    assert "" + "/" + "a" == "/a";
    SegmentsConcat("a", "");
    assert "a" + "/" + "" == "a/";
  }

  /** `//a/` loses its empty segments and reads like `/a`. */
  lemma EmptySegmentExample()
    ensures UrlSegments("//a/") == UrlSegments("/a") == ["a"]
  {
    OneSegmentA();
    SegmentsOfPlain("");
    SegmentsConcat("", "a/");
    assert "" + "/" + "a/" == "/a/";
    SegmentsConcat("", "/a/");
    assert "" + "/" + "/a/" == "//a/";
    UrlSegmentsOfPath("/a");
    UrlSegmentsOfPath("//a/");
  }

  /** `/test2` is the one segment `test2`. */
  lemma Test2Path()
    ensures Segments("/test2") == ["test2"]
  {
    SegmentsOfPlain("");
    SegmentsOfPlain("test2");
    SegmentsConcat("", "test2");
    assert "" + "/" + "test2" == "/test2";
  }

  /** `/test2?param=x` loses its query and reads like `/test2`. */
  lemma QueryExample()
    ensures UrlSegments("/test2?param=x") == UrlSegments("/test2") == ["test2"]
  {
    Test2Path();
    UrlSegmentsOfPath("/test2");
    QueryIgnored("/test2", "param=x");
    assert "/test2" + "?" + "param=x" == "/test2?param=x";
  }

  /** `s.slice(-1) === c`: the last character of `s` is `c` (false on the empty string). */
  predicate EndsWith(s: string, c: char)
  {
    |s| > 0 && s[|s| - 1] == c
  }

  /** `pat` occurs in `s` starting at index `i`. */
  predicate OccursAt(s: string, pat: string, i: nat)
  {
    i + |pat| <= |s| && s[i..i + |pat|] == pat
  }

  /** The first index at or after `from` where `pat` occurs in `s`. */
  function IndexOfFrom(s: string, pat: string, from: nat): (r: Option<nat>)
    ensures r.Some? ==> from <= r.value && OccursAt(s, pat, r.value)
    ensures r.Some? ==> forall j | from <= j < r.value :: !OccursAt(s, pat, j)
    ensures r.None? ==> forall j | from <= j :: !OccursAt(s, pat, j)
    decreases |s| - from
  {
    if from + |pat| > |s| then None
    else if s[from..from + |pat|] == pat then Some(from)
    else IndexOfFrom(s, pat, from + 1)
  }

  /** `s.indexOf(pat)`: the first occurrence of `pat` in `s`. */
  function IndexOf(s: string, pat: string): (r: Option<nat>)
  {
    IndexOfFrom(s, pat, 0)
  }

  /** `s.replace(pat, rep)` with a string pattern: only the first occurrence is replaced. */
  function ReplaceFirst(s: string, pat: string, rep: string): (r: string)
    ensures IndexOf(s, pat).None? ==> r == s
    ensures IndexOf(s, pat).Some? ==> |r| == |s| - |pat| + |rep|
    ensures IndexOf(s, pat).Some? ==>
      var i := IndexOf(s, pat).value;
      r[..i] == s[..i] && r[i..i + |rep|] == rep && r[i + |rep|..] == s[i + |pat|..]
  {
    match IndexOf(s, pat)
    case None => s
    case Some(i) => s[..i] + rep + s[i + |pat|..]
  }

  /** `s.replace(new RegExp(c, 'g'), d)` for a single character `c`: every `c` becomes `d`. */
  function ReplaceAllChar(s: string, c: char, d: char): (r: string)
    ensures |r| == |s|
    ensures forall i | 0 <= i < |s| :: r[i] == (if s[i] == c then d else s[i])
    ensures c != d ==> c !in r
    decreases |s|
  {
    if s == [] then [] else [if s[0] == c then d else s[0]] + ReplaceAllChar(s[1..], c, d)
  }
}
