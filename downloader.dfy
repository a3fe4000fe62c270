/** The two string helpers of the PDF downloader (ingestion/downloader.py):
    the test that decides whether a link points to a PDF, and the cleaning of
    a file name before it is written to disk. Both are pure. */
module Downloader {
  import opened PyText

  // ---------------------------------------------------------------------------
  // _looks_like_pdf_link
  // ---------------------------------------------------------------------------

  /** `_looks_like_pdf_link`: a non-empty href whose lower-cased text, with
      the query (from the first '?') and then the fragment (from the first
      '#') cut off, ends with ".pdf". */
  function LooksLikePdfLink(href: string): bool
  {
    if href == "" then false
    else EndsWith(BeforeFirst(BeforeFirst(Lower(href), '?'), '#'), ".pdf")
  }

  /** Reference definition: the text up to the first '?' or '#'. */
  function PathPart(s: string): (p: string)
    ensures |p| <= |s| && p == s[..|p|]
    ensures '?' !in p && '#' !in p
  {
    if s == [] || s[0] == '?' || s[0] == '#' then [] else [s[0]] + PathPart(s[1..])
  }

  /** Cutting at the first '?' and then at the first '#' leaves the text up to
      the first of either. */
  lemma {:induction false} CutQueryThenFragment(s: string)
    ensures BeforeFirst(BeforeFirst(s, '?'), '#') == PathPart(s)
  {
    if s != [] && s[0] != '?' && s[0] != '#' {
      CutQueryThenFragment(s[1..]);
      var q := BeforeFirst(s[1..], '?');
      assert BeforeFirst(s, '?') == [s[0]] + q;
      assert BeforeFirst([s[0]] + q, '#') == [s[0]] + BeforeFirst(q, '#') by {
        assert ([s[0]] + q)[1..] == q;
      }
    } else if s != [] && s[0] == '#' {
      var q := BeforeFirst(s[1..], '?');
      assert BeforeFirst(s, '?') == [s[0]] + q;
      assert ([s[0]] + q)[0] == '#';
    }
  }

  lemma {:induction false} LowerPathPart(s: string)
    ensures Lower(PathPart(s)) == PathPart(Lower(s))
  {
    if s != [] {
      LowerPathPart(s[1..]);
      assert Lower(s) == [LowerChar(s[0])] + Lower(s[1..]);
      if s[0] != '?' && s[0] != '#' {
        LowerConcat([s[0]], PathPart(s[1..]));
      }
    }
  }

  /** A link looks like a PDF exactly when its text up to the first '?' or
      '#' ends with ".pdf" in any letter case; the empty href has no such
      text. */
  lemma {:induction false} PdfLinkIff(href: string)
    ensures LooksLikePdfLink(href) <==> EndsWith(Lower(PathPart(href)), ".pdf")
  {
    CutQueryThenFragment(Lower(href));
    LowerPathPart(href);
  }

  /** The empty href is not a PDF link. */
  lemma {:induction false} EmptyHrefIsNotPdf()
    ensures !LooksLikePdfLink("")
  {
  }

  lemma {:induction false} PathPartIgnoresTail(s: string, c: char, t: string)
    requires c == '?' || c == '#'
    ensures PathPart(s + [c] + t) == PathPart(s)
  {
    if s == [] {
      assert (s + [c] + t)[0] == c;
    } else if s[0] != '?' && s[0] != '#' {
      assert (s + [c] + t)[1..] == s[1..] + [c] + t;
      PathPartIgnoresTail(s[1..], c, t);
    }
  }

  /** A query string or a fragment appended to an href does not change the
      verdict. */
  lemma {:induction false} QueryOrFragmentIgnored(href: string, c: char, tail: string)
    requires c == '?' || c == '#'
    ensures LooksLikePdfLink(href + [c] + tail) == LooksLikePdfLink(href)
  {
    PdfLinkIff(href + [c] + tail);
    PdfLinkIff(href);
    PathPartIgnoresTail(href, c, tail);
  }

  /** The test ignores letter case. */
  lemma {:induction false} PdfLinkCaseInsensitive(href: string)
    ensures LooksLikePdfLink(Lower(href)) == LooksLikePdfLink(href)
  {
    LowerIdempotent(href);
  }

  lemma {:induction false} PathPartOfPlain(s: string)
    requires '?' !in s && '#' !in s
    ensures PathPart(s) == s
  {
    if s != [] {
      PathPartOfPlain(s[1..]);
    }
  }

  lemma {:induction false} PlainPdfPath()
    ensures LooksLikePdfLink("A.PDF")
  {
    var s := "A.PDF";
    assert PathPart(s) == s by {
      PathPartOfPlain(s);
    }
    assert EndsWith(Lower(s), ".pdf") by {
      assert Lower(s) == "a.pdf";
    }
    PdfLinkIff(s);
  }

  /** A link such as `A.PDF?dl=1` is a PDF link... */
  lemma {:induction false} PdfLinkWithQuery()
    ensures LooksLikePdfLink("A.PDF?dl=1")
  {
    PlainPdfPath();
    QueryOrFragmentIgnored("A.PDF", '?', "dl=1");
    assert "A.PDF" + "?" + "dl=1" == "A.PDF?dl=1";
  }

  lemma {:induction false} PlainHtmlPath()
    ensures !LooksLikePdfLink("a.htm")
  {
    var s := "a.htm";
    assert PathPart(s) == s by {
      PathPartOfPlain(s);
    }
    assert !EndsWith(Lower(s), ".pdf") by {
      assert Lower(s)[2] == 'h';
      assert Lower(s)[1..][1] == 'h';
    }
    PdfLinkIff(s);
  }

  /** ...and one whose ".pdf" is only in the fragment is not. */
  lemma {:induction false} PdfOnlyInFragment()
    ensures !LooksLikePdfLink("a.htm#b.pdf")
  {
    PlainHtmlPath();
    QueryOrFragmentIgnored("a.htm", '#', "b.pdf");
    assert "a.htm" + "#" + "b.pdf" == "a.htm#b.pdf";
  }

  // ---------------------------------------------------------------------------
  // _sanitise_filename, from the decoded name on
  // ---------------------------------------------------------------------------

  predicate IsAsciiAlnum(c: char)
  {
    'a' <= c <= 'z' || 'A' <= c <= 'Z' || '0' <= c <= '9'
  }

  /** The regular-expression class `\w` on text: ASCII letters, digits and
      '_', and those characters beyond ASCII that `nonAsciiWord` (Unicode's
      letters and digits) selects. */
  predicate IsWordChar(nonAsciiWord: set<char>, c: char)
  {
    IsAsciiAlnum(c) || c == '_' || (c as int >= 128 && c in nonAsciiWord)
  }

  /** The characters `[\w.\-]` keeps. */
  predicate IsSafe(nonAsciiWord: set<char>, c: char)
  {
    IsWordChar(nonAsciiWord, c) || c == '.' || c == '-'
  }

  /** `re.sub(r"[^\w.\-]", "_", name)`. */
  function ReplaceUnsafe(nonAsciiWord: set<char>, s: string): string
  {
    seq(|s|, k requires 0 <= k < |s| => if IsSafe(nonAsciiWord, s[k]) then s[k] else '_')
  }

  /** No two underscores in a row. */
  predicate NoDoubleUnderscore(s: string)
  {
    forall k :: 0 <= k < |s| - 1 ==> !(s[k] == '_' && s[k + 1] == '_')
  }

  /** `re.sub(r"_+", "_", name)`: every run of underscores becomes one. */
  function CollapseUnderscores(s: string): string
  {
    if s == [] then []
    else if |s| > 1 && s[0] == '_' && s[1] == '_' then CollapseUnderscores(s[1..])
    else [s[0]] + CollapseUnderscores(s[1..])
  }

  /** Collapsing keeps the first and the last character and never lengthens. */
  lemma {:induction false} CollapseEnds(s: string)
    ensures var r := CollapseUnderscores(s);
      && |r| <= |s|
      && (s != [] ==> r != [] && r[0] == s[0] && r[|r| - 1] == s[|s| - 1])
  {
    if s != [] {
      CollapseEnds(s[1..]);
    }
  }

  /** Collapsing introduces no character. */
  lemma {:induction false} CollapseChars(s: string)
    ensures forall k :: 0 <= k < |CollapseUnderscores(s)| ==> CollapseUnderscores(s)[k] in s
  {
    if s != [] {
      CollapseChars(s[1..]);
      var rest := CollapseUnderscores(s[1..]);
      assert forall k :: 0 <= k < |rest| ==> rest[k] in s;
    }
  }

  /** After collapsing, no two underscores are adjacent. */
  lemma {:induction false} CollapseNoDouble(s: string)
    ensures NoDoubleUnderscore(CollapseUnderscores(s))
  {
    if s != [] {
      CollapseNoDouble(s[1..]);
      CollapseEnds(s[1..]);
      var rest := CollapseUnderscores(s[1..]);
      if !(|s| > 1 && s[0] == '_' && s[1] == '_') {
        var r := [s[0]] + rest;
        forall k | 0 <= k < |r| - 1 ensures !(r[k] == '_' && r[k + 1] == '_') {
          if k > 0 {
            assert r[k] == rest[k - 1] && r[k + 1] == rest[k];
          }
        }
      }
    }
  }

  /** The name before the ".pdf" test: unsafe characters replaced,
      underscore runs collapsed, and underscores stripped at both ends. */
  function CleanName(nonAsciiWord: set<char>, name: string): string
  {
    Strip(CollapseUnderscores(ReplaceUnsafe(nonAsciiWord, name)), Only('_'))
  }

  /** `_sanitise_filename` from the decoded name on. */
  function SanitiseFilename(nonAsciiWord: set<char>, name: string): string
  {
    var clean := CleanName(nonAsciiWord, name);
    if EndsWith(Lower(clean), ".pdf") then clean else clean + ".pdf"
  }

  predicate AllSafe(nonAsciiWord: set<char>, s: string)
  {
    forall k :: 0 <= k < |s| ==> IsSafe(nonAsciiWord, s[k])
  }

  /** A file name as the sanitiser leaves it. */
  predicate IsSafeName(nonAsciiWord: set<char>, s: string)
  {
    && AllSafe(nonAsciiWord, s)
    && NoDoubleUnderscore(s)
    && s != [] && s[0] != '_' && s[|s| - 1] != '_'
    && EndsWith(Lower(s), ".pdf")
  }

  /** After the replacement step every character is safe. */
  lemma {:induction false} ReplacedIsSafe(nonAsciiWord: set<char>, name: string)
    ensures AllSafe(nonAsciiWord, ReplaceUnsafe(nonAsciiWord, name))
  {
  }

  lemma {:induction false} CollapseKeepsSafe(nonAsciiWord: set<char>, s: string)
    requires AllSafe(nonAsciiWord, s)
    ensures AllSafe(nonAsciiWord, CollapseUnderscores(s))
  {
    var r := CollapseUnderscores(s);
    CollapseChars(s);
    forall k | 0 <= k < |r| ensures IsSafe(nonAsciiWord, r[k]) {
      assert r[k] in s;
    }
  }

  lemma {:induction false} InfixKeeps(nonAsciiWord: set<char>, s: string, i: nat, j: nat)
    requires i <= j <= |s|
    ensures AllSafe(nonAsciiWord, s) ==> AllSafe(nonAsciiWord, s[i..j])
    ensures NoDoubleUnderscore(s) ==> NoDoubleUnderscore(s[i..j])
  {
    var c := s[i..j];
    assert forall k :: 0 <= k < |c| ==> c[k] == s[i + k];
  }

  lemma {:induction false} CleanNameShape(nonAsciiWord: set<char>, name: string)
    ensures var c := CleanName(nonAsciiWord, name);
      && AllSafe(nonAsciiWord, c)
      && NoDoubleUnderscore(c)
      && (c != [] ==> c[0] != '_' && c[|c| - 1] != '_')
  {
    var r := ReplaceUnsafe(nonAsciiWord, name);
    var u := CollapseUnderscores(r);
    ReplacedIsSafe(nonAsciiWord, name);
    CollapseKeepsSafe(nonAsciiWord, r);
    CollapseNoDouble(r);
    var c := Strip(u, Only('_'));
    var i := StripStart(u, Only('_'));
    InfixKeeps(nonAsciiWord, u, i, i + |c|);
  }

  lemma {:induction false} LowerEndsWithPdf(s: string)
    requires EndsWith(Lower(s), ".pdf")
    ensures s != [] && s[|s| - 1] != '_'
  {
    var l := Lower(s);
    assert l[|l| - 4..][3] == l[|l| - 1];
  }

  lemma {:induction false} AppendPdfEndsWithPdf(c: string)
    ensures EndsWith(Lower(c + ".pdf"), ".pdf")
  {
    LowerConcat(c, ".pdf");
    assert Lower(".pdf") == ".pdf";
    assert (Lower(c) + ".pdf")[|c|..] == ".pdf";
  }

  lemma {:induction false} AppendPdfSafe(nonAsciiWord: set<char>, c: string)
    requires AllSafe(nonAsciiWord, c) && NoDoubleUnderscore(c)
    ensures AllSafe(nonAsciiWord, c + ".pdf") && NoDoubleUnderscore(c + ".pdf")
  {
    var s := c + ".pdf";
    assert forall k :: 0 <= k < |c| ==> s[k] == c[k];
    assert forall k :: |c| <= k < |s| ==> s[k] == ".pdf"[k - |c|];
  }

  /** Every sanitised name is safe: only `[\w.\-]` characters, no "__", no
      '_' at either end, and a ".pdf" suffix in some letter case. */
  lemma {:induction false} SanitisedIsSafe(nonAsciiWord: set<char>, name: string)
    ensures IsSafeName(nonAsciiWord, SanitiseFilename(nonAsciiWord, name))
  {
    var c := CleanName(nonAsciiWord, name);
    CleanNameShape(nonAsciiWord, name);
    if !EndsWith(Lower(c), ".pdf") {
      AppendPdfSafe(nonAsciiWord, c);
      AppendPdfEndsWithPdf(c);
    } else {
      LowerEndsWithPdf(c);
    }
  }

  lemma {:induction false} ReplaceSafeNoop(nonAsciiWord: set<char>, s: string)
    requires forall k :: 0 <= k < |s| ==> IsSafe(nonAsciiWord, s[k])
    ensures ReplaceUnsafe(nonAsciiWord, s) == s
  {
  }

  lemma {:induction false} CollapseNoop(s: string)
    requires NoDoubleUnderscore(s)
    ensures CollapseUnderscores(s) == s
  {
    if s != [] {
      assert NoDoubleUnderscore(s[1..]) by {
        forall k | 0 <= k < |s[1..]| - 1 ensures !(s[1..][k] == '_' && s[1..][k + 1] == '_') {
          assert s[1..][k] == s[k + 1] && s[1..][k + 1] == s[k + 2];
        }
      }
      CollapseNoop(s[1..]);
    }
  }

  /** A name that is already safe is left as it is. */
  lemma {:induction false} SafeNameFixed(nonAsciiWord: set<char>, s: string)
    requires IsSafeName(nonAsciiWord, s)
    ensures SanitiseFilename(nonAsciiWord, s) == s
  {
    ReplaceSafeNoop(nonAsciiWord, s);
    CollapseNoop(s);
    StripNoop(s, Only('_'));
  }

  /** Sanitising twice is sanitising once. */
  lemma {:induction false} SanitiseIdempotent(nonAsciiWord: set<char>, name: string)
    ensures SanitiseFilename(nonAsciiWord, SanitiseFilename(nonAsciiWord, name)) == SanitiseFilename(nonAsciiWord, name)
  {
    SanitisedIsSafe(nonAsciiWord, name);
    SafeNameFixed(nonAsciiWord, SanitiseFilename(nonAsciiWord, name));
  }

  lemma {:induction false} CollapseAppendPlain(a: string, t: string)
    requires '_' !in t
    ensures CollapseUnderscores(a + t) == CollapseUnderscores(a) + t
  {
    if a == [] {
      assert a + t == t;
      CollapseNoop(t);
    } else {
      CollapseAppendPlain(a[1..], t);
      CollapseAppendStep(a, t);
    }
  }

  /** One unfolding of the collapse on `a + t`, for a non-empty `a`. */
  lemma {:induction false} CollapseAppendStep(a: string, t: string)
    requires a != [] && '_' !in t
    requires CollapseUnderscores(a[1..] + t) == CollapseUnderscores(a[1..]) + t
    ensures CollapseUnderscores(a + t) == CollapseUnderscores(a) + t
  {
    var x := a + t;
    assert x[0] == a[0] && x[1..] == a[1..] + t;
    if |a| > 1 && a[0] == '_' && a[1] == '_' {
      assert x[1] == a[1];
      CollapseDropStep(x, CollapseUnderscores(a[1..]) + t);
    } else {
      assert !(|x| > 1 && x[0] == '_' && x[1] == '_') by {
        if |a| == 1 && t != [] {
          assert x[1] == t[0] && t[0] in t;
        } else if |a| > 1 {
          assert x[1] == a[1];
        }
      }
      CollapseKeepStep(x, a[0], CollapseUnderscores(a[1..]), t);
    }
  }

  lemma {:induction false} CollapseDropStep(x: string, r: string)
    requires |x| > 1 && x[0] == '_' && x[1] == '_'
    requires CollapseUnderscores(x[1..]) == r
    ensures CollapseUnderscores(x) == r
  {
  }

  /** When the first character of `x` survives the collapse, and the rest
      collapses to `rest + t`, the whole collapses to `([x[0]] + rest) + t`. */
  lemma {:induction false} CollapseKeepStep(x: string, c: char, rest: string, t: string)
    requires x != [] && x[0] == c && !(|x| > 1 && x[0] == '_' && x[1] == '_')
    requires CollapseUnderscores(x[1..]) == rest + t
    ensures CollapseUnderscores(x) == ([c] + rest) + t
  {
    assert [c] + (rest + t) == ([c] + rest) + t;
  }

  lemma {:induction false} TrimStartAppend(a: string, t: string, drop: StripChars)
    requires t != [] && !Drops(drop, t[0])
    ensures TrimStart(a + t, drop) == TrimStart(a, drop) + t
  {
    var x, n := a + t, |a| - |TrimStart(a, drop)|;
    assert forall k :: 0 <= k < |a| ==> x[k] == a[k];
    assert n < |x| && (n < |a| ==> x[n] == a[n]) && (n == |a| ==> x[n] == t[0]);
    TrimStartAt(x, drop, n);
    assert x[n..] == a[n..] + t;
  }

  /** The last four characters of a name that ends in ".pdf" in some letter
      case are among ".pdfPDF": safe, and none of them '_'. */
  lemma {:induction false} PdfSuffixChars(nonAsciiWord: set<char>, name: string)
    requires EndsWith(Lower(name), ".pdf")
    ensures var t := name[|name| - 4..]; '_' !in t && AllSafe(nonAsciiWord, t)
  {
    var n := |name|;
    var t := name[n - 4..];
    var l := Lower(name);
    forall k | 0 <= k < 4 ensures t[k] in ".pdfPDF" {
      assert l[n - 4..][k] == LowerChar(t[k]);
    }
  }

  lemma {:induction false} ReplaceConcat(nonAsciiWord: set<char>, a: string, b: string)
    ensures ReplaceUnsafe(nonAsciiWord, a + b) == ReplaceUnsafe(nonAsciiWord, a) + ReplaceUnsafe(nonAsciiWord, b)
  {
  }

  /** A name that already ends in ".pdf", in any letter case, keeps that very
      suffix and gets no second one: nothing is appended. */
  lemma {:induction false} ExistingSuffixKept(nonAsciiWord: set<char>, name: string)
    requires EndsWith(Lower(name), ".pdf")
    ensures SanitiseFilename(nonAsciiWord, name) == CleanName(nonAsciiWord, name)
    ensures var r := SanitiseFilename(nonAsciiWord, name);
      EndsWith(r, name[|name| - 4..]) && |r| <= |name|
  {
    var c := CleanName(nonAsciiWord, name);
    PdfCleanSuffix(nonAsciiWord, name);
    LowerSameSuffix(c, name);
  }

  /** The cleaned form of a name ending in ".pdf" (in some case) is no longer
      than the name and ends with the same four characters. */
  lemma {:induction false} PdfCleanSuffix(nonAsciiWord: set<char>, name: string)
    requires EndsWith(Lower(name), ".pdf")
    ensures var c := CleanName(nonAsciiWord, name);
      |c| <= |name| && |c| >= 4 && c[|c| - 4..] == name[|name| - 4..]
  {
    var init := name[..|name| - 4];
    CleanNameOfPdf(nonAsciiWord, name);
    CollapseEnds(ReplaceUnsafe(nonAsciiWord, init));
    AppendedTail(CleanName(nonAsciiWord, name),
                 TrimStart(CollapseUnderscores(ReplaceUnsafe(nonAsciiWord, init)), Only('_')),
                 name[|name| - 4..], |init|);
  }

  lemma {:induction false} AppendedTail(c: string, a: string, t: string, bound: nat)
    requires c == a + t && |a| <= bound
    ensures |c| <= bound + |t| && c[|c| - |t|..] == t
  {
  }

  /** Two strings with the same last four characters, the first of them
      ending in ".pdf" in some case, both do. */
  lemma {:induction false} LowerSameSuffix(c: string, name: string)
    requires |c| >= 4 && |name| >= 4 && c[|c| - 4..] == name[|name| - 4..]
    requires EndsWith(Lower(name), ".pdf")
    ensures EndsWith(Lower(c), ".pdf")
  {
    var lc, ln := Lower(c)[|c| - 4..], Lower(name)[|name| - 4..];
    forall k | 0 <= k < 4 ensures lc[k] == ln[k] {
      assert c[|c| - 4..][k] == name[|name| - 4..][k];
    }
  }

  /** The cleaned form of a name ending in ".pdf" (in some case): the cleaned
      part before the suffix, then the suffix itself. */
  lemma {:induction false} CleanNameOfPdf(nonAsciiWord: set<char>, name: string)
    requires EndsWith(Lower(name), ".pdf")
    ensures CleanName(nonAsciiWord, name)
         == TrimStart(CollapseUnderscores(ReplaceUnsafe(nonAsciiWord, name[..|name| - 4])), Only('_'))
            + name[|name| - 4..]
  {
    var t := name[|name| - 4..];
    var u0 := CollapseUnderscores(ReplaceUnsafe(nonAsciiWord, name[..|name| - 4]));
    CollapsedOfPdf(nonAsciiWord, name);
    PdfSuffixEnds(nonAsciiWord, name);
    TrimStartAppend(u0, t, Only('_'));
    TrimEndKeeps(TrimStart(u0, Only('_')) + t);
  }

  lemma {:induction false} CollapsedOfPdf(nonAsciiWord: set<char>, name: string)
    requires EndsWith(Lower(name), ".pdf")
    ensures CollapseUnderscores(ReplaceUnsafe(nonAsciiWord, name))
         == CollapseUnderscores(ReplaceUnsafe(nonAsciiWord, name[..|name| - 4])) + name[|name| - 4..]
  {
    var t := name[|name| - 4..];
    var init := name[..|name| - 4];
    assert name == init + t;
    PdfSuffixChars(nonAsciiWord, name);
    ReplaceConcat(nonAsciiWord, init, t);
    ReplaceSafeNoop(nonAsciiWord, t);
    CollapseAppendPlain(ReplaceUnsafe(nonAsciiWord, init), t);
  }

  lemma {:induction false} PdfSuffixEnds(nonAsciiWord: set<char>, name: string)
    requires EndsWith(Lower(name), ".pdf")
    ensures var t := name[|name| - 4..]; t != [] && t[0] != '_' && t[|t| - 1] != '_'
  {
    PdfSuffixChars(nonAsciiWord, name);
    var t := name[|name| - 4..];
    assert t[0] in t && t[|t| - 1] in t;
  }

  lemma {:induction false} TrimEndKeeps(c: string)
    requires c != [] && c[|c| - 1] != '_'
    ensures TrimEnd(c, Only('_')) == c
  {
    TrimEndAt(c, Only('_'), |c|);
    assert c[..|c|] == c;
  }

  lemma {:induction false} GuideNameIsSafe(nonAsciiWord: set<char>)
    ensures IsSafeName(nonAsciiWord, "scheme_guide.pdf")
  {
    var s := "scheme_guide.pdf";
    assert forall k :: 0 <= k < |s| ==> 'a' <= s[k] <= 'z' || s[k] == '_' || s[k] == '.';
    assert Lower(s) == s;
    assert s[12..] == ".pdf";
  }

  /** The example of the helper's documentation: "scheme guide.pdf", decoded
      from `scheme%20guide.pdf`, becomes "scheme_guide.pdf". */
  lemma {:induction false} SanitiseExample(nonAsciiWord: set<char>)
    ensures SanitiseFilename(nonAsciiWord, "scheme guide.pdf") == "scheme_guide.pdf"
  {
    var s := "scheme_guide.pdf";
    GuideNameIsSafe(nonAsciiWord);
    assert ReplaceUnsafe(nonAsciiWord, "scheme guide.pdf") == s;
    ReplaceSafeNoop(nonAsciiWord, s);
    SafeNameFixed(nonAsciiWord, s);
  }
}
