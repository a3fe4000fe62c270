/** The Python string and list built-ins the modelled code relies on:
    `sep.join`, `str.split` on one character, `str.strip`, ASCII `str.lower`,
    `str.endswith`, `str(n)` for a natural number, code-point ordering of
    strings and `sorted(set(xs))` over strings. */
module PyText {

  datatype Option<T> = None | Some(value: T)

  // ---------------------------------------------------------------------------
  // sep.join(xs)
  // ---------------------------------------------------------------------------

  function Join(sep: string, xs: seq<string>): string
  {
    if |xs| == 0 then "" else if |xs| == 1 then xs[0] else xs[0] + sep + Join(sep, xs[1..])
  }

  /** Appending one piece adds the separator and the piece at the end. */
  lemma {:induction false} JoinAppend(sep: string, xs: seq<string>, y: string)
    requires xs != []
    ensures Join(sep, xs + [y]) == Join(sep, xs) + sep + y
  {
    if |xs| == 1 {
      assert xs + [y] == [xs[0], y];
      assert [xs[0], y][1..] == [y];
    } else {
      assert (xs + [y])[1..] == xs[1..] + [y];
      JoinAppend(sep, xs[1..], y);
    }
  }

  /** Where the k-th piece starts inside `Join(sep, xs)`. */
  function Offset(sep: string, xs: seq<string>, k: nat): nat
    requires k < |xs|
  {
    if k == 0 then 0 else |xs[0]| + |sep| + Offset(sep, xs[1..], k - 1)
  }

  lemma {:induction false} SliceOfConcat(a: string, b: string, i: nat, j: nat)
    requires i <= j <= |b|
    ensures (a + b)[|a| + i..|a| + j] == b[i..j]
  {
  }

  lemma {:induction false} PrefixOfConcat(a: string, b: string)
    ensures (a + b)[0..|a|] == a
  {
  }

  /** Every piece occurs in the joined string at its offset. */
  lemma {:induction false} JoinPieceAt(sep: string, xs: seq<string>, k: nat)
    requires k < |xs|
    ensures Offset(sep, xs, k) + |xs[k]| <= |Join(sep, xs)|
    ensures Join(sep, xs)[Offset(sep, xs, k)..Offset(sep, xs, k) + |xs[k]|] == xs[k]
  {
    if |xs| == 1 {
      assert Join(sep, xs) == xs[0] + [];
      PrefixOfConcat(xs[0], []);
    } else {
      var head := xs[0] + sep;
      var rest := Join(sep, xs[1..]);
      assert Join(sep, xs) == head + rest;
      if k == 0 {
        assert Join(sep, xs) == xs[0] + (sep + rest);
        PrefixOfConcat(xs[0], sep + rest);
      } else {
        JoinPieceAt(sep, xs[1..], k - 1);
        var o := Offset(sep, xs[1..], k - 1);
        assert xs[1..][k - 1] == xs[k];
        assert Offset(sep, xs, k) == |head| + o;
        SliceOfConcat(head, rest, o, o + |xs[k]|);
      }
    }
  }

  /** The joined text ends right after its last piece: nothing follows it. */
  lemma {:induction false} JoinLength(sep: string, xs: seq<string>)
    requires xs != []
    ensures |Join(sep, xs)| == Offset(sep, xs, |xs| - 1) + |xs[|xs| - 1]|
  {
    if |xs| > 1 {
      JoinLength(sep, xs[1..]);
      assert xs[1..][|xs| - 2] == xs[|xs| - 1];
    }
  }

  /** Each piece but the last is followed by the separator. */
  lemma {:induction false} JoinSeparatorAfter(sep: string, xs: seq<string>, k: nat)
    requires k < |xs| - 1
    ensures Offset(sep, xs, k) + |xs[k]| + |sep| <= |Join(sep, xs)|
    ensures Join(sep, xs)[Offset(sep, xs, k) + |xs[k]|..Offset(sep, xs, k) + |xs[k]| + |sep|] == sep
  {
    var head := xs[0] + sep;
    var rest := Join(sep, xs[1..]);
    assert Join(sep, xs) == head + rest;
    if k == 0 {
      assert Join(sep, xs) == xs[0] + (sep + rest);
      SliceOfConcat(xs[0], sep + rest, 0, |sep|);
      PrefixOfConcat(sep, rest);
    } else {
      JoinSeparatorAfter(sep, xs[1..], k - 1);
      var o := Offset(sep, xs[1..], k - 1);
      assert xs[1..][k - 1] == xs[k];
      assert Offset(sep, xs, k) == |head| + o;
      SliceOfConcat(head, rest, o + |xs[k]|, o + |xs[k]| + |sep|);
    }
  }

  /** Joining non-empty pieces gives the empty string only for no pieces. */
  lemma {:induction false} JoinEmptyIff(sep: string, xs: seq<string>)
    requires forall k :: 0 <= k < |xs| ==> xs[k] != ""
    ensures Join(sep, xs) == "" <==> xs == []
  {
    if xs != [] {
      JoinPieceAt(sep, xs, 0);
    }
  }

  /** A character that occurs in no piece and not in the separator does not
      occur in the joined string. */
  lemma {:induction false} JoinAvoids(sep: string, xs: seq<string>, c: char)
    requires c !in sep
    requires forall k :: 0 <= k < |xs| ==> c !in xs[k]
    ensures c !in Join(sep, xs)
  {
    if |xs| > 1 {
      JoinAvoids(sep, xs[1..], c);
      assert c !in xs[0] + sep;
    }
  }

  // ---------------------------------------------------------------------------
  // s.split(c), s.replace(a, b) for single characters
  // ---------------------------------------------------------------------------

  /** The pieces of `s` between occurrences of `sep`: Python's `s.split(sep)`. */
  function Split(s: string, sep: char): (r: seq<string>)
    ensures |r| >= 1
    ensures forall k :: 0 <= k < |r| ==> sep !in r[k]
  {
    if s == [] then [""]
    else
      var rest := Split(s[1..], sep);
      if s[0] == sep then [""] + rest else [[s[0]] + rest[0]] + rest[1..]
  }

  lemma {:induction false} JoinExtendFirst(sep: string, a: string, xs: seq<string>)
    requires xs != []
    ensures Join(sep, [a + xs[0]] + xs[1..]) == a + Join(sep, xs)
  {
    if |xs| > 1 {
      assert ([a + xs[0]] + xs[1..])[1..] == xs[1..];
    }
  }

  /** Splitting and joining with the same separator gives the string back. */
  lemma {:induction false} SplitJoin(s: string, sep: char)
    ensures Join([sep], Split(s, sep)) == s
  {
    if s != [] {
      var rest := Split(s[1..], sep);
      SplitJoin(s[1..], sep);
      if s[0] == sep {
        assert ([""] + rest)[1..] == rest;
        assert s == [sep] + s[1..];
      } else {
        JoinExtendFirst([sep], [s[0]], rest);
        assert s == [s[0]] + s[1..];
      }
    }
  }

  /** The text before the first `sep`: Python's `s.split(sep)[0]`. */
  function BeforeFirst(s: string, sep: char): string
  {
    Split(s, sep)[0]
  }

  /** Whatever follows a `sep` does not change what comes before the first one. */
  lemma {:induction false} BeforeFirstIgnoresTail(s: string, sep: char, t: string)
    ensures BeforeFirst(s + [sep] + t, sep) == BeforeFirst(s, sep)
  {
    if s == [] {
      assert ([sep] + t)[0] == sep;
    } else {
      assert (s + [sep] + t)[1..] == s[1..] + [sep] + t;
      BeforeFirstIgnoresTail(s[1..], sep, t);
    }
  }

  /** A prefix free of `sep` survives unchanged. */
  lemma {:induction false} BeforeFirstOfFree(s: string, sep: char)
    requires sep !in s
    ensures BeforeFirst(s, sep) == s
  {
    if s != [] {
      BeforeFirstOfFree(s[1..], sep);
      assert s == [s[0]] + s[1..];
    }
  }

  /** Replacing a character that does not occur changes nothing. */
  lemma {:induction false} ReplaceAbsent(s: string, from: char, to: char)
    requires from !in s
    ensures ReplaceChar(s, from, to) == s
  {
  }

  /** `s.replace(from, to)` for single characters. */
  function ReplaceChar(s: string, from: char, to: char): string
  {
    seq(|s|, k requires 0 <= k < |s| => if s[k] == from then to else s[k])
  }

  // ---------------------------------------------------------------------------
  // s.strip() and s.strip(chars)
  // ---------------------------------------------------------------------------

  /** The characters a strip removes: `strip()` with no argument removes
      whitespace, `strip("_")` removes one given character. */
  datatype StripChars = Whitespace | Only(c: char)

  predicate Drops(chars: StripChars, c: char)
  {
    match chars
    case Whitespace => IsSpace(c)
    case Only(d) => c == d
  }

  /** The characters Python's `str.isspace` accepts. */
  predicate IsSpace(c: char)
  {
    var n := c as int;
    n == 32 || 9 <= n <= 13 || 28 <= n <= 31 || n == 0x85 || n == 0xA0 || n == 0x1680
    || 0x2000 <= n <= 0x200A || n == 0x2028 || n == 0x2029 || n == 0x202F || n == 0x205F
    || n == 0x3000
  }

  /** The index of the first character at or after `i` that `drop` keeps,
      or `|s|`. */
  function LeadEnd(s: string, drop: StripChars, i: nat): (e: nat)
    requires i <= |s|
    ensures i <= e <= |s|
    ensures forall k :: i <= k < e ==> Drops(drop, s[k])
    ensures e < |s| ==> !Drops(drop, s[e])
    decreases |s| - i
  {
    if i < |s| && Drops(drop, s[i]) then LeadEnd(s, drop, i + 1) else i
  }

  /** The index just after the last character before `j` that `drop` keeps,
      or 0. */
  function TailStart(s: string, drop: StripChars, j: nat): (e: nat)
    requires j <= |s|
    ensures e <= j
    ensures forall k :: e <= k < j ==> Drops(drop, s[k])
    ensures e > 0 ==> !Drops(drop, s[e - 1])
  {
    if j > 0 && Drops(drop, s[j - 1]) then TailStart(s, drop, j - 1) else j
  }

  function TrimStart(s: string, drop: StripChars): (r: string)
    ensures |r| <= |s| && r == s[|s| - |r|..]
    ensures r != [] ==> !Drops(drop, r[0])
    ensures forall k :: 0 <= k < |s| - |r| ==> Drops(drop, s[k])
  {
    s[LeadEnd(s, drop, 0)..]
  }

  function TrimEnd(s: string, drop: StripChars): (r: string)
    ensures |r| <= |s| && r == s[..|r|]
    ensures r != [] ==> !Drops(drop, r[|r| - 1])
    ensures forall k :: |r| <= k < |s| ==> Drops(drop, s[k])
  {
    s[..TailStart(s, drop, |s|)]
  }

  /** The trimming steps are determined by their contracts: dropping exactly
      a run of `n` droppable characters before a kept one (or the end) is
      `TrimStart`. */
  lemma {:induction false} TrimStartAt(s: string, drop: StripChars, n: nat)
    requires n <= |s| && (forall k :: 0 <= k < n ==> Drops(drop, s[k]))
    requires n < |s| ==> !Drops(drop, s[n])
    ensures TrimStart(s, drop) == s[n..]
  {
  }

  /** Keeping exactly the characters before a droppable run of `|s| - n`
      characters after a kept one (or the start) is `TrimEnd`. */
  lemma {:induction false} TrimEndAt(s: string, drop: StripChars, n: nat)
    requires n <= |s| && (forall k :: n <= k < |s| ==> Drops(drop, s[k]))
    requires n > 0 ==> !Drops(drop, s[n - 1])
    ensures TrimEnd(s, drop) == s[..n]
  {
  }

  /** Python's `s.strip(...)`: drops the leading and trailing characters
      that `drop` selects, keeping the infix between them. */
  function Strip(s: string, drop: StripChars): (r: string)
    ensures r == "" <==> forall k :: 0 <= k < |s| ==> Drops(drop, s[k])
    ensures r != "" ==> !Drops(drop, r[0]) && !Drops(drop, r[|r| - 1])
    ensures StripStart(s, drop) + |r| <= |s|
    ensures r == s[StripStart(s, drop)..StripStart(s, drop) + |r|]
  {
    var t := TrimStart(s, drop);
    var r := TrimEnd(t, drop);
    TrimBoth(s, t, r, StripStart(s, drop), drop);
    r
  }

  /** The facts behind `Strip`'s contract, stated on the two trimming steps'
      own contracts. */
  lemma {:induction false} TrimBoth(s: string, t: string, r: string, i: nat, drop: StripChars)
    requires |t| <= |s| && t == s[|s| - |t|..] && i == |s| - |t|
    requires t != [] ==> !Drops(drop, t[0])
    requires forall k :: 0 <= k < |s| - |t| ==> Drops(drop, s[k])
    requires |r| <= |t| && r == t[..|r|]
    requires r != [] ==> !Drops(drop, r[|r| - 1])
    requires forall k :: |r| <= k < |t| ==> Drops(drop, t[k])
    ensures r == "" <==> forall k :: 0 <= k < |s| ==> Drops(drop, s[k])
    ensures r != "" ==> !Drops(drop, r[0]) && !Drops(drop, r[|r| - 1])
    ensures i + |r| <= |s|
    ensures r == s[i..i + |r|]
  {
    if r != "" {
      assert r[0] == t[0];
    }
  }

  /** How many characters `Strip` drops at the front. */
  function StripStart(s: string, drop: StripChars): nat
  {
    |s| - |TrimStart(s, drop)|
  }

  /** Stripping leaves nothing to strip. */
  lemma {:induction false} StripIdempotent(s: string, drop: StripChars)
    ensures Strip(Strip(s, drop), drop) == Strip(s, drop)
  {
    StripNoop(Strip(s, drop), drop);
  }

  /** A string with nothing to strip at either end is its own strip. */
  lemma {:induction false} StripNoop(s: string, drop: StripChars)
    requires s != [] ==> !Drops(drop, s[0]) && !Drops(drop, s[|s| - 1])
    ensures Strip(s, drop) == s
  {
    TrimStartAt(s, drop, 0);
    assert TrimStart(s, drop) == s by {
      assert s[0..] == s;
    }
    TrimEndAt(s, drop, |s|);
    assert TrimEnd(s, drop) == s by {
      assert s[..|s|] == s;
    }
  }

  // ---------------------------------------------------------------------------
  // s.lower() on ASCII letters, s.endswith(suffix)
  // ---------------------------------------------------------------------------

  function LowerChar(c: char): char
  {
    if 'A' <= c <= 'Z' then (c as int + 32) as char else c
  }

  /** `s.lower()`, character by character. */
  function Lower(s: string): string
  {
    seq(|s|, k requires 0 <= k < |s| => LowerChar(s[k]))
  }

  lemma {:induction false} LowerConcat(a: string, b: string)
    ensures Lower(a + b) == Lower(a) + Lower(b)
  {
    assert forall k :: 0 <= k < |a + b| ==> Lower(a + b)[k] == (Lower(a) + Lower(b))[k];
  }

  lemma {:induction false} LowerIdempotent(s: string)
    ensures Lower(Lower(s)) == Lower(s)
  {
    assert forall k :: 0 <= k < |s| ==> Lower(Lower(s))[k] == Lower(s)[k];
  }

  predicate EndsWith(s: string, suffix: string)
  {
    |suffix| <= |s| && s[|s| - |suffix|..] == suffix
  }

  // ---------------------------------------------------------------------------
  // str(n) for natural numbers
  // ---------------------------------------------------------------------------

  function DigitChar(d: nat): char
    requires d < 10
  {
    ('0' as int + d) as char
  }

  /** The decimal numeral of `n`, without leading zeros. */
  function NatToDecimal(n: nat): (s: string)
    ensures s != []
    ensures forall k :: 0 <= k < |s| ==> '0' <= s[k] <= '9'
    ensures |s| > 1 ==> s[0] != '0'
  {
    if n < 10 then [DigitChar(n)] else NatToDecimal(n / 10) + [DigitChar(n % 10)]
  }

  /** The number a string of decimal digits denotes. */
  function DecimalValue(s: string): nat
    requires forall k :: 0 <= k < |s| ==> '0' <= s[k] <= '9'
  {
    if s == [] then 0 else 10 * DecimalValue(s[..|s| - 1]) + (s[|s| - 1] as int - '0' as int)
  }

  lemma {:induction false} DecimalRoundTrip(n: nat)
    ensures DecimalValue(NatToDecimal(n)) == n
  {
    if n >= 10 {
      var s := NatToDecimal(n);
      assert s[..|s| - 1] == NatToDecimal(n / 10);
      DecimalRoundTrip(n / 10);
    }
  }

  /** Distinct numbers have distinct numerals. */
  lemma {:induction false} DecimalInjective(m: nat, n: nat)
    requires NatToDecimal(m) == NatToDecimal(n)
    ensures m == n
  {
    DecimalRoundTrip(m);
    DecimalRoundTrip(n);
  }

  // ---------------------------------------------------------------------------
  // Code-point ordering of strings, sorted(set(xs))
  // ---------------------------------------------------------------------------

  /** Python's `a < b` on strings: lexicographic by code point. */
  predicate StrLt(a: string, b: string)
  {
    if a == [] then b != []
    else if b == [] then false
    else if a[0] != b[0] then a[0] < b[0]
    else StrLt(a[1..], b[1..])
  }

  predicate StrLe(a: string, b: string)
  {
    a == b || StrLt(a, b)
  }

  lemma {:induction false} StrLtIrreflexive(a: string)
    ensures !StrLt(a, a)
  {
    if a != [] {
      StrLtIrreflexive(a[1..]);
    }
  }

  lemma {:induction false} StrLtTransitive(a: string, b: string, c: string)
    requires StrLt(a, b) && StrLt(b, c)
    ensures StrLt(a, c)
  {
    if a != [] && b != [] && c != [] && a[0] == b[0] && b[0] == c[0] {
      StrLtTransitive(a[1..], b[1..], c[1..]);
    }
  }

  lemma {:induction false} StrLtTrichotomy(a: string, b: string)
    ensures a == b || StrLt(a, b) || StrLt(b, a)
  {
    if a != [] && b != [] && a[0] == b[0] {
      StrLtTrichotomy(a[1..], b[1..]);
      if a[1..] == b[1..] {
        assert a == [a[0]] + a[1..] && b == [b[0]] + b[1..];
      }
    }
  }

  lemma {:induction false} StrLtAsymmetric(a: string, b: string)
    requires StrLt(a, b)
    ensures !StrLt(b, a)
  {
    if a != [] && b != [] && a[0] == b[0] {
      StrLtAsymmetric(a[1..], b[1..]);
    }
  }

  predicate StrictlySorted(s: seq<string>)
  {
    forall i, j :: 0 <= i < j < |s| ==> StrLt(s[i], s[j])
  }

  function InsertSorted(x: string, s: seq<string>): (r: seq<string>)
    requires StrictlySorted(s)
    ensures StrictlySorted(r)
    ensures forall y :: y in r <==> y == x || y in s
  {
    if s == [] then [x]
    else if x == s[0] then s
    else if StrLt(x, s[0]) then
      assert forall j :: 0 < j < |s| ==> StrLt(x, s[j]) by {
        forall j | 0 < j < |s| ensures StrLt(x, s[j]) { StrLtTransitive(x, s[0], s[j]); }
      }
      [x] + s
    else
      StrLtTrichotomy(x, s[0]);
      var r := [s[0]] + InsertSorted(x, s[1..]);
      assert forall j :: 0 < j < |r| ==> StrLt(s[0], r[j]) by {
        forall j | 0 < j < |r| ensures StrLt(s[0], r[j]) {
          assert r[j] in InsertSorted(x, s[1..]);
        }
      }
      r
  }

  /** Python's `sorted(set(xs))` for strings. */
  function SortedDistinct(xs: seq<string>): (r: seq<string>)
    ensures StrictlySorted(r)
    ensures forall y :: y in r <==> y in xs
  {
    if xs == [] then []
    else InsertSorted(xs[|xs| - 1], SortedDistinct(xs[..|xs| - 1]))
  }

  /** A strictly sorted list is determined by its elements: `sorted(set(xs))`
      depends only on the set of `xs`, not on its order or repetitions. */
  lemma {:induction false} StrictlySortedUnique(a: seq<string>, b: seq<string>)
    requires StrictlySorted(a) && StrictlySorted(b)
    requires forall y :: y in a <==> y in b
    ensures a == b
  {
    assert a != [] ==> a[0] in b;
    assert b != [] ==> b[0] in a;
    if a != [] || b != [] {
      // both heads are the least element of the common set
      if a[0] != b[0] {
        assert b[0] in a;
        assert a[0] in b;
        var i :| 0 <= i < |a| && a[i] == b[0];
        var j :| 0 <= j < |b| && b[j] == a[0];
        assert StrLt(a[0], b[0]);
        assert StrLt(b[0], a[0]);
        StrLtAsymmetric(a[0], b[0]);
        assert false;
      }
      forall y ensures y in a[1..] <==> y in b[1..] {
        if y in a[1..] {
          var i :| 1 <= i < |a| && a[i] == y;
          assert StrLt(a[0], y);
          if y == b[0] { StrLtIrreflexive(y); }
          assert y in b;
        }
        if y in b[1..] {
          var j :| 1 <= j < |b| && b[j] == y;
          assert StrLt(b[0], y);
          if y == a[0] { StrLtIrreflexive(y); }
          assert y in a;
        }
      }
      StrictlySortedUnique(a[1..], b[1..]);
      assert a == [a[0]] + a[1..] && b == [b[0]] + b[1..];
    }
  }
}
