/** The string operations the zone-file parser relies on: `str.strip`,
    `str.startswith`, `str.find`/`str.rfind`, `str.lower`/`str.upper` and
    `re.split(r'\t+', ...)`, each stated with what it computes. */
module Text {

  /** The characters Python's `str.strip()` removes (those for which
      `str.isspace()` holds). */
  predicate IsSpace(c: char) {
    var n := c as int;
    || (0x09 <= n <= 0x0D)
    || (0x1C <= n <= 0x20)
    || n == 0x85 || n == 0xA0 || n == 0x1680
    || (0x2000 <= n <= 0x200A)
    || n == 0x2028 || n == 0x2029 || n == 0x202F || n == 0x205F || n == 0x3000
  }

  /** First index at or after `i` that does not hold whitespace. */
  function SkipSpaces(s: string, i: nat): (k: nat)
    requires i <= |s|
    ensures i <= k <= |s|
    ensures forall j :: i <= j < k ==> IsSpace(s[j])
    ensures k < |s| ==> !IsSpace(s[k])
    decreases |s| - i
  {
    if i < |s| && IsSpace(s[i]) then SkipSpaces(s, i + 1) else i
  }

  /** Walks back from `j` (exclusive) towards `lo` over whitespace. */
  function BackSkipSpaces(s: string, lo: nat, j: nat): (k: nat)
    requires lo <= j <= |s|
    ensures lo <= k <= j
    ensures forall m :: k <= m < j ==> IsSpace(s[m])
    ensures k > lo ==> !IsSpace(s[k - 1])
    decreases j - lo
  {
    if j > lo && IsSpace(s[j - 1]) then BackSkipSpaces(s, lo, j - 1) else j
  }

  /** The slice `[lo, hi)` of `s` that `str.strip()` keeps. */
  function StripBounds(s: string): (b: (nat, nat))
    ensures b.0 <= b.1 <= |s|
    ensures forall k :: 0 <= k < b.0 ==> IsSpace(s[k])
    ensures forall k :: b.1 <= k < |s| ==> IsSpace(s[k])
    ensures b.0 < b.1 ==> !IsSpace(s[b.0]) && !IsSpace(s[b.1 - 1])
  {
    var lo := SkipSpaces(s, 0);
    (lo, BackSkipSpaces(s, lo, |s|))
  }

  /** `str.strip()`: a result that neither starts nor ends with whitespace,
      and the string itself when it holds no whitespace at all. */
  function Strip(s: string): (r: string)
    ensures |r| <= |s|
    ensures |r| > 0 ==> !IsSpace(r[0]) && !IsSpace(r[|r| - 1])
    ensures (forall k :: 0 <= k < |s| ==> !IsSpace(s[k])) ==> r == s
  {
    var b := StripBounds(s);
    s[b.0..b.1]
  }

  /** A string whose ends are not whitespace is its own strip. */
  lemma StripUnchanged(s: string)
    requires |s| > 0 ==> !IsSpace(s[0]) && !IsSpace(s[|s| - 1])
    ensures Strip(s) == s
  {
  }

  /** `str.find(c)`: the first index holding `c`, or -1. */
  function Find(s: string, c: char): (r: int)
    ensures -1 <= r < |s|
    ensures r >= 0 ==> s[r] == c && forall j :: 0 <= j < r ==> s[j] != c
    ensures r == -1 ==> forall j :: 0 <= j < |s| ==> s[j] != c
  {
    if |s| == 0 then -1
    else if s[0] == c then 0
    else
      var k := Find(s[1..], c);
      if k < 0 then -1 else k + 1
  }

  /** `str.rfind(c)`: the last index holding `c`, or -1. */
  function RFind(s: string, c: char): (r: int)
    ensures -1 <= r < |s|
    ensures r >= 0 ==> s[r] == c && forall j :: r < j < |s| ==> s[j] != c
    ensures r == -1 ==> forall j :: 0 <= j < |s| ==> s[j] != c
  {
    if |s| == 0 then -1
    else if s[|s| - 1] == c then |s| - 1
    else RFind(s[..|s| - 1], c)
  }

  /** Number of occurrences of `c` in `s`. */
  function Count(s: string, c: char): nat {
    if |s| == 0 then 0 else (if s[0] == c then 1 else 0) + Count(s[1..], c)
  }

  lemma {:induction false} CountZero(s: string, c: char)
    ensures Count(s, c) == 0 <==> forall j :: 0 <= j < |s| ==> s[j] != c
  {
    if |s| > 0 {
      CountZero(s[1..], c);
      assert forall j :: 1 <= j < |s| ==> s[j] == s[1..][j - 1];
    }
  }

  /** At least two occurrences exactly when two distinct positions hold `c`. */
  lemma {:induction false} CountTwo(s: string, c: char)
    ensures Count(s, c) >= 2 <==>
      exists i, j :: 0 <= i < j < |s| && s[i] == c && s[j] == c
  {
    if |s| > 0 {
      var t := s[1..];
      CountTwo(t, c);
      CountZero(t, c);
      if Count(s, c) >= 2 {
        if s[0] == c {
          var j :| 0 <= j < |t| && t[j] == c;
          assert s[0] == c && s[j + 1] == c;
        } else {
          var i, j :| 0 <= i < j < |t| && t[i] == c && t[j] == c;
          assert s[i + 1] == c && s[j + 1] == c;
        }
      }
      if exists i, j :: 0 <= i < j < |s| && s[i] == c && s[j] == c {
        var i, j :| 0 <= i < j < |s| && s[i] == c && s[j] == c;
        if i == 0 {
          assert t[j - 1] == c;
        } else {
          assert t[i - 1] == c && t[j - 1] == c;
        }
      }
    }
  }

  /** The test `s.find(c) == s.rfind(c)` holds exactly when `c` occurs at
      most once: it is true for no occurrence (both -1) and for one. */
  lemma FindIsRFindIffAtMostOne(s: string, c: char)
    ensures Find(s, c) == RFind(s, c) <==> Count(s, c) <= 1
  {
    CountZero(s, c);
    CountTwo(s, c);
    var f, l := Find(s, c), RFind(s, c);
    assert f == -1 <==> l == -1;
    assert f <= l by {
      if f >= 0 {
        assert s[f] == c;
      }
    }
    assert (exists i, j :: 0 <= i < j < |s| && s[i] == c && s[j] == c) ==> f < l by {
      if exists i, j :: 0 <= i < j < |s| && s[i] == c && s[j] == c {
        var i, j :| 0 <= i < j < |s| && s[i] == c && s[j] == c;
        assert f <= i && j <= l;
      }
    }
    assert f < l ==> exists i, j :: 0 <= i < j < |s| && s[i] == c && s[j] == c by {
      if f < l {
        assert s[f] == c && s[l] == c;
      }
    }
  }

  function LowerChar(c: char): char {
    if 'A' <= c <= 'Z' then (c as int + 32) as char else c
  }

  function UpperChar(c: char): char {
    if 'a' <= c <= 'z' then (c as int - 32) as char else c
  }

  predicate IsLowerCase(s: string) {
    forall i :: 0 <= i < |s| ==> !('A' <= s[i] <= 'Z')
  }

  predicate IsUpperCase(s: string) {
    forall i :: 0 <= i < |s| ==> !('a' <= s[i] <= 'z')
  }

  /** `str.lower()` on ASCII letters: no upper-case letter is left, and every
      other character stays where it was. */
  function ToLower(s: string): (r: string)
    ensures |r| == |s|
    ensures IsLowerCase(r)
    ensures forall i :: 0 <= i < |s| && !('A' <= s[i] <= 'Z') ==> r[i] == s[i]
  {
    seq(|s|, i requires 0 <= i < |s| => LowerChar(s[i]))
  }

  /** `str.upper()` on ASCII letters: no lower-case letter is left, and every
      other character stays where it was. */
  function ToUpper(s: string): (r: string)
    ensures |r| == |s|
    ensures IsUpperCase(r)
    ensures forall i :: 0 <= i < |s| && !('a' <= s[i] <= 'z') ==> r[i] == s[i]
  {
    seq(|s|, i requires 0 <= i < |s| => UpperChar(s[i]))
  }

  /** Upper-casing forgets a prior lower-casing, so comparing `upper()` with
      "IN" or "NS" ignores case: a string and its lowered form pass or fail
      together. */
  lemma UpperOfLower(s: string)
    ensures ToUpper(ToLower(s)) == ToUpper(s)
  {
    var l := ToLower(s);
    forall i | 0 <= i < |s| ensures ToUpper(l)[i] == ToUpper(s)[i] {
      assert l[i] == LowerChar(s[i]);
    }
  }

  /** Lowering leaves no upper-case letter, keeps every character that is not
      a letter in place, and is idempotent. */
  lemma ToLowerProperties(s: string)
    ensures IsLowerCase(ToLower(s))
    ensures forall i :: 0 <= i < |s| && !('A' <= s[i] <= 'Z') && !('a' <= s[i] <= 'z') ==>
      ToLower(s)[i] == s[i]
    ensures ToLower(ToLower(s)) == ToLower(s)
  {
  }

  lemma {:induction false} CountUnderLower(s: string)
    ensures Count(ToLower(s), '.') == Count(s, '.')
  {
    if |s| > 0 {
      CountUnderLower(s[1..]);
      assert ToLower(s)[1..] == ToLower(s[1..]);
    }
  }

  /** Index just past the run of tabs that starts at `i`. */
  function SkipTabs(s: string, i: nat): (k: nat)
    requires i <= |s|
    ensures i <= k <= |s|
    ensures forall j :: i <= j < k ==> s[j] == '\t'
    ensures k < |s| ==> s[k] != '\t'
    decreases |s| - i
  {
    if i < |s| && s[i] == '\t' then SkipTabs(s, i + 1) else i
  }

  /** `re.split(r'\t+', s)`: the pieces of `s` between maximal runs of tabs.
      A leading or trailing run yields an empty first or last piece. */
  function SplitTabRuns(s: string): (fields: seq<string>)
    ensures |fields| >= 1
    ensures forall i :: 0 <= i < |fields| ==> '\t' !in fields[i]
    ensures forall i :: 0 < i < |fields| - 1 ==> fields[i] != ""
    ensures fields[0] == "" <==> (|s| == 0 || s[0] == '\t')
    ensures |fields| == 1 <==> '\t' !in s
    decreases |s|
  {
    var i := Find(s, '\t');
    if i < 0 then [s]
    else
      var j := SkipTabs(s, i);
      assert '\t' !in s[..i] by {
        forall k | 0 <= k < i ensures s[..i][k] != '\t' { }
      }
      [s[..i]] + SplitTabRuns(s[j..])
  }

  /** `s` with every run of tabs shortened to a single tab. */
  function SqueezeTabs(s: string): string
    decreases |s|
  {
    if |s| == 0 then ""
    else if s[0] == '\t' && |s| > 1 && s[1] == '\t' then SqueezeTabs(s[1..])
    else [s[0]] + SqueezeTabs(s[1..])
  }

  /** A run of `n` tabs. */
  function Tabs(n: nat): (t: string)
    ensures |t| == n
    ensures forall k :: 0 <= k < n ==> t[k] == '\t'
  {
    if n == 0 then "" else Tabs(n - 1) + "\t"
  }

  /** A tab-free prefix passes through squeezing unchanged. */
  lemma {:induction false} SqueezeTabFreePrefix(a: string, b: string)
    requires '\t' !in a
    ensures SqueezeTabs(a + b) == a + SqueezeTabs(b)
    decreases |a|
  {
    if |a| > 0 {
      assert (a + b)[0] == a[0];
      assert (a + b)[1..] == a[1..] + b;
      SqueezeTabFreePrefix(a[1..], b);
      assert a == [a[0]] + a[1..];
    } else {
      assert a + b == b;
    }
  }

  /** A maximal run of `n` tabs squeezes to one. */
  lemma {:induction false} SqueezeTabRun(n: nat, b: string)
    requires n >= 1
    requires |b| > 0 ==> b[0] != '\t'
    ensures SqueezeTabs(Tabs(n) + b) == "\t" + SqueezeTabs(b)
    decreases n
  {
    var s := Tabs(n) + b;
    assert s[0] == '\t';
    if n == 1 {
      assert s[1..] == b;
    } else {
      assert s[1] == '\t';
      assert s[1..] == Tabs(n - 1) + b;
      SqueezeTabRun(n - 1, b);
    }
  }

  /** `'\t'.join(fields)`. */
  function JoinTabs(fields: seq<string>): string
    decreases |fields|
  {
    if |fields| == 0 then ""
    else if |fields| == 1 then fields[0]
    else fields[0] + "\t" + JoinTabs(fields[1..])
  }

  lemma JoinTabsPrefix(fields: seq<string>)
    requires |fields| >= 1
    ensures |JoinTabs(fields)| >= |fields[0]|
    ensures JoinTabs(fields)[..|fields[0]|] == fields[0]
  {
  }

  lemma {:induction false} JoinTabsSuffix(fields: seq<string>)
    requires |fields| >= 1
    ensures |JoinTabs(fields)| >= |fields[|fields| - 1]|
    ensures JoinTabs(fields)[|JoinTabs(fields)| - |fields[|fields| - 1]|..] == fields[|fields| - 1]
    decreases |fields|
  {
    if |fields| > 1 {
      JoinTabsSuffix(fields[1..]);
    }
  }

  /** A tab-free piece, a run of tabs and the rest squeeze to the piece, one
      tab and the squeezed rest. */
  lemma SqueezeAround(a: string, n: nat, b: string)
    requires '\t' !in a && n >= 1
    requires |b| > 0 ==> b[0] != '\t'
    ensures SqueezeTabs(a + Tabs(n) + b) == a + "\t" + SqueezeTabs(b)
  {
    var tabs := Tabs(n);
    assert a + tabs + b == a + (tabs + b);
    SqueezeTabFreePrefix(a, tabs + b);
    SqueezeTabRun(n, b);
    assert a + ("\t" + SqueezeTabs(b)) == a + "\t" + SqueezeTabs(b);
  }

  lemma JoinTabsCons(a: string, rest: seq<string>)
    requires |rest| >= 1
    ensures JoinTabs([a] + rest) == a + "\t" + JoinTabs(rest)
  {
    assert ([a] + rest)[1..] == rest;
  }

  /** One step of the split: the first piece, then the fields of the rest. */
  lemma SplitContentsStep(s: string, a: string, n: nat, b: string, fields: seq<string>, rest: seq<string>)
    requires '\t' !in a && n >= 1
    requires |b| > 0 ==> b[0] != '\t'
    requires s == a + Tabs(n) + b
    requires |rest| >= 1 && fields == [a] + rest
    requires JoinTabs(rest) == SqueezeTabs(b)
    ensures JoinTabs(fields) == SqueezeTabs(s)
  {
    JoinTabsCons(a, rest);
    SqueezeAround(a, n, b);
  }

  /** How the split takes a string apart at its first run of tabs. */
  lemma SplitTabRunsUnfold(s: string, i: int, j: nat)
    requires 0 <= i == Find(s, '\t') && i <= |s| && j == SkipTabs(s, i)
    ensures '\t' !in s[..i] && i < j
    ensures |s[j..]| > 0 ==> s[j..][0] != '\t'
    ensures SplitTabRuns(s) == [s[..i]] + SplitTabRuns(s[j..])
  {
    assert '\t' !in s[..i] by {
      forall k | 0 <= k < i ensures s[..i][k] != '\t' { }
    }
  }

  /** `s` is its piece before `i`, the tabs in `[i, j)` and the rest. */
  lemma TabRunDecompose(s: string, i: nat, j: nat)
    requires i <= j <= |s|
    requires forall k :: i <= k < j ==> s[k] == '\t'
    ensures s == s[..i] + Tabs(j - i) + s[j..]
  {
    assert s[i..j] == Tabs(j - i);
    assert s == s[..i] + s[i..j] + s[j..];
  }

  /** A string without tabs is one field, and squeezing leaves it alone. */
  lemma NoTabContents(s: string)
    requires Find(s, '\t') < 0
    ensures JoinTabs(SplitTabRuns(s)) == SqueezeTabs(s)
  {
    SqueezeTabFreePrefix(s, "");
    assert s + "" == s;
  }

  /** The split at the first tab run, given the contents for the rest. */
  lemma TabRunContents(s: string, i: int, j: nat)
    requires 0 <= i == Find(s, '\t') && i <= |s| && j == SkipTabs(s, i)
    requires JoinTabs(SplitTabRuns(s[j..])) == SqueezeTabs(s[j..])
    ensures JoinTabs(SplitTabRuns(s)) == SqueezeTabs(s)
  {
    SplitTabRunsUnfold(s, i, j);
    TabRunDecompose(s, i, j);
    SplitContentsStep(s, s[..i], j - i, s[j..], SplitTabRuns(s), SplitTabRuns(s[j..]));
  }

  /** The fields of `re.split(r'\t+', s)` are the pieces of `s` between
      tab runs: joining them with single tabs gives back `s` with each run of
      tabs squeezed to one. Together with the fields being tab-free and the
      inner ones non-empty, this fixes the fields' contents. */
  lemma {:induction false} SplitTabRunsContents(s: string)
    ensures JoinTabs(SplitTabRuns(s)) == SqueezeTabs(s)
    decreases |s|
  {
    var i := Find(s, '\t');
    if i < 0 {
      NoTabContents(s);
    } else {
      var j := SkipTabs(s, i);
      SplitTabRunsContents(s[j..]);
      TabRunContents(s, i, j);
    }
  }

  /** One separator followed by a non-tab character (or the end) splits off
      exactly the first field. */
  lemma SplitOneSeparator(f0: string, rest: string)
    requires '\t' !in f0
    requires |rest| > 0 ==> rest[0] != '\t'
    ensures SplitTabRuns(f0 + "\t" + rest) == [f0] + SplitTabRuns(rest)
  {
    var s := f0 + "\t" + rest;
    assert s[|f0|] == '\t';
    assert forall k :: 0 <= k < |f0| ==> s[k] == f0[k];
    assert Find(s, '\t') == |f0|;
    assert SkipTabs(s, |f0|) == |f0| + 1;
    assert s[..|f0|] == f0;
    assert s[|f0| + 1..] == rest;
  }

  /** Splitting a tab-joined row gives the row back, provided no field holds a
      tab and no inner field is empty (an empty inner field would merge two
      separators into one run). */
  lemma {:induction false} SplitJoinRoundTrip(fields: seq<string>)
    requires |fields| >= 1
    requires forall i :: 0 <= i < |fields| ==> '\t' !in fields[i]
    requires forall i :: 0 < i < |fields| - 1 ==> fields[i] != ""
    ensures SplitTabRuns(JoinTabs(fields)) == fields
  {
    if |fields| == 1 {
      assert Find(fields[0], '\t') == -1;
    } else {
      var rest := JoinTabs(fields[1..]);
      JoinTabsPrefix(fields[1..]);
      assert |rest| > 0 ==> rest[0] != '\t' by {
        if |rest| > 0 && fields[1] != "" {
          assert rest[0] == fields[1][0];
        }
      }
      SplitOneSeparator(fields[0], rest);
      SplitJoinRoundTrip(fields[1..]);
      assert fields == [fields[0]] + fields[1..];
    }
  }

}
