/** String primitives the program takes from Python's `str`: whitespace stripping,
    prefix and suffix tests, substring search, `replace`, decimal formatting of an
    index, and `join` / `split` on a one-character separator. */
module Text {
  import opened Sequences
  import opened Options

  /** The ASCII characters Python's `str.isspace` accepts: tab, line feed, vertical
      tab, form feed, carriage return, the four separators 0x1C-0x1F, and space. */
  predicate IsSpace(c: char) {
    c == ' ' || ('\t' <= c <= '\r') || ('\U{1C}' <= c <= '\U{1F}')
  }

  /** The characters of Python's ASCII `\w`: letters, digits and underscore. */
  predicate IsWordChar(c: char) {
    ('a' <= c <= 'z') || ('A' <= c <= 'Z') || ('0' <= c <= '9') || c == '_'
  }

  /** A match of `\w+`. */
  predicate IsWord(s: string) {
    |s| > 0 && forall i :: 0 <= i < |s| ==> IsWordChar(s[i])
  }

  function StripStart(s: string): (r: string)
    ensures |r| <= |s|
    decreases |s|
  {
    if s != [] && IsSpace(s[0]) then StripStart(s[1..]) else s
  }

  /** `str.lstrip()` drops exactly the leading whitespace. */
  lemma {:induction false} StripStartSpec(s: string)
    ensures StripStart(s) == s[|s| - |StripStart(s)|..]
    ensures forall i :: 0 <= i < |s| - |StripStart(s)| ==> IsSpace(s[i])
    ensures StripStart(s) != [] ==> !IsSpace(StripStart(s)[0])
    decreases |s|
  {
    if s != [] && IsSpace(s[0]) {
      StripStartSpec(s[1..]);
      forall i | 1 <= i < |s| - |StripStart(s)| ensures IsSpace(s[i]) {
        assert s[1..][i - 1] == s[i];
      }
    }
  }

  function StripEnd(s: string): (r: string)
    ensures |r| <= |s|
    decreases |s|
  {
    if s != [] && IsSpace(s[|s| - 1]) then StripEnd(s[..|s| - 1]) else s
  }

  /** `str.rstrip()` drops exactly the trailing whitespace. */
  lemma {:induction false} StripEndSpec(s: string)
    ensures StripEnd(s) == s[..|StripEnd(s)|]
    ensures forall i :: |StripEnd(s)| <= i < |s| ==> IsSpace(s[i])
    ensures StripEnd(s) != [] ==> !IsSpace(StripEnd(s)[|StripEnd(s)| - 1])
    decreases |s|
  {
    if s != [] && IsSpace(s[|s| - 1]) {
      StripEndSpec(s[..|s| - 1]);
      forall i | |StripEnd(s)| <= i < |s| - 1 ensures IsSpace(s[i]) {
        assert s[..|s| - 1][i] == s[i];
      }
    }
  }

  /** The number of whitespace characters `str.strip()` removes from the front. */
  function LeadingSpaces(s: string): (n: nat)
    ensures n <= |s|
  {
    |s| - |StripStart(s)|
  }

  /** Python's `str.strip()`; `StripSlice` says what it keeps. */
  function Strip(s: string): (r: string)
    ensures |r| <= |s|
    ensures r != [] ==> !IsSpace(r[0]) && !IsSpace(r[|r| - 1])
  {
    StripStartSpec(s);
    StripEndSpec(StripStart(s));
    StripEnd(StripStart(s))
  }

  /** `str.strip()` is the slice of `s` between its leading and its trailing
      whitespace: everything before and after the slice is whitespace. */
  lemma StripSlice(s: string)
    ensures forall i :: 0 <= i < LeadingSpaces(s) ==> IsSpace(s[i])
    ensures LeadingSpaces(s) + |Strip(s)| <= |s|
    ensures Strip(s) == s[LeadingSpaces(s)..LeadingSpaces(s) + |Strip(s)|]
    ensures forall i :: LeadingSpaces(s) + |Strip(s)| <= i < |s| ==> IsSpace(s[i])
  {
    var t := StripStart(s);
    var r := StripEnd(t);
    var d := |s| - |t|;
    StripStartSpec(s);
    StripEndSpec(t);
    assert r == s[d..d + |r|];
    forall i | d + |r| <= i < |s| ensures IsSpace(s[i]) {
      assert t[i - d] == s[i];
    }
  }

  /** `str.strip()` gives the empty string exactly on all-whitespace input. */
  lemma {:induction false} StripEmpty(s: string)
    ensures Strip(s) == [] <==> forall i :: 0 <= i < |s| ==> IsSpace(s[i])
  {
    var n := LeadingSpaces(s);
    StripSlice(s);
    if Strip(s) != [] {
      assert Strip(s)[0] == s[n];
    }
  }

  predicate StartsWith(s: string, p: string) {
    |p| <= |s| && s[..|p|] == p
  }

  predicate EndsWith(s: string, p: string) {
    |p| <= |s| && s[|s| - |p|..] == p
  }

  /** `p` occurs in `s` at index `i`. */
  predicate OccursAt(s: string, p: string, i: int) {
    0 <= i && i + |p| <= |s| && s[i..i + |p|] == p
  }

  /** Python's `p in s`. */
  predicate Contains(s: string, p: string) {
    exists i | 0 <= i <= |s| - |p| :: OccursAt(s, p, i)
  }

  /** The first index at or after `from` that holds `c`. */
  function Find(s: string, c: char, from: nat): (r: Option<nat>)
    requires from <= |s|
    ensures r.Some? ==> from <= r.value < |s| && s[r.value] == c
    ensures r.Some? ==> forall i :: from <= i < r.value ==> s[i] != c
    ensures r.None? ==> forall i :: from <= i < |s| ==> s[i] != c
    decreases |s| - from
  {
    if from == |s| then None
    else if s[from] == c then Some(from)
    else Find(s, c, from + 1)
  }

  /** Python's `s.replace(pat, rep)` for a non-empty `pat`: the leftmost occurrence
      is replaced, and the scan resumes after it, so occurrences never overlap. */
  function Replace(s: string, pat: string, rep: string): string
    requires pat != []
    decreases |s|
  {
    if |s| < |pat| then s
    else if s[..|pat|] == pat then rep + Replace(s[|pat|..], pat, rep)
    else [s[0]] + Replace(s[1..], pat, rep)
  }

  /** Where `pat` does not occur, nothing is replaced. */
  lemma {:induction false} ReplaceAbsent(s: string, pat: string, rep: string)
    requires pat != []
    requires forall i :: !OccursAt(s, pat, i)
    ensures Replace(s, pat, rep) == s
    decreases |s|
  {
    if |s| >= |pat| {
      assert !OccursAt(s, pat, 0);
      forall i ensures !OccursAt(s[1..], pat, i) {
        if OccursAt(s[1..], pat, i) {
          assert s[1..][i..i + |pat|] == s[i + 1..i + 1 + |pat|];
          assert OccursAt(s, pat, i + 1);
        }
      }
      ReplaceAbsent(s[1..], pat, rep);
    }
  }

  /** No occurrence of `pat` in `x + y` starts inside `x` and ends inside `y`. */
  predicate NoStraddle(x: string, y: string, pat: string) {
    forall i :: 0 <= i < |x| < i + |pat| ==> !OccursAt(x + y, pat, i)
  }

  /** Dropping a prefix of the left part keeps the boundary free of occurrences. */
  lemma {:induction false} NoStraddleDrop(x: string, y: string, pat: string, d: nat)
    requires pat != [] && d <= |x|
    requires NoStraddle(x, y, pat)
    ensures NoStraddle(x[d..], y, pat)
  {
    assert (x + y)[d..] == x[d..] + y;
    forall i | 0 <= i < |x[d..]| < i + |pat|
      ensures !OccursAt(x[d..] + y, pat, i)
    {
      if i + |pat| <= |x[d..] + y| {
        assert (x[d..] + y)[i..i + |pat|] == (x + y)[i + d..i + d + |pat|];
        assert !OccursAt(x + y, pat, i + d);
      }
    }
  }

  /** Replacing in a concatenation replaces in each part, when no occurrence
      crosses the boundary. */
  lemma {:induction false} ReplaceConcat(x: string, y: string, pat: string, rep: string)
    requires pat != []
    requires NoStraddle(x, y, pat)
    ensures Replace(x + y, pat, rep) == Replace(x, pat, rep) + Replace(y, pat, rep)
    decreases |x|, 1
  {
    if x == [] {
      assert x + y == y;
    } else if |x| >= |pat| && x[..|pat|] == pat {
      ReplaceConcatAtMatch(x, y, pat, rep);
    } else {
      ReplaceConcatPastChar(x, y, pat, rep);
    }
  }

  lemma {:induction false} ReplaceConcatAtMatch(x: string, y: string, pat: string, rep: string)
    requires pat != [] && |x| >= |pat| && x[..|pat|] == pat
    requires NoStraddle(x, y, pat)
    ensures Replace(x + y, pat, rep) == Replace(x, pat, rep) + Replace(y, pat, rep)
    decreases |x|, 0
  {
    var n := |pat|;
    assert (x + y)[..n] == pat;
    assert (x + y)[n..] == x[n..] + y;
    NoStraddleDrop(x, y, pat, n);
    ReplaceConcat(x[n..], y, pat, rep);
  }

  lemma {:induction false} ReplaceConcatPastChar(x: string, y: string, pat: string, rep: string)
    requires pat != [] && x != [] && !(|x| >= |pat| && x[..|pat|] == pat)
    requires NoStraddle(x, y, pat)
    ensures Replace(x + y, pat, rep) == Replace(x, pat, rep) + Replace(y, pat, rep)
    decreases |x|, 0
  {
    var n := |pat|;
    if |x + y| < n {
      assert Replace(x, pat, rep) == x;
      assert Replace(y, pat, rep) == y;
    } else {
      if |x| < n {
        assert !OccursAt(x + y, pat, 0);
      } else {
        assert x[..n] == (x + y)[..n];
      }
      assert (x + y)[1..] == x[1..] + y;
      NoStraddleDrop(x, y, pat, 1);
      ReplaceConcat(x[1..], y, pat, rep);
      if |x| < n {
        assert Replace(x[1..], pat, rep) == x[1..];
      }
    }
  }

  /** No occurrence crosses the boundary when `y` begins with a character that `pat`
      holds at no position but its first. */
  lemma {:induction false} NoStraddleByFirstOfRight(x: string, y: string, pat: string)
    requires pat != [] && y != []
    requires forall k :: 1 <= k < |pat| ==> pat[k] != y[0]
    ensures NoStraddle(x, y, pat)
  {
    forall i | 0 <= i < |x| < i + |pat|
      ensures !OccursAt(x + y, pat, i)
    {
      if i + |pat| <= |x + y| {
        assert (x + y)[i..i + |pat|][|x| - i] == y[0];
      }
    }
  }

  /** No occurrence crosses the boundary when `x` ends with a character that `pat`
      does not hold. */
  lemma {:induction false} NoStraddleByLastOfLeft(x: string, y: string, pat: string)
    requires pat != [] && x != []
    requires forall k :: 0 <= k < |pat| ==> pat[k] != x[|x| - 1]
    ensures NoStraddle(x, y, pat)
  {
    forall i | 0 <= i < |x| < i + |pat|
      ensures !OccursAt(x + y, pat, i)
    {
      if i + |pat| <= |x + y| {
        assert (x + y)[i..i + |pat|][|x| - 1 - i] == x[|x| - 1];
      }
    }
  }

  /** No occurrence crosses the boundary when `x` is at least as long as `pat` and
      holds the first character of `pat` at no position but its first. */
  lemma {:induction false} NoStraddleByUniqueHead(x: string, y: string, pat: string)
    requires pat != [] && |x| >= |pat|
    requires forall k :: 1 <= k < |x| ==> x[k] != pat[0]
    ensures NoStraddle(x, y, pat)
  {
    forall i | 0 <= i < |x| < i + |pat|
      ensures !OccursAt(x + y, pat, i)
    {
      if i + |pat| <= |x + y| {
        assert (x + y)[i..i + |pat|][0] == x[i];
      }
    }
  }

  /** An occurrence in either part of a concatenation is an occurrence in the whole. */
  lemma {:induction false} OccursInConcat(a: string, b: string, p: string)
    ensures forall i :: OccursAt(a, p, i) ==> OccursAt(a + b, p, i)
    ensures forall i :: OccursAt(b, p, i) ==> OccursAt(a + b, p, |a| + i)
  {
    forall i | OccursAt(a, p, i) ensures OccursAt(a + b, p, i) {
      assert (a + b)[i..i + |p|] == a[i..i + |p|];
    }
    forall i | OccursAt(b, p, i) ensures OccursAt(a + b, p, |a| + i) {
      assert (a + b)[|a| + i..|a| + i + |p|] == b[i..i + |p|];
    }
  }

  function DigitChar(d: nat): (c: char)
    requires d < 10
    ensures '0' <= c <= '9'
  {
    (48 + d) as char
  }

  /** Python's `str(n)` for a natural number: the decimal numeral of `n`. */
  function NatToString(n: nat): (r: string)
    ensures |r| > 0
    ensures forall i :: 0 <= i < |r| ==> '0' <= r[i] <= '9'
    ensures n < 10 ==> r == [DigitChar(n)]
    decreases n
  {
    if n < 10 then [DigitChar(n)] else NatToString(n / 10) + [DigitChar(n % 10)]
  }

  /** `str(n)` denotes `n`. */
  lemma {:induction false} NatToStringValue(n: nat)
    ensures DecimalValue(NatToString(n)) == n
    decreases n
  {
    if n >= 10 {
      var r := NatToString(n);
      assert r[..|r| - 1] == NatToString(n / 10);
      NatToStringValue(n / 10);
    }
  }

  /** The number a string of decimal digits denotes, read left to right. */
  function DecimalValue(r: string): nat
    decreases |r|
  {
    if r == [] then 0 else 10 * DecimalValue(r[..|r| - 1]) + DigitValue(r[|r| - 1])
  }

  function DigitValue(c: char): nat {
    if '0' <= c <= '9' then c as nat - 48 else 0
  }

  /** Different numbers are written differently. */
  lemma NatToStringInjective(a: nat, b: nat)
    requires NatToString(a) == NatToString(b)
    ensures a == b
  {
    NatToStringValue(a);
    NatToStringValue(b);
  }

  /** Python's `sep.join(lines)` for a one-character separator. */
  function Join(lines: seq<string>, sep: char): string
    decreases |lines|
  {
    if |lines| == 0 then ""
    else if |lines| == 1 then lines[0]
    else lines[0] + [sep] + Join(lines[1..], sep)
  }

  /** Python's `s.split(sep)` for a one-character separator. */
  function Split(s: string, sep: char): (r: seq<string>)
    ensures |r| > 0
    decreases |s|
  {
    match Find(s, sep, 0)
    case None => [s]
    case Some(p) => [s[..p]] + Split(s[p + 1..], sep)
  }

  /** Splitting a join gives the lines back, when no line holds the separator. */
  lemma {:induction false} SplitJoin(lines: seq<string>, sep: char)
    requires |lines| > 0
    requires forall i, k :: 0 <= i < |lines| && 0 <= k < |lines[i]| ==> lines[i][k] != sep
    ensures Split(Join(lines, sep), sep) == lines
    decreases |lines|
  {
    var s := Join(lines, sep);
    if |lines| == 1 {
      assert Find(s, sep, 0) == None;
    } else {
      var h := lines[0];
      assert s == h + [sep] + Join(lines[1..], sep);
      assert s[|h|] == sep;
      assert forall k :: 0 <= k < |h| ==> s[k] != sep;
      assert Find(s, sep, 0) == Some(|h|);
      assert s[..|h|] == h;
      assert s[|h| + 1..] == Join(lines[1..], sep);
      SplitJoin(lines[1..], sep);
    }
  }

  /** Joining groups that are themselves joined equals joining all their lines. */
  lemma {:induction false} JoinOfJoins(groups: seq<seq<string>>, sep: char)
    requires forall i :: 0 <= i < |groups| ==> |groups[i]| > 0
    ensures Join(seq(|groups|, i requires 0 <= i < |groups| => Join(groups[i], sep)), sep)
         == Join(Flatten(groups), sep)
    decreases |groups|
  {
    var joined := seq(|groups|, i requires 0 <= i < |groups| => Join(groups[i], sep));
    if |groups| == 0 {
    } else if |groups| == 1 {
      assert Flatten(groups) == groups[0] + Flatten(groups[1..]);
      assert Flatten(groups[1..]) == [];
      assert groups[0] + [] == groups[0];
    } else {
      var rest := seq(|groups| - 1, i requires 0 <= i < |groups| - 1 => Join(groups[1..][i], sep));
      assert joined[1..] == rest;
      JoinOfJoins(groups[1..], sep);
      assert Flatten(groups) == groups[0] + Flatten(groups[1..]);
      assert |Flatten(groups[1..])| > 0 by {
        assert Flatten(groups[1..]) == groups[1] + Flatten(groups[2..]);
      }
      JoinAppend(groups[0], Flatten(groups[1..]), sep);
    }
  }

  /** Joining two non-empty line lists puts one separator between their joins. */
  lemma {:induction false} JoinAppend(a: seq<string>, b: seq<string>, sep: char)
    requires |a| > 0 && |b| > 0
    ensures Join(a + b, sep) == Join(a, sep) + [sep] + Join(b, sep)
    decreases |a|
  {
    if |a| == 1 {
      assert (a + b)[1..] == b;
    } else {
      assert (a + b)[1..] == a[1..] + b;
      JoinAppend(a[1..], b, sep);
    }
  }

  function Flatten<T>(groups: seq<seq<T>>): (r: seq<T>)
    decreases |groups|
  {
    if |groups| == 0 then [] else groups[0] + Flatten(groups[1..])
  }

  /** Text put before a join goes into its first line. */
  lemma {:induction false} JoinPrefix(p: string, lines: seq<string>, sep: char)
    requires |lines| > 0
    ensures p + Join(lines, sep) == Join([p + lines[0]] + lines[1..], sep)
  {
    var moved := [p + lines[0]] + lines[1..];
    assert moved[0] == p + lines[0] && moved[1..] == lines[1..];
    if |lines| > 1 {
      assert p + (lines[0] + [sep] + Join(lines[1..], sep)) == (p + lines[0]) + [sep] + Join(lines[1..], sep);
    }
  }

  /** Text put after a join goes into its last line. */
  lemma {:induction false} JoinSuffix(lines: seq<string>, x: string, sep: char)
    requires |lines| > 0
    ensures Join(lines, sep) + x == Join(lines[..|lines| - 1] + [lines[|lines| - 1] + x], sep)
  {
    var init, last := lines[..|lines| - 1], lines[|lines| - 1];
    if |lines| == 1 {
      assert init + [last + x] == [last + x];
    } else {
      assert lines == init + [last];
      JoinAppend(init, [last], sep);
      JoinAppend(init, [last + x], sep);
      assert Join(init, sep) + [sep] + last + x == Join(init, sep) + [sep] + (last + x);
    }
  }

  /** Flattening a concatenation flattens each part. */
  lemma {:induction false} FlattenAppend<T>(a: seq<seq<T>>, b: seq<seq<T>>)
    ensures Flatten(a + b) == Flatten(a) + Flatten(b)
    decreases |a|
  {
    if |a| == 0 {
      assert a + b == b;
    } else {
      assert (a + b)[0] == a[0] && (a + b)[1..] == a[1..] + b;
      FlattenAppend(a[1..], b);
      AppendAssoc(a[0], Flatten(a[1..]), Flatten(b));
    }
  }

  /** Each element as a group of its own. */
  function Singles<T>(xs: seq<T>): (r: seq<seq<T>>)
    ensures |r| == |xs|
  {
    seq(|xs|, i requires 0 <= i < |xs| => [xs[i]])
  }

  lemma {:induction false} FlattenSingles<T>(xs: seq<T>)
    ensures Flatten(Singles(xs)) == xs
    decreases |xs|
  {
    if |xs| > 0 {
      assert Singles(xs)[1..] == Singles(xs[1..]);
      FlattenSingles(xs[1..]);
      assert xs == [xs[0]] + xs[1..];
    }
  }

  /** Every element of a flattening sits in one of the groups. */
  lemma {:induction false} FlattenMember<T>(groups: seq<seq<T>>, k: nat)
    requires k < |Flatten(groups)|
    ensures exists i, j :: 0 <= i < |groups| && 0 <= j < |groups[i]| && Flatten(groups)[k] == groups[i][j]
    decreases |groups|
  {
    if k < |groups[0]| {
      assert Flatten(groups)[k] == groups[0][k];
    } else {
      FlattenMember(groups[1..], k - |groups[0]|);
      var i, j :| 0 <= i < |groups[1..]| && 0 <= j < |groups[1..][i]| && Flatten(groups[1..])[k - |groups[0]|] == groups[1..][i][j];
      assert Flatten(groups)[k] == groups[i + 1][j];
    }
  }

  /** The last element of a flattening is the last element of the last group. */
  lemma {:induction false} FlattenLast<T>(groups: seq<seq<T>>)
    requires groups != [] && groups[|groups| - 1] != []
    ensures |Flatten(groups)| > 0
    ensures Flatten(groups)[|Flatten(groups)| - 1] == groups[|groups| - 1][|groups[|groups| - 1]| - 1]
  {
    var init, last := groups[..|groups| - 1], groups[|groups| - 1];
    InitLast(groups);
    FlattenAppend(init, [last]);
    assert Flatten([last]) == last + Flatten([last][1..]);
    assert [last][1..] == [];
    assert last + [] == last;
  }

  // ------------------------------------------------------------ split pieces

  /** The first piece of a split is the text up to the first separator. */
  lemma SplitFirst(s: string, sep: char)
    ensures var f := Split(s, sep)[0];
            && |f| <= |s| && s[..|f|] == f && sep !in f
            && (|f| < |s| ==> s[|f|] == sep)
  {
    match Find(s, sep, 0)
    case None =>
      assert Split(s, sep)[0] == s;
      assert s[..|s|] == s;
    case Some(p) =>
      assert Split(s, sep)[0] == s[..p];
      assert forall k :: 0 <= k < p ==> s[..p][k] == s[k];
  }

  /** The last piece of a split is the text after the last separator. */
  lemma {:induction false} SplitLast(s: string, sep: char)
    ensures var r := Split(s, sep); var l := r[|r| - 1];
            && |l| <= |s| && s[|s| - |l|..] == l && sep !in l
            && (|l| < |s| ==> s[|s| - |l| - 1] == sep)
    decreases |s|
  {
    match Find(s, sep, 0)
    case None =>
      assert Split(s, sep) == [s];
      assert s[0..] == s;
    case Some(p) =>
      var rest := s[p + 1..];
      SplitLast(rest, sep);
      var r := Split(rest, sep);
      assert Split(s, sep) == [s[..p]] + r;
      var l := r[|r| - 1];
      assert s[|s| - |l|..] == rest[|rest| - |l|..];
      if |l| < |rest| {
        assert s[|s| - |l| - 1] == rest[|rest| - |l| - 1];
      }
  }

  /** Two prefixes of `s` that hold no separator and stop at a separator, or at
      the end of `s`, are the same prefix. */
  lemma SamePiece(f: string, h: string, s: string, sep: char)
    requires |f| <= |s| && s[..|f|] == f && sep !in f && (|f| < |s| ==> s[|f|] == sep)
    requires |h| <= |s| && s[..|h|] == h && sep !in h && (|h| < |s| ==> s[|h|] == sep)
    ensures f == h
  {
    assert forall k :: 0 <= k < |f| ==> s[k] in f;
    assert forall k :: 0 <= k < |h| ==> s[k] in h;
  }

  /** Two suffixes of `s` that hold no separator and start after a separator,
      or at the start of `s`, are the same suffix. */
  lemma SameSuffixPiece(f: string, h: string, s: string, sep: char)
    requires |f| <= |s| && s[|s| - |f|..] == f && sep !in f && (|f| < |s| ==> s[|s| - |f| - 1] == sep)
    requires |h| <= |s| && s[|s| - |h|..] == h && sep !in h && (|h| < |s| ==> s[|s| - |h| - 1] == sep)
    ensures f == h
  {
    assert forall k :: |s| - |f| <= k < |s| ==> s[k] in f;
    assert forall k :: |s| - |h| <= k < |s| ==> s[k] in h;
  }

  /** Split at the separator, a join of two or more lines starts with its first
      line when that line holds no separator. */
  lemma SplitFirstLine(lines: seq<string>, sep: char)
    requires |lines| > 1 && sep !in lines[0]
    ensures Split(Join(lines, sep), sep)[0] == lines[0]
  {
    var s, h := Join(lines, sep), lines[0];
    assert s == h + [sep] + Join(lines[1..], sep);
    SplitFirst(s, sep);
    var f := Split(s, sep)[0];
    assert s[..|h|] == h;
    SamePiece(s[..|f|], s[..|h|], s, sep);
  }

  /** Split at the separator, a join of two or more lines ends with its last
      line when that line holds no separator. */
  lemma SplitLastLine(lines: seq<string>, sep: char)
    requires |lines| > 1 && sep !in lines[|lines| - 1]
    ensures var r := Split(Join(lines, sep), sep); r[|r| - 1] == lines[|lines| - 1]
  {
    var init, t := lines[..|lines| - 1], lines[|lines| - 1];
    assert lines == init + [t];
    JoinAppend(init, [t], sep);
    var s := Join(lines, sep);
    assert s == Join(init, sep) + [sep] + t;
    SplitLast(s, sep);
    var r := Split(s, sep);
    var l := r[|r| - 1];
    assert s[|s| - |t|..] == t;
    SameSuffixPiece(l, t, s, sep);
  }

  /** Split at the separator, a join starts with its first line's first
      character and ends with its last line's last character, when neither is
      the separator. */
  lemma JoinSplitEnds(lines: seq<string>, sep: char, a: char, z: char)
    requires |lines| > 0 && lines[0] != [] && lines[|lines| - 1] != []
    requires lines[0][0] == a && lines[|lines| - 1][|lines[|lines| - 1]| - 1] == z
    requires a != sep && z != sep
    ensures var r := Split(Join(lines, sep), sep);
            && r[0] != [] && r[0][0] == a
            && r[|r| - 1] != [] && r[|r| - 1][|r[|r| - 1]| - 1] == z
  {
    JoinFirstChar(lines, sep);
    JoinLastChar(lines, sep);
    SplitFirstChar(Join(lines, sep), sep);
    SplitLastChar(Join(lines, sep), sep);
  }

  /** A text that does not start with the separator has a first piece starting
      with the same character. */
  lemma SplitFirstChar(s: string, sep: char)
    requires s != [] && s[0] != sep
    ensures Split(s, sep)[0] != [] && Split(s, sep)[0][0] == s[0]
  {
    SplitFirst(s, sep);
  }

  /** A text that does not end with the separator has a last piece ending with
      the same character. */
  lemma SplitLastChar(s: string, sep: char)
    requires s != [] && s[|s| - 1] != sep
    ensures var r := Split(s, sep); r[|r| - 1] != [] && r[|r| - 1][|r[|r| - 1]| - 1] == s[|s| - 1]
  {
    SplitLast(s, sep);
  }

  /** A join starts with the first character of its first line. */
  lemma JoinFirstChar(lines: seq<string>, sep: char)
    requires |lines| > 0 && lines[0] != []
    ensures Join(lines, sep) != [] && Join(lines, sep)[0] == lines[0][0]
  {
    if |lines| > 1 {
      assert Join(lines, sep) == lines[0] + [sep] + Join(lines[1..], sep);
    }
  }

  /** A join ends with the last character of its last line. */
  lemma JoinLastChar(lines: seq<string>, sep: char)
    requires |lines| > 0 && lines[|lines| - 1] != []
    ensures var s, t := Join(lines, sep), lines[|lines| - 1]; s != [] && s[|s| - 1] == t[|t| - 1]
  {
    if |lines| > 1 {
      var init, t := lines[..|lines| - 1], lines[|lines| - 1];
      assert lines == init + [t];
      JoinAppend(init, [t], sep);
    }
  }
}
