/** The placeholder shield of the translator: `process_text` replaces every match of
    `\{[^}]+\}` with `PLACEHOLDER_<i>` and records the matched tokens in order; the
    restore loop of `translate_nested_content` puts them back with `str.replace`,
    one index at a time. */
module Placeholders {
  import opened Options
  import opened Text

  const MarkerPrefix: string := "PLACEHOLDER_"

  /** The marker written for the token with index `i`. */
  function Marker(i: nat): string {
    MarkerPrefix + NatToString(i)
  }

  /** A whole match of `\{[^}]+\}`: a brace, at least one character that is not a
      closing brace, and a closing brace. */
  predicate IsToken(t: string) {
    && |t| >= 3
    && t[0] == '{'
    && t[|t| - 1] == '}'
    && forall k :: 0 < k < |t| - 1 ==> t[k] != '}'
  }

  /** The end of the match of `\{[^}]+\}` that starts at index `i`, if any. The
      pattern is deterministic: `[^}]+` runs to the first closing brace, so the
      match at `i` is the one token that starts there. */
  function MatchAt(s: string, i: nat): (r: Option<nat>)
    requires i <= |s|
    ensures r.Some? ==> i < r.value <= |s| && IsToken(s[i..r.value])
  {
    if i + 1 < |s| && s[i] == '{' && s[i + 1] != '}' then
      match Find(s, '}', i + 1)
      case Some(q) => Some(q + 1)
      case None => None
    else
      None
  }

  /** A token that starts at `i` is the match there: the pattern cannot end at any
      other closing brace. */
  lemma MatchAtUnique(s: string, i: nat, e: nat)
    requires i < e <= |s| && IsToken(s[i..e])
    ensures MatchAt(s, i) == Some(e)
  {
    var t := s[i..e];
    assert s[i] == t[0] && s[i + 1] == t[1];
    assert s[e - 1] == t[|t| - 1];
    assert forall k :: i + 1 <= k < e - 1 ==> s[k] == t[k - i];
  }

  /** How `re.sub` cuts a text: the text between matches (`segments`) and the
      matches themselves (`tokens`), left to right. */
  datatype Scanned = Scanned(segments: seq<string>, tokens: seq<string>)

  function ScanFrom(s: string, i: nat): (r: Scanned)
    requires i <= |s|
    ensures |r.segments| == |r.tokens| + 1
    decreases |s| - i
  {
    if i == |s| then Scanned([""], [])
    else
      match MatchAt(s, i)
      case Some(e) =>
        var rest := ScanFrom(s, e);
        Scanned([""] + rest.segments, [s[i..e]] + rest.tokens)
      case None =>
        var rest := ScanFrom(s, i + 1);
        Scanned([[s[i]] + rest.segments[0]] + rest.segments[1..], rest.tokens)
  }

  function Scan(s: string): (r: Scanned)
    ensures |r.segments| == |r.tokens| + 1
  {
    ScanFrom(s, 0)
  }

  /** The segments with the fills put between them: `segments[0] + fills[0] +
      segments[1] + ...`. */
  function Weave(segments: seq<string>, fills: seq<string>): string
    requires |segments| == |fills| + 1
    decreases |fills|
  {
    if fills == [] then segments[0]
    else segments[0] + fills[0] + Weave(segments[1..], fills[1..])
  }

  /** The markers for indexes `lo`, ..., `lo + n - 1`. */
  function Markers(lo: nat, n: nat): (r: seq<string>)
    ensures |r| == n
  {
    seq(n, k requires 0 <= k < n => Marker(lo + k))
  }

  /** The masked rest of `s` from index `i`, its markers numbered from `n`. */
  function MaskedFrom(s: string, i: nat, n: nat): string
    requires i <= |s|
  {
    var sc := ScanFrom(s, i);
    Weave(sc.segments, Markers(n, |sc.tokens|))
  }

  /** The text `process_text` returns: every token replaced by its marker. */
  function Masked(s: string): string {
    MaskedFrom(s, 0, 0)
  }

  lemma {:induction false} WeaveConsChar(c: char, segments: seq<string>, fills: seq<string>)
    requires |segments| == |fills| + 1
    ensures Weave([[c] + segments[0]] + segments[1..], fills) == [c] + Weave(segments, fills)
  {
    var segs' := [[c] + segments[0]] + segments[1..];
    if fills != [] {
      assert segs'[1..] == segments[1..];
    }
  }

  lemma {:induction false} ScanTokenStep(s: string, i: nat, e: nat, n: nat)
    requires i < |s| && MatchAt(s, i) == Some(e)
    ensures ScanFrom(s, i).tokens == [s[i..e]] + ScanFrom(s, e).tokens
    ensures MaskedFrom(s, i, n) == Marker(n) + MaskedFrom(s, e, n + 1)
  {
    var rest, next := ScanFrom(s, i), ScanFrom(s, e);
    assert Markers(n, |rest.tokens|)[1..] == Markers(n + 1, |next.tokens|);
    assert rest.segments[1..] == next.segments;
  }

  lemma {:induction false} ScanCharStep(s: string, i: nat, n: nat)
    requires i < |s| && MatchAt(s, i).None?
    ensures ScanFrom(s, i).tokens == ScanFrom(s, i + 1).tokens
    ensures MaskedFrom(s, i, n) == [s[i]] + MaskedFrom(s, i + 1, n)
  {
    var next := ScanFrom(s, i + 1);
    WeaveConsChar(s[i], next.segments, Markers(n, |next.tokens|));
  }

  /** `process_text`: scans left to right, replaces the i-th token by
      `PLACEHOLDER_i` and records the token. */
  method ProcessText(text: string) returns (processed: string, placeholders: seq<string>)
    ensures processed == Masked(text)
    ensures placeholders == Scan(text).tokens
  {
    processed, placeholders := "", [];
    var i := 0;
    while i < |text|
      invariant i <= |text|
      invariant placeholders + ScanFrom(text, i).tokens == Scan(text).tokens
      invariant processed + MaskedFrom(text, i, |placeholders|) == Masked(text)
      decreases |text| - i
    {
      match MatchAt(text, i)
      case Some(e) =>
        ScanTokenStep(text, i, e, |placeholders|);
        ghost var n := |placeholders|;
        assert (placeholders + [text[i..e]]) + ScanFrom(text, e).tokens == placeholders + ScanFrom(text, i).tokens;
        assert (processed + Marker(n)) + MaskedFrom(text, e, n + 1) == processed + MaskedFrom(text, i, n);
        processed := processed + Marker(|placeholders|);
        placeholders := placeholders + [text[i..e]];
        i := e;
      case None =>
        ScanCharStep(text, i, |placeholders|);
        assert (processed + [text[i]]) + MaskedFrom(text, i + 1, |placeholders|) == processed + MaskedFrom(text, i, |placeholders|);
        processed := processed + [text[i]];
        i := i + 1;
    }
    assert MaskedFrom(text, i, |placeholders|) == "";
  }

  /** Weaving the tokens back between the segments gives the text scanned. */
  lemma {:induction false} ScanFromReassembles(s: string, i: nat)
    requires i <= |s|
    ensures Weave(ScanFrom(s, i).segments, ScanFrom(s, i).tokens) == s[i..]
    decreases |s| - i
  {
    if i < |s| {
      match MatchAt(s, i)
      case Some(e) =>
        ScanFromReassembles(s, e);
        var rest := ScanFrom(s, e);
        assert ([""] + rest.segments)[1..] == rest.segments;
        assert s[i..] == s[i..e] + s[e..];
      case None =>
        var rest := ScanFrom(s, i + 1);
        ScanFromReassembles(s, i + 1);
        WeaveConsChar(s[i], rest.segments, rest.tokens);
        assert s[i..] == [s[i]] + s[i + 1..];
    }
  }

  lemma {:induction false} ScanFromTokens(s: string, i: nat)
    requires i <= |s|
    ensures forall k :: 0 <= k < |ScanFrom(s, i).tokens| ==> IsToken(ScanFrom(s, i).tokens[k])
    decreases |s| - i
  {
    if i < |s| {
      match MatchAt(s, i)
      case Some(e) =>
        ScanFromTokens(s, e);
      case None =>
        ScanFromTokens(s, i + 1);
    }
  }

  /** The scan is leftmost: the first segment runs exactly up to the first index
      where the pattern matches, and the first token is that match. */
  lemma {:induction false} ScanFromFirst(s: string, i: nat)
    requires i <= |s|
    ensures var sc := ScanFrom(s, i);
      && i + |sc.segments[0]| <= |s|
      && (forall p :: i <= p < i + |sc.segments[0]| ==> MatchAt(s, p).None?)
      && (sc.tokens == [] ==> i + |sc.segments[0]| == |s|)
      && (sc.tokens != [] ==>
            MatchAt(s, i + |sc.segments[0]|) == Some(i + |sc.segments[0]| + |sc.tokens[0]|))
    decreases |s| - i
  {
    if i < |s| {
      match MatchAt(s, i)
      case Some(e) =>
        ScanFirstToken(s, i, e);
        var sc := ScanFrom(s, i);
        assert i + |sc.segments[0]| == i && i + |sc.segments[0]| + |sc.tokens[0]| == e;
      case None =>
        ScanFromFirst(s, i + 1);
        ScanFirstChar(s, i);
        var sc, rest := ScanFrom(s, i), ScanFrom(s, i + 1);
        assert i + |sc.segments[0]| == i + 1 + |rest.segments[0]|;
        forall p | i <= p < i + |sc.segments[0]| ensures MatchAt(s, p).None? {
          if p > i {
            assert i + 1 <= p < i + 1 + |rest.segments[0]|;
          }
        }
    }
  }

  lemma {:induction false} ScanFirstToken(s: string, i: nat, e: nat)
    requires i < |s| && MatchAt(s, i) == Some(e)
    ensures ScanFrom(s, i).segments[0] == ""
    ensures ScanFrom(s, i).tokens != [] && ScanFrom(s, i).tokens[0] == s[i..e]
  {
  }

  lemma {:induction false} ScanFirstChar(s: string, i: nat)
    requires i < |s| && MatchAt(s, i).None?
    ensures |ScanFrom(s, i).segments[0]| == 1 + |ScanFrom(s, i + 1).segments[0]|
    ensures ScanFrom(s, i).tokens == ScanFrom(s, i + 1).tokens
  {
  }

  /** Where segment `k` starts, counted from the start of the scan. */
  function Offset(sc: Scanned, k: nat): nat
    requires |sc.segments| == |sc.tokens| + 1 && k <= |sc.tokens|
  {
    if k == 0 then 0 else Offset(sc, k - 1) + |sc.segments[k - 1]| + |sc.tokens[k - 1]|
  }

  /** After its first segment and token, a scan goes on as a fresh scan from the
      end of that token. */
  lemma {:induction false} ScanFromRest(s: string, i: nat)
    requires i <= |s|
    ensures var sc := ScanFrom(s, i);
      sc.tokens != [] ==>
        && i + |sc.segments[0]| + |sc.tokens[0]| <= |s|
        && ScanFrom(s, i + |sc.segments[0]| + |sc.tokens[0]|) == Scanned(sc.segments[1..], sc.tokens[1..])
    decreases |s| - i
  {
    if i < |s| {
      var sc := ScanFrom(s, i);
      match MatchAt(s, i)
      case Some(e) =>
        var rest := ScanFrom(s, e);
        assert sc == Scanned([""] + rest.segments, [s[i..e]] + rest.tokens);
        assert sc.segments[1..] == rest.segments && sc.tokens[1..] == rest.tokens;
      case None =>
        var rest := ScanFrom(s, i + 1);
        ScanFromRest(s, i + 1);
        assert sc == Scanned([[s[i]] + rest.segments[0]] + rest.segments[1..], rest.tokens);
        assert sc.segments[1..] == rest.segments[1..];
    }
  }

  /** Scanning from where segment `k` starts gives the segments and tokens from
      `k` on. */
  lemma {:induction false} ScanAt(s: string, k: nat)
    requires k <= |Scan(s).tokens|
    ensures Offset(Scan(s), k) <= |s|
    ensures ScanFrom(s, Offset(Scan(s), k)) == Scanned(Scan(s).segments[k..], Scan(s).tokens[k..])
  {
    var sc := Scan(s);
    if k == 0 {
      assert sc.segments[0..] == sc.segments && sc.tokens[0..] == sc.tokens;
    } else {
      ScanAt(s, k - 1);
      var o := Offset(sc, k - 1);
      ScanFromRest(s, o);
      assert sc.segments[k - 1..][1..] == sc.segments[k..];
      assert sc.tokens[k - 1..][1..] == sc.tokens[k..];
    }
  }

  /** Segment `k` of a scan of `s` holds no start of a match, token `k` is the
      match where that segment ends, and the last segment runs to the end of
      `s`. */
  predicate SegmentLeftmost(s: string, sc: Scanned, k: nat)
    requires |sc.segments| == |sc.tokens| + 1 && k < |sc.segments|
  {
    var o := Offset(sc, k);
    var e := o + |sc.segments[k]|;
    && e <= |s|
    && (forall p :: o <= p < e ==> MatchAt(s, p).None?)
    && (k < |sc.tokens| ==> MatchAt(s, e) == Some(e + |sc.tokens[k]|))
    && (k == |sc.tokens| ==> e == |s|)
  }

  /** Every segment of the scan is leftmost in the sense above. */
  predicate Leftmost(s: string, sc: Scanned)
    requires |sc.segments| == |sc.tokens| + 1
  {
    forall k :: 0 <= k < |sc.segments| ==> SegmentLeftmost(s, sc, k)
  }

  lemma {:induction false} ScanSegment(s: string, k: nat)
    requires k <= |Scan(s).tokens|
    ensures SegmentLeftmost(s, Scan(s), k)
  {
    ScanAt(s, k);
    ScanFromFirst(s, Offset(Scan(s), k));
  }

  /** The scan is leftmost throughout. */
  lemma ScanLeftmost(text: string)
    ensures Leftmost(text, Scan(text))
  {
    var sc := Scan(text);
    forall k | 0 <= k < |sc.segments| ensures SegmentLeftmost(text, sc, k) {
      ScanSegment(text, k);
    }
  }

  /** `process_text` (translate.py:40-50) splits its input into segments and tokens
      that weave back into the input; every token is a match of `\{[^}]+\}`, the
      scan is leftmost throughout, and the masked text holds `PLACEHOLDER_0` ...
      `PLACEHOLDER_{k-1}` in the tokens' places. */
  lemma ProcessTextShape(text: string)
    ensures var sc := Scan(text);
      && Weave(sc.segments, sc.tokens) == text
      && Masked(text) == Weave(sc.segments, Markers(0, |sc.tokens|))
      && (forall k :: 0 <= k < |sc.tokens| ==> IsToken(sc.tokens[k]))
      && Leftmost(text, sc)
  {
    ScanFromReassembles(text, 0);
    ScanFromTokens(text, 0);
    ScanLeftmost(text);
  }

  /** A text with no match of the pattern is returned unchanged with no
      placeholders, and only such a text. */
  lemma NoTokenUnchanged(text: string)
    ensures Scan(text).tokens == [] <==> forall p :: 0 <= p < |text| ==> MatchAt(text, p).None?
    ensures Scan(text).tokens == [] ==> Masked(text) == text
  {
    ScanFromFirst(text, 0);
    ScanFromReassembles(text, 0);
    var sc := Scan(text);
    if sc.tokens != [] {
      assert MatchAt(text, |sc.segments[0]|).Some?;
    }
  }

  /** The text after restoring the markers with indexes below `n`, each with one
      `str.replace` over the whole text, in index order. */
  function Restored(translated: string, placeholders: seq<string>, n: nat): string
    requires n <= |placeholders|
    decreases n
  {
    if n == 0 then translated
    else Replace(Restored(translated, placeholders, n - 1), Marker(n - 1), placeholders[n - 1])
  }

  function Restore(translated: string, placeholders: seq<string>): string {
    Restored(translated, placeholders, |placeholders|)
  }

  /** The restore loop of `translate_nested_content` (translate.py:137-139). */
  method RestorePlaceholders(translated: string, placeholders: seq<string>) returns (r: string)
    ensures r == Restore(translated, placeholders)
  {
    r := translated;
    for i := 0 to |placeholders|
      invariant r == Restored(translated, placeholders, i)
    {
      r := Replace(r, Marker(i), placeholders[i]);
    }
  }

  /** No `PLACEHOLDER_` anywhere in `s`. */
  ghost predicate FreeOfMarkers(s: string) {
    forall i :: !OccursAt(s, MarkerPrefix, i)
  }

  /** A translation that lost every marker comes back unchanged: restoring is
      best effort and never fails. */
  lemma {:induction false} RestoreWithoutMarkers(translated: string, placeholders: seq<string>, n: nat)
    requires n <= |placeholders|
    requires FreeOfMarkers(translated)
    ensures Restored(translated, placeholders, n) == translated
  {
    if n > 0 {
      RestoreWithoutMarkers(translated, placeholders, n - 1);
      MarkerAbsent(translated, Marker(n - 1));
      ReplaceAbsent(translated, Marker(n - 1), placeholders[n - 1]);
    }
  }

  /** A marker with a one-digit index: `PLACEHOLDER_` and a digit. */
  predicate IsShortMarker(f: string) {
    |f| == |MarkerPrefix| + 1 && f[..|MarkerPrefix|] == MarkerPrefix && '0' <= f[|MarkerPrefix|] <= '9'
  }

  lemma ShortMarker(j: nat)
    requires j < 10
    ensures IsShortMarker(Marker(j))
    ensures Marker(j)[|MarkerPrefix|] == DigitChar(j)
  {
  }

  lemma PrefixChars()
    ensures MarkerPrefix[0] == 'P'
    ensures forall k :: 1 <= k < |MarkerPrefix| ==> MarkerPrefix[k] != 'P'
    ensures forall k :: 0 <= k < |MarkerPrefix| ==> MarkerPrefix[k] != '{' && MarkerPrefix[k] != '}'
  {
  }

  /** What may stand between two segments while markers are being restored. */
  ghost predicate Fillable(f: string) {
    IsShortMarker(f) || (IsToken(f) && FreeOfMarkers(f))
  }

  function Subst(fills: seq<string>, pat: string, rep: string): (r: seq<string>)
    ensures |r| == |fills|
  {
    seq(|fills|, k requires 0 <= k < |fills| => if fills[k] == pat then rep else fills[k])
  }

  /** A text free of `PLACEHOLDER_` holds no string that starts with it. */
  lemma {:induction false} MarkerAbsent(s: string, m: string)
    requires FreeOfMarkers(s)
    requires |m| >= |MarkerPrefix| && m[..|MarkerPrefix|] == MarkerPrefix
    ensures forall i :: !OccursAt(s, m, i)
  {
    forall i ensures !OccursAt(s, m, i) {
      if 0 <= i && i + |m| <= |s| {
        assert s[i..i + |m|][..|MarkerPrefix|] == s[i..i + |MarkerPrefix|];
        assert !OccursAt(s, MarkerPrefix, i);
      }
    }
  }

  lemma {:induction false} ReplaceInFree(s: string, pat: string, rep: string)
    requires IsShortMarker(pat) && FreeOfMarkers(s)
    ensures Replace(s, pat, rep) == s
  {
    MarkerAbsent(s, pat);
    ReplaceAbsent(s, pat, rep);
  }

  lemma {:induction false} ReplaceInFill(f: string, pat: string, rep: string)
    requires IsShortMarker(pat) && Fillable(f)
    ensures Replace(f, pat, rep) == if f == pat then rep else f
  {
    if f == pat {
      assert f[..|pat|] == pat;
      assert f[|pat|..] == "";
    } else if IsShortMarker(f) {
      forall i ensures !OccursAt(f, pat, i) {
        if 0 <= i && i + |pat| <= |f| {
          assert i == 0 && f[i..i + |pat|] == f;
        }
      }
    } else {
      ReplaceInFree(f, pat, rep);
    }
  }

  /** No occurrence of a short marker crosses the edges of a fill. */
  lemma {:induction false} FillEdges(seg: string, f: string, w: string, pat: string)
    requires IsShortMarker(pat) && Fillable(f)
    ensures NoStraddle(seg, f + w, pat)
    ensures NoStraddle(f, w, pat)
  {
    PrefixChars();
    assert pat[0] == 'P';
    assert forall k :: 0 <= k < |MarkerPrefix| ==> pat[k] == MarkerPrefix[k];
    assert forall k :: 1 <= k < |pat| ==> pat[k] != 'P' && pat[k] != '{';
    assert forall k :: 0 <= k < |pat| ==> pat[k] != '}';
    NoStraddleByFirstOfRight(seg, f + w, pat);
    if IsShortMarker(f) {
      assert forall k :: 0 <= k < |MarkerPrefix| ==> f[k] == MarkerPrefix[k];
      NoStraddleByUniqueHead(f, w, pat);
    } else {
      NoStraddleByLastOfLeft(f, w, pat);
    }
  }

  /** One `str.replace` of a short marker over a woven text replaces exactly the
      fills equal to that marker. */
  lemma {:induction false} ReplaceWeave(segments: seq<string>, fills: seq<string>, pat: string, rep: string)
    requires |segments| == |fills| + 1
    requires IsShortMarker(pat)
    requires forall k :: 0 <= k < |segments| ==> FreeOfMarkers(segments[k])
    requires forall k :: 0 <= k < |fills| ==> Fillable(fills[k])
    ensures Replace(Weave(segments, fills), pat, rep) == Weave(segments, Subst(fills, pat, rep))
    decreases |fills|
  {
    if fills == [] {
      ReplaceInFree(segments[0], pat, rep);
    } else {
      var w := Weave(segments[1..], fills[1..]);
      ReplaceWeave(segments[1..], fills[1..], pat, rep);
      ReplaceWeaveHead(segments[0], fills[0], w, pat, rep);
      var subst := Subst(fills, pat, rep);
      assert subst[1..] == Subst(fills[1..], pat, rep);
      WeaveCons(segments, subst);
      WeaveCons(segments, fills);
    }
  }

  lemma {:induction false} WeaveCons(segments: seq<string>, fills: seq<string>)
    requires |segments| == |fills| + 1 && fills != []
    ensures Weave(segments, fills) == segments[0] + (fills[0] + Weave(segments[1..], fills[1..]))
  {
    var a, b, c := segments[0], fills[0], Weave(segments[1..], fills[1..]);
    assert (a + b) + c == a + (b + c);
  }

  /** One `str.replace` over a segment, a fill and the rest of the text. */
  lemma {:induction false} ReplaceWeaveHead(seg: string, f: string, w: string, pat: string, rep: string)
    requires IsShortMarker(pat) && FreeOfMarkers(seg) && Fillable(f)
    ensures Replace(seg + (f + w), pat, rep) == seg + ((if f == pat then rep else f) + Replace(w, pat, rep))
  {
    ReplaceInFree(seg, pat, rep);
    FillEdges(seg, f, w, pat);
    ReplaceConcat(seg, f + w, pat, rep);
    ReplaceConcat(f, w, pat, rep);
    ReplaceInFill(f, pat, rep);
  }

  /** A part of a text free of `PLACEHOLDER_` is free of it too. */
  lemma {:induction false} WeavePartsFree(segments: seq<string>, fills: seq<string>)
    requires |segments| == |fills| + 1
    requires FreeOfMarkers(Weave(segments, fills))
    ensures forall k :: 0 <= k < |segments| ==> FreeOfMarkers(segments[k])
    ensures forall k :: 0 <= k < |fills| ==> FreeOfMarkers(fills[k])
    decreases |fills|
  {
    if fills != [] {
      var w := Weave(segments[1..], fills[1..]);
      OccursInConcat(segments[0] + fills[0], w, MarkerPrefix);
      OccursInConcat(segments[0], fills[0], MarkerPrefix);
      WeavePartsFree(segments[1..], fills[1..]);
      forall k | 1 <= k < |segments| ensures FreeOfMarkers(segments[k]) {
        assert segments[k] == segments[1..][k - 1];
      }
      forall k | 1 <= k < |fills| ensures FreeOfMarkers(fills[k]) {
        assert fills[k] == fills[1..][k - 1];
      }
    }
  }

  /** The fills after restoring the markers below `j`. */
  function Progress(tokens: seq<string>, j: nat): (r: seq<string>)
    requires j <= |tokens|
    ensures |r| == |tokens|
  {
    tokens[..j] + Markers(j, |tokens| - j)
  }

  lemma {:induction false} ProgressFillable(tokens: seq<string>, j: nat)
    requires |tokens| <= 10 && j <= |tokens|
    requires forall k :: 0 <= k < |tokens| ==> IsToken(tokens[k]) && FreeOfMarkers(tokens[k])
    ensures forall k :: 0 <= k < |tokens| ==> Fillable(Progress(tokens, j)[k])
  {
    forall k | 0 <= k < |tokens| ensures Fillable(Progress(tokens, j)[k]) {
      if k >= j {
        ShortMarker(k);
      }
    }
  }

  /** Replacing marker `j` turns the fills after `j` restored markers into the fills
      after `j + 1`. */
  lemma {:induction false} ProgressStep(tokens: seq<string>, j: nat)
    requires |tokens| <= 10 && j < |tokens|
    requires forall k :: 0 <= k < |tokens| ==> IsToken(tokens[k])
    ensures Subst(Progress(tokens, j), Marker(j), tokens[j]) == Progress(tokens, j + 1)
  {
    var before, after := Progress(tokens, j), Progress(tokens, j + 1);
    ShortMarker(j);
    forall k | 0 <= k < |tokens|
      ensures Subst(before, Marker(j), tokens[j])[k] == after[k]
    {
      if k > j {
        ShortMarker(k);
        assert before[k] == Marker(k) == after[k];
        assert Marker(k)[|MarkerPrefix|] != Marker(j)[|MarkerPrefix|];
      } else if k < j {
        assert before[k] == tokens[k] == after[k];
        assert tokens[k][0] != Marker(j)[0];
      } else {
        assert before[k] == Marker(j);
      }
    }
  }

  /** After restoring the markers below `j`, the first `j` fills are the tokens and
      the rest are still markers. */
  lemma {:induction false} RestoreProgress(segments: seq<string>, tokens: seq<string>, j: nat)
    requires |segments| == |tokens| + 1 && |tokens| <= 10 && j <= |tokens|
    requires forall k :: 0 <= k < |segments| ==> FreeOfMarkers(segments[k])
    requires forall k :: 0 <= k < |tokens| ==> IsToken(tokens[k]) && FreeOfMarkers(tokens[k])
    ensures Restored(Weave(segments, Markers(0, |tokens|)), tokens, j) == Weave(segments, Progress(tokens, j))
  {
    if j == 0 {
      assert Progress(tokens, 0) == Markers(0, |tokens|);
    } else {
      RestoreProgress(segments, tokens, j - 1);
      ShortMarker(j - 1);
      ProgressFillable(tokens, j - 1);
      ReplaceWeave(segments, Progress(tokens, j - 1), Marker(j - 1), tokens[j - 1]);
      ProgressStep(tokens, j - 1);
    }
  }

  /** Restoring the masked text with the recorded tokens, as an identity
      translation would, gives the original text back, when the text holds no
      `PLACEHOLDER_` of its own and at most ten tokens (translate.py:44-49,
      136-140). */
  lemma ShieldRoundTrip(text: string)
    requires FreeOfMarkers(text)
    requires |Scan(text).tokens| <= 10
    ensures Restore(Masked(text), Scan(text).tokens) == text
  {
    var sc := Scan(text);
    ProcessTextShape(text);
    WeavePartsFree(sc.segments, sc.tokens);
    RestoreProgress(sc.segments, sc.tokens, |sc.tokens|);
    assert Progress(sc.tokens, |sc.tokens|) == sc.tokens;
  }
}
