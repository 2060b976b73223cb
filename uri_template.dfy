/** URI template resolution as `handleResource` performs it: every match of the
    regular expression `/{([^}]+)}/g` in the URI is, in order, turned into a
    parameter name, answered by the user, and replaced (first remaining
    occurrence of the match text) by the answer's `encodeURIComponent`. */
module UriTemplate {
  import opened Wrappers
  import opened JsString
  import opened UriEncoding

  /** The match `s[start..end]`. */
  datatype Span = Span(start: nat, end: nat)

  /** `m` is a whole match of `{([^}]+)}`: an opening brace, one or more
      characters other than `}` (an inner `{` is allowed), a closing brace. */
  predicate IsPlaceholder(m: string) {
    |m| >= 3 && m[0] == '{' && m[|m| - 1] == '}' &&
    forall k :: 0 < k < |m| - 1 ==> m[k] != '}'
  }

  /** The regular expression matches `s[p..e]`. */
  predicate IsMatch(s: string, p: nat, e: nat) {
    p <= e <= |s| && IsPlaceholder(s[p..e])
  }

  // ---------------------------------------------------------------------------
  // The regular-expression scan of `uri.match(/{([^}]+)}/g)`

  /** The first `}` at or after index `i`, or `|s|` when there is none. */
  function CloseFrom(s: string, i: nat): (j: nat)
    requires i <= |s|
    decreases |s| - i
    ensures i <= j <= |s|
    ensures j < |s| ==> s[j] == '}'
    ensures forall k :: i <= k < j ==> s[k] != '}'
  {
    if i == |s| || s[i] == '}' then i else CloseFrom(s, i + 1)
  }

  /** A match starting at `p` can only end just after the first `}` past `p`. */
  lemma MatchEnd(s: string, p: nat, e: nat)
    requires IsMatch(s, p, e)
    ensures p < |s| && s[p] == '{' && e == CloseFrom(s, p + 1) + 1 && e > p + 2
  {
    var m := s[p..e];
    assert s[p] == m[0];
    assert s[e - 1] == m[|m| - 1];
    forall k | p < k < e - 1 ensures s[k] != '}' {
      assert s[k] == m[k - p];
    }
  }

  /** The greedy attempt at `p` fails, so nothing matches at `p`. */
  lemma NoMatchAt(s: string, p: nat)
    requires p < |s|
    requires !(s[p] == '{' && CloseFrom(s, p + 1) < |s| && CloseFrom(s, p + 1) > p + 1)
    ensures forall e :: !IsMatch(s, p, e)
  {
    forall e | IsMatch(s, p, e) ensures false {
      MatchEnd(s, p, e);
    }
  }

  /** The greedy attempt at `p` succeeds. */
  lemma MatchFound(s: string, p: nat)
    requires p < |s| && s[p] == '{' && CloseFrom(s, p + 1) < |s| && CloseFrom(s, p + 1) > p + 1
    ensures IsMatch(s, p, CloseFrom(s, p + 1) + 1)
  {
    var e := CloseFrom(s, p + 1) + 1;
    var m := s[p..e];
    forall k | 0 < k < |m| - 1 ensures m[k] != '}' {
      assert m[k] == s[p + k];
    }
  }

  /** The leftmost match at or after `from`, as the global regular expression
      finds it when its `lastIndex` is `from`. */
  function NextMatch(s: string, from: nat): (r: Option<Span>)
    requires from <= |s|
    decreases |s| - from
    ensures r.Some? ==> from <= r.value.start && IsMatch(s, r.value.start, r.value.end)
    ensures r.Some? ==> forall p, e :: from <= p < r.value.start ==> !IsMatch(s, p, e)
    ensures r.None? ==> forall p, e :: from <= p ==> !IsMatch(s, p, e)
  {
    if from == |s| then None
    else if s[from] == '{' && CloseFrom(s, from + 1) < |s| && CloseFrom(s, from + 1) > from + 1 then
      MatchFound(s, from);
      Some(Span(from, CloseFrom(s, from + 1) + 1))
    else
      NoMatchAt(s, from);
      NextMatch(s, from + 1)
  }

  /** The spans are consecutive, non-overlapping matches of `s`, all at or after `from`. */
  predicate Chained(s: string, from: nat, sps: seq<Span>)
    decreases |sps|
  {
    from <= |s| &&
    (sps == [] ||
     (from <= sps[0].start && IsMatch(s, sps[0].start, sps[0].end) && Chained(s, sps[0].end, sps[1..])))
  }

  /** All matches from `from` on, left to right, each scan resuming where the
      previous match ended. */
  function Scan(s: string, from: nat): (r: seq<Span>)
    requires from <= |s|
    decreases |s| - from
    ensures Chained(s, from, r)
  {
    match NextMatch(s, from)
    case None => []
    case Some(sp) => [sp] + Scan(s, sp.end)
  }

  /** No match is missed: none starts before the first span, none starts
      between the end of one span and the start of the next, and none starts
      after the last span. */
  ghost predicate Maximal(s: string, from: nat, sps: seq<Span>)
    decreases |sps|
  {
    if sps == [] then forall p, e :: from <= p ==> !IsMatch(s, p, e)
    else (forall p, e :: from <= p < sps[0].start ==> !IsMatch(s, p, e)) && Maximal(s, sps[0].end, sps[1..])
  }

  /** The scan misses no match: every search resumes where the previous match
      ended and finds the leftmost match from there. */
  lemma {:induction false} ScanMaximal(s: string, from: nat)
    requires from <= |s|
    decreases |s| - from
    ensures Maximal(s, from, Scan(s, from))
  {
    match NextMatch(s, from)
    case None =>
    case Some(sp) => ScanMaximal(s, sp.end);
  }

  /** The matches of the global regular expression are determined: any
      left-to-right sequence of non-overlapping matches that misses none is
      the one the scan computes. */
  lemma {:induction false} ScanUnique(s: string, from: nat, sps: seq<Span>)
    requires Chained(s, from, sps) && Maximal(s, from, sps)
    decreases |sps|
    ensures sps == Scan(s, from)
  {
    if sps == [] {
      NoMatchNone(s, from);
    } else {
      LeftmostIs(s, from, sps[0]);
      ScanUnique(s, sps[0].end, sps[1..]);
    }
  }

  /** Without a match from `from` on, the scan finds none. */
  lemma NoMatchNone(s: string, from: nat)
    requires from <= |s| && forall p, e :: from <= p ==> !IsMatch(s, p, e)
    ensures NextMatch(s, from) == None
  {
    match NextMatch(s, from)
    case None =>
    case Some(r) => assert false;
  }

  /** A match with no match starting before it is the one the scan finds. */
  lemma LeftmostIs(s: string, from: nat, sp: Span)
    requires from <= sp.start && IsMatch(s, sp.start, sp.end)
    requires forall p, e :: from <= p < sp.start ==> !IsMatch(s, p, e)
    ensures NextMatch(s, from) == Some(sp)
  {
    var r := NextMatch(s, from);
    assert r.Some?;
    var rs := r.value;
    assert rs.start == sp.start;
    MatchEnd(s, rs.start, rs.end);
    MatchEnd(s, sp.start, sp.end);
  }

  function Texts(s: string, from: nat, sps: seq<Span>): (ms: seq<string>)
    requires Chained(s, from, sps)
    decreases |sps|
    ensures |ms| == |sps|
    ensures forall k :: 0 <= k < |ms| ==> IsPlaceholder(ms[k])
  {
    if sps == [] then [] else [s[sps[0].start..sps[0].end]] + Texts(s, sps[0].end, sps[1..])
  }

  /** `uri.match(/{([^}]+)}/g)`, with `null` read as no matches. */
  function Placeholders(uri: string): (ms: seq<string>)
    ensures |ms| == Count(uri)
    ensures forall k :: 0 <= k < |ms| ==> IsPlaceholder(ms[k])
  {
    Texts(uri, 0, Scan(uri, 0))
  }

  /** How many prompts resolving `uri` takes. */
  function Count(uri: string): nat {
    |Scan(uri, 0)|
  }

  /** `paramMatch.replace("{", "").replace("}", "")`. */
  function ParamName(paramMatch: string): (name: string)
    ensures |paramMatch| - 2 <= |name| <= |paramMatch|
  {
    Replace(Replace(paramMatch, "{", ""), "}", "")
  }

  /** The names asked for, in order, one per match. */
  function ParamNames(uri: string): (names: seq<string>)
    ensures |names| == Count(uri)
  {
    var ms := Placeholders(uri);
    seq(|ms|, k requires 0 <= k < |ms| => ParamName(ms[k]))
  }

  // ---------------------------------------------------------------------------
  // The specification of the resolved URI

  /** The literal text of `s` between the matches `sps`, with the k-th match
      replaced by the encoding of the k-th answer. */
  function Fill(s: string, from: nat, sps: seq<Span>, answers: seq<string>): string
    requires Chained(s, from, sps) && |answers| >= |sps|
    decreases |sps|
  {
    if sps == [] then s[from..]
    else s[from..sps[0].start] + EncodeUriComponent(answers[0]) + Fill(s, sps[0].end, sps[1..], answers[1..])
  }

  /** The URI `handleResource` reads, given the user's answers in order. */
  function Resolve(uri: string, answers: seq<string>): string
    requires |answers| >= Count(uri)
  {
    Fill(uri, 0, Scan(uri, 0), answers)
  }

  // ---------------------------------------------------------------------------
  // The loop of handleResource

  /** `handleResource(uri)` up to the read: the prompts it shows (`asked`, the
      parameter names) and the URI it reads. `answers` are the lines the user
      types; when they run out the prompt is interrupted, which aborts the
      client, and no URI is read (`None`). */
  method HandleResource(uri: string, answers: seq<string>) returns (finalUri: Option<string>, asked: seq<string>)
    ensures |answers| >= Count(uri) ==> finalUri == Some(Resolve(uri, answers)) && asked == ParamNames(uri)
    ensures |answers| < Count(uri) ==> finalUri == None && asked == ParamNames(uri)[..|answers| + 1]
  {
    var current := uri;
    var paramMatches := Placeholders(uri);
    ghost var done: string := "";
    ghost var pos: nat := 0;
    asked := [];
    var k := 0;
    while k < |paramMatches|
      invariant Resolving(uri, answers, paramMatches, k, pos, done, current, asked)
    {
      var paramMatch := paramMatches[k];
      var paramName := ParamName(paramMatch);
      if k >= |answers| {
        asked := asked + [paramName];
        Interrupted(uri, answers, k, asked);
        return None, asked;
      }
      var encoded := EncodeUriComponent(answers[k]);
      Advance(uri, answers, paramMatches, k, pos, done, current, asked);
      ghost var sp := NextMatch(uri, pos).value;
      asked := asked + [paramName];
      current := Replace(current, paramMatch, encoded);
      done, pos := done + uri[pos..sp.start] + encoded, sp.end;
      k := k + 1;
    }
    Finished(uri, answers, paramMatches, k, pos, done, current, asked);
    return Some(current), asked;
  }

  /** The loop invariant of `HandleResource` after `k` matches: `current` is the
      resolved prefix `done` followed by the untouched rest of `uri` from `pos`,
      where the remaining matches are exactly those still to be replaced. */
  ghost predicate Resolving(uri: string, answers: seq<string>, paramMatches: seq<string>,
                            k: nat, pos: nat, done: string, current: string, asked: seq<string>)
  {
    paramMatches == Placeholders(uri) &&
    k <= |paramMatches| && k <= |answers| && pos <= |uri| &&
    paramMatches[k..] == Texts(uri, pos, Scan(uri, pos)) &&
    current == done + uri[pos..] && BracesClosed(done) &&
    asked == ParamNames(uri)[..k] &&
    (|answers| >= Count(uri) ==> done + Fill(uri, pos, Scan(uri, pos), answers[k..]) == Resolve(uri, answers))
  }

  /** One turn of the loop keeps the invariant. */
  lemma Advance(uri: string, answers: seq<string>, paramMatches: seq<string>,
                k: nat, pos: nat, done: string, current: string, asked: seq<string>)
    requires Resolving(uri, answers, paramMatches, k, pos, done, current, asked)
    requires k < |paramMatches| && k < |answers|
    ensures NextMatch(uri, pos).Some?
    ensures var sp := NextMatch(uri, pos).value;
      var enc := EncodeUriComponent(answers[k]);
      '$' !in enc &&
      Resolving(uri, answers, paramMatches, k + 1, sp.end, done + uri[pos..sp.start] + enc,
                Replace(current, paramMatches[k], enc), asked + [ParamName(paramMatches[k])])
  {
    TextsStep(uri, paramMatches, k, pos);
    var sp := NextMatch(uri, pos).value;
    NoDollar(answers[k]);
    ReplaceStep(uri, pos, done, answers[k]);
    NamesStep(uri, paramMatches, k);
    if |answers| >= Count(uri) {
      FillAdvance(uri, answers, k, pos, done);
    }
  }

  /** The match replaced in this turn is the next one the scan finds, and the
      matches left afterwards are those the scan finds after it. */
  lemma TextsStep(uri: string, paramMatches: seq<string>, k: nat, pos: nat)
    requires pos <= |uri| && k < |paramMatches|
    requires paramMatches[k..] == Texts(uri, pos, Scan(uri, pos))
    ensures NextMatch(uri, pos).Some?
    ensures var sp := NextMatch(uri, pos).value;
      paramMatches[k] == uri[sp.start..sp.end] && paramMatches[k + 1..] == Texts(uri, sp.end, Scan(uri, sp.end))
  {
    ScanStep(uri, pos);
    assert paramMatches[k + 1..] == paramMatches[k..][1..];
  }

  /** The name asked for in this turn extends the names asked so far. */
  lemma NamesStep(uri: string, paramMatches: seq<string>, k: nat)
    requires paramMatches == Placeholders(uri) && k < |paramMatches|
    ensures ParamNames(uri)[..k] + [ParamName(paramMatches[k])] == ParamNames(uri)[..k + 1]
  {
    assert ParamNames(uri)[k] == ParamName(paramMatches[k]);
    Snoc(ParamNames(uri), k);
  }

  /** The resolved prefix grows by the gap and the encoded answer of this turn. */
  lemma FillAdvance(uri: string, answers: seq<string>, k: nat, pos: nat, done: string)
    requires pos <= |uri| && k < |answers| && |answers| - k >= |Scan(uri, pos)| > 0
    ensures NextMatch(uri, pos).Some?
    ensures var sp := NextMatch(uri, pos).value;
      done + uri[pos..sp.start] + EncodeUriComponent(answers[k]) + Fill(uri, sp.end, Scan(uri, sp.end), answers[k + 1..]) ==
      done + Fill(uri, pos, Scan(uri, pos), answers[k..])
  {
    var rest := answers[k..];
    assert rest[0] == answers[k] && rest[1..] == answers[k + 1..];
    FillStep(uri, pos, done, rest);
  }

  /** The prompt shown when the answers run out is the next name. */
  lemma Interrupted(uri: string, answers: seq<string>, k: nat, asked: seq<string>)
    requires k == |answers| < Count(uri)
    requires asked == ParamNames(uri)[..k] + [ParamName(Placeholders(uri)[k])]
    ensures asked == ParamNames(uri)[..|answers| + 1]
  {
    NamesStep(uri, Placeholders(uri), k);
  }

  /** Extending a prefix by the next element. */
  lemma Snoc(xs: seq<string>, k: nat)
    requires k < |xs|
    ensures xs[..k] + [xs[k]] == xs[..k + 1]
  {
  }

  lemma Finished(uri: string, answers: seq<string>, paramMatches: seq<string>,
                 k: nat, pos: nat, done: string, current: string, asked: seq<string>)
    requires Resolving(uri, answers, paramMatches, k, pos, done, current, asked)
    requires k == |paramMatches|
    ensures |answers| >= Count(uri) && current == Resolve(uri, answers) && asked == ParamNames(uri)
  {
    assert Scan(uri, pos) == [];
    assert answers[k..] == answers[k..];
  }

  /** One turn of the scan: the next match text heads the remaining matches. */
  lemma ScanStep(uri: string, pos: nat)
    requires pos <= |uri| && |Scan(uri, pos)| > 0
    ensures NextMatch(uri, pos).Some?
    ensures var sp := NextMatch(uri, pos).value;
      Texts(uri, pos, Scan(uri, pos)) == [uri[sp.start..sp.end]] + Texts(uri, sp.end, Scan(uri, sp.end))
  {
  }

  /** The resolved rest starts with the skipped text and the encoded answer. */
  lemma FillStep(uri: string, pos: nat, done: string, answers: seq<string>)
    requires pos <= |uri| && |answers| >= |Scan(uri, pos)| > 0
    ensures NextMatch(uri, pos).Some?
    ensures var sp := NextMatch(uri, pos).value;
      done + uri[pos..sp.start] + EncodeUriComponent(answers[0]) + Fill(uri, sp.end, Scan(uri, sp.end), answers[1..]) ==
      done + Fill(uri, pos, Scan(uri, pos), answers)
  {
    var sp := NextMatch(uri, pos).value;
    var sps := Scan(uri, pos);
    assert sps[0] == sp && sps[1..] == Scan(uri, sp.end);
    var gap, enc := uri[pos..sp.start], EncodeUriComponent(answers[0]);
    var tail := Fill(uri, sp.end, sps[1..], answers[1..]);
    assert Fill(uri, pos, sps, answers) == gap + enc + tail;
    Associate(done, gap, enc, tail);
  }

  lemma Associate(a: string, b: string, c: string, d: string)
    ensures a + b + c + d == a + (b + c + d)
  {
  }

  /** One turn of the loop: replacing the first occurrence of the next match
      text acts on the leftmost match, and the resolved part stays brace-closed. */
  lemma ReplaceStep(uri: string, pos: nat, done: string, answer: string)
    requires pos <= |uri| && NextMatch(uri, pos).Some? && BracesClosed(done)
    ensures var sp := NextMatch(uri, pos).value;
      var enc := EncodeUriComponent(answer);
      Replace(done + uri[pos..], uri[sp.start..sp.end], enc) == done + uri[pos..sp.start] + enc + uri[sp.end..] &&
      BracesClosed(done + uri[pos..sp.start] + enc)
  {
    var sp := NextMatch(uri, pos).value;
    var enc := EncodeUriComponent(answer);
    var gap, m := uri[pos..sp.start], uri[sp.start..sp.end];
    GapClosed(uri, pos);
    EncodedClosed(answer);
    ClosedConcat(done, gap);
    ClosedConcat(done + gap, enc);
    assert uri[pos..] == gap + m + uri[sp.end..];
    assert done + uri[pos..] == (done + gap) + m + uri[sp.end..];
    FirstOccurrence(done + gap, m, uri[sp.end..]);
    ReplaceAtFirst(done + uri[pos..], m, enc, |done + gap|);
    assert (done + uri[pos..])[..|done + gap|] == done + gap;
    assert (done + uri[pos..])[|done + gap| + |m|..] == uri[sp.end..];
  }

  // ---------------------------------------------------------------------------
  // Brace structure

  /** Every `{` is immediately followed by `}`. */
  predicate BracesClosed(t: string) {
    forall i :: 0 <= i < |t| && t[i] == '{' ==> i + 1 < |t| && t[i + 1] == '}'
  }

  /** Every `{` is immediately followed by `}` or by no `}` at all. */
  predicate Inert(t: string) {
    forall i, j :: 0 <= i < j < |t| && t[i] == '{' && t[j] == '}' ==> t[i + 1] == '}'
  }

  lemma ClosedConcat(a: string, b: string)
    requires BracesClosed(a) && BracesClosed(b)
    ensures BracesClosed(a + b)
  {
    forall i | 0 <= i < |a + b| && (a + b)[i] == '{' ensures i + 1 < |a + b| && (a + b)[i + 1] == '}' {
      if i < |a| {
        assert a[i] == '{';
      } else {
        assert b[i - |a|] == '{';
      }
    }
  }

  lemma ClosedInertConcat(a: string, b: string)
    requires BracesClosed(a) && Inert(b)
    ensures Inert(a + b)
  {
    var t := a + b;
    forall i, j | 0 <= i < j < |t| && t[i] == '{' && t[j] == '}' ensures t[i + 1] == '}' {
      if i < |a| {
        assert a[i] == '{';
      } else {
        assert b[i - |a|] == '{' && b[j - |a|] == '}';
      }
    }
  }

  lemma NoDollar(x: string)
    ensures '$' !in EncodeUriComponent(x)
  {
    var t := EncodeUriComponent(x);
    forall i | 0 <= i < |t| ensures t[i] != '$' {
      assert IsUnreserved(t[i]) || t[i] == '%';
    }
  }

  /** An encoded value holds no brace at all. */
  lemma EncodedClosed(x: string)
    ensures BracesClosed(EncodeUriComponent(x))
  {
    var t := EncodeUriComponent(x);
    forall i | 0 <= i < |t| ensures t[i] != '{' {
      assert IsUnreserved(t[i]) || t[i] == '%';
    }
  }

  /** The text skipped before the leftmost match holds no `{` that starts a match. */
  lemma GapClosed(s: string, from: nat)
    requires from <= |s| && NextMatch(s, from).Some?
    ensures BracesClosed(s[from..NextMatch(s, from).value.start])
  {
    var sp := NextMatch(s, from).value;
    MatchEnd(s, sp.start, sp.end);
    var g := s[from..sp.start];
    forall i | 0 <= i < |g| && g[i] == '{' ensures i + 1 < |g| && g[i + 1] == '}' {
      var p := from + i;
      assert s[p] == '{';
      var j := CloseFrom(s, p + 1);
      assert j <= sp.end - 1;
      if j > p + 1 {
        MatchFound(s, p);
        assert false;
      }
      assert s[p + 1] == '}';
      assert p + 1 != sp.start;
      assert g[i + 1] == s[p + 1];
    }
  }

  /** The text after the last match holds no match. */
  lemma TailInert(s: string, from: nat)
    requires from <= |s| && NextMatch(s, from).None?
    ensures Inert(s[from..])
  {
    var t := s[from..];
    forall i, j | 0 <= i < j < |t| && t[i] == '{' && t[j] == '}' ensures t[i + 1] == '}' {
      var p := from + i;
      assert s[p] == '{' && s[from + j] == '}';
      var c := CloseFrom(s, p + 1);
      if c > p + 1 {
        MatchFound(s, p);
        assert false;
      }
      assert t[i + 1] == s[p + 1];
    }
  }

  lemma InertNoMatch(t: string)
    requires Inert(t)
    ensures forall p, e :: !IsMatch(t, p, e)
  {
    forall p: nat, e: nat | p <= e <= |t| ensures !IsPlaceholder(t[p..e]) {
      var m := t[p..e];
      if |m| >= 3 && m[0] == '{' && m[|m| - 1] == '}' {
        assert t[p] == '{' && t[e - 1] == '}';
        assert m[1] == t[p + 1] == '}';
      }
    }
  }

  /** The first occurrence of a match text comes after a brace-closed prefix. */
  lemma FirstOccurrence(a: string, m: string, b: string)
    requires BracesClosed(a) && IsPlaceholder(m)
    ensures OccursAt(a + m + b, m, |a|)
    ensures forall q: nat :: q < |a| ==> !OccursAt(a + m + b, m, q)
  {
    var t := a + m + b;
    assert t[|a|..|a| + |m|] == m;
    forall q: nat | q < |a| ensures !OccursAt(t, m, q) {
      if q + |m| <= |t| {
        if a[q] == '{' {
          assert a[q + 1] == '}' && t[q + 1] == a[q + 1];
          assert t[q..q + |m|][1] == t[q + 1];
          assert m[1] != '}';
        } else {
          assert t[q..q + |m|][0] == a[q];
        }
      }
    }
  }

  lemma {:induction false} FillInert(s: string, from: nat, answers: seq<string>)
    requires from <= |s| && |answers| >= |Scan(s, from)|
    decreases |s| - from
    ensures Inert(Fill(s, from, Scan(s, from), answers))
  {
    var sps := Scan(s, from);
    if sps == [] {
      TailInert(s, from);
    } else {
      var sp := sps[0];
      assert NextMatch(s, from) == Some(sp);
      GapClosed(s, from);
      EncodedClosed(answers[0]);
      FillInert(s, sp.end, answers[1..]);
      ClosedConcat(s[from..sp.start], EncodeUriComponent(answers[0]));
      ClosedInertConcat(s[from..sp.start] + EncodeUriComponent(answers[0]), Fill(s, sp.end, sps[1..], answers[1..]));
    }
  }

  // ---------------------------------------------------------------------------
  // Properties of resolution

  /** The resolved URI contains no match of `{([^}]+)}`; a stray `}` or an
      empty `{}` of the template may remain. */
  lemma ResolvedHasNoPlaceholder(uri: string, answers: seq<string>)
    requires |answers| >= Count(uri)
    ensures forall p, e :: !IsMatch(Resolve(uri, answers), p, e)
  {
    FillInert(uri, 0, answers);
    InertNoMatch(Resolve(uri, answers));
  }

  /** A URI without a match takes no prompt and is read as it is. */
  lemma NoPlaceholderUnchanged(uri: string, answers: seq<string>)
    requires forall p, e :: !IsMatch(uri, p, e)
    ensures Count(uri) == 0 && Resolve(uri, answers) == uri
  {
  }

  /** One prompt per match, and only then: a URI takes no prompt exactly when
      it holds no match. */
  lemma CountZeroIffNoPlaceholder(uri: string)
    ensures Count(uri) == 0 <==> forall p, e :: !IsMatch(uri, p, e)
  {
    if Count(uri) == 0 {
      assert NextMatch(uri, 0).None?;
    } else {
      var sp := NextMatch(uri, 0).value;
      assert IsMatch(uri, sp.start, sp.end);
    }
  }

  /** Answers are consumed in match order, and those beyond the number of
      matches are never used. */
  lemma ResolveUsesFirstAnswers(uri: string, answers: seq<string>)
    requires |answers| >= Count(uri)
    ensures Resolve(uri, answers) == Resolve(uri, answers[..Count(uri)])
  {
    FillPrefix(uri, 0, Scan(uri, 0), answers);
  }

  lemma {:induction false} FillPrefix(s: string, from: nat, sps: seq<Span>, answers: seq<string>)
    requires Chained(s, from, sps) && |answers| >= |sps|
    decreases |sps|
    ensures Fill(s, from, sps, answers) == Fill(s, from, sps, answers[..|sps|])
  {
    if sps != [] {
      var used := answers[..|sps|];
      assert used[0] == answers[0] && used[1..] == answers[1..][..|sps| - 1];
      var gap := s[from..sps[0].start];
      calc {
        Fill(s, from, sps, used);
        gap + EncodeUriComponent(used[0]) + Fill(s, sps[0].end, sps[1..], used[1..]);
        { FillPrefix(s, sps[0].end, sps[1..], answers[1..]); }
        gap + EncodeUriComponent(answers[0]) + Fill(s, sps[0].end, sps[1..], answers[1..]);
        Fill(s, from, sps, answers);
      }
    }
  }

  /** The name asked for is the match without its first `{` and first `}`:
      the text between the braces. */
  lemma ParamNameIsInterior(m: string)
    requires IsPlaceholder(m)
    ensures ParamName(m) == m[1..|m| - 1]
    ensures |ParamName(m)| > 0 && forall k :: 0 <= k < |ParamName(m)| ==> ParamName(m)[k] != '}'
  {
    DropOpen(m);
    DropClose(m);
    var inner := m[1..|m| - 1];
    forall k | 0 <= k < |inner| ensures inner[k] != '}' {
      assert inner[k] == m[k + 1];
    }
  }

  /** A match starts with its first `{`. */
  lemma DropOpen(m: string)
    requires IsPlaceholder(m)
    ensures Replace(m, "{", "") == m[1..]
  {
    assert OccursAt(m, "{", 0);
    ReplaceAtFirst(m, "{", "", 0);
  }

  /** After its opening brace, a match holds its first `}` last. */
  lemma DropClose(m: string)
    requires IsPlaceholder(m)
    ensures Replace(m[1..], "}", "") == m[1..|m| - 1]
  {
    var m1 := m[1..];
    var last := |m1| - 1;
    assert m1[last..last + 1] == "}";
    forall q: nat | q < last ensures !OccursAt(m1, "}", q) {
      assert m1[q..q + 1][0] == m[q + 1];
    }
    ReplaceAtFirst(m1, "}", "", last);
    assert m1[..last] == m[1..|m| - 1];
  }

  /** Every name asked for is non-empty and is the text between the braces of its match. */
  lemma ParamNamesAreInteriors(uri: string)
    ensures forall k :: 0 <= k < Count(uri) ==>
      ParamNames(uri)[k] == Placeholders(uri)[k][1..|Placeholders(uri)[k]| - 1] && |ParamNames(uri)[k]| > 0
  {
    forall k | 0 <= k < Count(uri)
      ensures ParamNames(uri)[k] == Placeholders(uri)[k][1..|Placeholders(uri)[k]| - 1] && |ParamNames(uri)[k]| > 0
    {
      ParamNameAt(uri, k);
    }
  }

  lemma ParamNameAt(uri: string, k: nat)
    requires k < Count(uri)
    ensures ParamNames(uri)[k] == Placeholders(uri)[k][1..|Placeholders(uri)[k]| - 1] && |ParamNames(uri)[k]| > 0
  {
    NameAt(uri, k);
    var m := Placeholders(uri)[k];
    assert IsPlaceholder(m);
    ParamNameIsInterior(m);
  }

  /** The text `{name}`. */
  function Braced(name: string): string {
    "{" + name + "}"
  }

  /** The five pieces of `a + b + c + d + f` are found again by slicing. */
  lemma FifthsOf(a: string, b: string, c: string, d: string, f: string)
    ensures (a + b + c + d + f)[..|a|] == a
    ensures (a + b + c + d + f)[|a|..|a| + |b|] == b
    ensures (a + b + c + d + f)[|a| + |b|..|a| + |b| + |c|] == c
    ensures (a + b + c + d + f)[|a| + |b| + |c|..|a| + |b| + |c| + |d|] == d
    ensures (a + b + c + d + f)[|a| + |b| + |c| + |d|..] == f
  {
    var s := a + b + c + d + f;
    assert s[..|a|] == a;
    assert s[|a|..|a| + |b|] == b;
    assert s[|a| + |b|..|a| + |b| + |c|] == c;
    assert s[|a| + |b| + |c|..|a| + |b| + |c| + |d|] == d;
    assert s[|a| + |b| + |c| + |d|..] == f;
  }

  /** A name that can stand between the braces of a match. */
  predicate IsName(name: string) {
    |name| >= 1 && '}' !in name
  }

  /** `{name}` is a placeholder, and the name asked for is `name` again,
      exactly when the name is nonempty and has no `}`. */
  lemma BracedName(name: string)
    requires IsName(name)
    ensures IsPlaceholder(Braced(name)) && ParamName(Braced(name)) == name
  {
    var m := Braced(name);
    forall k | 0 < k < |m| - 1
      ensures m[k] != '}'
    {
      assert m[k] == name[k - 1];
    }
    ParamNameIsInterior(m);
    assert m[1..|m| - 1] == name;
  }

  /** No match starts where there is no `{`. */
  lemma NoOpenNoMatch(s: string, from: nat, to: nat)
    requires from <= to <= |s| && '{' !in s[from..to]
    ensures forall p, e :: from <= p < to ==> !IsMatch(s, p, e)
  {
    forall p: nat, e: nat | from <= p < to
      ensures !IsMatch(s, p, e)
    {
      assert s[from..to][p - from] == s[p];
      if p < e <= |s| {
        assert s[p..e][0] == s[p];
      }
    }
  }

  /** The leftmost match is the first `{` that starts one. */
  lemma NextMatchIs(s: string, from: nat, p: nat, e: nat)
    requires from <= p && IsMatch(s, p, e)
    requires '{' !in s[from..p]
    ensures NextMatch(s, from) == Some(Span(p, e))
  {
    NoOpenNoMatch(s, from, p);
    LeftmostIs(s, from, Span(p, e));
  }

  /** Without a `{` from `from` on, the scan finds nothing more. */
  lemma NoMatchAfter(s: string, from: nat)
    requires from <= |s| && '{' !in s[from..]
    ensures NextMatch(s, from) == None
  {
    assert s[from..|s|] == s[from..];
    NoOpenNoMatch(s, from, |s|);
  }

  /** A URI whose only `{` opens the match `[p, e)`. */
  lemma SingleMatch(s: string, p: nat, e: nat, a: string)
    requires IsMatch(s, p, e) && '{' !in s[..p] && '{' !in s[e..]
    ensures Count(s) == 1 && Placeholders(s) == [s[p..e]]
    ensures Resolve(s, [a]) == s[..p] + EncodeUriComponent(a) + s[e..]
  {
    assert s[0..p] == s[..p];
    NextMatchIs(s, 0, p, e);
    NoMatchAfter(s, e);
    assert Scan(s, e) == [];
    var sps := Scan(s, 0);
    assert sps == [Span(p, e)];
    assert Texts(s, e, sps[1..]) == [];
    assert Fill(s, e, sps[1..], [a][1..]) == s[e..];
  }

  /** The scan of a URI whose only two `{` open `[p1, e1)` and `[p2, e2)`. */
  lemma ScanTwo(s: string, p1: nat, e1: nat, p2: nat, e2: nat)
    requires IsMatch(s, p1, e1) && IsMatch(s, p2, e2) && e1 <= p2
    requires '{' !in s[..p1] && '{' !in s[e1..p2] && '{' !in s[e2..]
    ensures Scan(s, 0) == [Span(p1, e1), Span(p2, e2)]
    ensures Scan(s, e1) == [Span(p2, e2)]
  {
    assert s[0..p1] == s[..p1];
    NextMatchIs(s, 0, p1, e1);
    NextMatchIs(s, e1, p2, e2);
    NoMatchAfter(s, e2);
    assert Scan(s, e2) == [];
  }

  /** A URI whose only two `{` open the matches `[p1, e1)` and `[p2, e2)`. */
  lemma DoubleMatch(s: string, p1: nat, e1: nat, p2: nat, e2: nat, a1: string, a2: string)
    requires IsMatch(s, p1, e1) && IsMatch(s, p2, e2) && e1 <= p2
    requires '{' !in s[..p1] && '{' !in s[e1..p2] && '{' !in s[e2..]
    ensures Count(s) == 2 && Placeholders(s) == [s[p1..e1], s[p2..e2]]
    ensures Resolve(s, [a1, a2]) == s[..p1] + EncodeUriComponent(a1) + s[e1..p2] + EncodeUriComponent(a2) + s[e2..]
  {
    ScanTwo(s, p1, e1, p2, e2);
    TextsTwo(s, p1, e1, p2, e2);
    FillTwo(s, p1, e1, p2, e2, a1, a2);
  }

  /** The texts of two consecutive matches. */
  lemma TextsTwo(s: string, p1: nat, e1: nat, p2: nat, e2: nat)
    requires p1 <= e1 <= p2 <= e2 <= |s| && Chained(s, 0, [Span(p1, e1), Span(p2, e2)])
    ensures Texts(s, 0, [Span(p1, e1), Span(p2, e2)]) == [s[p1..e1], s[p2..e2]]
  {
    var sps := [Span(p1, e1), Span(p2, e2)];
    assert sps[1..] == [Span(p2, e2)] && sps[1..][1..] == [];
    assert Texts(s, e1, sps[1..]) == [s[p2..e2]];
  }

  /** Filling two consecutive matches with two answers. */
  lemma FillTwo(s: string, p1: nat, e1: nat, p2: nat, e2: nat, a1: string, a2: string)
    requires p1 <= e1 <= p2 <= e2 <= |s| && Chained(s, 0, [Span(p1, e1), Span(p2, e2)])
    ensures Fill(s, 0, [Span(p1, e1), Span(p2, e2)], [a1, a2])
            == s[..p1] + EncodeUriComponent(a1) + s[e1..p2] + EncodeUriComponent(a2) + s[e2..]
  {
    var sps := [Span(p1, e1), Span(p2, e2)];
    var answers := [a1, a2];
    assert sps[1..] == [Span(p2, e2)] && sps[1..][1..] == [];
    assert answers[1..] == [a2] && answers[1..][1..] == [];
    assert Fill(s, e2, sps[1..][1..], answers[1..][1..]) == s[e2..];
    var tail := Fill(s, e1, sps[1..], answers[1..]);
    assert tail == s[e1..p2] + EncodeUriComponent(a2) + s[e2..];
    assert s[0..p1] == s[..p1];
  }

  /** A URI with one placeholder, and no other `{`, asks for that name once
      and reads the surrounding text around the encoded answer. */
  lemma OnePlaceholder(pre: string, name: string, post: string, a: string)
    requires '{' !in pre && IsName(name) && '{' !in post
    ensures Count(pre + Braced(name) + post) == 1
    ensures ParamNames(pre + Braced(name) + post) == [name]
    ensures Resolve(pre + Braced(name) + post, [a]) == pre + EncodeUriComponent(a) + post
  {
    var m := Braced(name);
    var s := pre + m + post;
    BracedName(name);
    ThirdsOf(pre, m, post);
    SingleMatch(s, |pre|, |pre| + |m|, a);
    NamesOfOne(s, m);
  }

  /** The three pieces of `a + b + c` are found again by slicing. */
  lemma ThirdsOf(a: string, b: string, c: string)
    ensures (a + b + c)[..|a|] == a
    ensures (a + b + c)[|a|..|a| + |b|] == b
    ensures (a + b + c)[|a| + |b|..] == c
  {
    var s := a + b + c;
    assert s[..|a|] == a;
    assert s[|a|..|a| + |b|] == b;
    assert s[|a| + |b|..] == c;
  }

  /** The name asked for by a URI with one match. */
  lemma NamesOfOne(s: string, m: string)
    requires Placeholders(s) == [m]
    ensures ParamNames(s) == [ParamName(m)]
  {
    assert ParamNames(s)[0] == ParamName(m);
  }

  /** The names asked for by a URI with two matches. */
  lemma NamesOfTwo(s: string, m1: string, m2: string)
    requires Placeholders(s) == [m1, m2]
    ensures ParamNames(s) == [ParamName(m1), ParamName(m2)]
  {
    NameAt(s, 0);
    NameAt(s, 1);
    Pair(ParamNames(s));
  }

  /** A sequence of two elements is the display of its elements. */
  lemma Pair(xs: seq<string>)
    requires |xs| == 2
    ensures xs == [xs[0], xs[1]]
  {
  }

  /** The k-th name asked for comes from the k-th match. */
  lemma NameAt(uri: string, k: nat)
    requires k < Count(uri)
    ensures |Placeholders(uri)| == Count(uri)
    ensures ParamNames(uri)[k] == ParamName(Placeholders(uri)[k])
  {
  }

  /** `DoubleMatch` for a URI given as its five pieces. */
  lemma DoubleMatchParts(pre: string, m1: string, mid: string, m2: string, post: string, a1: string, a2: string)
    requires IsPlaceholder(m1) && IsPlaceholder(m2) && '{' !in pre && '{' !in mid && '{' !in post
    ensures Count(pre + m1 + mid + m2 + post) == 2
    ensures Placeholders(pre + m1 + mid + m2 + post) == [m1, m2]
    ensures Resolve(pre + m1 + mid + m2 + post, [a1, a2])
            == pre + EncodeUriComponent(a1) + mid + EncodeUriComponent(a2) + post
  {
    var s := pre + m1 + mid + m2 + post;
    var p1, e1 := |pre|, |pre| + |m1|;
    var p2, e2 := e1 + |mid|, e1 + |mid| + |m2|;
    FifthsOf(pre, m1, mid, m2, post);
    assert s[..p1] == pre && s[p1..e1] == m1 && s[e1..p2] == mid && s[p2..e2] == m2 && s[e2..] == post;
    DoubleMatch(s, p1, e1, p2, e2, a1, a2);
  }

  /** A URI with two placeholders, and no other `{`, asks for the two names
      in order (the same name twice when it occurs twice) and puts each
      answer in its own place. */
  lemma TwoPlaceholders(pre: string, n1: string, mid: string, n2: string, post: string, a1: string, a2: string)
    requires '{' !in pre && '{' !in mid && '{' !in post && IsName(n1) && IsName(n2)
    ensures Count(pre + Braced(n1) + mid + Braced(n2) + post) == 2
    ensures ParamNames(pre + Braced(n1) + mid + Braced(n2) + post) == [n1, n2]
    ensures Resolve(pre + Braced(n1) + mid + Braced(n2) + post, [a1, a2])
            == pre + EncodeUriComponent(a1) + mid + EncodeUriComponent(a2) + post
  {
    BracedName(n1);
    BracedName(n2);
    DoubleMatchParts(pre, Braced(n1), mid, Braced(n2), post, a1, a2);
    NamesOfTwo(pre + Braced(n1) + mid + Braced(n2) + post, Braced(n1), Braced(n2));
  }

  // ---------------------------------------------------------------------------
  // Scenarios

  /** `{` may stand inside a name: `{a{b}` is one placeholder named `a{b`. */
  lemma InnerBraceScenario()
    ensures ParamNames("{a{b}") == ["a{b"]
  {
    assert "{a{b}" == "" + Braced("a{b") + "";
    OnePlaceholder("", "a{b", "", "");
  }

  /** An empty `{}` and a stray `}` are no placeholders: nothing is asked and
      the URI is read as it is. */
  lemma StrayBracesScenario(answers: seq<string>)
    ensures Count("a/{}/b}") == 0
    ensures Resolve("a/{}/b}", answers) == "a/{}/b}"
  {
    var s := "a/{}/b}";
    assert Inert(s);
    InertNoMatch(s);
    NoPlaceholderUnchanged(s, answers);
  }
}
