/**
 Environment placeholders in configuration text: `${NAME}` and `${NAME:-default}`,
 matched leftmost first and never overlapping, as the pattern `\${([^}]+)}` has it.
 */
module Placeholders {
  import opened Prelude

  type Environment = map<string, string>

  datatype Span = Span(start: nat, end: nat)

  // ----- what a placeholder is -----

  /**
   text[i..j] is a dollar and an opening brace, at least one character other than a closing brace,
   and the closing brace.
   */
  ghost predicate IsMatch(text: string, i: nat, j: nat) {
    && i + 4 <= j <= |text|
    && text[i] == '$' && text[i + 1] == '{' && text[j - 1] == '}'
    && forall k | i + 2 <= k < j - 1 :: text[k] != '}'
  }

  ghost predicate NoMatchAt(text: string, i: nat) {
    forall j: nat :: !IsMatch(text, i, j)
  }

  lemma MatchEndsFirst(text: string, i: nat, j: nat, k: nat)
    requires IsMatch(text, i, j) && IsMatch(text, i, k)
    ensures k <= j
  {
  }

  lemma MatchEndsOnce(text: string, i: nat, j: nat, k: nat)
    requires IsMatch(text, i, j) && IsMatch(text, i, k)
    ensures j == k
  {
    MatchEndsFirst(text, i, j, k);
    MatchEndsFirst(text, i, k, j);
  }

  /** Where the scan stands once the first k placeholders are behind it. */
  function After(spans: seq<Span>, k: nat): nat
    requires k <= |spans|
  {
    if k == 0 then 0 else spans[k - 1].end
  }

  ghost predicate Barren(text: string, from: nat, to: nat) {
    forall i | from <= i < to :: NoMatchAt(text, i)
  }

  /** The k-th span is a match, and none starts between it and the one before. */
  ghost predicate SpanAt(text: string, spans: seq<Span>, k: nat)
    requires k < |spans|
  {
    && After(spans, k) <= spans[k].start
    && IsMatch(text, spans[k].start, spans[k].end)
    && Barren(text, After(spans, k), spans[k].start)
  }

  lemma BarrenExcludes(text: string, from: nat, to: nat, i: nat, j: nat)
    requires Barren(text, from, to) && from <= i && IsMatch(text, i, j)
    ensures to <= i
  {
    assert NoMatchAt(text, i) ==> !IsMatch(text, i, j);
  }

  /** `spans` are the leftmost non-overlapping placeholders that start in text[..upto]. */
  ghost predicate Segments(text: string, spans: seq<Span>, upto: nat) {
    && (forall k | 0 <= k < |spans| :: SpanAt(text, spans, k))
    && After(spans, |spans|) <= upto <= |text|
    && Barren(text, After(spans, |spans|), upto)
  }

  lemma {:induction false} SegmentsAgree(text: string, a: seq<Span>, b: seq<Span>, k: nat)
    requires Segments(text, a, |text|) && Segments(text, b, |text|)
    requires k <= |a|
    ensures k <= |b| && a[..k] == b[..k]
  {
    if k == 0 {
    } else {
      SegmentsAgree(text, a, b, k - 1);
      var n := k - 1;
      assert After(a, n) == After(b, n) by {
        if n > 0 { assert a[n - 1] == a[..n][n - 1] == b[..n][n - 1] == b[n - 1]; }
      }
      var from, i := After(a, n), a[n].start;
      assert SpanAt(text, a, n);
      assert n < |b| ==> SpanAt(text, b, n);
      BarrenExcludes(text, from, if n == |b| then |text| else b[n].start, i, a[n].end);
      assert SpanAt(text, b, n);
      BarrenExcludes(text, from, i, b[n].start, b[n].end);
      MatchEndsOnce(text, i, a[n].end, b[n].end);
      assert a[..k] == a[..n] + [a[n]] && b[..k] == b[..n] + [b[n]];
    }
  }

  /** A text has one segmentation. */
  lemma SegmentationUnique(text: string, a: seq<Span>, b: seq<Span>)
    requires Segments(text, a, |text|) && Segments(text, b, |text|)
    ensures a == b
  {
    SegmentsAgree(text, a, b, |a|);
    SegmentsAgree(text, b, a, |b|);
    assert a == a[..|a|] && b == b[..|a|];
  }

  // ----- what becomes of it -----

  predicate SeparatorAt(body: string, i: int) {
    0 <= i && i + 2 <= |body| && body[i] == ':' && body[i + 1] == '-'
  }

  /** The first ":-" of a placeholder's body. */
  function FirstSeparator(body: string): (k: Option<nat>)
    ensures k.Some? ==> SeparatorAt(body, k.value) && forall i | i < k.value :: !SeparatorAt(body, i)
    ensures k.None? ==> forall i :: !SeparatorAt(body, i)
  {
    if |body| < 2 then None
    else if SeparatorAt(body, 0) then Some(0)
    else
      var rest := FirstSeparator(body[1..]);
      assert forall i | 1 <= i :: SeparatorAt(body, i) <==> SeparatorAt(body[1..], i - 1);
      if rest.None? then None else Some(rest.value + 1)
  }

  /** The value a placeholder stands for: the variable, else the default, else nothing. */
  function Resolved(env: Environment, m: string): Option<string>
    requires |m| >= 4
  {
    var body := m[2..|m| - 1];
    var k := FirstSeparator(body);
    var name := if k.Some? then body[..k.value] else body;
    if name in env then Some(env[name])
    else if k.Some? then Some(body[k.value + 2..])
    else None
  }

  /** An unresolved placeholder stays as it is. */
  function Replacement(env: Environment, m: string): string
    requires |m| >= 4
  {
    var value := Resolved(env, m);
    if value.Some? then value.value else m
  }

  /** The k-th placeholder, braces and all. */
  function Piece(text: string, spans: seq<Span>, k: nat): (m: string)
    requires k < |spans| && SpanAt(text, spans, k)
    ensures IsMatch(m, 0, |m|)
  {
    text[spans[k].start..spans[k].end]
  }

  /** The text between the placeholders before and after gap k. */
  function Gap(text: string, spans: seq<Span>, k: nat): string
    requires k < |spans| && SpanAt(text, spans, k)
  {
    text[After(spans, k)..spans[k].start]
  }

  /** The first k spans are the first k placeholders. */
  ghost predicate Spanned(text: string, spans: seq<Span>, k: nat) {
    k <= |spans| && forall i | 0 <= i < k :: SpanAt(text, spans, i)
  }

  /** The first k gaps copied and the first k placeholders replaced. */
  function Rendered(env: Environment, text: string, spans: seq<Span>, k: nat): string
    requires Spanned(text, spans, k)
  {
    if k == 0 then "" else
    Rendered(env, text, spans, k - 1) + Gap(text, spans, k - 1) + Replacement(env, Piece(text, spans, k - 1))
  }

  lemma SpanAtExtends(text: string, spans: seq<Span>, x: Span, k: nat)
    requires k < |spans| && SpanAt(text, spans, k)
    ensures SpanAt(text, spans + [x], k) && Gap(text, spans + [x], k) == Gap(text, spans, k)
    ensures Piece(text, spans + [x], k) == Piece(text, spans, k)
  {
    assert After(spans + [x], k) == After(spans, k);
  }

  lemma SpansExtend(text: string, spans: seq<Span>, x: Span, k: nat)
    requires Spanned(text, spans, k)
    ensures Spanned(text, spans + [x], k)
  {
    forall i | 0 <= i < k ensures SpanAt(text, spans + [x], i) {
      SpanAtExtends(text, spans, x, i);
    }
  }

  /** Only the first k spans matter to what is rendered of them. */
  lemma {:induction false} RenderedAgrees(env: Environment, text: string, a: seq<Span>, b: seq<Span>, k: nat)
    requires Spanned(text, a, k) && Spanned(text, b, k) && forall i | 0 <= i < k :: a[i] == b[i]
    ensures Rendered(env, text, a, k) == Rendered(env, text, b, k)
  {
    if k == 0 {
    } else {
      RenderedAgrees(env, text, a, b, k - 1);
      assert Gap(text, a, k - 1) == Gap(text, b, k - 1) && Piece(text, a, k - 1) == Piece(text, b, k - 1);
    }
  }

  lemma RenderedExtends(env: Environment, text: string, spans: seq<Span>, x: Span, k: nat)
    requires Spanned(text, spans, k)
    ensures Spanned(text, spans + [x], k)
    ensures Rendered(env, text, spans + [x], k) == Rendered(env, text, spans, k)
  {
    SpansExtend(text, spans, x, k);
    RenderedAgrees(env, text, spans, spans + [x], k);
  }

  lemma SegmentsPushed(text: string, spans: seq<Span>, i: nat, j: nat)
    requires Segments(text, spans, i) && IsMatch(text, i, j)
    ensures var more := spans + [Span(i, j)];
            && Segments(text, more, j) && After(more, |more|) == j && After(more, |spans|) == After(spans, |spans|)
  {
    var more := spans + [Span(i, j)];
    forall k | 0 <= k < |more| ensures SpanAt(text, more, k) {
      if k < |spans| { SpanAtExtends(text, spans, Span(i, j), k); }
    }
  }

  lemma SpanPushed(env: Environment, text: string, spans: seq<Span>, i: nat, j: nat)
    requires Segments(text, spans, i) && IsMatch(text, i, j)
    ensures var more := spans + [Span(i, j)];
            && Segments(text, more, j) && After(more, |more|) == j
            && Rendered(env, text, more, |more|)
               == Rendered(env, text, spans, |spans|) + text[After(spans, |spans|)..i] + Replacement(env, text[i..j])
  {
    SegmentsPushed(text, spans, i, j);
    RenderedExtends(env, text, spans, Span(i, j), |spans|);
  }

  // ----- the meaning of an expansion, read from the left -----

  function FirstBrace(s: string): (k: Option<nat>)
    ensures k.Some? ==> k.value < |s| && s[k.value] == '}' && forall i | 0 <= i < k.value :: s[i] != '}'
    ensures k.None? ==> forall i | 0 <= i < |s| :: s[i] != '}'
  {
    if s == "" then None
    else if s[0] == '}' then Some(0)
    else
      var rest := FirstBrace(s[1..]);
      if rest.None? then None else Some(rest.value + 1)
  }

  /** Whether the text starts with a placeholder, and where it ends. */
  function Head(text: string): (end: Option<nat>)
    ensures end.Some? ==> IsMatch(text, 0, end.value)
    ensures end.None? ==> NoMatchAt(text, 0)
  {
    if |text| < 4 || text[0] != '$' || text[1] != '{' || text[2] == '}' then None
    else
      var k := FirstBrace(text[3..]);
      if k.None? then
        assert forall j | 3 <= j < |text| :: text[j] == text[3..][j - 3];
        None
      else
        assert forall j | 3 <= j < 3 + k.value :: text[j] == text[3..][j - 3];
        assert IsMatch(text, 0, k.value + 4);
        Some(k.value + 4)
  }

  function Expanded(env: Environment, text: string): string
    decreases |text|
  {
    if text == "" then ""
    else
      var end := Head(text);
      if end.Some? then Replacement(env, text[..end.value]) + Expanded(env, text[end.value..])
      else text[..1] + Expanded(env, text[1..])
  }

  lemma MatchShifts(text: string, i: nat, from: nat, j: nat)
    requires from <= i && i <= |text|
    ensures from <= j ==> (IsMatch(text, i, j) <==> IsMatch(text[from..], i - from, j - from))
    ensures NoMatchAt(text, i) <==> NoMatchAt(text[from..], i - from)
  {
    var t := text[from..];
    forall e: nat | from <= e ensures IsMatch(text, i, e) <==> IsMatch(t, i - from, e - from) {
      assert forall k | from <= k < |text| :: text[k] == t[k - from];
      if IsMatch(t, i - from, e - from) {
        forall k | i + 2 <= k < e - 1 ensures text[k] != '}' { assert t[k - from] != '}'; }
      }
    }
    if !NoMatchAt(text, i) {
      var e: nat :| IsMatch(text, i, e);
      assert IsMatch(t, i - from, e - from);
    }
    if !NoMatchAt(t, i - from) {
      var e: nat :| IsMatch(t, i - from, e);
      assert IsMatch(text, i, e + from);
    }
  }

  lemma Prepended(text: string, i: nat, j: nat, rest: string)
    requires i < j <= |text|
    ensures [text[i]] + (text[i + 1..j] + rest) == text[i..j] + rest
  {
    assert [text[i]] + text[i + 1..j] == text[i..j];
  }

  lemma ExpandedLiteral(env: Environment, text: string, i: nat)
    requires i < |text| && NoMatchAt(text, i)
    ensures Expanded(env, text[i..]) == [text[i]] + Expanded(env, text[i + 1..])
  {
    MatchShifts(text, i, i, i);
    assert text[i..][1..] == text[i + 1..] && text[i..][..1] == [text[i]];
  }

  lemma {:induction false} ExpandedCopies(env: Environment, text: string, i: nat, j: nat)
    requires i <= j <= |text| && Barren(text, i, j)
    ensures Expanded(env, text[i..]) == text[i..j] + Expanded(env, text[j..])
    decreases j - i
  {
    if i == j {
    } else {
      assert NoMatchAt(text, i);
      ExpandedLiteral(env, text, i);
      ExpandedCopies(env, text, i + 1, j);
      Prepended(text, i, j, Expanded(env, text[j..]));
    }
  }

  lemma ExpandedHead(env: Environment, t: string, j: nat)
    requires IsMatch(t, 0, j)
    ensures Expanded(env, t) == Replacement(env, t[..j]) + Expanded(env, t[j..])
  {
    assert !NoMatchAt(t, 0);
    MatchEndsOnce(t, 0, Head(t).value, j);
  }

  lemma ExpandedReplaces(env: Environment, text: string, i: nat, j: nat)
    requires IsMatch(text, i, j)
    ensures Expanded(env, text[i..]) == Replacement(env, text[i..j]) + Expanded(env, text[j..])
  {
    var t := text[i..];
    MatchShifts(text, i, i, j);
    ExpandedHead(env, t, j - i);
    assert t[..j - i] == text[i..j] && t[j - i..] == text[j..];
  }

  lemma AddAssociates(whole: string, a: string, b: string, c: string, d: string, bcd: string)
    requires whole == a + bcd && bcd == b + (c + d)
    ensures whole == (a + b + c) + d
  {
  }

  /** The text behind the first k placeholders. */
  function Rest(text: string, spans: seq<Span>, k: nat): string
    requires k <= |spans| && Segments(text, spans, |text|)
  {
    assert k > 0 ==> SpanAt(text, spans, k - 1);
    text[After(spans, k)..]
  }

  lemma {:induction false} ExpandedStep(env: Environment, text: string, spans: seq<Span>, k: nat)
    requires k < |spans| && Segments(text, spans, |text|)
    ensures Expanded(env, Rest(text, spans, k))
        == Gap(text, spans, k) + (Replacement(env, Piece(text, spans, k)) + Expanded(env, Rest(text, spans, k + 1)))
  {
    assert SpanAt(text, spans, k);
    var x := spans[k];
    ExpandedCopies(env, text, After(spans, k), x.start);
    ExpandedReplaces(env, text, x.start, x.end);
  }

  /** The rendered front takes one more gap and placeholder over from the expanded rest. */
  lemma {:induction false} RenderedStep(env: Environment, text: string, spans: seq<Span>, k: nat)
    requires k < |spans| && Segments(text, spans, |text|)
    requires Expanded(env, text) == Rendered(env, text, spans, k) + Expanded(env, Rest(text, spans, k))
    ensures Expanded(env, text) == Rendered(env, text, spans, k + 1) + Expanded(env, Rest(text, spans, k + 1))
  {
    var front, gap, put := Rendered(env, text, spans, k), Gap(text, spans, k), Replacement(env, Piece(text, spans, k));
    var rest, behind := Expanded(env, Rest(text, spans, k)), Expanded(env, Rest(text, spans, k + 1));
    ExpandedStep(env, text, spans, k);
    AddAssociates(Expanded(env, text), front, gap, put, behind, rest);
    assert Rendered(env, text, spans, k + 1) == front + gap + put;
  }

  lemma {:induction false} ExpandedUpTo(env: Environment, text: string, spans: seq<Span>, k: nat)
    requires k <= |spans| && Segments(text, spans, |text|)
    ensures Expanded(env, text) == Rendered(env, text, spans, k) + Expanded(env, Rest(text, spans, k))
  {
    if k == 0 {
      assert text[0..] == text;
    } else {
      ExpandedUpTo(env, text, spans, k - 1);
      RenderedStep(env, text, spans, k - 1);
    }
  }

  /** The scan's result is the expansion read from the left. */
  lemma {:induction false} ExpandedIsRendered(env: Environment, text: string, spans: seq<Span>)
    requires Segments(text, spans, |text|)
    ensures Expanded(env, text) == Rendered(env, text, spans, |spans|) + text[After(spans, |spans|)..]
  {
    var e := After(spans, |spans|);
    ExpandedUpTo(env, text, spans, |spans|);
    ExpandedCopies(env, text, e, |text|);
    assert text[|text|..] == "" && text[e..|text|] == text[e..];
  }

  // ----- the scan -----

  /** The end of the match at i, if there is one. */
  method MatchAt(text: string, i: nat) returns (end: Option<nat>)
    requires i <= |text|
    ensures end.Some? ==> IsMatch(text, i, end.value)
    ensures end.None? ==> NoMatchAt(text, i)
  {
    if i + 4 > |text| || text[i] != '$' || text[i + 1] != '{' || text[i + 2] == '}' {
      return None;
    }
    var j := i + 3;
    while j < |text| && text[j] != '}'
      invariant i + 3 <= j <= |text|
      invariant forall k | i + 2 <= k < j :: text[k] != '}'
    {
      j := j + 1;
    }
    if j == |text| {
      return None;
    }
    assert IsMatch(text, i, j + 1);
    return Some(j + 1);
  }

  /** Where the scan is: the placeholders that start before i, and the text up to the last one's end rendered. */
  ghost predicate Scanned(env: Environment, text: string, spans: seq<Span>, i: nat, copied: nat, result: string) {
    && Segments(text, spans, i) && copied == After(spans, |spans|)
    && result == Rendered(env, text, spans, |spans|)
  }

  lemma ScanSkips(env: Environment, text: string, spans: seq<Span>, i: nat, copied: nat, result: string)
    requires Scanned(env, text, spans, i, copied, result) && i < |text| && NoMatchAt(text, i)
    ensures Scanned(env, text, spans, i + 1, copied, result)
  {
  }

  lemma ScanReplaces(
    env: Environment, text: string, spans: seq<Span>, i: nat, copied: nat, result: string, end: nat)
    requires Scanned(env, text, spans, i, copied, result) && IsMatch(text, i, end)
    ensures Scanned(env, text, spans + [Span(i, end)], end, end,
                    result + text[copied..i] + Replacement(env, text[i..end]))
  {
    SpanPushed(env, text, spans, i, end);
  }

  /** Replaces every placeholder of the text, and reports where they were. */
  method Expand(env: Environment, text: string) returns (result: string, spans: seq<Span>)
    ensures Segments(text, spans, |text|)
    ensures result == Rendered(env, text, spans, |spans|) + text[After(spans, |spans|)..]
    ensures result == Expanded(env, text)
  {
    result, spans := "", [];
    var i: nat, copied: nat := 0, 0;
    while i < |text|
      invariant Scanned(env, text, spans, i, copied, result)
      decreases |text| - i
    {
      var end := MatchAt(text, i);
      if end.None? {
        ScanSkips(env, text, spans, i, copied, result);
        i := i + 1;
      } else {
        ScanReplaces(env, text, spans, i, copied, result, end.value);
        spans := spans + [Span(i, end.value)];
        result := result + text[copied..i] + Replacement(env, text[i..end.value]);
        i, copied := end.value, end.value;
      }
    }
    result := result + text[copied..];
    ExpandedIsRendered(env, text, spans);
  }

  // ----- what a placeholder becomes -----

  /** No ":-" starts at one of the first n characters. */
  ghost predicate NoSeparatorIn(body: string, n: nat) {
    forall i | 0 <= i < n && i + 1 < |body| :: !(body[i] == ':' && body[i + 1] == '-')
  }

  /** The body of a placeholder is read up to its first separator, or whole. */
  lemma ResolvedWith(env: Environment, m: string, n: string, d: string)
    requires m == "${" + (n + ":-" + d) + "}" && NoSeparatorIn(n + ":-", |n|)
    ensures |m| >= 4 && Resolved(env, m) == Some(if n in env then env[n] else d)
  {
    var body := n + ":-" + d;
    assert m[2..|m| - 1] == body;
    assert SeparatorAt(body, |n|);
    forall i | 0 <= i < |n| ensures !SeparatorAt(body, i) {
      assert (n + ":-")[i] == body[i] && (n + ":-")[i + 1] == body[i + 1];
    }
    assert body[..|n|] == n && body[|n| + 2..] == d;
  }

  lemma ResolvedWithout(env: Environment, m: string, n: string)
    requires m == "${" + n + "}" && n != "" && NoSeparatorIn(n, |n|)
    ensures |m| >= 4 && Resolved(env, m) == if n in env then Some(env[n]) else None
  {
    assert m[2..|m| - 1] == n;
  }

  lemma HeadPlaceholder(env: Environment, body: string, m: string, r: string)
    requires m == "${" + body + "}" && body != "" && '}' !in body
    ensures |m| >= 4 && Expanded(env, m + r) == Replacement(env, m) + Expanded(env, r)
  {
    var t := m + r;
    assert forall k | 0 <= k < |m| :: t[k] == m[k];
    assert forall k | 2 <= k < |m| - 1 :: m[k] == body[k - 2];
    assert IsMatch(t, 0, |m|);
    ExpandedHead(env, t, |m|);
    assert t[..|m|] == m && t[|m|..] == r;
  }

  lemma BracedDefault(n: string, d: string)
    ensures "${" + n + ":-" + d + "}" == "${" + (n + ":-" + d) + "}"
  {
  }

  /** "${NAME:-default}" becomes the variable if it is set, empty or not, and else the default, as it stands. */
  lemma DefaultedPlaceholder(env: Environment, n: string, d: string, r: string)
    requires '}' !in n && '}' !in d && NoSeparatorIn(n + ":-", |n|)
    ensures Expanded(env, "${" + n + ":-" + d + "}" + r) == (if n in env then env[n] else d) + Expanded(env, r)
  {
    var body := n + ":-" + d;
    var m := "${" + body + "}";
    HeadPlaceholder(env, body, m, r);
    ResolvedWith(env, m, n, d);
    BracedDefault(n, d);
  }

  /** "${NAME}" becomes the variable if it is set, and else stays. */
  lemma PlainPlaceholder(env: Environment, n: string, r: string)
    requires n != "" && '}' !in n && NoSeparatorIn(n, |n|)
    ensures Expanded(env, "${" + n + "}" + r) == (if n in env then env[n] else "${" + n + "}") + Expanded(env, r)
  {
    var m := "${" + n + "}";
    HeadPlaceholder(env, n, m, r);
    ResolvedWithout(env, m, n);
  }

  /** Without a closing brace there is no placeholder. */
  lemma UnclosedStays(env: Environment, text: string)
    requires '}' !in text
    ensures Expanded(env, text) == text
  {
    ExpandedCopies(env, text, 0, |text|);
    assert text[0..] == text && text[0..|text|] == text && text[|text|..] == "";
  }

  // ----- expanding twice -----

  /** Whatever comes behind `s`, no placeholder starts at its i-th character. */
  predicate Inert(s: string, i: nat)
    requires i < |s|
  {
    || s[i] != '$'
    || (i + 1 < |s| && s[i + 1] != '{')
    || (i + 2 < |s| && s[i + 2] == '}')
  }

  /** No placeholder can start in `s`: no dollar ends it or stands before a brace that is not closed at once. */
  ghost predicate InertText(s: string) {
    forall i | 0 <= i < |s| :: Inert(s, i)
  }

  ghost predicate PlainValue(value: Option<string>) {
    value.Some? ==> InertText(value.value)
  }

  /** Every value put in place of a placeholder is inert. */
  ghost predicate PlainValues(env: Environment, text: string, spans: seq<Span>)
    requires Segments(text, spans, |text|)
  {
    forall k | 0 <= k < |spans| :: PlainValue(Resolved(env, Piece(text, spans, k)))
  }

  ghost predicate Settles(env: Environment, text: string) {
    var e := Expanded(env, text);
    Expanded(env, e) == e
  }

  predicate EndsInDollar(s: string) {
    s != "" && s[|s| - 1] == '$'
  }

  /** No placeholder has a dollar directly before it that is not part of another. */
  ghost predicate NoDollarBefore(text: string, spans: seq<Span>)
    requires Segments(text, spans, |text|)
  {
    forall k | 0 <= k < |spans| :: !EndsInDollar(Gap(text, spans, k))
  }

  lemma InertStartsNothing(s: string, i: nat, rest: string)
    requires i < |s| && Inert(s, i)
    ensures NoMatchAt(s + rest, i)
  {
    var t := s + rest;
    assert t[i] == s[i];
    assert i + 1 < |s| ==> t[i + 1] == s[i + 1];
    assert i + 2 < |s| ==> t[i + 2] == s[i + 2];
    forall j: nat ensures !IsMatch(t, i, j) {
      if i + 2 < |s| && s[i + 2] == '}' { assert i + 4 <= j ==> t[i + 2] == '}'; }
    }
  }

  /** An inert string is copied. */
  lemma {:induction false} InertPrefix(env: Environment, a: string, b: string)
    requires InertText(a)
    ensures Expanded(env, a + b) == a + Expanded(env, b)
  {
    var t := a + b;
    forall i | 0 <= i < |a| ensures NoMatchAt(t, i) { InertStartsNothing(a, i, b); }
    ExpandedCopies(env, t, 0, |a|);
    assert t[0..] == t && t[0..|a|] == a && t[|a|..] == b;
  }

  lemma {:induction false} LiteralPrefix(env: Environment, a: string, b: string)
    requires '$' !in a
    ensures Expanded(env, a + b) == a + Expanded(env, b)
  {
    InertPrefix(env, a, b);
  }

  /** A match and the first closing brace from a given place on. */
  lemma BraceEndsMatch(text: string, i: nat, j: nat)
    requires i + 3 <= j < |text| && text[j] == '}'
    requires text[i] == '$' && text[i + 1] == '{' && text[i + 2] != '}'
    ensures !NoMatchAt(text, i)
    decreases j - i
  {
    if forall k | i + 2 <= k < j :: text[k] != '}' {
      assert IsMatch(text, i, j + 1);
    } else {
      var k :| i + 2 <= k < j && text[k] == '}';
      BraceEndsMatch(text, i, k);
    }
  }

  /** In the gap before a placeholder, only a dollar at the very end is not inert. */
  lemma GapInert(text: string, spans: seq<Span>, k: nat, p: nat)
    requires k < |spans| && Segments(text, spans, |text|) && SpanAt(text, spans, k)
    requires p < |Gap(text, spans, k)| && (p + 1 < |Gap(text, spans, k)| || !EndsInDollar(Gap(text, spans, k)))
    ensures Inert(Gap(text, spans, k), p)
  {
    var gap, x := Gap(text, spans, k), spans[k];
    var i := After(spans, k) + p;
    assert gap[p] == text[i];
    if gap[p] == '$' && gap[p + 1] == '{' {
      assert text[i + 1] == gap[p + 1];
      assert NoMatchAt(text, i);
      if text[i + 2] != '}' { BraceEndsMatch(text, i, x.end - 1); }
      assert i + 2 != x.start;
      assert gap[p + 2] == text[i + 2];
    }
  }

  lemma KeptPlaceholder(env: Environment, m: string, b: string)
    requires IsMatch(m, 0, |m|) && Resolved(env, m).None?
    ensures Expanded(env, m + b) == m + Expanded(env, b)
  {
    var t := m + b;
    assert forall k | 0 <= k < |m| :: t[k] == m[k];
    assert IsMatch(t, 0, |m|);
    ExpandedReplaces(env, t, 0, |m|);
    assert t[0..] == t && t[0..|m|] == m && t[|m|..] == b;
  }

  lemma PutBack(env: Environment, m: string, tail: string)
    requires IsMatch(m, 0, |m|) && PlainValue(Resolved(env, m))
    ensures Expanded(env, Replacement(env, m) + tail) == Replacement(env, m) + Expanded(env, tail)
  {
    if Resolved(env, m).Some? {
      InertPrefix(env, Replacement(env, m), tail);
    } else {
      KeptPlaceholder(env, m, tail);
    }
  }

  /** What is behind the last placeholder holds no other. */
  lemma LastRest(env: Environment, text: string, spans: seq<Span>)
    requires Segments(text, spans, |text|)
    ensures Expanded(env, Rest(text, spans, |spans|)) == Rest(text, spans, |spans|)
  {
    var e := After(spans, |spans|);
    ExpandedCopies(env, text, e, |text|);
    assert text[|text|..] == "" && text[e..|text|] == text[e..];
  }

  /** No dollar stands directly before a placeholder, and all values are inert. */
  ghost predicate Tame(env: Environment, text: string, spans: seq<Span>) {
    Segments(text, spans, |text|) && PlainValues(env, text, spans) && NoDollarBefore(text, spans)
  }

  ghost predicate RestSettles(env: Environment, text: string, spans: seq<Span>, k: nat) {
    k <= |spans| && Segments(text, spans, |text|) && Settles(env, Rest(text, spans, k))
  }

  lemma LastRestSettles(env: Environment, text: string, spans: seq<Span>)
    requires Segments(text, spans, |text|)
    ensures RestSettles(env, text, spans, |spans|)
  {
    LastRest(env, text, spans);
  }

  lemma {:induction false} SettlesAt(env: Environment, text: string, spans: seq<Span>, k: nat)
    requires k < |spans| && Tame(env, text, spans)
    requires RestSettles(env, text, spans, k + 1)
    ensures RestSettles(env, text, spans, k)
  {
    assert SpanAt(text, spans, k) && !EndsInDollar(Gap(text, spans, k));
    var gap, m := Gap(text, spans, k), Piece(text, spans, k);
    var tail := Expanded(env, Rest(text, spans, k + 1));
    assert PlainValue(Resolved(env, m));
    ExpandedStep(env, text, spans, k);
    forall p | 0 <= p < |gap| ensures Inert(gap, p) { GapInert(text, spans, k, p); }
    InertPrefix(env, gap, Replacement(env, m) + tail);
    PutBack(env, m, tail);
  }

  /** What holds at n, and of a number whenever of the next, holds at 0. */
  lemma {:induction false} Descend(p: nat -> bool, n: nat)
    requires p(n) && forall j: nat | j < n && p(j + 1) :: p(j)
    ensures p(0)
  {
    if n == 0 {
    } else {
      Descend(p, n - 1);
    }
  }

  /** In a tame text and environment, a second expansion changes nothing. */
  lemma ExpansionIdempotent(env: Environment, text: string, spans: seq<Span>)
    requires Tame(env, text, spans)
    ensures Expanded(env, Expanded(env, text)) == Expanded(env, text)
  {
    LastRestSettles(env, text, spans);
    forall k: nat | k < |spans| && RestSettles(env, text, spans, k + 1) ensures RestSettles(env, text, spans, k) {
      SettlesAt(env, text, spans, k);
    }
    Descend((k: nat) => RestSettles(env, text, spans, k), |spans|);
    assert text[0..] == text;
  }

  // ----- and only then -----

  /** The variable a placeholder names. */
  function NameOf(m: string): string
    requires |m| >= 4
  {
    var body := m[2..|m| - 1];
    var k := FirstSeparator(body);
    if k.Some? then body[..k.value] else body
  }

  const VALUE := "{Z}"

  /** Every variable of the text, and Z, is set to "{Z}". */
  function Adverse(text: string, spans: seq<Span>): Environment
    requires Segments(text, spans, |text|)
  {
    var names := set k | 0 <= k < |spans| :: NameOf(Piece(text, spans, k));
    map n | n in names + {"Z"} :: VALUE
  }

  lemma AdverseResolves(text: string, spans: seq<Span>, k: nat)
    requires k < |spans| && Segments(text, spans, |text|) && SpanAt(text, spans, k)
    ensures Resolved(Adverse(text, spans), Piece(text, spans, k)) == Some(VALUE)
    ensures Replacement(Adverse(text, spans), Piece(text, spans, k)) == VALUE
  {
    assert NameOf(Piece(text, spans, k)) in Adverse(text, spans);
  }

  lemma AdverseIsPlain(text: string, spans: seq<Span>)
    requires Segments(text, spans, |text|)
    ensures PlainValues(Adverse(text, spans), text, spans)
  {
    forall k | 0 <= k < |spans| ensures PlainValue(Resolved(Adverse(text, spans), Piece(text, spans, k))) {
      assert SpanAt(text, spans, k);
      AdverseResolves(text, spans, k);
    }
  }

  lemma ZPlaceholder(env: Environment, rest: string)
    requires "Z" in env && env["Z"] == VALUE
    ensures Expanded(env, "${Z}" + rest) == VALUE + Expanded(env, rest)
  {
    var m := "${Z}";
    var t := m + rest;
    assert IsMatch(t, 0, 4);
    ExpandedHead(env, t, 4);
    assert t[..4] == m && t[4..] == rest && m[2..|m| - 1] == "Z";
  }

  /** A dollar before "{Z}" is lost in the expansion. */
  lemma DollarLost(env: Environment, g: string, rest: string)
    requires "Z" in env && env["Z"] == VALUE && EndsInDollar(g)
    requires forall p | 0 <= p < |g| - 1 :: Inert(g, p)
    ensures Expanded(env, g + (VALUE + rest)) == g[..|g| - 1] + (VALUE + Expanded(env, rest))
  {
    var t, n := g + (VALUE + rest), |g| - 1;
    forall p | 0 <= p < n ensures NoMatchAt(t, p) { InertStartsNothing(g, p, VALUE + rest); }
    ExpandedCopies(env, t, 0, n);
    assert t[n..] == "${Z}" + rest && t[0..] == t && t[0..n] == g[..n];
    ZPlaceholder(env, rest);
  }

  /** A dollar stands directly before one of the placeholders from the k-th on. */
  ghost predicate DollarFrom(text: string, spans: seq<Span>, k: nat)
    requires k <= |spans| && Segments(text, spans, |text|)
    decreases |spans| - k
  {
    k < |spans| && (EndsInDollar(Gap(text, spans, k)) || DollarFrom(text, spans, k + 1))
  }

  lemma {:induction false} DollarFromStart(text: string, spans: seq<Span>, k: nat, j: nat)
    requires k <= j < |spans| && Segments(text, spans, |text|) && EndsInDollar(Gap(text, spans, j))
    ensures DollarFrom(text, spans, k)
    decreases j - k
  {
    if k == j {
    } else {
      DollarFromStart(text, spans, k + 1, j);
    }
  }

  /** From placeholder k on, a second expansion never adds, and loses every dollar before a placeholder. */
  ghost predicate Shrinks(text: string, spans: seq<Span>, k: nat) {
    && k <= |spans| && Segments(text, spans, |text|)
    && var env := Adverse(text, spans);
    && var e := Expanded(env, Rest(text, spans, k));
    && if DollarFrom(text, spans, k) then |Expanded(env, e)| < |e| else |Expanded(env, e)| <= |e|
  }

  lemma GapShrinks(text: string, spans: seq<Span>, k: nat, tail: string)
    requires k < |spans| && Segments(text, spans, |text|) && SpanAt(text, spans, k)
    ensures var env, gap := Adverse(text, spans), Gap(text, spans, k);
            |Expanded(env, gap + (VALUE + tail))|
            == |gap| + |VALUE| + |Expanded(env, tail)| - if EndsInDollar(gap) then 1 else 0
  {
    var env, gap := Adverse(text, spans), Gap(text, spans, k);
    if EndsInDollar(gap) {
      forall p | 0 <= p < |gap| - 1 ensures Inert(gap, p) { GapInert(text, spans, k, p); }
      DollarLost(env, gap, tail);
    } else {
      forall p | 0 <= p < |gap| ensures Inert(gap, p) { GapInert(text, spans, k, p); }
      InertPrefix(env, gap, VALUE + tail);
      LiteralPrefix(env, VALUE, tail);
    }
  }

  lemma {:induction false} ShrinksAt(text: string, spans: seq<Span>, k: nat)
    requires k < |spans| && Segments(text, spans, |text|) && Shrinks(text, spans, k + 1)
    ensures Shrinks(text, spans, k)
  {
    assert SpanAt(text, spans, k);
    var env, tail := Adverse(text, spans), Expanded(Adverse(text, spans), Rest(text, spans, k + 1));
    ExpandedStep(env, text, spans, k);
    AdverseResolves(text, spans, k);
    GapShrinks(text, spans, k, tail);
    assert |Gap(text, spans, k) + (VALUE + tail)| == |Gap(text, spans, k)| + |VALUE| + |tail|;
  }

  lemma LastShrinks(text: string, spans: seq<Span>)
    requires Segments(text, spans, |text|)
    ensures Shrinks(text, spans, |spans|)
  {
    LastRest(Adverse(text, spans), text, spans);
  }

  /** The adverse environment turns a dollar before a placeholder into a text that does not settle. */
  lemma AdverseUnsettles(text: string, spans: seq<Span>, j: nat)
    requires j < |spans| && Segments(text, spans, |text|) && EndsInDollar(Gap(text, spans, j))
    ensures !Settles(Adverse(text, spans), text)
  {
    LastShrinks(text, spans);
    forall k: nat | k < |spans| && Shrinks(text, spans, k + 1) ensures Shrinks(text, spans, k) {
      ShrinksAt(text, spans, k);
    }
    Descend((k: nat) => Shrinks(text, spans, k), |spans|);
    DollarFromStart(text, spans, 0, j);
    assert Rest(text, spans, 0) == text;
  }

  /** A name that a process environment can hold. */
  predicate IsProper(name: string) {
    name != "" && '=' !in name
  }

  /** An environment that a process can have. */
  ghost predicate IsProperEnvironment(env: Environment) {
    forall n | n in env :: IsProper(n)
  }

  ghost predicate ProperNames(text: string, spans: seq<Span>)
    requires Segments(text, spans, |text|)
  {
    forall k | 0 <= k < |spans| :: IsProper(NameOf(Piece(text, spans, k)))
  }

  /**
   A text settles after one expansion under every environment with inert values exactly when
   no dollar stands directly before one of its placeholders.
   */
  lemma IdempotentIff(text: string, spans: seq<Span>)
    requires Segments(text, spans, |text|)
    ensures (forall env | PlainValues(env, text, spans) :: Settles(env, text)) <==> NoDollarBefore(text, spans)
  {
    if NoDollarBefore(text, spans) {
      forall env | PlainValues(env, text, spans) ensures Settles(env, text) {
        ExpansionIdempotent(env, text, spans);
      }
    } else {
      var k :| 0 <= k < |spans| && EndsInDollar(Gap(text, spans, k));
      AdverseIsPlain(text, spans);
      AdverseUnsettles(text, spans, k);
    }
  }

  /** For placeholders that name possible variables, the environments of processes decide already. */
  lemma IdempotentIffProper(text: string, spans: seq<Span>)
    requires Segments(text, spans, |text|) && ProperNames(text, spans)
    ensures (forall env | IsProperEnvironment(env) && PlainValues(env, text, spans) :: Settles(env, text))
            <==> NoDollarBefore(text, spans)
  {
    IdempotentIff(text, spans);
    if !NoDollarBefore(text, spans) {
      var k :| 0 <= k < |spans| && EndsInDollar(Gap(text, spans, k));
      AdverseIsPlain(text, spans);
      AdverseUnsettles(text, spans, k);
      assert IsProperEnvironment(Adverse(text, spans));
    }
  }

  // ----- and only with such values -----

  ghost predicate PlacesAt(env: Environment, text: string, spans: seq<Span>, k: nat, v: string)
    requires k < |spans| && SpanAt(text, spans, k)
  {
    Resolved(env, Piece(text, spans, k)).Some? ==> Resolved(env, Piece(text, spans, k)).value == v
  }

  /** Whatever is put in place of a placeholder of the text is v, and no dollar stands directly before one. */
  ghost predicate Places(env: Environment, text: string, spans: seq<Span>, v: string) {
    && Segments(text, spans, |text|) && NoDollarBefore(text, spans)
    && forall k | 0 <= k < |spans| :: PlacesAt(env, text, spans, k, v)
  }

  lemma FirstNotInert(v: string, n: nat) returns (i: nat)
    requires n <= |v| && exists p :: 0 <= p < n && !Inert(v, p)
    ensures i < n && !Inert(v, i) && forall p | 0 <= p < i :: Inert(v, p)
  {
    if forall p | 0 <= p < n - 1 :: Inert(v, p) {
      i := n - 1;
    } else {
      i := FirstNotInert(v, n - 1);
    }
  }

  /** A text that completes the placeholder begun at the i-th character. */
  function Closing(v: string, i: nat): (w: string)
    requires i < |v|
    ensures '$' !in w
  {
    if i + 1 == |v| then "{Z}" else if i + 2 == |v| then "Z}" else "}"
  }

  lemma ClosingCompletes(v: string, i: nat) returns (j: nat)
    requires i < |v| && !Inert(v, i)
    ensures IsMatch(v + Closing(v, i), i, j)
  {
    var e := v + Closing(v, i);
    assert e[i] == v[i];
    assert i + 1 < |v| ==> e[i + 1] == v[i + 1];
    assert i + 2 < |v| ==> e[i + 2] == v[i + 2];
    BraceEndsMatch(e, i, |e| - 1);
    j :| IsMatch(e, i, j);
  }

  /** A name of n + 1 letters. */
  function LongName(n: nat): (a: string)
    ensures |a| == n + 1 && forall k | 0 <= k < |a| :: a[k] == 'a'
  {
    if n == 0 then "a" else "a" + LongName(n - 1)
  }

  /** No variable short enough to be named in a text of length n has a value. */
  ghost predicate EmptyUpTo(env: Environment, n: nat) {
    forall x | x in env && |x| < n :: env[x] == ""
  }

  lemma EmptyReplacement(env: Environment, m: string)
    requires |m| >= 4 && EmptyUpTo(env, |m|)
    ensures |Replacement(env, m)| <= |m|
  {
    assert |NameOf(m)| < |m|;
  }

  lemma {:induction false} EmptyNeverGrows(env: Environment, t: string)
    requires EmptyUpTo(env, |t|)
    ensures |Expanded(env, t)| <= |t|
    decreases |t|
  {
    if t == "" {
    } else if Head(t).Some? {
      var j := Head(t).value;
      EmptyReplacement(env, t[..j]);
      EmptyNeverGrows(env, t[j..]);
    } else {
      EmptyNeverGrows(env, t[1..]);
    }
  }

  /** The first placeholder of `e` names an empty variable, and so do the others or none: the expansion is shorter. */
  lemma {:induction false} EmptyFirstShrinks(env: Environment, e: string, i: nat, j: nat)
    requires IsMatch(e, i, j) && Barren(e, 0, i) && EmptyUpTo(env, |e|)
    requires NameOf(e[i..j]) in env
    ensures |Expanded(env, e)| < |e|
  {
    ExpandedCopies(env, e, 0, i);
    ExpandedReplaces(env, e, i, j);
    EmptyNeverGrows(env, e[j..]);
    assert e[0..] == e;
    assert Replacement(env, e[i..j]) == "";
  }

  lemma NameOfLong(a: string, m: string)
    requires |a| > 0 && (forall k | 0 <= k < |a| :: a[k] == 'a') && m == "${" + a + "}"
    ensures NameOf(m) == a
  {
    assert m[2..|m| - 1] == a;
  }

  lemma LiteralText(env: Environment, a: string)
    requires '$' !in a
    ensures Expanded(env, a) == a
  {
    LiteralPrefix(env, a, "");
    assert a + "" == a;
  }

  /** "${a}" and a text without dollars. */
  lemma OnePlaceholder(env: Environment, a: string, w: string, v: string)
    requires |a| > 0 && (forall k | 0 <= k < |a| :: a[k] == 'a') && '$' !in w
    requires a in env && env[a] == v
    ensures var text, spans := "${" + a + "}" + w, [Span(0, |a| + 3)];
            Places(env, text, spans, v) && Expanded(env, text) == v + w
  {
    var m := "${" + a + "}";
    var text, spans := m + w, [Span(0, |a| + 3)];
    assert forall k | 0 <= k < |m| :: text[k] == m[k];
    assert IsMatch(text, 0, |m|);
    assert forall i | |m| <= i < |text| :: text[i] == w[i - |m|];
    assert Barren(text, |m|, |text|);
    assert SpanAt(text, spans, 0);
    assert text[0..|m|] == m && text[|m|..] == w && text[0..] == text;
    NameOfLong(a, m);
    ExpandedReplaces(env, text, 0, |m|);
    LiteralText(env, w);
  }

  /** A value that is not inert, in a text made for it. */
  lemma ValueUnsettles(v: string) returns (env: Environment, text: string, spans: seq<Span>)
    requires !InertText(v)
    ensures Places(env, text, spans, v) && !Settles(env, text)
  {
    var i := FirstNotInert(v, |v|);
    var j := ClosingCompletes(v, i);
    var w := Closing(v, i);
    var e := v + w;
    var a, name := LongName(|e|), NameOf(e[i..j]);
    assert |name| < |e| < |a|;
    env := map[name := ""][a := v];
    text, spans := "${" + a + "}" + w, [Span(0, |a| + 3)];
    OnePlaceholder(env, a, w, v);
    forall p | 0 <= p < i ensures NoMatchAt(e, p) { InertStartsNothing(v, p, w); }
    EmptyFirstShrinks(env, e, i, j);
  }

  /**
   Which values are safe to put in place of placeholders: every text without a dollar directly
   before a placeholder settles, whatever of it becomes v, exactly when v is inert.
   */
  lemma ValueIff(v: string)
    ensures (forall env, text, spans | Places(env, text, spans, v) :: Settles(env, text)) <==> InertText(v)
  {
    if InertText(v) {
      forall env, text, spans | Places(env, text, spans, v) ensures Settles(env, text) {
        forall k | 0 <= k < |spans| ensures PlainValue(Resolved(env, Piece(text, spans, k))) {
          assert PlacesAt(env, text, spans, k, v);
        }
        ExpansionIdempotent(env, text, spans);
      }
    } else {
      var env, text, spans := ValueUnsettles(v);
    }
  }

  lemma WholePlaceholder(env: Environment, name: string, m: string)
    requires name in env && |name| == 1 && name[0] != '}' && m == "${" + name + "}"
    ensures Expanded(env, m) == env[name]
  {
    assert IsMatch(m, 0, 4);
    ExpandedReplaces(env, m, 0, 4);
    assert m[0..] == m && m[0..4] == m && m[4..] == "";
    assert m[2..3] == name;
  }

  /** A dollar in a value starts a new placeholder. */
  lemma DollarInValueExpandsAgain()
    ensures var env: Environment := map["A" := "${B}", "B" := "x"];
            Expanded(env, "${A}") == "${B}" && Expanded(env, "${B}") == "x"
  {
    var env: Environment := map["A" := "${B}", "B" := "x"];
    WholePlaceholder(env, "A", "${A}");
    WholePlaceholder(env, "B", "${B}");
  }

  /** A stray dollar meets a value that starts with a brace. */
  lemma StrayDollarExpandsAgain()
    ensures var env: Environment := map["A" := "{B}", "B" := "x"];
            Expanded(env, "$${A}") == "${B}" && Expanded(env, "${B}") == "x"
  {
    var env: Environment := map["A" := "{B}", "B" := "x"];
    WholePlaceholder(env, "A", "${A}");
    WholePlaceholder(env, "B", "${B}");
    assert "$${A}"[1..] == "${A}";
  }
}
