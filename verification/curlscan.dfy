/** Hand-written scanners for the fixed regular expressions of ParseCurlCommand
    (go2postman.go). Each pattern gets an anchored matcher (does it match starting at
    position i, and where is its capture group?) specified by a predicate describing the
    matched text, and one generic leftmost search stands for FindStringSubmatch.

    RE2 semantics: `\s` is exactly tab, newline, form feed, carriage return and space;
    quantifiers are greedy and the leftmost match wins. For these patterns the greedy
    choice is forced (each repeated class is disjoint from what must follow it), so the
    capture at a given position is unique. */
module CurlScan {
  import opened Wrappers
  import opened GoStrings

  /** RE2's `\s`. */
  predicate IsRegexSpace(c: char) {
    c == '\t' || c == '\n' || c == '\U{000C}' || c == '\r' || c == ' '
  }

  predicate IsQuote(c: char) {
    c == '\'' || c == '"'
  }

  predicate NotQuote(c: char) {
    !IsQuote(c)
  }

  predicate NotDoubleQuote(c: char) {
    c != '"'
  }

  predicate NotRegexSpace(c: char) {
    !IsRegexSpace(c)
  }

  predicate IsUpper(c: char) {
    'A' <= c <= 'Z'
  }

  /** End of the longest run of runes satisfying `p` that starts at `i`. */
  function RunEnd(s: string, i: nat, p: char -> bool): (j: nat)
    requires i <= |s|
    ensures i <= j <= |s|
    ensures forall k :: i <= k < j ==> p(s[k])
    ensures j < |s| ==> !p(s[j])
    decreases |s| - i
  {
    if i < |s| && p(s[i]) then RunEnd(s, i + 1, p) else i
  }

  /** A run that is all `p` and stops at a rune that is not `p` (or at the end) is the longest one. */
  lemma RunEndIs(s: string, i: nat, p: char -> bool, j: nat)
    requires i <= j <= |s|
    requires forall k :: i <= k < j ==> p(s[k])
    requires j < |s| ==> !p(s[j])
    ensures RunEnd(s, i, p) == j
  {
  }

  /** The end of a `https?://` at position `a`, if one starts there. */
  function SchemeEnd(s: string, a: nat): (r: Option<nat>)
    ensures r.Some? ==> r.value <= |s| && (r.value == a + 7 || r.value == a + 8)
    ensures r.Some? ==> OccursAt(s, "http://", a) || OccursAt(s, "https://", a)
    ensures r.Some? ==> forall k :: a <= k < r.value ==> !IsQuote(s[k]) && !IsRegexSpace(s[k])
    ensures r.None? <==> !OccursAt(s, "http://", a) && !OccursAt(s, "https://", a)
  {
    if OccursAt(s, "https://", a) then
      assert forall k :: a <= k < a + 8 ==> s[k] == "https://"[k - a];
      Some(a + 8)
    else if OccursAt(s, "http://", a) then
      assert forall k :: a <= k < a + 7 ==> s[k] == "http://"[k - a];
      Some(a + 7)
    else None
  }

  /** An anchored matcher: where the capture group lies when the pattern matches at a position. */
  type Matcher = (string, nat) -> Option<(nat, nat)>

  // ---------------------------------------------------------------------------------
  // `FLAG\s+['"]([^'"]+)['"]` (the -H, -b, -d, --data and --data-raw patterns)

  /** The text from `i` is the flag, white space, a quote, the capture `s[a..b]` (one or
      more runes, none of them a quote) and a closing quote. */
  predicate FlagShape(s: string, flag: string, i: nat, a: nat, b: nat) {
    && OccursAt(s, flag, i)
    && i + |flag| + 2 <= a < b < |s|
    && (forall k :: i + |flag| <= k < a - 1 ==> IsRegexSpace(s[k]))
    && IsQuote(s[a - 1])
    && (forall k :: a <= k < b ==> !IsQuote(s[k]))
    && IsQuote(s[b])
  }

  function FlagAt(s: string, flag: string, i: nat): (r: Option<(nat, nat)>)
    ensures r.Some? ==> FlagShape(s, flag, i, r.value.0, r.value.1)
  {
    if !OccursAt(s, flag, i) then None
    else
      var w := i + |flag|;
      var e := RunEnd(s, w, IsRegexSpace);
      if e == w || e == |s| || !IsQuote(s[e]) then None
      else
        var b := RunEnd(s, e + 1, NotQuote);
        if b == e + 1 || b == |s| then None
        else Some((e + 1, b))
  }

  /** Any text of the flag shape at `i` is found by FlagAt, with the same capture. */
  lemma FlagAtComplete(s: string, flag: string, i: nat, a: nat, b: nat)
    requires FlagShape(s, flag, i, a, b)
    ensures FlagAt(s, flag, i) == Some((a, b))
  {
    RunEndIs(s, i + |flag|, IsRegexSpace, a - 1);
    RunEndIs(s, a, NotQuote, b);
  }

  /** The capture at a position is unique. */
  lemma FlagShapeUnique(s: string, flag: string, i: nat, a: nat, b: nat, a': nat, b': nat)
    requires FlagShape(s, flag, i, a, b) && FlagShape(s, flag, i, a', b')
    ensures a == a' && b == b'
  {
    FlagAtComplete(s, flag, i, a, b);
    FlagAtComplete(s, flag, i, a', b');
  }

  function FlagMatcher(flag: string): Matcher {
    (s, i) => FlagAt(s, flag, i)
  }

  // ---------------------------------------------------------------------------------
  // `-X\s+['"]?([A-Z]+)['"]?`

  /** From `i`: "-X", white space, an optional quote, then the capture `s[a..b]`, the
      longest run of one or more upper-case ASCII letters. The trailing optional quote
      never constrains the match. */
  predicate MethodShape(s: string, i: nat, a: nat, b: nat) {
    && OccursAt(s, "-X", i)
    && i + 2 < a < b <= |s|
    && (forall k :: i + 2 <= k < a - 1 ==> IsRegexSpace(s[k]))
    && (IsRegexSpace(s[a - 1]) || (IsQuote(s[a - 1]) && i + 2 < a - 1))
    && (forall k :: a <= k < b ==> IsUpper(s[k]))
    && (b == |s| || !IsUpper(s[b]))
  }

  function MethodAt(s: string, i: nat): (r: Option<(nat, nat)>)
    ensures r.Some? ==> MethodShape(s, i, r.value.0, r.value.1)
  {
    if !OccursAt(s, "-X", i) then None
    else
      var w := i + 2;
      var e := RunEnd(s, w, IsRegexSpace);
      if e == w || e == |s| then None
      else
        var a := if IsQuote(s[e]) then e + 1 else e;
        var b := RunEnd(s, a, IsUpper);
        if a == b then None else Some((a, b))
  }

  /** Any text of the method shape at `i` is found by MethodAt, with the same capture. */
  lemma MethodAtComplete(s: string, i: nat, a: nat, b: nat)
    requires MethodShape(s, i, a, b)
    ensures MethodAt(s, i) == Some((a, b))
  {
    var w := i + 2;
    if IsRegexSpace(s[a - 1]) {
      RunEndIs(s, w, IsRegexSpace, a);
    } else {
      RunEndIs(s, w, IsRegexSpace, a - 1);
    }
    RunEndIs(s, a, IsUpper, b);
  }

  const MethodMatcher: Matcher := (s, i) => MethodAt(s, i)

  // ---------------------------------------------------------------------------------
  // `"(https?://[^"]+)"`

  /** From `i`: a double quote, then the capture `s[a..b]`, which is `http://` or `https://`
      followed by one or more runes other than a double quote, then a double quote. */
  predicate QuotedUrlShape(s: string, i: nat, a: nat, b: nat) {
    && i < |s| && s[i] == '"' && a == i + 1
    && SchemeEnd(s, a).Some? && SchemeEnd(s, a).value < b < |s|
    && (forall k :: SchemeEnd(s, a).value <= k < b ==> s[k] != '"')
    && s[b] == '"'
  }

  function QuotedUrlAt(s: string, i: nat): (r: Option<(nat, nat)>)
    ensures r.Some? ==> QuotedUrlShape(s, i, r.value.0, r.value.1)
  {
    if i >= |s| || s[i] != '"' then None
    else
      match SchemeEnd(s, i + 1)
      case None => None
      case Some(p) =>
        var b := RunEnd(s, p, NotDoubleQuote);
        if b == p || b == |s| then None else Some((i + 1, b))
  }

  /** Any text of the quoted-URL shape at `i` is found by QuotedUrlAt. */
  lemma QuotedUrlAtComplete(s: string, i: nat, a: nat, b: nat)
    requires QuotedUrlShape(s, i, a, b)
    ensures QuotedUrlAt(s, i) == Some((a, b))
  {
    RunEndIs(s, SchemeEnd(s, a).value, NotDoubleQuote, b);
  }

  const QuotedUrlMatcher: Matcher := (s, i) => QuotedUrlAt(s, i)

  // ---------------------------------------------------------------------------------
  // `\s(https?://\S+)`

  /** From `i`: one white-space rune, then the capture `s[a..b]`, which is `http://` or
      `https://` followed by the longest run of one or more runes that are not white space. */
  predicate BareUrlShape(s: string, i: nat, a: nat, b: nat) {
    && i < |s| && IsRegexSpace(s[i]) && a == i + 1
    && SchemeEnd(s, a).Some? && SchemeEnd(s, a).value < b <= |s|
    && (forall k :: SchemeEnd(s, a).value <= k < b ==> !IsRegexSpace(s[k]))
    && (b == |s| || IsRegexSpace(s[b]))
  }

  function BareUrlAt(s: string, i: nat): (r: Option<(nat, nat)>)
    ensures r.Some? ==> BareUrlShape(s, i, r.value.0, r.value.1)
  {
    if i >= |s| || !IsRegexSpace(s[i]) then None
    else
      match SchemeEnd(s, i + 1)
      case None => None
      case Some(p) =>
        var b := RunEnd(s, p, NotRegexSpace);
        if b == p then None else Some((i + 1, b))
  }

  /** Any text of the bare-URL shape at `i` is found by BareUrlAt. */
  lemma BareUrlAtComplete(s: string, i: nat, a: nat, b: nat)
    requires BareUrlShape(s, i, a, b)
    ensures BareUrlAt(s, i) == Some((a, b))
  {
    RunEndIs(s, SchemeEnd(s, a).value, NotRegexSpace, b);
  }

  const BareUrlMatcher: Matcher := (s, i) => BareUrlAt(s, i)

  // ---------------------------------------------------------------------------------
  // Leftmost search

  /** The leftmost position at or after `i` where `m` matches, with its capture bounds
      (FindStringSubmatch). */
  function FirstMatch(s: string, m: Matcher, i: nat): (r: Option<(nat, nat, nat)>)
    requires i <= |s|
    ensures r.Some? ==> i <= r.value.0 <= |s| && m(s, r.value.0) == Some((r.value.1, r.value.2))
    ensures r.Some? ==> forall j :: i <= j < r.value.0 ==> m(s, j).None?
    ensures r.None? ==> forall j :: i <= j <= |s| ==> m(s, j).None?
    decreases |s| - i
  {
    match m(s, i)
    case Some((a, b)) => Some((i, a, b))
    case None =>
      if i == |s| then None else FirstMatch(s, m, i + 1)
  }

  /** A match with nothing matching before it is the leftmost one. */
  lemma FirstMatchIs(s: string, m: Matcher, i: nat, p: nat)
    requires i <= p <= |s|
    requires m(s, p).Some?
    requires forall j :: i <= j < p ==> m(s, j).None?
    ensures FirstMatch(s, m, i) == Some((p, m(s, p).value.0, m(s, p).value.1))
  {
    var r := FirstMatch(s, m, i);
    assert r.Some?;
    assert r.value.0 == p;
  }

  /** What `[^'"]+` captures: one or more runes, none of them a quote. */
  predicate FlagText(v: string) {
    v != [] && forall k :: 0 <= k < |v| ==> !IsQuote(v[k])
  }

  /** `v` is the capture group of the match `m` found in `s` (FindStringSubmatch(s)[1]),
      and absent when there is no match. */
  predicate CaptureOf(s: string, m: Option<(nat, nat, nat)>, v: Option<string>) {
    match m
    case None => v.None?
    case Some((_, a, b)) => a <= b <= |s| && v == Some(s[a..b])
  }

  /** A capture that starts with a recognised scheme starts with "http://" or "https://". */
  lemma SchemeCapture(s: string, a: nat, b: nat)
    requires SchemeEnd(s, a).Some? && SchemeEnd(s, a).value <= b <= |s|
    ensures HasPrefix(s[a..b], "http://") || HasPrefix(s[a..b], "https://")
  {
    var c := s[a..b];
    if OccursAt(s, "https://", a) {
      assert c[..8] == s[a..a + 8];
    } else {
      assert c[..7] == s[a..a + 7];
    }
  }

  /** The leftmost match of a flag pattern: its capture and the text after the match. */
  function NextFlag(s: string, flag: string): (r: Option<(string, string)>)
    ensures r.Some? ==> FlagText(r.value.0) && |r.value.1| < |s|
    ensures r.None? <==> FirstMatch(s, FlagMatcher(flag), 0).None?
    ensures r.Some? ==> var (_, a, b) := FirstMatch(s, FlagMatcher(flag), 0).value;
      a <= b < |s| && r.value == (s[a..b], s[b + 1..])
  {
    match FirstMatch(s, FlagMatcher(flag), 0)
    case None => None
    case Some((i, a, b)) =>
      assert FlagShape(s, flag, i, a, b);
      Some((s[a..b], s[b + 1..]))
  }

  /** The first capture of a flag pattern (FindStringSubmatch(...)[1]). */
  function FlagValue(s: string, flag: string): (v: Option<string>)
    ensures v.Some? ==> FlagText(v.value)
    ensures CaptureOf(s, FirstMatch(s, FlagMatcher(flag), 0), v)
  {
    match NextFlag(s, flag)
    case None => None
    case Some((v, _)) => Some(v)
  }

  /** Every capture of a flag pattern, left to right, each search resuming after the
      previous match (FindAllStringSubmatch(..., -1)). */
  function FlagValues(s: string, flag: string): (vs: seq<string>)
    ensures forall k :: 0 <= k < |vs| ==> FlagText(vs[k])
    ensures |vs| == 0 <==> FlagValue(s, flag).None?
    ensures |vs| > 0 ==> vs[0] == FlagValue(s, flag).value
    ensures |vs| > 0 ==> vs[1..] == FlagValues(NextFlag(s, flag).value.1, flag)
    decreases |s|
  {
    match NextFlag(s, flag)
    case None => []
    case Some((v, tail)) =>
      var rest := FlagValues(tail, flag);
      var vs := [v] + rest;
      assert vs[1..] == rest;
      assert forall k :: 0 <= k < |vs| ==> FlagText(vs[k]) by {
        forall k | 0 <= k < |vs| ensures FlagText(vs[k]) {
          if k > 0 { assert vs[k] == rest[k - 1]; }
        }
      }
      vs
  }

  /** The capture of the method pattern. */
  function MethodValue(s: string): (v: Option<string>)
    ensures v.Some? ==> v.value != [] && forall k :: 0 <= k < |v.value| ==> IsUpper(v.value[k])
    ensures CaptureOf(s, FirstMatch(s, MethodMatcher, 0), v)
  {
    match FirstMatch(s, MethodMatcher, 0)
    case None => None
    case Some((i, a, b)) =>
      assert MethodShape(s, i, a, b);
      Some(s[a..b])
  }

  /** The capture of the double-quoted URL pattern. */
  function QuotedUrlValue(s: string): (v: Option<string>)
    ensures v.Some? ==> (HasPrefix(v.value, "http://") || HasPrefix(v.value, "https://")) && '"' !in v.value
    ensures CaptureOf(s, FirstMatch(s, QuotedUrlMatcher, 0), v)
  {
    match FirstMatch(s, QuotedUrlMatcher, 0)
    case None => None
    case Some((i, a, b)) =>
      assert QuotedUrlShape(s, i, a, b);
      SchemeCapture(s, a, b);
      Some(s[a..b])
  }

  /** The capture of the bare URL pattern. */
  function BareUrlValue(s: string): (v: Option<string>)
    ensures v.Some? ==> (HasPrefix(v.value, "http://") || HasPrefix(v.value, "https://"))
    ensures v.Some? ==> forall k :: 0 <= k < |v.value| ==> !IsRegexSpace(v.value[k])
    ensures CaptureOf(s, FirstMatch(s, BareUrlMatcher, 0), v)
  {
    match FirstMatch(s, BareUrlMatcher, 0)
    case None => None
    case Some((i, a, b)) =>
      assert BareUrlShape(s, i, a, b);
      SchemeCapture(s, a, b);
      Some(s[a..b])
  }

  // ---------------------------------------------------------------------------------
  // Round trips: a flag written the way cURL command lines write it is found again.

  /** A flag, one space and a single-quoted value: `-H 'value'`. */
  function RenderFlag(flag: string, v: string): string {
    flag + " '" + v + "'"
  }

  /** Several flags, each preceded by a space. */
  function RenderFlags(flag: string, vs: seq<string>): string
    decreases |vs|
  {
    if |vs| == 0 then "" else " " + RenderFlag(flag, vs[0]) + RenderFlags(flag, vs[1..])
  }

  /** A flag as the patterns spell it: not empty, and without white space. */
  predicate FlagName(flag: string) {
    flag != [] && forall k :: 0 <= k < |flag| ==> !IsRegexSpace(flag[k])
  }

  /** No match of a flag pattern starts inside text that does not contain the flag and is
      followed by the flag itself: an occurrence straddling the boundary would have to be
      followed by white space inside the flag. */
  lemma NoEarlyMatch(pre: string, flag: string, t: string)
    requires FlagName(flag) && !Contains(pre, flag)
    ensures forall j :: 0 <= j < |pre| ==> FlagMatcher(flag)(pre + flag + t, j).None?
  {
    var s := pre + flag + t;
    forall j | 0 <= j < |pre| ensures FlagAt(s, flag, j).None? {
      if j + |flag| <= |pre| {
        assert s[j..j + |flag|] == pre[j..j + |flag|];
        assert OccursAt(s, flag, j) == OccursAt(pre, flag, j);
      } else {
        var w := j + |flag|;
        assert s[w] == flag[w - |pre|];
        assert !IsRegexSpace(s[w]);
        RunEndIs(s, w, IsRegexSpace, w);
      }
    }
  }

  /** Appending a rune the flag does not hold creates no occurrence of it. */
  lemma ContainsAppendRune(pre: string, c: char, flag: string)
    requires c !in flag && !Contains(pre, flag)
    ensures !Contains(pre + [c], flag)
  {
    var s := pre + [c];
    forall i | 0 <= i <= |s| ensures !OccursAt(s, flag, i) {
      if i + |flag| <= |pre| {
        assert s[i..i + |flag|] == pre[i..i + |flag|];
        assert OccursAt(s, flag, i) == OccursAt(pre, flag, i);
      } else if i + |flag| == |s| && i <= |pre| {
        assert s[i..i + |flag|][|pre| - i] == c;
      }
    }
  }

  /** The text of a rendered flag has the flag shape where it starts. */
  lemma RenderedFlagShape(pre: string, flag: string, v: string, post: string)
    requires flag != [] && FlagText(v)
    ensures var s := pre + RenderFlag(flag, v) + post;
      var a := |pre| + |flag| + 2;
      && a + |v| < |s|
      && FlagShape(s, flag, |pre|, a, a + |v|)
      && s[a..a + |v|] == v
      && s[a + |v| + 1..] == post
  {
    var s := pre + RenderFlag(flag, v) + post;
    var a := |pre| + |flag| + 2;
    var b := a + |v|;
    assert s == pre + flag + " '" + v + "'" + post;
    assert s[|pre|..|pre| + |flag|] == flag;
    assert s[a - 2] == ' ' && s[a - 1] == '\'' && s[b] == '\'';
    assert s[a..b] == v;
    assert forall k :: a <= k < b ==> s[k] == v[k - a];
    assert s[b + 1..] == post;
  }

  /** A rendered flag after text that does not contain the flag is the leftmost match. */
  lemma FlagMatchRendered(pre: string, flag: string, v: string, post: string)
    requires FlagName(flag) && !Contains(pre, flag)
    requires FlagText(v)
    ensures NextFlag(pre + RenderFlag(flag, v) + post, flag) == Some((v, post))
  {
    var s := pre + RenderFlag(flag, v) + post;
    var a := |pre| + |flag| + 2;
    var b := a + |v|;
    RenderedFlagShape(pre, flag, v, post);
    FlagAtComplete(s, flag, |pre|, a, b);
    assert FlagMatcher(flag)(s, |pre|) == Some((a, b));
    assert s == pre + flag + (" '" + v + "'" + post);
    NoEarlyMatch(pre, flag, " '" + v + "'" + post);
    FirstMatchIs(s, FlagMatcher(flag), 0, |pre|);
  }

  /** The value of a rendered flag is read back. */
  lemma FlagValueRendered(pre: string, flag: string, v: string, post: string)
    requires FlagName(flag) && !Contains(pre, flag)
    requires FlagText(v)
    ensures FlagValue(pre + RenderFlag(flag, v) + post, flag) == Some(v)
  {
    FlagMatchRendered(pre, flag, v, post);
  }

  /** Every value of a run of rendered flags is read back, in order. */
  lemma FlagValuesRendered(pre: string, flag: string, vs: seq<string>)
    requires FlagName(flag) && !Contains(pre, flag)
    requires forall k :: 0 <= k < |vs| ==> FlagText(vs[k])
    ensures FlagValues(pre + RenderFlags(flag, vs), flag) == vs
  {
    if |vs| == 0 {
      assert pre + RenderFlags(flag, vs) == pre;
      NoFlagNoValues(pre, flag);
    } else {
      RenderedFlagsRead(flag, vs[1..]);
      FlagValuesRenderedCons(pre, flag, vs);
    }
  }

  /** A run of rendered flags on its own is read back, in order. */
  lemma {:induction false} RenderedFlagsRead(flag: string, vs: seq<string>)
    requires FlagName(flag)
    requires forall k :: 0 <= k < |vs| ==> FlagText(vs[k])
    ensures FlagValues(RenderFlags(flag, vs), flag) == vs
    decreases |vs|
  {
    if |vs| == 0 {
      NoFlagNoValues("", flag);
    } else {
      RenderedFlagsRead(flag, vs[1..]);
      assert "" + RenderFlags(flag, vs) == RenderFlags(flag, vs);
      FlagValuesRenderedCons("", flag, vs);
    }
  }

  /** Once the rest of a run is read back, the whole run is. */
  lemma FlagValuesRenderedCons(pre: string, flag: string, vs: seq<string>)
    requires FlagName(flag) && !Contains(pre, flag)
    requires |vs| > 0 && FlagText(vs[0])
    requires FlagValues(RenderFlags(flag, vs[1..]), flag) == vs[1..]
    ensures FlagValues(pre + RenderFlags(flag, vs), flag) == vs
  {
    FlagValuesRenderedHead(pre, flag, vs);
    assert vs == [vs[0]] + vs[1..];
  }

  /** The first of a run of rendered flags is read, and the search goes on with the rest. */
  lemma FlagValuesRenderedHead(pre: string, flag: string, vs: seq<string>)
    requires FlagName(flag) && !Contains(pre, flag)
    requires |vs| > 0 && FlagText(vs[0])
    ensures FlagValues(pre + RenderFlags(flag, vs), flag) == [vs[0]] + FlagValues(RenderFlags(flag, vs[1..]), flag)
  {
    var post := RenderFlags(flag, vs[1..]);
    assert pre + RenderFlags(flag, vs) == pre + " " + RenderFlag(flag, vs[0]) + post;
    FlagValuesRenderedStep(pre, flag, vs[0], post);
  }

  /** Text that does not contain the flag yields no values. */
  lemma NoFlagNoValues(s: string, flag: string)
    requires flag != [] && !Contains(s, flag)
    ensures FlagValues(s, flag) == []
  {
    assert FirstMatch(s, FlagMatcher(flag), 0).None?;
  }

  lemma FlagValuesRenderedStep(pre: string, flag: string, v: string, post: string)
    requires FlagName(flag) && !Contains(pre, flag)
    requires FlagText(v)
    ensures FlagValues(pre + " " + RenderFlag(flag, v) + post, flag) == [v] + FlagValues(post, flag)
  {
    ContainsAppendRune(pre, ' ', flag);
    FlagMatchRendered(pre + " ", flag, v, post);
  }

  /** Without the flag's text anywhere there is no match. */
  lemma NoFlagNoValue(s: string, flag: string)
    requires !Contains(s, flag)
    ensures FlagValue(s, flag).None?
  {
  }

  /** `-X`, a space and an upper-case method is read back, when nothing before holds a '-'. */
  lemma MethodValueRendered(pre: string, m: string, post: string)
    requires '-' !in pre
    requires m != [] && forall k :: 0 <= k < |m| ==> IsUpper(m[k])
    requires post == [] || !IsUpper(post[0])
    ensures MethodValue(pre + "-X " + m + post) == Some(m)
  {
    var s := pre + "-X " + m + post;
    var a := |pre| + 3;
    var b := a + |m|;
    assert s[|pre|..|pre| + 2] == "-X";
    assert s[a - 1] == ' ';
    assert s[a..b] == m;
    assert forall k :: a <= k < b ==> s[k] == m[k - a];
    assert b < |s| ==> s[b] == post[0];
    assert MethodShape(s, |pre|, a, b);
    MethodAtComplete(s, |pre|, a, b);
    forall j | 0 <= j < |pre| ensures MethodMatcher(s, j).None? {
      assert s[j] == pre[j];
    }
    FirstMatchIs(s, MethodMatcher, 0, |pre|);
  }

  /** Without "-X" anywhere there is no method. */
  lemma NoMethodFlag(s: string)
    requires !Contains(s, "-X")
    ensures MethodValue(s).None?
  {
  }

  /** Without "http://" and "https://" no URL is found by either pattern. */
  lemma NoSchemeNoUrl(s: string)
    requires !Contains(s, "http://") && !Contains(s, "https://")
    ensures QuotedUrlValue(s).None? && BareUrlValue(s).None?
  {
    forall j: nat ensures QuotedUrlMatcher(s, j).None? && BareUrlMatcher(s, j).None? {
      assert SchemeEnd(s, j + 1).None?;
    }
  }

  /** A URL as it is written inside double quotes: `http://` or `https://`, at least one
      more rune, and no double quote. */
  predicate QuotableUrl(u: string) {
    '"' !in u && SchemeEnd(u, 0).Some? && SchemeEnd(u, 0).value < |u|
  }

  /** A scheme is recognised at the same place inside a larger text, when the text goes
      on with a double quote. */
  lemma SchemeEndShift(pre: string, u: string, post: string)
    requires QuotableUrl(u)
    ensures SchemeEnd(pre + u + post, |pre|) == Some(|pre| + SchemeEnd(u, 0).value)
  {
    var s := pre + u + post;
    var a := |pre|;
    assert forall n :: 0 <= n <= |u| ==> s[a..a + n] == u[..n];
    assert OccursAt(s, "https://", a) <==> OccursAt(u, "https://", 0);
    assert OccursAt(s, "http://", a) <==> OccursAt(u, "http://", 0);
  }

  /** A double-quoted URL after text without a double quote is the URL found. */
  lemma QuotedUrlRendered(pre: string, u: string, post: string)
    requires '"' !in pre && QuotableUrl(u)
    requires post != [] && post[0] == '"'
    ensures QuotedUrlValue(pre + "\"" + u + post) == Some(u)
  {
    var s := pre + "\"" + u + post;
    var a := |pre| + 1;
    var b := a + |u|;
    assert s == (pre + "\"") + u + post;
    SchemeEndShift(pre + "\"", u, post);
    assert s[a..b] == u;
    assert forall k :: a <= k < b ==> s[k] == u[k - a];
    assert s[b] == '"';
    assert QuotedUrlShape(s, |pre|, a, b);
    QuotedUrlAtComplete(s, |pre|, a, b);
    assert QuotedUrlMatcher(s, |pre|) == Some((a, b));
    forall j | 0 <= j < |pre| ensures QuotedUrlMatcher(s, j).None? {
      assert s[j] == pre[j];
    }
    FirstMatchIs(s, QuotedUrlMatcher, 0, |pre|);
  }
}
