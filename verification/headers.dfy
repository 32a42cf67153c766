/** Header lines: `key: value` split at the first ':' with both halves trimmed
    (go2postman.go, the cURL `-H` loop and the header walk of ParseHttpRequest). */
module Headers {
  import opened Wrappers
  import opened GoStrings
  import opened Postman

  /** A header line cut at its first ':'; both halves are trimmed of white space and
      the header's type is "text". A line without ':' is not a header. */
  function ParseHeaderLine(line: string): (h: Option<Header>)
    ensures h.None? <==> ':' !in line
    ensures h.Some? ==> h.value.kind == "text"
    ensures h.Some? ==> ':' !in h.value.key
    ensures h.Some? ==> Trimmed(h.value.key) && Trimmed(h.value.value)
  {
    ContainsChar(line, ':');
    match Cut(line, ":")
    case None => None
    case Some((k, v)) =>
      ContainsChar(k, ':');
      TrimSpaceKeeps(k, ':');
      Some(Header(TrimSpace(k), TrimSpace(v), "text"))
  }

  /** Every line holding a ':' is `before + ":" + after` with a colon-free `before`, and
      parses to the two trimmed halves. */
  lemma ParseHeaderLineOfParts(before: string, after: string)
    requires ':' !in before
    ensures ParseHeaderLine(before + ":" + after) == Some(Header(TrimSpace(before), TrimSpace(after), "text"))
  {
    CutAt(before, ":", after);
  }

  /** A header written as `key: value` reads back as itself, for a trimmed key without ':'
      and a trimmed value. */
  lemma HeaderRoundTrip(h: Header)
    requires h.kind == "text" && ':' !in h.key
    requires Trimmed(h.key) && Trimmed(h.value)
    ensures ParseHeaderLine(RenderHeader(h)) == Some(h)
  {
    assert RenderHeader(h) == h.key + ":" + (" " + h.value);
    ParseHeaderLineOfParts(h.key, " " + h.value);
    TrimSpaceOfTrimmed(h.key);
    TrimSpaceDropsLeadingSpace(h.value);
  }

  /** The conventional textual form of a header. */
  function RenderHeader(h: Header): string {
    h.key + ": " + h.value
  }

  /** One leading space is trimmed away again. */
  lemma TrimSpaceDropsLeadingSpace(v: string)
    requires Trimmed(v)
    ensures TrimSpace(" " + v) == v
  {
    var s := " " + v;
    var r := TrimSpace(s);
    if v == "" {
      assert IsSpace(s[0]);
    } else {
      assert LeadingSpace(s) == 1 by {
        assert s[1] == v[0];
      }
      assert r == s[1..1 + |r|];
      assert s[|s| - 1] == v[|v| - 1];
      assert s[1..] == v;
    }
  }

  /** The headers of a run of lines: one per line holding a ':', in order. */
  function HeaderEntries(lines: seq<string>): (hs: seq<Header>)
    ensures |hs| <= |lines|
    ensures forall k :: 0 <= k < |hs| ==> hs[k].kind == "text" && ':' !in hs[k].key
    decreases |lines|
  {
    if |lines| == 0 then []
    else
      var rest := HeaderEntries(lines[1..]);
      match ParseHeaderLine(lines[0])
      case None => rest
      case Some(h) =>
        var hs := [h] + rest;
        assert forall k :: 0 <= k < |hs| ==> hs[k].kind == "text" && ':' !in hs[k].key by {
          forall k | 0 <= k < |hs| ensures hs[k].kind == "text" && ':' !in hs[k].key {
            if k > 0 { assert hs[k] == rest[k - 1]; }
          }
        }
        hs
  }

  /** Number of lines that hold a ':'. */
  function ColonLines(lines: seq<string>): nat
    decreases |lines|
  {
    if |lines| == 0 then 0
    else (if ':' in lines[0] then 1 else 0) + ColonLines(lines[1..])
  }

  /** Exactly one header per line that holds a ':'. */
  lemma {:induction false} HeaderEntriesCount(lines: seq<string>)
    ensures |HeaderEntries(lines)| == ColonLines(lines)
    decreases |lines|
  {
    if |lines| > 0 {
      HeaderEntriesCount(lines[1..]);
    }
  }

  /** The headers of two runs of lines are those of the first run, then those of the second. */
  lemma {:induction false} HeaderEntriesAppend(a: seq<string>, b: seq<string>)
    ensures HeaderEntries(a + b) == HeaderEntries(a) + HeaderEntries(b)
    decreases |a|
  {
    if |a| == 0 {
      assert a + b == b;
    } else {
      assert (a + b)[0] == a[0];
      assert (a + b)[1..] == a[1..] + b;
      HeaderEntriesAppend(a[1..], b);
    }
  }

  /** Headers written out one per line. */
  function RenderHeaders(hs: seq<Header>): (lines: seq<string>)
    ensures |lines| == |hs|
    ensures forall k :: 0 <= k < |hs| ==> lines[k] == RenderHeader(hs[k])
  {
    seq(|hs|, k requires 0 <= k < |hs| => RenderHeader(hs[k]))
  }

  /** Written-out headers, one per line, read back as the same headers in the same order. */
  lemma {:induction false} HeaderEntriesRoundTrip(hs: seq<Header>)
    requires forall k :: 0 <= k < |hs| ==>
      hs[k].kind == "text" && ':' !in hs[k].key && Trimmed(hs[k].key) && Trimmed(hs[k].value)
    ensures HeaderEntries(RenderHeaders(hs)) == hs
    decreases |hs|
  {
    if |hs| == 0 {
      assert RenderHeaders(hs) == [];
    } else {
      var tail := hs[1..];
      assert forall k :: 0 <= k < |tail| ==> tail[k] == hs[k + 1];
      assert RenderHeaders(hs) == [RenderHeader(hs[0])] + RenderHeaders(tail);
      HeaderEntriesRoundTrip(tail);
      HeaderRoundTrip(hs[0]);
      HeaderEntriesCons(RenderHeader(hs[0]), RenderHeaders(tail), hs[0]);
      assert hs == [hs[0]] + tail;
    }
  }

  /** A header line in front of a run of lines puts its header in front of theirs. */
  lemma HeaderEntriesCons(line: string, rest: seq<string>, h: Header)
    requires ParseHeaderLine(line) == Some(h)
    ensures HeaderEntries([line] + rest) == [h] + HeaderEntries(rest)
  {
    assert ([line] + rest)[1..] == rest;
  }
}
