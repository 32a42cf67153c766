/** The handful of Go `strings`, `unicode` and `fmt` operations the converter relies on,
    over strings taken as sequences of Unicode code points. */
module GoStrings {
  import opened Wrappers

  /** `s` begins with `p` (strings.HasPrefix). */
  predicate HasPrefix(s: string, p: string) {
    |p| <= |s| && s[..|p|] == p
  }

  /** `s` ends with `p` (strings.HasSuffix). */
  predicate HasSuffix(s: string, p: string) {
    |p| <= |s| && s[|s| - |p|..] == p
  }

  /** `p` occurs in `s` starting at index `i`. */
  predicate OccursAt(s: string, p: string, i: int) {
    0 <= i && i + |p| <= |s| && s[i..i + |p|] == p
  }

  lemma OccursAtTail(s: string, p: string, j: int)
    requires |s| > 0 && j >= 0
    ensures OccursAt(s[1..], p, j) <==> OccursAt(s, p, j + 1)
  {
    if 0 <= j && j + |p| <= |s| - 1 {
      assert s[1..][j..j + |p|] == s[j + 1..j + 1 + |p|];
    }
  }

  /** Index of the leftmost occurrence of `p` in `s` (strings.Index, with None for -1). */
  function Index(s: string, p: string): (r: Option<nat>)
    ensures r.Some? ==> OccursAt(s, p, r.value)
    ensures r.Some? ==> forall j :: 0 <= j < r.value ==> !OccursAt(s, p, j)
    ensures r.None? ==> forall j :: !OccursAt(s, p, j)
    decreases |s|
  {
    if HasPrefix(s, p) then
      assert OccursAt(s, p, 0);
      Some(0)
    else if |s| == 0 then
      None
    else
      match Index(s[1..], p)
      case None =>
        assert forall j :: !OccursAt(s, p, j) by {
          forall j ensures !OccursAt(s, p, j) {
            if j >= 1 { OccursAtTail(s, p, j - 1); }
          }
        }
        None
      case Some(i) =>
        OccursAtTail(s, p, i);
        assert forall j :: 0 <= j < i + 1 ==> !OccursAt(s, p, j) by {
          forall j | 0 <= j < i + 1 ensures !OccursAt(s, p, j) {
            if j >= 1 { OccursAtTail(s, p, j - 1); }
          }
        }
        Some(i + 1)
  }

  /** `p` occurs somewhere in `s` (strings.Contains). */
  function Contains(s: string, p: string): (b: bool)
    ensures b <==> exists i :: OccursAt(s, p, i)
  {
    Index(s, p).Some?
  }

  /** For a one-rune pattern, containment is membership. */
  lemma ContainsChar(s: string, c: char)
    ensures Contains(s, [c]) <==> c in s
  {
    if c in s {
      var i :| 0 <= i < |s| && s[i] == c;
      assert s[i..i + 1] == [c];
      assert OccursAt(s, [c], i);
    }
    if Contains(s, [c]) {
      var i :| OccursAt(s, [c], i);
      assert s[i] == s[i..i + 1][0];
    }
  }

  /** An occurrence inside a prefix of `s` is an occurrence in `s`. */
  lemma OccursInPrefix(s: string, n: nat, p: string, j: int)
    requires n <= |s|
    requires OccursAt(s[..n], p, j)
    ensures OccursAt(s, p, j)
  {
    assert s[..n][j..j + |p|] == s[j..j + |p|];
  }

  /** No occurrence lies wholly before the leftmost one. */
  lemma PrefixBeforeFirst(s: string, i: nat, p: string)
    requires i <= |s| && p != []
    requires forall j :: 0 <= j < i ==> !OccursAt(s, p, j)
    ensures !Contains(s[..i], p)
  {
    forall j | OccursAt(s[..i], p, j) ensures OccursAt(s, p, j) {
      OccursInPrefix(s, i, p, j);
    }
  }

  /** The text before and after the leftmost `sep` (strings.Cut, or strings.SplitN(s, sep, 2)). */
  function Cut(s: string, sep: string): (r: Option<(string, string)>)
    ensures r.None? <==> !Contains(s, sep)
    ensures r.Some? ==> s == r.value.0 + sep + r.value.1
    ensures r.Some? ==> forall j :: 0 <= j < |r.value.0| ==> !OccursAt(s, sep, j)
    ensures r.Some? && sep != [] ==> !Contains(r.value.0, sep)
  {
    match Index(s, sep)
    case None => None
    case Some(i) =>
      assert s == s[..i] + s[i..i + |sep|] + s[i + |sep|..];
      assert sep != [] ==> !Contains(s[..i], sep) by {
        if sep != [] { PrefixBeforeFirst(s, i, sep); }
      }
      Some((s[..i], s[i + |sep|..]))
  }

  /** Cutting `a + sep + b` at `sep` gives back `a` and `b` when the first rune of
      the separator does not appear in `a`. */
  lemma CutAt(a: string, sep: string, b: string)
    requires sep != []
    requires sep[0] !in a
    ensures Cut(a + sep + b, sep) == Some((a, b))
  {
    var s := a + sep + b;
    assert s[|a|..|a| + |sep|] == sep;
    assert OccursAt(s, sep, |a|);
    var r := Cut(s, sep);
    var x := r.value.0;
    assert |x| <= |a|;
    assert x == s[..|x|] == a;
    assert r.value.1 == s[|a| + |sep|..] == b;
  }

  /** Cutting `a + "://" + b` at "://" gives back `a` and `b` whenever `a` does not contain
      "://": no occurrence can straddle the end of `a`, since the one after it starts with ':'
      where "://" has '/'. */
  lemma CutAtScheme(a: string, b: string)
    requires !Contains(a, "://")
    ensures Cut(a + "://" + b, "://") == Some((a, b))
  {
    var s := a + "://" + b;
    assert s[|a|..|a| + 3] == "://";
    assert OccursAt(s, "://", |a|);
    forall j | 0 <= j < |a| ensures !OccursAt(s, "://", j) {
      if j + 3 <= |a| {
        assert s[j..j + 3] == a[j..j + 3];
        assert !OccursAt(a, "://", j);
      } else if j + 2 == |a| {
        assert s[j + 2] == ':';
      } else {
        assert s[j + 1] == ':';
      }
    }
    var r := Cut(s, "://");
    var x := r.value.0;
    assert s[|x|..|x| + 3] == "://";
    assert OccursAt(s, "://", |x|);
    assert |x| == |a|;
    assert x == s[..|x|] == a;
    assert r.value.1 == s[|a| + 3..] == b;
  }

  /** A string in which the first rune of `sep` never appears does not contain `sep`. */
  lemma NoLeadRuneNoOccurrence(s: string, sep: string)
    requires sep != []
    requires sep[0] !in s
    ensures !Contains(s, sep)
  {
  }

  /** A string lacking some rune of `p` does not contain `p`. */
  lemma NoRuneNoOccurrence(s: string, p: string, k: nat)
    requires k < |p| && p[k] !in s
    ensures !Contains(s, p)
  {
  }

  /** The pieces joined with `sep` between them (strings.Join). */
  function Join(parts: seq<string>, sep: string): string
    decreases |parts|
  {
    if |parts| == 0 then ""
    else if |parts| == 1 then parts[0]
    else parts[0] + sep + Join(parts[1..], sep)
  }

  /** Every piece of `s` between occurrences of `sep`, scanning left to right (strings.Split).
      Go splits into single runes for an empty separator; no caller does that. */
  function Split(s: string, sep: string): (r: seq<string>)
    requires sep != []
    ensures |r| >= 1
    ensures Join(r, sep) == s
    ensures forall k :: 0 <= k < |r| ==> !Contains(r[k], sep)
    decreases |s|
  {
    match Cut(s, sep)
    case None => [s]
    case Some((before, after)) =>
      var rest := Split(after, sep);
      var r := [before] + rest;
      assert r[1..] == rest;
      assert forall k :: 1 <= k < |r| ==> r[k] == rest[k - 1];
      r
  }

  /** A suffix of `b` is a suffix of `a + b`. */
  lemma SuffixThrough(a: string, b: string, t: string)
    requires HasSuffix(b, t)
    ensures HasSuffix(a + b, t)
  {
    assert (a + b)[|a + b| - |t|..] == b[|b| - |t|..];
  }

  /** The join ends with its last piece, preceded by the separator when there are two or more. */
  lemma {:induction false} JoinLast(parts: seq<string>, sep: string)
    requires |parts| >= 1
    ensures HasSuffix(Join(parts, sep), Last(parts))
    ensures |parts| >= 2 ==> HasSuffix(Join(parts, sep), sep + Last(parts))
    decreases |parts|
  {
    if |parts| == 1 {
      assert Join(parts, sep)[|Join(parts, sep)| - |Last(parts)|..] == Last(parts);
    } else {
      var rest := parts[1..];
      assert Last(rest) == Last(parts);
      JoinLast(rest, sep);
      SuffixThrough(parts[0] + sep, Join(rest, sep), Last(parts));
      if |rest| >= 2 {
        SuffixThrough(parts[0] + sep, Join(rest, sep), sep + Last(parts));
      } else {
        assert Join(rest, sep) == Last(parts);
        assert parts[0] + sep + Last(parts) == parts[0] + (sep + Last(parts));
        assert HasSuffix(sep + Last(parts), sep + Last(parts));
        SuffixThrough(parts[0], sep + Last(parts), sep + Last(parts));
      }
    }
  }

  /** Split finds a second piece exactly when the separator occurs, and the last piece is
      what follows the last separator. */
  lemma SplitShape(s: string, sep: string)
    requires sep != []
    ensures Contains(s, sep) <==> |Split(s, sep)| >= 2
    ensures HasSuffix(s, Last(Split(s, sep)))
    ensures |Split(s, sep)| >= 2 ==> HasSuffix(s, sep + Last(Split(s, sep)))
  {
    var r := Split(s, sep);
    JoinLast(r, sep);
    if |r| >= 2 {
      assert s == r[0] + sep + Join(r[1..], sep);
      assert s[|r[0]|..|r[0]| + |sep|] == sep;
      assert OccursAt(s, sep, |r[0]|);
    }
  }

  /** Splitting the join of pieces recovers them, as long as no piece holds the
      separator's first rune. */
  lemma {:induction false} SplitJoin(parts: seq<string>, sep: string)
    requires sep != []
    requires |parts| >= 1
    requires forall k :: 0 <= k < |parts| ==> sep[0] !in parts[k]
    ensures Split(Join(parts, sep), sep) == parts
    decreases |parts|
  {
    if |parts| == 1 {
      NoLeadRuneNoOccurrence(parts[0], sep);
    } else {
      CutAt(parts[0], sep, Join(parts[1..], sep));
      SplitJoin(parts[1..], sep);
    }
  }

  /** A one-rune separator splits `a`, then `b`, when they are joined by it. */
  lemma SplitAtRune(a: string, b: string, c: char)
    ensures Split(a + [c] + b, [c]) == Split(a, [c]) + Split(b, [c])
  {
    var pa := Split(a, [c]);
    var pb := Split(b, [c]);
    var ps := pa + pb;
    forall k | 0 <= k < |ps| ensures [c][0] !in ps[k] {
      ContainsChar(ps[k], c);
      if k < |pa| { assert ps[k] == pa[k]; } else { assert ps[k] == pb[k - |pa|]; }
    }
    JoinAppend(pa, pb, [c]);
    SplitJoin(ps, [c]);
  }

  /** Text without the separator rune is a single piece. */
  lemma SplitOfRuneFree(s: string, c: char)
    requires c !in s
    ensures Split(s, [c]) == [s]
  {
    SplitJoin([s], [c]);
  }

  /** A rune of the join is a rune of some piece or of the separator. */
  lemma {:induction false} JoinRunes(parts: seq<string>, sep: string, c: char)
    requires c !in sep
    requires forall k :: 0 <= k < |parts| ==> c !in parts[k]
    ensures c !in Join(parts, sep)
    decreases |parts|
  {
    if |parts| > 1 {
      JoinRunes(parts[1..], sep, c);
    }
  }

  /** A rune of a piece is a rune of the split string. */
  lemma SplitRunes(s: string, sep: string, c: char, k: nat)
    requires sep != []
    requires c !in s
    requires k < |Split(s, sep)|
    ensures c !in Split(s, sep)[k]
  {
    var parts := Split(s, sep);
    if c in parts[k] {
      JoinMembers(parts, sep, c, k);
    }
  }

  lemma {:induction false} JoinMembers(parts: seq<string>, sep: string, c: char, k: nat)
    requires k < |parts|
    requires c in parts[k]
    ensures c in Join(parts, sep)
    decreases |parts|
  {
    if |parts| > 1 && k > 0 {
      JoinMembers(parts[1..], sep, c, k - 1);
    }
  }

  /** Joining two non-empty runs of pieces is joining their joins. */
  lemma {:induction false} JoinAppend(a: seq<string>, b: seq<string>, sep: string)
    requires |a| >= 1 && |b| >= 1
    ensures Join(a + b, sep) == Join(a, sep) + sep + Join(b, sep)
    decreases |a|
  {
    if |a| == 1 {
      assert (a + b)[1..] == b;
    } else {
      assert (a + b)[1..] == a[1..] + b;
      JoinAppend(a[1..], b, sep);
    }
  }

  /** The join begins with the first piece. */
  lemma JoinHead(parts: seq<string>, sep: string)
    requires |parts| >= 1
    ensures HasPrefix(Join(parts, sep), parts[0])
  {
    if |parts| > 1 {
      assert Join(parts, sep) == parts[0] + (sep + Join(parts[1..], sep));
    }
  }

  /** `s` without a leading `p`; unchanged when it does not start with `p` (strings.TrimPrefix). */
  function TrimPrefix(s: string, p: string): (r: string)
    ensures HasPrefix(s, p) ==> s == p + r
    ensures !HasPrefix(s, p) ==> r == s
  {
    if HasPrefix(s, p) then s[|p|..] else s
  }

  /** The pieces that are not empty, in order (the filtering loops of the converter). */
  function NonEmpty(parts: seq<string>): (r: seq<string>)
    ensures |r| <= |parts|
    ensures forall k :: 0 <= k < |r| ==> r[k] != ""
    ensures forall x :: x in r <==> x in parts && x != ""
  {
    if |parts| == 0 then []
    else if parts[0] == "" then NonEmpty(parts[1..])
    else [parts[0]] + NonEmpty(parts[1..])
  }

  /** Filtering a list that has no empty piece changes nothing. */
  lemma {:induction false} NonEmptyOfNonEmpty(parts: seq<string>)
    requires forall k :: 0 <= k < |parts| ==> parts[k] != ""
    ensures NonEmpty(parts) == parts
    decreases |parts|
  {
    if |parts| > 0 {
      NonEmptyOfNonEmpty(parts[1..]);
    }
  }

  /** Filtering keeps order: the non-empty pieces of two runs are those of the first, then
      those of the second. */
  lemma {:induction false} NonEmptyAppend(a: seq<string>, b: seq<string>)
    ensures NonEmpty(a + b) == NonEmpty(a) + NonEmpty(b)
    decreases |a|
  {
    if |a| == 0 {
      assert a + b == b;
    } else {
      assert (a + b)[0] == a[0];
      assert (a + b)[1..] == a[1..] + b;
      NonEmptyAppend(a[1..], b);
    }
  }

  /** A single piece is kept iff it is not empty. */
  lemma NonEmptySingle(x: string)
    ensures NonEmpty([x]) == if x == "" then [] else [x]
  {
    assert [x][1..] == [];
  }

  function Last<T>(s: seq<T>): T
    requires |s| > 0
  {
    s[|s| - 1]
  }

  /** The runes Go's unicode.IsSpace accepts: the Latin-1 white space runes and the other
      White_Space runes. */
  const SpaceRunes: set<char> := {
    '\t', '\n', '\U{000B}', '\U{000C}', '\r', ' ', '\U{0085}', '\U{00A0}', '\U{1680}',
    '\U{2000}', '\U{2001}', '\U{2002}', '\U{2003}', '\U{2004}', '\U{2005}', '\U{2006}',
    '\U{2007}', '\U{2008}', '\U{2009}', '\U{200A}',
    '\U{2028}', '\U{2029}', '\U{202F}', '\U{205F}', '\U{3000}'
  }

  /** Go's unicode.IsSpace. */
  predicate IsSpace(c: char) {
    c in SpaceRunes
  }

  /** `s` neither starts nor ends with white space. */
  predicate Trimmed(s: string) {
    s == "" || (!IsSpace(s[0]) && !IsSpace(s[|s| - 1]))
  }

  /** Number of white-space runes at the start of `s`. */
  function LeadingSpace(s: string): (n: nat)
    ensures n <= |s|
    ensures forall i :: 0 <= i < n ==> IsSpace(s[i])
    ensures n < |s| ==> !IsSpace(s[n])
    decreases |s|
  {
    if |s| > 0 && IsSpace(s[0]) then
      var m := LeadingSpace(s[1..]);
      assert forall i :: 1 <= i < m + 1 ==> s[i] == s[1..][i - 1];
      1 + m
    else 0
  }

  /** Number of white-space runes at the end of `s`. */
  function TrailingSpace(s: string): (n: nat)
    ensures n <= |s|
    ensures forall i :: |s| - n <= i < |s| ==> IsSpace(s[i])
    ensures n < |s| ==> !IsSpace(s[|s| - n - 1])
    decreases |s|
  {
    if |s| > 0 && IsSpace(s[|s| - 1]) then
      1 + TrailingSpace(s[..|s| - 1])
    else 0
  }

  /** `s` without its leading and trailing white space (strings.TrimSpace). */
  function TrimSpace(s: string): (r: string)
    ensures |r| <= |s|
    ensures r == "" <==> forall i :: 0 <= i < |s| ==> IsSpace(s[i])
    ensures Trimmed(r)
    ensures LeadingSpace(s) + |r| <= |s| && r == s[LeadingSpace(s)..LeadingSpace(s) + |r|]
    ensures forall i :: LeadingSpace(s) + |r| <= i < |s| ==> IsSpace(s[i])
  {
    var a := LeadingSpace(s);
    var t := s[a..];
    var b := TrailingSpace(t);
    assert forall i :: a + |t| - b <= i < |s| ==> s[i] == t[i - a];
    t[..|t| - b]
  }

  /** Trimming a string that neither starts nor ends with white space changes nothing. */
  lemma TrimSpaceOfTrimmed(s: string)
    requires Trimmed(s)
    ensures TrimSpace(s) == s
  {
    if s != "" {
      assert LeadingSpace(s) == 0;
      assert TrailingSpace(s) == 0;
    }
  }

  /** TrimSpace is idempotent. */
  lemma TrimSpaceIdempotent(s: string)
    ensures TrimSpace(TrimSpace(s)) == TrimSpace(s)
  {
    TrimSpaceOfTrimmed(TrimSpace(s));
  }

  /** Trimming keeps every rune that is not white space: such a rune of `s` is in the result. */
  lemma TrimSpaceKeeps(s: string, c: char)
    requires !IsSpace(c)
    ensures c in s <==> c in TrimSpace(s)
  {
    var r := TrimSpace(s);
    var a := LeadingSpace(s);
    if c in s {
      var i :| 0 <= i < |s| && s[i] == c;
      assert a <= i < a + |r|;
      assert r[i - a] == c;
    }
  }

  /** The one rune whose simple lower-case mapping in Go is ASCII: 'A'..'Z',
      U+0130 (capital I with dot above, lowered to 'i') and U+212A (Kelvin sign,
      lowered to 'k'). Every other rune is returned as it is; that agrees with Go's
      strings.ToLower whenever the outcome is compared with an ASCII rune. */
  function FoldAscii(c: char): (r: char)
    ensures !('A' <= r <= 'Z')
    ensures 'a' <= c <= 'z' ==> r == c
    ensures 'A' <= c <= 'Z' ==> r as int == c as int + 32
    ensures c == '\U{0130}' ==> r == 'i'
    ensures c == '\U{212A}' ==> r == 'k'
    ensures 'a' <= r <= 'z' ==> 'a' <= c <= 'z' || 'A' <= c <= 'Z' || c == '\U{0130}' || c == '\U{212A}'
  {
    if 'A' <= c <= 'Z' then (c as int + 32) as char
    else if c == '\U{0130}' then 'i'
    else if c == '\U{212A}' then 'k'
    else c
  }

  /** strings.ToLower(s) == lower, for a literal `lower` written in ASCII lower case. */
  predicate LowerEquals(s: string, lower: string) {
    |s| == |lower| && forall i :: 0 <= i < |s| ==> FoldAscii(s[i]) == lower[i]
  }

  /** Decimal digits of a natural number, most significant first (fmt's %d). */
  function NatToDecimal(n: nat): (s: string)
    ensures |s| >= 1
    ensures forall i :: 0 <= i < |s| ==> '0' <= s[i] <= '9'
    ensures |s| > 1 ==> s[0] != '0'
    decreases n
  {
    if n < 10 then [(n + 48) as char]
    else NatToDecimal(n / 10) + [(n % 10 + 48) as char]
  }

  /** An integer as fmt's %d renders it. */
  function IntToDecimal(n: int): (s: string)
    ensures n >= 0 ==> s == NatToDecimal(n)
    ensures n < 0 ==> s == "-" + NatToDecimal(-n)
  {
    if n < 0 then "-" + NatToDecimal(-n) else NatToDecimal(n)
  }

  /** The number a string of decimal digits denotes. */
  function DecimalValue(s: string): nat
    requires forall i :: 0 <= i < |s| ==> '0' <= s[i] <= '9'
    decreases |s|
  {
    if |s| == 0 then 0
    else DecimalValue(s[..|s| - 1]) * 10 + (s[|s| - 1] as int - 48)
  }

  /** Reading back the digits %d writes gives the number. */
  lemma {:induction false} DecimalRoundTrip(n: nat)
    ensures DecimalValue(NatToDecimal(n)) == n
    decreases n
  {
    if n >= 10 {
      var s := NatToDecimal(n);
      assert s[..|s| - 1] == NatToDecimal(n / 10);
      DecimalRoundTrip(n / 10);
    }
  }
}
