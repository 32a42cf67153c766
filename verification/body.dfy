/** The body-language annotation of ParseHttpRequest (go2postman.go): the content type is
    the value of the first header whose key lower-cases to "content-type" ("text/plain"
    when there is none), and the language is the first of json, xml, javascript, html
    that occurs in it as a substring, else text. */
module BodyClassifier {
  import opened Wrappers
  import opened GoStrings
  import opened Postman

  /** The marked languages, most preferred first; `Text` is the fallback. */
  const Priority: seq<Language> := [Json, Xml, Javascript, Html]

  /** The language annotation for a content type. */
  function Classify(contentType: string): (l: Language)
    ensures l in Priority || l == Text
    ensures l != Text ==> Contains(contentType, LanguageName(l))
    ensures forall k :: 0 <= k < |Priority| && (l == Text || k < PriorityRank(l)) ==>
      !Contains(contentType, LanguageName(Priority[k]))
  {
    if Contains(contentType, "json") then Json
    else if Contains(contentType, "xml") then Xml
    else if Contains(contentType, "javascript") then Javascript
    else if Contains(contentType, "html") then Html
    else Text
  }

  /** Position of a marked language in the priority order. */
  function PriorityRank(l: Language): (k: nat)
    requires l in Priority
    ensures k < |Priority| && Priority[k] == l
  {
    if l == Json then 0 else if l == Xml then 1 else if l == Javascript then 2 else 3
  }

  /** The language is Text exactly when the content type names none of the four marks. */
  lemma ClassifyTextIff(contentType: string)
    ensures Classify(contentType) == Text <==>
      forall k :: 0 <= k < |Priority| ==> !Contains(contentType, LanguageName(Priority[k]))
  {
    var l := Classify(contentType);
    if l != Text {
      assert Contains(contentType, LanguageName(Priority[PriorityRank(l)]));
    }
  }

  /** A content type mentioning json anywhere is json, also when it mentions xml, javascript
      or html first ("application/xml+json"). */
  lemma ClassifyJson(before: string, after: string)
    ensures Classify(before + "json" + after) == Json
  {
    assert OccursAt(before + "json" + after, "json", |before|);
  }

  /** A content type without the runes 'j', 'm' and 'h' names no marked language, so it is text. */
  lemma ClassifyUnmarked(ct: string)
    requires 'j' !in ct && 'm' !in ct && 'h' !in ct
    ensures Classify(ct) == Text
  {
    NoRuneNoOccurrence(ct, "json", 0);
    NoRuneNoOccurrence(ct, "xml", 1);
    NoRuneNoOccurrence(ct, "javascript", 0);
    NoRuneNoOccurrence(ct, "html", 0);
  }

  /** The default content type is text. */
  lemma ClassifyPlain()
    ensures Classify("text/plain") == Text
  {
    ClassifyUnmarked("text/plain");
  }

  /** Index of the first header whose key lower-cases to "content-type". */
  function FirstContentType(hs: seq<Header>): (r: Option<nat>)
    ensures r.Some? ==> r.value < |hs| && LowerEquals(hs[r.value].key, "content-type")
    ensures r.Some? ==> forall j :: 0 <= j < r.value ==> !LowerEquals(hs[j].key, "content-type")
    ensures r.None? ==> forall j :: 0 <= j < |hs| ==> !LowerEquals(hs[j].key, "content-type")
    decreases |hs|
  {
    if |hs| == 0 then None
    else if LowerEquals(hs[0].key, "content-type") then Some(0)
    else
      match FirstContentType(hs[1..])
      case None => None
      case Some(i) => Some(i + 1)
  }

  /** The content type the body is classified by. */
  function ContentTypeOf(hs: seq<Header>): (ct: string)
    ensures FirstContentType(hs).None? ==> ct == "text/plain"
    ensures FirstContentType(hs).Some? ==> ct == hs[FirstContentType(hs).value].value
  {
    match FirstContentType(hs)
    case None => "text/plain"
    case Some(i) => hs[i].value
  }

  /** A content-type header with none before it is the one found. */
  lemma FirstContentTypeIs(hs: seq<Header>, i: nat)
    requires i < |hs| && LowerEquals(hs[i].key, "content-type")
    requires forall j :: 0 <= j < i ==> !LowerEquals(hs[j].key, "content-type")
    ensures FirstContentType(hs) == Some(i)
  {
    var r := FirstContentType(hs);
    assert r.Some?;
    assert r.value == i;
  }

  /** Headers after the first content type do not influence it. */
  lemma ContentTypeFirstWins(a: seq<Header>, b: seq<Header>)
    requires FirstContentType(a).Some?
    ensures ContentTypeOf(a + b) == ContentTypeOf(a)
  {
    var i := FirstContentType(a).value;
    var s := a + b;
    forall j | 0 <= j <= i ensures s[j] == a[j] { }
    FirstContentTypeIs(s, i);
  }

  /** Without a content-type header a body is plain text. */
  lemma NoContentTypeIsText(hs: seq<Header>)
    requires forall j :: 0 <= j < |hs| ==> !LowerEquals(hs[j].key, "content-type")
    ensures Classify(ContentTypeOf(hs)) == Text
  {
    ClassifyPlain();
  }

  /** The body ParseHttpRequest builds from the text after the blank line: none when that
      text is empty, otherwise the text verbatim in raw mode with its language. */
  function RequestBody(text: string, hs: seq<Header>): (b: Body)
    ensures b.raw == text
    ensures text == "" <==> b.language == Unset
    ensures text == "" <==> b.mode == ""
    ensures text != "" ==> b.mode == "raw" && Classify(ContentTypeOf(hs)) == b.language
  {
    if text != "" then Body("raw", text, Classify(ContentTypeOf(hs)))
    else Body("", "", Unset)
  }
}
