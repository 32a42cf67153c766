/** The per-entry loops of ProcessCurlFile and ProcessBurpXML, over lines and Burp items
    already read from their files. */
module FileProcessing {
  import opened Wrappers
  import opened GoStrings
  import opened Postman
  import opened Urls
  import opened CurlParser
  import opened HttpParser

  // ---------------------------------------------------------------------------------
  // cURL files

  /** A line is a command when it starts with "curl " (other lines are skipped). */
  predicate IsCurlLine(line: string) {
    HasPrefix(line, "curl ")
  }

  /** The command lines, in file order. */
  function CurlLines(lines: seq<string>): (r: seq<string>)
    ensures |r| <= |lines|
    ensures forall k :: 0 <= k < |r| ==> IsCurlLine(r[k])
    ensures forall x :: x in r <==> x in lines && IsCurlLine(x)
    decreases |lines|
  {
    if |lines| == 0 then []
    else
      var init := lines[..|lines| - 1];
      var last := lines[|lines| - 1];
      assert lines == init + [last];
      CurlLines(init) + (if IsCurlLine(last) then [last] else [])
  }

  /** The command lines of two runs of lines are those of the first, then of the second. */
  lemma {:induction false} CurlLinesAppend(a: seq<string>, b: seq<string>)
    ensures CurlLines(a + b) == CurlLines(a) + CurlLines(b)
    decreases |b|
  {
    if |b| == 0 {
      assert a + b == a;
    } else {
      var init := b[..|b| - 1];
      var last := b[|b| - 1];
      var tail := if IsCurlLine(last) then [last] else [];
      assert (a + b)[..|a + b| - 1] == a + init;
      assert (a + b)[|a + b| - 1] == last;
      assert CurlLines(a + b) == CurlLines(a + init) + tail;
      assert CurlLines(b) == CurlLines(init) + tail;
      CurlLinesAppend(a, init);
      assert CurlLines(a) + CurlLines(init) + tail == CurlLines(a) + (CurlLines(init) + tail);
    }
  }

  /** Item k of a cURL file is its k-th command line parsed with the 1-based index k:
      skipped lines do not advance the index. */
  function CurlItems(lines: seq<string>): (items: seq<Item>)
    ensures |items| == |CurlLines(lines)|
  {
    Indexed(CurlLines(lines), CommandParser)
  }

  /** ParseCurlCommand as a function of the command and its 1-based number. */
  const CommandParser: (string, nat) -> Item := (cmd: string, index: nat) => ParseCurlCommand(cmd, index)

  /** Each element converted together with its 1-based position. */
  function Indexed<A, B>(xs: seq<A>, convert: (A, nat) -> B): (ys: seq<B>)
    ensures |ys| == |xs|
    ensures forall k :: 0 <= k < |xs| ==> ys[k] == convert(xs[k], k + 1)
  {
    seq(|xs|, k requires 0 <= k < |xs| => convert(xs[k], k + 1))
  }

  lemma IndexedSnoc<A, B>(xs: seq<A>, x: A, convert: (A, nat) -> B)
    ensures Indexed(xs + [x], convert) == Indexed(xs, convert) + [convert(x, |xs| + 1)]
  {
    var s := xs + [x];
    assert forall k :: 0 <= k < |xs| ==> s[k] == xs[k];
  }

  /** One more line adds its item, numbered after those before it, when it is a command. */
  lemma CurlItemsSnoc(ls: seq<string>, line: string)
    ensures CurlItems(ls + [line]) ==
      CurlItems(ls) + (if IsCurlLine(line) then [ParseCurlCommand(line, |CurlItems(ls)| + 1)] else [])
  {
    CommandsSnoc(ls, line, CommandParser);
    if IsCurlLine(line) {
      ParserApplies(line, |CurlLines(ls)| + 1);
    }
  }

  /** CurlItemsSnoc for any conversion of the command lines. */
  lemma CommandsSnoc<B>(ls: seq<string>, line: string, convert: (string, nat) -> B)
    ensures Indexed(CurlLines(ls + [line]), convert) ==
      Indexed(CurlLines(ls), convert) + (if IsCurlLine(line) then [convert(line, |CurlLines(ls)| + 1)] else [])
  {
    CurlLinesSnoc(ls, line);
    if IsCurlLine(line) {
      IndexedSnoc(CurlLines(ls), line, convert);
    }
  }

  /** CommandsSnoc for the prefixes of one run of lines. */
  lemma CommandsPrefixSnoc<B>(lines: seq<string>, i: nat, convert: (string, nat) -> B)
    requires i < |lines|
    ensures Indexed(CurlLines(lines[..i + 1]), convert) ==
      Indexed(CurlLines(lines[..i]), convert) + (if IsCurlLine(lines[i]) then [convert(lines[i], |CurlLines(lines[..i])| + 1)] else [])
  {
    assert lines[..i + 1] == lines[..i] + [lines[i]];
    CommandsSnoc(lines[..i], lines[i], convert);
  }

  lemma ParserApplies(cmd: string, index: nat)
    ensures CommandParser(cmd, index) == ParseCurlCommand(cmd, index)
  {
  }

  lemma CurlLinesSnoc(ls: seq<string>, line: string)
    ensures CurlLines(ls + [line]) == CurlLines(ls) + (if IsCurlLine(line) then [line] else [])
  {
    var s := ls + [line];
    assert s[..|s| - 1] == ls;
    assert s[|s| - 1] == line;
  }

  /** A line that is not a command changes nothing: the items around it, and their
      indices, stay the same. */
  lemma NonCurlLineIsSkipped(a: seq<string>, line: string, b: seq<string>)
    requires !IsCurlLine(line)
    ensures CurlItems(a + [line] + b) == CurlItems(a + b)
  {
    assert CurlLines(a + [line]) == CurlLines(a) by {
      var s := a + [line];
      assert s[..|s| - 1] == a;
    }
    CurlLinesAppend(a + [line], b);
    CurlLinesAppend(a, b);
  }

  /** The loop of ProcessCurlFile over the lines already read: every command line parsed,
      numbered from 1 in the order the command lines occur. */
  method ProcessCurlFile(lines: seq<string>) returns (items: seq<Item>)
    ensures items == CurlItems(lines)
    ensures |items| == |CurlLines(lines)|
    ensures forall k :: 0 <= k < |items| ==> items[k] == ParseCurlCommand(CurlLines(lines)[k], k + 1)
  {
    items := ConvertCommands(lines, CommandParser);
    CurlItemsAre(lines);
  }

  /** Item k of a cURL file is its k-th command line parsed with the index k + 1. */
  lemma CurlItemsAre(lines: seq<string>)
    ensures forall k :: 0 <= k < |CurlItems(lines)| ==>
      CurlItems(lines)[k] == ParseCurlCommand(CurlLines(lines)[k], k + 1)
  {
    var cmds := CurlLines(lines);
    var items := CurlItems(lines);
    forall k | 0 <= k < |items| ensures items[k] == ParseCurlCommand(cmds[k], k + 1) {
      assert items[k] == CommandParser(cmds[k], k + 1);
      ParserApplies(cmds[k], k + 1);
    }
  }

  /** Converts every command line with its 1-based number among the command lines; the
      other lines are skipped and do not advance the number. */
  method ConvertCommands<B>(lines: seq<string>, convert: (string, nat) -> B) returns (items: seq<B>)
    ensures items == Indexed(CurlLines(lines), convert)
  {
    items := [];
    var index := 1;
    var i := 0;
    while i < |lines|
      invariant 0 <= i <= |lines|
      invariant items == Indexed(CurlLines(lines[..i]), convert)
      invariant index == |items| + 1
    {
      var line := lines[i];
      CommandsPrefixSnoc(lines, i, convert);
      if IsCurlLine(line) {
        items := items + [convert(line, index)];
        index := index + 1;
      }
      i := i + 1;
    }
    assert lines[..i] == lines;
  }

  // ---------------------------------------------------------------------------------
  // Burp exports

  /** Why a Burp item produced no collection item; `item` is its 1-based position. */
  datatype Warning = UndecodableRequest(item: nat) | UnparseableRequest(item: nat, error: ParseError)

  /** The request text: base64-decoded when the attribute is exactly "true", else as it is.
      `decode` stands for the standard base64 decoder; None is a decoding error. */
  function RequestData(item: BurpItem, decode: string -> Option<string>): (d: Option<string>)
    ensures item.request.base64 != "true" ==> d == Some(item.request.content)
    ensures item.request.base64 == "true" ==> d == decode(item.request.content)
  {
    if item.request.base64 == "true" then decode(item.request.content) else Some(item.request.content)
  }

  /** The last '/'-piece of a path: the '/'-free text after its last '/' (all of it when
      there is none). */
  function LastPiece(path: string): (l: string)
    ensures '/' !in l && HasSuffix(path, l)
    ensures |l| == |path| || path[|path| - |l| - 1] == '/'
    ensures l == "" <==> path == "" || HasSuffix(path, "/")
  {
    var parts := Split(path, "/");
    SplitShape(path, "/");
    ContainsChar(Last(parts), '/');
    var l := Last(parts);
    if |parts| == 1 then
      assert Join(parts, "/") == parts[0];
      l
    else
      assert ("/" + l)[0] == '/';
      assert l != "" ==> path[|path| - 1] == l[|l| - 1];
      l
  }

  /** The last '/'-piece of a non-empty path if that piece is not empty, else the last path
      segment ParseURL finds in the url, else "request". */
  function ResourceName(item: BurpItem): (n: string)
    ensures n != "" && '/' !in n
    ensures item.path != "" && n != "request" ==> HasSuffix(item.path, n)
    ensures item.path != "" && HasSuffix(item.path, "/") ==> n == "request"
    ensures item.path != "" && !HasSuffix(item.path, "/") ==> n == LastPiece(item.path)
    ensures item.path == "" && item.url == "" ==> n == "request"
    ensures item.path == "" && item.url != "" ==> n == UrlName(item.url)
  {
    if item.path != "" then
      var l := LastPiece(item.path);
      if l != "" then l else "request"
    else if item.url != "" then UrlName(item.url)
    else "request"
  }

  /** The name taken from a url: the last segment of the path ParseURL finds, or "request"
      when it finds none or fails. */
  function UrlName(url: string): (n: string)
    ensures n != "" && '/' !in n
    ensures ParseURL(url).Success? && |ParseURL(url).value.path| > 0 ==> n == Last(ParseURL(url).value.path)
    ensures ParseURL(url).Failure? || |ParseURL(url).value.path| == 0 ==> n == "request"
  {
    var r := ParseURL(url);
    if r.Success? && |r.value.path| > 0 then
      assert r.value.path[|r.value.path| - 1] != "" && '/' !in r.value.path[|r.value.path| - 1];
      Last(r.value.path)
    else "request"
  }

  /** A path ending in a '/'-free, non-empty piece is named by that piece, whatever lies
      before it. */
  lemma ResourceNameOfPath(item: BurpItem, dir: string, name: string)
    requires name != "" && '/' !in name
    ensures ResourceName(item.(path := dir + "/" + name)) == name
  {
    var path := dir + "/" + name;
    SplitAtRune(dir, name, '/');
    SplitOfRuneFree(name, '/');
    assert path == dir + ['/'] + name;
  }

  /** The name the loop passes to ParseHttpRequest. */
  function DisplayName(item: BurpItem): (n: string)
    ensures n == item.httpMethod + " " + ResourceName(item)
    ensures HasPrefix(n, item.httpMethod + " ")
    ensures |n| > |item.httpMethod| + 1 && '/' !in n[|item.httpMethod| + 1..]
  {
    item.httpMethod + " " + ResourceName(item)
  }

  /** One Burp item at 1-based `position`: an item, or the warning that skips it. */
  function ConvertBurpItem(item: BurpItem, position: nat, decode: string -> Option<string>): (r: Result<Item, Warning>)
    ensures RequestData(item, decode).None? <==> r == Failure(UndecodableRequest(position))
    ensures r.Failure? ==> r.error.item == position
    ensures RequestData(item, decode).Some? ==>
      var p := ParseHttpRequest(RequestData(item, decode).value, position, DisplayName(item));
      (p.Success? ==> r == Success(p.value)) && (p.Failure? ==> r == Failure(UnparseableRequest(position, p.error)))
  {
    match RequestData(item, decode)
    case None => Failure(UndecodableRequest(position))
    case Some(data) =>
      match ParseHttpRequest(data, position, DisplayName(item))
      case Failure(e) => Failure(UnparseableRequest(position, e))
      case Success(it) => Success(it)
  }

  /** The outcome of every Burp item, in order. */
  function Outcomes(burp: seq<BurpItem>, decode: string -> Option<string>): (rs: seq<Result<Item, Warning>>)
    ensures |rs| == |burp|
    ensures forall k :: 0 <= k < |burp| ==> rs[k] == ConvertBurpItem(burp[k], k + 1, decode)
  {
    var rs := Indexed(burp, Converter(decode));
    forall k | 0 <= k < |burp| ensures rs[k] == ConvertBurpItem(burp[k], k + 1, decode) {
      ConverterApplies(burp[k], k + 1, decode);
    }
    rs
  }

  lemma ConverterApplies(item: BurpItem, position: nat, decode: string -> Option<string>)
    ensures Converter(decode)(item, position) == ConvertBurpItem(item, position, decode)
  {
  }

  /** ConvertBurpItem with the decoder fixed. */
  function Converter(decode: string -> Option<string>): (BurpItem, nat) -> Result<Item, Warning> {
    (item: BurpItem, position: nat) => ConvertBurpItem(item, position, decode)
  }

  /** The items among outcomes, in order. */
  function Successes(rs: seq<Result<Item, Warning>>): (items: seq<Item>)
    ensures |items| <= |rs|
    decreases |rs|
  {
    if |rs| == 0 then []
    else Successes(rs[..|rs| - 1]) + (if rs[|rs| - 1].Success? then [rs[|rs| - 1].value] else [])
  }

  /** The warnings among outcomes, in order. */
  function Failures(rs: seq<Result<Item, Warning>>): (ws: seq<Warning>)
    ensures |ws| <= |rs|
    decreases |rs|
  {
    if |rs| == 0 then []
    else Failures(rs[..|rs| - 1]) + (if rs[|rs| - 1].Failure? then [rs[|rs| - 1].error] else [])
  }

  /** Every outcome is an item or a warning. */
  lemma {:induction false} OutcomesPartition(rs: seq<Result<Item, Warning>>)
    ensures |Successes(rs)| + |Failures(rs)| == |rs|
    decreases |rs|
  {
    if |rs| > 0 {
      OutcomesPartition(rs[..|rs| - 1]);
    }
  }

  /** The items of two runs of outcomes are those of the first, then of the second: a
      skipped item has no effect on the ones after it. */
  lemma {:induction false} SuccessesAppend(a: seq<Result<Item, Warning>>, b: seq<Result<Item, Warning>>)
    ensures Successes(a + b) == Successes(a) + Successes(b)
    decreases |b|
  {
    if |b| == 0 {
      assert a + b == a;
    } else {
      var init := b[..|b| - 1];
      var last := b[|b| - 1];
      var tail := if last.Success? then [last.value] else [];
      assert (a + b)[..|a + b| - 1] == a + init;
      assert (a + b)[|a + b| - 1] == last;
      assert Successes(a + b) == Successes(a + init) + tail;
      assert Successes(b) == Successes(init) + tail;
      SuccessesAppend(a, init);
      assert Successes(a) + Successes(init) + tail == Successes(a) + (Successes(init) + tail);
    }
  }

  /** One more outcome adds its item or its warning. */
  lemma OutcomeSnoc(rs: seq<Result<Item, Warning>>, r: Result<Item, Warning>)
    ensures Successes(rs + [r]) == Successes(rs) + (if r.Success? then [r.value] else [])
    ensures Failures(rs + [r]) == Failures(rs) + (if r.Failure? then [r.error] else [])
  {
    assert (rs + [r])[..|rs|] == rs;
  }

  /** The loop of ProcessBurpXML: the items in input order, each failed item skipped with a
      warning. */
  method ProcessBurpXml(burp: seq<BurpItem>, decode: string -> Option<string>)
    returns (items: seq<Item>, warnings: seq<Warning>)
    ensures items == Successes(Outcomes(burp, decode))
    ensures warnings == Failures(Outcomes(burp, decode))
    ensures |items| + |warnings| == |burp|
  {
    items, warnings := ConvertAll(burp, Converter(decode));
    OutcomesPartition(Outcomes(burp, decode));
  }

  /** Converts every record in order, keeping the items and the warnings apart. */
  method ConvertAll<A>(xs: seq<A>, convert: (A, nat) -> Result<Item, Warning>)
    returns (items: seq<Item>, warnings: seq<Warning>)
    ensures items == Successes(Indexed(xs, convert))
    ensures warnings == Failures(Indexed(xs, convert))
  {
    items := [];
    warnings := [];
    var i := 0;
    while i < |xs|
      invariant 0 <= i <= |xs|
      invariant items == Successes(Indexed(xs[..i], convert))
      invariant warnings == Failures(Indexed(xs[..i], convert))
    {
      var r := convert(xs[i], i + 1);
      assert xs[..i + 1] == xs[..i] + [xs[i]];
      IndexedSnoc(xs[..i], xs[i], convert);
      OutcomeSnoc(Indexed(xs[..i], convert), r);
      match r {
        case Success(it) => items := items + [it];
        case Failure(w) => warnings := warnings + [w];
      }
      i := i + 1;
    }
    assert xs[..i] == xs;
  }

  /** The name computed from the Burp record is always replaced: the path, url and method
      attributes of an item have no influence on what it converts to. */
  lemma BurpNameIsDiscarded(item: BurpItem, position: nat, decode: string -> Option<string>,
                            path: string, url: string, httpMethod: string)
    ensures ConvertBurpItem(item.(path := path, url := url, httpMethod := httpMethod), position, decode)
         == ConvertBurpItem(item, position, decode)
  {
    var other := item.(path := path, url := url, httpMethod := httpMethod);
    if RequestData(item, decode).Some? {
      var data := RequestData(item, decode).value;
      NameIsAlwaysComputed(data, position, position, DisplayName(other), DisplayName(item));
    }
  }
}
