/** The next link of a paginated GitHub answer, read from its Link header (section 3 of RFC 8288). */
module LinkHeader {
  import opened GoText

  const NEXT_RELATION := "rel=\"next\""

  predicate OccursAt(s: string, sub: string, i: nat) {
    i + |sub| <= |s| && s[i..i + |sub|] == sub
  }

  /** strings.Contains. */
  predicate Contains(s: string, sub: string) {
    exists i :: 0 <= i <= |s| && OccursAt(s, sub, i)
  }

  predicate IsAngle(c: char) { c == '<' || c == '>' }

  function TrimAnglesLeft(s: string): string {
    if s != [] && IsAngle(s[0]) then TrimAnglesLeft(s[1..]) else s
  }

  function TrimAnglesRight(s: string): string {
    if s != [] && IsAngle(s[|s| - 1]) then TrimAnglesRight(s[..|s| - 1]) else s
  }

  /** strings.Trim(s, "<>"). */
  function TrimAngles(s: string): string {
    TrimAnglesRight(TrimAnglesLeft(s))
  }

  predicate IsNext(part: string) {
    var segments := Split(part, ';');
    |segments| >= 2 && Contains(segments[1], NEXT_RELATION)
  }

  function Target(part: string): string {
    TrimAngles(TrimSpace(Split(part, ';')[0]))
  }

  function FirstNext(parts: seq<string>): string {
    if parts == [] then ""
    else if IsNext(parts[0]) then Target(parts[0])
    else FirstNext(parts[1..])
  }

  /** The next link that the code reads from a header; empty when it finds none. */
  function NextOf(link: string): string {
    FirstNext(Split(link, ','))
  }

  /** parseNext. */
  method ParseNext(link: string) returns (next: string)
    ensures next == NextOf(link)
  {
    var parts := Split(link, ',');
    for i := 0 to |parts|
      invariant FirstNext(parts) == FirstNext(parts[i..])
    {
      var segments := Split(parts[i], ';');
      assert parts[i..][0] == parts[i] && parts[i..][1..] == parts[i + 1..];
      if |segments| < 2 || !Contains(segments[1], NEXT_RELATION) {
        continue;
      }
      return TrimAngles(TrimSpace(segments[0]));
    }
    return "";
  }

  // ----- headers as they are written

  /** One parameter of a link, `name=value` or `name="value"`, after optional white space. */
  datatype Param = Param(before: string, name: string, value: string, quoted: bool)

  /** One link: `<url>` after optional white space, and its parameters. */
  datatype Link = Link(before: string, url: string, params: seq<Param>)

  /** What a parameter must not contain for the header's separators to be unambiguous. */
  ghost predicate PlainParam(p: Param) {
    && AllSpace(p.before)
    && (forall c <- p.name :: c !in ",;\"")
    && (forall c <- p.value :: c !in ",;\"")
  }

  /** Any URL at all, with plain parameters. */
  ghost predicate Plain(l: Link) {
    AllSpace(l.before) && forall p <- l.params :: PlainParam(p)
  }

  /** The URLs that the code can read: no commas, no semicolons, no angle brackets at the ends. */
  ghost predicate Readable(url: string) {
    && ',' !in url && ';' !in url
    && (url != [] ==> !IsAngle(url[0]) && !IsAngle(url[|url| - 1]))
  }

  function ParamText(p: Param): string {
    p.before + p.name + "=" + if p.quoted then "\"" + p.value + "\"" else p.value
  }

  function ParamTexts(params: seq<Param>): (texts: seq<string>)
    ensures |texts| == |params|
  {
    seq(|params|, i requires 0 <= i < |params| => ParamText(params[i]))
  }

  function Head(l: Link): string {
    l.before + ("<" + l.url + ">")
  }

  function Written(l: Link): string {
    Join([Head(l)] + ParamTexts(l.params), ';')
  }

  /** The parameters that the code takes for the next relation. */
  predicate SaysNext(p: Param) {
    p.quoted && p.value == "next" && |p.name| >= 3 && p.name[|p.name| - 3..] == "rel"
  }

  lemma NoSeparators(p: Param)
    requires PlainParam(p)
    ensures ',' !in ParamText(p) && ';' !in ParamText(p)
  {
    assert forall c <- p.before :: IsSpace(c);
  }

  /** The only quotes are the two around a quoted value. */
  lemma OnlyTwoQuotes(p: Param, j: nat)
    requires PlainParam(p) && j < |ParamText(p)| && ParamText(p)[j] == '"'
    ensures var k := |p.before| + |p.name| + 1; p.quoted && (j == k || j == k + 1 + |p.value|)
  {
    var s, k := ParamText(p), |p.before| + |p.name| + 1;
    assert forall i :: 0 <= i < |p.before| ==> s[i] == p.before[i] && IsSpace(p.before[i]);
    assert forall i :: 0 <= i < |p.name| ==> s[|p.before| + i] == p.name[i] && p.name[i] in p.name;
    var v := if p.quoted then k + 1 else k;
    assert forall i :: 0 <= i < |p.value| ==> s[v + i] == p.value[i] && p.value[i] in p.value;
  }

  /** The text of the next relation occurs in a parameter exactly when its value is the single word
      "next" in quotes and its name ends in "rel". */
  lemma FindsNextOnly(p: Param)
    requires PlainParam(p)
    ensures Contains(ParamText(p), NEXT_RELATION) <==> SaysNext(p)
  {
    if Contains(ParamText(p), NEXT_RELATION) {
      var i: nat :| 0 <= i <= |ParamText(p)| && OccursAt(ParamText(p), NEXT_RELATION, i);
      OccurrenceSaysNext(p, i);
    }
    if SaysNext(p) {
      SaysNextOccurs(p);
    }
  }

  lemma SaysNextOccurs(p: Param)
    requires SaysNext(p)
    ensures Contains(ParamText(p), NEXT_RELATION)
  {
    var head := p.before + p.name[..|p.name| - 3];
    assert p.name == p.name[..|p.name| - 3] + "rel";
    assert ParamText(p) == head + NEXT_RELATION;
    assert OccursAt(ParamText(p), NEXT_RELATION, |head|);
  }

  /** Its two quotes are those around the value, so the value is as long as "next". */
  lemma OccurrencePlace(p: Param, i: nat)
    requires PlainParam(p) && OccursAt(ParamText(p), NEXT_RELATION, i)
    ensures p.quoted && i + 3 == |p.before| + |p.name| && |p.value| == 4
    ensures forall j {:trigger NEXT_RELATION[j]} :: 0 <= j < 10 ==> ParamText(p)[i + j] == NEXT_RELATION[j]
  {
    var s := ParamText(p);
    assert NEXT_RELATION[4] == '"' && NEXT_RELATION[9] == '"';
    assert forall j {:trigger NEXT_RELATION[j]} :: 0 <= j < 10 ==> s[i + j] == s[i..i + 10][j] == NEXT_RELATION[j];
    OnlyTwoQuotes(p, i + 4);
    OnlyTwoQuotes(p, i + 9);
    hide ParamText, PlainParam;
  }

  /** White space holds no part of it. */
  lemma OccurrencePastSpace(p: Param, i: nat)
    requires PlainParam(p) && i < |ParamText(p)| && ParamText(p)[i] == 'r'
    ensures |p.before| <= i
  {
    assert forall j :: 0 <= j < |p.before| ==> ParamText(p)[j] == p.before[j] && p.before[j] in p.before;
    assert !IsSpace('r');
  }

  lemma OccurrenceSaysNext(p: Param, i: nat)
    requires PlainParam(p) && OccursAt(ParamText(p), NEXT_RELATION, i)
    ensures SaysNext(p)
  {
    var s := ParamText(p);
    OccurrencePlace(p, i);
    assert NEXT_RELATION[0] == 'r';
    OccurrencePastSpace(p, i);
    hide PlainParam, OccursAt;
    var m := i - |p.before|;
    assert forall j {:trigger p.value[j]} :: 0 <= j < 4 ==> p.value[j] == s[i + (5 + j)] == NEXT_RELATION[5 + j];
    assert p.value == NEXT_RELATION[5..9];
    assert forall j {:trigger NEXT_RELATION[j]} :: 0 <= j < 3 ==> p.name[m + j] == s[i + j] == NEXT_RELATION[j];
    assert p.name[m..] == NEXT_RELATION[..3];
    hide ParamText;
    assert NEXT_RELATION[5..9] == "next" && NEXT_RELATION[..3] == "rel";
  }

  // ----- one link

  lemma KeepsPlainEnds(s: string)
    requires s != [] ==> !IsAngle(s[0]) && !IsAngle(s[|s| - 1])
    ensures TrimAngles("<" + s + ">") == s
  {
    var t, u := "<" + s + ">", s + ">";
    assert t[1..] == u;
    if s == [] {
      assert TrimAnglesLeft(u) == TrimAnglesLeft(u[1..]) && u[1..] == [];
      assert TrimAnglesLeft(t) == TrimAnglesLeft(u) == [];
    } else {
      assert TrimAnglesLeft(t) == TrimAnglesLeft(u) == u;
      assert u[..|s|] == s;
      assert TrimAnglesRight(u) == TrimAnglesRight(s) == s;
    }
  }

  lemma {:induction false} TrimAnglesLeftEnds(s: string)
    ensures var t := TrimAnglesLeft(s); (t != [] ==> !IsAngle(t[0])) && forall c <- t :: c in s
  {
    if s != [] {
      TrimAnglesLeftEnds(s[1..]);
    }
  }

  lemma {:induction false} TrimAnglesRightEnds(s: string)
    requires s != [] ==> !IsAngle(s[0])
    ensures var t := TrimAnglesRight(s);
            && (t != [] ==> t[0] == s[0] && !IsAngle(t[0]) && !IsAngle(t[|t| - 1]))
            && forall c <- t :: c in s
  {
    if s != [] {
      TrimAnglesRightEnds(s[..|s| - 1]);
    }
  }

  lemma TargetReadable(part: string)
    requires ',' !in part
    ensures Readable(Target(part))
  {
    var head := Split(part, ';')[0];
    SplitChars(part, ';');
    assert head in Split(part, ';');
    TrimChars(head);
    TrimAnglesLeftEnds(TrimSpace(head));
    TrimAnglesRightEnds(TrimAnglesLeft(TrimSpace(head)));
    hide Split, TrimSpace, TrimAnglesLeft, TrimAnglesRight;
  }

  lemma {:induction false} FirstNextReadable(parts: seq<string>)
    requires forall part <- parts :: ',' !in part
    ensures Readable(FirstNext(parts))
  {
    if parts != [] {
      TargetReadable(parts[0]);
      FirstNextReadable(parts[1..]);
    }
  }

  /** Whatever the header, the URL that is read from it is a readable one. */
  lemma NextOfReadable(link: string)
    ensures Readable(NextOf(link))
  {
    SplitChars(link, ',');
    FirstNextReadable(Split(link, ','));
  }

  /** The parameters, each after a semicolon. */
  function Tail(params: seq<Param>): string {
    if params == [] then "" else [';'] + Join(ParamTexts(params), ';')
  }

  lemma WrittenParts(l: Link)
    requires Plain(l)
    ensures Written(l) == Head(l) + Tail(l.params) && ',' !in Tail(l.params)
    ensures l.params != [] ==> Split(Join(ParamTexts(l.params), ';'), ';') == ParamTexts(l.params)
  {
    hide ParamText, PlainParam, AllSpace, Split, Head;
    var texts := ParamTexts(l.params);
    if l.params != [] {
      forall text | text in texts ensures ',' !in text && ';' !in text {
        var i :| 0 <= i < |l.params| && text == texts[i];
        assert l.params[i] in l.params;
        NoSeparators(l.params[i]);
      }
      SplitJoin(texts, ';');
      NotInJoin(texts, ';', ',');
      assert ([Head(l)] + texts)[1..] == texts;
    } else {
      assert [Head(l)] + texts == [Head(l)];
    }
  }

  lemma {:induction false} NotInJoin(parts: seq<string>, sep: char, c: char)
    requires parts != [] && c != sep && forall p <- parts :: c !in p
    ensures c !in Join(parts, sep)
  {
    if |parts| > 1 {
      NotInJoin(parts[1..], sep, c);
    }
  }

  /** A link is taken for the next one exactly when its first parameter says so. */
  predicate IsNextLink(l: Link) {
    l.params != [] && SaysNext(l.params[0])
  }

  /** The semicolons cut a piece of text and the parameters behind it. */
  lemma TailSplits(y: string, l: Link)
    requires Plain(l)
    ensures Split(y + Tail(l.params), ';') == Split(y, ';') + ParamTexts(l.params)
  {
    WrittenParts(l);
    if l.params == [] {
      assert y + Tail(l.params) == y;
    } else {
      SplitBoth(y, Join(ParamTexts(l.params), ';'), ';');
      assert y + Tail(l.params) == y + [';'] + Join(ParamTexts(l.params), ';');
    }
  }

  lemma FirstParamDecides(l: Link)
    requires Plain(l) && l.params != []
    ensures Contains(ParamTexts(l.params)[0], NEXT_RELATION) <==> IsNextLink(l)
  {
    assert l.params[0] in l.params;
    FindsNextOnly(l.params[0]);
  }

  lemma SpaceHasNoMarks(s: string)
    requires AllSpace(s)
    ensures ',' !in s && ';' !in s && '"' !in s
  {
    assert forall c <- s :: IsSpace(c);
  }

  lemma HeadClean(l: Link)
    requires AllSpace(l.before) && Readable(l.url)
    ensures ',' !in Head(l) && ';' !in Head(l)
  {
    SpaceHasNoMarks(l.before);
    hide AllSpace, IsAngle;
  }

  lemma HeadReadsBack(l: Link)
    requires Plain(l) && Readable(l.url)
    ensures TrimAngles(TrimSpace(Head(l))) == l.url
  {
    hide TrimSpace, TrimAngles, AllSpace, PlainParam;
    var core := "<" + l.url + ">";
    assert core[0] == '<' && core[|core| - 1] == '>';
    TrimPadded(l.before, core, []);
    assert l.before + core + [] == Head(l);
    KeepsPlainEnds(l.url);
  }

  /** With a readable URL there is one part, and it gives the URL back. */
  lemma ReadableLink(l: Link)
    requires Plain(l) && Readable(l.url)
    ensures Split(Written(l), ',') == [Written(l)]
    ensures IsNext(Written(l)) <==> IsNextLink(l)
    ensures Target(Written(l)) == l.url
  {
    HeadClean(l);
    HeadReadsBack(l);
    WrittenParts(l);
    SplitAtFirst(Written(l), [], ',');
    TailSplits(Head(l), l);
    SplitAtFirst(Head(l), [], ';');
    if l.params != [] {
      FirstParamDecides(l);
    }
    hide Split, TrimSpace, TrimAngles, Contains, Written, Head, ParamTexts, SaysNext, Tail, Plain, Readable;
  }

  /** From a header of one link, its URL is read back exactly when its first parameter says next and
      the URL is readable. */
  lemma WrittenReadsBack(l: Link)
    requires Plain(l) && l.url != ""
    ensures NextOf(Written(l)) == l.url <==> IsNextLink(l) && Readable(l.url)
  {
    NextOfReadable(Written(l));
    if Readable(l.url) {
      ReadableLink(l);
      assert [Written(l)][1..] == [];
      assert FirstNext([Written(l)]) == if IsNextLink(l) then l.url else "";
    }
    hide Split, Written, IsNext, Target, IsNextLink;
  }

  // ----- whole headers

  function WrittenAll(links: seq<Link>): (parts: seq<string>)
    ensures |parts| == |links|
  {
    seq(|links|, i requires 0 <= i < |links| => Written(links[i]))
  }

  /** The header's text. */
  function HeaderText(links: seq<Link>): string {
    if links == [] then "" else Join(WrittenAll(links), ',')
  }

  /** The URL of the first link whose first parameter says next. */
  function NextUrl(links: seq<Link>): string {
    if links == [] then ""
    else if IsNextLink(links[0]) then links[0].url
    else NextUrl(links[1..])
  }

  /** Plain links whose URLs hold no quotes (RFC 3986 allows none in a URI). */
  ghost predicate PlainHeader(links: seq<Link>) {
    forall l <- links :: Plain(l) && '"' !in l.url
  }

  /** Text without quotes is not a next part, with or without parameters of another link behind it. */
  lemma UnquotedIsNotNext(y: string, l: Link)
    requires Plain(l) && '"' !in y && !IsNextLink(l)
    ensures !IsNext(y) && !IsNext(y + Tail(l.params))
  {
    TailSplits(y, l);
    SplitChars(y, ';');
    var segments := Split(y, ';');
    if |segments| >= 2 {
      assert segments[1] in segments;
      NextHasQuotes(segments[1]);
    } else if l.params != [] {
      FirstParamDecides(l);
    }
    hide Split, Contains, IsNextLink, Tail;
  }

  lemma NextHasQuotes(s: string)
    ensures Contains(s, NEXT_RELATION) ==> '"' in s
  {
    if Contains(s, NEXT_RELATION) {
      var i: nat :| 0 <= i <= |s| && OccursAt(s, NEXT_RELATION, i);
      assert s[i + 4] == s[i..i + 10][4] == NEXT_RELATION[4] == '"';
    }
  }

  /** However its URL is cut, a link that does not say next gives no next part. */
  lemma NoNextPart(l: Link)
    requires Plain(l) && '"' !in l.url && !IsNextLink(l)
    ensures forall part <- Split(Written(l), ',') :: !IsNext(part)
  {
    WrittenParts(l);
    SpaceHasNoMarks(l.before);
    assert '"' !in Head(l);
    SplitChars(Head(l), ',');
    SplitAppend(Head(l), Tail(l.params), ',');
    var cuts := Split(Head(l), ',');
    forall part | part in Split(Written(l), ',') ensures !IsNext(part) {
      var y := if part in cuts then part else cuts[|cuts| - 1];
      assert y in cuts;
      UnquotedIsNotNext(y, l);
    }
    hide Split, Head, Tail, Written, IsNext, IsNextLink, Plain;
  }

  lemma {:induction false} SkipParts(parts: seq<string>, rest: seq<string>)
    requires forall part <- parts :: !IsNext(part)
    ensures FirstNext(parts + rest) == FirstNext(rest)
  {
    if parts == [] {
      assert parts + rest == rest;
    } else {
      assert (parts + rest)[1..] == parts[1..] + rest;
      SkipParts(parts[1..], rest);
    }
  }

  /** The parts of the header one link after the other. */
  lemma HeaderSplits(links: seq<Link>)
    requires |links| > 1
    ensures Split(HeaderText(links), ',') == Split(Written(links[0]), ',') + Split(HeaderText(links[1..]), ',')
  {
    assert WrittenAll(links)[1..] == WrittenAll(links[1..]);
    SplitBoth(Written(links[0]), HeaderText(links[1..]), ',');
  }

  lemma {:induction false} ReadsNextUrl(links: seq<Link>)
    requires PlainHeader(links) && Readable(NextUrl(links))
    ensures NextOf(HeaderText(links)) == NextUrl(links)
  {
    if links == [] {
      SplitAtFirst([], [], ';');
    } else {
      var l := links[0];
      assert l in links && forall m <- links[1..] :: m in links;
      var rest := if |links| > 1 then Split(HeaderText(links[1..]), ',') else [];
      if |links| > 1 {
        HeaderSplits(links);
      } else {
        assert links == [l] && WrittenAll(links) == [Written(l)];
      }
      assert Split(HeaderText(links), ',') == Split(Written(l), ',') + rest;
      if IsNextLink(l) {
        ReadableLink(l);
        assert ([Written(l)] + rest)[0] == Written(l);
      } else {
        NoNextPart(l);
        SkipParts(Split(Written(l), ','), rest);
        if |links| > 1 {
          ReadsNextUrl(links[1..]);
        }
      }
      hide Split, HeaderText, Written, IsNext, Target, IsNextLink, Plain;
    }
  }

  /** From a header of any links, the URL of the first one whose first parameter says next is read
      exactly when that URL is readable; without such a link, nothing is read. */
  lemma NextLinkReadExactly(links: seq<Link>)
    requires PlainHeader(links)
    ensures NextOf(HeaderText(links)) == NextUrl(links) <==> Readable(NextUrl(links))
  {
    NextOfReadable(HeaderText(links));
    if Readable(NextUrl(links)) {
      ReadsNextUrl(links);
    }
  }

  // ----- what the standard calls the next link

  /** A parameter that gives the next relation, among others, in any letter case (section 3.3 of
      RFC 8288). */
  ghost predicate GivesNext(p: Param) {
    ToLower(p.name) == "rel" && "next" in Split(ToLower(p.value), ' ')
  }

  /** The first `rel` parameter, wherever it stands, gives the next relation. */
  ghost predicate StandardNext(l: Link) {
    exists k :: 0 <= k < |l.params| && GivesNext(l.params[k])
             && forall j :: 0 <= j < k ==> ToLower(l.params[j].name) != "rel"
  }

  /** With `rel` in front, a link that the code takes for next is the standard's, and it takes every such
      link but those whose value is unquoted or not exactly "next". */
  lemma FoundWithRelFirst(l: Link)
    requires Plain(l) && l.params != [] && l.params[0].name == "rel"
    ensures IsNextLink(l) <==> StandardNext(l) && l.params[0].quoted && l.params[0].value == "next"
  {
    assert "rel"[|"rel"| - 3..] == "rel";
    StandardValues();
    if IsNextLink(l) {
      assert GivesNext(l.params[0]);
    }
  }

  /** The URL of the standard's next link. */
  ghost function StandardUrl(links: seq<Link>): string {
    if links == [] then ""
    else if StandardNext(links[0]) then links[0].url
    else StandardUrl(links[1..])
  }

  /** As GitHub writes its links: `rel` first, quoted, a single relation in small letters. */
  ghost predicate RelFirst(l: Link) {
    && l.params != [] && l.params[0].name == "rel" && l.params[0].quoted
    && ' ' !in l.params[0].value && ToLower(l.params[0].value) == l.params[0].value
  }

  lemma RelFirstAgrees(l: Link)
    requires Plain(l) && RelFirst(l)
    ensures IsNextLink(l) <==> StandardNext(l)
  {
    FoundWithRelFirst(l);
    StandardValues();
    SplitAtFirst(l.params[0].value, [], ' ');
    if StandardNext(l) {
      assert ToLower(l.params[0].name) == "rel";
      assert GivesNext(l.params[0]);
    }
    hide Split, IsNextLink, ToLower;
  }

  lemma {:induction false} RelFirstUrl(links: seq<Link>)
    requires forall l <- links :: Plain(l) && RelFirst(l)
    ensures NextUrl(links) == StandardUrl(links)
  {
    if links != [] {
      assert links[0] in links && forall l <- links[1..] :: l in links;
      RelFirstAgrees(links[0]);
      RelFirstUrl(links[1..]);
    }
  }

  /** From headers in that form the standard's next link is read, exactly when its URL is readable. */
  lemma StandardLinkRead(links: seq<Link>)
    requires PlainHeader(links) && forall l <- links :: RelFirst(l)
    ensures NextOf(HeaderText(links)) == StandardUrl(links) <==> Readable(StandardUrl(links))
  {
    RelFirstUrl(links);
    NextLinkReadExactly(links);
  }

  /** Ways to give the next relation that the code does not see. */
  datatype Unseen = RelSecond(title: string) | Unquoted | Capitals | TwoRelations {
    function Params(): seq<Param> {
      match this
      case RelSecond(title) => [Param(" ", "title", title, true), Param(" ", "rel", "next", true)]
      case Unquoted => [Param(" ", "rel", "next", false)]
      case Capitals => [Param(" ", "REL", "next", true)]
      case TwoRelations => [Param(" ", "rel", "next last", true)]
    }
  }

  lemma UnseenPlain(unseen: Unseen)
    requires unseen.RelSecond? ==> forall c <- unseen.title :: c !in ",;\""
    ensures forall p <- unseen.Params() :: PlainParam(p)
    ensures !SaysNext(unseen.Params()[0])
  {
    assert IsSpace(' ');
    hide Split, ToLower, IsSpace;
    assert "title"[2..] == "tle" && "REL"[0..] == "REL";
  }

  lemma UnseenGives(unseen: Unseen)
    ensures var params := unseen.Params();
            exists k :: 0 <= k < |params| && GivesNext(params[k])
                 && forall j :: 0 <= j < k ==> ToLower(params[j].name) != "rel"
  {
    StandardValues();
    hide Split, ToLower;
    assert |ToLower("title")| == 5;
    assert GivesNext(unseen.Params()[if unseen.RelSecond? then 1 else 0]);
  }

  /** Next links of the standard that the code passes over: from a header with such a link alone it reads
      that there is none. */
  lemma PassedOver(before: string, url: string, unseen: Unseen)
    requires AllSpace(before) && '"' !in url
    requires unseen.RelSecond? ==> forall c <- unseen.title :: c !in ",;\""
    ensures var links := [Link(before, url, unseen.Params())];
            PlainHeader(links) && StandardUrl(links) == url && NextOf(HeaderText(links)) == ""
  {
    hide Unseen.Params, HeaderText, PlainParam, SaysNext, GivesNext, AllSpace, ToLower;
    UnseenGives(unseen);
    UnseenPlain(unseen);
    var links := [Link(before, url, unseen.Params())];
    assert links[1..] == [];
    NextLinkReadExactly(links);
  }

  /** A quoted comma in front of the relation. */
  function QuotedComma(url: string): Link {
    Link("", url, [Param("", "t", ",", true), Param("", "rel", "next", true)])
  }

  /** And a comma inside a quoted value cuts the link in two: what follows it is read as a URL. */
  lemma CommaMisleads(url: string)
    requires Readable(url)
    ensures StandardUrl([QuotedComma(url)]) == url && NextOf(HeaderText([QuotedComma(url)])) == "\""
  {
    hide NextOf, IsNext, Target, HeaderText, StandardUrl, Head, Readable;
    QuotedCommaText(url);
    QuotedCommaIsStandard(url);
    BeforeComma(QuotedComma(url));
    AfterComma();
    SecondPart(Head(QuotedComma(url)) + [';'] + "t=\"", "\"" + [';'] + NEXT_RELATION);
  }

  lemma SecondPart(first: string, second: string)
    requires ',' !in first && ',' !in second && !IsNext(first) && IsNext(second)
    ensures NextOf(first + [','] + second) == Target(second)
  {
    hide Split, IsNext, Target;
    SplitAtFirst(first, second, ',');
    SplitAtFirst(second, [], ',');
    assert Split(first + [','] + second, ',') == [first, second];
    assert [first, second][1..] == [second];
    assert FirstNext([first, second]) == FirstNext([second]) == Target(second);
  }

  lemma BeforeComma(l: Link)
    requires AllSpace(l.before) && Readable(l.url)
    ensures ',' !in Head(l) + [';'] + "t=\"" && !IsNext(Head(l) + [';'] + "t=\"")
  {
    HeadClean(l);
    hide Split, Head, AllSpace, Readable;
    SplitAtFirst(Head(l), "t=\"", ';');
    SplitAtFirst("t=\"", [], ';');
    assert |"t=\""| < |NEXT_RELATION|;
  }

  lemma AfterComma()
    ensures ',' !in "\"" + [';'] + NEXT_RELATION && IsNext("\"" + [';'] + NEXT_RELATION)
    ensures Target("\"" + [';'] + NEXT_RELATION) == "\""
  {
    hide Split, TrimSpace;
    var head := "\"";
    SplitAtFirst(head, NEXT_RELATION, ';');
    SplitAtFirst(NEXT_RELATION, [], ';');
    assert OccursAt(NEXT_RELATION, NEXT_RELATION, 0);
    TrimPadded([], head, []);
    assert [] + head + [] == head;
    assert TrimAnglesLeft(head) == head && TrimAnglesRight(head) == head;
  }

  lemma QuotedCommaIsStandard(url: string)
    ensures StandardUrl([QuotedComma(url)]) == url
  {
    var l := QuotedComma(url);
    StandardValues();
    hide Split, ToLower;
    assert |ToLower(l.params[0].name)| == 1;
    assert GivesNext(l.params[1]);
    assert StandardNext(l);
  }

  lemma QuotedCommaText(url: string)
    ensures HeaderText([QuotedComma(url)])
         == (Head(QuotedComma(url)) + [';'] + "t=\"") + [','] + ("\"" + [';'] + NEXT_RELATION)
  {
    hide ParamText, Head;
    var l := QuotedComma(url);
    var t, rel := ParamText(l.params[0]), ParamText(l.params[1]);
    QuotedCommaParams(url);
    assert ParamTexts(l.params) == [t, rel];
    assert [Head(l)] + ParamTexts(l.params) == [Head(l), t, rel];
    JoinThree(Head(l), t, rel, ';');
    hide Join;
    assert WrittenAll([l]) == [Written(l)];
    Regroup(Head(l) + [';'], "t=\"", "\"", rel);
  }

  lemma QuotedCommaParams(url: string)
    ensures ParamText(QuotedComma(url).params[0]) == "t=\"" + [','] + "\""
    ensures ParamText(QuotedComma(url).params[1]) == NEXT_RELATION
  {}

  lemma Regroup(head: string, a: string, b: string, c: string)
    ensures head + ((a + [','] + b) + [';'] + c) == (head + a) + [','] + (b + [';'] + c)
  {}

  lemma JoinThree(a: string, b: string, c: string, sep: char)
    ensures Join([a, b, c], sep) == a + [sep] + (b + [sep] + c)
  {
    assert [a, b, c][1..] == [b, c] && [b, c][1..] == [c];
    assert Join([b, c], sep) == b + [sep] + c;
  }

  lemma StandardValues()
    ensures ToLower("rel") == "rel" && ToLower("REL") == "rel" && ToLower("next") == "next"
    ensures "next" in Split(ToLower("next"), ' ') && "next" in Split(ToLower("next last"), ' ')
  {
    assert ToLower("next last") == "next" + [' '] + "last";
    SplitAtFirst("next", [], ' ');
    SplitAtFirst("next", "last", ' ');
  }
}
