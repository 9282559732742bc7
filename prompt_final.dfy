/**
 * The pure pieces of the report pipeline script: the requirements-only prompt
 * template, and the parser that cuts a research context of the form
 * "Source: <id> Title: <title> Content: <text> Source: ..." into passage
 * records, mapping source ids through a dictionary.
 */
module PromptFinal {
  import opened Wrappers
  import opened PyStrings
  import opened ReportRequirements

  // ---------------------------------------------------------------------------
  // build_prompt(combo)

  /** `build_prompt(combo)`: the requirements template, stripped. */
  function BuildPrompt(c: Combo): string {
    Strip("\n" + RequirementsBlock(c) + "\n")
  }

  /**
   * The prompt is the requirements block with only its trailing whitespace
   * dropped, so it opens with the heading.
   */
  lemma BuildPromptLayout(c: Combo)
    ensures var r := BuildPrompt(c);
            && |Heading| <= |r| <= |RequirementsBlock(c)|
            && r[..|Heading|] == Heading
            && r == RequirementsBlock(c)[..|r|]
            && AllSpace(RequirementsBlock(c)[|r|..])
  {
    var block := RequirementsBlock(c);
    BlockStartsWithHeading(c);
    assert Heading + block[|Heading|..] == block;
    assert Heading[0] == 'R' && Heading[|Heading| - 1] == ':';
    StripFramedPrefix(Heading, block[|Heading|..]);
  }

  // ---------------------------------------------------------------------------
  // extract_titles_passages(context, doc_dict)

  const SourceMarker: string := "Source:"
  const ContentMarker: string := "Content:"
  const TitleMarker: string := "Title:"

  /** One record of the result list: the keys 'docid', 'title' and 'passage'. */
  datatype Passage = Passage(docid: string, title: string, passage: string)

  /**
   * The unpacking `docid, title = ...split('Title:')` raises when a header
   * holds the marker more than once; the header is kept for the message.
   */
  datatype ParseError = TitleUnpack(header: string)

  /** What one segment between `Source:` markers contributes. */
  datatype SegmentOutcome = Skip | Emit(p: Passage) | Fail(e: ParseError)

  /** The source id and the title of a segment header. */
  function ParseHeader(header: string): Result<(string, string), ParseError> {
    if Contains(header, TitleMarker) then
      var parts := Split(Strip(header), TitleMarker);
      if |parts| == 2 then Ok((Strip(parts[0]), Strip(parts[1]))) else Err(TitleUnpack(header))
    else
      Ok((Strip(header), ""))
  }

  /** The loop body for one segment. */
  function ParseSegment(item: string, docDict: map<string, string>): SegmentOutcome {
    var fields := Split(item, ContentMarker);
    if |fields| != 2 then Skip
    else
      match ParseHeader(fields[0])
      case Err(e) => Fail(e)
      case Ok((docid, title)) =>
        var mapped := if docid in docDict then docDict[docid] else docid;
        Emit(Passage(Strip(mapped), title, Strip(fields[1])))
  }

  /** The segments the loop visits: the context with line breaks made spaces, cut at each `Source:`. */
  function Segments(context: string): seq<string> {
    Split(Replace(context, "\n", " "), SourceMarker)
  }

  /** The passages of a run of segments, in segment order; the first failing segment decides the error. */
  function ExtractFrom(items: seq<string>, docDict: map<string, string>): Result<seq<Passage>, ParseError>
    decreases |items|
  {
    if items == [] then Ok([])
    else
      match ExtractFrom(items[..|items| - 1], docDict)
      case Err(e) => Err(e)
      case Ok(ps) =>
        match ParseSegment(items[|items| - 1], docDict)
        case Skip => Ok(ps)
        case Emit(p) => Ok(ps + [p])
        case Fail(e) => Err(e)
  }

  function Extract(context: string, docDict: map<string, string>): Result<seq<Passage>, ParseError> {
    ExtractFrom(Segments(context), docDict)
  }

  /** The parser as the script runs it: a loop that appends one record per usable segment. */
  method ExtractTitlesPassages(context: string, docDict: map<string, string>)
    returns (r: Result<seq<Passage>, ParseError>)
    ensures r == Extract(context, docDict)
  {
    var items := Segments(context);
    var passages: seq<Passage> := [];
    var i := 0;
    while i < |items|
      invariant 0 <= i <= |items|
      invariant ExtractFrom(items[..i], docDict) == Ok(passages)
    {
      var outcome := ParseItem(items[i], docDict);
      ExtractStep(items, i, docDict, passages, outcome);
      match outcome {
        case Skip =>
        case Emit(p) =>
          passages := passages + [p];
        case Fail(e) =>
          ExtractPrefixError(items, docDict, i + 1);
          return Err(e);
      }
      i := i + 1;
    }
    assert items[..i] == items;
    r := Ok(passages);
  }

  /** One more segment extends a successful parse by that segment's outcome. */
  lemma ExtractStep(items: seq<string>, i: nat, docDict: map<string, string>, ps: seq<Passage>, o: SegmentOutcome)
    requires i < |items| && ExtractFrom(items[..i], docDict) == Ok(ps)
    requires o == ParseSegment(items[i], docDict)
    ensures o.Skip? ==> ExtractFrom(items[..i + 1], docDict) == Ok(ps)
    ensures o.Emit? ==> ExtractFrom(items[..i + 1], docDict) == Ok(ps + [o.p])
    ensures o.Fail? ==> ExtractFrom(items[..i + 1], docDict) == Err(o.e)
  {
    assert items[..i + 1][..i] == items[..i];
  }

  /** The loop body: split at `Content:`, read the header, map the id, strip the fields. */
  method ParseItem(item: string, docDict: map<string, string>) returns (o: SegmentOutcome)
    ensures o == ParseSegment(item, docDict)
  {
    var fields := Split(item, ContentMarker);
    if |fields| != 2 {
      return Skip;
    }
    var docid, title;
    if Contains(fields[0], TitleMarker) {
      var parts := Split(Strip(fields[0]), TitleMarker);
      if |parts| != 2 {
        return Fail(TitleUnpack(fields[0]));
      }
      docid, title := Strip(parts[0]), Strip(parts[1]);
    } else {
      docid, title := Strip(fields[0]), "";
    }
    if docid in docDict {
      docid := docDict[docid];
    }
    var passage := Strip(fields[1]);
    return Emit(Passage(Strip(docid), title, passage));
  }

  // ---------------------------------------------------------------------------
  // Properties of the parser

  function Concat(a: Result<seq<Passage>, ParseError>, b: Result<seq<Passage>, ParseError>)
    : Result<seq<Passage>, ParseError>
  {
    if a.Err? then a else if b.Err? then b else Ok(a.value + b.value)
  }

  /**
   * Parsing is compositional: the passages of a + b are those of a followed by
   * those of b, so records come out in the order of their segments.
   */
  lemma {:induction false} ExtractAppend(a: seq<string>, b: seq<string>, docDict: map<string, string>)
    ensures ExtractFrom(a + b, docDict) == Concat(ExtractFrom(a, docDict), ExtractFrom(b, docDict))
    decreases |b|
  {
    if b == [] {
      assert a + b == a;
      if ExtractFrom(a, docDict).Ok? {
        assert ExtractFrom(a, docDict).value + [] == ExtractFrom(a, docDict).value;
      }
    } else {
      var n := |b| - 1;
      assert (a + b)[..|a + b| - 1] == a + b[..n];
      assert (a + b)[|a + b| - 1] == b[n];
      ExtractAppend(a, b[..n], docDict);
      var ea, eb := ExtractFrom(a, docDict), ExtractFrom(b[..n], docDict);
      if ea.Ok? && eb.Ok? {
        match ParseSegment(b[n], docDict)
        case Emit(p) =>
          assert ea.value + (eb.value + [p]) == (ea.value + eb.value) + [p];
        case Skip =>
        case Fail(_) =>
      }
    }
  }

  /** A segment that fails ends the parse with its error, whatever follows. */
  lemma ExtractPrefixError(items: seq<string>, docDict: map<string, string>, n: nat)
    requires n <= |items| && ExtractFrom(items[..n], docDict).Err?
    ensures ExtractFrom(items, docDict) == ExtractFrom(items[..n], docDict)
  {
    ExtractAppend(items[..n], items[n..], docDict);
    assert items[..n] + items[n..] == items;
  }

  /** A single segment yields its own outcome. */
  lemma ExtractSingle(item: string, docDict: map<string, string>)
    ensures ExtractFrom([item], docDict) == match ParseSegment(item, docDict)
                                            case Skip => Ok([])
                                            case Emit(p) => Ok([p])
                                            case Fail(e) => Err(e)
  {
    assert [item][..0] == [];
    match ParseSegment(item, docDict)
    case Emit(p) => assert [] + [p] == [p];
    case Skip =>
    case Fail(_) =>
  }

  lemma MarkersBorderFree()
    ensures BorderFree(ContentMarker) && BorderFree(TitleMarker)
  {
    HeadUniqueBorderFree(ContentMarker);
    HeadUniqueBorderFree(TitleMarker);
  }

  /** A segment yields a record exactly when it holds `Content:` exactly once; otherwise it is dropped. */
  lemma SegmentKeptIffOneContent(item: string, docDict: map<string, string>)
    ensures ParseSegment(item, docDict).Skip? <==> !OneOccurrence(item, ContentMarker)
  {
    MarkersBorderFree();
    SplitTwoIff(item, ContentMarker);
  }

  /** With one `Content:`, the header is what precedes it and the passage is what follows it, stripped. */
  lemma SegmentFields(u: string, v: string, docDict: map<string, string>)
    requires !Contains(u, ContentMarker) && !Contains(v, ContentMarker)
    ensures ParseSegment(u + ContentMarker + v, docDict) ==
      match ParseHeader(u)
      case Err(e) => Fail(e)
      case Ok((docid, title)) =>
        Emit(Passage(Strip(if docid in docDict then docDict[docid] else docid), title, Strip(v)))
  {
    MarkersBorderFree();
    SplitInTwo(u, ContentMarker, v);
    var fields := Split(u + ContentMarker + v, ContentMarker);
    assert fields[0] == u && fields[1] == v;
  }

  /** A header without `Title:` is all source id, with an empty title. */
  lemma HeaderWithoutTitle(header: string)
    requires !Contains(header, TitleMarker)
    ensures ParseHeader(header) == Ok((Strip(header), ""))
  {
  }

  /** A header with one `Title:` gives the stripped text before it as id and the stripped text after it as title. */
  lemma HeaderWithOneTitle(header: string, u: string, v: string)
    requires Strip(header) == u + TitleMarker + v
    requires !Contains(u, TitleMarker) && !Contains(v, TitleMarker)
    ensures ParseHeader(header) == Ok((Strip(u), Strip(v)))
  {
    MarkersBorderFree();
    var s := Strip(header);
    assert OccursAt(s, TitleMarker, |u|) by { assert s[|u|..|u| + |TitleMarker|] == TitleMarker; }
    ContainsOfStrip(header, TitleMarker);
    SplitInTwo(u, TitleMarker, v);
  }

  /** A header holding `Title:` twice fails to unpack. */
  lemma HeaderWithTwoTitles(header: string, u: string, v: string, w: string)
    requires Strip(header) == u + TitleMarker + v + TitleMarker + w
    ensures ParseHeader(header) == Err(TitleUnpack(header))
  {
    MarkersBorderFree();
    var s := Strip(header);
    assert OccursAt(s, TitleMarker, |u|) by { assert s[|u|..|u| + |TitleMarker|] == TitleMarker; }
    ContainsOfStrip(header, TitleMarker);
    TwoOccurrencesSplitFurther(u, TitleMarker, v, w);
  }

  // ---------------------------------------------------------------------------
  // No line breaks in the records

  predicate NoNewline(s: string) {
    '\n' !in s
  }

  /**
   * No record field holds a line break, except a source id that is a stripped
   * dictionary value holding one.
   */
  ghost predicate NewlineFree(p: Passage, docDict: map<string, string>) {
    && NoNewline(p.title)
    && NoNewline(p.passage)
    && (NoNewline(p.docid) || exists key :: key in docDict && !NoNewline(docDict[key]) && p.docid == Strip(docDict[key]))
  }

  lemma StripNewlineFree(s: string)
    requires NoNewline(s)
    ensures NoNewline(Strip(s))
  {
    StripChars(s);
  }

  lemma SplitNewlineFree(s: string, sep: string)
    requires sep != [] && NoNewline(s)
    ensures forall k :: 0 <= k < |Split(s, sep)| ==> NoNewline(Split(s, sep)[k])
  {
    var parts := Split(s, sep);
    SplitChars(s, sep);
    forall k | 0 <= k < |parts| ensures NoNewline(parts[k]) {
      assert parts[k] in parts;
    }
  }

  lemma HeaderNewlineFree(header: string)
    requires NoNewline(header)
    ensures ParseHeader(header).Ok? ==> NoNewline(ParseHeader(header).value.0) && NoNewline(ParseHeader(header).value.1)
  {
    StripNewlineFree(header);
    SplitNewlineFree(Strip(header), TitleMarker);
  }

  /** A segment without line breaks yields a record that is NewlineFree. */
  lemma SegmentNewlineFree(item: string, docDict: map<string, string>)
    requires NoNewline(item)
    ensures ParseSegment(item, docDict).Emit? ==> NewlineFree(ParseSegment(item, docDict).p, docDict)
  {
    var fields := Split(item, ContentMarker);
    SplitNewlineFree(item, ContentMarker);
    if |fields| == 2 {
      assert NoNewline(fields[0]) && NoNewline(fields[1]);
      HeaderNewlineFree(fields[0]);
      StripNewlineFree(fields[1]);
      match ParseHeader(fields[0])
      case Err(_) =>
      case Ok((docid, title)) =>
        if docid in docDict {
          if NoNewline(docDict[docid]) {
            StripNewlineFree(docDict[docid]);
          }
        } else {
          StripNewlineFree(docid);
        }
    }
  }

  /** Every record of a run of segments without line breaks is NewlineFree. */
  lemma {:induction false} ExtractFromNewlineFree(items: seq<string>, docDict: map<string, string>)
    requires forall k :: 0 <= k < |items| ==> NoNewline(items[k])
    ensures ExtractFrom(items, docDict).Ok? ==>
      forall k :: 0 <= k < |ExtractFrom(items, docDict).value| ==> NewlineFree(ExtractFrom(items, docDict).value[k], docDict)
    decreases |items|
  {
    if items != [] {
      var n := |items| - 1;
      var prefix := items[..n];
      forall k | 0 <= k < n ensures NoNewline(prefix[k]) {
        assert prefix[k] == items[k];
      }
      ExtractFromNewlineFree(prefix, docDict);
      match ExtractFrom(prefix, docDict)
      case Err(_) =>
      case Ok(ps) =>
        var o := ParseSegment(items[n], docDict);
        ExtractStep(items, n, docDict, ps, o);
        assert items[..n + 1] == items;
        if o.Emit? {
          SegmentNewlineFree(items[n], docDict);
          AppendNewlineFree(ps, o.p, docDict);
        }
    }
  }

  lemma AppendNewlineFree(ps: seq<Passage>, p: Passage, docDict: map<string, string>)
    requires forall k :: 0 <= k < |ps| ==> NewlineFree(ps[k], docDict)
    requires NewlineFree(p, docDict)
    ensures forall k :: 0 <= k < |ps + [p]| ==> NewlineFree((ps + [p])[k], docDict)
  {
    forall k | 0 <= k < |ps + [p]| ensures NewlineFree((ps + [p])[k], docDict) {
      if k < |ps| {
        assert (ps + [p])[k] == ps[k];
      }
    }
  }

  /**
   * Line breaks are turned into spaces before the context is cut up, so no
   * title or passage holds one, and a source id holds one only when it is the
   * stripped dictionary value of a key, and that value holds one.
   */
  lemma ExtractNewlineFree(context: string, docDict: map<string, string>)
    ensures Extract(context, docDict).Ok? ==>
      forall k :: 0 <= k < |Extract(context, docDict).value| ==> NewlineFree(Extract(context, docDict).value[k], docDict)
  {
    var flat := Replace(context, "\n", " ");
    ReplaceRemovesChar(context, '\n', " ");
    var items := Segments(context);
    SplitChars(flat, SourceMarker);
    forall k | 0 <= k < |items| ensures NoNewline(items[k]) {
      assert items[k] in items;
    }
    ExtractFromNewlineFree(items, docDict);
  }
}
