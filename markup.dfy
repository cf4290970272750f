/**
 * The rendering helpers. records/templates.py and records/filters.py each carry
 * an identical copy of `_set_html_value_types` and of `render_links`; each pair
 * is modelled once, as a loop proved against the function that states its
 * behaviour.
 */
module Markup {
  import opened Text
  import opened Wrappers

  /** The table-row marker the rendered HTML is cut at. */
  const Row: string := "<tr>"
  const TextType: string := "type=\"text\""
  const TimeType: string := "type=\"time\""
  const DateType: string := "type=\"date\""

  // ---------------------------------------------------------------------------
  // Input types of table cells

  /**
   * One `<tr>`-segment with its text inputs retyped: a segment that mentions
   * "time" (in any case) gets time inputs, otherwise one that mentions "date" or
   * "dob" gets date inputs, any other segment is kept.
   */
  function Retype(segment: string): string {
    var lowered := Lower(segment);
    if Contains(lowered, "time") then ReplaceAll(segment, TextType, TimeType)
    else if Contains(lowered, "date") || Contains(lowered, "dob") then ReplaceAll(segment, TextType, DateType)
    else segment
  }

  function RetypeEach(segments: seq<string>): seq<string> {
    seq(|segments|, i requires 0 <= i < |segments| => Retype(segments[i]))
  }

  /** The rendering cut at every `<tr>`, each segment retyped, and glued back with `<tr>`. */
  function ValueTyped(rendering: string): string {
    Join(RetypeEach(Split(rendering, Row)), Row)
  }

  lemma RowHasNoBorder()
    ensures NoBorder(Row)
  {
    forall k | 0 < k < 4
      ensures Row[..k] != Row[4 - k..]
    {
      assert Row[..k][0] == '<';
    }
  }

  lemma TypesFreeOfRow()
    ensures SeamFree(TimeType, Row) && SeamFree(DateType, Row)
  {
    SeamFreeByEnds(TimeType, Row, 0);
    SeamFreeByEnds(DateType, Row, 0);
  }

  lemma TypesFreeOfText()
    ensures SeamFree(TimeType, TextType) && SeamFree(DateType, TextType)
  {
    SeamFreeByEnds(TimeType, TextType, 8);
    SeamFreeByEnds(DateType, TextType, 8);
  }

  lemma DateFreeOfTime()
    ensures SeamFree(DateType, "time")
  {
    SeamFreeByEnds(DateType, "time", 1);
  }

  lemma TypesNameThemselves()
    ensures Contains(TimeType, "time") && Contains(DateType, "date")
    ensures Lower(TimeType) == TimeType && Lower(DateType) == DateType
  {
    TimeNamesItself();
    DateNamesItself();
  }

  lemma TimeNamesItself()
    ensures Contains(TimeType, "time") && Lower(TimeType) == TimeType
  {
    assert TimeType[6..][..4] == "time";
    ContainsAt(TimeType, "time", 6);
    LowerOfLowercase(TimeType);
  }

  lemma DateNamesItself()
    ensures Contains(DateType, "date") && Lower(DateType) == DateType
  {
    assert DateType[6..][..4] == "date";
    ContainsAt(DateType, "date", 6);
    LowerOfLowercase(DateType);
  }

  lemma RowFacts()
    ensures NoBorder(Row)
    ensures SeamFree(TimeType, Row) && SeamFree(DateType, Row)
    ensures SeamFree(TimeType, TextType) && SeamFree(DateType, TextType)
    ensures SeamFree(DateType, "time")
    ensures Contains(TimeType, "time") && Contains(DateType, "date")
    ensures Lower(TimeType) == TimeType && Lower(DateType) == DateType
  {
    RowHasNoBorder();
    TypesFreeOfRow();
    TypesFreeOfText();
    DateFreeOfTime();
    TypesNameThemselves();
  }

  /**
   * What retyping does to one segment: with "time" every `type="text"` has become
   * `type="time"`, else with "date" or "dob" every one has become `type="date"`,
   * and no `type="text"` is left; any other segment is returned as it is.
   */
  lemma {:induction false} RetypeMeaning(segment: string)
    ensures Contains(Lower(segment), "time") ==>
      Retype(segment) == Join(Split(segment, TextType), TimeType) && !Contains(Retype(segment), TextType)
    ensures !Contains(Lower(segment), "time") && (Contains(Lower(segment), "date") || Contains(Lower(segment), "dob")) ==>
      Retype(segment) == Join(Split(segment, TextType), DateType) && !Contains(Retype(segment), TextType)
    ensures !Contains(Lower(segment), "time") && !Contains(Lower(segment), "date") && !Contains(Lower(segment), "dob") ==>
      Retype(segment) == segment
  {
    RowFacts();
    SplitPartsFree(segment, TextType);
    ReplaceIsSplitJoin(segment, TextType, TimeType);
    ReplaceIsSplitJoin(segment, TextType, DateType);
    JoinFree(Split(segment, TextType), TimeType, TextType);
    JoinFree(Split(segment, TextType), DateType, TextType);
  }

  /** Retyping never creates a `<tr>`. */
  lemma {:induction false} RetypeKeepsRows(segment: string)
    requires !Contains(segment, Row)
    ensures !Contains(Retype(segment), Row)
  {
    TypesFreeOfRow();
    var parts := Split(segment, TextType);
    PartsFreeOfRow(segment);
    ReplaceIsSplitJoin(segment, TextType, TimeType);
    ReplaceIsSplitJoin(segment, TextType, DateType);
    JoinFree(parts, TimeType, Row);
    JoinFree(parts, DateType, Row);
  }

  /** Cutting a segment without `<tr>` at its text inputs gives pieces without `<tr>`. */
  lemma PartsFreeOfRow(segment: string)
    requires !Contains(segment, Row)
    ensures forall i | 0 <= i < |Split(segment, TextType)| :: !Contains(Split(segment, TextType)[i], Row)
  {
    var parts := Split(segment, TextType);
    SplitPartsOccur(segment, TextType);
    forall i | 0 <= i < |parts|
      ensures !Contains(parts[i], Row)
    {
      if Contains(parts[i], Row) {
        ContainsTransitive(segment, parts[i], Row);
      }
    }
  }

  /**
   * The `<tr>` separators are preserved: the result cuts at `<tr>` into exactly
   * the retyped segments of the input, as many as the input had.
   */
  lemma {:induction false} SegmentsRetyped(rendering: string)
    ensures Split(ValueTyped(rendering), Row) == RetypeEach(Split(rendering, Row))
    ensures |Split(ValueTyped(rendering), Row)| == |Split(rendering, Row)|
  {
    RowFacts();
    var segments := Split(rendering, Row);
    SplitPartsFree(rendering, Row);
    forall i | 0 <= i < |segments|
      ensures !Contains(RetypeEach(segments)[i], Row)
    {
      RetypeKeepsRows(segments[i]);
    }
    JoinSplit(RetypeEach(segments), Row);
  }

  /** A rendering without `type="text"` is returned unchanged. */
  lemma {:induction false} ValueTypedNoTextInputs(rendering: string)
    requires !Contains(rendering, TextType)
    ensures ValueTyped(rendering) == rendering
  {
    var segments := Split(rendering, Row);
    SplitPartsOccur(rendering, Row);
    forall i | 0 <= i < |segments|
      ensures Retype(segments[i]) == segments[i]
    {
      if Contains(segments[i], TextType) {
        ContainsTransitive(rendering, segments[i], TextType);
      }
      ReplaceAbsent(segments[i], TextType, TimeType);
      ReplaceAbsent(segments[i], TextType, DateType);
    }
    assert RetypeEach(segments) == segments;
    SplitJoin(rendering, Row);
  }

  /** Retyping a retyped segment changes nothing more. */
  lemma {:induction false} RetypeIdempotent(segment: string)
    ensures Retype(Retype(segment)) == Retype(segment)
  {
    RowFacts();
    var lowered := Lower(segment);
    var parts := Split(segment, TextType);
    SplitPartsFree(segment, TextType);
    SplitJoin(segment, TextType);
    if Contains(lowered, "time") {
      var y := Retype(segment);
      ReplaceIsSplitJoin(segment, TextType, TimeType);
      assert Contains(Lower(y), "time") by {
        if |parts| >= 2 {
          JoinContainsSep(parts, TimeType);
          ContainsLower(y, TimeType);
          ContainsTransitive(Lower(y), TimeType, "time");
        }
      }
      JoinFree(parts, TimeType, TextType);
      ReplaceAbsent(y, TextType, TimeType);
    } else if Contains(lowered, "date") || Contains(lowered, "dob") {
      var y := Retype(segment);
      ReplaceIsSplitJoin(segment, TextType, DateType);
      assert !Contains(Lower(y), "time") by {
        var loweredParts := seq(|parts|, i requires 0 <= i < |parts| => Lower(parts[i]));
        LowerJoin(parts, DateType);
        SplitPartsOccur(segment, TextType);
        forall i | 0 <= i < |parts|
          ensures !Contains(loweredParts[i], "time")
        {
          ContainsLower(segment, parts[i]);
          if Contains(loweredParts[i], "time") {
            ContainsTransitive(lowered, loweredParts[i], "time");
          }
        }
        JoinFree(loweredParts, DateType, "time");
      }
      assert Contains(Lower(y), "date") || Contains(Lower(y), "dob") by {
        if |parts| >= 2 {
          JoinContainsSep(parts, DateType);
          ContainsLower(y, DateType);
          ContainsTransitive(Lower(y), DateType, "date");
        }
      }
      JoinFree(parts, DateType, TextType);
      ReplaceAbsent(y, TextType, DateType);
    }
  }

  /** Applying the retyping twice is the same as applying it once. */
  lemma {:induction false} ValueTypedIdempotent(rendering: string)
    ensures ValueTyped(ValueTyped(rendering)) == ValueTyped(rendering)
  {
    var segments := Split(rendering, Row);
    SegmentsRetyped(rendering);
    forall i | 0 <= i < |segments|
      ensures RetypeEach(RetypeEach(segments))[i] == RetypeEach(segments)[i]
    {
      RetypeIdempotent(segments[i]);
    }
    assert RetypeEach(RetypeEach(segments)) == RetypeEach(segments);
  }

  /** `_set_html_value_types`: the segments are retyped in place in a list, which is then joined. */
  method SetHtmlValueTypes(rendering: string) returns (r: string)
    ensures r == ValueTyped(rendering)
  {
    var lines := Split(rendering, Row);
    ghost var segments := lines;
    for idx := 0 to |lines|
      invariant |lines| == |segments|
      invariant forall j | 0 <= j < idx :: lines[j] == Retype(segments[j])
      invariant forall j | idx <= j < |lines| :: lines[j] == segments[j]
    {
      var line := lines[idx];
      var lowered := Lower(line);
      if Contains(lowered, "time") {
        lines := lines[idx := ReplaceAll(line, TextType, TimeType)];
      } else if Contains(lowered, "date") || Contains(lowered, "dob") {
        lines := lines[idx := ReplaceAll(line, TextType, DateType)];
      }
    }
    assert lines == RetypeEach(segments);
    r := Join(lines, Row);
  }

  // ---------------------------------------------------------------------------
  // Links to copied files

  /** A file path; only its final component matters here. */
  datatype FileLink = FileLink(name: string)

  /** What `render_links` is given: one path, a list of paths, or anything without a `name` (such as `None`). */
  datatype LinkArg = Single(link: FileLink) | Many(links: seq<FileLink>) | Nameless

  /** `render_links` reading `.name` from something that has none. */
  datatype LinkError = NoName

  /** `s.rfind('.')`: the position of the last dot, if there is one. */
  function LastDot(s: string): (r: Option<nat>)
    ensures r.Some? ==> r.value < |s|
  {
    if s == [] then None
    else if s[|s| - 1] == '.' then Some(|s| - 1)
    else LastDot(s[..|s| - 1])
  }

  /** The position found holds a dot and no later position does; none is found only when there is no dot. */
  lemma {:induction false} LastDotIsLast(s: string)
    ensures LastDot(s).Some? ==> s[LastDot(s).value] == '.' && forall j | LastDot(s).value < j < |s| :: s[j] != '.'
    ensures LastDot(s).None? ==> '.' !in s
  {
    if s != [] && s[|s| - 1] != '.' {
      LastDotIsLast(s[..|s| - 1]);
      assert s == s[..|s| - 1] + [s[|s| - 1]];
    }
  }

  /** `Path.stem`: the name without its last suffix, when the last dot is neither first nor last. */
  function Stem(name: string): (r: string)
    ensures StartsWith(name, r)
  {
    match LastDot(name)
    case Some(i) => if 0 < i < |name| - 1 then name[..i] else name
    case None => name
  }

  /**
   * What the stem is: the name cut just before its last dot when that dot is
   * neither first nor last; otherwise the whole name, which then has no dot,
   * ends in a dot, or has its only dot first.
   */
  lemma StemMeaning(name: string)
    ensures Stem(name) != name ==>
      && 0 < |Stem(name)| < |name| - 1
      && name[|Stem(name)|] == '.'
      && '.' !in name[|Stem(name)| + 1..]
    ensures Stem(name) == name ==>
      || '.' !in name
      || name[|name| - 1] == '.'
      || (name[0] == '.' && '.' !in name[1..])
  {
    LastDotIsLast(name);
  }

  /** The embedding line for one file. */
  function Embed(link: FileLink): string {
    "![[files/" + link.name + "]]"
  }

  /** The heading for one file of a list: `level` hashes, a space and the stem. */
  function Heading(link: FileLink, level: int): string {
    Repeat('#', level) + " " + Stem(link.name)
  }

  /** The two lines one link of a list renders to. */
  function Entry(link: FileLink, level: int): string {
    Heading(link, level) + "\n" + Embed(link) + "\n"
  }

  /** The texts of the links, one after the other. */
  function Concat(f: FileLink -> string, links: seq<FileLink>): string {
    if links == [] then [] else f(links[0]) + Concat(f, links[1..])
  }

  function EntryAt(level: int): FileLink -> string {
    link => Entry(link, level)
  }

  /** The text a list of links renders to after its leading newline. */
  function Entries(links: seq<FileLink>, level: int): string {
    Concat(EntryAt(level), links)
  }

  /** `render_links(link, header_level)`. */
  function RenderedLinks(arg: LinkArg, level: int): Result<string, LinkError> {
    match arg
    case Many(links) => Ok("\n" + Entries(links, level))
    case Single(link) => Ok(Embed(link))
    case Nameless => Err(NoName)
  }

  /** The lines of a rendered list, between the empty first and last lines: heading, embedding, per link. */
  function Lines(links: seq<FileLink>, level: int): (r: seq<string>)
    ensures |r| == 2 * |links|
  {
    if links == [] then []
    else [Heading(links[0], level), Embed(links[0])] + Lines(links[1..], level)
  }

  /** Line `2i` is the heading of link `i` and line `2i+1` its embedding. */
  lemma {:induction false} LinesAt(links: seq<FileLink>, level: int, i: nat)
    requires i < |links|
    ensures Lines(links, level)[2 * i] == Heading(links[i], level)
    ensures Lines(links, level)[2 * i + 1] == Embed(links[i])
  {
    var rest := Lines(links[1..], level);
    assert Lines(links, level) == [Heading(links[0], level), Embed(links[0])] + rest;
    if i > 0 {
      LinesAt(links[1..], level, i - 1);
      assert links[1..][i - 1] == links[i];
      assert Lines(links, level)[2 * i] == rest[2 * (i - 1)];
      assert Lines(links, level)[2 * i + 1] == rest[2 * (i - 1) + 1];
    }
  }

  lemma {:induction false} EntriesAreLines(links: seq<FileLink>, level: int)
    ensures Join(Lines(links, level) + [""], "\n") == Entries(links, level)
  {
    if links != [] {
      var h, e := Heading(links[0], level), Embed(links[0]);
      var rest := Lines(links[1..], level) + [""];
      LinesCons(links, level);
      EntriesAreLines(links[1..], level);
      JoinCons(e, rest, "\n");
      JoinCons(h, [e] + rest, "\n");
      TwoLines(h, e, Entries(links[1..], level));
    }
  }

  lemma LinesCons(links: seq<FileLink>, level: int)
    requires links != []
    ensures Lines(links, level) + [""] == [Heading(links[0], level)] + ([Embed(links[0])] + (Lines(links[1..], level) + [""]))
  {
  }

  lemma TwoLines(h: string, e: string, more: string)
    ensures h + "\n" + (e + "\n" + more) == h + "\n" + e + "\n" + more
  {
  }

  /** No line of a list of links holds a newline when no file name does. */
  lemma LineHasNoNewline(links: seq<FileLink>, level: int, j: nat)
    requires forall i | 0 <= i < |links| :: '\n' !in links[i].name
    requires j < 2 * |links|
    ensures '\n' !in Lines(links, level)[j]
  {
    var i := j / 2;
    LinesAt(links, level, i);
    if j % 2 == 0 {
      assert j == 2 * i;
      HeadingOneLine(links[i], level);
    } else {
      assert j == 2 * i + 1;
      EmbedOneLine(links[i]);
    }
  }

  lemma HeadingOneLine(link: FileLink, level: int)
    requires '\n' !in link.name
    ensures '\n' !in Heading(link, level)
  {
    var stem := Stem(link.name);
    assert stem == link.name[..|stem|];
    assert '\n' !in stem;
    assert '\n' !in Repeat('#', level);
  }

  lemma EmbedOneLine(link: FileLink)
    requires '\n' !in link.name
    ensures '\n' !in Embed(link)
  {
  }

  /**
   * A rendered list read back line by line (`split("\n")`): an empty line, then
   * for each link in order its heading and its embedding, which is exactly what
   * the link renders to on its own, then an empty line.
   */
  lemma {:induction false} RenderedListLines(links: seq<FileLink>, level: int)
    requires forall i | 0 <= i < |links| :: '\n' !in links[i].name
    ensures RenderedLinks(Many(links), level).Ok?
    ensures Split(RenderedLinks(Many(links), level).value, "\n") == [""] + Lines(links, level) + [""]
    ensures forall i | 0 <= i < |links| ::
      Ok(Lines(links, level)[2 * i + 1]) == RenderedLinks(Single(links[i]), level)
  {
    var body := Lines(links, level);
    var lines := [""] + body + [""];
    EntriesAreLines(links, level);
    JoinCons("", body + [""], "\n");
    assert lines == [""] + (body + [""]);
    forall j | 0 <= j < |lines|
      ensures !Contains(lines[j], "\n")
    {
      if 1 <= j < |lines| - 1 {
        LineHasNoNewline(links, level, j - 1);
      }
      MissingChar(lines[j], "\n", 0);
    }
    JoinSplit(lines, "\n");
    forall i | 0 <= i < |links|
      ensures Ok(body[2 * i + 1]) == RenderedLinks(Single(links[i]), level)
    {
      LinesAt(links, level, i);
    }
  }

  /** The texts of two runs of links are the texts of the first followed by those of the second. */
  lemma {:induction false} ConcatAppend(f: FileLink -> string, a: seq<FileLink>, b: seq<FileLink>)
    ensures Concat(f, a + b) == Concat(f, a) + Concat(f, b)
  {
    if a != [] {
      assert (a + b)[0] == a[0] && (a + b)[1..] == a[1..] + b;
      ConcatAppend(f, a[1..], b);
      StringAssoc(f(a[0]), Concat(f, a[1..]), Concat(f, b));
    } else {
      assert a + b == b;
    }
  }

  /** The entries of two runs of links are the entries of the first followed by those of the second. */
  lemma EntriesAppend(a: seq<FileLink>, b: seq<FileLink>, level: int)
    ensures Entries(a + b, level) == Entries(a, level) + Entries(b, level)
  {
    ConcatAppend(EntryAt(level), a, b);
  }

  lemma StringAssoc(x: string, y: string, z: string)
    ensures x + (y + z) == x + y + z
  {
  }

  /** One more link adds its heading line and its embedding line. */
  lemma EntriesSnoc(links: seq<FileLink>, level: int, i: nat)
    requires i < |links|
    ensures Entries(links[..i + 1], level) == Entries(links[..i], level) + Entry(links[i], level)
  {
    assert links[..i + 1] == links[..i] + [links[i]];
    EntriesAppend(links[..i], [links[i]], level);
    assert [links[i]][1..] == [];
    assert Entries([links[i]], level) == EntryAt(level)(links[i]) + Concat(EntryAt(level), []);
  }

  /** The two appends of the loop body add one link's entry. */
  lemma AppendEntry(prefix: string, link: FileLink, level: int)
    ensures prefix + Repeat('#', level) + " " + Stem(link.name) + "\n" + "![[files/" + link.name + "]]\n" ==
      prefix + Entry(link, level)
  {
  }

  lemma AppendAfterNewline(entries: string, entry: string)
    ensures "\n" + entries + entry == "\n" + (entries + entry)
  {
  }

  /** `render_links`: for a list, a newline and then, link by link, the heading line and the embedding line. */
  method RenderLinks(arg: LinkArg, level: int) returns (r: Result<string, LinkError>)
    ensures r == RenderedLinks(arg, level)
  {
    var header := Repeat('#', level);
    if arg.Many? {
      var links := "\n";
      for i := 0 to |arg.links|
        invariant links == "\n" + Entries(arg.links[..i], level)
      {
        var link := arg.links[i];
        EntriesSnoc(arg.links, level, i);
        AppendEntry(links, link, level);
        AppendAfterNewline(Entries(arg.links[..i], level), Entry(link, level));
        links := links + header + " " + Stem(link.name) + "\n";
        links := links + "![[files/" + link.name + "]]\n";
      }
      assert arg.links[..|arg.links|] == arg.links;
      return Ok(links);
    }
    if arg.Nameless? {
      return Err(NoName);
    }
    r := Ok("![[files/" + arg.link.name + "]]");
  }
}
