/** `generate_index.py`: the record read from each notebook
    (`get_notebook_metadata`) and the index page listing them
    (`generate_index_html`). */
module Index {
  import opened Strings
  import opened Notebook

  /** What the index knows of a notebook. */
  datatype NotebookInfo = NotebookInfo(title: string, description: string, filename: string, tags: seq<string>)

  // ---------------------------------------------------------------------
  // Metadata

  /** The title used when no markdown cell has a `# ` line: the file stem
      with underscores as spaces, in title case. */
  function FallbackTitle(stem: string): string
  {
    TitleCase(ReplaceAll(stem, "_", " "))
  }

  /** The index of the first markdown cell, if any. */
  function FirstMarkdown(cells: seq<Cell>): (r: Option<nat>)
    ensures r.Some? ==>
      r.value < |cells| && cells[r.value].Markdown? && forall j :: 0 <= j < r.value ==> !cells[j].Markdown?
    ensures r.None? ==> forall j :: 0 <= j < |cells| ==> !cells[j].Markdown?
  {
    if |cells| == 0 then None
    else if cells[0].Markdown? then Some(0)
    else match FirstMarkdown(cells[1..])
      case None => None
      case Some(i) => Some(i + 1)
  }

  /** The lines of a cell's source once stripped. */
  function CellLines(cell: Cell): seq<string>
  {
    Split(Strip(SourceText(cell)), '\n')
  }

  predicate IsHeading(line: string)
  {
    StartsWith(line, "# ")
  }

  /** The index of the first `# ` line, if any. */
  function FirstHeading(lines: seq<string>): (r: Option<nat>)
    ensures r.Some? ==>
      r.value < |lines| && IsHeading(lines[r.value]) && forall j :: 0 <= j < r.value ==> !IsHeading(lines[j])
    ensures r.None? ==> forall j :: 0 <= j < |lines| ==> !IsHeading(lines[j])
  {
    if |lines| == 0 then None
    else if IsHeading(lines[0]) then Some(0)
    else match FirstHeading(lines[1..])
      case None => None
      case Some(i) => Some(i + 1)
  }

  /** The text of the first `# ` line, stripped, or `fallback`. */
  function TitleOf(lines: seq<string>, fallback: string): string
  {
    match FirstHeading(lines)
    case None => fallback
    case Some(i) => Strip(lines[i][2..])
  }

  /** A line that opens the description. */
  predicate IsLeadIn(line: string)
  {
    StartsWith(line, "**Chapter") || StartsWith(line, "Chapter")
  }

  /** A line that is taken into the description once it is open. */
  predicate Qualifies(line: string)
  {
    Strip(line) != "" && !StartsWith(line, "#")
  }

  /** Every line the description loop would take if it never stopped
      early; `inDesc` tells whether a lead-in has been seen. */
  function Candidates(lines: seq<string>, inDesc: bool): seq<string>
  {
    if |lines| == 0 then []
    else if IsLeadIn(lines[0]) then Candidates(lines[1..], true)
    else if inDesc && Qualifies(lines[0]) then [Strip(lines[0])] + Candidates(lines[1..], inDesc)
    else Candidates(lines[1..], inDesc)
  }

  /** `desc_lines`: the loop stops once it holds two lines. */
  function DescLines(lines: seq<string>): seq<string>
  {
    var c := Candidates(lines, false);
    if |c| <= 2 then c else c[..2]
  }

  /** The record for a notebook whose file stem is `stem`. */
  function Metadata(cells: seq<Cell>, stem: string): NotebookInfo
  {
    match FirstMarkdown(cells)
    case None => NotebookInfo(FallbackTitle(stem), "", stem, [])
    case Some(i) =>
      var lines := CellLines(cells[i]);
      NotebookInfo(TitleOf(lines, FallbackTitle(stem)), Join(DescLines(lines), " "), stem, [])
  }

  lemma CandidatesStep(lines: seq<string>, k: nat, inDesc: bool)
    requires k < |lines|
    ensures Candidates(lines[k..], inDesc) ==
      if IsLeadIn(lines[k]) then Candidates(lines[k + 1..], true)
      else if inDesc && Qualifies(lines[k]) then [Strip(lines[k])] + Candidates(lines[k + 1..], inDesc)
      else Candidates(lines[k + 1..], inDesc)
  {
    assert lines[k..][0] == lines[k];
    assert lines[k..][1..] == lines[k + 1..];
  }

  /** The title loop. */
  method FindTitle(lines: seq<string>, title: string) returns (title': string)
    ensures title' == TitleOf(lines, title)
  {
    title' := title;
    for k := 0 to |lines|
      invariant forall j :: 0 <= j < k ==> !IsHeading(lines[j])
    {
      if StartsWith(lines[k], "# ") {
        title' := Strip(lines[k][2..]);
        assert FirstHeading(lines) == Some(k);
        return;
      }
    }
  }

  /** The description loop. */
  method FindDescLines(lines: seq<string>) returns (descLines: seq<string>)
    ensures descLines == DescLines(lines)
  {
    var inDesc := false;
    descLines := [];
    for k := 0 to |lines|
      invariant |descLines| <= 1
      invariant descLines + Candidates(lines[k..], inDesc) == Candidates(lines, false)
    {
      CandidatesStep(lines, k, inDesc);
      var line := lines[k];
      if StartsWith(line, "**Chapter") || StartsWith(line, "Chapter") {
        inDesc := true;
        continue;
      }
      if inDesc && Strip(line) != "" && !StartsWith(line, "#") {
        AppendAssoc(descLines, [Strip(line)], Candidates(lines[k + 1..], inDesc));
        descLines := descLines + [Strip(line)];
        if |descLines| >= 2 {
          assert Candidates(lines, false)[..2] == descLines;
          return;
        }
      }
    }
    assert lines[|lines|..] == [];
    AppendEmpty(descLines);
  }

  /** `get_notebook_metadata` on a notebook already read: the first
      markdown cell alone decides the title and the description. */
  method GetNotebookMetadata(cells: seq<Cell>, stem: string) returns (info: NotebookInfo)
    ensures info == Metadata(cells, stem)
  {
    var title := TitleCase(ReplaceAll(stem, "_", " "));
    var description := "";
    for i := 0 to |cells|
      invariant forall j :: 0 <= j < i ==> !cells[j].Markdown?
    {
      var cell := cells[i];
      if cell.Markdown? {
        var source := Concat(cell.source);
        var lines := Split(Strip(source), '\n');
        title := FindTitle(lines, title);
        var descLines := FindDescLines(lines);
        if |descLines| > 0 {
          description := Join(descLines, " ");
        }
        assert FirstMarkdown(cells) == Some(i);
        info := NotebookInfo(title, description, stem, []);
        return;
      }
    }
    info := NotebookInfo(title, description, stem, []);
  }

  // ---------------------------------------------------------------------
  // Properties of the metadata

  /** Only the first markdown cell is read: cells before it are not
      markdown, and cells after it make no difference. */
  lemma FirstMarkdownDecides(before: seq<Cell>, cell: Cell, after: seq<Cell>, stem: string)
    requires forall j :: 0 <= j < |before| ==> !before[j].Markdown?
    requires cell.Markdown?
    ensures Metadata(before + [cell] + after, stem) == Metadata([cell], stem)
  {
    var cells := before + [cell] + after;
    assert cells[|before|] == cell;
    assert forall j :: 0 <= j < |before| ==> cells[j] == before[j];
    assert FirstMarkdown(cells) == Some(|before|);
    assert FirstMarkdown([cell]) == Some(0);
  }

  /** With no markdown cell the record has the fallback title and an empty
      description; in every case the filename is the stem and there are
      no tags. */
  lemma MetadataFields(cells: seq<Cell>, stem: string)
    ensures Metadata(cells, stem).filename == stem && Metadata(cells, stem).tags == []
    ensures (forall j :: 0 <= j < |cells| ==> !cells[j].Markdown?) ==>
      Metadata(cells, stem) == NotebookInfo(FallbackTitle(stem), "", stem, [])
  {
    if forall j :: 0 <= j < |cells| ==> !cells[j].Markdown? {
      assert FirstMarkdown(cells) == None;
    }
  }

  lemma LowerUpper(c: char)
    ensures LowerChar(UpperChar(c)) == LowerChar(c)
    ensures LowerChar(LowerChar(c)) == LowerChar(c)
  {
  }

  /** The fallback title has the stem's length, a space for every
      underscore, and otherwise the stem's characters up to case. */
  lemma FallbackTitleShape(stem: string)
    ensures |FallbackTitle(stem)| == |stem|
    ensures forall k :: 0 <= k < |stem| && stem[k] == '_' ==> FallbackTitle(stem)[k] == ' '
    ensures forall k :: 0 <= k < |stem| && stem[k] != '_' ==>
      LowerChar(FallbackTitle(stem)[k]) == LowerChar(stem[k])
  {
    var spaced := ReplaceAll(stem, "_", " ");
    ReplaceChar(stem, '_', ' ');
    var r := TitleFrom(spaced, false);
    forall k | 0 <= k < |stem|
      ensures r[k] == LowerChar(spaced[k]) || r[k] == UpperChar(spaced[k])
    {
      if k > 0 {
        assert r[k] == (if IsAsciiLetter(spaced[k - 1]) then LowerChar(spaced[k]) else UpperChar(spaced[k]));
      }
    }
    forall k | 0 <= k < |stem|
      ensures LowerChar(r[k]) == LowerChar(spaced[k])
    {
      LowerUpper(spaced[k]);
    }
  }

  /** Each description line is a qualifying line, stripped, that comes
      after a lead-in line (or after the start, once a lead-in was seen). */
  lemma {:induction false} CandidatesFrom(lines: seq<string>, inDesc: bool)
    ensures forall x :: x in Candidates(lines, inDesc) ==>
      exists j :: 0 <= j < |lines| && x == Strip(lines[j]) && Qualifies(lines[j]) && !IsLeadIn(lines[j]) &&
        (inDesc || exists l :: 0 <= l < j && IsLeadIn(lines[l]))
  {
    if |lines| > 0 {
      var rest := lines[1..];
      var inRest := inDesc || IsLeadIn(lines[0]);
      CandidatesFrom(rest, inRest);
      forall x | x in Candidates(lines, inDesc)
        ensures exists j :: (0 <= j < |lines| && x == Strip(lines[j]) && Qualifies(lines[j]) && !IsLeadIn(lines[j]) &&
                             (inDesc || exists l :: 0 <= l < j && IsLeadIn(lines[l])))
      {
        if !IsLeadIn(lines[0]) && inDesc && Qualifies(lines[0]) && x == Strip(lines[0]) {
        } else {
          assert x in Candidates(rest, inRest);
          var j :| 0 <= j < |rest| && x == Strip(rest[j]) && Qualifies(rest[j]) && !IsLeadIn(rest[j]) &&
            (inRest || exists l :: 0 <= l < j && IsLeadIn(rest[l]));
          assert rest[j] == lines[j + 1];
          if !inDesc {
            if IsLeadIn(lines[0]) {
              assert 0 < j + 1 && IsLeadIn(lines[0]);
            } else {
              var l :| 0 <= l < j && IsLeadIn(rest[l]);
              assert rest[l] == lines[l + 1];
            }
          }
        }
      }
    }
  }

  /** Without a lead-in line nothing is taken. */
  lemma {:induction false} NoLeadInNoCandidates(lines: seq<string>)
    requires forall j :: 0 <= j < |lines| ==> !IsLeadIn(lines[j])
    ensures Candidates(lines, false) == []
  {
    if |lines| > 0 {
      NoLeadInNoCandidates(lines[1..]);
    }
  }

  /** Some lead-in line comes before index `j`. */
  predicate LeadInBefore(lines: seq<string>, j: int)
  {
    exists l :: 0 <= l < j && l < |lines| && IsLeadIn(lines[l])
  }

  /** Line `j` would go into the description: it qualifies, is not itself
      a lead-in, and some lead-in comes before it. */
  predicate Eligible(lines: seq<string>, j: int)
    requires 0 <= j < |lines|
  {
    Qualifies(lines[j]) && !IsLeadIn(lines[j]) && LeadInBefore(lines, j)
  }

  /** The eligible lines among the first `n`, stripped, in order: a
      reference for `Candidates` that looks at each line on its own rather
      than threading the `in_desc` flag. */
  function Eligibles(lines: seq<string>, n: nat): seq<string>
    requires n <= |lines|
  {
    if n == 0 then []
    else Eligibles(lines, n - 1) + (if Eligible(lines, n - 1) then [Strip(lines[n - 1])] else [])
  }

  /** A string is among the eligible lines exactly when some eligible line
      strips to it. */
  lemma {:induction false} EligiblesMembers(lines: seq<string>, n: nat)
    requires n <= |lines|
    ensures forall x :: x in Eligibles(lines, n) <==>
      exists j :: 0 <= j < n && Eligible(lines, j) && x == Strip(lines[j])
  {
    if n > 0 {
      EligiblesMembers(lines, n - 1);
    }
  }

  lemma {:induction false} CandidatesFollowEligibles(lines: seq<string>, k: nat)
    requires k <= |lines|
    ensures Eligibles(lines, |lines|) == Eligibles(lines, k) + Candidates(lines[k..], LeadInBefore(lines, k))
    decreases |lines| - k
  {
    var inDesc := LeadInBefore(lines, k);
    if k == |lines| {
      assert lines[k..] == [];
      AppendEmpty(Eligibles(lines, k));
    } else {
      CandidatesFollowEligibles(lines, k + 1);
      CandidatesStep(lines, k, inDesc);
      if IsLeadIn(lines[k]) {
        assert LeadInBefore(lines, k + 1);
        assert !Eligible(lines, k);
        AppendEmpty(Eligibles(lines, k));
      } else {
        assert LeadInBefore(lines, k + 1) == inDesc by {
          if LeadInBefore(lines, k + 1) {
            var l :| 0 <= l < k + 1 && l < |lines| && IsLeadIn(lines[l]);
            assert l < k;
          }
        }
        if inDesc && Qualifies(lines[k]) {
          assert Eligible(lines, k);
          AppendAssoc(Eligibles(lines, k), [Strip(lines[k])], Candidates(lines[k + 1..], inDesc));
        } else {
          assert !Eligible(lines, k);
          AppendEmpty(Eligibles(lines, k));
        }
      }
    }
  }

  /** The description loop collects exactly the eligible lines, in order. */
  lemma CandidatesAreEligibles(lines: seq<string>)
    ensures Candidates(lines, false) == Eligibles(lines, |lines|)
  {
    CandidatesFollowEligibles(lines, 0);
    assert lines[0..] == lines;
    assert !LeadInBefore(lines, 0);
  }

  /** The description joins at most two lines, each a qualifying line
      after a lead-in, stripped; with no lead-in it is empty. */
  lemma DescriptionLines(lines: seq<string>)
    ensures |DescLines(lines)| <= 2
    ensures forall x :: x in DescLines(lines) ==>
      exists j :: 0 <= j < |lines| && x == Strip(lines[j]) && Qualifies(lines[j]) &&
        exists l :: 0 <= l < j && IsLeadIn(lines[l])
    ensures (forall j :: 0 <= j < |lines| ==> !IsLeadIn(lines[j])) ==> Join(DescLines(lines), " ") == ""
    ensures var e := Eligibles(lines, |lines|); DescLines(lines) == if |e| <= 2 then e else e[..2]
    ensures (exists j :: 0 <= j < |lines| && Eligible(lines, j)) ==> |DescLines(lines)| >= 1
  {
    CandidatesAreEligibles(lines);
    EligiblesMembers(lines, |lines|);
    if j :| 0 <= j < |lines| && Eligible(lines, j) {
      assert Strip(lines[j]) in Eligibles(lines, |lines|);
    }
    CandidatesFrom(lines, false);
    var c := Candidates(lines, false);
    assert forall x :: x in DescLines(lines) ==> x in c;
    if forall j :: 0 <= j < |lines| ==> !IsLeadIn(lines[j]) {
      NoLeadInNoCandidates(lines);
    }
  }

  // ---------------------------------------------------------------------
  // The index page

  const IndexHead: string :=
    "<!DOCTYPE html>\n" +
    "<html lang=\"en\">\n" +
    "<head>\n" +
    "    <meta charset=\"UTF-8\">\n" +
    "    <meta name=\"viewport\" content=\"width=device-width, initial-scale=1.0\">\n" +
    "    <title>chapter2code</title>\n" +
    "    <link rel=\"stylesheet\" href=\"styles/style.css\">\n" +
    "</head>\n" +
    "<body>\n" +
    "    <div class=\"container\">\n" +
    "        <header>\n" +
    "            <h1>chapter2code</h1>\n" +
    "            <p class=\"tagline\">research notes on ml topics</p>\n" +
    "        </header>\n" +
    "\n" +
    "        <nav>\n" +
    "            <a href=\"#about\">about</a>\n" +
    "            <a href=\"#notebooks\">notebooks</a>\n" +
    "            <a href=\"https://github.com/Prasoon1207/chapter2code\" target=\"_blank\">github</a>\n" +
    "        </nav>\n" +
    "\n" +
    "        <section id=\"about\">\n" +
    "            <h2>about</h2>\n" +
    "            <p>\n" +
    "                The purpose of this blog is to document my learning journey through some scientific topics I find interesting. Here, I share research notes, code implementations, and insights gained from studying various concepts in depth.\n" +
    "            </p>\n" +
    "        </section>\n" +
    "\n" +
    "        <section id=\"notebooks\">\n" +
    "            <h2>notebooks</h2>\n" +
    "            \n"

  const IndexFoot: string :=
    "        </section>\n" +
    "\n" +
    "        <footer>\n" +
    "            <p>\U{A9} 2025</p>\n" +
    "        </footer>\n" +
    "    </div>\n" +
    "</body>\n" +
    "</html>\n"

  const EntryOpen: string :=
    "            <article class=\"notebook-entry\">\n" +
    "                <h3>\n" +
    "                    "

  /** The fixed meta line of every entry. */
  const EntryMeta: string := "<div class=\"meta\">november 2025</div>"

  const EntryMid: string :=
    "\n                </h3>\n                " + (EntryMeta + "\n                <p>\n                    ")

  const EntryClose: string :=
    "\n" +
    "                </p>\n" +
    "            </article>\n" +
    "\n"

  /** The link to a notebook's post, showing its title lower-cased. */
  function EntryLink(nb: NotebookInfo): string
  {
    "<a href=\"posts/" + nb.filename + ".html\">" + Lower(nb.title) + "</a>"
  }

  /** The description shown: the notebook's own, or one made from its title. */
  function ShownDescription(nb: NotebookInfo): string
  {
    if nb.description != "" then nb.description else "Exploring " + Lower(nb.title) + "."
  }

  /** One notebook's entry. */
  function Entry(nb: NotebookInfo): string
  {
    EntryOpen + (EntryLink(nb) + (EntryMid + (ShownDescription(nb) + EntryClose)))
  }

  /** The entries of `infos`, in order. */
  function Entries(infos: seq<NotebookInfo>): string
  {
    if |infos| == 0 then "" else Entries(infos[..|infos| - 1]) + Entry(infos[|infos| - 1])
  }

  function IndexPage(infos: seq<NotebookInfo>): string
  {
    IndexHead + Entries(infos) + IndexFoot
  }

  /** The entry loop, appending to the page written so far. */
  method RenderEntries(infos: seq<NotebookInfo>, html: string) returns (html': string)
    ensures html' == html + Entries(infos)
  {
    html' := html;
    for i := 0 to |infos|
      invariant html' == html + Entries(infos[..i])
    {
      var nb := infos[i];
      var desc := if nb.description != "" then nb.description else "Exploring " + Lower(nb.title) + ".";
      assert infos[..i + 1][..i] == infos[..i];
      AppendAssoc(html, Entries(infos[..i]), Entry(nb));
      html' := html' + (EntryOpen + ("<a href=\"posts/" + nb.filename + ".html\">" + Lower(nb.title) + "</a>" +
        (EntryMid + (desc + EntryClose))));
    }
    assert infos[..|infos|] == infos;
  }

  /** `generate_index_html`: the head, one entry per notebook, the footer. */
  method GenerateIndexHtml(infos: seq<NotebookInfo>) returns (html: string)
    ensures html == IndexPage(infos)
  {
    html := IndexHead;
    html := RenderEntries(infos, html);
    html := html + IndexFoot;
  }

  // ---------------------------------------------------------------------
  // Properties of the index page

  /** Entries follow the order of the records: those of `a`, then those of `b`. */
  lemma {:induction false} EntriesAppend(a: seq<NotebookInfo>, b: seq<NotebookInfo>)
    ensures Entries(a + b) == Entries(a) + Entries(b)
  {
    if |b| == 0 {
      assert a + b == a;
    } else {
      assert (a + b)[..|a + b| - 1] == a + b[..|b| - 1];
      assert (a + b)[|a + b| - 1] == b[|b| - 1];
      EntriesAppend(a, b[..|b| - 1]);
      AppendAssoc(Entries(a), Entries(b[..|b| - 1]), Entry(b[|b| - 1]));
    }
  }

  /** The shown description is never empty: it is the notebook's own
      description when there is one, and otherwise made from the title. */
  lemma ShownDescriptionSpec(nb: NotebookInfo)
    ensures ShownDescription(nb) != ""
    ensures nb.description != "" ==> ShownDescription(nb) == nb.description
    ensures nb.description == "" ==>
      StartsWith(ShownDescription(nb), "Exploring ") && MatchAt(ShownDescription(nb), Lower(nb.title), 10) &&
      EndsWith(ShownDescription(nb), ".") && |ShownDescription(nb)| == 11 + |nb.title|
  {
    if nb.description == "" {
      var d := ShownDescription(nb);
      AppendAssoc("Exploring ", Lower(nb.title), ".");
      MatchMid("Exploring ", Lower(nb.title), ".");
      assert d[..10] == "Exploring ";
    }
  }

  /** An entry holds the link to the post, the fixed meta line and the
      shown description. */
  lemma EntryShows(nb: NotebookInfo)
    ensures IsInfix(EntryLink(nb), Entry(nb))
    ensures IsInfix(EntryMeta, Entry(nb))
    ensures IsInfix(ShownDescription(nb), Entry(nb))
  {
    var d := ShownDescription(nb);
    InfixMid(EntryOpen, EntryLink(nb), EntryMid + (d + EntryClose));
    InfixMid("\n                </h3>\n                ", EntryMeta, "\n                <p>\n                    ");
    InfixLeft(EntryMeta, EntryMid, d + EntryClose);
    InfixRight(EntryMeta, EntryLink(nb), EntryMid + (d + EntryClose));
    InfixRight(EntryMeta, EntryOpen, EntryLink(nb) + (EntryMid + (d + EntryClose)));
    InfixMid(EntryMid, d, EntryClose);
    InfixRight(d, EntryLink(nb), EntryMid + (d + EntryClose));
    InfixRight(d, EntryOpen, EntryLink(nb) + (EntryMid + (d + EntryClose)));
  }

  /** Every record's entry is part of the entries. */
  lemma {:induction false} EntryInEntries(infos: seq<NotebookInfo>, k: nat)
    requires k < |infos|
    ensures IsInfix(Entry(infos[k]), Entries(infos))
  {
    var n := |infos| - 1;
    if k == n {
      InfixMid(Entries(infos[..n]), Entry(infos[k]), "");
      AppendEmpty(Entry(infos[k]));
    } else {
      assert infos[..n][k] == infos[k];
      EntryInEntries(infos[..n], k);
      InfixLeft(Entry(infos[k]), Entries(infos[..n]), Entry(infos[n]));
    }
  }

  lemma InPage(t: string, infos: seq<NotebookInfo>, k: nat)
    requires k < |infos| && IsInfix(t, Entry(infos[k]))
    ensures IsInfix(t, IndexPage(infos))
  {
    EntryInEntries(infos, k);
    InfixIn(t, Entry(infos[k]), Entries(infos));
    InfixRight(t, IndexHead, Entries(infos));
    InfixLeft(t, IndexHead + Entries(infos), IndexFoot);
  }

  /** The index page links every notebook's post and shows its
      description. */
  lemma IndexListsEvery(infos: seq<NotebookInfo>, k: nat)
    requires k < |infos|
    ensures IsInfix(EntryLink(infos[k]), IndexPage(infos))
    ensures IsInfix(ShownDescription(infos[k]), IndexPage(infos))
  {
    EntryShows(infos[k]);
    InPage(EntryLink(infos[k]), infos, k);
    InPage(ShownDescription(infos[k]), infos, k);
  }
}
