/** `notebook_to_blog_post`: the page written for one notebook. A fixed
    head carrying the title and the meta line, then one block per cell in
    notebook order (the first markdown cell that is a `# ` title is left
    out, since the head already shows the title), then a fixed footer. */
module BlogPost {
  import opened Strings
  import opened HtmlEscape
  import opened Markdown
  import opened Notebook

  // ---------------------------------------------------------------------
  // Page template

  const Prologue: string :=
    "<!DOCTYPE html>\n" +
    "<html lang=\"en\">\n" +
    "<head>\n" +
    "    <meta charset=\"UTF-8\">\n" +
    "    <meta name=\"viewport\" content=\"width=device-width, initial-scale=1.0\">\n" +
    "    "

  const HeadLinks: string :=
    "\n" +
    "    <link rel=\"stylesheet\" href=\"../styles/post-style.css\">\n" +
    "    <link rel=\"stylesheet\" href=\"https://cdnjs.cloudflare.com/ajax/libs/highlight.js/11.8.0/styles/default.min.css\">\n" +
    "    <script src=\"https://cdnjs.cloudflare.com/ajax/libs/highlight.js/11.8.0/highlight.min.js\"></script>\n" +
    "    <script src=\"https://cdnjs.cloudflare.com/ajax/libs/highlight.js/11.8.0/languages/python.min.js\"></script>\n" +
    "    <script>hljs.highlightAll();</script>\n" +
    "    <script src=\"https://polyfill.io/v3/polyfill.min.js?features=es6\"></script>\n" +
    "    <script id=\"MathJax-script\" async src=\"https://cdn.jsdelivr.net/npm/mathjax@3/es5/tex-mml-chtml.js\"></script>\n" +
    "</head>\n" +
    "<body>\n" +
    "    <div class=\"container\">\n" +
    "        <nav class=\"top-nav\">\n" +
    "            <a href=\"../index.html\">chapter2code</a>\n" +
    "            <span class=\"sep\">/</span>\n" +
    "            "

  const NavEnd: string :=
    "\n" +
    "        </nav>\n" +
    "\n" +
    "        <article>\n" +
    "            <header class=\"post-header\">\n" +
    "                "

  const MetaIndent: string := "\n                "

  const HeadEnd: string :=
    "\n" +
    "            </header>\n" +
    "\n"

  const FooterLinks: string :=
    "            <div class=\"post-footer\">\n" +
    "                <a href=\"../index.html\">\U{2190} back to posts</a>\n" +
    "            </div>\n" +
    "        </article>\n" +
    "    </div>\n"

  const PageFoot: string := FooterLinks + "</body>\n</html>\n"

  function TitleElement(title: string): string
  {
    "<title>" + title + " \U{B7} chapter2code</title>"
  }

  function Breadcrumb(title: string): string
  {
    "<span class=\"current\">" + Lower(title) + "</span>"
  }

  function HeaderHeading(title: string): string
  {
    "<h1>" + title + "</h1>"
  }

  function MetaLine(meta: string): string
  {
    "<div class=\"meta\">" + meta + "</div>"
  }

  /** The page up to the first cell. */
  function PageHead(title: string, meta: string): string
  {
    Prologue + (TitleElement(title) + (HeadLinks + (Breadcrumb(title) + (NavEnd +
      (HeaderHeading(title) + (MetaIndent + (MetaLine(meta) + HeadEnd)))))))
  }

  // ---------------------------------------------------------------------
  // Code cells

  // The templates are written as indentation followed by the tags of each
  // line, so that the proofs about tags can look at one short piece at a time.

  const CodeOpen: string :=
    "            " + "<div class=\"code-block\">\n" +
    "                " + "<pre><code class=\"language-python\">"

  const CodeClose: string := "</code></pre>\n"

  const OutputOpen: string :=
    "                " + "<div class=\"output\">\n" +
    "                    " + "<div class=\"output-label\">" + "output:</div>\n" +
    "                    " + "<pre>"

  const OutputClose: string :=
    "</pre>\n" +
    "                " + "</div>\n"

  const BlockClose: string := "            " + "</div>\n\n"

  /** What one output contributes: its `text`, otherwise its
      `data['text/plain']`, otherwise nothing. */
  function OutputLines(o: Output): seq<string>
  {
    match o.text
    case Some(text) => text
    case None => match o.plainText
      case Some(plain) => plain
      case None => []
  }

  /** The `output_text` list: every output's lines, outputs in order. */
  function CollectedText(outputs: seq<Output>): seq<string>
  {
    if |outputs| == 0 then []
    else CollectedText(outputs[..|outputs| - 1]) + OutputLines(outputs[|outputs| - 1])
  }

  /** The inner loop of the cell loop, extending `output_text` output by output. */
  method CollectOutputText(outputs: seq<Output>) returns (outputText: seq<string>)
    ensures outputText == CollectedText(outputs)
  {
    outputText := [];
    for i := 0 to |outputs|
      invariant outputText == CollectedText(outputs[..i])
    {
      assert outputs[..i + 1][..i] == outputs[..i];
      var output := outputs[i];
      if output.text.Some? {
        outputText := outputText + output.text.value;
      } else if output.plainText.Some? {
        outputText := outputText + output.plainText.value;
      }
    }
    assert outputs[..|outputs|] == outputs;
  }

  /** The output block: present exactly when some text was collected, and
      then holding the collected text joined, stripped and escaped. */
  function OutputBlock(outputText: seq<string>): string
  {
    if |outputText| == 0 then "" else OutputOpen + (EscapeHtml(Strip(Concat(outputText))) + OutputClose)
  }

  function CodeBlock(source: string, outputs: seq<Output>): string
  {
    CodeOpen + (EscapeHtml(source) + (CodeClose + (OutputBlock(CollectedText(outputs)) + BlockClose)))
  }

  // ---------------------------------------------------------------------
  // Cells

  /** The block a cell contributes when it is not skipped. */
  function CellHtml(cell: Cell): string
  {
    match cell
    case Markdown(_) => "            " + (MarkdownToHtml(SourceText(cell)) + "\n\n")
    case Code(_, outputs) => CodeBlock(SourceText(cell), outputs)
    case Other(_) => ""
  }

  /** A markdown cell whose stripped source starts with `# `. */
  predicate IsTitleCell(cell: Cell)
  {
    cell.Markdown? && StartsWith(Strip(SourceText(cell)), "# ")
  }

  /** What the cell loop needs to know of a cell: whether it is a title
      cell, and the block it contributes when it is not skipped. */
  datatype CellView = CellView(isTitle: bool, block: string)

  function Views(cells: seq<Cell>): (r: seq<CellView>)
    ensures |r| == |cells|
    ensures forall i :: 0 <= i < |cells| ==> r[i] == CellView(IsTitleCell(cells[i]), CellHtml(cells[i]))
  {
    seq(|cells|, i requires 0 <= i < |cells| => CellView(IsTitleCell(cells[i]), CellHtml(cells[i])))
  }

  /** The blocks for a run of cells while `skip` (`skip_first_title`)
      tells whether a title cell is still to be left out. */
  function Body(views: seq<CellView>, skip: bool): string
  {
    if |views| == 0 then ""
    else if skip && views[0].isTitle then Body(views[1..], false)
    else views[0].block + Body(views[1..], skip)
  }

  /** The page around a body. */
  function Wrap(title: string, meta: string, body: string): string
  {
    PageHead(title, meta) + body + PageFoot
  }

  /** The page for `cells`, titled `title`, with `meta` as its meta line. */
  function Page(cells: seq<Cell>, title: string, meta: string): string
  {
    Wrap(title, meta, Body(Views(cells), true))
  }

  lemma BodyStep(views: seq<CellView>, i: nat, skip: bool)
    requires i < |views|
    ensures Body(views[i..], skip) ==
      if skip && views[i].isTitle then Body(views[i + 1..], false)
      else views[i].block + Body(views[i + 1..], skip)
  {
    assert views[i..][0] == views[i];
    assert views[i..][1..] == views[i + 1..];
  }

  /** One pass of the cell loop: a title cell while `skipFirstTitle` is
      set only clears the flag; any other cell appends its block. */
  method RenderCell(cell: Cell, html: string, skipFirstTitle: bool) returns (html': string, skipFirstTitle': bool)
    ensures skipFirstTitle && IsTitleCell(cell) ==> html' == html && !skipFirstTitle'
    ensures !(skipFirstTitle && IsTitleCell(cell)) ==> html' == html + CellHtml(cell) && skipFirstTitle' == skipFirstTitle
  {
    html', skipFirstTitle' := html, skipFirstTitle;
    var source := Concat(cell.source);
    if cell.Markdown? {
      if skipFirstTitle && StartsWith(Strip(source), "# ") {
        skipFirstTitle' := false;
        return;
      }
      var converted := ConvertMarkdownToHtml(source);
      html' := html' + "            " + converted + "\n\n";
      Regroup3(html, "            ", converted, "\n\n");
    } else if cell.Code? {
      var escapedCode := EscapeHtml(source);
      html' := html' + CodeOpen + escapedCode + CodeClose;
      ghost var afterCode := html';
      ghost var outputPart := "";
      if |cell.outputs| > 0 {
        var outputText := CollectOutputText(cell.outputs);
        if |outputText| > 0 {
          var outputStr := Strip(Concat(outputText));
          var escapedOutput := EscapeHtml(outputStr);
          html' := html' + OutputOpen + escapedOutput + OutputClose;
          outputPart := OutputOpen + (escapedOutput + OutputClose);
          AppendAssoc(afterCode + OutputOpen, escapedOutput, OutputClose);
          AppendAssoc(afterCode, OutputOpen, escapedOutput + OutputClose);
        }
      }
      if outputPart == "" {
        AppendEmpty(afterCode);
      }
      assert html' == afterCode + outputPart;
      assert outputPart == OutputBlock(CollectedText(cell.outputs));
      html' := html' + BlockClose;
      Regroup5(html, CodeOpen, escapedCode, CodeClose, outputPart, BlockClose);
    } else {
      AppendEmpty(html);
    }
  }

  /** The cell loop, appending to the page written so far. */
  method RenderCells(cells: seq<Cell>, html: string) returns (html': string)
    ensures html' == html + Body(Views(cells), true)
  {
    ghost var views := Views(cells);
    html' := html;
    var skipFirstTitle := true;
    for i := 0 to |cells|
      invariant html' + Body(views[i..], skipFirstTitle) == html + Body(views, true)
    {
      BodyStep(views, i, skipFirstTitle);
      ghost var before := html';
      ghost var skipped := skipFirstTitle && views[i].isTitle;
      html', skipFirstTitle := RenderCell(cells[i], html', skipFirstTitle);
      if !skipped {
        AppendAssoc(before, views[i].block, Body(views[i + 1..], skipFirstTitle));
      }
    }
    assert views[|cells|..] == [];
    AppendEmpty(html');
  }

  /** `notebook_to_blog_post` on a notebook already read: the head, the
      cells, the footer. */
  method NotebookToBlogPost(cells: seq<Cell>, title: string, meta: string) returns (html: string)
    ensures html == Page(cells, title, meta)
  {
    html := PageHead(title, meta);
    html := RenderCells(cells, html);
    html := html + PageFoot;
  }

  // ---------------------------------------------------------------------
  // Which cells appear, and in what order

  /** The block of every cell, in order, none skipped. */
  function Fragments(views: seq<CellView>): string
  {
    if |views| == 0 then "" else views[0].block + Fragments(views[1..])
  }

  /** The index of the first title cell, if any. */
  function FirstTitle(views: seq<CellView>): (r: Option<nat>)
    ensures r.Some? ==>
      r.value < |views| && views[r.value].isTitle && forall j :: 0 <= j < r.value ==> !views[j].isTitle
    ensures r.None? ==> forall j :: 0 <= j < |views| ==> !views[j].isTitle
  {
    if |views| == 0 then None
    else if views[0].isTitle then Some(0)
    else match FirstTitle(views[1..])
      case None => None
      case Some(i) => Some(i + 1)
  }

  lemma {:induction false} FragmentsAppend(a: seq<CellView>, b: seq<CellView>)
    ensures Fragments(a + b) == Fragments(a) + Fragments(b)
  {
    if |a| == 0 {
      assert a + b == b;
    } else {
      assert (a + b)[0] == a[0];
      assert (a + b)[1..] == a[1..] + b;
      FragmentsAppend(a[1..], b);
    }
  }

  /** Once the title cell has been skipped every cell is emitted. */
  lemma {:induction false} BodyNoSkip(views: seq<CellView>)
    ensures Body(views, false) == Fragments(views)
  {
    if |views| > 0 {
      BodyNoSkip(views[1..]);
    }
  }

  /** Exactly one cell is left out when the notebook has a title cell,
      namely the first one, and none otherwise; every other cell's block
      appears, in notebook order. */
  lemma {:induction false} BodySkipsFirstTitle(views: seq<CellView>)
    ensures FirstTitle(views).None? ==> Body(views, true) == Fragments(views)
    ensures FirstTitle(views).Some? ==>
      Body(views, true) == Fragments(views[..FirstTitle(views).value]) + Fragments(views[FirstTitle(views).value + 1..])
  {
    if |views| > 0 {
      var rest := views[1..];
      if views[0].isTitle {
        BodyNoSkip(rest);
        assert views[..0] == [];
      } else {
        BodySkipsFirstTitle(rest);
        match FirstTitle(rest)
        case None =>
        case Some(i) =>
          var init := views[..i + 1];
          assert init[0] == views[0];
          assert init[1..] == rest[..i];
          assert views[i + 2..] == rest[i + 1..];
      }
    }
  }

  /** The page body, in terms of the cells: with no title cell every
      cell's block in order, and otherwise the blocks of all cells but the
      first title cell, in order. */
  lemma PageCells(cells: seq<Cell>)
    ensures FirstTitle(Views(cells)).None? ==>
      (forall j :: 0 <= j < |cells| ==> !IsTitleCell(cells[j])) &&
      Body(Views(cells), true) == Fragments(Views(cells))
    ensures FirstTitle(Views(cells)).Some? ==>
      var t := FirstTitle(Views(cells)).value;
      t < |cells| && IsTitleCell(cells[t]) && (forall j :: 0 <= j < t ==> !IsTitleCell(cells[j])) &&
      Body(Views(cells), true) == Fragments(Views(cells)[..t]) + Fragments(Views(cells)[t + 1..])
  {
    BodySkipsFirstTitle(Views(cells));
  }

  // ---------------------------------------------------------------------
  // Code blocks

  /** `output_text` is empty exactly when no output has any lines. */
  lemma {:induction false} CollectedTextEmpty(outputs: seq<Output>)
    ensures CollectedText(outputs) == [] <==> forall k :: 0 <= k < |outputs| ==> OutputLines(outputs[k]) == []
  {
    if |outputs| > 0 {
      var init := outputs[..|outputs| - 1];
      CollectedTextEmpty(init);
      assert forall k :: 0 <= k < |init| ==> init[k] == outputs[k];
    }
  }

  /** Outputs contribute in order: collecting `a + b` collects `a`, then `b`. */
  lemma {:induction false} CollectedTextAppend(a: seq<Output>, b: seq<Output>)
    ensures CollectedText(a + b) == CollectedText(a) + CollectedText(b)
  {
    if |b| == 0 {
      assert a + b == a;
    } else {
      assert (a + b)[..|a + b| - 1] == a + b[..|b| - 1];
      assert (a + b)[|a + b| - 1] == b[|b| - 1];
      CollectedTextAppend(a, b[..|b| - 1]);
    }
  }

  /** A code block holds the escaped source as the whole content of the
      `<code>` element: the escaped text has no `<`, so nothing in it can
      close the element early, and unescaping it gives the source back. */
  lemma CodeBlockHoldsSource(source: string, outputs: seq<Output>)
    ensures StartsWith(CodeBlock(source, outputs), CodeOpen)
    ensures MatchAt(CodeBlock(source, outputs), EscapeHtml(source), |CodeOpen|)
    ensures MatchAt(CodeBlock(source, outputs), CodeClose, |CodeOpen| + |EscapeHtml(source)|)
    ensures forall k :: 0 <= k < |EscapeHtml(source)| ==> EscapeHtml(source)[k] != '<'
    ensures UnescapeHtml(EscapeHtml(source)) == source
  {
    var code := EscapeHtml(source);
    var rest := CodeClose + (OutputBlock(CollectedText(outputs)) + BlockClose);
    MatchMid("", CodeOpen, code + rest);
    MatchMid(CodeOpen, code, rest);
    MatchMid("", CodeClose, OutputBlock(CollectedText(outputs)) + BlockClose);
    MatchRight(CodeOpen + code, rest, CodeClose, 0);
    AppendAssoc(CodeOpen, code, rest);
    assert "" + (CodeOpen + (code + rest)) == CodeOpen + (code + rest);
    assert forall k :: 0 <= k < |code| ==> code[k] != '<' by {
      EscapeHtmlSafe(source);
    }
    UnescapeEscape(source);
  }

  /** The code block with the code element's content and the collected
      output text as parameters. */
  lemma CodeBlockParts(source: string, outputs: seq<Output>)
    ensures CodeBlock(source, outputs) ==
      CodeOpen + EscapeHtml(source) + CodeClose + (OutputBlock(CollectedText(outputs)) + BlockClose)
  {
    Regroup3(CodeOpen, EscapeHtml(source), CodeClose, OutputBlock(CollectedText(outputs)) + BlockClose);
  }

  lemma NoOutputBlock(front: string)
    ensures !MatchAt(front + BlockClose, OutputOpen, |front|)
  {
  }

  lemma OutputBlockAt(front: string, text: string, back: string)
    ensures MatchAt(front + (OutputOpen + (text + OutputClose) + back), OutputOpen, |front|)
    ensures MatchAt(front + (OutputOpen + (text + OutputClose) + back), text, |front| + |OutputOpen|)
  {
    var s := front + (OutputOpen + (text + OutputClose) + back);
    Regroup3(front, OutputOpen, text + OutputClose, back);
    AppendAssoc(text, OutputClose, back);
    assert s == front + (OutputOpen + (text + (OutputClose + back)));
    MatchMid(front, OutputOpen, text + (OutputClose + back));
    AppendAssoc(front, OutputOpen, text + (OutputClose + back));
    MatchMid(front + OutputOpen, text, OutputClose + back);
  }

  /** Right after the code element comes an output block exactly when some
      output text was collected. */
  lemma CodeBlockHasOutput(source: string, outputs: seq<Output>)
    ensures MatchAt(CodeBlock(source, outputs), OutputOpen, |CodeOpen| + |EscapeHtml(source)| + |CodeClose|)
      <==> CollectedText(outputs) != []
  {
    var front := CodeOpen + EscapeHtml(source) + CodeClose;
    var collected := CollectedText(outputs);
    CodeBlockParts(source, outputs);
    if collected == [] {
      assert OutputBlock(collected) + BlockClose == BlockClose;
      NoOutputBlock(front);
    } else {
      OutputBlockAt(front, EscapeHtml(Strip(Concat(collected))), BlockClose);
    }
  }

  /** The output block holds the collected text joined, stripped and
      escaped, right after its opening tags. */
  lemma CodeBlockOutputText(source: string, outputs: seq<Output>)
    requires CollectedText(outputs) != []
    ensures MatchAt(CodeBlock(source, outputs), EscapeHtml(Strip(Concat(CollectedText(outputs)))),
      |CodeOpen| + |EscapeHtml(source)| + |CodeClose| + |OutputOpen|)
  {
    var front := CodeOpen + EscapeHtml(source) + CodeClose;
    CodeBlockParts(source, outputs);
    OutputBlockAt(front, EscapeHtml(Strip(Concat(CollectedText(outputs)))), BlockClose);
  }

  /** Position `j` of `s` cannot begin `<div class="output"`, as the
      characters of `s` from `j` on already show. */
  predicate NoOutputTagAt(s: string, j: int)
    requires 0 <= j < |s|
  {
    s[j] != '<' || (j + 1 < |s| && s[j + 1] != 'd') ||
    (j + 12 < |s| && s[j + 12] != 'o') || (j + 18 < |s| && s[j + 18] != '"')
  }

  /** `<div class="output"` can begin nowhere in `s` except at `e`. */
  predicate OnlyTagAt(s: string, e: int)
  {
    forall j :: 0 <= j < |s| && j != e ==> NoOutputTagAt(s, j)
  }

  lemma CodeDivTagFree()
    ensures OnlyTagAt("<div class=\"code-block\">\n", -1)
  {
  }

  lemma CodePreTagFree()
    ensures OnlyTagAt("<pre><code class=\"language-python\">", -1)
  {
  }

  lemma OutputDivTag()
    ensures OnlyTagAt("<div class=\"output\">\n", 0)
  {
  }

  lemma OutputLabelTagFree()
    ensures OnlyTagAt("<div class=\"output-label\">", -1) && OnlyTagAt("output:</div>\n", -1)
  {
  }

  lemma CodeTemplateTagFree()
    ensures OnlyTagAt(CodeOpen, -1) && OnlyTagAt(CodeClose, -1)
  {
    var a, b, c, d := "            ", "<div class=\"code-block\">\n", "                ", "<pre><code class=\"language-python\">";
    CodeDivTagFree();
    CodePreTagFree();
    assert OnlyTagAt(a, -1) && OnlyTagAt(c, -1);
    TagsLeft(a, b, -1);
    TagsLeft(a + b, c, -1);
    TagsLeft(a + b + c, d, -1);
  }

  lemma OutputOpenTags()
    ensures OnlyTagAt(OutputOpen, 16)
  {
    var a, b, c := "                ", "<div class=\"output\">\n", "                    ";
    var d, e, f := "<div class=\"output-label\">", "output:</div>\n", "<pre>";
    OutputDivTag();
    OutputLabelTagFree();
    assert OnlyTagAt(a, -1) && OnlyTagAt(c, -1) && OnlyTagAt(f, -1);
    TagsRight(a, b, 0);
    TagsLeft(a + b, c, 16);
    TagsLeft(a + b + c, d, 16);
    TagsLeft(a + b + c + d, e, 16);
    TagsLeft(a + b + c + d + e, c, 16);
    TagsLeft(a + b + c + d + e + c, f, 16);
  }

  lemma OutputTemplateTags()
    ensures OnlyTagAt(OutputOpen, 16) && OnlyTagAt(OutputClose, -1) && OnlyTagAt(BlockClose, -1)
  {
    OutputOpenTags();
    var a, b, c := "</pre>\n", "                ", "</div>\n";
    assert OnlyTagAt(a, -1) && OnlyTagAt(b, -1) && OnlyTagAt(c, -1);
    TagsLeft(a, b, -1);
    TagsLeft(a + b, c, -1);
    var d, e := "            ", "</div>\n\n";
    assert OnlyTagAt(d, -1) && OnlyTagAt(e, -1);
    TagsLeft(d, e, -1);
  }

  lemma NoAngleTagFree(s: string)
    requires forall k :: 0 <= k < |s| ==> s[k] != '<'
    ensures OnlyTagAt(s, -1)
  {
  }

  lemma TagsLeft(a: string, b: string, e: int)
    requires OnlyTagAt(a, e) && OnlyTagAt(b, -1) && e < |a|
    ensures OnlyTagAt(a + b, e)
  {
    var s := a + b;
    forall j | 0 <= j < |s| && j != e
      ensures NoOutputTagAt(s, j)
    {
      if j < |a| {
        assert NoOutputTagAt(a, j);
      } else {
        assert NoOutputTagAt(b, j - |a|);
      }
    }
  }

  lemma TagsRight(a: string, b: string, f: int)
    requires OnlyTagAt(a, -1) && OnlyTagAt(b, f) && 0 <= f
    ensures OnlyTagAt(a + b, |a| + f)
  {
    var s := a + b;
    forall j | 0 <= j < |s| && j != |a| + f
      ensures NoOutputTagAt(s, j)
    {
      if j < |a| {
        assert NoOutputTagAt(a, j);
      } else {
        assert NoOutputTagAt(b, j - |a|);
      }
    }
  }

  /** Where the output block's opening tags occur, `<div class="output"`
      begins 16 characters further on. */
  lemma OpenTagAt(s: string, i: int)
    requires MatchAt(s, OutputOpen, i)
    ensures 0 <= i + 16 < |s| && !NoOutputTagAt(s, i + 16)
  {
    var w := s[i..i + |OutputOpen|];
    assert w[16] == '<' && w[17] == 'd' && w[28] == 'o' && w[34] == '"';
    assert s[i + 16] == w[16] && s[i + 17] == w[17] && s[i + 28] == w[28] && s[i + 34] == w[34];
  }

  /** A code block holds the output block's opening tags at most once:
      only right after the code element, and only when some output text
      was collected. */
  lemma CodeBlockOutputOnce(source: string, outputs: seq<Output>)
    ensures forall i :: MatchAt(CodeBlock(source, outputs), OutputOpen, i) ==>
      CollectedText(outputs) != [] && i == |CodeOpen| + |EscapeHtml(source)| + |CodeClose|
  {
    var esc := EscapeHtml(source);
    var collected := CollectedText(outputs);
    var s := CodeBlock(source, outputs);
    CodeTemplateTagFree();
    OutputTemplateTags();
    EscapeHtmlSafe(source);
    NoAngleTagFree(esc);
    TagsLeft(CodeOpen, esc, -1);
    var front := CodeOpen + esc;
    TagsLeft(front, CodeClose, -1);
    var code := front + CodeClose;
    CodeBlockParts(source, outputs);
    assert s == code + (OutputBlock(collected) + BlockClose);
    if collected == [] {
      assert OutputBlock(collected) + BlockClose == BlockClose;
      TagsLeft(code, BlockClose, -1);
      forall i | MatchAt(s, OutputOpen, i)
        ensures false
      {
        OpenTagAt(s, i);
      }
    } else {
      var text := EscapeHtml(Strip(Concat(collected)));
      EscapeHtmlSafe(Strip(Concat(collected)));
      NoAngleTagFree(text);
      TagsLeft(text, OutputClose, -1);
      TagsLeft(OutputOpen, text + OutputClose, 16);
      var block := OutputOpen + (text + OutputClose);
      assert OutputBlock(collected) == block;
      TagsLeft(block, BlockClose, 16);
      TagsRight(code, block + BlockClose, 16);
      forall i | MatchAt(s, OutputOpen, i)
        ensures i == |code|
      {
        OpenTagAt(s, i);
      }
    }
  }

  /** The escaped output text has no `<`, so it cannot close the `<pre>`
      element early, and unescaping it gives the stripped output back. */
  lemma OutputTextSafe(outputs: seq<Output>)
    ensures var text := EscapeHtml(Strip(Concat(CollectedText(outputs))));
      (forall k :: 0 <= k < |text| ==> text[k] != '<') &&
      UnescapeHtml(text) == Strip(Concat(CollectedText(outputs)))
  {
    var stripped := Strip(Concat(CollectedText(outputs)));
    EscapeHtmlSafe(stripped);
    UnescapeEscape(stripped);
  }

  // ---------------------------------------------------------------------
  // The page

  /** Each of four parts nested in a template of nine pieces, followed by
      whatever else, occurs in the whole. */
  lemma NestedInfixes(p: string, t: string, q: string, c: string, r: string, h: string, u: string,
                      m: string, v: string, rest: string, foot: string)
    ensures var s := p + (t + (q + (c + (r + (h + (u + (m + v))))))) + rest + foot;
      IsInfix(t, s) && IsInfix(c, s) && IsInfix(h, s) && IsInfix(m, s)
  {
    var r4 := u + (m + v);
    var r3 := r + (h + r4);
    var r2 := q + (c + r3);
    var r1 := t + r2;
    var head := p + r1;
    InfixMid(p, t, r2);
    InfixMid(q, c, r3);
    InfixRight(c, t, r2);
    InfixRight(c, p, r1);
    InfixMid(r, h, r4);
    InfixRight(h, c, r3);
    InfixRight(h, q, c + r3);
    InfixRight(h, t, r2);
    InfixRight(h, p, r1);
    InfixMid(u, m, v);
    InfixRight(m, h, r4);
    InfixRight(m, r, h + r4);
    InfixRight(m, c, r3);
    InfixRight(m, q, c + r3);
    InfixRight(m, t, r2);
    InfixRight(m, p, r1);
    InfixLeft(t, head, rest);
    InfixLeft(t, head + rest, foot);
    InfixLeft(c, head, rest);
    InfixLeft(c, head + rest, foot);
    InfixLeft(h, head, rest);
    InfixLeft(h, head + rest, foot);
    InfixLeft(m, head, rest);
    InfixLeft(m, head + rest, foot);
  }

  /** The page shows the title verbatim in `<title>` and in the header's `<h1>`, lower-cased in
      the breadcrumb, and the meta line in the header, whatever the cells. */
  lemma PageShowsTitle(title: string, meta: string, body: string)
    ensures IsInfix("<title>" + title + " \U{B7} chapter2code</title>", Wrap(title, meta, body))
    ensures IsInfix("<span class=\"current\">" + Lower(title) + "</span>", Wrap(title, meta, body))
    ensures IsInfix("<h1>" + title + "</h1>", Wrap(title, meta, body))
    ensures IsInfix("<div class=\"meta\">" + meta + "</div>", Wrap(title, meta, body))
  {
    NestedInfixes(Prologue, TitleElement(title), HeadLinks, Breadcrumb(title), NavEnd,
      HeaderHeading(title), MetaIndent, MetaLine(meta), HeadEnd, body, PageFoot);
  }

  lemma PrologueStart()
    ensures StartsWith(Prologue, "<!DOCTYPE html>\n")
  {
  }

  lemma PageFootEnd()
    ensures EndsWith(PageFoot, "</body>\n</html>\n")
  {
    assert PageFoot[|FooterLinks|..] == "</body>\n</html>\n";
  }

  /** A page cut into a start, a middle, more middle, and an end keeps the
      start's prefix and the end's suffix. */
  lemma Framed(start: string, mid: string, body: string, end: string, first: string, last: string)
    requires StartsWith(start, first) && EndsWith(end, last)
    ensures StartsWith(start + mid + body + end, first) && EndsWith(start + mid + body + end, last)
  {
    StartsWithLeft(start, first, mid);
    StartsWithLeft(start + mid, first, body);
    StartsWithLeft(start + mid + body, first, end);
    EndsWithRight(start + mid + body, end, last);
  }

  /** Whatever the cells, the page is a whole HTML document: it starts
      with the doctype and ends with the closing `</html>`. */
  lemma PageIsDocument(title: string, meta: string, body: string)
    ensures StartsWith(Wrap(title, meta, body), "<!DOCTYPE html>\n")
    ensures EndsWith(Wrap(title, meta, body), "</body>\n</html>\n")
  {
    var r1 := TitleElement(title) + (HeadLinks + (Breadcrumb(title) + (NavEnd +
      (HeaderHeading(title) + (MetaIndent + (MetaLine(meta) + HeadEnd))))));
    PrologueStart();
    PageFootEnd();
    Framed(Prologue, r1, body, PageFoot, "<!DOCTYPE html>\n", "</body>\n</html>\n");
  }
}
