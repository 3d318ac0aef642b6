/** `convert_markdown_to_html`: a line-by-line converter for a small
    markdown subset. Each line is tried, in this order, as a heading
    (`# `, `## `, `### `), as a bold line (any `**`), as a list item (`- `),
    and otherwise as a paragraph or, when blank, as nothing. The only state
    carried from line to line is whether a `<ul>` is open; only the last
    case closes it. */
module Markdown {
  import opened Strings

  /** The line with its first `**` replaced by `<strong>` and then the
      first remaining `**` by `</strong>`. */
  function Embolden(line: string): string
  {
    ReplaceFirst(ReplaceFirst(line, "**", "<strong>"), "**", "</strong>")
  }

  /** Which rule of the converter a line falls under, with the text that
      rule puts inside its element. A blank line (nothing but whitespace)
      is a paragraph line that outputs nothing. */
  datatype LineKind =
    | Heading(level: nat, text: string)
    | Bold(text: string)
    | Item(text: string)
    | Blank
    | Plain(text: string)

  /** The first rule that matches `line`, in the converter's order. */
  function Classify(line: string): LineKind
  {
    if StartsWith(line, "# ") then Heading(1, line[2..])
    else if StartsWith(line, "## ") then Heading(2, line[3..])
    else if StartsWith(line, "### ") then Heading(3, line[4..])
    else if Contains(line, "**") then Bold(Embolden(line))
    else if StartsWith(line, "- ") then Item(line[2..])
    else if Strip(line) == "" then Blank
    else Plain(line)
  }

  function Kinds(lines: seq<string>): (r: seq<LineKind>)
    ensures |r| == |lines|
    ensures forall i :: 0 <= i < |lines| ==> r[i] == Classify(lines[i])
  {
    seq(|lines|, i requires 0 <= i < |lines| => Classify(lines[i]))
  }

  function HeadingElement(level: nat, text: string): string
  {
    if level == 1 then "<h1>" + text + "</h1>"
    else if level == 2 then "<h2>" + text + "</h2>"
    else "<h3>" + text + "</h3>"
  }

  function CloseList(inList: bool): seq<string>
  {
    if inList then ["</ul>"] else []
  }

  /** What one line appends to `html_lines`, and whether a list is open after it. */
  datatype Step = Step(emitted: seq<string>, inList: bool)

  /** The converter's action on a line of kind `kind` when `inList` tells
      whether a `<ul>` is open before it. Headings and bold lines leave an
      open list open; only blank and paragraph lines close it. */
  function LineStep(kind: LineKind, inList: bool): Step
  {
    match kind
    case Heading(level, text) => Step([HeadingElement(level, text)], inList)
    case Bold(text) => Step(["<p>" + text + "</p>"], inList)
    case Item(text) => Step((if inList then [] else ["<ul>"]) + ["<li>" + text + "</li>"], true)
    case Blank => Step(CloseList(inList), false)
    case Plain(text) => Step(CloseList(inList) + ["<p>" + text + "</p>"], false)
  }

  /** The elements emitted for a run of lines, starting with list state
      `inList`, without the final closing of an open list. */
  function Emit(kinds: seq<LineKind>, inList: bool): seq<string>
  {
    if |kinds| == 0 then []
    else
      var step := LineStep(kinds[0], inList);
      step.emitted + Emit(kinds[1..], step.inList)
  }

  /** Whether a list is open after a run of lines. */
  function After(kinds: seq<LineKind>, inList: bool): bool
  {
    if |kinds| == 0 then inList else After(kinds[1..], LineStep(kinds[0], inList).inList)
  }

  /** The elements for a run of lines, an open list closed at the end. */
  function RenderFrom(kinds: seq<LineKind>, inList: bool): seq<string>
  {
    Emit(kinds, inList) + CloseList(After(kinds, inList))
  }

  /** The `html_lines` list the converter builds for `lines`. */
  function Render(lines: seq<string>): seq<string>
  {
    RenderFrom(Kinds(lines), false)
  }

  /** `convert_markdown_to_html(md_text)` */
  function MarkdownToHtml(mdText: string): string
  {
    Join(Render(Split(mdText, '\n')), "\n")
  }

  /** One pass of the converter's loop: the branches of the source applied
      to `line`, appending to `htmlLines` and updating `inList`, do what
      `LineStep` says for the line's kind. */
  method ConvertLine(line: string, htmlLines: seq<string>, inList: bool)
    returns (htmlLines': seq<string>, inList': bool)
    ensures htmlLines' == htmlLines + LineStep(Classify(line), inList).emitted
    ensures inList' == LineStep(Classify(line), inList).inList
  {
    var line := line;
    htmlLines', inList' := htmlLines, inList;
    if StartsWith(line, "# ") {
      htmlLines' := htmlLines' + ["<h1>" + line[2..] + "</h1>"];
    } else if StartsWith(line, "## ") {
      htmlLines' := htmlLines' + ["<h2>" + line[3..] + "</h2>"];
    } else if StartsWith(line, "### ") {
      htmlLines' := htmlLines' + ["<h3>" + line[4..] + "</h3>"];
    } else if Contains(line, "**") {
      line := ReplaceFirst(ReplaceFirst(line, "**", "<strong>"), "**", "</strong>");
      htmlLines' := htmlLines' + ["<p>" + line + "</p>"];
    } else if StartsWith(line, "- ") {
      if !inList' {
        htmlLines' := htmlLines' + ["<ul>"];
        inList' := true;
      }
      htmlLines' := htmlLines' + ["<li>" + line[2..] + "</li>"];
    } else {
      if inList' && !StartsWith(line, "- ") {
        htmlLines' := htmlLines' + ["</ul>"];
        inList' := false;
      }
      if Strip(line) != "" {
        htmlLines' := htmlLines' + ["<p>" + line + "</p>"];
      }
    }
  }

  /** The converter's loop over the lines of `mdText`, closing a list left
      open at the end and joining the elements with newlines. */
  method ConvertMarkdownToHtml(mdText: string) returns (html: string)
    ensures html == MarkdownToHtml(mdText)
  {
    var lines := Split(mdText, '\n');
    ghost var kinds := Kinds(lines);
    var htmlLines: seq<string> := [];
    var inList := false;
    for i := 0 to |lines|
      invariant htmlLines + Emit(kinds[i..], inList) == Emit(kinds, false)
      invariant After(kinds[i..], inList) == After(kinds, false)
    {
      ghost var step := LineStep(kinds[i], inList);
      EmitStep(kinds, i, inList);
      AppendAssoc(htmlLines, step.emitted, Emit(kinds[i + 1..], step.inList));
      htmlLines, inList := ConvertLine(lines[i], htmlLines, inList);
    }
    assert kinds[|lines|..] == [];
    AppendEmpty(htmlLines);
    assert htmlLines == Emit(kinds, false) && inList == After(kinds, false);
    if inList {
      htmlLines := htmlLines + ["</ul>"];
    }
    html := Join(htmlLines, "\n");
  }

  // ---------------------------------------------------------------------
  // The output follows the input line by line

  /** The kinds of `a + b` are the kinds of `a` followed by those of `b`. */
  lemma KindsAppend(a: seq<string>, b: seq<string>)
    ensures Kinds(a + b) == Kinds(a) + Kinds(b)
  {
    assert forall i :: 0 <= i < |a| ==> (a + b)[i] == a[i];
    assert forall i :: |a| <= i < |a + b| ==> (a + b)[i] == b[i - |a|];
  }

  /** Converting `a + b` emits what `a` emits followed by what `b` emits
      from the list state `a` leaves behind. */
  lemma {:induction false} EmitAppend(a: seq<LineKind>, b: seq<LineKind>, inList: bool)
    ensures Emit(a + b, inList) == Emit(a, inList) + Emit(b, After(a, inList))
    ensures After(a + b, inList) == After(b, After(a, inList))
  {
    if |a| == 0 {
      assert a + b == b;
    } else {
      var step := LineStep(a[0], inList);
      assert (a + b)[0] == a[0];
      assert (a + b)[1..] == a[1..] + b;
      EmitAppend(a[1..], b, step.inList);
      AppendAssoc(step.emitted, Emit(a[1..], step.inList), Emit(b, After(a, inList)));
    }
  }

  /** The loop's step: the run from `i` is the line at `i` followed by the run from `i + 1`. */
  lemma EmitStep(kinds: seq<LineKind>, i: nat, inList: bool)
    requires i < |kinds|
    ensures Emit(kinds[i..], inList) == LineStep(kinds[i], inList).emitted + Emit(kinds[i + 1..], LineStep(kinds[i], inList).inList)
    ensures After(kinds[i..], inList) == After(kinds[i + 1..], LineStep(kinds[i], inList).inList)
  {
    assert kinds[i..][0] == kinds[i];
    assert kinds[i..][1..] == kinds[i + 1..];
  }

  lemma EmitCons(k: LineKind, b: seq<LineKind>, inList: bool)
    ensures Emit([k] + b, inList) == LineStep(k, inList).emitted + Emit(b, LineStep(k, inList).inList)
    ensures After([k] + b, inList) == After(b, LineStep(k, inList).inList)
  {
    assert ([k] + b)[0] == k;
    assert ([k] + b)[1..] == b;
  }

  /** The rendering of `a + [line] + b` is what the lines of `a` emit, then
      what `line` emits from the state `a` leaves, then the rendering of `b`
      from the state after `line`. */
  lemma LineInContext(a: seq<string>, line: string, b: seq<string>)
    ensures Render(a + [line] + b) ==
      Emit(Kinds(a), false) + LineStep(Classify(line), After(Kinds(a), false)).emitted +
      RenderFrom(Kinds(b), LineStep(Classify(line), After(Kinds(a), false)).inList)
  {
    var ka, kb, k := Kinds(a), Kinds(b), Classify(line);
    KindsAppend(a + [line], b);
    KindsAppend(a, [line]);
    assert Kinds([line]) == [k];
    assert Kinds(a + [line] + b) == ka + ([k] + kb);
    EmitAppend(ka, [k] + kb, false);
    var step := LineStep(k, After(ka, false));
    EmitCons(k, kb, After(ka, false));
    var x, y, z, w := Emit(ka, false), step.emitted, Emit(kb, step.inList), CloseList(After(kb, step.inList));
    AppendAssoc(x, y, z);
    AppendAssoc(x + y, z, w);
  }

  /** A heading line yields exactly one heading element holding the rest of
      the line untouched, whatever the lines around it, and leaves an open
      list open. */
  lemma HeadingInContext(a: seq<string>, line: string, b: seq<string>)
    ensures StartsWith(line, "# ") ==>
      Render(a + [line] + b) ==
      Emit(Kinds(a), false) + ["<h1>" + line[2..] + "</h1>"] + RenderFrom(Kinds(b), After(Kinds(a), false))
    ensures StartsWith(line, "## ") ==>
      Render(a + [line] + b) ==
      Emit(Kinds(a), false) + ["<h2>" + line[3..] + "</h2>"] + RenderFrom(Kinds(b), After(Kinds(a), false))
    ensures StartsWith(line, "### ") ==>
      Render(a + [line] + b) ==
      Emit(Kinds(a), false) + ["<h3>" + line[4..] + "</h3>"] + RenderFrom(Kinds(b), After(Kinds(a), false))
  {
    LineInContext(a, line, b);
    if StartsWith(line, "## ") || StartsWith(line, "### ") {
      assert line[1] == '#' && line[..2][1] == line[1];
    }
    if StartsWith(line, "### ") {
      assert line[2] == '#' && line[..3][2] == line[2];
    }
  }

  /** A line that is no heading and holds `**` yields one paragraph with the
      emphasis markers replaced, and leaves an open list open. */
  lemma BoldInContext(a: seq<string>, line: string, b: seq<string>)
    requires !StartsWith(line, "# ") && !StartsWith(line, "## ") && !StartsWith(line, "### ")
    requires Contains(line, "**")
    ensures Render(a + [line] + b) ==
      Emit(Kinds(a), false) + ["<p>" + Embolden(line) + "</p>"] + RenderFrom(Kinds(b), After(Kinds(a), false))
  {
    LineInContext(a, line, b);
  }

  /** A `- ` line that is no heading and holds no `**` yields a list item,
      preceded by `<ul>` when no list is open, and leaves a list open. */
  lemma ListItemInContext(a: seq<string>, line: string, b: seq<string>)
    requires !StartsWith(line, "# ") && !StartsWith(line, "## ") && !StartsWith(line, "### ")
    requires !Contains(line, "**") && StartsWith(line, "- ")
    ensures Render(a + [line] + b) ==
      Emit(Kinds(a), false) + (if After(Kinds(a), false) then [] else ["<ul>"]) +
      ["<li>" + line[2..] + "</li>"] + RenderFrom(Kinds(b), true)
  {
    LineInContext(a, line, b);
  }

  /** Any other line closes an open list; a blank line then yields nothing
      and a non-blank one a paragraph holding the line verbatim. */
  lemma OtherLineInContext(a: seq<string>, line: string, b: seq<string>)
    requires !StartsWith(line, "# ") && !StartsWith(line, "## ") && !StartsWith(line, "### ")
    requires !Contains(line, "**") && !StartsWith(line, "- ")
    ensures Render(a + [line] + b) ==
      Emit(Kinds(a), false) + CloseList(After(Kinds(a), false)) +
      (if Strip(line) == "" then [] else ["<p>" + line + "</p>"]) + RenderFrom(Kinds(b), false)
  {
    LineInContext(a, line, b);
  }

  /** Each line contributes at most two elements. */
  lemma {:induction false} EmitLength(kinds: seq<LineKind>, inList: bool)
    ensures |Emit(kinds, inList)| <= 2 * |kinds|
  {
    if |kinds| > 0 {
      EmitLength(kinds[1..], LineStep(kinds[0], inList).inList);
    }
  }

  /** The converter's output has at most two elements per line, plus the
      final closing of an open list. */
  lemma RenderLength(lines: seq<string>)
    ensures |Render(lines)| <= 2 * |lines| + 1
  {
    EmitLength(Kinds(lines), false);
  }

  // ---------------------------------------------------------------------
  // Lists are balanced and never nested

  /** Starting with a list open exactly when `open`, the elements
      `<ul>` and `</ul>` strictly alternate, every list item lies inside an
      open list, and no list is left open at the end. */
  predicate ListsWellFormed(elems: seq<string>, open: bool)
  {
    if |elems| == 0 then !open
    else if elems[0] == "<ul>" then !open && ListsWellFormed(elems[1..], true)
    else if elems[0] == "</ul>" then open && ListsWellFormed(elems[1..], false)
    else (StartsWith(elems[0], "<li>") ==> open) && ListsWellFormed(elems[1..], open)
  }

  /** One step of `ListsWellFormed` on `[e] + rest`. */
  lemma WellFormedCons(e: string, rest: seq<string>, open: bool)
    ensures ListsWellFormed([e] + rest, open) ==
      if e == "<ul>" then !open && ListsWellFormed(rest, true)
      else if e == "</ul>" then open && ListsWellFormed(rest, false)
      else (StartsWith(e, "<li>") ==> open) && ListsWellFormed(rest, open)
  {
    assert ([e] + rest)[0] == e;
    assert ([e] + rest)[1..] == rest;
  }

  /** An element that is neither `<ul>` nor `</ul>` nor a list item keeps the state. */
  lemma WellFormedPlain(e: string, rest: seq<string>, open: bool)
    requires |e| >= 7 && e[1] != 'l' && e[1] != 'u' && e[1] != '/'
    requires ListsWellFormed(rest, open)
    ensures ListsWellFormed([e] + rest, open)
  {
    WellFormedCons(e, rest, open);
    assert e[..4][1] == e[1];
  }

  /** A list item, opening a list when none is open, leaves a list open. */
  lemma ItemWellFormed(item: string, inList: bool, tail: seq<string>)
    requires |item| >= 4 && item[..4] == "<li>" && item != "<ul>" && item != "</ul>"
    requires ListsWellFormed(tail, true)
    ensures ListsWellFormed((if inList then [] else ["<ul>"]) + [item] + tail, inList)
  {
    WellFormedCons(item, tail, true);
    if !inList {
      WellFormedCons("<ul>", [item] + tail, false);
      assert ["<ul>"] + [item] + tail == ["<ul>"] + ([item] + tail);
    } else {
      assert [] + [item] + tail == [item] + tail;
    }
  }

  /** Closing an open list and then a paragraph leaves no list open. */
  lemma CloseWellFormed(p: seq<string>, inList: bool, tail: seq<string>)
    requires ListsWellFormed(p + tail, false)
    ensures ListsWellFormed(CloseList(inList) + p + tail, inList)
  {
    if inList {
      WellFormedCons("</ul>", p + tail, true);
      assert ["</ul>"] + p + tail == ["</ul>"] + (p + tail);
    } else {
      assert [] + p + tail == p + tail;
    }
  }

  /** The elements one line emits, followed by well-formed elements from
      the state it leaves, are well formed from the state before it. */
  lemma StepWellFormed(k: LineKind, inList: bool, tail: seq<string>)
    requires ListsWellFormed(tail, LineStep(k, inList).inList)
    ensures ListsWellFormed(LineStep(k, inList).emitted + tail, inList)
  {
    match k
    case Heading(level, text) =>
      var h := HeadingElement(level, text);
      assert h[1] == 'h';
      WellFormedPlain(h, tail, inList);
    case Bold(text) =>
      var p := "<p>" + text + "</p>";
      assert p[1] == 'p';
      WellFormedPlain(p, tail, inList);
    case Item(text) =>
      var item := "<li>" + text + "</li>";
      assert item[..4] == "<li>" && item[1] == 'l';
      ItemWellFormed(item, inList, tail);
    case Blank =>
      assert [] + tail == tail;
      CloseWellFormed([], inList, tail);
      assert CloseList(inList) + [] + tail == CloseList(inList) + tail;
    case Plain(text) =>
      var p := "<p>" + text + "</p>";
      assert p[1] == 'p';
      WellFormedPlain(p, tail, false);
      CloseWellFormed([p], inList, tail);
  }

  lemma {:induction false} RenderFromWellFormed(kinds: seq<LineKind>, inList: bool)
    ensures ListsWellFormed(RenderFrom(kinds, inList), inList)
  {
    if |kinds| == 0 {
      if inList {
        assert CloseList(inList)[1..] == [];
      }
    } else {
      var step := LineStep(kinds[0], inList);
      var tail := RenderFrom(kinds[1..], step.inList);
      RenderFromWellFormed(kinds[1..], step.inList);
      StepWellFormed(kinds[0], inList, tail);
      assert RenderFrom(kinds, inList) == step.emitted + tail;
    }
  }

  /** In the converter's output `<ul>` and `</ul>` strictly alternate,
      starting with `<ul>`; lists never nest, every list item is inside a
      list, and an open list is closed by the end of the input. */
  lemma RenderListsWellFormed(lines: seq<string>)
    ensures ListsWellFormed(Render(lines), false)
  {
    RenderFromWellFormed(Kinds(lines), false);
  }

  // ---------------------------------------------------------------------
  // Emphasis: only the first two `**` are replaced

  lemma StarsAt(s: string, m: int)
    ensures MatchAt(s, "**", m) <==> 0 <= m && m + 2 <= |s| && s[m] == '*' && s[m + 1] == '*'
  {
    if 0 <= m && m + 2 <= |s| && s[m] == '*' && s[m + 1] == '*' {
      assert s[m..m + 2] == "**";
    }
  }

  predicate StarPair(s: string, m: int)
    requires 0 <= m && m + 1 < |s|
  {
    s[m] == '*' && s[m + 1] == '*'
  }

  /** No `**` before `k` means no two adjacent stars start before `k`. */
  lemma NoStarPairs(s: string, k: int)
    requires !OccursBefore(s, "**", k)
    ensures forall m :: 0 <= m < k && m + 1 < |s| ==> !StarPair(s, m)
  {
    forall m | 0 <= m < k && m + 1 < |s|
      ensures !StarPair(s, m)
    {
      StarsAt(s, m);
    }
  }

  /** The converse of `NoStarPairs`. */
  lemma NoMarker(s: string, k: int)
    requires forall m :: 0 <= m < k && m + 1 < |s| ==> !StarPair(s, m)
    ensures !OccursBefore(s, "**", k)
  {
    if OccursBefore(s, "**", k) {
      var m :| 0 <= m < k && MatchAt(s, "**", m);
      StarsAt(s, m);
      assert StarPair(s, m);
    }
  }

  /** After the first `**` (at `i`) becomes `<strong>`, no `**` starts in the
      result before the first one that follows it in the line. */
  lemma NoEarlierMarker(line: string, i: nat, n: nat)
    requires MatchAt(line, "**", i) && !OccursBefore(line, "**", i)
    requires n <= |line| - i - 2 && !OccursBefore(line[i + 2..], "**", n)
    ensures ReplaceFirst(line, "**", "<strong>") == line[..i] + "<strong>" + line[i + 2..]
    ensures !OccursBefore(line[..i] + "<strong>" + line[i + 2..], "**", i + 8 + n)
  {
    ReplaceFirstAt(line, "**", "<strong>", i);
    var b := line[i + 2..];
    var t := line[..i] + "<strong>" + b;
    assert t[..i] == line[..i];
    assert t[i..i + 8] == "<strong>";
    assert t[i + 8..] == b;
    NoStarPairs(line, i);
    NoStarPairs(b, n);
    forall m | 0 <= m < i + 8 + n && m + 1 < |t|
      ensures !StarPair(t, m)
    {
      if m + 1 < i {
        assert t[m] == t[..i][m] && t[m + 1] == t[..i][m + 1];
        assert !StarPair(line, m);
      } else if m + 1 == i {
        assert t[m + 1] == t[i..i + 8][0];
      } else if m < i + 8 {
        assert t[m] == t[i..i + 8][m - i];
      } else {
        assert t[m] == t[i + 8..][m - i - 8] && t[m + 1] == t[i + 8..][m - i - 7];
        assert !StarPair(b, m - i - 8);
      }
    }
    NoMarker(t, i + 8 + n);
  }

  /** A line with exactly one `**` gets an opening `<strong>` and no closing tag. */
  lemma EmboldenSingle(line: string, i: nat)
    requires MatchAt(line, "**", i) && !OccursBefore(line, "**", i)
    requires !Contains(line[i + 2..], "**")
    ensures Embolden(line) == line[..i] + "<strong>" + line[i + 2..]
  {
    NoEarlierMarker(line, i, |line| - i - 2);
    var t := line[..i] + "<strong>" + line[i + 2..];
    ReplaceFirstAbsent(t, "**", "</strong>");
  }

  /** With the first `**` at `i` and the next one at `j`, the text between
      them is wrapped in `<strong>`…`</strong>` and the rest of the line,
      any further `**` included, is kept. */
  lemma EmboldenPair(line: string, i: nat, j: nat)
    requires MatchAt(line, "**", i) && !OccursBefore(line, "**", i)
    requires i + 2 <= j && MatchAt(line, "**", j) && !OccursBefore(line[i + 2..], "**", j - i - 2)
    ensures Embolden(line) == line[..i] + "<strong>" + line[i + 2..j] + "</strong>" + line[j + 2..]
  {
    NoEarlierMarker(line, i, j - i - 2);
    var t := line[..i] + "<strong>" + line[i + 2..];
    var k := j + 6;
    StarsAt(line, j);
    assert t[k] == line[j] && t[k + 1] == line[j + 1];
    StarsAt(t, k);
    ReplaceFirstAt(t, "**", "</strong>", k);
    assert t[..k] == line[..i] + "<strong>" + line[i + 2..j];
    assert t[k + 2..] == line[j + 2..];
  }
}
