# chapter2code generator core, in Dafny

A model of the two scripts that turn the blog's Jupyter notebooks into
static HTML, with proofs of what they guarantee about that HTML.

- `scripts/generate_blog_posts.py` writes one post per notebook. It does
  three things:
  - `escape_html` escapes HTML with five chained replacements.
  - `convert_markdown_to_html` is a line-by-line converter for a small
    markdown subset: headings, bold lines, `- ` lists and paragraphs.
  - The cell loop of `notebook_to_blog_post` puts a fixed page head around
    the cells and then adds the footer.
    - Markdown cells are converted.
    - Code cells become an escaped code block, plus an output block when
      their outputs carry text.
    - The first markdown cell that is a `# ` title is skipped.
- `scripts/generate_index.py` does two things:
  - `get_notebook_metadata` reads a title and a short description from a
    notebook's first markdown cell.
  - `generate_index_html` writes the index page with one entry per notebook.

Modules, one per file:

| file | module | contents |
|---|---|---|
| `strings.dfy` | `Strings` | The Python `str` methods the scripts call: `startswith`, `split`, `join`, `replace`, `strip`, `lower`, `title`. There are also occurrence predicates and regrouping lemmas. |
| `escape.dfy` | `HtmlEscape` | `escape_html` as the literal replacement chain, its inverse chain, and a character-by-character reference encoding. |
| `markdown.dfy` | `Markdown` | The converter. The pure specification is `Classify`, `LineStep`, `Emit` and `Render`. The loop itself is the imperative method `ConvertMarkdownToHtml`. |
| `notebook.dfy` | `Notebook` | The parsed notebook: cells and outputs. |
| `blogpost.dfy` | `BlogPost` | The page template, code and output blocks, the cell loop with `skip_first_title`, and properties of the page. |
| `index.dfy` | `Index` | Metadata extraction with its nested loops, the index page, and their properties. |

Each imperative loop of the scripts is a Dafny `method` with a loop and
invariants. Its `ensures` ties the result to a specification function, and
the lemmas state what the scripts promise about those functions.

## Model

| member | source | states |
|---|---|---|
| `Strings.JoinSplit` | scripts/generate_blog_posts.py:19 | Joining the pieces of `s.split(d)` with `d` gives `s` back. |
| `Strings.SplitJoin` | scripts/generate_index.py:20 | Splitting pieces joined by a separator that none of them holds gives the pieces back. |
| `Strings.Split` | scripts/generate_index.py:20 | `split` yields at least one piece, and no piece holds the separator. |
| `Strings.ConcatAppend` | scripts/generate_blog_posts.py:94 | `''.join` of `a + b` is the join of `a` followed by the join of `b`. |
| `Strings.StripSpec` | scripts/generate_blog_posts.py:122 | `strip()` removes exactly the leading and the trailing whitespace. The result occurs in the input with only whitespace before and after it, and it neither starts nor ends with whitespace. It is empty exactly when the input is all whitespace. |
| `Strings.ReplaceChar` | scripts/generate_index.py:14 | Replacing one character by another keeps the length and changes exactly the positions that held it. |
| `Strings.Lower` | scripts/generate_index.py:94 | `lower()` keeps the length and lower-cases each character in place. |
| `Strings.TitleFrom` | scripts/generate_index.py:14 | `title()` keeps the length. A letter that follows a letter is lower-cased, and any other letter is upper-cased. |
| `HtmlEscape.EscapeHtml` | scripts/generate_blog_posts.py:8-15 | The five chained replacements, `&` first, are the character-by-character encoding of `& < > " '` as their entities. |
| `HtmlEscape.UnescapeEscape` | scripts/generate_blog_posts.py:10-15 | Undoing `&lt; &gt; &quot; &#39;` and then `&amp;` returns the input exactly. |
| `HtmlEscape.EscapeHtmlSafe` | scripts/generate_blog_posts.py:10-15 | The escaped text holds no `<`, `>`, `"` or `'`, and every `&` in it begins one of the five entities. It is never shorter than the input, and it equals the input exactly when the input has none of the five characters. |
| `HtmlEscape.EncodeLength` | scripts/generate_blog_posts.py:10-15 | The reference encoding never shortens, and keeps the length exactly when nothing needs escaping. |
| `Markdown.ConvertLine` | scripts/generate_blog_posts.py:24-46 | One pass of the loop body appends what `LineStep` gives for the line's kind and sets `in_list` as it says. |
| `Markdown.ConvertMarkdownToHtml` | scripts/generate_blog_posts.py:17-51 | The loop, the final `</ul>` and the newline join compute `MarkdownToHtml`. |
| `Markdown.EmitAppend` | scripts/generate_blog_posts.py:23-46 | Output follows input order: the lines of `a + b` emit what `a` emits, then what `b` emits from the list state `a` leaves. |
| `Markdown.LineInContext` | scripts/generate_blog_posts.py:23-49 | Whatever lines surround a line, its elements sit between those of the lines before it and those of the lines after it. |
| `Markdown.HeadingInContext` | scripts/generate_blog_posts.py:25-30 | A `# `, `## ` or `### ` line yields exactly `<h1>`/`<h2>`/`<h3>` around `line[2:]`/`line[3:]`/`line[4:]`, unaltered. It leaves an open list open. |
| `Markdown.BoldInContext` | scripts/generate_blog_posts.py:32-34 | A non-heading line holding `**` yields one `<p>` around the emboldened line, and an open list stays open. |
| `Markdown.EmboldenSingle` | scripts/generate_blog_posts.py:33 | A line with a single `**` gets an opening `<strong>` and no closing tag. |
| `Markdown.EmboldenPair` | scripts/generate_blog_posts.py:33 | Only the first two `**` are replaced, by `<strong>` and `</strong>`. Any later `**` is kept. |
| `Markdown.ListItemInContext` | scripts/generate_blog_posts.py:36-40 | A `- ` line yields `<li>` around `line[2:]`, preceded by `<ul>` when no list is open, and a list is open afterwards. |
| `Markdown.OtherLineInContext` | scripts/generate_blog_posts.py:41-46 | Any other line closes an open list. A blank line then yields nothing, and a non-blank one yields a `<p>` around the verbatim line. |
| `Markdown.RenderLength` | scripts/generate_blog_posts.py:23-49 | At most two elements per line, plus the final `</ul>`. |
| `Markdown.EmitLength` | scripts/generate_blog_posts.py:23-46 | Each line contributes at most two elements. |
| `Markdown.RenderListsWellFormed` | scripts/generate_blog_posts.py:36-49 | In the output, `<ul>` and `</ul>` strictly alternate, starting with `<ul>`. Lists never nest, every `<li>` is inside a list, and no list is left open. |
| `BlogPost.CollectOutputText` | scripts/generate_blog_posts.py:114-119 | The inner loop collects every output's `text`, or else its `text/plain`, in output order. |
| `BlogPost.CollectedTextEmpty` | scripts/generate_blog_posts.py:113-121 | The collected list is empty exactly when no output has lines. |
| `BlogPost.CollectedTextAppend` | scripts/generate_blog_posts.py:115-119 | Outputs contribute in order. |
| `BlogPost.RenderCell` | scripts/generate_blog_posts.py:93-130 | One pass of the cell loop. A title cell met while `skip_first_title` is set only clears the flag. Any other cell appends its block. |
| `BlogPost.RenderCells` | scripts/generate_blog_posts.py:91-130 | The cell loop appends exactly the page body. |
| `BlogPost.NotebookToBlogPost` | scripts/generate_blog_posts.py:53-140 | The whole page is head, body and footer. |
| `BlogPost.FirstTitle` | scripts/generate_blog_posts.py:98 | The index of the first title cell, with none before it. |
| `BlogPost.BodySkipsFirstTitle` | scripts/generate_blog_posts.py:91-103 | At most one cell is dropped: the first markdown cell whose stripped source starts with `# `, or none. Every other cell's block appears, in notebook order. |
| `BlogPost.PageCells` | scripts/generate_blog_posts.py:91-130 | The same, stated over the cells themselves. |
| `BlogPost.FragmentsAppend` | scripts/generate_blog_posts.py:92-130 | Blocks follow cell order. |
| `BlogPost.CodeBlockHoldsSource` | scripts/generate_blog_posts.py:105-110 | A code block opens the `<code>` element, then holds exactly `escape_html(source)`, then closes it. The escaped text has no `<` and unescapes to the source. |
| `BlogPost.CodeBlockOutputOnce` | scripts/generate_blog_posts.py:105-130 | A code block holds the output block's opening tags at most once. They appear only right after the code element, and only when some output text was collected. |
| `BlogPost.CodeBlockHasOutput` | scripts/generate_blog_posts.py:113-128 | An output block follows the code element if and only if the collected output list is non-empty. |
| `BlogPost.CodeBlockOutputText` | scripts/generate_blog_posts.py:121-128 | The output block holds the collected text, joined, stripped and escaped. |
| `BlogPost.OutputTextSafe` | scripts/generate_blog_posts.py:122-123 | The escaped output has no `<` and unescapes to the stripped output. |
| `BlogPost.PageShowsTitle` | scripts/generate_blog_posts.py:60-88 | Whatever the body, the page shows the title verbatim in `<title>` and in the header `<h1>`, lower-cased in the breadcrumb, and the meta line in the header. |
| `BlogPost.PageIsDocument` | scripts/generate_blog_posts.py:60-140 | The page starts with the doctype line and ends with `</body>`, `</html>`. |
| `Index.FirstMarkdown` | scripts/generate_index.py:17-18 | The index of the first markdown cell, with no markdown cell before it. |
| `Index.FirstHeading` | scripts/generate_index.py:23-24 | The index of the first line starting with `# `. |
| `Index.FindTitle` | scripts/generate_index.py:23-26 | The title loop gives `line[2:].strip()` of the first `# ` line, or keeps the fallback. |
| `Index.FindDescLines` | scripts/generate_index.py:29-38 | The description loop, with its `continue` and its `break` at two lines, gives the first two candidate lines. |
| `Index.GetNotebookMetadata` | scripts/generate_index.py:8-49 | The nested loops with their breaks compute `Metadata`. |
| `Index.FirstMarkdownDecides` | scripts/generate_index.py:17-42 | Only the first markdown cell matters. Non-markdown cells before it and any cells after it never change the record. |
| `Index.MetadataFields` | scripts/generate_index.py:14-49 | `filename` is the stem and `tags` is empty. With no markdown cell, the title is the fallback and the description is `""`. |
| `Index.FallbackTitleShape` | scripts/generate_index.py:14 | The fallback title has the stem's length and a space where the stem has `_`. Elsewhere it has the stem's characters up to case. |
| `Index.CandidatesFrom` | scripts/generate_index.py:29-38 | Every description line is a stripped, non-blank line that does not start with `#`, comes after a `Chapter`/`**Chapter` lead-in, and is not itself a lead-in. |
| `Index.NoLeadInNoCandidates` | scripts/generate_index.py:31-36 | Without a lead-in, no line is taken. |
| `Index.EligiblesMembers` | scripts/generate_index.py:31-36 | A line is among the eligible lines exactly when some line after a lead-in qualifies, is not itself a lead-in, and strips to it. |
| `Index.CandidatesAreEligibles` | scripts/generate_index.py:29-38 | The loop's `in_desc` flag collects exactly the eligible lines, in line order. |
| `Index.DescriptionLines` | scripts/generate_index.py:29-41 | The description lines are the first two eligible lines, or all of them when there are fewer. There is at least one whenever some line is eligible, and none when there is no lead-in. |
| `Index.RenderEntries` | scripts/generate_index.py:88-102 | The entry loop appends one entry per record, in order. |
| `Index.GenerateIndexHtml` | scripts/generate_index.py:51-114 | The page is the head, the entries and the footer. |
| `Index.EntriesAppend` | scripts/generate_index.py:88-102 | Entries follow record order. |
| `Index.ShownDescriptionSpec` | scripts/generate_index.py:90 | The shown description is never empty. A non-empty description is used verbatim. Otherwise it is `Exploring `, then the lower-cased title, then a final `.`, and nothing else. |
| `Index.EntryShows` | scripts/generate_index.py:92-102 | An entry links `posts/{filename}.html` with the lower-cased title, and holds the fixed `november 2025` meta line and the shown description. |
| `Index.EntryInEntries` | scripts/generate_index.py:88-102 | Every record's entry is part of the listing. |
| `Index.IndexListsEvery` | scripts/generate_index.py:88-114 | The index page links every notebook's post and shows its description. |

## Left out

- File and JSON handling are not modelled: `open`, `json.load` and the file writes (generate_blog_posts.py:56-57 and 142-146, generate_index.py:10-11). The model takes an already-parsed list of cells and returns the HTML string.
- The `print` calls and the `__main__` driver are not modelled (generate_blog_posts.py:146-160).
- `build_index` is not modelled (generate_index.py:116-150). It covers directory scanning, sorting, checkpoint filtering and per-file error logging.
- `scripts/build.py` and `scripts/convert_notebooks.py` are not part of this model. They are filesystem orchestration, and a shell-out to `jupyter nbconvert`.
- Strings.Lower: `lower()` is modelled on ASCII letters only. Every other code point is kept.
- Strings.TitleFrom: `title()` is modelled on ASCII letters only. Every other code point is kept.
- Whitespace for `strip()` is Python's `str.isspace` set, written out as code-point ranges.
- A cell's `source`, or an output's `text`, may be a single string in a notebook file rather than a list. The model encodes such a string as the list of its characters, one fragment per character, because `''.join` and `list.extend` treat a string that way. So an output whose `text` is `""` contributes nothing and writes no output block, as in the script.
- Code cells without an `outputs` key are modelled as code cells with no outputs. Cells that are neither markdown nor code carry only a source and write nothing.
- Notebook metadata beyond cells is ignored, as it is by the scripts.
- Some behaviour is described for the generator but is not in the code, so the model follows the code and leaves it out:
  - multi-line display math;
  - numbered-list detection;
  - image outputs and the suppression of plain-text outputs next to them;
  - blank-line placeholders;
  - one output block per output, where the code writes a single block for all outputs of a cell.
- The template text (stylesheet and script links, the about paragraph) is kept verbatim as string constants. The proofs only locate the parts that carry data inside it.
- Some loop bodies and loops are separate methods, each with a contract:
  - `ConvertLine`, `RenderCell`, `RenderCells`, `FindTitle`, `FindDescLines` and `RenderEntries`.
  - The `continue` after a skipped title cell is a return from `RenderCell`.
  - The `break` out of the cell loop in `get_notebook_metadata` is a return.
  - This splits the proofs into parts; the order of tests and updates is the source's.
