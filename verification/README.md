# static-site-generator core, modelled in Dafny

This project models the core of a small Python static site generator, which turns
markdown into HTML. The model covers four pieces:

- **Block segmentation** (`markdown_to_blocks`). Markdown is split at every
  occurrence of the separator `"\n\n"`. A line holding only spaces is not a
  separator. Each piece is stripped of surrounding whitespace, and
  empty pieces are dropped.
- **Block classification** (`block_to_block_type`). A block is classified as a
  heading, a fenced code block, a quote, an unordered list, an ordered list
  numbered 1, 2, 3, … or a paragraph. The tests are applied in that order.
- **HTML serialisation of a parent node** (`ParentNode.to_html`). It checks the
  tag, then the children. It writes the opening tag with its attributes, then
  appends each child's HTML in order, then the closing tag. Leaf rendering and
  attribute rendering are modelled as the node tests fix them.
- **The inline token record** (`TextNode`). This is the six-member `TextType`
  enum with its string values, plus construction from a member or from a
  value. It also covers field-wise equality and the textual representation.

Module layout:

- `wrappers.dfy` holds `Option` and `Result`.
- `pystr.dfy` holds the Python string built-ins the core relies on: `split`,
  `strip` (with `str.isspace` whitespace), `startswith`, `endswith` and
  substring search.
- There is one module per core file: `markdown_to_blocks.dfy`,
  `block_to_block_type.dfy`, `htmlnode.dfy` (the node datatype, attributes and
  leaves), `parentnode.dfy` and `textnode.dfy`.

Each loop in the source becomes a method with a loop. The method is proved equal
to a specification function, and the properties are proved about that function:

- `MarkdownToBlocks.MarkdownToBlocks` is proved equal to `Blocks`.
- `BlockToBlockType.BlockToBlockType` is proved equal to `BlockTypeOf`.
- `ParentNode.ToHtml` and `ParentNode.ParentToHtml` are proved equal to `Rendered`.

Raised exceptions become `Failure` values. Each one is named after what the
source complains about: `MissingTag`, `MissingChildren`, `MissingValue`, and
`UnknownTextType` for the `ValueError` of the enum lookup.

## Model

| member | source | states |
|---|---|---|
| PyStr.Split | src/markdown_to_blocks.py:2 | `str.split(sep)` always yields at least one piece |
| PyStr.JoinSplit | src/markdown_to_blocks.py:2 | joining the pieces of a split with the separator gives the input back |
| PyStr.SplitPieces | src/block_to_block_type.py:5 | every piece of a split occurs in the input and contains no separator |
| PyStr.SplitWithoutSeparator | src/markdown_to_blocks.py:2 | a string without the separator splits into itself alone |
| PyStr.Strip | src/markdown_to_blocks.py:5 | `strip()` gives a substring of the input with no edge whitespace; it is empty iff the input is all whitespace; an already-stripped string is unchanged |
| PyStr.StripAfterWhitespace | src/markdown_to_blocks.py:5 | whitespace in front of a non-empty stripped string is all that `strip()` removes |
| PyStr.SplitAtFirst | src/markdown_to_blocks.py:2 | a split cuts at the first occurrence of the separator |
| PyStr.StripRemovesOnlyEdges | src/markdown_to_blocks.py:5 | `strip()` removes an all-whitespace prefix and suffix and keeps the middle verbatim |
| MarkdownToBlocks.MarkdownToBlocks | src/markdown_to_blocks.py:1-9 | the loop over the split pieces returns exactly `Blocks(markdown)`: the stripped, non-empty pieces in order |
| MarkdownToBlocks.Kept | src/markdown_to_blocks.py:5-8 | one piece contributes at most one block, its strip, and only when that is non-empty |
| MarkdownToBlocks.KeepBlocksSound | src/markdown_to_blocks.py:4-8 | there are at most as many blocks as pieces; each block is non-empty, stripped, and the strip of some piece |
| MarkdownToBlocks.FlatMapAppend | src/markdown_to_blocks.py:4-8 | mapping each element of a concatenation and concatenating the results gives the results for each part, in order |
| MarkdownToBlocks.KeepBlocksAppend | src/markdown_to_blocks.py:4-8 | filtering a concatenation of pieces is the concatenation of the filtered parts, so order is kept |
| MarkdownToBlocks.BlocksWellFormed | src/markdown_to_blocks.py:1-9 | every block is non-empty, stripped, free of the separator `"\n\n"` and a substring of the markdown; there are no more blocks than pieces |
| MarkdownToBlocks.KeepNothing | src/markdown_to_blocks.py:6-7 | pieces that all strip to empty give no blocks |
| MarkdownToBlocks.BlankHasNoBlocks | src/test_markdown_to_blocks.py:26-32 | empty or whitespace-only markdown has no blocks |
| MarkdownToBlocks.SingleBlock | src/test_markdown_to_blocks.py:34-38 | markdown without the separator `"\n\n"` that is not blank is one block, its strip |
| MarkdownToBlocks.PieceThenSeparator | src/markdown_to_blocks.py:2 | a piece without the separator that does not end in a newline is cut off at the separator after it |
| MarkdownToBlocks.SplitJoinPieces | src/markdown_to_blocks.py:2 | separator-free pieces, none but the last ending in a newline, are recovered by splitting their join |
| MarkdownToBlocks.BlocksOfJoin | src/test_markdown_to_blocks.py:6-24 | a document of such pieces joined by `"\n\n"` yields each non-blank piece stripped, in order; edge indentation goes and inner lines stay |
| MarkdownToBlocks.NewlinesThenBlock | src/markdown_to_blocks.py:4-8 | any run of newlines in front of a stripped block leaves only that block |
| MarkdownToBlocks.NewlineRun | src/test_markdown_to_blocks.py:40-60 | two stripped blocks with any run of two or more newlines between them give exactly those two blocks |
| MarkdownToBlocks.BlocksIdempotent | src/markdown_to_blocks.py:1-9 | segmenting any block again yields that block alone |
| BlockToBlockType.Lines | src/block_to_block_type.py:5 | a block always has at least one line |
| BlockToBlockType.BlockToBlockType | src/block_to_block_type.py:4-23 | the classifier, including its ordered-list loop with early exit, returns exactly `BlockTypeOf(markdown)` |
| BlockToBlockType.IsHeadingStart | src/block_to_block_type.py:7 | the heading test counts the leading hashes and needs 1 to 6 of them followed by whitespace; it implies the block starts with `#` and has two characters or more |
| BlockToBlockType.DecimalValue | src/block_to_block_type.py:18 | `int()` of a run of n ASCII digits, most significant first, is below 10^n |
| BlockToBlockType.ItemNumber | src/block_to_block_type.py:17-18 | the number of a line matching `^(\d+)\.\s`; a match needs a leading digit and three characters or more |
| BlockToBlockType.HeadingStartIsPattern | src/block_to_block_type.py:7 | the heading test holds iff the block starts with 1 to 6 `#` followed by a whitespace character |
| BlockToBlockType.ItemNumberIsPattern | src/block_to_block_type.py:17-18 | a line's item number is v iff the line starts with a run of ASCII digits of decimal value v, then `.`, then whitespace |
| BlockToBlockType.LeadingZero | src/block_to_block_type.py:18 | a leading zero does not change the parsed item number |
| BlockToBlockType.HeadingIff | src/block_to_block_type.py:7-8 | HEADING iff the heading pattern matches the block |
| BlockToBlockType.CodeIff | src/block_to_block_type.py:9-10 | CODE iff not a heading and the block starts and ends with three backticks |
| BlockToBlockType.QuoteIff | src/block_to_block_type.py:11-12 | QUOTE iff neither earlier kind and every line starts with `>` |
| BlockToBlockType.UnorderedListIff | src/block_to_block_type.py:13-14 | UNORDERED_LIST iff no earlier kind and every line starts with `- ` |
| BlockToBlockType.OrderedListIff | src/block_to_block_type.py:15-22 | ORDERED_LIST iff no earlier kind and line i is numbered i + 1, for every line |
| BlockToBlockType.ParagraphIff | src/block_to_block_type.py:23 | PARAGRAPH iff no earlier kind and some line i is not numbered i + 1 |
| BlockToBlockType.DigitStartIsOrderedOrParagraph | src/block_to_block_type.py:15-23 | a block starting with a digit is ORDERED_LIST when numbered from one, else PARAGRAPH |
| BlockToBlockType.HeadingWhateverFollows | src/test_block_to_block_type.py:10-12 | 1 to 6 hashes and a whitespace character make a heading whatever follows |
| BlockToBlockType.HashWithoutHeadingIsParagraph | src/test_block_to_block_type.py:70 | a block starting with `#` that is not a heading is a paragraph |
| BlockToBlockType.SevenHashesNotHeading | src/test_block_to_block_type.py:73 | seven or more leading hashes are never a heading |
| BlockToBlockType.OrdinaryStartIsParagraph | src/test_block_to_block_type.py:79-80 | a block whose first character is not `#`, a backtick, `>`, `-`, a digit or a newline is a paragraph, whatever its later lines are |
| BlockToBlockType.FencedIsCode | src/test_block_to_block_type.py:15 | a block both starting and ending with three backticks is CODE |
| BlockToBlockType.UnclosedFenceIsParagraph | src/test_block_to_block_type.py:76 | an opening fence without a closing one gives a paragraph |
| BlockToBlockType.QuoteNeedsEveryLine | src/test_block_to_block_type.py:25-33 | a block starting with `>` is QUOTE if every line does, else PARAGRAPH |
| BlockToBlockType.UnorderedNeedsEveryLine | src/test_block_to_block_type.py:35-43 | a block starting with `- ` is UNORDERED_LIST if every line does, else PARAGRAPH |
| BlockToBlockType.SingleDigitItem | src/test_block_to_block_type.py:51-53 | `d. text` has item number d |
| BlockToBlockType.LeadingZeroItem | src/block_to_block_type.py:17-18 | `01. text` has item number 1 |
| BlockToBlockType.LeadingZeroList | src/block_to_block_type.py:15-22 | a one-line block `01. text` is an ordered list |
| BlockToBlockType.ThreeLines | src/block_to_block_type.py:5 | three newline-free lines joined by newlines split back into those three |
| BlockToBlockType.ThreeItemList | src/test_block_to_block_type.py:45-65 | a three-line digit list is ORDERED_LIST exactly when numbered 1, 2, 3 and PARAGRAPH otherwise (wrong start, skipped or swapped numbers) |
| BlockToBlockType.ThreeItemsNumbered | src/block_to_block_type.py:16-20 | three lines with one-digit numbers are numbered from one exactly when the digits are 1, 2, 3 |
| BlockToBlockType.EmptyBlockIsParagraph | src/test_block_to_block_type.py:83 | the empty block is a paragraph |
| HtmlNode.PropsToHtml | src/test_parentnode.py:21-24 | attributes render to the empty string iff there are none; otherwise the result starts with a space |
| HtmlNode.PropsToHtmlAppend | src/test_parentnode.py:21-24 | attributes render one after another in insertion order |
| HtmlNode.LeafToHtml | src/test_leafnode.py:6-21 | a leaf fails, with MissingValue, iff it has a tag and an empty value; a tagless leaf renders its value verbatim |
| HtmlNode.LeafContract | src/test_leafnode.py:6-21 | a leaf fails, with MissingValue, iff it has a tag and an empty value; without a tag it renders its value verbatim; otherwise it is the opening tag, the value, then the closing tag |
| HtmlNode.LeafParagraphExample | src/test_leafnode.py:6-8 | a `p` leaf renders as `<p>Hello, world!</p>` |
| HtmlNode.LeafWithoutTagExample | src/test_leafnode.py:10-12 | a tagless leaf renders as its bare value |
| HtmlNode.LeafWithOneAttribute | src/test_leafnode.py:14-16 | a leaf with one attribute renders `<tag name="value">text</tag>` |
| HtmlNode.LeafWithoutValueExample | src/test_leafnode.py:18-21 | a `p` leaf with an empty value fails |
| ParentNode.ToHtml | src/parentnode.py:7-16 | rendering any node returns exactly `Rendered(node)` |
| ParentNode.ParentToHtml | src/parentnode.py:7-16 | the tag check, the children check and the loop that appends each child's HTML together return `Rendered(node)`; the first failing child's error is propagated |
| ParentNode.ChildrenAppend | src/parentnode.py:13-14 | rendering a concatenation of children concatenates their HTML, or yields the first failure |
| ParentNode.OneChild | src/test_parentnode.py:7-10 | a single child's HTML is the children's HTML |
| ParentNode.RenderedSucceedsIffWellFormed | src/parentnode.py:8-14 | rendering succeeds iff every parent in the tree has a tag and children and every tagged leaf has a value |
| ParentNode.ChildrenSucceedIffWellFormed | src/parentnode.py:13-14 | a list of children renders iff each child is well formed |
| ParentNode.ParentChecks | src/parentnode.py:8-11 | a missing tag fails first, whatever the children; then empty children fail; otherwise success iff every child renders |
| ParentNode.ThreeChildrenInOrder | src/test_parentnode.py:39-47 | three children render in order, concatenated |
| ParentNode.NestedParents | src/test_parentnode.py:12-19 | a parent around a parent around a child nests the tags around the child's HTML |
| TextNode.TextTypeOfValue | src/textnode.py:3-9 | looking up a value yields a member carrying that value |
| TextNode.TextTypeMembers | src/textnode.py:3-9 | there are six members with six distinct values; lookup by a member's value returns the member; lookup fails exactly on the other strings |
| TextNode.NewTextNode | src/textnode.py:12-16 | a built node keeps the text, url and alt given and carries the requested type value; construction fails only for a string, reporting that string |
| TextNode.ConstructionNormalisesType | src/textnode.py:12-16 | building from a member or from its value gives the same node; url and alt default to none |
| TextNode.ConstructionFailsOnUnknownValue | src/textnode.py:14 | building from a string fails iff no member has that value |
| TextNode.Equal | src/textnode.py:18-19 | field-wise equality with type values compared is exactly equality of nodes |
| TextNode.EqualIsEquivalence | src/textnode.py:18-19 | node equality is reflexive, symmetric and transitive |
| TextNode.NoUrlIsNotEmptyUrl | src/textnode.py:18-19 | a node without url differs from one with an empty url |
| TextNode.Repr | src/textnode.py:21-28 | the representation opens with `TextNode(`, closes with `)` and has at least twelve characters |
| TextNode.ReprShape | src/textnode.py:21-28 | the representation starts with `TextNode(`, the text and the type value, ends with `)`, and grows by the url and the alt (two separator characters each) exactly when they are present |
| TextNode.ReprPlain | src/textnode.py:22-28 | without url and alt, the representation is `TextNode(text, value)` |
| TextNode.ReprIsNotInjective | src/textnode.py:23-26 | a node with only a url and a node with only an equal alt are different but print alike |

## Left out

- `src/htmlnode.py` and `src/leafnode.py` are not part of this model. The
  leaf and attribute behaviour follows `src/test_leafnode.py` and
  `src/test_parentnode.py:21-24`. A tagless leaf renders its value verbatim,
  even an empty one. A leaf whose tag is the empty string renders like any
  other tagged leaf.
- HtmlNode: attributes are a sequence of name/value pairs in insertion order.
  A missing attribute map (`None`) is the same as an empty one. Duplicate names
  in a Python dict cannot occur and are not excluded here.
- `ParentNode.__repr__` is left out: it prints Python's list and dict
  representations, which are not modelled.
- BlockToBlockType.ItemNumberIsPattern: `\d` is taken as the ASCII digits.
  Python's `re` would also match other Unicode decimal digits, which `int()`
  accepts.
- BlockToBlockType.DecimalValue: Python's `int()` refuses a string of more
  than 4300 digits by default (`sys.int_max_str_digits`, from CPython 3.11 and
  the 2022 security releases). At `src/block_to_block_type.py:18` that raises
  `ValueError` out of the classifier. The model reads any run of digits, so
  such a line counts as not numbered i + 1 and the block is a paragraph. The
  limit is a run-time setting of the interpreter, not part of the program.
- BlockToBlockType.ItemNumber: a digit run over that limit yields a number
  here, where Python would raise, as above.
- BlockToBlockType.LeadingZero: holds for runs within that limit only, in Python.
- PyStr.Strip: whitespace is the character set of Python's `str.isspace`. The
  same set is used for the regular-expression class `\s`.
- The `len(lines) > 0` test at `src/block_to_block_type.py:21` always holds,
  because a split always yields at least one piece (`PyStr.Split`).
- `TextNode.__eq__` with an argument that is not a text node raises
  `AttributeError` in Python. The model compares text nodes only.
- Inline splitting, link and image extraction, and the markdown-to-HTML driver
  are outside the modelled core.
- The unit tests are stated as general lemmas over arbitrary tags, texts,
  pieces and digits rather than as the tests' literal strings. The exceptions
  are the literal leaf examples.
