/** `block_to_block_type`: an ordered cascade of tests on one block's text that
    picks one of six block kinds. */
module BlockToBlockType {
  import opened Wrappers
  import opened PyStr

  datatype BlockType = Paragraph | Heading | Code | Quote | UnorderedList | OrderedList

  const Fence: string := "```"

  /** `markdown.split('\n')`: never empty, `[""]` for the empty block. */
  function Lines(markdown: string): (lines: seq<string>)
    ensures |lines| >= 1
  {
    Split(markdown, "\n")
  }

  // ---------------------------------------------------------------- heading

  /** The number of '#' characters the block starts with. */
  function HashRun(s: string, k: nat): (n: nat)
    requires k <= |s|
    ensures k <= n <= |s|
    ensures forall j :: k <= j < n ==> s[j] == '#'
    ensures n < |s| ==> s[n] != '#'
    decreases |s| - k
  {
    if k < |s| && s[k] == '#' then HashRun(s, k + 1) else k
  }

  /** The model's evaluation of `re.match(r"^#{1,6}\s", markdown)`: the whole
      block, not just its first line, starts with one to six '#' and then one
      whitespace character (which may be a newline or a tab). */
  predicate IsHeadingStart(markdown: string): (r: bool)
    ensures r ==> 2 <= |markdown| && markdown[0] == '#'
  {
    var n := HashRun(markdown, 0);
    1 <= n <= 6 && n < |markdown| && IsWhitespace(markdown[n])
  }

  /** What the regular expression `^#{1,6}\s` means: some count of one to six
      '#' is followed by a whitespace character. */
  ghost predicate HeadingPattern(s: string)
  {
    exists k :: 1 <= k <= 6 && k < |s| && IsWhitespace(s[k]) && forall j :: 0 <= j < k ==> s[j] == '#'
  }

  /** The greedy count decides the pattern exactly. */
  lemma HeadingStartIsPattern(s: string)
    ensures IsHeadingStart(s) <==> HeadingPattern(s)
  {
    var n := HashRun(s, 0);
    if HeadingPattern(s) {
      var k :| 1 <= k <= 6 && k < |s| && IsWhitespace(s[k]) && forall j :: 0 <= j < k ==> s[j] == '#';
      assert s[k] != '#';
      assert n == k;
    }
    if IsHeadingStart(s) {
      assert 1 <= n <= 6 && n < |s| && IsWhitespace(s[n]) && forall j :: 0 <= j < n ==> s[j] == '#';
    }
  }

  // ----------------------------------------------------------- ordered list

  /** The index of the first non-digit at or after `k`. */
  function DigitRun(s: string, k: nat): (n: nat)
    requires k <= |s|
    ensures k <= n <= |s|
    ensures forall j :: k <= j < n ==> IsDigit(s[j])
    ensures n < |s| ==> !IsDigit(s[n])
    decreases |s| - k
  {
    if k < |s| && IsDigit(s[k]) then DigitRun(s, k + 1) else k
  }

  predicate AllDigits(s: string)
  {
    forall j :: 0 <= j < |s| ==> IsDigit(s[j])
  }

  function Pow10(n: nat): (p: nat)
    ensures p >= 1
  {
    if n == 0 then 1 else 10 * Pow10(n - 1)
  }

  /** Python's `int(...)` on a run of ASCII digits; leading zeros are accepted.
      A run of n digits stays below 10^n. */
  function DecimalValue(digits: string): (v: nat)
    requires AllDigits(digits)
    ensures v < Pow10(|digits|)
  {
    if digits == [] then 0
    else DecimalValue(digits[..|digits| - 1]) * 10 + (digits[|digits| - 1] as int - '0' as int)
  }

  /** The number an ordered-list line carries, if `re.match(r"^(\d+)\.\s", line)` succeeds. */
  function ItemNumber(line: string): (r: Option<nat>)
    ensures r.Some? ==> 3 <= |line| && IsDigit(line[0])
  {
    var d := DigitRun(line, 0);
    if 1 <= d && d + 1 < |line| && line[d] == '.' && IsWhitespace(line[d + 1])
    then Some(DecimalValue(line[..d]))
    else None
  }

  /** What `^(\d+)\.\s` with group value `v` means: some non-empty digit prefix
      whose value is `v`, then '.', then one whitespace character. */
  ghost predicate ItemPattern(line: string, v: nat)
  {
    exists d :: 1 <= d && d + 1 < |line| && AllDigits(line[..d]) && line[d] == '.'
      && IsWhitespace(line[d + 1]) && DecimalValue(line[..d]) == v
  }

  /** The greedy digit count decides the pattern exactly. */
  lemma ItemNumberIsPattern(line: string, v: nat)
    ensures ItemNumber(line) == Some(v) <==> ItemPattern(line, v)
  {
    var n := DigitRun(line, 0);
    if ItemPattern(line, v) {
      var d :| 1 <= d && d + 1 < |line| && AllDigits(line[..d]) && line[d] == '.'
        && IsWhitespace(line[d + 1]) && DecimalValue(line[..d]) == v;
      assert n == d;
    }
    if ItemNumber(line) == Some(v) {
      assert AllDigits(line[..n]);
    }
  }

  /** A leading zero does not change the value: `int("01") == 1`. */
  lemma {:induction false} LeadingZero(digits: string)
    requires AllDigits(digits)
    ensures AllDigits("0" + digits) && DecimalValue("0" + digits) == DecimalValue(digits)
    decreases |digits|
  {
    if digits != [] {
      var init := digits[..|digits| - 1];
      assert ("0" + digits)[..|digits|] == "0" + init;
      LeadingZero(init);
    }
  }

  /** The ordered-list condition: every line `i` (counting from zero) carries the number `i + 1`. */
  predicate NumberedFromOne(lines: seq<string>)
  {
    forall i :: 0 <= i < |lines| ==> ItemNumber(lines[i]) == Some(i + 1)
  }

  // ------------------------------------------------------------- the cascade

  predicate AllStartWith(lines: seq<string>, prefix: string)
  {
    forall line <- lines :: StartsWith(line, prefix)
  }

  /** The classification `block_to_block_type` computes: the first test that succeeds wins. */
  function BlockTypeOf(markdown: string): BlockType
  {
    var lines := Lines(markdown);
    if IsHeadingStart(markdown) then Heading
    else if StartsWith(markdown, Fence) && EndsWith(markdown, Fence) then Code
    else if AllStartWith(lines, ">") then Quote
    else if AllStartWith(lines, "- ") then UnorderedList
    else if NumberedFromOne(lines) && |lines| > 0 then OrderedList
    else Paragraph
  }

  /** The source's procedure, with its ordered-list loop that clears a flag and
      breaks at the first line that does not carry the expected number. */
  method BlockToBlockType(markdown: string) returns (kind: BlockType)
    ensures kind == BlockTypeOf(markdown)
  {
    var lines := Lines(markdown);
    if IsHeadingStart(markdown) {
      return Heading;
    }
    if StartsWith(markdown, Fence) && EndsWith(markdown, Fence) {
      return Code;
    }
    if forall line <- lines :: StartsWith(line, ">") {
      return Quote;
    }
    if forall line <- lines :: StartsWith(line, "- ") {
      return UnorderedList;
    }
    var isOrderedList := true;
    for i := 0 to |lines|
      invariant isOrderedList
      invariant forall j :: 0 <= j < i ==> ItemNumber(lines[j]) == Some(j + 1)
    {
      var number := ItemNumber(lines[i]);
      if number.None? || number.value != i + 1 {
        isOrderedList := false;
        assert !NumberedFromOne(lines);
        break;
      }
    }
    if isOrderedList && |lines| > 0 {
      return OrderedList;
    }
    return Paragraph;
  }

  // ------------------------------------------------- what the cascade means

  /** One to six '#' and a whitespace character make a heading, whatever follows,
      later lines included. */
  lemma HeadingWhateverFollows(k: nat, c: char, rest: string)
    requires 1 <= k <= 6 && IsWhitespace(c)
    ensures BlockTypeOf(Repeat('#', k) + [c] + rest) == Heading
  {
    var s := Repeat('#', k) + [c] + rest;
    assert s[k] == c;
    assert forall j :: 0 <= j < k ==> s[j] == '#';
    HeadingStartIsPattern(s);
  }

  /** Seven or more leading '#' never make a heading. */
  lemma SevenHashesNotHeading(s: string)
    requires StartsWith(s, "#######")
    ensures BlockTypeOf(s) != Heading
  {
    assert forall j :: 0 <= j < 7 ==> s[j] == "#######"[j];
  }

  /** HEADING exactly when the block matches `^#{1,6}\s`. */
  lemma HeadingIff(s: string)
    ensures BlockTypeOf(s) == Heading <==> HeadingPattern(s)
  {
    HeadingStartIsPattern(s);
  }

  /** CODE exactly when the block is no heading and both starts and ends with three backticks. */
  lemma CodeIff(s: string)
    ensures BlockTypeOf(s) == Code <==>
      !HeadingPattern(s) && StartsWith(s, Fence) && EndsWith(s, Fence)
  {
    HeadingStartIsPattern(s);
  }

  /** QUOTE exactly when no earlier test succeeds and every line starts with '>';
      one line without it defeats the classification. */
  lemma QuoteIff(s: string)
    ensures BlockTypeOf(s) == Quote <==>
      && !HeadingPattern(s)
      && !(StartsWith(s, Fence) && EndsWith(s, Fence))
      && forall line <- Lines(s) :: StartsWith(line, ">")
  {
    HeadingStartIsPattern(s);
  }

  /** UNORDERED_LIST exactly when no earlier test succeeds and every line starts with "- ". */
  lemma UnorderedListIff(s: string)
    ensures BlockTypeOf(s) == UnorderedList <==>
      && !HeadingPattern(s)
      && !(StartsWith(s, Fence) && EndsWith(s, Fence))
      && (exists line <- Lines(s) :: !StartsWith(line, ">"))
      && forall line <- Lines(s) :: StartsWith(line, "- ")
  {
    HeadingStartIsPattern(s);
  }

  /** ORDERED_LIST exactly when no earlier test succeeds and line `i` (from zero)
      matches `^(\d+)\.\s` with the number `i + 1`. */
  lemma OrderedListIff(s: string)
    ensures BlockTypeOf(s) == OrderedList <==>
      && !HeadingPattern(s)
      && !(StartsWith(s, Fence) && EndsWith(s, Fence))
      && (exists line <- Lines(s) :: !StartsWith(line, ">"))
      && (exists line <- Lines(s) :: !StartsWith(line, "- "))
      && forall i :: 0 <= i < |Lines(s)| ==> ItemPattern(Lines(s)[i], i + 1)
  {
    HeadingStartIsPattern(s);
    var lines := Lines(s);
    forall i | 0 <= i < |lines|
      ensures ItemNumber(lines[i]) == Some(i + 1) <==> ItemPattern(lines[i], i + 1)
    {
      ItemNumberIsPattern(lines[i], i + 1);
    }
  }

  /** PARAGRAPH exactly when none of the five tests succeeds. */
  lemma ParagraphIff(s: string)
    ensures BlockTypeOf(s) == Paragraph <==>
      && !HeadingPattern(s)
      && !(StartsWith(s, Fence) && EndsWith(s, Fence))
      && (exists line <- Lines(s) :: !StartsWith(line, ">"))
      && (exists line <- Lines(s) :: !StartsWith(line, "- "))
      && exists i :: 0 <= i < |Lines(s)| && !ItemPattern(Lines(s)[i], i + 1)
  {
    OrderedListIff(s);
  }

  // ------------------------------------------ the cases the test suite pins

  /** The first line of a block starts with the block's first character. */
  lemma FirstLineStart(s: string)
    requires |s| > 0 && s[0] != '\n'
    ensures |Lines(s)[0]| > 0 && Lines(s)[0][0] == s[0]
  {
    assert StartsWith(s, [s[0]]);
    FirstPieceKeepsPrefix(s, '\n', [s[0]]);
  }

  /** A block that starts with '#' but does not match `^#{1,6}\s` (such as
      "#NoSpace" or "####### Too many") falls through every test to PARAGRAPH. */
  lemma HashWithoutHeadingIsParagraph(s: string)
    requires StartsWith(s, "#") && !HeadingPattern(s)
    ensures BlockTypeOf(s) == Paragraph
  {
    HeadingStartIsPattern(s);
    assert s[0] == '#';
    FirstLineStart(s);
    var first := Lines(s)[0];
    assert DigitRun(first, 0) == 0;
    assert ItemNumber(first) != Some(0 + 1);
    FirstCharDiffers(first, ">");
    FirstCharDiffers(first, "- ");
  }

  /** A block whose first character can start none of the special kinds (such as
      "This is just a paragraph" or "Some text\n> Quote line\n- List item") is a
      PARAGRAPH, whatever its later lines hold. */
  lemma OrdinaryStartIsParagraph(s: string)
    requires |s| > 0 && s[0] !in "#`>-\n" && !IsDigit(s[0])
    ensures BlockTypeOf(s) == Paragraph
  {
    FirstLineStart(s);
    var first := Lines(s)[0];
    assert DigitRun(first, 0) == 0;
    assert ItemNumber(first) != Some(0 + 1);
    FirstCharDiffers(s, Fence);
    FirstCharDiffers(first, ">");
    FirstCharDiffers(first, "- ");
  }

  /** Any block that both starts and ends with three backticks is CODE, "```" itself included. */
  lemma FencedIsCode(s: string)
    requires StartsWith(s, Fence) && EndsWith(s, Fence)
    ensures BlockTypeOf(s) == Code
  {
    assert s[0] == '`';
  }

  /** An opening fence without a closing one ("```code but no end") is PARAGRAPH. */
  lemma UnclosedFenceIsParagraph(s: string)
    requires StartsWith(s, Fence) && !EndsWith(s, Fence)
    ensures BlockTypeOf(s) == Paragraph
  {
    assert s[0] == '`';
    FirstLineStart(s);
    var first := Lines(s)[0];
    assert DigitRun(first, 0) == 0;
    assert ItemNumber(first) != Some(0 + 1);
    FirstCharDiffers(first, ">");
    FirstCharDiffers(first, "- ");
  }

  /** A block that starts with '>' is QUOTE when every line does and PARAGRAPH otherwise. */
  lemma QuoteNeedsEveryLine(s: string)
    requires StartsWith(s, ">")
    ensures BlockTypeOf(s) == if AllStartWith(Lines(s), ">") then Quote else Paragraph
  {
    assert s[0] == '>';
    FirstLineStart(s);
    var first := Lines(s)[0];
    assert DigitRun(first, 0) == 0;
    assert ItemNumber(first) != Some(0 + 1);
    FirstCharDiffers(first, "- ");
  }

  /** A block that starts with "- " is UNORDERED_LIST when every line does and PARAGRAPH otherwise. */
  lemma UnorderedNeedsEveryLine(s: string)
    requires StartsWith(s, "- ")
    ensures BlockTypeOf(s) == if AllStartWith(Lines(s), "- ") then UnorderedList else Paragraph
  {
    assert s[0] == '-';
    FirstLineStart(s);
    var first := Lines(s)[0];
    assert DigitRun(first, 0) == 0;
    assert ItemNumber(first) != Some(0 + 1);
    FirstCharDiffers(first, ">");
  }

  /** A block that starts with a digit is ORDERED_LIST when its lines are numbered
      1, 2, 3, ... and PARAGRAPH otherwise. */
  lemma DigitStartIsOrderedOrParagraph(s: string)
    requires |s| > 0 && IsDigit(s[0])
    ensures BlockTypeOf(s) == if NumberedFromOne(Lines(s)) then OrderedList else Paragraph
  {
    FirstLineStart(s);
    var first := Lines(s)[0];
    FirstCharDiffers(first, ">");
    FirstCharDiffers(first, "- ");
    FirstCharDiffers(s, Fence);
  }

  /** The number on a line "d. ..." with one digit `d`. */
  lemma SingleDigitItem(d: char, rest: string)
    requires IsDigit(d)
    ensures ItemNumber([d] + ". " + rest) == Some(d as int - '0' as int)
  {
    var line := [d] + ". " + rest;
    assert DigitRun(line, 0) == 1 by {
      assert line[0] == d && line[1] == '.';
    }
    assert line[..1] == [d];
    assert DecimalValue([d]) == d as int - '0' as int by {
      assert [d][..0] == [];
    }
  }

  /** `int()` accepts a leading zero, so "01. x" carries the number 1. */
  lemma LeadingZeroItem(rest: string)
    ensures ItemNumber("01. " + rest) == Some(1)
  {
    var line := "01. " + rest;
    assert DigitRun(line, 0) == 2 by {
      assert line[0] == '0' && line[1] == '1' && line[2] == '.';
    }
    assert line[..2] == "0" + "1";
    assert DecimalValue("1") == 1 by {
      assert "1"[..0] == [];
    }
    LeadingZero("1");
  }

  /** Three lines without newlines, joined by newlines, split back into themselves. */
  lemma ThreeLines(l0: string, l1: string, l2: string)
    requires '\n' !in l0 && '\n' !in l1 && '\n' !in l2
    ensures Lines(l0 + "\n" + l1 + "\n" + l2) == [l0, l1, l2]
  {
    var rest := l1 + "\n" + l2;
    assert Split(rest, "\n") == [l1, l2] by {
      SplitAtChar(l1, '\n', l2);
      SplitNoChar(l2, '\n');
    }
    assert l0 + "\n" + l1 + "\n" + l2 == l0 + "\n" + rest;
    SplitAtChar(l0, '\n', rest);
  }

  /** Three lines with one-digit numbers `d0`, `d1`, `d2`: ORDERED_LIST exactly when the
      numbers are 1, 2, 3. This covers a strict list, a wrong start ("5. 6. 7."),
      a skipped number ("1. 3. 4.") and a wrong order ("1. 3. 2."). */
  lemma ThreeItemList(d0: char, d1: char, d2: char, a: string, b: string, c: string)
    requires IsDigit(d0) && IsDigit(d1) && IsDigit(d2)
    requires '\n' !in a && '\n' !in b && '\n' !in c
    ensures BlockTypeOf([d0] + ". " + a + "\n" + [d1] + ". " + b + "\n" + [d2] + ". " + c)
      == if d0 == '1' && d1 == '2' && d2 == '3' then OrderedList else Paragraph
  {
    var l0, l1, l2 := [d0] + ". " + a, [d1] + ". " + b, [d2] + ". " + c;
    var lines := [l0, l1, l2];
    var s := [d0] + ". " + a + "\n" + [d1] + ". " + b + "\n" + [d2] + ". " + c;
    assert Lines(s) == lines by {
      assert s == l0 + "\n" + l1 + "\n" + l2;
      assert '\n' !in l0 && '\n' !in l1 && '\n' !in l2;
      ThreeLines(l0, l1, l2);
    }
    assert BlockTypeOf(s) == if NumberedFromOne(lines) then OrderedList else Paragraph by {
      assert s[0] == d0;
      DigitStartIsOrderedOrParagraph(s);
    }
    ThreeItemsNumbered(d0, d1, d2, a, b, c);
  }

  /** Three lines with one-digit numbers are numbered from one exactly when the
      digits are 1, 2, 3. */
  lemma ThreeItemsNumbered(d0: char, d1: char, d2: char, a: string, b: string, c: string)
    requires IsDigit(d0) && IsDigit(d1) && IsDigit(d2)
    ensures NumberedFromOne([[d0] + ". " + a, [d1] + ". " + b, [d2] + ". " + c])
      <==> d0 == '1' && d1 == '2' && d2 == '3'
  {
    var lines := [[d0] + ". " + a, [d1] + ". " + b, [d2] + ". " + c];
    SingleDigitItem(d0, a);
    SingleDigitItem(d1, b);
    SingleDigitItem(d2, c);
    if d0 == '1' && d1 == '2' && d2 == '3' {
      forall i | 0 <= i < 3
        ensures ItemNumber(lines[i]) == Some(i + 1)
      {
      }
    } else if d0 != '1' {
      assert ItemNumber(lines[0]) != Some(0 + 1);
    } else if d1 != '2' {
      assert ItemNumber(lines[1]) != Some(1 + 1);
    } else {
      assert ItemNumber(lines[2]) != Some(2 + 1);
    }
  }

  /** A single line "01. x" is an ORDERED_LIST. */
  lemma LeadingZeroList(rest: string)
    requires '\n' !in rest
    ensures BlockTypeOf("01. " + rest) == OrderedList
  {
    var s := "01. " + rest;
    assert '\n' !in s;
    SplitNoChar(s, '\n');
    LeadingZeroItem(rest);
    DigitStartIsOrderedOrParagraph(s);
  }

  /** The empty block is a PARAGRAPH. */
  lemma EmptyBlockIsParagraph()
    ensures BlockTypeOf("") == Paragraph
  {
    assert Lines("") == [""];
    assert !StartsWith("", ">");
    assert ItemNumber("") == None;
  }
}
