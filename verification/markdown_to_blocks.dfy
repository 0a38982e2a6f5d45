/** `markdown_to_blocks`: a document is cut at every literal "\n\n", each piece
    is stripped, and the pieces left empty are dropped. */
module MarkdownToBlocks {
  import opened PyStr

  /** The literal block separator. Runs of three or more newlines are not one
      separator: the newlines left over end up at a piece's edge and are stripped. */
  const Separator: string := "\n\n"

  /** `f` applied to each element, the results concatenated in order. */
  function FlatMap<T, U>(f: T -> seq<U>, xs: seq<T>): seq<U>
  {
    if xs == [] then [] else FlatMap(f, xs[..|xs| - 1]) + f(xs[|xs| - 1])
  }

  /** Mapping a concatenation concatenates the results, in order. */
  lemma {:induction false} FlatMapAppend<T, U>(f: T -> seq<U>, xs: seq<T>, ys: seq<T>)
    ensures FlatMap(f, xs + ys) == FlatMap(f, xs) + FlatMap(f, ys)
    decreases |ys|
  {
    if ys == [] {
      assert xs + ys == xs;
    } else {
      var init, y := ys[..|ys| - 1], ys[|ys| - 1];
      assert (xs + ys)[..|xs + ys| - 1] == xs + init;
      assert (xs + ys)[|xs + ys| - 1] == y;
      FlatMapAppend(f, xs, init);
    }
  }

  /** The blocks kept from a list of split pieces, in order: each piece stripped,
      the ones left empty dropped. */
  function KeepBlocks(pieces: seq<string>): seq<string>
  {
    FlatMap(Kept, pieces)
  }

  /** What one piece contributes: its strip, unless that is empty. */
  function Kept(piece: string): (blocks: seq<string>)
    ensures |blocks| <= 1
    ensures forall b <- blocks :: b != [] && IsStripped(b) && b == Strip(piece)
  {
    var block := Strip(piece);
    if block == [] then [] else [block]
  }

  /** There are at most as many kept blocks as pieces, and every kept block is
      non-empty, stripped, and the strip of one of the pieces. */
  lemma {:induction false} KeepBlocksSound(pieces: seq<string>)
    ensures |KeepBlocks(pieces)| <= |pieces|
    ensures forall b <- KeepBlocks(pieces) :: b != [] && IsStripped(b) && exists p <- pieces :: b == Strip(p)
  {
    if pieces != [] {
      var init, last := pieces[..|pieces| - 1], pieces[|pieces| - 1];
      KeepBlocksSound(init);
      assert KeepBlocks(pieces) == KeepBlocks(init) + Kept(last);
      forall b <- KeepBlocks(pieces)
        ensures b != [] && IsStripped(b) && exists p <- pieces :: b == Strip(p)
      {
        if b in KeepBlocks(init) {
          var p :| p in init && b == Strip(p);
          assert p in pieces;
        } else {
          assert b in Kept(last);
          assert last in pieces;
        }
      }
    }
  }

  /** What `markdown_to_blocks(markdown)` returns. */
  function Blocks(markdown: string): seq<string>
  {
    KeepBlocks(Split(markdown, Separator))
  }

  /** The source's loop: split, then strip each piece and append the non-empty ones. */
  method MarkdownToBlocks(markdown: string) returns (blocks: seq<string>)
    ensures blocks == Blocks(markdown)
  {
    var pieces := Split(markdown, Separator);
    blocks := [];
    for k := 0 to |pieces|
      invariant blocks == KeepBlocks(pieces[..k])
    {
      assert pieces[..k + 1][..k] == pieces[..k];
      var block := Strip(pieces[k]);
      if block == [] {
        continue;
      }
      blocks := blocks + [block];
    }
    assert pieces[..|pieces|] == pieces;
  }

  /** A single piece keeps what it contributes. */
  lemma KeepOne(piece: string)
    ensures KeepBlocks([piece]) == Kept(piece)
  {
    assert [piece][..0] == [];
    assert FlatMap(Kept, [piece]) == FlatMap(Kept, []) + Kept(piece);
    assert FlatMap(Kept, []) + Kept(piece) == Kept(piece);
  }

  /** Keeping blocks commutes with concatenation of the piece list, so the blocks
      come out in the order of the pieces they were cut from. */
  lemma KeepBlocksAppend(ps: seq<string>, qs: seq<string>)
    ensures KeepBlocks(ps + qs) == KeepBlocks(ps) + KeepBlocks(qs)
  {
    FlatMapAppend(Kept, ps, qs);
  }

  /** Every block is non-empty, stripped, free of the separator and a verbatim
      contiguous part of the document (inner single newlines and indentation kept);
      there are no more blocks than split pieces. */
  lemma BlocksWellFormed(markdown: string)
    ensures |Blocks(markdown)| <= |Split(markdown, Separator)|
    ensures forall b <- Blocks(markdown) ::
      b != [] && IsStripped(b) && b == Strip(b) && !Contains(b, Separator) && Contains(markdown, b)
  {
    var pieces := Split(markdown, Separator);
    SplitPieces(markdown, Separator);
    KeepBlocksSound(pieces);
    forall b <- Blocks(markdown)
      ensures !Contains(b, Separator) && Contains(markdown, b)
    {
      var p :| p in pieces && b == Strip(p);
      ContainsTransitive(markdown, p, b);
      if Contains(b, Separator) {
        ContainsTransitive(p, b, Separator);
      }
    }
  }

  lemma {:induction false} KeepNothing(pieces: seq<string>)
    requires forall p <- pieces :: Strip(p) == []
    ensures KeepBlocks(pieces) == []
  {
    if pieces != [] {
      KeepNothing(pieces[..|pieces| - 1]);
    }
  }

  /** Empty or whitespace-only input has no blocks. */
  lemma BlankHasNoBlocks(markdown: string)
    requires AllWhitespace(markdown)
    ensures Blocks(markdown) == []
  {
    var pieces := Split(markdown, Separator);
    SplitPieces(markdown, Separator);
    forall p <- pieces
      ensures Strip(p) == []
    {
      ContainsAllWhitespace(markdown, p);
    }
    KeepNothing(pieces);
  }

  /** Non-blank input without the separator is one block: the input stripped. */
  lemma SingleBlock(markdown: string)
    requires !Contains(markdown, Separator) && !AllWhitespace(markdown)
    ensures Blocks(markdown) == [Strip(markdown)]
  {
    SplitWithoutSeparator(markdown, Separator);
    KeepOne(markdown);
  }

  /** Splitting a block again gives back exactly that block. */
  lemma BlocksIdempotent(markdown: string)
    ensures forall b <- Blocks(markdown) :: Blocks(b) == [b]
  {
    BlocksWellFormed(markdown);
    forall b <- Blocks(markdown)
      ensures Blocks(b) == [b]
    {
      SplitWithoutSeparator(b, Separator);
      KeepOne(b);
    }
  }

  /** Newlines in front of a block that starts a piece only yield empty pieces
      and one piece that strips to the block. */
  lemma {:induction false} NewlinesThenBlock(k: nat, b: string)
    requires b != [] && IsStripped(b) && !Contains(b, Separator)
    ensures KeepBlocks(Split(Repeat('\n', k) + b, Separator)) == [b]
    decreases k
  {
    var s := Repeat('\n', k) + b;
    if k == 0 {
      assert s == b;
      SplitWithoutSeparator(b, Separator);
      KeepOne(b);
    } else if k == 1 {
      NewlineThenBlock(b);
    } else {
      var rest := s[2..];
      assert Split(s, Separator) == [""] + Split(rest, Separator) by {
        assert OccursAt(s, Separator, 0);
        SplitAtFirst(s, Separator, 0);
      }
      assert rest == Repeat('\n', k - 2) + b;
      NewlinesThenBlock(k - 2, b);
      KeepBlocksAppend([""], Split(rest, Separator));
      KeepOne("");
    }
  }

  /** One newline in front of a block is no separator, and stripping removes it. */
  lemma NewlineThenBlock(b: string)
    requires b != [] && IsStripped(b) && !Contains(b, Separator)
    ensures KeepBlocks(Split(Repeat('\n', 1) + b, Separator)) == [b]
  {
    var s := Repeat('\n', 1) + b;
    assert s == "\n" + b;
    assert !Contains(s, Separator) by {
      forall j | 0 <= j <= |s|
        ensures !OccursAt(s, Separator, j)
      {
        if j == 0 {
          assert s[1] == b[0];
        } else if j + 2 <= |s| {
          assert s[j..j + 2] == b[j - 1..j + 1];
          assert !OccursAt(b, Separator, j - 1);
        }
      }
    }
    SplitWithoutSeparator(s, Separator);
    KeepOne(s);
    StripAfterWhitespace("\n", b);
  }

  /** A piece that holds no separator and does not end in a newline is cut off
      at the separator that follows it. */
  lemma PieceThenSeparator(p: string, t: string)
    requires !Contains(p, Separator) && (p == [] || p[|p| - 1] != '\n')
    ensures Split(p + Separator + t, Separator) == [p] + Split(t, Separator)
  {
    var s := p + Separator + t;
    assert OccursAt(s, Separator, |p|) by {
      assert s[|p|..|p| + 2] == Separator;
    }
    forall j | 0 <= j < |p|
      ensures !OccursAt(s, Separator, j)
    {
      if j + 2 <= |p| {
        assert s[j..j + 2] == p[j..j + 2];
        assert !OccursAt(p, Separator, j);
      } else {
        assert s[j] == p[|p| - 1];
        assert s[j..j + 2][0] == s[j];
      }
    }
    SplitAtFirst(s, Separator, |p|);
    assert s[..|p|] == p;
    assert s[|p| + 2..] == t;
  }

  /** Pieces free of the separator, none but the last ending in a newline, are
      recovered by splitting what they join to. */
  lemma {:induction false} SplitJoinPieces(pieces: seq<string>)
    requires |pieces| >= 1
    requires forall i :: 0 <= i < |pieces| ==> !Contains(pieces[i], Separator)
    requires forall i :: 0 <= i < |pieces| - 1 ==> pieces[i] == [] || pieces[i][|pieces[i]| - 1] != '\n'
    ensures Split(Join(pieces, Separator), Separator) == pieces
    decreases |pieces|
  {
    if |pieces| == 1 {
      SplitWithoutSeparator(pieces[0], Separator);
    } else {
      var tail := pieces[1..];
      assert forall i :: 0 <= i < |tail| ==> tail[i] == pieces[i + 1];
      SplitJoinPieces(tail);
      PieceThenSeparator(pieces[0], Join(tail, Separator));
      assert [pieces[0]] + tail == pieces;
    }
  }

  /** A document written as pieces joined by the separator, each piece free of it
      and none but the last ending in a newline, yields each non-blank piece
      stripped, in order: indentation at the edges goes, inner lines stay. */
  lemma BlocksOfJoin(pieces: seq<string>)
    requires |pieces| >= 1
    requires forall i :: 0 <= i < |pieces| ==> !Contains(pieces[i], Separator)
    requires forall i :: 0 <= i < |pieces| - 1 ==> pieces[i] == [] || pieces[i][|pieces[i]| - 1] != '\n'
    ensures Blocks(Join(pieces, Separator)) == KeepBlocks(pieces)
  {
    SplitJoinPieces(pieces);
  }

  /** Two blocks separated by any run of two or more newlines come out as exactly
      those two blocks: the newlines beyond the first separator only leave empty
      or whitespace-edged pieces behind, which stripping removes. */
  lemma NewlineRun(a: string, b: string, k: nat)
    requires a != [] && IsStripped(a) && !Contains(a, Separator)
    requires b != [] && IsStripped(b) && !Contains(b, Separator)
    requires k >= 2
    ensures Blocks(a + Repeat('\n', k) + b) == [a, b]
  {
    var rest := Repeat('\n', k - 2) + b;
    assert Split(a + Repeat('\n', k) + b, Separator) == [a] + Split(rest, Separator) by {
      assert a + Repeat('\n', k) + b == a + Separator + rest;
      PieceThenSeparator(a, rest);
    }
    assert KeepBlocks([a]) == [a] by {
      KeepOne(a);
    }
    NewlinesThenBlock(k - 2, b);
    KeepBlocksAppend([a], Split(rest, Separator));
  }
}
