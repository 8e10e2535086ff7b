/** `read_conll`: the lines of a CoNLL-X / CoNLL-U file become sentences, each a list of
    entries headed by the dummy root. Comment lines are skipped, a blank line ends the
    current sentence, multiword-token (`n-m`) and empty-node (`n.k`) lines are skipped,
    and a token line with fewer than 8 tab-separated fields is dropped. */
module Reader {
  import opened Text
  import opened Conll

  // ---------------------------------------------------------------- one line

  predicate IsComment(line: string) {
    StartsWith(line, "#")
  }

  /** The tab-separated fields of a line once its surrounding whitespace is stripped. */
  function Fields(line: string): seq<string> {
    Split(Strip(line), "\t")
  }

  /** A blank line, the reader's `tok == ['']`: a line of whitespace only (see
      `BlankFields`). */
  predicate IsBlank(line: string) {
    AllSpace(line)
  }

  lemma BlankFields(line: string)
    ensures Fields(line) == [""] <==> IsBlank(line)
  {
    SplitBlank(Strip(line), '\t');
    StripEmpty(line);
    assert "\t" == ['\t'];
  }

  /** An id field naming an empty node (`8.1`) or a multiword token (`3-4`). */
  predicate IsExtraId(id: string) {
    '.' in id || '-' in id
  }

  /** What building an entry from the fields of a token line does, in Python's order
      of evaluation: the id is converted first, then the columns up to the head are
      indexed, then the head is converted unless it is `_`, then the relation is
      indexed. `IndexError` is caught by the reader; `ValueError` is not. */
  datatype Parsed = Entry(entry: ConllEntry) | IndexError | ValueError

  function ParseFields(tok: seq<string>): Parsed
    requires |tok| >= 1
  {
    match ParseInt(tok[0])
    case None => ValueError
    case Some(id) =>
      if |tok| < 7 then IndexError
      else if tok[6] != "_" && ParseInt(tok[6]).None? then ValueError
      else if |tok| < 8 then IndexError
      else
        var head := if tok[6] == "_" then -1 else ParseInt(tok[6]).value;
        Entry(NewEntry(id, tok[1], tok[2], tok[3], tok[4], tok[5], head, tok[7]))
  }

  /** How the reader treats a line. `Malformed` is a line on which it raises the
      `ValueError` it does not catch. */
  datatype LineKind = Comment | Blank | Token(entry: ConllEntry) | Skipped | Malformed

  function Kind(line: string): LineKind {
    if IsComment(line) then Comment
    else if Fields(line) == [""] then Blank
    else if IsExtraId(Fields(line)[0]) then Skipped
    else match ParseFields(Fields(line))
      case Entry(e) => Token(e)
      case IndexError => Skipped
      case ValueError => Malformed
  }

  /** Lines on none of which the reader raises an exception it does not catch. */
  predicate WellFormed(lines: seq<string>) {
    forall i :: 0 <= i < |lines| ==> !Kind(lines[i]).Malformed?
  }

  lemma BlankIsNotComment(line: string)
    requires IsBlank(line)
    ensures !IsComment(line) && Strip(line) == ""
  {
    StripEmpty(line);
  }

  /** What an entry read from a line holds: the line is an ordinary token line with at
      least 8 fields, the id is the non-negative integer of the first field, the
      columns are taken in order, a head written `_` is read as -1, and the prediction
      starts at the dummy root. */
  lemma TokenFields(line: string)
    requires Kind(line).Token?
    ensures var e, tok := Kind(line).entry, Fields(line);
      && !IsComment(line) && !IsBlank(line) && !IsExtraId(tok[0]) && |tok| >= 8
      && ParseInt(tok[0]) == Some(e.id) && e.id >= 0
      && e.form == tok[1] && e.lem == Normalize(tok[2]) && e.norm == Normalize(tok[1])
      && e.cpos == tok[3] && e.pos == tok[4] && e.feats == tok[5] && e.relation == tok[7]
      && (tok[6] == "_" ==> e.parentId == -1)
      && (tok[6] != "_" ==> ParseInt(tok[6]) == Some(e.parentId))
      && e.predParentId == 0 && e.predRelation == "root"
  {
    BlankFields(line);
  }

  // ---------------------------------------------------------------- blocks of lines

  type Block = seq<ConllEntry>

  /** The effect of one line on the blocks read so far; the last block is the one being
      filled. */
  function Step(bs: seq<Block>, kind: LineKind): (r: seq<Block>)
    requires |bs| >= 1
    ensures |r| >= 1
  {
    match kind
    case Blank => bs + [[]]
    case Token(e) => bs[..|bs| - 1] + [bs[|bs| - 1] + [e]]
    case _ => bs
  }

  function Fold(bs: seq<Block>, lines: seq<string>): (r: seq<Block>)
    requires |bs| >= 1
    ensures |r| >= 1
    decreases |lines|
  {
    if lines == [] then bs else Step(Fold(bs, lines[..|lines| - 1]), Kind(lines[|lines| - 1]))
  }

  /** The entries of the lines between blank lines, one block per blank line plus one;
      blocks may be empty. */
  function Blocks(lines: seq<string>): (r: seq<Block>)
    ensures |r| >= 1
  {
    Fold([[]], lines)
  }

  /** The sentences made of the non-empty blocks, each headed by the dummy root. */
  function Sentences(bs: seq<Block>): seq<seq<ConllEntry>>
    decreases |bs|
  {
    if bs == [] then []
    else
      var last := bs[|bs| - 1];
      Sentences(bs[..|bs| - 1]) + (if last == [] then [] else [[Root()] + last])
  }

  /** What `read_conll` yields for these lines. */
  function Read(lines: seq<string>): seq<seq<ConllEntry>> {
    Sentences(Blocks(lines))
  }

  // ---------------------------------------------------------------- the reader

  method ReadConll(lines: seq<string>) returns (sentences: seq<seq<ConllEntry>>)
    requires WellFormed(lines)
    ensures sentences == Read(lines)
  {
    sentences := [];
    var tokens := [Root()];
    var i := 0;
    ghost var bs: seq<Block> := [[]];
    assert lines[..0] == [];
    while i < |lines|
      invariant 0 <= i <= |lines|
      invariant bs == Blocks(lines[..i])
      invariant sentences == Sentences(bs[..|bs| - 1]) && tokens == [Root()] + bs[|bs| - 1]
    {
      BlocksSnoc(lines, i);
      sentences, tokens := ReadLine(lines[i], sentences, tokens, bs);
      bs := Blocks(lines[..i + 1]);
      i := i + 1;
    }
    assert lines[..i] == lines;
    StepBlank(bs);
    if |tokens| > 1 {
      sentences := sentences + [tokens];
    }
  }

  /** The body of the reading loop: one line updates the sentences yielded so far and
      the tokens of the sentence being read. */
  method ReadLine(line: string, sentences: seq<seq<ConllEntry>>, tokens: seq<ConllEntry>,
                  ghost bs: seq<Block>)
    returns (sentences': seq<seq<ConllEntry>>, tokens': seq<ConllEntry>)
    requires !Kind(line).Malformed? && |bs| >= 1
    requires sentences == Sentences(bs[..|bs| - 1]) && tokens == [Root()] + bs[|bs| - 1]
    ensures var next := Step(bs, Kind(line));
      sentences' == Sentences(next[..|next| - 1]) && tokens' == [Root()] + next[|next| - 1]
  {
    var kind := ClassifyLine(line);
    sentences', tokens' := sentences, tokens;
    match kind
    case Blank =>
      StepBlank(bs);
      if |tokens| > 1 {
        sentences' := sentences + [tokens];
      }
      tokens' := [Root()];
    case Token(e) =>
      StepToken(bs, e);
      tokens' := tokens + [e];
    case _ =>
  }

  /** The tests the reader makes on a line, in its order: a comment, a blank line, an
      empty node or multiword token, then the entry built from the fields. */
  method ClassifyLine(line: string) returns (kind: LineKind)
    requires !Kind(line).Malformed?
    ensures kind == Kind(line)
    ensures kind == Comment <==> IsComment(line)
    ensures kind == Blank <==> !IsComment(line) && IsBlank(line)
  {
    BlankFields(line);
    if IsComment(line) {
      return Comment;
    }
    var tok := Fields(line);
    if tok == [""] {
      return Blank;
    }
    if IsExtraId(tok[0]) {
      return Skipped;
    }
    match ParseFields(tok)
    case Entry(e) =>
      kind := Token(e);
    case IndexError =>
      kind := Skipped;
    case ValueError =>
      assert false;
  }

  // ---------------------------------------------------------------- lemmas

  lemma BlocksSnoc(lines: seq<string>, i: nat)
    requires i < |lines|
    ensures Blocks(lines[..i + 1]) == Step(Blocks(lines[..i]), Kind(lines[i]))
  {
    assert lines[..i + 1][..i] == lines[..i];
  }

  /** After a blank line: the block just closed joins the finished ones and an empty
      block is opened. */
  lemma StepBlank(bs: seq<Block>)
    requires |bs| >= 1
    ensures var next, n := Step(bs, Blank), |bs| - 1;
      && next[..|next| - 1] == bs && next[|next| - 1] == []
      && Sentences(bs) == Sentences(bs[..n]) + (if bs[n] == [] then [] else [[Root()] + bs[n]])
  {
    assert bs[..|bs| - 1] + [bs[|bs| - 1]] == bs;
  }

  /** After a token line: the entry joins the block being filled. */
  lemma StepToken(bs: seq<Block>, e: ConllEntry)
    requires |bs| >= 1
    ensures var next, n := Step(bs, Token(e)), |bs| - 1;
      next[..|next| - 1] == bs[..n] && next[|next| - 1] == bs[n] + [e]
  {
  }

  lemma SentencesSnoc(bs: seq<Block>, b: Block)
    ensures Sentences(bs + [b]) == Sentences(bs) + (if b == [] then [] else [[Root()] + b])
  {
    assert (bs + [b])[..|bs|] == bs;
  }

  lemma {:induction false} SentencesAppend(p: seq<Block>, q: seq<Block>)
    ensures Sentences(p + q) == Sentences(p) + Sentences(q)
    decreases |q|
  {
    if q == [] {
      assert p + q == p;
    } else {
      var n := |q| - 1;
      SentencesAppend(p, q[..n]);
      assert q == q[..n] + [q[n]];
      assert p + q == (p + q[..n]) + [q[n]];
      SentencesSnoc(p + q[..n], q[n]);
      SentencesSnoc(q[..n], q[n]);
    }
  }

  lemma {:induction false} FoldAppend(bs: seq<Block>, p: seq<string>, q: seq<string>)
    requires |bs| >= 1
    ensures Fold(bs, p + q) == Fold(Fold(bs, p), q)
    decreases |q|
  {
    if q == [] {
      assert p + q == p;
    } else {
      var n := |q| - 1;
      FoldAppend(bs, p, q[..n]);
      assert (p + q)[..|p + q| - 1] == p + q[..n];
      assert (p + q)[|p + q| - 1] == q[n];
    }
  }

  lemma StepPrefix(p: seq<Block>, q: seq<Block>, kind: LineKind)
    requires |q| >= 1
    ensures Step(p + q, kind) == p + Step(q, kind)
  {
    var pq := p + q;
    assert pq[|pq| - 1] == q[|q| - 1];
    assert pq[..|pq| - 1] == p + q[..|q| - 1];
  }

  lemma {:induction false} FoldPrefix(p: seq<Block>, q: seq<Block>, lines: seq<string>)
    requires |q| >= 1
    ensures Fold(p + q, lines) == p + Fold(q, lines)
    decreases |lines|
  {
    if lines != [] {
      var n := |lines| - 1;
      FoldPrefix(p, q, lines[..n]);
      StepPrefix(p, Fold(q, lines[..n]), Kind(lines[n]));
    }
  }

  lemma FoldOne(bs: seq<Block>, line: string)
    requires |bs| >= 1
    ensures Fold(bs, [line]) == Step(bs, Kind(line))
  {
    assert [line][..0] == [];
  }

  /** A blank line ends a sentence: the sentences of `a`, the blank line and `b` are
      those of `a` followed by those of `b`. Runs of blank lines therefore yield
      nothing, and no sentence spans a blank line. */
  lemma ReadAtBlank(a: seq<string>, line: string, b: seq<string>)
    requires IsBlank(line)
    ensures Read(a + [line] + b) == Read(a) + Read(b)
  {
    BlankIsNotComment(line);
    BlankFields(line);
    assert Kind(line) == Blank;
    FoldAppend([[]], a + [line], b);
    FoldAppend([[]], a, [line]);
    FoldOne(Blocks(a), line);
    FoldPrefix(Blocks(a), [[]], b);
    SentencesAppend(Blocks(a), Blocks(b));
  }

  /** A comment line, a multiword or empty-node line and a token line with fewer than 8
      fields are skipped: removing them changes nothing. */
  lemma ReadSkips(a: seq<string>, line: string, b: seq<string>)
    requires Kind(line) == Comment || Kind(line) == Skipped
    ensures Read(a + [line] + b) == Read(a + b)
  {
    FoldAppend([[]], a + [line], b);
    FoldAppend([[]], a, [line]);
    FoldOne(Blocks(a), line);
    FoldAppend([[]], a, b);
  }

  predicate NoBlank(lines: seq<string>) {
    forall i :: 0 <= i < |lines| ==> !IsBlank(lines[i])
  }

  /** The entries of the token lines, in order. */
  function Entries(lines: seq<string>): Block
    decreases |lines|
  {
    if lines == [] then []
    else
      var kind := Kind(lines[|lines| - 1]);
      Entries(lines[..|lines| - 1]) + (if kind.Token? then [kind.entry] else [])
  }

  lemma {:induction false} BlocksOfNoBlank(lines: seq<string>)
    requires NoBlank(lines)
    ensures Blocks(lines) == [Entries(lines)]
    decreases |lines|
  {
    if lines != [] {
      var n := |lines| - 1;
      var pre := lines[..n];
      BlocksOfNoBlank(pre);
      var kind := Kind(lines[n]);
      assert kind != Blank by { BlankFields(lines[n]); }
      var e := Entries(pre);
      assert Blocks(lines) == Step([e], kind);
      assert Entries(lines) == e + (if kind.Token? then [kind.entry] else []);
      if kind.Token? {
        assert Step([e], kind) == [e + [kind.entry]];
        assert Entries(lines) == e + [kind.entry];
      } else {
        assert Step([e], kind) == [e];
        assert Entries(lines) == e;
      }
    } else {
      assert Blocks(lines) == [[]];
      assert Entries(lines) == [];
    }
  }

  /** Lines without a blank line form one sentence, with or without a blank line after
      them: the last sentence of a file is yielded even when no blank line ends it. */
  lemma ReadWithoutBlank(lines: seq<string>)
    requires NoBlank(lines)
    ensures Read(lines) == if Entries(lines) == [] then [] else [[Root()] + Entries(lines)]
  {
    BlocksOfNoBlank(lines);
    SentencesSnoc([], Entries(lines));
    assert [] + [Entries(lines)] == [Entries(lines)];
  }

  /** The blocks' entries one after the other. */
  function Flatten(bs: seq<Block>): Block
    decreases |bs|
  {
    if bs == [] then [] else Flatten(bs[..|bs| - 1]) + bs[|bs| - 1]
  }

  /** The real tokens of the sentences, one sentence after the other. */
  function Tokens(ss: seq<seq<ConllEntry>>): seq<ConllEntry>
    decreases |ss|
  {
    if ss == [] then []
    else
      var s := ss[|ss| - 1];
      Tokens(ss[..|ss| - 1]) + (if s == [] then [] else s[1..])
  }

  lemma {:induction false} FlattenAppend(p: seq<Block>, q: seq<Block>)
    ensures Flatten(p + q) == Flatten(p) + Flatten(q)
    decreases |q|
  {
    if q == [] {
      assert p + q == p;
    } else {
      var n := |q| - 1;
      FlattenAppend(p, q[..n]);
      assert (p + q)[..|p + q| - 1] == p + q[..n];
    }
  }

  lemma FlattenSingle(b: Block)
    ensures Flatten([b]) == b
  {
    assert [b][..0] == [];
  }

  lemma FlattenSnoc(bs: seq<Block>, b: Block)
    ensures Flatten(bs + [b]) == Flatten(bs) + b
  {
    assert (bs + [b])[..|bs|] == bs;
  }

  lemma FlattenStep(bs: seq<Block>, kind: LineKind)
    requires |bs| >= 1
    ensures Flatten(Step(bs, kind)) == Flatten(bs) + (if kind.Token? then [kind.entry] else [])
  {
    if kind.Blank? {
      FlattenSnoc(bs, []);
    } else if kind.Token? {
      FlattenTokenStep(bs, kind.entry);
    }
  }

  lemma FlattenTokenStep(bs: seq<Block>, e: ConllEntry)
    requires |bs| >= 1
    ensures Flatten(Step(bs, Token(e))) == Flatten(bs) + [e]
  {
    var n := |bs| - 1;
    FlattenSnoc(bs[..n], bs[n] + [e]);
    assert Flatten(bs) == Flatten(bs[..n]) + bs[n];
  }

  lemma {:induction false} FlattenBlocks(lines: seq<string>)
    ensures Flatten(Blocks(lines)) == Entries(lines)
    decreases |lines|
  {
    if lines == [] {
      FlattenSingle([]);
    } else {
      var n := |lines| - 1;
      FlattenBlocks(lines[..n]);
      FlattenStep(Blocks(lines[..n]), Kind(lines[n]));
    }
  }

  lemma {:induction false} TokensOfSentences(bs: seq<Block>)
    ensures Tokens(Sentences(bs)) == Flatten(bs)
    decreases |bs|
  {
    if bs != [] {
      var n := |bs| - 1;
      TokensOfSentences(bs[..n]);
      var ps := Sentences(bs[..n]);
      if bs[n] == [] {
        assert Sentences(bs) == ps;
      } else {
        var s := [Root()] + bs[n];
        assert Sentences(bs) == ps + [s];
        assert (ps + [s])[..|ps|] == ps;
        assert s[1..] == bs[n];
      }
    }
  }

  /** No token is lost or reordered: the real tokens of the sentences read, one sentence
      after the other, are exactly the entries of the token lines in file order. */
  lemma ReadTokens(lines: seq<string>)
    ensures Tokens(Read(lines)) == Entries(lines)
  {
    TokensOfSentences(Blocks(lines));
    FlattenBlocks(lines);
  }

  lemma {:induction false} SentencesShape(bs: seq<Block>)
    ensures forall k :: 0 <= k < |Sentences(bs)| ==>
      |Sentences(bs)[k]| >= 2 && Sentences(bs)[k][0] == Root()
    decreases |bs|
  {
    if bs != [] {
      var n := |bs| - 1;
      SentencesShape(bs[..n]);
      var ps := Sentences(bs[..n]);
      if bs[n] != [] {
        var s := [Root()] + bs[n];
        assert Sentences(bs) == ps + [s];
      } else {
        assert Sentences(bs) == ps;
      }
    }
  }

  /** Every sentence read starts with the dummy root and has at least one real token. */
  lemma ReadShape(lines: seq<string>)
    ensures forall k :: 0 <= k < |Read(lines)| ==>
      |Read(lines)[k]| >= 2 && Read(lines)[k][0] == Root()
  {
    SentencesShape(Blocks(lines));
  }
}
