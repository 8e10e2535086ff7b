/** The single-root repair: `get_rooted` lists the tokens of a sentence block attached to
    the dummy root, `get_new_single_root` picks the one to keep there, and
    `transform_to_single_root` rewrites every block with more than one such token so that
    the others hang from the chosen one. */
module SingleRoot {
  import opened Text
  import opened Reader

  /** The CoNLL-U column numbers and values the repair uses (`UD_ID_COLUMN`,
      `UD_CTAG_COLUMN`, `UD_HEAD_COLUMN`, `DUMMY_ROOT`, `UD_CTAG_VERB`). */
  const IdColumn := 0
  const CtagColumn := 3
  const HeadColumn := 6
  const DummyRoot := 0
  const CtagVerb := "VERB"

  /** `(identifier, tag, head)` */
  datatype Rooted = Rooted(id: int, tag: string, head: int)

  // ---------------------------------------------------------------- get_rooted

  /** The lines of a block, split on the newline only. */
  function Lines(block: string): seq<string> {
    Split(block, "\n")
  }

  /** `get_rooted` splits a line on tabs without stripping it. Once the id converts, the
      tag and the head are indexed, and the `IndexError` of a line with fewer than seven
      fields is not caught. */
  predicate RootedSafeLine(line: string) {
    var ls := Split(line, "\t");
    ParseInt(ls[IdColumn]).Some? ==> |ls| > HeadColumn
  }

  predicate RootedSafe(lines: seq<string>) {
    forall i :: 0 <= i < |lines| ==> RootedSafeLine(lines[i])
  }

  /** A line with an integer id whose head is the integer of the dummy root. */
  predicate IsRootedLine(line: string) {
    var ls := Split(line, "\t");
    |ls| > HeadColumn && ParseInt(ls[IdColumn]).Some? && ParseInt(ls[HeadColumn]) == Some(DummyRoot)
  }

  function RootedEntry(line: string): (e: Rooted)
    requires IsRootedLine(line)
    ensures e.head == DummyRoot
  {
    var ls := Split(line, "\t");
    Rooted(ParseInt(ls[IdColumn]).value, ls[CtagColumn], DummyRoot)
  }

  /** What one line adds to the list. */
  function LineRooted(line: string): seq<Rooted> {
    if IsRootedLine(line) then [RootedEntry(line)] else []
  }

  /** `[f(x) for x in xs]` */
  function Map<A, B>(f: A -> B, xs: seq<A>): seq<B> {
    seq(|xs|, i requires 0 <= i < |xs| => f(xs[i]))
  }

  lemma MapSnoc<A, B>(f: A -> B, xs: seq<A>, j: nat)
    requires j < |xs|
    ensures Map(f, xs[..j + 1]) == Map(f, xs[..j]) + [f(xs[j])]
  {
  }

  lemma MapAppend<A, B>(f: A -> B, xs: seq<A>, ys: seq<A>)
    ensures Map(f, xs + ys) == Map(f, xs) + Map(f, ys)
  {
  }

  /** The lists of a sequence of lists, one after the other. */
  function Flat(xs: seq<seq<Rooted>>): seq<Rooted>
    decreases |xs|
  {
    if xs == [] then [] else Flat(xs[..|xs| - 1]) + xs[|xs| - 1]
  }

  /** What `get_rooted` collects from the lines, each line contributing in turn (a line it
      would fail on contributes nothing). */
  function RootedOf(lines: seq<string>): seq<Rooted> {
    Flat(Map(LineRooted, lines))
  }

  method GetRooted(conll: string) returns (rooted: seq<Rooted>)
    requires RootedSafe(Lines(conll))
    ensures rooted == RootedOf(Lines(conll))
  {
    var lines := Split(conll, "\n");
    rooted := [];
    var i := 0;
    while i < |lines|
      invariant 0 <= i <= |lines|
      invariant rooted == RootedOf(lines[..i])
    {
      RootedSnoc(lines, i);
      var ls := Split(lines[i], "\t");
      var identifier := ParseInt(ls[IdColumn]);
      if identifier.Some? {
        var tag := ls[CtagColumn];
        var head := ParseInt(ls[HeadColumn]);
        if head.Some? && head.value == DummyRoot {
          rooted := rooted + [Rooted(identifier.value, tag, head.value)];
        }
      }
      i := i + 1;
    }
    assert lines[..i] == lines;
  }

  lemma RootedSnoc(lines: seq<string>, i: nat)
    requires i < |lines|
    ensures RootedOf(lines[..i + 1]) == RootedOf(lines[..i]) + LineRooted(lines[i])
  {
    MapSnoc(LineRooted, lines, i);
    var xs := Map(LineRooted, lines[..i]);
    assert (xs + [LineRooted(lines[i])])[..i] == xs;
  }

  lemma {:induction false} FlatAppend(p: seq<seq<Rooted>>, q: seq<seq<Rooted>>)
    ensures Flat(p + q) == Flat(p) + Flat(q)
    decreases |q|
  {
    if q == [] {
      assert p + q == p;
    } else {
      var n := |q| - 1;
      FlatAppend(p, q[..n]);
      assert (p + q)[..|p + q| - 1] == p + q[..n];
    }
  }

  lemma {:induction false} FlatMembers(xs: seq<seq<Rooted>>, e: Rooted)
    ensures e in Flat(xs) <==> exists i :: 0 <= i < |xs| && e in xs[i]
    decreases |xs|
  {
    if xs != [] {
      var n := |xs| - 1;
      FlatMembers(xs[..n], e);
      if e in Flat(xs[..n]) {
        var i :| 0 <= i < n && e in xs[..n][i];
        assert e in xs[i];
      }
    }
  }

  /** The lines of two pieces of text contribute in order: the rooted entries of
      `a + b` are those of `a` followed by those of `b`. */
  lemma RootedAppend(a: seq<string>, b: seq<string>)
    ensures RootedOf(a + b) == RootedOf(a) + RootedOf(b)
  {
    MapAppend(LineRooted, a, b);
    FlatAppend(Map(LineRooted, a), Map(LineRooted, b));
  }

  /** Every collected entry comes from a line with an integer id and the dummy root as
      head. */
  lemma RootedSound(lines: seq<string>, e: Rooted)
    requires e in RootedOf(lines)
    ensures exists i :: 0 <= i < |lines| && IsRootedLine(lines[i]) && e == RootedEntry(lines[i])
  {
    var xs := Map(LineRooted, lines);
    FlatMembers(xs, e);
    var i :| 0 <= i < |xs| && e in xs[i];
    assert xs[i] == LineRooted(lines[i]);
  }

  /** Every line with an integer id and the dummy root as head is collected. */
  lemma RootedComplete(lines: seq<string>, i: nat)
    requires i < |lines| && IsRootedLine(lines[i])
    ensures RootedEntry(lines[i]) in RootedOf(lines)
  {
    var xs := Map(LineRooted, lines);
    assert xs[i] == LineRooted(lines[i]);
    FlatMembers(xs, RootedEntry(lines[i]));
  }

  /** A line `get_rooted` collects is a token line for the repair too: neither blank nor
      a comment, and its id and head, taken from the stripped line, have the same
      values as in the raw line. Whitespace before the id cannot hold a tab (the id
      would then be blank), and trailing whitespace lies beyond the head's digits. */
  lemma RootedLineFields(line: string)
    requires IsRootedLine(line)
    ensures !IsBlank(line) && !IsComment(line)
    ensures |Fields(line)| > HeadColumn
    ensures ParseInt(Fields(line)[IdColumn]) == ParseInt(Split(line, "\t")[IdColumn])
    ensures ParseInt(Fields(line)[HeadColumn]) == ParseInt(Split(line, "\t")[HeadColumn])
  {
    RootedNotComment(line);
    var w1, p, r := PaddedPieces(line);
    GluedFields(Split(line, "\t"), w1, p, Fields(line), r);
    BlankFields(line);
  }

  /** The id and head columns of raw pieces glued from whitespace pieces `p`, the
      fields `f` and whitespace pieces `r` are those of `f`, once both hold integers. */
  lemma GluedFields(raw: seq<string>, w1: string, p: seq<string>, f: seq<string>, r: seq<string>)
    requires |p| >= 1 && |f| >= 1 && |r| >= 1
    requires forall i :: 0 <= i < |p| ==> AllSpace(p[i])
    requires forall i :: 0 <= i < |r| ==> AllSpace(r[i])
    requires AllSpace(w1) && (|p| == 1 ==> p[0] == w1)
    requires raw == Glue(p, Glue(f, r))
    requires |raw| > HeadColumn && ParseInt(raw[IdColumn]).Some? && ParseInt(raw[HeadColumn]).Some?
    ensures |f| > HeadColumn
    ensures ParseInt(f[IdColumn]) == ParseInt(raw[IdColumn])
    ensures ParseInt(f[HeadColumn]) == ParseInt(raw[HeadColumn])
  {
    GluedAt(p, Glue(f, r), IdColumn);
    if |p| > 1 {
      ParseSpaces(p[IdColumn]);
      assert false;
    }
    GluedAt(p, Glue(f, r), HeadColumn);
    GluedAt(f, r, IdColumn);
    GluedAt(f, r, HeadColumn);
    if |f| <= HeadColumn {
      ParseSpaces(r[HeadColumn - |f| + 1]);
      assert false;
    }
    ParseLeading(w1, f[IdColumn]);
    if |f| - 1 == HeadColumn {
      ParseTrailing(f[HeadColumn], r[0]);
    }
  }

  /** The raw tab-separated pieces of a line, in terms of those of its strip: whitespace
      pieces `p` before (the first glued to the first field), whitespace pieces `r`
      after (the first glued to the last field). */
  lemma PaddedPieces(line: string) returns (w1: string, p: seq<string>, r: seq<string>)
    ensures |p| >= 1 && |r| >= 1
    ensures forall i :: 0 <= i < |p| ==> AllSpace(p[i])
    ensures forall i :: 0 <= i < |r| ==> AllSpace(r[i])
    ensures AllSpace(w1) && (|p| == 1 ==> p[0] == w1)
    ensures Split(line, "\t") == Glue(p, Glue(Fields(line), r))
  {
    var w2;
    w1, w2 := StripParts(line);
    var s := Strip(line);
    p, r := Split(w1, "\t"), Split(w2, "\t");
    assert line == w1 + (s + w2);
    SplitConcat(w1, s + w2, '\t');
    SplitConcat(s, w2, '\t');
    SplitSpaces(w1, '\t');
    SplitSpaces(w2, '\t');
    JoinSplit(w1, "\t");
  }

  /** A line whose first raw field is an integer is not a comment. */
  lemma RootedNotComment(line: string)
    requires ParseInt(Split(line, "\t")[IdColumn]).Some?
    ensures !IsComment(line)
  {
    if IsComment(line) {
      var raw := Split(line, "\t");
      assert line[..1] == "#" && line[..1] != "\t";
      var t := Split(line[1..], "\t");
      assert raw == [[line[0]] + t[0]] + t[1..];
      ParseHash(raw[IdColumn]);
    }
  }

  /** The chosen token's line keeps the dummy root as its head through the repair. */
  lemma ChosenStaysRoot(line: string, frv: int)
    requires IsRootedLine(line) && RootedEntry(line).id == frv && RepairSafeLine(line)
    ensures var f := Fields(RepairLine(line, frv));
      |f| > HeadColumn && ParseInt(f[HeadColumn]) == Some(DummyRoot) && ParseInt(f[IdColumn]) == Some(frv)
  {
    RootedLineFields(line);
    assert !Moves(line, frv);
    RepairLineFields(line, frv);
  }

  // ---------------------------------------------------------------- get_new_single_root

  predicate IsRootedVerb(e: Rooted) {
    e.head == DummyRoot && e.tag == CtagVerb
  }

  /** The scan of `get_new_single_root`: the id of the first root-attached verb. */
  function FirstRootedVerb(es: seq<Rooted>): (r: Option<int>)
    ensures r.None? <==> forall i :: 0 <= i < |es| ==> !IsRootedVerb(es[i])
    ensures r.Some? ==>
      exists i :: (0 <= i < |es| && IsRootedVerb(es[i]) && es[i].id == r.value
                   && forall j :: 0 <= j < i ==> !IsRootedVerb(es[j]))
    decreases |es|
  {
    if es == [] then None
    else if IsRootedVerb(es[0]) then Some(es[0].id)
    else
      var r := FirstRootedVerb(es[1..]);
      assert forall i :: 1 <= i < |es| ==> es[i] == es[1..][i - 1];
      r
  }

  /** `get_new_single_root`: the id of the first element attached to the dummy root with
      the verb tag, or the id of the first element when there is none. The list must
      not be empty. */
  function NewSingleRoot(es: seq<Rooted>): (r: int)
    requires |es| >= 1
    ensures exists i :: 0 <= i < |es| && es[i].id == r
    ensures (forall i :: 0 <= i < |es| ==> !IsRootedVerb(es[i])) ==> r == es[0].id
    ensures forall i ::
      (0 <= i < |es| && IsRootedVerb(es[i]) && (forall j :: 0 <= j < i ==> !IsRootedVerb(es[j])))
        ==> r == es[i].id
  {
    match FirstRootedVerb(es)
    case Some(id) => id
    case None => es[0].id
  }

  // ---------------------------------------------------------------- repairing one line

  /** On a line of a block being repaired that is neither blank nor a comment, the head
      of the stripped line is indexed (an uncaught `IndexError` below seven fields), and
      converted unless it is `_`; the id is converted when the head is the dummy root.
      Both conversions raise an uncaught `ValueError` on a field that is not an
      integer. */
  predicate RepairSafeLine(line: string) {
    var ls := Fields(line);
    IsBlank(line) || IsComment(line) ||
      (|ls| > HeadColumn &&
       (ls[HeadColumn] != "_" ==>
          ParseInt(ls[HeadColumn]).Some? &&
          (ParseInt(ls[HeadColumn]) == Some(DummyRoot) ==> ParseInt(ls[IdColumn]).Some?)))
  }

  /** A token attached to the dummy root that is not the chosen one. */
  predicate Moves(line: string, frv: int) {
    var ls := Fields(line);
    && !IsBlank(line) && !IsComment(line) && |ls| > HeadColumn
    && ParseInt(ls[HeadColumn]) == Some(DummyRoot) && ParseInt(ls[IdColumn]) != Some(frv)
  }

  /** The test of the repair loop, which converts the head only when it is not `_`, is
      `Moves` on the lines it does not fail on. */
  lemma MovesTest(line: string, frv: int)
    requires RepairSafeLine(line)
    ensures var ls := Fields(line);
      Moves(line, frv) <==>
        && !IsBlank(line) && !IsComment(line) && ls[HeadColumn] != "_"
        && ParseInt(ls[HeadColumn]).value == DummyRoot && ParseInt(ls[IdColumn]).value != frv
  {
    ParseUnderscore();
  }

  /** The fields written for a line of a block with several roots: only the head column
      can change, and only on a token attached to the dummy root other than `frv`, which
      is moved under `frv`. */
  function RepairFields(line: string, frv: int): (r: seq<string>)
    ensures |r| == |Fields(line)|
    ensures forall k :: 0 <= k < |r| && k != HeadColumn ==> r[k] == Fields(line)[k]
    ensures !Moves(line, frv) ==> r == Fields(line)
    ensures Moves(line, frv) ==> r[HeadColumn] == IntToString(frv)
  {
    var ls := Fields(line);
    if Moves(line, frv) then
      ls[HeadColumn := IntToString(frv)]
    else ls
  }

  /** After the repair the only tokens left on the dummy root are the chosen one (or,
      when the chosen id is the dummy root's own number, tokens moved under it). */
  lemma RepairLeavesChosenRoot(line: string, frv: int)
    requires RepairSafeLine(line) && !IsBlank(line) && !IsComment(line)
    ensures var r := RepairFields(line, frv);
      |r| > HeadColumn && ParseInt(r[HeadColumn]) == Some(DummyRoot) ==>
        ParseInt(r[IdColumn]) == Some(frv) || frv == DummyRoot
  {
    ParseIntToString(frv);
  }

  /** `'\t'.join(ls) + "\n"` */
  function RepairLine(line: string, frv: int): string {
    Join(RepairFields(line, frv), "\t") + "\n"
  }

  /** A line the repair does not touch is written back stripped of its surrounding
      whitespace. */
  lemma RepairLineKept(line: string, frv: int)
    requires !Moves(line, frv)
    ensures RepairLine(line, frv) == Strip(line) + "\n"
  {
    JoinSplit(Strip(line), "\t");
  }

  /** A repaired token line, read again, has exactly the repaired fields. */
  lemma RepairLineFields(line: string, frv: int)
    requires RepairSafeLine(line) && !IsBlank(line) && !IsComment(line)
    ensures Fields(RepairLine(line, frv)) == RepairFields(line, frv)
  {
    RepairClean(line, frv);
    JoinedFields(RepairFields(line, frv));
  }

  lemma RepairClean(line: string, frv: int)
    requires RepairSafeLine(line) && !IsBlank(line) && !IsComment(line)
    ensures Clean(RepairFields(line, frv))
  {
    StrippedFields(line);
    if Moves(line, frv) {
      CleanUpdate(Fields(line), HeadColumn, IntToString(frv));
    }
  }

  /** Fields with no tab whose first and last characters are not whitespace. */
  predicate Clean(parts: seq<string>) {
    && |parts| >= 1
    && (forall k :: 0 <= k < |parts| ==> '\t' !in parts[k])
    && parts[0] != "" && !IsSpace(parts[0][0])
    && parts[|parts| - 1] != "" && !IsSpace(parts[|parts| - 1][|parts[|parts| - 1]| - 1])
  }

  lemma CleanUpdate(parts: seq<string>, k: nat, x: string)
    requires Clean(parts) && k < |parts|
    requires x != "" && '\t' !in x && !IsSpace(x[0]) && !IsSpace(x[|x| - 1])
    ensures Clean(parts[k := x])
  {
  }

  /** The fields of a line that is not blank are clean. */
  lemma StrippedFields(line: string)
    requires !IsBlank(line)
    ensures Clean(Fields(line))
  {
    StripEmpty(line);
    CleanSplit(Strip(line));
  }

  /** The tab-separated fields of a string that neither begins nor ends with whitespace
      are clean. */
  lemma CleanSplit(s: string)
    requires s != "" && !IsSpace(s[0]) && !IsSpace(s[|s| - 1])
    ensures Clean(Split(s, "\t"))
  {
    var ls := Split(s, "\t");
    JoinSplit(s, "\t");
    assert "\t" == ['\t'];
    SplitPiecesClean(s, '\t');
    JoinFirst(ls, "\t");
    var m := |ls| - 1;
    if ls[m] == "" {
      JoinEmptyLast(ls);
    }
    JoinLast(ls, "\t");
  }

  /** Clean fields joined with tabs into a line read back as themselves. */
  lemma JoinedFields(parts: seq<string>)
    requires Clean(parts)
    ensures Fields(Join(parts, "\t") + "\n") == parts
  {
    JoinFirst(parts, "\t");
    JoinLast(parts, "\t");
    StripNewline(Join(parts, "\t"));
    SplitJoin(parts, '\t');
    assert "\t" == ['\t'];
  }

  /** A join whose last piece is empty ends with the separator. */
  lemma {:induction false} JoinEmptyLast(parts: seq<string>)
    requires |parts| >= 2 && parts[|parts| - 1] == ""
    ensures var j := Join(parts, "\t"); |j| > 0 && j[|j| - 1] == '\t'
    decreases |parts|
  {
    if |parts| > 2 {
      JoinEmptyLast(parts[1..]);
    }
  }

  // ---------------------------------------------------------------- blocks

  /** `transform_to_single_root` runs `get_rooted` on every non-empty block, and repairs
      the lines of a block with more than one root. */
  predicate BlockSafe(block: string) {
    block == "" ||
      (RootedSafe(Lines(block)) &&
       (|RootedOf(Lines(block))| > 1 ==>
          forall i :: 0 <= i < |Lines(block)| ==> RepairSafeLine(Lines(block)[i])))
  }

  /** The lines written for a block with several roots, one for each of its lines. */
  function RepairBlock(lines: seq<string>, frv: int): seq<string> {
    Map(line => RepairLine(line, frv), lines)
  }

  /** What is written for one block of the file. */
  function BlockOutput(block: string): seq<string> {
    if block == "" then []
    else
      var rooted := RootedOf(Lines(block));
      if |rooted| > 1 then RepairBlock(Lines(block), NewSingleRoot(rooted)) + ["\n"]
      else [block + "\n", "\n"]
  }

  /** A block with at most one token on the dummy root is written as it was, followed by
      a blank line. */
  lemma BlockKept(block: string)
    requires block != "" && BlockSafe(block) && |RootedOf(Lines(block))| <= 1
    ensures Concat(BlockOutput(block)) == block + "\n\n"
  {
    assert Concat([block + "\n", "\n"]) == block + "\n" + Concat(["\n"]);
  }

  /** In a block with several tokens on the dummy root, the chosen token is one of them,
      every written line corresponds to a line of the block, and read again, no line
      other than the chosen token's is on the dummy root; every other token keeps its
      head, and every other line is written stripped. */
  lemma BlockRepaired(block: string)
    requires block != "" && BlockSafe(block) && |RootedOf(Lines(block))| > 1
    ensures var lines, rooted := Lines(block), RootedOf(Lines(block));
      var frv, out := NewSingleRoot(rooted), BlockOutput(block);
      && (exists i :: 0 <= i < |lines| && IsRootedLine(lines[i]) && RootedEntry(lines[i]).id == frv
           && |Fields(out[i])| > HeadColumn
           && ParseInt(Fields(out[i])[HeadColumn]) == Some(DummyRoot)
           && ParseInt(Fields(out[i])[IdColumn]) == Some(frv))
      && |out| == |lines| + 1 && out[|lines|] == "\n"
      && forall i :: 0 <= i < |lines| && !IsBlank(lines[i]) && !IsComment(lines[i]) ==>
           && Fields(out[i]) == RepairFields(lines[i], frv)
           && (ParseInt(Fields(out[i])[HeadColumn]) == Some(DummyRoot) ==>
                 ParseInt(Fields(out[i])[IdColumn]) == Some(frv) || frv == DummyRoot)
  {
    var lines, rooted := Lines(block), RootedOf(Lines(block));
    var frv, out := NewSingleRoot(rooted), BlockOutput(block);
    var k :| 0 <= k < |rooted| && rooted[k].id == frv;
    RootedSound(lines, rooted[k]);
    var j :| 0 <= j < |lines| && IsRootedLine(lines[j]) && rooted[k] == RootedEntry(lines[j]);
    assert out[j] == RepairLine(lines[j], frv);
    ChosenStaysRoot(lines[j], frv);
    forall i | 0 <= i < |lines| && !IsBlank(lines[i]) && !IsComment(lines[i])
      ensures Fields(out[i]) == RepairFields(lines[i], frv)
      ensures ParseInt(Fields(out[i])[HeadColumn]) == Some(DummyRoot) ==>
                ParseInt(Fields(out[i])[IdColumn]) == Some(frv) || frv == DummyRoot
    {
      assert out[i] == RepairLine(lines[i], frv);
      RepairLineFields(lines[i], frv);
      RepairLeavesChosenRoot(lines[i], frv);
    }
  }

  /** What the whole rewrite writes for the blocks of a file, one block at a time. */
  function Transformed(blocks: seq<string>): seq<string>
    decreases |blocks|
  {
    if blocks == [] then []
    else
      var n := |blocks| - 1;
      Transformed(blocks[..n]) + BlockOutput(blocks[n])
  }

  lemma TransformedSnoc(blocks: seq<string>, i: nat)
    requires i < |blocks|
    ensures Transformed(blocks[..i + 1]) == Transformed(blocks[..i]) + BlockOutput(blocks[i])
  {
    assert blocks[..i + 1][..i] == blocks[..i];
  }

  /** The blocks of a file: its text split at every empty line. */
  function TextBlocks(text: string): seq<string> {
    Split(text, "\n\n")
  }

  /** `transform_to_single_root`, over the text of the file; the result is the sequence
      of strings written, in order. */
  method TransformToSingleRoot(text: string) returns (written: seq<string>)
    requires forall i :: 0 <= i < |TextBlocks(text)| ==> BlockSafe(TextBlocks(text)[i])
    ensures written == Transformed(TextBlocks(text))
  {
    var sentences := Split(text, "\n\n");
    assert sentences == TextBlocks(text);
    written := [];
    var i := 0;
    while i < |sentences|
      invariant 0 <= i <= |sentences|
      invariant written == Transformed(sentences[..i])
    {
      var s := sentences[i];
      TransformedSnoc(sentences, i);
      var out := WriteBlock(s);
      written := written + out;
      i := i + 1;
    }
    assert sentences[..i] == sentences;
  }

  /** One iteration of the loop over the blocks: an empty block is skipped, a block with
      several roots is repaired line by line, any other block is written as it is; a
      blank line follows. */
  method WriteBlock(s: string) returns (out: seq<string>)
    requires BlockSafe(s)
    ensures out == BlockOutput(s)
  {
    out := [];
    if s != "" {
      var rooted := GetRooted(s);
      if |rooted| > 1 {
        var frv := NewSingleRoot(rooted);
        out := RepairLines(Split(s, "\n"), frv);
      } else {
        out := [s + "\n"];
      }
      out := out + ["\n"];
    }
  }

  /** The loop over the lines of a block with several roots. */
  method RepairLines(lines: seq<string>, frv: int) returns (written: seq<string>)
    requires forall i :: 0 <= i < |lines| ==> RepairSafeLine(lines[i])
    ensures written == RepairBlock(lines, frv)
  {
    written := [];
    var j := 0;
    while j < |lines|
      invariant 0 <= j <= |lines|
      invariant written == RepairBlock(lines[..j], frv)
    {
      var out := RepairOne(lines[j], frv);
      MapSnoc(line => RepairLine(line, frv), lines, j);
      written := written + [out];
      j := j + 1;
    }
    assert lines[..j] == lines;
  }

  /** The body of that loop for one line. */
  method RepairOne(l: string, frv: int) returns (out: string)
    requires RepairSafeLine(l)
    ensures out == RepairLine(l, frv)
  {
    var ls := Fields(l);
    BlankFields(l);
    MovesTest(l, frv);
    if ls != [""] && !IsComment(l) {
      if ls[HeadColumn] != "_" && ParseInt(ls[HeadColumn]).value == DummyRoot
         && ParseInt(ls[IdColumn]).value != frv {
        ls := ls[HeadColumn := IntToString(frv)];
      }
    }
    out := Join(ls, "\t") + "\n";
  }
}
