/** `lookup_conll_extra_data` and `dump_lookup_extra_into_conll`: the multiword-range
    (`n-m`) and empty-node (`n.k`) lines of a file are set aside in a table keyed by
    sentence number and by the number of the token line they precede, and are later
    written back into a file that holds only the ordinary token lines. */
module ExtraLines {
  import opened Text
  import opened Reader

  // ---------------------------------------------------------------- line classes

  /** How `lookup_conll_extra_data` sees a line. */
  datatype Class = CommentLine | BlankLine | ExtraLine | OrdinaryLine

  function ClassOf(line: string): (c: Class)
    ensures c == CommentLine <==> IsComment(line)
    ensures c == BlankLine <==> IsBlank(line)
  {
    if IsComment(line) then CommentNotBlank(line); CommentLine
    else if Fields(line) == [""] then BlankFields(line); BlankLine
    else BlankFields(line); if IsExtraId(Fields(line)[0]) then ExtraLine else OrdinaryLine
  }

  lemma CommentNotBlank(line: string)
    requires IsComment(line)
    ensures !IsBlank(line)
  {
    if IsBlank(line) {
      BlankIsNotComment(line);
    }
  }

  /** The number of blank lines. */
  function Blanks(lines: seq<string>): nat
    decreases |lines|
  {
    if lines == [] then 0
    else Blanks(lines[..|lines| - 1]) + (if IsBlank(lines[|lines| - 1]) then 1 else 0)
  }

  /** The number of ordinary token lines after the last blank line. */
  function TokensSinceBlank(lines: seq<string>): nat
    decreases |lines|
  {
    if lines == [] then 0
    else
      var c := ClassOf(lines[|lines| - 1]);
      if c == BlankLine then 0
      else TokensSinceBlank(lines[..|lines| - 1]) + (if c == OrdinaryLine then 1 else 0)
  }

  /** The number of lines that are not blank after the last blank line. */
  function NonBlankSinceBlank(lines: seq<string>): nat
    decreases |lines|
  {
    if lines == [] then 0
    else if IsBlank(lines[|lines| - 1]) then 0
    else NonBlankSinceBlank(lines[..|lines| - 1]) + 1
  }

  // ---------------------------------------------------------------- lookup

  /** `lookup[sentence_id][id_insert_before]` */
  type Table = map<int, map<int, string>>

  datatype LookupState = LookupState(table: Table, sentenceId: int, insertBefore: int)

  ghost predicate Consistent(st: LookupState) {
    st.sentenceId in st.table
  }

  /** One iteration of the loop of `lookup_conll_extra_data`. */
  function LookupStep(st: LookupState, line: string): (r: LookupState)
    requires Consistent(st)
    ensures Consistent(r)
  {
    match ClassOf(line)
    case CommentLine => st
    case BlankLine => LookupState(st.table[st.sentenceId + 1 := map[]], st.sentenceId + 1, 1)
    case ExtraLine =>
      st.(table := st.table[st.sentenceId := st.table[st.sentenceId][st.insertBefore := line]])
    case OrdinaryLine => st.(insertBefore := st.insertBefore + 1)
  }

  function LookupFold(lines: seq<string>): (st: LookupState)
    ensures Consistent(st)
    decreases |lines|
  {
    if lines == [] then LookupState(map[0 := map[]], 0, 1)
    else LookupStep(LookupFold(lines[..|lines| - 1]), lines[|lines| - 1])
  }

  function Lookup(lines: seq<string>): Table {
    LookupFold(lines).table
  }

  method LookupConllExtraData(lines: seq<string>) returns (lookup: Table)
    ensures lookup == Lookup(lines)
  {
    lookup := map[0 := map[]];
    var sentenceId := 0;
    var idInsertBefore := 1;
    var i := 0;
    while i < |lines|
      invariant 0 <= i <= |lines|
      invariant LookupState(lookup, sentenceId, idInsertBefore) == LookupFold(lines[..i])
    {
      var line := lines[i];
      assert lines[..i + 1][..i] == lines[..i];
      if !IsComment(line) {
        var tok := Fields(line);
        BlankFields(line);
        if tok == [""] {
          sentenceId := sentenceId + 1;
          idInsertBefore := 1;
          lookup := lookup[sentenceId := map[]];
        } else if '.' in tok[0] || '-' in tok[0] {
          lookup := lookup[sentenceId := lookup[sentenceId][idInsertBefore := line]];
        } else {
          idInsertBefore := idInsertBefore + 1;
        }
      }
      i := i + 1;
    }
    assert lines[..i] == lines;
  }

  /** The counters of the loop: the sentence number is the number of blank lines read,
      and the next token line is one past the ordinary token lines of the current
      sentence. The table has an entry for every sentence number up to the current one. */
  lemma {:induction false} LookupCounters(lines: seq<string>)
    ensures LookupFold(lines).sentenceId == Blanks(lines)
    ensures LookupFold(lines).insertBefore == 1 + TokensSinceBlank(lines)
    ensures forall s :: s in Lookup(lines) <==> 0 <= s <= Blanks(lines)
    decreases |lines|
  {
    if lines != [] {
      var n := |lines| - 1;
      LookupCounters(lines[..n]);
      var st := LookupFold(lines[..n]);
      assert LookupFold(lines) == LookupStep(st, lines[n]);
      forall s ensures s in st.table <==> 0 <= s <= Blanks(lines[..n]) {
        assert s in st.table <==> s in Lookup(lines[..n]);
      }
      if ClassOf(lines[n]) == BlankLine {
        assert Blanks(lines) == Blanks(lines[..n]) + 1;
        forall s ensures s in Lookup(lines) <==> 0 <= s <= Blanks(lines) {
          assert s in Lookup(lines) <==> s in st.table || s == st.sentenceId + 1;
        }
      } else {
        assert Blanks(lines) == Blanks(lines[..n]);
        forall s ensures s in Lookup(lines) <==> 0 <= s <= Blanks(lines) {
          assert s in Lookup(lines) <==> s in st.table;
        }
      }
    }
  }

  /** A multiword or empty-node line is stored in the current sentence under one plus the
      number of ordinary token lines before it in that sentence, replacing whatever that
      key held. */
  lemma LookupExtraLine(lines: seq<string>, line: string)
    requires ClassOf(line) == ExtraLine
    ensures var t := Lookup(lines); var s := Blanks(lines);
      s in t && Lookup(lines + [line]) == t[s := t[s][1 + TokensSinceBlank(lines) := line]]
  {
    LookupCounters(lines);
    assert (lines + [line])[..|lines|] == lines;
  }

  /** A blank line opens the next sentence number with an empty table. */
  lemma LookupBlankLine(lines: seq<string>, line: string)
    requires IsBlank(line)
    ensures Lookup(lines + [line]) == Lookup(lines)[Blanks(lines) + 1 := map[]]
  {
    LookupCounters(lines);
    assert (lines + [line])[..|lines|] == lines;
  }

  /** Comment and ordinary token lines leave the table as it is. */
  lemma LookupOtherLine(lines: seq<string>, line: string)
    requires ClassOf(line) == CommentLine || ClassOf(line) == OrdinaryLine
    ensures Lookup(lines + [line]) == Lookup(lines)
  {
    assert (lines + [line])[..|lines|] == lines;
  }

  /** What an extra line does to the state: it is stored in the current sentence under
      the current token number. */
  function Store(st: LookupState, line: string): LookupState
    requires Consistent(st)
  {
    st.(table := st.table[st.sentenceId := st.table[st.sentenceId][st.insertBefore := line]])
  }

  lemma ExtraStep(st: LookupState, line: string)
    requires Consistent(st) && ClassOf(line) == ExtraLine
    ensures LookupStep(st, line) == Store(st, line)
  {
  }

  /** A second store under the same key replaces the first. */
  lemma StoreOverwrites(st: LookupState, x: string, y: string)
    requires Consistent(st)
    ensures Store(Store(st, x), y) == Store(st, y)
  {
    var t, s, w := st.table, st.sentenceId, st.insertBefore;
    assert t[s := t[s][w := x]][s] == t[s][w := x];
    assert t[s][w := x][w := y] == t[s][w := y];
    assert t[s := t[s][w := x]][s := t[s][w := y]] == t[s := t[s][w := y]];
  }

  /** Of two extra lines with no ordinary or blank line between them only the later one
      is kept. */
  lemma LookupOverwrites(lines: seq<string>, x: string, y: string)
    requires ClassOf(x) == ExtraLine && ClassOf(y) == ExtraLine
    ensures Lookup(lines + [x, y]) == Lookup(lines + [y])
  {
    var st := LookupFold(lines);
    var xs, ys := lines + [x], lines + [y];
    assert (lines + [x, y])[..|xs|] == xs && xs[..|lines|] == lines && ys[..|lines|] == lines;
    assert LookupFold(xs) == LookupStep(st, x);
    assert LookupFold(ys) == LookupStep(st, y);
    assert LookupFold(lines + [x, y]) == LookupStep(LookupFold(xs), y);
    ExtraStep(st, x);
    ExtraStep(Store(st, x), y);
    ExtraStep(st, y);
    StoreOverwrites(st, x, y);
  }

  // ---------------------------------------------------------------- dump

  /** A line written by the dump: one of the file's own lines, or one taken from the
      table. */
  datatype Piece = Original(line: string) | Inserted(line: string)

  datatype DumpState = DumpState(pieces: seq<Piece>, sentenceId: int, wordId: int)

  /** The stored line for this sentence and token number, if there is one. */
  function Stored(lookup: Table, s: int, w: int): (r: seq<Piece>)
    ensures |r| <= 1
    ensures r != [] <==> s in lookup && w in lookup[s]
    ensures r != [] ==> r[0] == Inserted(lookup[s][w])
  {
    if s in lookup && w in lookup[s] then [Inserted(lookup[s][w])] else []
  }

  /** One iteration of the loop of `dump_lookup_extra_into_conll`. */
  function DumpStep(st: DumpState, line: string, lookup: Table): DumpState {
    if IsBlank(line) then DumpState(st.pieces + [Original(line)], st.sentenceId + 1, 1)
    else DumpState(st.pieces + Stored(lookup, st.sentenceId, st.wordId) + [Original(line)],
                   st.sentenceId, st.wordId + 1)
  }

  function DumpFold(lines: seq<string>, lookup: Table): DumpState
    decreases |lines|
  {
    if lines == [] then DumpState([], 0, 1)
    else DumpStep(DumpFold(lines[..|lines| - 1], lookup), lines[|lines| - 1], lookup)
  }

  function Dumped(lines: seq<string>, lookup: Table): seq<Piece> {
    DumpFold(lines, lookup).pieces
  }

  /** The text of the pieces, in order. */
  function Texts(ps: seq<Piece>): (r: seq<string>)
    ensures |r| == |ps| && forall i :: 0 <= i < |ps| ==> r[i] == ps[i].line
  {
    seq(|ps|, i requires 0 <= i < |ps| => ps[i].line)
  }

  method DumpLookupExtraIntoConll(lines: seq<string>, lookup: Table) returns (written: seq<string>)
    ensures written == Texts(Dumped(lines, lookup))
  {
    var sentenceId := 0;
    var wordId := 1;
    written := [];
    var i := 0;
    while i < |lines|
      invariant 0 <= i <= |lines|
      invariant sentenceId == DumpFold(lines[..i], lookup).sentenceId
      invariant wordId == DumpFold(lines[..i], lookup).wordId
      invariant written == Texts(Dumped(lines[..i], lookup))
    {
      var line := lines[i];
      DumpSnoc(lines, lookup, i);
      var tok := Fields(line);
      BlankFields(line);
      if tok == [""] {
        sentenceId := sentenceId + 1;
        wordId := 1;
      } else {
        if sentenceId in lookup {
          if wordId in lookup[sentenceId] {
            written := written + [lookup[sentenceId][wordId]];
          }
        }
        wordId := wordId + 1;
      }
      written := written + [line];
      i := i + 1;
    }
    assert lines[..i] == lines;
  }

  lemma TextsAppend(p: seq<Piece>, q: seq<Piece>)
    ensures Texts(p + q) == Texts(p) + Texts(q)
  {
  }

  /** One line more for the dump, in terms of the text written. */
  lemma DumpSnoc(lines: seq<string>, lookup: Table, i: nat)
    requires i < |lines|
    ensures var st, line := DumpFold(lines[..i], lookup), lines[i];
      var next := DumpFold(lines[..i + 1], lookup);
      && (IsBlank(line) ==>
            (next.sentenceId == st.sentenceId + 1 && next.wordId == 1
             && Texts(next.pieces) == Texts(st.pieces) + [line]))
      && (!IsBlank(line) ==>
            (next.sentenceId == st.sentenceId && next.wordId == st.wordId + 1
             && Texts(next.pieces) == Texts(st.pieces)
                + (if st.sentenceId in lookup && st.wordId in lookup[st.sentenceId]
                   then [lookup[st.sentenceId][st.wordId]] else [])
                + [line]))
  {
    assert lines[..i + 1][..i] == lines[..i];
    var st, line := DumpFold(lines[..i], lookup), lines[i];
    var ins := if IsBlank(line) then [] else Stored(lookup, st.sentenceId, st.wordId);
    assert DumpFold(lines[..i + 1], lookup).pieces == st.pieces + ins + [Original(line)];
    TextsAppend(st.pieces + ins, [Original(line)]);
    TextsAppend(st.pieces, ins);
  }

  /** The file's own lines among the pieces, in order. */
  function Originals(ps: seq<Piece>): seq<string>
    decreases |ps|
  {
    if ps == [] then []
    else Originals(ps[..|ps| - 1]) + (if ps[|ps| - 1].Original? then [ps[|ps| - 1].line] else [])
  }

  lemma {:induction false} OriginalsAppend(p: seq<Piece>, q: seq<Piece>)
    ensures Originals(p + q) == Originals(p) + Originals(q)
    decreases |q|
  {
    if q == [] {
      assert p + q == p;
    } else {
      var n := |q| - 1;
      OriginalsAppend(p, q[..n]);
      assert (p + q)[..|p| + n] == p + q[..n];
    }
  }

  lemma DumpStepOriginals(st: DumpState, line: string, lookup: Table)
    ensures Originals(DumpStep(st, line, lookup).pieces) == Originals(st.pieces) + [line]
  {
    var ins := if IsBlank(line) then [] else Stored(lookup, st.sentenceId, st.wordId);
    assert DumpStep(st, line, lookup).pieces == st.pieces + (ins + [Original(line)]);
    OriginalsAppend(st.pieces, ins + [Original(line)]);
    assert (ins + [Original(line)])[..|ins|] == ins;
    if ins != [] {
      assert ins[..0] == [];
    }
  }

  /** Removing the inserted lines from the output gives back the file. */
  lemma {:induction false} DumpKeepsOriginals(lines: seq<string>, lookup: Table)
    ensures Originals(Dumped(lines, lookup)) == lines
    decreases |lines|
  {
    if lines != [] {
      var n := |lines| - 1;
      DumpKeepsOriginals(lines[..n], lookup);
      DumpStepOriginals(DumpFold(lines[..n], lookup), lines[n], lookup);
      assert lines[..n] + [lines[n]] == lines;
    }
  }

  /** With an empty table the dump writes the file back unchanged. */
  lemma {:induction false} DumpEmptyTable(lines: seq<string>)
    ensures Dumped(lines, map[]) == seq(|lines|, i requires 0 <= i < |lines| => Original(lines[i]))
    decreases |lines|
  {
    if lines != [] {
      DumpEmptyTable(lines[..|lines| - 1]);
    }
  }

  /** The counters of the dump: the sentence number is the number of blank lines read
      (comment lines are not told apart here) and the word number is one past the lines
      read since the last blank one. */
  lemma {:induction false} DumpCounters(lines: seq<string>, lookup: Table)
    ensures DumpFold(lines, lookup).sentenceId == Blanks(lines)
    ensures DumpFold(lines, lookup).wordId == 1 + NonBlankSinceBlank(lines)
    decreases |lines|
  {
    if lines != [] {
      DumpCounters(lines[..|lines| - 1], lookup);
    }
  }

  lemma {:induction false} DumpPrefix(lines: seq<string>, lookup: Table, i: nat)
    requires i <= |lines|
    ensures Dumped(lines[..i], lookup) <= Dumped(lines, lookup)
    decreases |lines| - i
  {
    if i < |lines| {
      DumpPrefix(lines, lookup, i + 1);
      assert lines[..i + 1][..i] == lines[..i];
    } else {
      assert lines[..i] == lines;
    }
  }

  /** The stored line of sentence `s` and key `w` is written immediately before the
      `w`-th line of sentence `s` that is not blank, and nothing else is written between
      the file's own lines. */
  lemma DumpPlacesStored(lines: seq<string>, lookup: Table, i: nat)
    requires i < |lines|
    ensures Dumped(lines[..i], lookup) <= Dumped(lines[..i + 1], lookup) <= Dumped(lines, lookup)
    ensures Dumped(lines[..i + 1], lookup) == Dumped(lines[..i], lookup) +
      (if IsBlank(lines[i]) then []
       else Stored(lookup, Blanks(lines[..i]), 1 + NonBlankSinceBlank(lines[..i])))
      + [Original(lines[i])]
  {
    DumpCounters(lines[..i], lookup);
    assert lines[..i + 1][..i] == lines[..i];
    DumpPrefix(lines, lookup, i + 1);
  }

  // ---------------------------------------------------------------- unreached keys

  /** The (sentence, word) keys the dump looks up: one for each line that is not blank. */
  function Positions(lines: seq<string>): set<(int, int)>
    decreases |lines|
  {
    if lines == [] then {}
    else
      var n := |lines| - 1;
      Positions(lines[..n]) + (if IsBlank(lines[n]) then {} else {(Blanks(lines[..n]), 1 + NonBlankSinceBlank(lines[..n]))})
  }

  /** A key the dump never looks up does not matter: whatever it holds is never
      written. */
  lemma {:induction false} DumpUnreached(lines: seq<string>, lookup: Table, s: int, w: int, x: string)
    requires s in lookup && (s, w) !in Positions(lines)
    ensures Dumped(lines, lookup[s := lookup[s][w := x]]) == Dumped(lines, lookup)
    ensures DumpFold(lines, lookup[s := lookup[s][w := x]]).sentenceId == DumpFold(lines, lookup).sentenceId
    ensures DumpFold(lines, lookup[s := lookup[s][w := x]]).wordId == DumpFold(lines, lookup).wordId
    decreases |lines|
  {
    if lines != [] {
      var n := |lines| - 1;
      DumpUnreached(lines[..n], lookup, s, w, x);
      DumpCounters(lines[..n], lookup);
      DumpCounters(lines[..n], lookup[s := lookup[s][w := x]]);
    }
  }

  /** Once a blank line closes a sentence, no key of that sentence at or past the word
      number it had reached is ever looked up: an extra line stored after the last token
      of its sentence is never written. */
  lemma {:induction false} ClosedSentence(a: seq<string>, blank: string, b: seq<string>, w: int)
    requires IsBlank(blank) && w >= 1 + NonBlankSinceBlank(a)
    ensures (Blanks(a), w) !in Positions(a + [blank] + b)
    decreases |b|
  {
    var lines := a + [blank] + b;
    if b == [] {
      assert lines[..|a|] == a;
      PositionsBelow(a, w);
    } else {
      var n := |lines| - 1;
      assert lines[..n] == a + [blank] + b[..|b| - 1];
      ClosedSentence(a, blank, b[..|b| - 1], w);
      BlanksGrow(a, blank, b[..|b| - 1]);
    }
  }

  lemma {:induction false} PositionsBelow(lines: seq<string>, w: int)
    requires w >= 1 + NonBlankSinceBlank(lines)
    ensures (Blanks(lines), w) !in Positions(lines)
    decreases |lines|
  {
    if lines != [] {
      var n := |lines| - 1;
      if IsBlank(lines[n]) {
        PositionsBefore(lines[..n]);
      } else {
        PositionsBelow(lines[..n], w);
      }
    }
  }

  lemma {:induction false} PositionsBefore(lines: seq<string>)
    ensures forall p :: p in Positions(lines) ==> p.0 <= Blanks(lines)
    decreases |lines|
  {
    if lines != [] {
      PositionsBefore(lines[..|lines| - 1]);
    }
  }

  lemma {:induction false} BlanksGrow(a: seq<string>, blank: string, b: seq<string>)
    requires IsBlank(blank)
    ensures Blanks(a + [blank] + b) > Blanks(a)
    decreases |b|
  {
    var lines := a + [blank] + b;
    if b == [] {
      assert lines[..|a|] == a;
    } else {
      assert lines[..|lines| - 1] == a + [blank] + b[..|b| - 1];
      BlanksGrow(a, blank, b[..|b| - 1]);
    }
  }

  // ---------------------------------------------------------------- round trip

  /** The file without its multiword and empty-node lines: what is left for the parser
      to read and write back. */
  function Kept(lines: seq<string>): seq<string>
    decreases |lines|
  {
    if lines == [] then []
    else
      var n := |lines| - 1;
      Kept(lines[..n]) + (if ClassOf(lines[n]) == ExtraLine then [] else [lines[n]])
  }

  /** A file that lookup and dump restore: blank lines and ordinary token lines, each
      token line possibly preceded by one multiword or empty-node line. There are no
      comment lines (the lookup skips them while the dump counts them), and no
      multiword or empty-node line that another one follows (a later line under the
      same key replaces it) or that ends its sentence (its key is never looked up). */
  predicate Restorable(lines: seq<string>)
    decreases |lines|
  {
    if lines == [] then true
    else
      var n := |lines| - 1;
      || ((ClassOf(lines[n]) == BlankLine || ClassOf(lines[n]) == OrdinaryLine) && Restorable(lines[..n]))
      || (n >= 1 && ClassOf(lines[n - 1]) == ExtraLine && ClassOf(lines[n]) == OrdinaryLine
          && Restorable(lines[..n - 1]))
  }

  /** Round trip: dumping the table built from a restorable file into the file without
      its multiword and empty-node lines gives back the file, line for line. */
  lemma {:induction false} LookupDumpRoundTrip(lines: seq<string>)
    requires Restorable(lines)
    ensures Texts(Dumped(Kept(lines), Lookup(lines))) == lines
    decreases |lines|
  {
    if lines != [] {
      var n := |lines| - 1;
      if (ClassOf(lines[n]) == BlankLine || ClassOf(lines[n]) == OrdinaryLine) && Restorable(lines[..n]) {
        var pre := lines[..n];
        LookupDumpRoundTrip(pre);
        KeptCounters(pre);
        LookupKeysBelow(pre);
        LastOne(lines);
        RestoreLine(pre, lines[n]);
      } else {
        var pre := lines[..n - 1];
        LookupDumpRoundTrip(pre);
        KeptCounters(pre);
        LastTwo(lines);
        RestoreExtra(pre, lines[n - 1], lines[n]);
      }
    }
  }

  lemma LastOne<T>(xs: seq<T>)
    requires |xs| >= 1
    ensures xs[..|xs| - 1] + [xs[|xs| - 1]] == xs
  {
  }

  lemma LastTwo<T>(xs: seq<T>)
    requires |xs| >= 2
    ensures var m := |xs| - 2;
      && xs[..m] + [xs[m], xs[m + 1]] == xs
      && (xs[..m] + [xs[m]]) + [xs[m + 1]] == xs
      && xs[..m + 1] == xs[..m] + [xs[m]]
  {
  }

  lemma SnocPrefix<T>(xs: seq<T>, x: T)
    ensures (xs + [x])[..|xs|] == xs
  {
  }

  lemma PairSnoc<T>(xs: seq<T>, a: T, b: T)
    ensures xs + [a, b] == (xs + [a]) + [b]
  {
  }

  lemma BlanksSnoc(pre: seq<string>, x: string)
    ensures Blanks(pre + [x]) == Blanks(pre) + (if IsBlank(x) then 1 else 0)
  {
    assert (pre + [x])[..|pre|] == pre;
  }

  lemma SinceBlankSnoc(pre: seq<string>, x: string)
    ensures TokensSinceBlank(pre + [x]) ==
      if IsBlank(x) then 0 else TokensSinceBlank(pre) + (if ClassOf(x) == OrdinaryLine then 1 else 0)
    ensures NonBlankSinceBlank(pre + [x]) == if IsBlank(x) then 0 else NonBlankSinceBlank(pre) + 1
  {
    assert (pre + [x])[..|pre|] == pre;
  }

  lemma KeptSnoc(pre: seq<string>, x: string)
    ensures ClassOf(x) == ExtraLine ==> Kept(pre + [x]) == Kept(pre)
    ensures ClassOf(x) != ExtraLine ==> Kept(pre + [x]) == Kept(pre) + [x]
  {
    assert (pre + [x])[..|pre|] == pre;
    assert Kept(pre) + [] == Kept(pre);
  }

  /** Kept lines and counters after one more line that is not a comment. */
  lemma KeptStep(pre: seq<string>, x: string)
    requires ClassOf(x) != CommentLine
    requires Blanks(Kept(pre)) == Blanks(pre) && NonBlankSinceBlank(Kept(pre)) == TokensSinceBlank(pre)
    ensures ClassOf(x) == ExtraLine ==> Kept(pre + [x]) == Kept(pre)
    ensures ClassOf(x) != ExtraLine ==> Kept(pre + [x]) == Kept(pre) + [x]
    ensures Blanks(Kept(pre + [x])) == Blanks(pre + [x])
    ensures NonBlankSinceBlank(Kept(pre + [x])) == TokensSinceBlank(pre + [x])
  {
    var k := Kept(pre);
    KeptSnoc(pre, x);
    BlanksSnoc(pre, x);
    SinceBlankSnoc(pre, x);
    if ClassOf(x) != ExtraLine {
      BlanksSnoc(k, x);
      SinceBlankSnoc(k, x);
    }
  }

  /** Counted over the kept lines, the dump's counters are the lookup's: the same blank
      lines, and as many lines since the last blank one as there are ordinary token
      lines. */
  lemma {:induction false} KeptCounters(lines: seq<string>)
    requires Restorable(lines)
    ensures Blanks(Kept(lines)) == Blanks(lines)
    ensures NonBlankSinceBlank(Kept(lines)) == TokensSinceBlank(lines)
    decreases |lines|
  {
    if lines != [] {
      var n := |lines| - 1;
      if (ClassOf(lines[n]) == BlankLine || ClassOf(lines[n]) == OrdinaryLine) && Restorable(lines[..n]) {
        var pre := lines[..n];
        KeptCounters(pre);
        LastOne(lines);
        KeptStep(pre, lines[n]);
      } else {
        var pre := lines[..n - 1];
        KeptCounters(pre);
        LastTwo(lines);
        KeptStep(pre, lines[n - 1]);
        KeptStep(pre + [lines[n - 1]], lines[n]);
      }
    }
  }

  /** Whatever two tables hold under the keys the dump never looks up does not matter. */
  lemma {:induction false} DumpAgrees(lines: seq<string>, t1: Table, t2: Table)
    requires forall p :: p in Positions(lines) ==> Stored(t1, p.0, p.1) == Stored(t2, p.0, p.1)
    ensures DumpFold(lines, t1) == DumpFold(lines, t2)
    decreases |lines|
  {
    if lines != [] {
      var n := |lines| - 1;
      var pre := lines[..n];
      DumpAgrees(pre, t1, t2);
      DumpCounters(pre, t1);
      if !IsBlank(lines[n]) {
        var p := (Blanks(pre), 1 + NonBlankSinceBlank(pre));
        assert p in Positions(lines);
        assert Stored(t1, p.0, p.1) == Stored(t2, p.0, p.1);
      }
    }
  }

  /** The dump of the kept lines followed by one line that is not blank appends the
      line stored under the next key, then the line itself. */
  lemma DumpKeptLine(k: seq<string>, x: string, t: Table)
    requires !IsBlank(x)
    ensures Dumped(k + [x], t) ==
      Dumped(k, t) + Stored(t, Blanks(k), 1 + NonBlankSinceBlank(k)) + [Original(x)]
  {
    assert (k + [x])[..|k|] == k;
    DumpCounters(k, t);
  }

  /** One more blank or ordinary token line after a prefix that is restored. */
  lemma RestoreLine(pre: seq<string>, x: string)
    requires ClassOf(x) == BlankLine || ClassOf(x) == OrdinaryLine
    requires Blanks(Kept(pre)) == Blanks(pre) && NonBlankSinceBlank(Kept(pre)) == TokensSinceBlank(pre)
    requires Blanks(pre) in Lookup(pre)
    requires forall w :: w in Lookup(pre)[Blanks(pre)] ==> w <= TokensSinceBlank(pre)
    requires Texts(Dumped(Kept(pre), Lookup(pre))) == pre
    ensures Texts(Dumped(Kept(pre + [x]), Lookup(pre + [x]))) == pre + [x]
  {
    KeptStep(pre, x);
    if ClassOf(x) == BlankLine {
      RestoreBlank(pre, x);
    } else {
      RestoreToken(pre, x);
    }
  }

  lemma RestoreToken(pre: seq<string>, x: string)
    requires ClassOf(x) == OrdinaryLine && Kept(pre + [x]) == Kept(pre) + [x]
    requires Blanks(Kept(pre)) == Blanks(pre) && NonBlankSinceBlank(Kept(pre)) == TokensSinceBlank(pre)
    requires Blanks(pre) in Lookup(pre)
    requires forall w :: w in Lookup(pre)[Blanks(pre)] ==> w <= TokensSinceBlank(pre)
    requires Texts(Dumped(Kept(pre), Lookup(pre))) == pre
    ensures Texts(Dumped(Kept(pre + [x]), Lookup(pre + [x]))) == pre + [x]
  {
    assert Lookup(pre + [x]) == Lookup(pre) by {
      LookupOtherLine(pre, x);
    }
    DumpTokenAfter(Kept(pre), x, Lookup(pre));
  }

  /** After lines whose current sentence has no stored line past them, a line that is
      not blank is written alone. */
  lemma DumpTokenAfter(k: seq<string>, x: string, t: Table)
    requires !IsBlank(x) && Blanks(k) in t
    requires forall w :: w in t[Blanks(k)] ==> w <= NonBlankSinceBlank(k)
    ensures Texts(Dumped(k + [x], t)) == Texts(Dumped(k, t)) + [x]
  {
    DumpKeptLine(k, x, t);
    NothingStored(t, Blanks(k), NonBlankSinceBlank(k), Dumped(k, t));
    TextsAppend(Dumped(k, t), [Original(x)]);
  }

  lemma RestoreBlank(pre: seq<string>, x: string)
    requires IsBlank(x) && Kept(pre + [x]) == Kept(pre) + [x]
    requires Blanks(Kept(pre)) == Blanks(pre)
    requires Texts(Dumped(Kept(pre), Lookup(pre))) == pre
    ensures Texts(Dumped(Kept(pre + [x]), Lookup(pre + [x]))) == pre + [x]
  {
    var k, t := Kept(pre), Lookup(pre);
    var t' := t[Blanks(pre) + 1 := map[]];
    assert Lookup(pre + [x]) == t' by {
      LookupBlankLine(pre, x);
    }
    assert DumpFold(k, t') == DumpFold(k, t) by {
      LookupCounters(pre);
      PositionsBefore(k);
      forall p | p in Positions(k) ensures Stored(t', p.0, p.1) == Stored(t, p.0, p.1) {
        assert p.0 != Blanks(pre) + 1;
      }
      DumpAgrees(k, t', t);
    }
    assert Dumped(k + [x], t') == Dumped(k, t') + [Original(x)] by {
      SnocPrefix(k, x);
    }
    TextsAppend(Dumped(k, t), [Original(x)]);
  }

  /** No line is stored past the last key of a sentence. */
  lemma NothingStored(t: Table, s: int, m: int, ps: seq<Piece>)
    requires s in t && forall w :: w in t[s] ==> w <= m
    ensures Stored(t, s, 1 + m) == [] && ps + Stored(t, s, 1 + m) == ps
  {
  }

  /** A multiword or empty-node line and the ordinary token line after it, after a
      prefix that is restored: the dump writes the stored line just before the token
      line. */
  lemma RestoreExtra(pre: seq<string>, e: string, o: string)
    requires ClassOf(e) == ExtraLine && ClassOf(o) == OrdinaryLine
    requires Blanks(Kept(pre)) == Blanks(pre) && NonBlankSinceBlank(Kept(pre)) == TokensSinceBlank(pre)
    requires Texts(Dumped(Kept(pre), Lookup(pre))) == pre
    ensures Texts(Dumped(Kept(pre + [e, o]), Lookup(pre + [e, o]))) == pre + [e, o]
  {
    KeptPair(pre, e, o);
    LookupPair(pre, e, o);
    DumpInsertAfter(Kept(pre), e, o, Lookup(pre), Blanks(pre), 1 + TokensSinceBlank(pre));
  }

  lemma KeptPair(pre: seq<string>, e: string, o: string)
    requires ClassOf(e) == ExtraLine && ClassOf(o) == OrdinaryLine
    ensures Kept(pre + [e, o]) == Kept(pre) + [o]
  {
    PairSnoc(pre, e, o);
    KeptSnoc(pre, e);
    KeptSnoc(pre + [e], o);
  }

  lemma LookupPair(pre: seq<string>, e: string, o: string)
    requires ClassOf(e) == ExtraLine && ClassOf(o) == OrdinaryLine
    ensures var t, s := Lookup(pre), Blanks(pre);
      s in t && Lookup(pre + [e, o]) == t[s := t[s][1 + TokensSinceBlank(pre) := e]]
  {
    PairSnoc(pre, e, o);
    LookupExtraLine(pre, e);
    LookupOtherLine(pre + [e], o);
  }

  /** Storing a line under the next key of the current sentence makes the dump write it
      just before the next line that is not blank. */
  lemma DumpInsertAfter(k: seq<string>, e: string, o: string, t: Table, s: int, w: int)
    requires !IsBlank(o) && s == Blanks(k) && w == 1 + NonBlankSinceBlank(k) && s in t
    ensures Texts(Dumped(k + [o], t[s := t[s][w := e]])) == Texts(Dumped(k, t)) + [e, o]
  {
    var t' := t[s := t[s][w := e]];
    var ps := Dumped(k, t);
    assert Dumped(k, t') == ps by {
      PositionsBelow(k, w);
      DumpUnreached(k, t, s, w, e);
    }
    assert Dumped(k + [o], t') == ps + [Inserted(e), Original(o)] by {
      DumpKeptLine(k, o, t');
      assert Stored(t', s, w) == [Inserted(e)];
      PairSnoc(ps, Inserted(e), Original(o));
    }
    TextsPair(ps, e, o);
  }

  lemma TextsPair(ps: seq<Piece>, e: string, o: string)
    ensures Texts(ps + [Inserted(e), Original(o)]) == Texts(ps) + [e, o]
  {
    TextsAppend(ps, [Inserted(e), Original(o)]);
    assert Texts([Inserted(e), Original(o)]) == [e, o];
  }

  /** In a restorable file the current sentence holds no key past its ordinary token
      lines. */
  lemma {:induction false} LookupKeysBelow(lines: seq<string>)
    requires Restorable(lines)
    ensures Blanks(lines) in Lookup(lines)
    ensures forall w :: w in Lookup(lines)[Blanks(lines)] ==> w <= TokensSinceBlank(lines)
    decreases |lines|
  {
    LookupCounters(lines);
    if lines != [] {
      var n := |lines| - 1;
      if (ClassOf(lines[n]) == BlankLine || ClassOf(lines[n]) == OrdinaryLine) && Restorable(lines[..n]) {
        var pre, x := lines[..n], lines[n];
        LookupKeysBelow(pre);
        LastOne(lines);
        KeysAfterLine(pre, x);
      } else {
        var pre := lines[..n - 1];
        LookupKeysBelow(pre);
        LastTwo(lines);
        KeysAfterExtra(pre, lines[n - 1], lines[n]);
      }
    }
  }

  lemma KeysAfterLine(pre: seq<string>, x: string)
    requires ClassOf(x) == BlankLine || ClassOf(x) == OrdinaryLine
    requires Blanks(pre) in Lookup(pre)
    requires forall w :: w in Lookup(pre)[Blanks(pre)] ==> w <= TokensSinceBlank(pre)
    ensures var lines := pre + [x];
      Blanks(lines) in Lookup(lines) &&
      forall w :: w in Lookup(lines)[Blanks(lines)] ==> w <= TokensSinceBlank(lines)
  {
    BlanksSnoc(pre, x);
    SinceBlankSnoc(pre, x);
    LookupCounters(pre + [x]);
    if ClassOf(x) == BlankLine {
      LookupBlankLine(pre, x);
    } else {
      LookupOtherLine(pre, x);
    }
  }

  lemma KeysAfterExtra(pre: seq<string>, e: string, o: string)
    requires ClassOf(e) == ExtraLine && ClassOf(o) == OrdinaryLine
    requires Blanks(pre) in Lookup(pre)
    requires forall w :: w in Lookup(pre)[Blanks(pre)] ==> w <= TokensSinceBlank(pre)
    ensures var lines := pre + [e, o];
      Blanks(lines) in Lookup(lines) &&
      forall w :: w in Lookup(lines)[Blanks(lines)] ==> w <= TokensSinceBlank(lines)
  {
    var pe := pre + [e];
    PairSnoc(pre, e, o);
    BlanksSnoc(pre, e);
    SinceBlankSnoc(pre, e);
    BlanksSnoc(pe, o);
    SinceBlankSnoc(pe, o);
    LookupCounters(pe + [o]);
    LookupExtraLine(pre, e);
    LookupOtherLine(pe, o);
  }
}
