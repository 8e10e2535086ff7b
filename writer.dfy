/** `write_conll`: every sentence is written as one line per real token (the dummy root
    is not written), with the predicted head and relation in columns 7 and 8, followed by
    one blank line. A file is modelled as the sequence of lines written to it. */
module Writer {
  import opened Text
  import opened Conll
  import opened Reader

  /** The ten columns written for an entry. */
  function Columns(e: ConllEntry): (cols: seq<string>)
    ensures |cols| == 10
  {
    [IntToString(e.id), e.form, e.lem, e.cpos, e.pos, e.feats,
     IntToString(e.predParentId), e.predRelation, "_", "_"]
  }

  function EntryLine(e: ConllEntry): string {
    Join(Columns(e), "\t") + "\n"
  }

  /** The lines of the entries, in order. */
  function EntryLines(es: seq<ConllEntry>): seq<string> {
    seq(|es|, j requires 0 <= j < |es| => EntryLine(es[j]))
  }

  /** The lines written for one sentence: its entries after the first, then a blank
      line. */
  function SentenceLines(s: seq<ConllEntry>): seq<string> {
    EntryLines(Tail(s)) + ["\n"]
  }

  /** `s[1:]`, which is empty for an empty list. */
  function Tail(s: seq<ConllEntry>): seq<ConllEntry> {
    if s == [] then [] else s[1..]
  }

  /** The lines `write_conll` writes for these sentences. */
  function Written(ss: seq<seq<ConllEntry>>): seq<string>
    decreases |ss|
  {
    if ss == [] then [] else Written(ss[..|ss| - 1]) + SentenceLines(ss[|ss| - 1])
  }

  method WriteConll(sentences: seq<seq<ConllEntry>>) returns (out: seq<string>)
    ensures out == Written(sentences)
  {
    out := [];
    var i := 0;
    while i < |sentences|
      invariant 0 <= i <= |sentences|
      invariant out == Written(sentences[..i])
    {
      var rest := Tail(sentences[i]);
      var j := 0;
      while j < |rest|
        invariant 0 <= j <= |rest|
        invariant out == Written(sentences[..i]) + EntryLines(rest[..j])
      {
        EntryLinesSnoc(rest, j);
        out := out + [EntryLine(rest[j])];
        j := j + 1;
      }
      assert rest[..j] == rest;
      out := out + ["\n"];
      WrittenSnoc(sentences, i);
      i := i + 1;
    }
    assert sentences[..i] == sentences;
  }

  lemma EntryLinesSnoc(es: seq<ConllEntry>, j: nat)
    requires j < |es|
    ensures EntryLines(es[..j + 1]) == EntryLines(es[..j]) + [EntryLine(es[j])]
  {
    assert es[..j + 1][..j] == es[..j];
  }

  lemma WrittenSnoc(ss: seq<seq<ConllEntry>>, i: nat)
    requires i < |ss|
    ensures Written(ss[..i + 1]) == Written(ss[..i]) + SentenceLines(ss[i])
  {
    assert ss[..i + 1][..i] == ss[..i];
  }

  // ---------------------------------------------------------------- line format

  /** An entry whose line can be read back: its id is not negative and none of its
      text columns holds a tab or a newline. */
  predicate Writable(e: ConllEntry) {
    && e.id >= 0
    && '\t' !in e.form && '\t' !in e.lem && '\t' !in e.cpos && '\t' !in e.pos
    && '\t' !in e.feats && '\t' !in e.predRelation
    && '\n' !in e.form && '\n' !in e.lem && '\n' !in e.cpos && '\n' !in e.pos
    && '\n' !in e.feats && '\n' !in e.predRelation
  }

  /** Each written line holds exactly the ten columns: id, form, lemma, coarse and fine
      tag, features, predicted head, predicted relation and two `_`. */
  lemma EntryLineFields(e: ConllEntry)
    requires Writable(e)
    ensures IsLine(EntryLine(e))
    ensures Fields(EntryLine(e)) == Columns(e)
  {
    var cols := Columns(e);
    var body := Join(cols, "\t");
    forall i | 0 <= i < |cols| ensures '\t' !in cols[i] && '\n' !in cols[i] { }
    JoinNoChar(cols, "\t", '\n');
    JoinFirst(cols, "\t");
    JoinLast(cols, "\t");
    StripNewline(body);
    assert EntryLine(e)[..|EntryLine(e)| - 1] == body;
    SplitJoin(cols, '\t');
    assert "\t" == ['\t'];
  }

  /** The line of a writable entry is read back as the entry the reader builds from its
      columns: the predicted head and relation become the head and relation. */
  function Reentry(e: ConllEntry): (r: ConllEntry)
    ensures r.id == e.id && r.form == e.form && r.cpos == e.cpos && r.pos == e.pos
    ensures r.feats == e.feats && r.norm == Normalize(e.form) && r.lem == Normalize(e.lem)
    ensures r.parentId == e.predParentId && r.relation == e.predRelation
  {
    NewEntry(e.id, e.form, e.lem, e.cpos, e.pos, e.feats, e.predParentId, e.predRelation)
  }

  lemma KindOfEntryLine(e: ConllEntry)
    requires Writable(e)
    ensures Kind(EntryLine(e)) == Token(Reentry(e))
  {
    var line := EntryLine(e);
    var cols := Columns(e);
    EntryLineFields(e);
    assert line[0] == IntToString(e.id)[0] by { JoinFirst(cols, "\t"); }
    assert !IsComment(line);
    assert Fields(line) != [""];
    assert !IsExtraId(cols[0]);
    ParseIntToString(e.id);
    ParseIntToString(e.predParentId);
    assert ParseFields(cols) == Entry(Reentry(e));
  }

  predicate WritableSentences(ss: seq<seq<ConllEntry>>) {
    forall k, j :: 0 <= k < |ss| && 1 <= j < |ss[k]| ==> Writable(ss[k][j])
  }

  /** The entries the reader builds back from the lines of these entries. */
  function RereadEntries(es: seq<ConllEntry>): (r: seq<ConllEntry>)
    ensures |r| == |es| && forall j :: 0 <= j < |es| ==> r[j] == Reentry(es[j])
    decreases |es|
  {
    if es == [] then [] else RereadEntries(es[..|es| - 1]) + [Reentry(es[|es| - 1])]
  }

  lemma {:induction false} EntriesOfEntryLines(es: seq<ConllEntry>)
    requires forall j :: 0 <= j < |es| ==> Writable(es[j])
    ensures Entries(EntryLines(es)) == RereadEntries(es)
    decreases |es|
  {
    if es != [] {
      var n := |es| - 1;
      EntriesOfEntryLines(es[..n]);
      var ls := EntryLines(es);
      assert ls[..n] == EntryLines(es[..n]);
      KindOfEntryLine(es[n]);
    }
  }

  lemma NoBlankEntryLines(es: seq<ConllEntry>)
    requires forall j :: 0 <= j < |es| ==> Writable(es[j])
    ensures NoBlank(EntryLines(es))
  {
    forall i | 0 <= i < |es| ensures !IsBlank(EntryLines(es)[i]) {
      KindOfEntryLine(es[i]);
      BlankFields(EntryLines(es)[i]);
    }
  }

  /** What reading back the lines of the sentences gives: per sentence, the dummy root
      followed by the re-read entries. */
  function Reread(ss: seq<seq<ConllEntry>>): (r: seq<seq<ConllEntry>>)
    ensures |r| == |ss|
    ensures forall k :: 0 <= k < |ss| ==> r[k] == [Root()] + RereadEntries(Tail(ss[k]))
    decreases |ss|
  {
    if ss == [] then []
    else Reread(ss[..|ss| - 1]) + [[Root()] + RereadEntries(Tail(ss[|ss| - 1]))]
  }

  lemma ReadSentenceLines(s: seq<ConllEntry>)
    requires |s| >= 2 && forall j :: 1 <= j < |s| ==> Writable(s[j])
    ensures Read(EntryLines(Tail(s))) == [[Root()] + RereadEntries(Tail(s))]
  {
    var es := Tail(s);
    assert forall j :: 0 <= j < |es| ==> es[j] == s[j + 1];
    EntriesOfEntryLines(es);
    NoBlankEntryLines(es);
    ReadWithoutBlank(EntryLines(es));
  }

  lemma NewlineBlank()
    ensures IsBlank("\n") && Kind("\n") == Blank
  {
    assert StripLeft("\n") == "";
    assert Strip("\n") == "";
    assert Fields("\n") == [""];
    BlankFields("\n");
  }

  lemma WrittenLast(ss: seq<seq<ConllEntry>>)
    requires |ss| > 0
    ensures Written(ss) == Written(ss[..|ss| - 1]) + (EntryLines(Tail(ss[|ss| - 1])) + ["\n"])
  {
  }

  lemma ReadSentenceBlock(s: seq<ConllEntry>)
    requires |s| >= 2 && forall j :: 1 <= j < |s| ==> Writable(s[j])
    ensures Read(EntryLines(Tail(s)) + ["\n"]) == [[Root()] + RereadEntries(Tail(s))]
  {
    var body := EntryLines(Tail(s));
    ReadSentenceLines(s);
    NewlineBlank();
    ReadAtBlank(body, "\n", []);
    assert body + ["\n"] + [] == body + ["\n"];
    assert Read([]) == [];
  }

  lemma {:induction false} ReadWritten(ss: seq<seq<ConllEntry>>)
    requires forall k :: 0 <= k < |ss| ==> |ss[k]| >= 2
    requires WritableSentences(ss)
    ensures Read(Written(ss)) == Reread(ss)
    decreases |ss|
  {
    if ss != [] {
      var n := |ss| - 1;
      var pre := ss[..n];
      ReadWritten(pre);
      WrittenLast(ss);
      ReadSentenceBlock(ss[n]);
      ReadAfterWritten(pre, EntryLines(Tail(ss[n])) + ["\n"]);
    }
  }

  lemma ReadAfterNewline(a: seq<string>, b: seq<string>)
    ensures Read(a + ["\n"] + b) == Read(a + ["\n"]) + Read(b)
  {
    NewlineBlank();
    ReadAtBlank(a, "\n", b);
    ReadAtBlank(a, "\n", []);
    assert a + ["\n"] + [] == a + ["\n"];
    assert Read([]) == [];
  }

  /** Read after a file of written sentences composes. */
  lemma ReadAfterWritten(ss: seq<seq<ConllEntry>>, b: seq<string>)
    ensures Read(Written(ss) + b) == Read(Written(ss)) + Read(b)
  {
    if ss == [] {
      assert Written(ss) + b == b;
    } else {
      var n := |ss| - 1;
      var a := Written(ss[..n]) + EntryLines(Tail(ss[n]));
      WrittenLast(ss);
      assert Written(ss) == a + ["\n"];
      ReadAfterNewline(a, b);
    }
  }

  /** Round trip: reading back the file `write_conll` wrote gives, for every sentence
      with at least one real token, the dummy root and then per token the same id,
      form, tags and features, with the head and relation that were predicted. */
  lemma WriteReadRoundTrip(ss: seq<seq<ConllEntry>>)
    requires forall k :: 0 <= k < |ss| ==> |ss[k]| >= 2
    requires WritableSentences(ss)
    ensures WellFormed(FileLines(Concat(Written(ss))))
    ensures Read(FileLines(Concat(Written(ss)))) == Reread(ss)
  {
    WrittenGood(ss);
    FileLinesConcat(Written(ss));
    ReadWritten(ss);
  }

  /** Lines that end in their only newline and that the reader does not reject. */
  predicate Good(ls: seq<string>) {
    forall i :: 0 <= i < |ls| ==> IsLine(ls[i]) && !Kind(ls[i]).Malformed?
  }

  lemma GoodAppend(a: seq<string>, b: seq<string>)
    requires Good(a) && Good(b)
    ensures Good(a + b)
  {
    forall i | 0 <= i < |a + b| ensures IsLine((a + b)[i]) && !Kind((a + b)[i]).Malformed? {
      if i < |a| { assert (a + b)[i] == a[i]; } else { assert (a + b)[i] == b[i - |a|]; }
    }
  }

  lemma EntryLinesGood(es: seq<ConllEntry>)
    requires forall j :: 0 <= j < |es| ==> Writable(es[j])
    ensures Good(EntryLines(es))
  {
    forall i | 0 <= i < |es| ensures IsLine(EntryLines(es)[i]) && !Kind(EntryLines(es)[i]).Malformed? {
      EntryLineFields(es[i]);
      KindOfEntryLine(es[i]);
    }
  }

  lemma NewlineGood()
    ensures Good(["\n"])
  {
    NewlineBlank();
    assert IsLine("\n");
  }

  lemma WritablePrefix(ss: seq<seq<ConllEntry>>, n: nat)
    requires n <= |ss| && WritableSentences(ss)
    ensures WritableSentences(ss[..n])
  {
    forall k, j | 0 <= k < n && 1 <= j < |ss[..n][k]| ensures Writable(ss[..n][k][j]) {
      assert ss[..n][k] == ss[k];
    }
  }

  lemma WritableTail(ss: seq<seq<ConllEntry>>, k: nat)
    requires k < |ss| && WritableSentences(ss)
    ensures forall j :: 0 <= j < |Tail(ss[k])| ==> Writable(Tail(ss[k])[j])
  {
  }

  lemma {:induction false} WrittenGood(ss: seq<seq<ConllEntry>>)
    requires WritableSentences(ss)
    ensures Good(Written(ss))
    decreases |ss|
  {
    if ss != [] {
      var n := |ss| - 1;
      WritablePrefix(ss, n);
      WrittenGood(ss[..n]);
      WritableTail(ss, n);
      EntryLinesGood(Tail(ss[n]));
      NewlineGood();
      GoodAppend(EntryLines(Tail(ss[n])), ["\n"]);
      WrittenLast(ss);
      GoodAppend(Written(ss[..n]), EntryLines(Tail(ss[n])) + ["\n"]);
    }
  }
}
