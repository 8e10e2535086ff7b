/** `vocab`: counts of the normalised forms, lemmas, tags, features and relations over
    every sentence of a file, the dummy root included, and index maps for the forms and
    lemmas. */
module Vocabulary {
  import opened Conll
  import opened Reader

  /** A `collections.Counter`: a missing key counts zero. */
  type Counter = map<string, nat>

  function Count(c: Counter, w: string): nat {
    if w in c then c[w] else 0
  }

  /** The counter holds exactly the elements of `m`, each with its multiplicity. */
  ghost predicate Tallies(c: Counter, m: multiset<string>) {
    forall w :: (w in c <==> w in m) && Count(c, w) == m[w]
  }

  /** `Counter.update(xs)`: every element of `xs` adds one to its own count. */
  method Update(c: Counter, xs: seq<string>) returns (r: Counter)
    ensures r.Keys == c.Keys + set x | x in xs
    ensures forall w :: Count(r, w) == Count(c, w) + multiset(xs)[w]
  {
    r := c;
    var i := 0;
    while i < |xs|
      invariant 0 <= i <= |xs|
      invariant r.Keys == c.Keys + set x | x in xs[..i]
      invariant forall w :: Count(r, w) == Count(c, w) + multiset(xs[..i])[w]
    {
      assert xs[..i + 1] == xs[..i] + [xs[i]];
      r := r[xs[i] := Count(r, xs[i]) + 1];
      i := i + 1;
    }
    assert xs[..i] == xs;
  }

  lemma UpdateTallies(c: Counter, m: multiset<string>, xs: seq<string>, r: Counter)
    requires Tallies(c, m)
    requires r.Keys == c.Keys + set x | x in xs
    requires forall w :: Count(r, w) == Count(c, w) + multiset(xs)[w]
    ensures Tallies(r, m + multiset(xs))
  {
    forall w ensures (w in r <==> w in m + multiset(xs)) && Count(r, w) == (m + multiset(xs))[w] {
      assert w in xs <==> w in multiset(xs);
    }
  }

  /** The columns `vocab` counts. */
  datatype Column = Norm | Lemma | Cpos | Pos | Feats | Relation

  function Value(e: ConllEntry, col: Column): string {
    match col
    case Norm => e.norm
    case Lemma => e.lem
    case Cpos => e.cpos
    case Pos => e.pos
    case Feats => e.feats
    case Relation => e.relation
  }

  /** `[node.<col> for node in sentence]` */
  function ColumnOf(s: seq<ConllEntry>, col: Column): (r: seq<string>)
    ensures |r| == |s| && forall i :: 0 <= i < |s| ==> r[i] == Value(s[i], col)
  {
    seq(|s|, i requires 0 <= i < |s| => Value(s[i], col))
  }

  /** Every value of the column over all the sentences, root entries included. */
  function Occurrences(ss: seq<seq<ConllEntry>>, col: Column): multiset<string>
    decreases |ss|
  {
    if ss == [] then multiset{}
    else Occurrences(ss[..|ss| - 1], col) + multiset(ColumnOf(ss[|ss| - 1], col))
  }

  lemma OccurrencesSnoc(ss: seq<seq<ConllEntry>>, i: nat, col: Column)
    requires i < |ss|
    ensures Occurrences(ss[..i + 1], col) == Occurrences(ss[..i], col) + multiset(ColumnOf(ss[i], col))
  {
    assert ss[..i + 1][..i] == ss[..i];
  }

  function Distinct(m: multiset<string>): set<string> {
    set w | w in m
  }

  /** `{w: i for i, w in enumerate(keys)}`: every key gets its own number in
      `0 .. |keys| - 1`, and every such number is used. */
  ghost predicate IsIndex(index: map<string, int>, keys: set<string>) {
    && index.Keys == keys
    && (forall w :: w in index ==> 0 <= index[w] < |keys|)
    && (forall n :: 0 <= n < |keys| ==> n in index.Values)
    && (forall v, w :: v in index && w in index && index[v] == index[w] ==> v == w)
  }

  /** The numbering of the keys in the order the dictionary lists them; that order is
      not specified, so any key may come next. */
  method Enumerate(keys: set<string>) returns (index: map<string, int>)
    ensures IsIndex(index, keys)
  {
    index := map[];
    var rest := keys;
    var i := 0;
    ghost var order: seq<string> := [];
    while rest != {}
      invariant rest <= keys && index.Keys == keys - rest && i + |rest| == |keys|
      invariant |order| == i && forall n :: 0 <= n < i ==> order[n] in index && index[order[n]] == n
      invariant forall w :: w in index ==> 0 <= index[w] < i && order[index[w]] == w
      decreases |rest|
    {
      var w :| w in rest;
      index := index[w := i];
      order := order + [w];
      rest := rest - {w};
      i := i + 1;
    }
    forall n | 0 <= n < |keys| ensures n in index.Values {
      assert index[order[n]] == n;
    }
  }

  /** What `vocab` returns: the form and lemma counters with their index maps, and the
      distinct coarse tags, fine tags, features and relations. */
  datatype Vocab = Vocab(
    words: Counter, w2i: map<string, int>,
    lemmas: Counter, l2i: map<string, int>,
    cpos: set<string>, pos: set<string>, feats: set<string>, rels: set<string>)

  method BuildVocab(lines: seq<string>) returns (v: Vocab)
    requires WellFormed(lines)
    ensures Tallies(v.words, Occurrences(Read(lines), Norm))
    ensures Tallies(v.lemmas, Occurrences(Read(lines), Lemma))
    ensures IsIndex(v.w2i, v.words.Keys) && IsIndex(v.l2i, v.lemmas.Keys)
    ensures v.cpos == Distinct(Occurrences(Read(lines), Cpos))
    ensures v.pos == Distinct(Occurrences(Read(lines), Pos))
    ensures v.feats == Distinct(Occurrences(Read(lines), Feats))
    ensures v.rels == Distinct(Occurrences(Read(lines), Relation))
  {
    var sentences := ReadConll(lines);
    var words: Counter, lemmas: Counter, cpos: Counter := map[], map[], map[];
    var pos: Counter, feats: Counter, rels: Counter := map[], map[], map[];
    var i := 0;
    while i < |sentences|
      invariant 0 <= i <= |sentences|
      invariant Tallies(words, Occurrences(sentences[..i], Norm))
      invariant Tallies(lemmas, Occurrences(sentences[..i], Lemma))
      invariant Tallies(cpos, Occurrences(sentences[..i], Cpos))
      invariant Tallies(pos, Occurrences(sentences[..i], Pos))
      invariant Tallies(feats, Occurrences(sentences[..i], Feats))
      invariant Tallies(rels, Occurrences(sentences[..i], Relation))
    {
      var sentence := sentences[i];
      words := Tally(words, sentences, i, Norm);
      lemmas := Tally(lemmas, sentences, i, Lemma);
      cpos := Tally(cpos, sentences, i, Cpos);
      pos := Tally(pos, sentences, i, Pos);
      feats := Tally(feats, sentences, i, Feats);
      rels := Tally(rels, sentences, i, Relation);
      i := i + 1;
    }
    assert sentences[..i] == sentences;
    var w2i := Enumerate(words.Keys);
    var l2i := Enumerate(lemmas.Keys);
    v := Vocab(words, w2i, lemmas, l2i, cpos.Keys, pos.Keys, feats.Keys, rels.Keys);
  }

  /** One `<col>Count.update([node.<col> for node in sentence])` of the loop over the
      sentences. */
  method Tally(c: Counter, sentences: seq<seq<ConllEntry>>, i: nat, col: Column) returns (r: Counter)
    requires i < |sentences| && Tallies(c, Occurrences(sentences[..i], col))
    ensures Tallies(r, Occurrences(sentences[..i + 1], col))
  {
    var xs := ColumnOf(sentences[i], col);
    r := Update(c, xs);
    UpdateTallies(c, Occurrences(sentences[..i], col), xs, r);
    OccurrencesSnoc(sentences, i, col);
  }

  // ---------------------------------------------------------------- root counting

  lemma ColumnOfAppend(a: seq<ConllEntry>, b: seq<ConllEntry>, col: Column)
    ensures ColumnOf(a + b, col) == ColumnOf(a, col) + ColumnOf(b, col)
  {
  }

  /** The dummy root is counted once per sentence; the rest of every count comes from
      the real tokens. */
  lemma {:induction false} OccurrencesSplit(ss: seq<seq<ConllEntry>>, col: Column)
    requires forall k :: 0 <= k < |ss| ==> |ss[k]| >= 1 && ss[k][0] == Root()
    ensures Occurrences(ss, col) ==
      multiset{}[Value(Root(), col) := |ss|] + multiset(ColumnOf(Tokens(ss), col))
    decreases |ss|
  {
    if ss != [] {
      var n := |ss| - 1;
      var s := ss[n];
      var v := Value(Root(), col);
      OccurrencesSplit(ss[..n], col);
      SentenceColumn(s, col);
      assert Tokens(ss) == Tokens(ss[..n]) + s[1..];
      ColumnOfAppend(Tokens(ss[..n]), s[1..], col);
      assert multiset{}[v := n + 1] == multiset{}[v := n] + multiset{v};
    }
  }

  lemma SentenceColumn(s: seq<ConllEntry>, col: Column)
    requires |s| >= 1 && s[0] == Root()
    ensures multiset(ColumnOf(s, col)) == multiset{Value(Root(), col)} + multiset(ColumnOf(s[1..], col))
  {
    assert ColumnOf(s, col) == [Value(Root(), col)] + ColumnOf(s[1..], col);
  }

  /** Over a file: each count is the number of sentences for the root's value plus the
      number of token lines that carry the value. */
  lemma VocabCounts(lines: seq<string>, col: Column)
    ensures Occurrences(Read(lines), col) ==
      multiset{}[Value(Root(), col) := |Read(lines)|] + multiset(ColumnOf(Entries(lines), col))
  {
    ReadShape(lines);
    OccurrencesSplit(Read(lines), col);
    ReadTokens(lines);
  }
}
