/** The token record of the CoNLL layer: word normalisation, the `ConllEntry` built for
    every token line, the dummy root entry that heads every sentence, and the parser
    configuration record. */
module Conll {
  import opened Text

  predicate StartsWithDigit(w: string) {
    |w| > 0 && IsDigit(w[0])
  }

  /** `normalize(word)`: the number pattern `[0-9]+|[0-9]+\.[0-9]+|[0-9]+[0-9,]+` is
      matched at the start of the word only, and every alternative begins with a digit,
      so a word is a number exactly when its first character is a digit. Numbers become
      `NUM`; every other word is lower-cased. */
  function Normalize(word: string): (r: string)
    ensures r == "NUM" <==> StartsWithDigit(word)
    ensures !StartsWithDigit(word) ==> r == Lower(word)
    ensures !StartsWithDigit(r)
  {
    if StartsWithDigit(word) then "NUM" else Lower(word)
  }

  /** Normalisation is idempotent on every word except numbers: `NUM` itself normalises
      to `num`. */
  lemma NormalizeIdempotentIff(word: string)
    ensures Normalize(Normalize(word)) == Normalize(word) <==> !StartsWithDigit(word)
  {
    if StartsWithDigit(word) {
      assert Normalize("NUM") == Lower("NUM");
      assert Lower("NUM")[0] == 'n';
    } else {
      LowerIdempotent(word);
    }
  }

  lemma NormalizeNum()
    ensures Normalize("NUM") == "num"
  {
    assert Lower("NUM") == "num";
  }

  /** One token of a sentence: the columns read from its line, its normalised form, and
      the head and relation the parser predicts for it (`predParentId`, `predRelation`). */
  datatype ConllEntry = ConllEntry(
    id: int,
    form: string,
    lem: string,       // the (normalised) lemma column
    norm: string,
    cpos: string,
    pos: string,
    feats: string,
    parentId: int,
    relation: string,
    predParentId: int,
    predRelation: string)

  /** `ConllEntry(id, form, lemma, cpos, pos, feats, parent_id, relation)`: the lemma is
      stored normalised, the form is stored as given together with its normalisation, and
      the prediction starts out attached to the dummy root with relation `root`. */
  function NewEntry(id: int, form: string, lem: string, cpos: string, pos: string,
                    feats: string, parentId: int, relation: string): (e: ConllEntry)
    ensures e.predParentId == 0 && e.predRelation == "root"
    ensures e.lem == Normalize(lem) && e.norm == Normalize(form)
    ensures e.id == id && e.form == form && e.cpos == cpos && e.pos == pos
    ensures e.feats == feats && e.parentId == parentId && e.relation == relation
  {
    ConllEntry(id, form, Normalize(lem), Normalize(form), cpos, pos, feats,
               parentId, relation, 0, "root")
  }

  /** The dummy root that opens every sentence `read_conll` yields. */
  function Root(): (e: ConllEntry)
    ensures e.id == 0 && e.form == "*root*" && e.norm == "*root*"
    ensures e.lem == "*root-lemma*" && e.cpos == "ROOT-POS" && e.pos == "ROOT-CPOS"
    ensures e.feats == "FEATS-ROOT" && e.parentId == 0 && e.relation == "rroot"
  {
    assert Lower("*root*") == "*root*";
    assert Lower("*root-lemma*") == "*root-lemma*";
    NewEntry(0, "*root*", "*root-lemma*", "ROOT-POS", "ROOT-CPOS", "FEATS-ROOT", 0, "rroot")
  }

  /** The parser state record: the word at the top of the first list, the word at the
      top of the buffer, the sentence and the arcs built so far as (head, dependent). */
  datatype CovingtonConfiguration = CovingtonConfiguration(
    l1: int, b: int, sentence: seq<ConllEntry>, arcs: set<(int, int)>)
}
