/** The search session: the table of vectorised documents, the `INDESearch`
    class that keeps a private copy of it, turns the query into a vector and
    ranks the documents against it.

    The trained TF-IDF vectoriser (`transform`), the doc2vec model
    (`infer_vector`) and the cosine similarity of two vectors are parameters:
    nothing is assumed about them beyond being functions of their inputs. */
module IndeSearch {
  import opened TextNormalizer
  import opened Ranking

  datatype Option<T> = None | Some(value: T)

  /** A document row as loaded: all its columns but the last form the
      feature vector, the last one is the label. */
  datatype Doc = Doc(features: seq<real>, docLabel: string)

  /** The cases in which sklearn's `cosine_similarity` raises `ValueError`
      before returning any score. */
  datatype CosineError =
    | TextColumnInFeatures   // the columns taken as features include the text label column
    | NoSamples              // the table has no rows
    | NoFeatures             // the table or the query has no feature column
    | IncompatibleDimension  // the query and the table differ in width

  datatype Result<T> = Ok(value: T) | Err(error: CosineError)

  /** A pandas frame of documents: `width` feature columns and the label
      column, to which `similarity` may have appended a score column. */
  class Table {
    var width: nat
    var docs: seq<Doc>
    var scoreColumn: Option<seq<real>>

    /** Every row has the frame's columns. */
    ghost predicate Valid()
      reads this
    {
      && (forall i :: 0 <= i < |docs| ==> |docs[i].features| == width)
      && (scoreColumn.Some? ==> |scoreColumn.value| == |docs|)
    }

    /** A frame as loaded from storage, without a score column. */
    constructor (width: nat, docs: seq<Doc>)
      requires forall i :: 0 <= i < |docs| ==> |docs[i].features| == width
      ensures Valid()
      ensures this.width == width && this.docs == docs && scoreColumn == None
    {
      this.width := width;
      this.docs := docs;
      scoreColumn := None;
    }

    /** `DataFrame.copy()`: a new frame with the same contents. */
    method Copy() returns (t: Table)
      requires Valid()
      ensures fresh(t) && t.Valid()
      ensures t.width == width && t.docs == docs && t.scoreColumn == scoreColumn
    {
      t := new Table(width, docs);
      t.scoreColumn := scoreColumn;
    }

    /** The error `cosine_similarity(self.iloc[:, :-1], query)` raises, if
        any, in the order sklearn checks its inputs: a table without rows is
        refused first (an empty column of text still converts to numbers);
        then the feature matrix must convert to numbers, which fails once a
        score column has been appended, because "every column but the last"
        then includes the label column; then the table and the query must
        each have a feature; then their widths must agree. */
    function CosineInputError(query: seq<real>): (r: Option<CosineError>)
      reads this
      ensures r.None? <==> |docs| > 0 && scoreColumn.None? && width > 0 && |query| == width
      ensures |docs| == 0 ==> r == Some(NoSamples)
      ensures |docs| > 0 && scoreColumn.Some? ==> r == Some(TextColumnInFeatures)
      ensures |docs| > 0 && scoreColumn.None? && (width == 0 || |query| == 0) ==> r == Some(NoFeatures)
      ensures |docs| > 0 && scoreColumn.None? && width > 0 && |query| > 0 && |query| != width ==>
        r == Some(IncompatibleDimension)
    {
      if |docs| == 0 then Some(NoSamples)
      else if scoreColumn.Some? then Some(TextColumnInFeatures)
      else if width == 0 || |query| == 0 then Some(NoFeatures)
      else if |query| != width then Some(IncompatibleDimension)
      else None
    }

    /** The score column holds, row by row, the similarity of the row's
        feature vector to `query`. */
    ghost predicate ScoredBy(query: seq<real>, sim: (seq<real>, seq<real>) -> real)
      reads this
    {
      && scoreColumn.Some?
      && |scoreColumn.value| == |docs|
      && forall i :: 0 <= i < |docs| ==> scoreColumn.value[i] == sim(docs[i].features, query)
    }

    /** The last two columns, label and score, row by row (`iloc[:, -2:]`). */
    function LabelsAndScores(): (r: seq<ScoredResult>)
      reads this
      requires Valid() && scoreColumn.Some?
      ensures |r| == |docs|
      ensures forall i :: 0 <= i < |r| ==> r[i].docLabel == docs[i].docLabel && r[i].score == scoreColumn.value[i]
    {
      var rows, scores := docs, scoreColumn.value;
      seq(|rows|, i requires 0 <= i < |rows| => ScoredResult(rows[i].docLabel, scores[i]))
    }

    /** `self["similarity_score"] = scores`. */
    method SetScoreColumn(scores: seq<real>)
      requires Valid() && |scores| == |docs|
      modifies this
      ensures Valid()
      ensures width == old(width) && docs == old(docs) && scoreColumn == Some(scores)
    {
      scoreColumn := Some(scores);
    }
  }

  /** One search: the query text, the number of results wanted and a private
      copy of the document table. */
  class INDESearch {
    var query: string
    var topValues: int
    var database: Table

    ghost predicate Valid()
      reads this, database
    {
      database.Valid()
    }

    /** Keeps the query and the result count, and copies the table so that
        scoring never writes into the caller's frame. */
    constructor (query: string, topValues: int, source: Table)
      requires source.Valid()
      ensures Valid()
      ensures this.query == query && this.topValues == topValues
      ensures fresh(database)
      ensures database.width == source.width && database.docs == source.docs
      ensures database.scoreColumn == source.scoreColumn
    {
      var copy := source.Copy();
      this.query := query;
      this.topValues := topValues;
      database := copy;
    }

    /** `cleaning_query_tfidf`: the vectoriser applied to the normalised
        query text. A query made only of undesirable tokens is vectorised as
        the empty document. */
    function CleaningQueryTfidf(tokenize: string -> seq<string>, stem: string -> string,
                                stopwords: seq<string>, transform: string -> seq<real>): (r: seq<real>)
      reads this
      ensures (forall w :: w in tokenize(query) ==> w in UndesirableValues(stopwords)) ==> r == transform("")
    {
      var tokens, undesirable := tokenize(query), UndesirableValues(stopwords);
      var stems := TfidfTokens(tokens, stem, undesirable);
      assert (forall w :: w in tokens ==> w in undesirable) ==> stems == [] by {
        if stems != [] {
          assert stems[0] in stems;
        }
      }
      transform(TfidfQuery(query, tokenize, stem, stopwords))
    }

    /** `cleaning_query_doc2vec`: the embedding model applied to the kept,
        lower-cased tokens. A query made only of undesirable tokens is
        inferred from the empty token list. */
    function CleaningQueryDoc2Vec(tokenize: string -> seq<string>, stopwords: seq<string>,
                                  infer: seq<string> -> seq<real>): (r: seq<real>)
      reads this
      ensures (forall w :: w in tokenize(query) ==> w in UndesirableValues(stopwords)) ==> r == infer([])
    {
      var tokens, undesirable := tokenize(query), UndesirableValues(stopwords);
      var doc := Doc2VecTokens(tokens, undesirable);
      assert (forall w :: w in tokens ==> w in undesirable) ==> doc == [] by {
        if doc != [] {
          assert doc[0] in doc;
        }
      }
      infer(doc)
    }

    /** `similarity`: scores every row of the private copy, sorts the rows by
        score, highest first, and returns the first `top_values` of them as
        (label, score) pairs. When the similarity cannot be computed, nothing
        is written and the error is returned. */
    method Similarity(cleanQuery: seq<real>, sim: (seq<real>, seq<real>) -> real)
      returns (r: Result<seq<ScoredResult>>)
      requires Valid()
      modifies database
      ensures Valid()
      ensures database.width == old(database.width) && database.docs == old(database.docs)
      ensures old(database.CosineInputError(cleanQuery)).Some? ==>
        && r == Err(old(database.CosineInputError(cleanQuery)).value)
        && database.scoreColumn == old(database.scoreColumn)
      ensures old(database.CosineInputError(cleanQuery)).None? ==>
        && database.ScoredBy(cleanQuery, sim)
        && r.Ok?
        && IsTopK(r.value, database.LabelsAndScores())
        && var n := |database.docs|;
          && (topValues >= 0 ==> |r.value| == if topValues <= n then topValues else n)
          && (topValues < 0 ==> |r.value| == if n + topValues >= 0 then n + topValues else 0)
    {
      var err := database.CosineInputError(cleanQuery);
      if err.Some? {
        return Err(err.value);
      }
      var docs := database.docs;
      var scores := seq(|docs|, i requires 0 <= i < |docs| => sim(docs[i].features, cleanQuery));
      database.SetScoreColumn(scores);
      var pool := database.LabelsAndScores();
      var sorted := SortByScoreDescending(pool);
      TopKOfSortedIsTopK(pool, sorted, topValues);
      r := Ok(TopK(sorted, topValues));
    }
  }

  /** Both query vectors depend on the query only through its kept tokens:
      two sessions whose queries keep the same tokens, in the same order,
      get the same TF-IDF vector and the same doc2vec vector, whatever
      punctuation, stopwords or newlines surround those tokens. */
  lemma QueryVectorsDependOnKeptTokens(a: INDESearch, b: INDESearch, tokenize: string -> seq<string>,
                                       stem: string -> string, stopwords: seq<string>,
                                       transform: string -> seq<real>, infer: seq<string> -> seq<real>)
    requires Kept(tokenize(a.query), UndesirableValues(stopwords)) == Kept(tokenize(b.query), UndesirableValues(stopwords))
    ensures a.CleaningQueryTfidf(tokenize, stem, stopwords, transform) == b.CleaningQueryTfidf(tokenize, stem, stopwords, transform)
    ensures a.CleaningQueryDoc2Vec(tokenize, stopwords, infer) == b.CleaningQueryDoc2Vec(tokenize, stopwords, infer)
  {
  }

  /** A caller in the manner of the web front end: it builds one session over
      a shared table and calls `similarity` once per query vector. The shared
      table is never changed. A first successful call appends the score column
      to the private copy, so every later call on the same session fails. */
  method RepeatedSimilarity(source: Table, query: string, topValues: int,
                            queries: seq<seq<real>>, sim: (seq<real>, seq<real>) -> real)
    returns (results: seq<Result<seq<ScoredResult>>>)
    requires source.Valid()
    ensures unchanged(source)
    ensures |results| == |queries|
    ensures |queries| > 0 ==> (results[0].Ok? <==> source.CosineInputError(queries[0]).None?)
    ensures |queries| > 0 && results[0].Ok? ==>
      forall i :: 0 < i < |queries| ==> results[i] == Err(TextColumnInFeatures)
  {
    var session := new INDESearch(query, topValues, source);
    results := [];
    for i := 0 to |queries|
      invariant session.Valid() && fresh(session.database)
      invariant unchanged(source)
      invariant session.database.width == source.width && session.database.docs == source.docs
      invariant i == 0 ==> session.database.scoreColumn == source.scoreColumn
      invariant |results| == i
      invariant i > 0 ==> (results[0].Ok? <==> source.CosineInputError(queries[0]).None?)
      invariant i > 0 && results[0].Ok? ==> session.database.scoreColumn.Some?
      invariant i > 0 && results[0].Ok? ==> forall j :: 0 < j < i ==> results[j] == Err(TextColumnInFeatures)
    {
      var r := session.Similarity(queries[i], sim);
      results := results + [r];
    }
  }
}
